/** The functions of `include/fixedmath.h` as they run, with the global `errno` as a field. */
module FixedLibrary {
  import opened Basics
  import opened Doubles
  import opened FixedArith
  import opened FixedDouble
  import opened FixedMath
  import opened FixedNearest

  /** The functions of the header and the `errno` they share. */
  class Library {
    var errno: Errno

    constructor ()
      ensures errno == Clear
    {
      errno := Clear;
    }

    method Ftofix(x: real) returns (r: Fixed)
      modifies this
      ensures r == FixedDouble.Ftofix(x).value
      ensures x > 32767.0 ==> r == 0x7FFFFFFF && errno == ERANGE
      ensures x < -32767.0 ==> r == -0x7FFFFFFF && errno == ERANGE
      ensures -32767.0 <= x <= 32767.0 ==> errno == old(errno)
      ensures IsDouble(x) && -32767.0 <= x <= 32767.0 ==>
        (r == NearestAway(65536.0 * x) <==> 65536.0 * x != BELOW_HALF && 65536.0 * x != -BELOW_HALF)
    {
      if IsDouble(x) && -32767.0 <= x <= 32767.0 { FtofixNearestIff(x); }
      if x > 32767.0 {
        errno := ERANGE;
        return 0x7FFFFFFF;
      }
      if x < -32767.0 {
        errno := ERANGE;
        return -0x7FFFFFFF;
      }
      FtofixRange(x);
      return Truncate(Add(Mul(x, 65536.0), if x < 0.0 then -0.5 else 0.5));
    }

    method Fixadd(x: Fixed, y: Fixed) returns (r: Fixed)
      modifies this
      ensures if x + y > 0x7FFFFFFF then r == 0x7FFFFFFF && errno == ERANGE
        else if x + y < -0x80000000 then r == -0x7FFFFFFF && errno == ERANGE
        else r == x + y && errno == old(errno)
    {
      var result := Wrap32(x + y);
      if result >= 0 {
        if x < 0 && y < 0 {
          errno := ERANGE;
          return -0x7FFFFFFF;
        } else {
          return result;
        }
      } else {
        if x > 0 && y > 0 {
          errno := ERANGE;
          return 0x7FFFFFFF;
        } else {
          return result;
        }
      }
    }

    method Fixsub(x: Fixed, y: Fixed) returns (r: Fixed)
      modifies this
      ensures if x == 0 && y == -0x80000000 then r == -0x80000000 && errno == old(errno)
        else if x - y > 0x7FFFFFFF then r == 0x7FFFFFFF && errno == ERANGE
        else if x - y < -0x80000000 then r == -0x7FFFFFFF && errno == ERANGE
        else r == x - y && errno == old(errno)
    {
      var result := Wrap32(x - y);
      if result >= 0 {
        if x < 0 && y > 0 {
          errno := ERANGE;
          return -0x7FFFFFFF;
        } else {
          return result;
        }
      } else {
        if x > 0 && y < 0 {
          errno := ERANGE;
          return 0x7FFFFFFF;
        } else {
          return result;
        }
      }
    }

    method Fixmul(x: Fixed, y: Fixed) returns (r: Fixed)
      modifies this
      ensures r == FixedDouble.Fixmul(x, y).value
      ensures Abs(x * y) > 32767 * 0x1_0000_0000 ==>
        r == (if x * y < 0 then -0x7FFFFFFF else 0x7FFFFFFF) && errno == ERANGE
      ensures Abs(x * y) <= 32767 * 0x1_0000_0000 ==>
        && errno == old(errno) && 2 * Abs(65536 * r - x * y) <= 65536
        && (2 * Abs(65536 * r - x * y) == 65536 ==> Abs(65536 * r) > Abs(x * y))
    {
      ProductWritten(x * y);
      FixmulExact(x, y);
      r := Ftofix(Mul(Fixtof(x), Fixtof(y)));
    }

    method Fixdiv(x: Fixed, y: Fixed) returns (r: Fixed)
      modifies this
      ensures r == FixedDouble.Fixdiv(x, y).value
      ensures y == 0 || Abs(x) > 32767 * Abs(y) ==>
        r == (if (x < 0) != (y < 0) then -0x7FFFFFFF else 0x7FFFFFFF) && errno == ERANGE
      ensures y != 0 && Abs(x) <= 32767 * Abs(y) ==>
        && errno == old(errno) && 2 * Abs(y * r - 65536 * x) <= Abs(y)
        && (2 * Abs(y * r - 65536 * x) == Abs(y) ==> Abs(y * r) > 65536 * Abs(x))
    {
      QuotientWritten(x, y);
      FixdivExact(x, y);
      if y == 0 {
        errno := ERANGE;
        return if x < 0 then -0x7FFFFFFF else 0x7FFFFFFF;
      }
      FixtofExact(y);
      r := Ftofix(Div(Fixtof(x), Fixtof(y)));
    }

    /** A whole calculation. If it starts and ends with `errno` clear, every value is the correct one, but for
        0 - (-2^31). */
    method RunSteps(steps: seq<Step>) returns (values: seq<Fixed>)
      modifies this
      ensures |values| == |steps| && errno == Run(old(errno), steps)
      ensures forall i :: 0 <= i < |steps| ==> values[i] == Result(steps[i]).value
      ensures old(errno) == Clear && errno == Clear ==> forall i :: 0 <= i < |steps| ==>
        (Faithful(steps[i], values[i]) <==> steps[i] != SubStep(0, FIXED_MIN))
    {
      values := [];
      var i := 0;
      while i < |steps|
        invariant 0 <= i <= |steps| && |values| == i && errno == Run(old(errno), steps[..i])
        invariant forall k :: 0 <= k < i ==> values[k] == Result(steps[k]).value
      {
        assert steps[..i + 1][..i] == steps[..i];
        var r := MakeStep(steps[i]);
        values := values + [r];
        i := i + 1;
      }
      assert steps[..i] == steps;
      if old(errno) == Clear && errno == Clear { RunFaithful(steps); }
    }

    method MakeStep(s: Step) returns (r: Fixed)
      modifies this
      ensures r == Result(s).value && errno == After(old(errno), Result(s).error)
    {
      match s
      case AddStep(x, y) =>
        FixaddExact(x, y);
        r := Fixadd(x, y);
      case SubStep(x, y) =>
        FixsubExact(x, y);
        r := Fixsub(x, y);
      case MulStep(x, y) =>
        FixmulExact(x, y);
        r := Fixmul(x, y);
      case DivStep(x, y) =>
        FixdivExact(x, y);
        r := Fixdiv(x, y);
    }

    method Fixceil(x: Fixed) returns (r: int)
      modifies this
      ensures if x > 0x7FFF0000 then r == 0x7FFF && errno == ERANGE
        else errno == old(errno) && (r - 1) * 0x10000 < x <= r * 0x10000
    {
      if x > 0x7FFF0000 {
        errno := ERANGE;
        return 0x7FFF;
      }
      var y := x + 0xFFFF;
      if y > 0 {
        return Shr(y, 16);
      } else {
        return Not(Shr(Not(y), 16));
      }
    }

    method Fixacos(table: seq<Fixed>, x: Fixed) returns (r: Fixed)
      requires |table| == 513
      modifies this
      ensures if -65536 <= x <= 65536 then
          errno == old(errno) && forall k :: 0 <= k <= 512 && NearestEntry(x, k) ==> r == table[k]
        else r == 0 && errno == EDOM
    {
      AcosAsin(table, x);
      if x < -65536 || x > 65536 {
        errno := EDOM;
        return 0;
      }
      return table[AcosIndex(x)];
    }

    method Fixasin(table: seq<Fixed>, x: Fixed) returns (r: Fixed)
      requires |table| == 513
      modifies this
      ensures if -65536 <= x <= 65536 then
          errno == old(errno) && forall k :: 0 <= k <= 512 && NearestEntry(x, k) ==>
            r == Wrap32(0x400000 as int - table[k])
        else r == 0 && errno == EDOM
    {
      AcosAsin(table, x);
      if x < -65536 || x > 65536 {
        errno := EDOM;
        return 0;
      }
      return Wrap32(0x400000 as int - table[AcosIndex(x)]);
    }
  }
}
