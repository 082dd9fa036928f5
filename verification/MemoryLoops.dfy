/** The memory loops of `vcongui/defs.h`, on one block of bytes with offsets for pointers. */
module MemoryLoops {

  function NonNegative(n: int): nat { if n < 0 then 0 else n }

  // ---------------------------------------------------------------- brmove

  /** Which source byte ends up in byte `i` of the destination when the source starts `d` bytes above it:
      copying downwards, a byte already overwritten passes its new value on. */
  function Origin(i: nat, d: int, n: int): (r: nat)
    ensures i < n ==> i <= r < n
    decreases n - i
  {
    if 0 < d && i + d <= n - 1 then Origin(i + d, d, n) else i
  }

  /** The address whose old contents are at `j` after the call. */
  function OriginAddress(j: nat, dst: nat, src: nat, n: int): nat {
    if dst <= j < dst + n then src + Origin(j - dst, src - dst, n) else j
  }

  /** The origin of byte `i` is byte `i + d * k` for the largest such `k` that stays inside the block. */
  lemma {:induction false} OriginIs(i: nat, d: int, n: int, k: nat)
    requires i < n && 0 < d && i + d * k <= n - 1 < i + d * (k + 1)
    ensures Origin(i, d, n) == i + d * k
    decreases k
  {
    OneMore(d, k - 1);
    if k == 0 {
    } else {
      StaysIn(d, k);
      OriginIs(i + d, d, n, k - 1);
    }
  }

  lemma OneMore(d: int, j: int)
    ensures d + d * j == d * (j + 1) && d + d * (j + 1) == d * (j + 2)
  {
  }

  lemma StaysIn(d: int, k: int)
    requires 0 < d && 0 < k
    ensures d <= d * k
  {
  }

  /** Counted from the upper end: the bytes of the last `d` places are repeated downwards. */
  lemma OriginClosed(i: nat, d: int, n: int)
    requires i < n
    ensures Origin(i, d, n) == if 0 < d < n then n - 1 - (n - 1 - i) % d else i
  {
    if 0 < d < n {
      var k := (n - 1 - i) / d;
      LastStep(n - 1 - i, d, k);
      OriginIs(i, d, n, k);
    }
  }

  lemma LastStep(m: nat, d: int, k: nat)
    requires 0 < d && k == m / d
    ensures d * k == m - m % d && d * k <= m < d * (k + 1)
  {
  }

  /** The bytes of the destination above place `i` are there, all others are as before. */
  ghost predicate Moving(before: seq<bv8>, now: seq<bv8>, dst: nat, src: nat, n: int, i: int) {
    && |now| == |before|
    && (forall j :: dst <= j < dst + n && i < j - dst ==>
          0 <= OriginAddress(j, dst, src, n) < |before| && j < |now| &&
          now[j] == before[OriginAddress(j, dst, src, n)])
    && (forall j :: 0 <= j < |now| && !(dst <= j < dst + n && i < j - dst) ==> now[j] == before[j])
  }

  lemma MoveOne(before: seq<bv8>, now: seq<bv8>, next: seq<bv8>, dst: nat, src: nat, n: int, i: nat)
    requires i < n && dst + n <= |now| && src + n <= |now| && Moving(before, now, dst, src, n, i)
    requires next == now[dst + i := now[src + i]]
    ensures Moving(before, next, dst, src, n, i - 1)
  {
    assert OriginAddress(dst + i, dst, src, n) == src + Origin(i, src - dst, n);
    if 0 < src - dst && src - dst + i < n {
      assert OriginAddress(src + i, dst, src, n) == src + Origin(i + (src - dst), src - dst, n);
    }
  }

  lemma BytesMoved(before: seq<bv8>, after: seq<bv8>, dst: nat, src: nat, n: int, i: int)
    requires i < 0 && Moving(before, after, dst, src, n, i) && (n > 0 ==> dst + n <= |after| && src + n <= |after|)
    ensures !(0 < src - dst < n) ==> forall j :: dst <= j < dst + n ==> after[j] == before[src + (j - dst)]
    ensures 0 < src - dst < n ==> forall j :: dst <= j < dst + n ==>
      after[j] == before[src + n - 1 - (dst + n - 1 - j) % (src - dst)]
    ensures forall j :: 0 <= j < |after| && !(dst <= j < dst + n) ==> after[j] == before[j]
  {
    forall j | dst <= j < dst + n
      ensures OriginAddress(j, dst, src, n) ==
        if 0 < src - dst < n then src + n - 1 - (dst + n - 1 - j) % (src - dst) else src + (j - dst) {
      OriginClosed(j - dst, src - dst, n);
    }
  }

  /** The loop of brmove. */
  method MoveDown(mem: array<bv8>, dst: nat, src: nat, n: int)
    requires n > 0 ==> dst + n <= mem.Length && src + n <= mem.Length
    modifies mem
    ensures Moving(old(mem[..]), mem[..], dst, src, n, -1)
  {
    var i := n - 1;
    ghost var before := mem[..];
    while i >= 0
      invariant i <= n - 1 && (n >= 0 ==> i >= -1)
      invariant Moving(before, mem[..], dst, src, n, i)
    {
      ghost var now := mem[..];
      mem[dst + i] := mem[src + i];
      MoveOne(before, now, mem[..], dst, src, n, i);
      i := i - 1;
    }
  }

  method Brmove(mem: array<bv8>, dst: nat, src: nat, n: int)
    requires n > 0 ==> dst + n <= mem.Length && src + n <= mem.Length
    modifies mem
    ensures !(0 < src - dst < n) ==> forall j :: dst <= j < dst + n ==> mem[j] == old(mem[src + (j - dst)])
    ensures 0 < src - dst < n ==> forall j :: dst <= j < dst + n ==>
      mem[j] == old(mem[src + n - 1 - (dst + n - 1 - j) % (src - dst)])
    ensures forall j :: 0 <= j < mem.Length && !(dst <= j < dst + n) ==> mem[j] == old(mem[j])
  {
    ghost var before := mem[..];
    MoveDown(mem, dst, src, n);
    BytesMoved(before, mem[..], dst, src, n, -1);
  }

  /** Every byte of the destination gets the byte at the same place of the source. */
  ghost predicate MovesAll(d: int, n: int) {
    forall i: nat :: i < n ==> Origin(i, d, n) == i
  }

  /** brmove moves memory correctly exactly when the source does not start strictly inside the destination. */
  lemma CorrectIff(d: int, n: int)
    ensures MovesAll(d, n) <==> !(0 < d < n)
  {
    if 0 < d < n {
      FirstLost(d, n);
    }
  }

  lemma FirstLost(d: int, n: int)
    requires 0 < d < n
    ensures Origin(0, d, n) >= d
  {
    assert Origin(0, d, n) == Origin(d, d, n);
  }

  // ---------------------------------------------------------------- zeroing

  /** Exactly the `len` bytes from `head` on are zero, the others as before. */
  ghost predicate Zeroed(before: seq<bv8>, after: seq<bv8>, head: nat, len: nat) {
    && |after| == |before|
    && forall j :: 0 <= j < |after| ==> after[j] == if head <= j < head + len then 0 else before[j]
  }

  method Bzero2(mem: array<bv8>, head: nat, n: int)
    requires head + NonNegative(n) <= mem.Length
    modifies mem
    ensures Zeroed(old(mem[..]), mem[..], head, NonNegative(n))
    ensures forall j :: 0 <= j < mem.Length ==> mem[j] == if head <= j < head + n then 0 else old(mem[j])
  {
    var i := 0;
    while i < n
      invariant 0 <= i <= NonNegative(n)
      invariant Zeroed(old(mem[..]), mem[..], head, i)
    {
      mem[head + i] := 0;
      i := i + 1;
    }
  }

  /** One store of a zero of `size` bytes. */
  method StoreZero(mem: array<bv8>, at: nat, size: nat)
    requires at + size <= mem.Length
    modifies mem
    ensures Zeroed(old(mem[..]), mem[..], at, size)
  {
    Bzero2(mem, at, size);
  }

  lemma ZeroedMore(before: seq<bv8>, mid: seq<bv8>, after: seq<bv8>, head: nat, len: nat, size: nat)
    requires Zeroed(before, mid, head, len) && Zeroed(mid, after, head + len, size)
    ensures Zeroed(before, after, head, len + size)
  {
  }

  /** The loops of wzero and lzero: `count` stores through a pointer to units of `size` bytes. */
  method StoreZeros(mem: array<bv8>, head: nat, count: int, size: nat)
    requires head + size * NonNegative(count) <= mem.Length
    modifies mem
    ensures Zeroed(old(mem[..]), mem[..], head, size * NonNegative(count))
  {
    var i := 0;
    while i < count
      invariant 0 <= i <= NonNegative(count)
      invariant Zeroed(old(mem[..]), mem[..], head, size * i)
    {
      ghost var len, mid := size * i, mem[..];
      UnitFits(size, i, NonNegative(count));
      StoreZero(mem, head + size * i, size);
      ZeroedMore(old(mem[..]), mid, mem[..], head, len, size);
      i := i + 1;
    }
  }

  lemma UnitFits(size: nat, i: nat, count: nat)
    requires i < count
    ensures size * i + size == size * (i + 1) && size * (i + 1) <= size * count
  {
  }

  /** A WORD has two bytes. */
  method Wzero(mem: array<bv8>, head: nat, n: int)
    requires head + 2 * NonNegative(n / 2) <= mem.Length
    modifies mem
    ensures forall j :: 0 <= j < mem.Length ==> mem[j] == if head <= j < head + 2 * (n / 2) then 0 else old(mem[j])
  {
    StoreZeros(mem, head, n / 2, 2);
  }

  /** LONG is `long`, which has four bytes or eight. */
  method Lzero(mem: array<bv8>, head: nat, n: int, longSize: nat)
    requires head + longSize * NonNegative(n / 4) <= mem.Length
    modifies mem
    ensures n < 0 ==> mem[..] == old(mem[..])
    ensures n >= 0 ==> forall j :: 0 <= j < mem.Length ==>
      mem[j] == if head <= j < head + longSize * (n / 4) then 0 else old(mem[j])
  {
    StoreZeros(mem, head, n / 4, longSize);
  }

  /** lzero clears the `n` bytes it is asked for, of any whole number of double words, only where `long` has
      four bytes. wzero clears `n` bytes exactly when `n` is even and not negative. */
  lemma ClearedExactly(n: int, longSize: nat)
    requires longSize > 0
    ensures n >= 0 && n % 4 == 0 ==> (longSize * NonNegative(n / 4) == n <==> n == 0 || longSize == 4)
    ensures 2 * NonNegative(n / 2) == n <==> n >= 0 && n % 2 == 0
  {
    if n > 0 && n % 4 == 0 {
      var k := n / 4;
      assert n == 4 * k;
      if longSize < 4 { UnitLess(longSize, 4, k); }
      if longSize > 4 { UnitLess(4, longSize, k); }
    }
  }

  lemma UnitLess(a: nat, b: nat, k: nat)
    requires a < b && k > 0
    ensures a * k < b * k
  {
  }
}
