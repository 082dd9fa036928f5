/** Byte order: the swaps and the cursor readers of `include/endianrw.h`. */
module Endian {

  datatype ByteOrder = LilEndian | BigEndian

  // ---------------------------------------------------------------- swaps

  function ArchSwap16(d: bv16): bv16 {
    (d << 8) | (d >> 8)
  }

  function ArchSwap32(d: bv32): bv32 {
    (d << 24) | ((d << 8) & 0x00FF0000) | ((d >> 8) & 0x0000FF00) | (d >> 24)
  }

  function Low32(v: bv64): bv32 { (v & 0xFFFFFFFF) as bv32 }

  /** ArchSwap64 swaps the two halves and the bytes in each. */
  method ArchSwap64(d: bv64) returns (val: bv64)
    ensures SwappedHalves(d, val)
    ensures val == (d << 56) | ((d & 0xFF00) << 40) | ((d & 0xFF0000) << 24) | ((d & 0xFF000000) << 8) |
                   ((d >> 8) & 0xFF000000) | ((d >> 24) & 0xFF0000) | ((d >> 40) & 0xFF00) | (d >> 56)
  {
    val := d;
    var lo := Low32(val);
    val := val >> 32;
    var hi := Low32(val);
    val := JoinHalves(ArchSwap32(lo), ArchSwap32(hi));
    EightBytes(d, val);
  }

  /** The last lines of ArchSwap64. */
  method JoinHalves(hi: bv32, lo: bv32) returns (val: bv64)
    ensures Low32(val) == lo && Low32(val >> 32) == hi
  {
    val := hi as bv64;
    val := val << 32;
    val := val | lo as bv64;
  }

  /** Each half of `w` is the other half of `v` with its bytes reversed. */
  predicate SwappedHalves(v: bv64, w: bv64) {
    Low32(w) == ArchSwap32(Low32(v >> 32)) && Low32(w >> 32) == ArchSwap32(Low32(v))
  }

  /** All eight bytes in the opposite order. */
  lemma EightBytes(v: bv64, w: bv64)
    requires SwappedHalves(v, w)
    ensures w == (v << 56) | ((v & 0xFF00) << 40) | ((v & 0xFF0000) << 24) | ((v & 0xFF000000) << 8) |
                 ((v >> 8) & 0xFF000000) | ((v >> 24) & 0xFF0000) | ((v >> 40) & 0xFF00) | (v >> 56)
  {
  }

  function Byte16(v: bv16, i: int): bv8
    requires 0 <= i < 2
  {
    if i == 0 then (v & 0xFF) as bv8 else (v >> 8) as bv8
  }

  function Byte32(v: bv32, i: int): bv8
    requires 0 <= i < 4
  {
    if i == 0 then (v & 0xFF) as bv8
    else if i == 1 then ((v >> 8) & 0xFF) as bv8
    else if i == 2 then ((v >> 16) & 0xFF) as bv8
    else (v >> 24) as bv8
  }

  lemma Swap16Reverses(v: bv16)
    ensures Byte16(ArchSwap16(v), 0) == Byte16(v, 1) && Byte16(ArchSwap16(v), 1) == Byte16(v, 0)
    ensures ArchSwap16(ArchSwap16(v)) == v
  {
  }

  lemma Swap32Reverses(v: bv32)
    ensures forall i :: 0 <= i < 4 ==> Byte32(ArchSwap32(v), i) == Byte32(v, 3 - i)
    ensures ArchSwap32(ArchSwap32(v)) == v
  {
  }

  /** Swapping twice gives the value back. */
  lemma Swap64Involution(v: bv64, w: bv64, u: bv64)
    requires SwappedHalves(v, w) && SwappedHalves(w, u)
    ensures u == v
  {
    Swap32Reverses(Low32(v));
    Swap32Reverses(Low32(v >> 32));
    SameHalves(u, v);
  }

  lemma SameHalves(u: bv64, v: bv64)
    requires Low32(u) == Low32(v) && Low32(u >> 32) == Low32(v >> 32)
    ensures u == v
  {
  }

  // ---------------------------------------------------------------- what bytes mean

  /** The value each reader returns, of the bytes in the order in which it reads them. */
  function Le16(b0: bv8, b1: bv8): bv16 { (b1 as bv16 << 8) | b0 as bv16 }

  function Be16(b0: bv8, b1: bv8): bv16 { (b0 as bv16 << 8) | b1 as bv16 }

  function Le32(b0: bv8, b1: bv8, b2: bv8, b3: bv8): bv32 {
    (b3 as bv32 << 24) | (b2 as bv32 << 16) | (b1 as bv32 << 8) | b0 as bv32
  }

  function Be32(b0: bv8, b1: bv8, b2: bv8, b3: bv8): bv32 {
    (b0 as bv32 << 24) | (b1 as bv32 << 16) | (b2 as bv32 << 8) | b3 as bv32
  }

  lemma BigIsReversed(b0: bv8, b1: bv8, b2: bv8, b3: bv8)
    ensures Be16(b0, b1) == Le16(b1, b0) && Be32(b0, b1, b2, b3) == Le32(b3, b2, b1, b0)
  {
  }

  lemma Le16Bytes(b0: bv8, b1: bv8, v: bv16)
    ensures Byte16(Le16(b0, b1), 0) == b0 && Byte16(Le16(b0, b1), 1) == b1
    ensures Le16(Byte16(v, 0), Byte16(v, 1)) == v
  {
  }

  lemma Le32Bytes(b0: bv8, b1: bv8, b2: bv8, b3: bv8)
    ensures var v := Le32(b0, b1, b2, b3);
      Byte32(v, 0) == b0 && Byte32(v, 1) == b1 && Byte32(v, 2) == b2 && Byte32(v, 3) == b3
  {
  }

  lemma Le32OfBytes(v: bv32)
    ensures Le32(Byte32(v, 0), Byte32(v, 1), Byte32(v, 2), Byte32(v, 3)) == v
  {
  }

  /** MAKELONG of `include/common.h`. */
  function MakeLong(low: bv16, high: bv16): bv32 { low as bv32 | (high as bv32 << 16) }

  /** Two 16-bit reads joined by MAKELONG are one 32-bit read. */
  lemma TwoReadsJoined(b0: bv8, b1: bv8, b2: bv8, b3: bv8)
    ensures MakeLong(Le16(b0, b1), Le16(b2, b3)) == Le32(b0, b1, b2, b3)
    ensures MakeLong(Be16(b2, b3), Be16(b0, b1)) == Be32(b0, b1, b2, b3)
  {
  }

  // ---------------------------------------------------------------- the memcpy branch

  /** What memcpy into an integer gives on a host of the given byte order. */
  function Host16(host: ByteOrder, b0: bv8, b1: bv8): bv16 {
    if host == LilEndian then Le16(b0, b1) else Be16(b0, b1)
  }

  function Host32(host: ByteOrder, b0: bv8, b1: bv8, b2: bv8, b3: bv8): bv32 {
    if host == LilEndian then Le32(b0, b1, b2, b3) else Be32(b0, b1, b2, b3)
  }

  /** ArchSwapLE16 and so on: `order` is MGUI_BYTEORDER, the order of the data is `data`. */
  function Swap16(order: ByteOrder, data: ByteOrder, v: bv16): bv16 {
    if order == data then v else ArchSwap16(v)
  }

  function Swap32(order: ByteOrder, data: ByteOrder, v: bv32): bv32 {
    if order == data then v else ArchSwap32(v)
  }

  function Value16(data: ByteOrder, b0: bv8, b1: bv8): bv16 {
    if data == LilEndian then Le16(b0, b1) else Be16(b0, b1)
  }

  function Value32(data: ByteOrder, b0: bv8, b1: bv8, b2: bv8, b3: bv8): bv32 {
    if data == LilEndian then Le32(b0, b1, b2, b3) else Be32(b0, b1, b2, b3)
  }

  lemma Swap16OfBytes(b0: bv8, b1: bv8)
    ensures ArchSwap16(Le16(b0, b1)) == Be16(b0, b1) && ArchSwap16(Be16(b0, b1)) == Le16(b0, b1)
    ensures Le16(b0, b1) == Be16(b0, b1) <==> b0 == b1
  {
  }

  lemma SwapLe32(b0: bv8, b1: bv8, b2: bv8, b3: bv8)
    ensures ArchSwap32(Le32(b0, b1, b2, b3)) == Be32(b0, b1, b2, b3)
  {
  }

  lemma SwapBe32(b0: bv8, b1: bv8, b2: bv8, b3: bv8)
    ensures ArchSwap32(Be32(b0, b1, b2, b3)) == Le32(b0, b1, b2, b3)
  {
  }

  lemma SameBothWays(b0: bv8, b1: bv8, b2: bv8, b3: bv8)
    ensures Le32(b0, b1, b2, b3) == Be32(b0, b1, b2, b3) <==> b0 == b3 && b1 == b2
  {
    BigIsReversed(b0, b1, b2, b3);
    Le32Bytes(b0, b1, b2, b3);
    Le32Bytes(b3, b2, b1, b0);
  }

  /** The two bodies of a reader give the same value exactly when MGUI_BYTEORDER is the order of the host,
      or the bytes read the same both ways. */
  lemma BranchesAgree16(order: ByteOrder, host: ByteOrder, data: ByteOrder, b0: bv8, b1: bv8)
    ensures Swap16(order, data, Host16(host, b0, b1)) == Value16(data, b0, b1) <==> order == host || b0 == b1
  {
    Swap16OfBytes(b0, b1);
  }

  lemma BranchesAgree32(order: ByteOrder, host: ByteOrder, data: ByteOrder, b0: bv8, b1: bv8, b2: bv8, b3: bv8)
    ensures Swap32(order, data, Host32(host, b0, b1, b2, b3)) == Value32(data, b0, b1, b2, b3) <==>
      order == host || (b0 == b3 && b1 == b2)
  {
    SwapLe32(b0, b1, b2, b3);
    SwapBe32(b0, b1, b2, b3);
    SameBothWays(b0, b1, b2, b3);
  }

  /** What the copying body of the 32-bit readers returns. */
  lemma Copied32(order: ByteOrder, host: ByteOrder, data: ByteOrder, b0: bv8, b1: bv8, b2: bv8, b3: bv8)
    ensures Swap32(order, data, Host32(host, b0, b1, b2, b3)) ==
      if (order == host) == (data == LilEndian) then Le32(b0, b1, b2, b3) else Be32(b0, b1, b2, b3)
  {
    SwapLe32(b0, b1, b2, b3);
    SwapBe32(b0, b1, b2, b3);
  }

  // ---------------------------------------------------------------- the readers

  /** `*data` of the Mem readers: a position in a block of bytes. */
  class Cursor {
    const bytes: seq<bv8>
    var pos: nat

    constructor (bytes: seq<bv8>)
      ensures this.bytes == bytes && pos == 0
    {
      this.bytes := bytes;
      pos := 0;
    }

    /** MGUI_ReadLE16Mem. */
    method ReadLE16() returns (v: bv16)
      requires pos + 2 <= |bytes|
      modifies this
      ensures pos == old(pos) + 2 && v == (bytes[old(pos) + 1] as bv16 << 8) | bytes[old(pos)] as bv16
    {
      var h1 := bytes[pos];
      pos := pos + 1;
      var h2 := bytes[pos];
      pos := pos + 1;
      v := Le16(h1, h2);
    }

    /** MGUI_ReadLE32Mem. */
    method ReadLE32() returns (v: bv32)
      requires pos + 4 <= |bytes|
      modifies this
      ensures pos == old(pos) + 4
      ensures v == (bytes[old(pos) + 3] as bv32 << 24) | (bytes[old(pos) + 2] as bv32 << 16) |
                   (bytes[old(pos) + 1] as bv32 << 8) | bytes[old(pos)] as bv32
    {
      var q1 := bytes[pos];
      pos := pos + 1;
      var q2 := bytes[pos];
      pos := pos + 1;
      var q3 := bytes[pos];
      pos := pos + 1;
      var q4 := bytes[pos];
      pos := pos + 1;
      v := Le32(q1, q2, q3, q4);
    }

    /** MGUI_ReadBE16Mem. */
    method ReadBE16() returns (v: bv16)
      requires pos + 2 <= |bytes|
      modifies this
      ensures pos == old(pos) + 2 && v == (bytes[old(pos)] as bv16 << 8) | bytes[old(pos) + 1] as bv16
    {
      var h1 := bytes[pos];
      pos := pos + 1;
      var h2 := bytes[pos];
      pos := pos + 1;
      v := Be16(h1, h2);
    }

    /** MGUI_ReadBE32Mem. */
    method ReadBE32() returns (v: bv32)
      requires pos + 4 <= |bytes|
      modifies this
      ensures pos == old(pos) + 4
      ensures v == (bytes[old(pos)] as bv32 << 24) | (bytes[old(pos) + 1] as bv32 << 16) |
                   (bytes[old(pos) + 2] as bv32 << 8) | bytes[old(pos) + 3] as bv32
    {
      var q1 := bytes[pos];
      pos := pos + 1;
      var q2 := bytes[pos];
      pos := pos + 1;
      var q3 := bytes[pos];
      pos := pos + 1;
      var q4 := bytes[pos];
      pos := pos + 1;
      v := Be32(q1, q2, q3, q4);
    }

    /** The other body of the 16-bit readers: memcpy into an integer on the host, then the swap macro. */
    method Read16Copied(order: ByteOrder, host: ByteOrder, data: ByteOrder) returns (v: bv16)
      requires pos + 2 <= |bytes|
      modifies this
      ensures pos == old(pos) + 2
      ensures (order == host) == (data == LilEndian) ==>
        v == (bytes[old(pos) + 1] as bv16 << 8) | bytes[old(pos)] as bv16
      ensures (order == host) != (data == LilEndian) ==>
        v == (bytes[old(pos)] as bv16 << 8) | bytes[old(pos) + 1] as bv16
    {
      var u := Host16(host, bytes[pos], bytes[pos + 1]);
      u := Swap16(order, data, u);
      Swap16OfBytes(bytes[pos], bytes[pos + 1]);
      pos := pos + 2;
      v := u;
    }

    method Read32Copied(order: ByteOrder, host: ByteOrder, data: ByteOrder) returns (v: bv32)
      requires pos + 4 <= |bytes|
      modifies this
      ensures pos == old(pos) + 4
      ensures (order == host) == (data == LilEndian) ==>
        v == (bytes[old(pos) + 3] as bv32 << 24) | (bytes[old(pos) + 2] as bv32 << 16) |
             (bytes[old(pos) + 1] as bv32 << 8) | bytes[old(pos)] as bv32
      ensures (order == host) != (data == LilEndian) ==>
        v == (bytes[old(pos)] as bv32 << 24) | (bytes[old(pos) + 1] as bv32 << 16) |
             (bytes[old(pos) + 2] as bv32 << 8) | bytes[old(pos) + 3] as bv32
    {
      Copied32(order, host, data, bytes[pos], bytes[pos + 1], bytes[pos + 2], bytes[pos + 3]);
      var u := Host32(host, bytes[pos], bytes[pos + 1], bytes[pos + 2], bytes[pos + 3]);
      u := Swap32(order, data, u);
      pos := pos + 4;
      v := u;
    }

    method ReadOne(form: Form) returns (field: Field)
      requires pos + Size(form) <= |bytes|
      modifies this
      ensures pos == old(pos) + Size(form) && field == DecodedOne(form, bytes[old(pos)..])
    {
      match form {
        case Short(LilEndian) => var v := ReadLE16(); field := ShortField(LilEndian, v);
        case Short(BigEndian) => var v := ReadBE16(); field := ShortField(BigEndian, v);
        case Long(LilEndian) => var v := ReadLE32(); field := LongField(LilEndian, v);
        case Long(BigEndian) => var v := ReadBE32(); field := LongField(BigEndian, v);
      }
    }

    /** A caller that reads fields of the given forms one after the other. */
    method ReadAll(forms: seq<Form>) returns (fields: seq<Field>)
      requires pos + TotalSize(forms) <= |bytes|
      modifies this
      ensures pos == old(pos) + TotalSize(forms) && fields == Decoded(forms, bytes[old(pos)..])
    {
      fields := [];
      var i := 0;
      assert forms[0..] == forms;
      while i < |forms|
        invariant 0 <= i <= |forms|
        invariant pos + TotalSize(forms[i..]) == old(pos) + TotalSize(forms) <= |bytes|
        invariant fields + Decoded(forms[i..], bytes[pos..]) == Decoded(forms, bytes[old(pos)..])
      {
        DecodedStep(forms, i, bytes, pos, fields, Decoded(forms, bytes[old(pos)..]));
        var field := ReadOne(forms[i]);
        fields := fields + [field];
        i := i + 1;
      }
    }
  }

  lemma DecodedStep(forms: seq<Form>, i: nat, bytes: seq<bv8>, pos: nat, fields: seq<Field>, total: seq<Field>)
    requires i < |forms| && pos + TotalSize(forms[i..]) <= |bytes|
    requires fields + Decoded(forms[i..], bytes[pos..]) == total
    ensures TotalSize(forms[i..]) == Size(forms[i]) + TotalSize(forms[i + 1..])
    ensures fields + [DecodedOne(forms[i], bytes[pos..])] +
      Decoded(forms[i + 1..], bytes[pos + Size(forms[i])..]) == total
  {
    assert forms[i..][0] == forms[i] && forms[i..][1..] == forms[i + 1..];
    assert bytes[pos..][Size(forms[i])..] == bytes[pos + Size(forms[i])..];
  }

  datatype Form = Short(order: ByteOrder) | Long(order: ByteOrder)

  datatype Field = ShortField(order: ByteOrder, short: bv16) | LongField(order: ByteOrder, long: bv32)

  function Size(f: Form): nat { if f.Short? then 2 else 4 }

  function TotalSize(fs: seq<Form>): nat {
    if fs == [] then 0 else Size(fs[0]) + TotalSize(fs[1..])
  }

  function FormOf(f: Field): Form { if f.ShortField? then Short(f.order) else Long(f.order) }

  function FormsOf(fs: seq<Field>): seq<Form> {
    if fs == [] then [] else [FormOf(fs[0])] + FormsOf(fs[1..])
  }

  /** The bytes of a field as a file holds them. */
  function Encoded(f: Field): seq<bv8> {
    match f
    case ShortField(LilEndian, v) => [Byte16(v, 0), Byte16(v, 1)]
    case ShortField(BigEndian, v) => [Byte16(v, 1), Byte16(v, 0)]
    case LongField(LilEndian, v) => [Byte32(v, 0), Byte32(v, 1), Byte32(v, 2), Byte32(v, 3)]
    case LongField(BigEndian, v) => [Byte32(v, 3), Byte32(v, 2), Byte32(v, 1), Byte32(v, 0)]
  }

  function EncodedAll(fs: seq<Field>): seq<bv8> {
    if fs == [] then [] else Encoded(fs[0]) + EncodedAll(fs[1..])
  }

  function DecodedOne(f: Form, bs: seq<bv8>): Field
    requires Size(f) <= |bs|
  {
    if f.Short? then ShortField(f.order, Value16(f.order, bs[0], bs[1]))
    else LongField(f.order, Value32(f.order, bs[0], bs[1], bs[2], bs[3]))
  }

  function Decoded(fs: seq<Form>, bs: seq<bv8>): seq<Field>
    requires TotalSize(fs) <= |bs|
  {
    if fs == [] then [] else [DecodedOne(fs[0], bs)] + Decoded(fs[1..], bs[Size(fs[0])..])
  }

  /** What a reader makes of the first bytes. */
  lemma DecodedOneIs(f: Form, bs: seq<bv8>)
    requires Size(f) <= |bs|
    ensures f == Short(LilEndian) ==> DecodedOne(f, bs) == ShortField(LilEndian, (bs[1] as bv16 << 8) | bs[0] as bv16)
    ensures f == Short(BigEndian) ==> DecodedOne(f, bs) == ShortField(BigEndian, (bs[0] as bv16 << 8) | bs[1] as bv16)
    ensures f == Long(LilEndian) ==>
      DecodedOne(f, bs) ==
        LongField(LilEndian, (bs[3] as bv32 << 24) | (bs[2] as bv32 << 16) | (bs[1] as bv32 << 8) | bs[0] as bv32)
    ensures f == Long(BigEndian) ==>
      DecodedOne(f, bs) ==
        LongField(BigEndian, (bs[0] as bv32 << 24) | (bs[1] as bv32 << 16) | (bs[2] as bv32 << 8) | bs[3] as bv32)
  {
  }

  /** Every field is read from the bytes right behind those before it. */
  lemma {:induction false} DecodedAt(forms: seq<Form>, bs: seq<bv8>, i: nat)
    requires i < |forms| && TotalSize(forms) <= |bs|
    ensures |Decoded(forms, bs)| == |forms| && TotalSize(forms[..i]) + Size(forms[i]) <= |bs|
    ensures Decoded(forms, bs)[i] == DecodedOne(forms[i], bs[TotalSize(forms[..i])..])
    decreases i
  {
    DecodedLength(forms, bs);
    if i == 0 {
      assert forms[..0] == [] && bs[0..] == bs;
    } else {
      var n := Size(forms[0]);
      DecodedAt(forms[1..], bs[n..], i - 1);
      assert forms[..i][1..] == forms[1..][..i - 1];
      assert bs[n..][TotalSize(forms[1..][..i - 1])..] == bs[TotalSize(forms[..i])..];
    }
  }

  lemma {:induction false} DecodedLength(forms: seq<Form>, bs: seq<bv8>)
    requires TotalSize(forms) <= |bs|
    ensures |Decoded(forms, bs)| == |forms|
    decreases |forms|
  {
    if forms == [] {
    } else {
      DecodedLength(forms[1..], bs[Size(forms[0])..]);
    }
  }

  lemma EncodedOne(f: Field, rest: seq<bv8>)
    ensures |Encoded(f)| == Size(FormOf(f)) && DecodedOne(FormOf(f), Encoded(f) + rest) == f
  {
    match f
    case ShortField(order, v) =>
      Le16Bytes(0, 0, v);
      BigIsReversed(Byte16(v, 1), Byte16(v, 0), 0, 0);
    case LongField(order, v) =>
      Le32OfBytes(v);
      BigIsReversed(Byte32(v, 3), Byte32(v, 2), Byte32(v, 1), Byte32(v, 0));
  }

  /** Reading any list of fields back from its bytes gives the fields and uses up exactly those bytes. */
  lemma {:induction false} ReadBack(fs: seq<Field>, rest: seq<bv8>)
    ensures |EncodedAll(fs)| == TotalSize(FormsOf(fs))
    ensures Decoded(FormsOf(fs), EncodedAll(fs) + rest) == fs
    decreases |fs|
  {
    if fs == [] {
    } else {
      assert fs == [fs[0]] + fs[1..];
      ReadBack(fs[1..], rest);
      EncodedOne(fs[0], EncodedAll(fs[1..]) + rest);
      FirstDecoded(fs[0], fs[1..], rest);
    }
  }

  lemma FirstDecoded(f: Field, fs: seq<Field>, rest: seq<bv8>)
    requires |EncodedAll(fs)| == TotalSize(FormsOf(fs)) && Decoded(FormsOf(fs), EncodedAll(fs) + rest) == fs
    requires |Encoded(f)| == Size(FormOf(f)) && DecodedOne(FormOf(f), Encoded(f) + (EncodedAll(fs) + rest)) == f
    ensures |EncodedAll([f] + fs)| == TotalSize(FormsOf([f] + fs))
    ensures Decoded(FormsOf([f] + fs), EncodedAll([f] + fs) + rest) == [f] + fs
  {
    var forms := FormsOf(fs);
    FormsCons(f, fs);
    EncodedCons(f, fs);
    BytesSplit(Encoded(f), EncodedAll(fs), rest);
    DecodedCons(FormOf(f), forms, Encoded(f), EncodedAll(fs) + rest);
  }

  lemma FormsCons(f: Field, fs: seq<Field>)
    ensures FormsOf([f] + fs) == [FormOf(f)] + FormsOf(fs)
  {
    assert ([f] + fs)[1..] == fs;
  }

  lemma BytesSplit(a: seq<bv8>, b: seq<bv8>, c: seq<bv8>)
    ensures a + b + c == a + (b + c)
  {
  }

  lemma DecodedCons(form: Form, forms: seq<Form>, head: seq<bv8>, more: seq<bv8>)
    requires |head| == Size(form) && TotalSize(forms) <= |more|
    ensures TotalSize([form] + forms) <= |head + more|
    ensures Decoded([form] + forms, head + more) == [DecodedOne(form, head + more)] + Decoded(forms, more)
  {
    assert ([form] + forms)[1..] == forms;
    assert (head + more)[Size(form)..] == more;
  }

  /** And writing what was read gives the bytes that were read. */
  lemma {:induction false} WriteBack(forms: seq<Form>, bs: seq<bv8>)
    requires TotalSize(forms) <= |bs|
    ensures EncodedAll(Decoded(forms, bs)) == bs[..TotalSize(forms)]
    decreases |forms|
  {
    if forms == [] {
    } else {
      var n := Size(forms[0]);
      WriteBack(forms[1..], bs[n..]);
      DecodedBytes(forms[0], bs);
      EncodedCons(DecodedOne(forms[0], bs), Decoded(forms[1..], bs[n..]));
      PrefixSplit(bs, n, TotalSize(forms[1..]));
    }
  }

  lemma EncodedCons(f: Field, fs: seq<Field>)
    ensures EncodedAll([f] + fs) == Encoded(f) + EncodedAll(fs)
  {
    assert ([f] + fs)[1..] == fs;
  }

  lemma PrefixSplit(bs: seq<bv8>, n: nat, k: nat)
    requires n + k <= |bs|
    ensures bs[..n] + bs[n..][..k] == bs[..n + k]
  {
  }

  lemma DecodedBytes(f: Form, bs: seq<bv8>)
    requires Size(f) <= |bs|
    ensures Encoded(DecodedOne(f, bs)) == bs[..Size(f)]
  {
    if f.Short? {
      BigIsReversed(bs[0], bs[1], 0, 0);
      Le16Bytes(bs[0], bs[1], 0);
      Le16Bytes(bs[1], bs[0], 0);
    } else {
      BigIsReversed(bs[0], bs[1], bs[2], bs[3]);
      Le32Bytes(bs[0], bs[1], bs[2], bs[3]);
      Le32Bytes(bs[3], bs[2], bs[1], bs[0]);
    }
  }
}
