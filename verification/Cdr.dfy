/** OMG CDR: primitive fields in either byte order, each aligned to its own size.

    A message is written and read as a list of fields. `Encoded` says which bytes a
    field list stands for and `ReadFields` takes them back; the classes of CdrStreams
    are proved against these two functions. */
module Cdr {
  import opened Types
  import opened Seqs

  datatype Endianness = Big | Little

  datatype Field =
    | U8(v8: Byte)
    | U16(v16: UInt16)
    | U32(v32: UInt32)
    | U64(v64: UInt64)
    | I32(i32: Int32)
    | Raw(raw: Bytes)
    | Str(text: Bytes)

  /** What a reader has to know beforehand about a field. */
  datatype Shape = AsU8 | AsU16 | AsU32 | AsU64 | AsI32 | AsRaw(count: nat) | AsStr

  function ShapeOf(f: Field): Shape {
    match f
    case U8(_) => AsU8
    case U16(_) => AsU16
    case U32(_) => AsU32
    case U64(_) => AsU64
    case I32(_) => AsI32
    case Raw(b) => AsRaw(|b|)
    case Str(_) => AsStr
  }

  function Shapes(fields: seq<Field>): seq<Shape> {
    seq(|fields|, i requires 0 <= i < |fields| => ShapeOf(fields[i]))
  }

  /** The longest string a 32-bit length can announce; longer ones throw. */
  predicate StringFits(text: Bytes) {
    |text| < TWO_32 - 1
  }

  predicate Fits(f: Field) {
    f.Str? ==> StringFits(f.text)
  }

  // ---- Unsigned integers in a given number of bytes ----

  function Pow256(n: nat): (r: nat)
    ensures r >= 1
  {
    if n == 0 then 1 else 256 * Pow256(n - 1)
  }

  function LittleBytes(v: nat, n: nat): (r: Bytes)
    ensures |r| == n
  {
    if n == 0 then [] else [(v % 256) as Byte] + LittleBytes(v / 256, n - 1)
  }

  function BigBytes(v: nat, n: nat): (r: Bytes)
    ensures |r| == n
  {
    if n == 0 then [] else BigBytes(v / 256, n - 1) + [(v % 256) as Byte]
  }

  function LittleValue(b: Bytes): nat {
    if b == [] then 0 else b[0] as nat + 256 * LittleValue(b[1..])
  }

  function BigValue(b: Bytes): nat {
    if b == [] then 0 else BigValue(b[..|b| - 1]) * 256 + b[|b| - 1] as nat
  }

  function Put(e: Endianness, v: nat, n: nat): (r: Bytes)
    ensures |r| == n
  {
    if e.Little? then LittleBytes(v, n) else BigBytes(v, n)
  }

  function Get(e: Endianness, b: Bytes): nat {
    if e.Little? then LittleValue(b) else BigValue(b)
  }

  lemma {:induction false} LittleInverse(v: nat, n: nat)
    requires v < Pow256(n)
    ensures LittleValue(LittleBytes(v, n)) == v
  {
    if n > 0 {
      LittleInverse(v / 256, n - 1);
      assert LittleBytes(v, n)[1..] == LittleBytes(v / 256, n - 1);
    }
  }

  lemma {:induction false} BigInverse(v: nat, n: nat)
    requires v < Pow256(n)
    ensures BigValue(BigBytes(v, n)) == v
  {
    if n > 0 {
      BigInverse(v / 256, n - 1);
      assert BigBytes(v, n)[..n - 1] == BigBytes(v / 256, n - 1);
    }
  }

  lemma {:induction false} LittleBelow(b: Bytes)
    ensures LittleValue(b) < Pow256(|b|)
  {
    if b != [] { LittleBelow(b[1..]); }
  }

  lemma {:induction false} BigBelow(b: Bytes)
    ensures BigValue(b) < Pow256(|b|)
  {
    if b != [] { BigBelow(b[..|b| - 1]); }
  }

  lemma {:induction false} LittleDigit(v: nat, n: nat, i: nat)
    requires i < n
    ensures LittleBytes(v, n)[i] as nat == v / Pow256(i) % 256
  {
    if i > 0 {
      LittleDigit(v / 256, n - 1, i - 1);
      DivideTwice(v, Pow256(i - 1));
    }
  }

  lemma {:induction false} BigDigit(v: nat, n: nat, i: nat)
    requires i < n
    ensures BigBytes(v, n)[i] as nat == v / Pow256(n - 1 - i) % 256
  {
    if i < n - 1 {
      BigDigit(v / 256, n - 1, i);
      DivideTwice(v, Pow256(n - 2 - i));
    }
  }

  lemma DivideTwice(v: nat, b: nat)
    requires b > 0
    ensures v / (256 * b) == v / 256 / b
  {
    var q := v / 256;
    var low := 256 * (q % b) + v % 256;
    assert q == q / b * b + q % b;
    assert v == q / b * (256 * b) + low;
    QuotientUnique(v, 256 * b, q / b, low);
  }

  lemma MultiplyMonotone(a: nat, b: nat, d: nat)
    requires a <= b
    ensures a * d <= b * d
  {
  }

  lemma QuotientUnique(v: nat, d: nat, q: nat, low: nat)
    requires d > 0 && v == q * d + low && low < d
    ensures v / d == q
  {
    if v / d < q {
      MultiplyMonotone(v / d + 1, q, d);
      assert false;
    } else if v / d > q {
      MultiplyMonotone(q + 1, v / d, d);
      assert false;
    }
  }

  lemma {:induction false} LittleSnoc(b: Bytes, x: Byte)
    ensures LittleValue(b + [x]) == LittleValue(b) + x as nat * Pow256(|b|)
  {
    if b == [] {
      assert [x][1..] == [];
    } else {
      LittleSnoc(b[1..], x);
      assert (b + [x])[1..] == b[1..] + [x];
      assert x as nat * Pow256(|b|) == 256 * (x as nat * Pow256(|b| - 1));
    }
  }

  /** Digit k of v to the base 256, the lowest one first. */
  function Digit(v: nat, k: nat): nat {
    v / Pow256(k) % 256
  }

  /** The bytes are the digits of v: in a little-endian stream the lowest one stands first,
      in a big-endian one last. */
  predicate IsDigits(e: Endianness, b: Bytes, v: nat) {
    if e.Little? then forall i | 0 <= i < |b| :: b[i] as nat == Digit(v, i)
    else forall i | 0 <= i < |b| :: b[i] as nat == Digit(v, |b| - 1 - i)
  }

  /** The n bytes of d at `at` are the digits of v. */
  predicate Holds(e: Endianness, d: Bytes, at: nat, n: nat, v: nat) {
    at + n <= |d| && IsDigits(e, d[at..at + n], v)
  }

  lemma PutDigits(e: Endianness, v: nat, n: nat)
    ensures IsDigits(e, Put(e, v, n), v)
  {
    hide LittleBytes;
    hide BigBytes;
    hide Pow256;
    forall i | 0 <= i < n
      ensures LittleBytes(v, n)[i] as nat == Digit(v, i) && BigBytes(v, n)[i] as nat == Digit(v, n - 1 - i)
    {
      LittleDigit(v, n, i);
      BigDigit(v, n, i);
    }
  }

  /** Only these bytes are the digits of v. */
  lemma DigitsPut(e: Endianness, b: Bytes, v: nat)
    requires IsDigits(e, b, v)
    ensures b == Put(e, v, |b|)
  {
    hide Digit;
    PutDigits(e, v, |b|);
    hide Put;
    assert forall i | 0 <= i < |b| :: b[i] as nat == Put(e, v, |b|)[i] as nat;
  }

  /** What is read is the sum of the digits, each times its power of 256. */
  function DigitSum(e: Endianness, b: Bytes, k: nat): nat
    requires k <= |b|
  {
    if k == 0 then 0
    else DigitSum(e, b, k - 1) + b[k - 1] as nat * Pow256(if e.Little? then k - 1 else |b| - k)
  }

  lemma {:induction false} LittleSum(b: Bytes, k: nat)
    requires k <= |b|
    ensures LittleValue(b[..k]) == DigitSum(Little, b, k)
  {
    if k > 0 {
      LittleSum(b, k - 1);
      LittleSnoc(b[..k - 1], b[k - 1]);
      assert b[..k] == b[..k - 1] + [b[k - 1]];
    }
  }

  lemma {:induction false} BigSum(b: Bytes, k: nat)
    requires k <= |b|
    ensures BigValue(b[..k]) * Pow256(|b| - k) == DigitSum(Big, b, k)
  {
    if k > 0 {
      BigSum(b, k - 1);
      var before, x := b[..k - 1], b[k - 1];
      assert b[..k][..k - 1] == before && b[..k][k - 1] == x;
      assert BigValue(b[..k]) == BigValue(before) * 256 + x as nat;
      assert Pow256(|b| - (k - 1)) == 256 * Pow256(|b| - k);
      hide BigValue;
      hide Pow256;
      ShiftIn(BigValue(before), x as nat, Pow256(|b| - k));
    }
  }

  lemma ShiftIn(a: nat, x: nat, rest: nat)
    ensures (a * 256 + x) * rest == a * (256 * rest) + x * rest
  {
  }

  lemma GetSum(e: Endianness, b: Bytes)
    ensures Get(e, b) == DigitSum(e, b, |b|)
  {
    assert b[..|b|] == b;
    LittleSum(b, |b|);
    BigSum(b, |b|);
  }

  lemma {:induction false} BigSplit(b: Bytes, i: nat)
    requires i < |b|
    ensures b[i] as nat == BigValue(b) / Pow256(|b| - 1 - i) % 256
    decreases |b|
  {
    var n := |b| - 1;
    if i < n {
      BigSplit(b[..n], i);
      assert b[..n][i] == b[i] && BigValue(b) / 256 == BigValue(b[..n]);
      DivideTwice(BigValue(b), Pow256(n - 1 - i));
    }
  }

  lemma {:induction false} LittleSplit(b: Bytes, i: nat)
    requires i < |b|
    ensures b[i] as nat == LittleValue(b) / Pow256(i) % 256
    decreases |b|
  {
    if i > 0 {
      LittleSplit(b[1..], i - 1);
      DivideTwice(LittleValue(b), Pow256(i - 1));
    }
  }

  lemma GetDigits(e: Endianness, b: Bytes)
    ensures IsDigits(e, b, Get(e, b))
  {
    hide LittleValue;
    hide BigValue;
    hide Pow256;
    forall i | 0 <= i < |b|
      ensures b[i] as nat == Digit(LittleValue(b), i) && b[i] as nat == Digit(BigValue(b), |b| - 1 - i)
    {
      LittleSplit(b, i);
      BigSplit(b, i);
    }
  }

  /** Any integer that fits stands there digit by digit, and comes back, whichever byte
      order it was written in. */
  lemma IntegerRoundTrip(e: Endianness, v: nat, n: nat)
    requires v < Pow256(n)
    ensures IsDigits(e, Put(e, v, n), v)
    ensures Get(e, Put(e, v, n)) == v == DigitSum(e, Put(e, v, n), n)
  {
    PutDigits(e, v, n);
    GetSum(e, Put(e, v, n));
    if e.Little? { LittleInverse(v, n); } else { BigInverse(v, n); }
  }

  lemma GetBelow(e: Endianness, b: Bytes)
    ensures Get(e, b) < Pow256(|b|)
  {
    LittleBelow(b);
    BigBelow(b);
  }

  lemma Pow256Values()
    ensures Pow256(1) == 0x100 && Pow256(2) == 0x1_0000
    ensures Pow256(4) == TWO_32 && Pow256(8) == TWO_64
  {
    assert Pow256(3) == 0x100_0000;
    assert Pow256(5) == 0x100_0000_0000;
    assert Pow256(6) == 0x1_0000_0000_0000;
  }

  function Unsigned(e: Endianness, b: Bytes, bound: nat): (r: nat)
    requires bound == Pow256(|b|)
    ensures r < bound
  {
    GetBelow(e, b);
    Get(e, b)
  }

  // ---- One field ----

  /** The widths CDR aligns to. */
  predicate Width(n: nat) {
    n == 2 || n == 4 || n == 8
  }

  /** (alignment - offset % alignment) % alignment: the outer remainder only turns a
      full width into zero. */
  function Pad(offset: nat, alignment: nat): (r: nat)
    requires Width(alignment)
    ensures r < alignment
  {
    var past := if alignment == 2 then offset % 2 else if alignment == 4 then offset % 4 else offset % 8;
    if past == 0 then 0 else alignment - past
  }

  /** After padding, the next field starts at a multiple of its own size. */
  lemma PadAligns(offset: nat, alignment: nat) returns (k: nat)
    requires Width(alignment)
    ensures offset + Pad(offset, alignment) == k * alignment
  {
    if alignment == 2 {
      k := offset / 2 + offset % 2;
    } else if alignment == 4 {
      k := if offset % 4 == 0 then offset / 4 else offset / 4 + 1;
    } else {
      k := if offset % 8 == 0 then offset / 8 else offset / 8 + 1;
    }
  }

  function Zeros(n: nat): (r: Bytes)
    ensures |r| == n
  {
    seq(n, _ => 0)
  }

  function PutAligned(e: Endianness, offset: nat, v: nat, n: nat): (r: Bytes)
    requires Width(n)
    ensures |r| == Pad(offset, n) + n
  {
    Zeros(Pad(offset, n)) + Put(e, v, n)
  }

  /** The bytes field `f` adds to a stream that already holds `offset` bytes. */
  function Chunk(e: Endianness, offset: nat, f: Field): Bytes {
    match f
    case U8(v) => [v]
    case U16(v) => PutAligned(e, offset, v, 2)
    case U32(v) => PutAligned(e, offset, v, 4)
    case U64(v) => PutAligned(e, offset, v, 8)
    case I32(v) => PutAligned(e, offset, UnsignedOf32(v), 4)
    case Raw(b) => b
    case Str(t) => PutAligned(e, offset, |t| + 1, 4) + t + [0]
  }

  function Encoded(e: Endianness, offset: nat, fields: seq<Field>): Bytes
    decreases |fields|
  {
    if fields == [] then []
    else
      var c := Chunk(e, offset, fields[0]);
      c + Encoded(e, offset + |c|, fields[1..])
  }

  /** Reads an aligned n-byte unsigned integer at `offset`. */
  function GetAligned(e: Endianness, d: Bytes, offset: nat, n: nat, bound: nat): (r: Option<(nat, nat)>)
    requires Width(n) && offset <= |d| && bound == Pow256(n)
    ensures r.Some? ==> r.value.0 < bound && offset + n <= r.value.1 <= |d|
  {
    var start := offset + Pad(offset, n);
    if start + n > |d| then None
    else Some((Unsigned(e, d[start..start + n], bound), start + n))
  }

  function ReadField(e: Endianness, d: Bytes, offset: nat, s: Shape): (r: Option<(Field, nat)>)
    requires offset <= |d|
    ensures r.Some? ==> offset <= r.value.1 <= |d|
    ensures r.Some? ==> ShapeOf(r.value.0) == s && Fits(r.value.0)
  {
    Pow256Values();
    match s
    case AsU8 => if offset == |d| then None else Some((U8(d[offset]), offset + 1))
    case AsU16 => var (v, o) :- GetAligned(e, d, offset, 2, 0x1_0000); Some((U16(v), o))
    case AsU32 => var (v, o) :- GetAligned(e, d, offset, 4, TWO_32); Some((U32(v), o))
    case AsU64 => var (v, o) :- GetAligned(e, d, offset, 8, TWO_64); Some((U64(v), o))
    case AsI32 => var (v, o) :- GetAligned(e, d, offset, 4, TWO_32); Some((I32(SignedOf32(v)), o))
    case AsRaw(n) => if n > |d| - offset then None else Some((Raw(d[offset..offset + n]), offset + n))
    case AsStr =>
      var (n, o) :- GetAligned(e, d, offset, 4, TWO_32);
      if n == 0 || n > |d| - o || d[o + n - 1] != 0 then None
      else Some((Str(d[o..o + n - 1]), o + n))
  }

  function ReadFields(e: Endianness, d: Bytes, offset: nat, shapes: seq<Shape>): (r: Option<(seq<Field>, nat)>)
    requires offset <= |d|
    ensures r.Some? ==> offset <= r.value.1 <= |d| && |r.value.0| == |shapes|
    ensures r.Some? ==> Shapes(r.value.0) == shapes
    decreases |shapes|
  {
    if shapes == [] then Some(([], offset))
    else
      var (f, o) :- ReadField(e, d, offset, shapes[0]);
      var (fs, end) :- ReadFields(e, d, o, shapes[1..]);
      Some(([f] + fs, end))
  }

  // ---- The round trip ----

  lemma AlignedRoundTrip(e: Endianness, d: Bytes, offset: nat, v: nat, n: nat, bound: nat, end: nat)
    requires Width(n) && bound == Pow256(n) && v < bound
    requires end == offset + Pad(offset, n) + n <= |d|
    requires d[offset..end] == PutAligned(e, offset, v, n)
    ensures GetAligned(e, d, offset, n, bound) == Some((v, end))
  {
    hide Put;
    hide Get;
    hide Pad;
    hide Pow256;
    SplitSlice(d, offset, end, Zeros(Pad(offset, n)), Put(e, v, n));
    IntegerRoundTrip(e, v, n);
  }

  lemma FieldRoundTrip(e: Endianness, d: Bytes, offset: nat, f: Field, end: nat)
    requires Fits(f) && end == offset + |Chunk(e, offset, f)| <= |d|
    requires d[offset..end] == Chunk(e, offset, f)
    ensures ReadField(e, d, offset, ShapeOf(f)) == Some((f, end))
  {
    Pow256Values();
    match f
    case U8(v) =>
      assert d[offset..end][0] == v;
    case U16(v) => AlignedRoundTrip(e, d, offset, v, 2, 0x1_0000, end);
    case U32(v) => AlignedRoundTrip(e, d, offset, v, 4, TWO_32, end);
    case U64(v) => AlignedRoundTrip(e, d, offset, v, 8, TWO_64, end);
    case I32(v) => AlignedRoundTrip(e, d, offset, UnsignedOf32(v), 4, TWO_32, end);
    case Raw(b) =>
    case Str(t) => StringRoundTrip(e, d, offset, t, end);
  }

  lemma StringRoundTrip(e: Endianness, d: Bytes, offset: nat, t: Bytes, end: nat)
    requires StringFits(t) && end == offset + |Chunk(e, offset, Str(t))| <= |d|
    requires d[offset..end] == Chunk(e, offset, Str(t))
    ensures ReadField(e, d, offset, AsStr) == Some((Str(t), end))
  {
    Pow256Values();
    hide PutAligned;
    hide GetAligned;
    hide Pow256;
    var head := PutAligned(e, offset, |t| + 1, 4);
    var o := offset + |head|;
    assert Chunk(e, offset, Str(t)) == head + (t + [0]);
    SplitSlice(d, offset, end, head, t + [0]);
    SplitSlice(d, o, end, t, [0]);
    assert d[end - 1..end][0] == 0;
    AlignedRoundTrip(e, d, offset, |t| + 1, 4, TWO_32, o);
  }

  /** Writing any list of fields and reading it back in order with the same byte order
      returns every value and stops exactly where the written bytes end, whatever
      precedes and follows them. */
  lemma {:induction false} FieldsRoundTrip(e: Endianness, d: Bytes, offset: nat, fields: seq<Field>, end: nat)
    requires forall f | f in fields :: Fits(f)
    requires end == offset + |Encoded(e, offset, fields)| <= |d|
    requires d[offset..end] == Encoded(e, offset, fields)
    ensures ReadFields(e, d, offset, Shapes(fields)) == Some((fields, end))
    decreases |fields|
  {
    hide Chunk;
    hide ReadField;
    hide ShapeOf;
    hide Fits;
    if fields != [] {
      var c := Chunk(e, offset, fields[0]);
      var o := offset + |c|;
      SplitSlice(d, offset, end, c, Encoded(e, o, fields[1..]));
      assert fields[0] in fields;
      FieldRoundTrip(e, d, offset, fields[0], o);
      FieldsRoundTrip(e, d, o, fields[1..], end);
      assert Shapes(fields)[1..] == Shapes(fields[1..]);
      assert fields == [fields[0]] + fields[1..];
    }
  }

  lemma EncodedCons(e: Endianness, offset: nat, f: Field, fs: seq<Field>)
    ensures Encoded(e, offset, [f] + fs) ==
            Chunk(e, offset, f) + Encoded(e, offset + |Chunk(e, offset, f)|, fs)
  {
    hide Chunk;
    assert ([f] + fs)[1..] == fs;
  }

  lemma {:induction false} EncodedAppend(e: Endianness, offset: nat, a: seq<Field>, b: seq<Field>)
    ensures Encoded(e, offset, a + b) ==
            Encoded(e, offset, a) + Encoded(e, offset + |Encoded(e, offset, a)|, b)
    decreases |a|
  {
    if a == [] {
      assert a + b == b;
    } else {
      EncodedAppendCons(e, offset, a[0], a[1..], b);
      assert a == [a[0]] + a[1..];
    }
  }

  lemma {:induction false} EncodedAppendCons(e: Endianness, offset: nat, f: Field, fs: seq<Field>, b: seq<Field>)
    ensures Encoded(e, offset, [f] + fs + b) ==
            Encoded(e, offset, [f] + fs) + Encoded(e, offset + |Encoded(e, offset, [f] + fs)|, b)
    decreases |fs| + 1, 0
  {
    hide Chunk;
    hide Encoded;
    var c := Chunk(e, offset, f);
    EncodedCons(e, offset, f, fs);
    EncodedCons(e, offset, f, fs + b);
    EncodedAppend(e, offset + |c|, fs, b);
    assert [f] + fs + b == [f] + (fs + b);
  }

  lemma EncodedSnoc(e: Endianness, a: seq<Field>, f: Field)
    ensures Encoded(e, 0, a + [f]) == Encoded(e, 0, a) + Chunk(e, |Encoded(e, 0, a)|, f)
  {
    hide Chunk;
    var offset := |Encoded(e, 0, a)|;
    EncodedAppend(e, 0, a, [f]);
    EncodedCons(e, offset, f, []);
    assert [f] + [] == [f];
    assert Encoded(e, offset + |Chunk(e, offset, f)|, []) == [];
  }

  // ---- Reading one field more ----

  /** A field in front of those of a later read. */
  function Front(f: Field, rest: Option<(seq<Field>, nat)>): Option<(seq<Field>, nat)> {
    if rest.None? then None else Some(([f] + rest.value.0, rest.value.1))
  }

  /** A field behind those of an earlier read. */
  function Behind(fs: seq<Field>, next: Option<(Field, nat)>): Option<(seq<Field>, nat)> {
    if next.None? then None else Some((fs + [next.value.0], next.value.1))
  }

  lemma ReadCons(e: Endianness, d: Bytes, offset: nat, s: Shape, ss: seq<Shape>)
    requires offset <= |d|
    ensures var first := ReadField(e, d, offset, s);
            ReadFields(e, d, offset, [s] + ss) ==
            if first.None? then None
            else Front(first.value.0, ReadFields(e, d, first.value.1, ss))
  {
    hide ReadField;
    assert ([s] + ss)[1..] == ss;
  }

  lemma {:induction false} ReadSnoc(e: Endianness, d: Bytes, offset: nat, ss: seq<Shape>, s: Shape)
    requires offset <= |d|
    ensures var before := ReadFields(e, d, offset, ss);
            ReadFields(e, d, offset, ss + [s]) ==
            if before.None? then None
            else Behind(before.value.0, ReadField(e, d, before.value.1, s))
    decreases |ss|
  {
    hide ReadField;
    hide ReadFields;
    if ss == [] {
      ReadCons(e, d, offset, s, []);
      ReadNothing(e, d, offset);
      assert ss + [s] == [s] + [];
      if ReadField(e, d, offset, s).Some? {
        ReadNothing(e, d, ReadField(e, d, offset, s).value.1);
        var f := ReadField(e, d, offset, s).value.0;
        assert [f] + [] == [] + [f];
      }
    } else {
      var rest := ss[1..];
      assert ss == [ss[0]] + rest && ss + [s] == [ss[0]] + (rest + [s]);
      ReadCons(e, d, offset, ss[0], rest);
      ReadCons(e, d, offset, ss[0], rest + [s]);
      var first := ReadField(e, d, offset, ss[0]);
      if first.Some? {
        ReadSnoc(e, d, first.value.1, rest, s);
        var middle := ReadFields(e, d, first.value.1, rest);
        if middle.Some? && ReadField(e, d, middle.value.1, s).Some? {
          var (last, _) := ReadField(e, d, middle.value.1, s).value;
          assert [first.value.0] + (middle.value.0 + [last]) == ([first.value.0] + middle.value.0) + [last];
        }
      }
    }
  }

  lemma ReadNothing(e: Endianness, d: Bytes, offset: nat)
    requires offset <= |d|
    ensures ReadFields(e, d, offset, []) == Some(([], offset))
  {
  }

  /** What cannot be read stays unreadable when more is asked for. */
  lemma {:induction false} ReadStuck(e: Endianness, d: Bytes, offset: nat, a: seq<Shape>, b: seq<Shape>)
    requires offset <= |d| && ReadFields(e, d, offset, a).None? && a <= b
    ensures ReadFields(e, d, offset, b).None?
    decreases |b|
  {
    hide ReadFields;
    if a != b {
      ReadStuck(e, d, offset, a, b[..|b| - 1]);
      ReadSnoc(e, d, offset, b[..|b| - 1], b[|b| - 1]);
      assert b == b[..|b| - 1] + [b[|b| - 1]];
    }
  }
}
