/** The parameter list of discovery messages (section 9.4.2.11 of DDSI-RTPS 2.5):
    parameters padded to four bytes, ended by PID_SENTINEL. */
module ParameterList {
  import opened Types
  import opened Seqs
  import opened Cdr

  const PID_PAD: UInt16 := 0x0000
  const PID_SENTINEL: UInt16 := 0x0001
  const HEADER_SIZE: nat := 4

  datatype Parameter = Parameter(id: UInt16, value: Bytes)

  /** (size + 3) & ~3 */
  function AlignedSize(size: nat): (r: nat)
    ensures size <= r < size + 4 && r % 4 == 0
  {
    (size + 3) / 4 * 4
  }

  function Padded(value: Bytes): (r: Bytes)
    ensures |r| == AlignedSize(|value|)
  {
    value + Zeros(AlignedSize(|value|) - |value|)
  }

  // ---- The encoder ----

  /** The parameters the encoder takes. */
  predicate Carried(p: Parameter) {
    p.id != PID_SENTINEL && AlignedSize(|p.value|) <= 0xFFFF
  }

  function Header(e: Endianness): Bytes {
    [0, if e.Little? then 3 else 2, 0, 0]
  }

  function Pair(e: Endianness, id: UInt16, length: UInt16): (r: Bytes)
    ensures |r| == 4
  {
    Put(e, id, 2) + Put(e, length, 2)
  }

  function Entry(e: Endianness, p: Parameter): Bytes
    requires Carried(p)
  {
    Pair(e, p.id, AlignedSize(|p.value|)) + Padded(p.value)
  }

  function Entries(e: Endianness, ps: seq<Parameter>): Bytes
    requires forall p | p in ps :: Carried(p)
  {
    if ps == [] then [] else Entry(e, ps[0]) + Entries(e, ps[1..])
  }

  function Encode(ps: seq<Parameter>, e: Endianness): Option<Bytes> {
    if forall p | p in ps :: Carried(p) then Some(Header(e) + Entries(e, ps) + Pair(e, PID_SENTINEL, 0)) else None
  }

  // ---- The decoder ----

  function ByteOrder(payload: Bytes): Option<Endianness>
    requires |payload| >= 2
  {
    if payload[0] != 0 then None
    else if payload[1] == 3 then Some(Little)
    else if payload[1] == 2 then Some(Big)
    else None
  }

  function ReadUint16(e: Endianness, d: Bytes, offset: nat): UInt16
    requires offset + 2 <= |d|
  {
    Pow256Values();
    Unsigned(e, d[offset..offset + 2], 0x1_0000)
  }

  /** The parameters from `offset` to the sentinel; bytes behind it do not matter. */
  function Collect(e: Endianness, d: Bytes, offset: nat): Option<seq<Parameter>>
    decreases |d| - offset
  {
    if offset + 4 > |d| then None
    else
      var id, length, o := ReadUint16(e, d, offset), ReadUint16(e, d, offset + 2), offset + 4;
      if id == PID_SENTINEL then
        if length != 0 then None else Some([])
      else if length % 4 != 0 || length > |d| - o then None
      else
        var rest :- Collect(e, d, o + length);
        Some(if id == PID_PAD then rest else [Parameter(id, d[o..o + length])] + rest)
  }

  function Decode(payload: Bytes): Option<(seq<Parameter>, Endianness)> {
    if |payload| < 8 then None
    else
      var e :- ByteOrder(payload);
      var ps :- Collect(e, payload, HEADER_SIZE);
      Some((ps, e))
  }

  // ---- The round trip ----

  /** What a list turns into on its way: values padded, PID_PAD entries dropped. */
  function Normal(ps: seq<Parameter>): seq<Parameter> {
    if ps == [] then []
    else Kept(ps[0].id, Padded(ps[0].value)) + Normal(ps[1..])
  }

  lemma PairRead(e: Endianness, d: Bytes, offset: nat, id: UInt16, length: UInt16)
    requires offset + 4 <= |d| && d[offset..offset + 4] == Pair(e, id, length)
    ensures ReadUint16(e, d, offset) == id && ReadUint16(e, d, offset + 2) == length
  {
    Pow256Values();
    SplitSlice(d, offset, offset + 4, Put(e, id, 2), Put(e, length, 2));
    IntegerRoundTrip(e, id, 2);
    IntegerRoundTrip(e, length, 2);
  }

  /** A parameter in front of those collected behind it. */
  function Kept(id: UInt16, value: Bytes): seq<Parameter> {
    if id == PID_PAD then [] else [Parameter(id, value)]
  }

  lemma EntryRead(e: Endianness, d: Bytes, offset: nat, p: Parameter, rest: Bytes)
    requires Carried(p) && offset <= |d| && d[offset..] == Entry(e, p) + rest
    ensures var next := offset + 4 + AlignedSize(|p.value|);
            && next <= |d| && d[next..] == rest
            && Collect(e, d, offset) == match Collect(e, d, next)
                                        case None => None
                                        case Some(ps) => Some(Kept(p.id, Padded(p.value)) + ps)
  {
    hide ReadUint16;
    hide Pair;
    hide AlignedSize;
    hide Padded;
    var length := AlignedSize(|p.value|);
    assert d[offset..] == Pair(e, p.id, length) + (Padded(p.value) + rest);
    SplitSlice(d, offset, |d|, Pair(e, p.id, length), Padded(p.value) + rest);
    SplitSlice(d, offset + 4, |d|, Padded(p.value), rest);
    PairRead(e, d, offset, p.id, length);
    var next := offset + 4 + length;
    if p.id == PID_PAD && Collect(e, d, next).Some? {
      assert [] + Collect(e, d, next).value == Collect(e, d, next).value;
    }
  }

  lemma {:induction false} EntriesRead(e: Endianness, d: Bytes, offset: nat, ps: seq<Parameter>, tail: Bytes)
    requires forall p | p in ps :: Carried(p)
    requires offset <= |d| && d[offset..] == Entries(e, ps) + (Pair(e, PID_SENTINEL, 0) + tail)
    ensures Collect(e, d, offset) == Some(Normal(ps))
    decreases |ps|
  {
    hide Entry;
    hide Collect;
    hide Pair;
    hide AlignedSize;
    hide Padded;
    var end := Pair(e, PID_SENTINEL, 0) + tail;
    if ps == [] {
      assert d[offset..] == end;
      EndRead(e, d, offset, tail);
    } else {
      assert ps[0] in ps;
      var rest := Entries(e, ps[1..]) + end;
      assert d[offset..] == Entry(e, ps[0]) + rest;
      EntryRead(e, d, offset, ps[0], rest);
      EntriesRead(e, d, offset + 4 + AlignedSize(|ps[0].value|), ps[1..], tail);
    }
  }

  lemma EndRead(e: Endianness, d: Bytes, offset: nat, tail: Bytes)
    requires offset <= |d| && d[offset..] == Pair(e, PID_SENTINEL, 0) + tail
    ensures Collect(e, d, offset) == Some([])
  {
    hide ReadUint16;
    hide Pair;
    SplitSlice(d, offset, |d|, Pair(e, PID_SENTINEL, 0), tail);
    PairRead(e, d, offset, PID_SENTINEL, 0);
  }

  /** The encoder takes a list exactly when no parameter is PID_SENTINEL or too long; the
      decoder then returns the list with every value padded with zeros to four bytes and
      the PID_PAD entries dropped, whatever follows the sentinel. */
  lemma RoundTrip(ps: seq<Parameter>, e: Endianness, tail: Bytes)
    ensures Encode(ps, e).Some? <==> forall p | p in ps :: p.id != PID_SENTINEL && |p.value| <= 0xFFFC
    ensures Encode(ps, e).Some? ==> Decode(Encode(ps, e).value + tail) == Some((Normal(ps), e))
  {
    hide Collect;
    hide Pair;
    if Encode(ps, e).Some? {
      var d := Encode(ps, e).value + tail;
      assert d[HEADER_SIZE..] == Entries(e, ps) + (Pair(e, PID_SENTINEL, 0) + tail);
      EntriesRead(e, d, HEADER_SIZE, ps, tail);
    }
  }

  predicate Canonical(p: Parameter) {
    p.id != PID_PAD && p.id != PID_SENTINEL && |p.value| % 4 == 0 && |p.value| <= 0xFFFF
  }

  lemma {:induction false} CollectCanonical(e: Endianness, d: Bytes, offset: nat)
    ensures Collect(e, d, offset).Some? ==> forall p | p in Collect(e, d, offset).value :: Canonical(p)
    decreases |d| - offset
  {
    hide ReadUint16;
    if offset + 4 <= |d| {
      CollectCanonical(e, d, offset + 4 + ReadUint16(e, d, offset + 2));
    }
  }

  lemma {:induction false} NormalFixes(ps: seq<Parameter>)
    requires forall p | p in ps :: Canonical(p)
    ensures Normal(ps) == ps
  {
    if ps != [] {
      assert ps[0] in ps;
      assert Padded(ps[0].value) == ps[0].value;
      NormalFixes(ps[1..]);
      assert ps == [ps[0]] + ps[1..];
    }
  }

  /** Whatever list the decoder returns, from any bytes, can be encoded in either byte
      order and decodes to itself. */
  lemma DecodedSurvives(payload: Bytes, e: Endianness, tail: Bytes)
    requires Decode(payload).Some?
    ensures var ps := Decode(payload).value.0;
            Encode(ps, e).Some? && Decode(Encode(ps, e).value + tail) == Some((ps, e))
  {
    hide Collect;
    hide Entries;
    hide Pair;
    hide Normal;
    var (ps, from) := Decode(payload).value;
    CollectCanonical(from, payload, HEADER_SIZE);
    NormalFixes(ps);
    RoundTrip(ps, e, tail);
  }

  // ---- What the decoder accepts ----

  /** Parameters as they may stand in a list. */
  predicate Aligned(raw: seq<Parameter>) {
    forall p | p in raw :: p.id != PID_SENTINEL && |p.value| % 4 == 0 && |p.value| <= 0xFFFF
  }

  /** The payload is a header for byte order e, these parameters, the sentinel with length
      zero, and `tail`. */
  predicate ListStands(payload: Bytes, e: Endianness, raw: seq<Parameter>, tail: Bytes) {
    && |payload| >= 4 && payload[0] == 0 && payload[1] == (if e.Little? then 3 else 2)
    && Aligned(raw) && AlignedCarried(raw)
    && payload[4..] == Entries(e, raw) + (Pair(e, PID_SENTINEL, 0) + tail)
  }

  predicate AlignedCarried(raw: seq<Parameter>) {
    forall p | p in raw :: Carried(p)
  }

  lemma {:induction false} AlignedEntries(raw: seq<Parameter>)
    requires Aligned(raw)
    ensures AlignedCarried(raw)
    ensures forall p | p in raw :: Padded(p.value) == p.value
  {
    forall p | p in raw ensures Carried(p) && Padded(p.value) == p.value {
      assert AlignedSize(|p.value|) == |p.value|;
    }
  }

  lemma PairBack(e: Endianness, d: Bytes, offset: nat)
    requires offset + 4 <= |d|
    ensures d[offset..offset + 4] == Pair(e, ReadUint16(e, d, offset), ReadUint16(e, d, offset + 2))
  {
    Pow256Values();
    var one, two := d[offset..offset + 2], d[offset + 2..offset + 4];
    GetDigits(e, one);
    GetDigits(e, two);
    DigitsPut(e, one, Get(e, one));
    DigitsPut(e, two, Get(e, two));
    assert d[offset..offset + 4] == one + two;
  }

  /** What is collected stands there. */
  lemma {:induction false} CollectOrigin(e: Endianness, d: Bytes, offset: nat)
    returns (raw: seq<Parameter>, tail: Bytes)
    requires offset <= |d| && Collect(e, d, offset).Some?
    ensures Aligned(raw) && AlignedCarried(raw) && Collect(e, d, offset).value == Normal(raw)
    ensures d[offset..] == Entries(e, raw) + (Pair(e, PID_SENTINEL, 0) + tail)
    decreases |d| - offset
  {
    hide ReadUint16;
    hide Pair;
    hide Entries;
    hide Normal;
    hide AlignedCarried;
    PairBack(e, d, offset);
    var id, length, o := ReadUint16(e, d, offset), ReadUint16(e, d, offset + 2), offset + 4;
    if id == PID_SENTINEL {
      raw, tail := [], d[o..];
      NothingListed(e);
      assert d[offset..] == [] + (d[offset..o] + tail);
    } else {
      var behind;
      behind, tail := CollectOrigin(e, d, o + length);
      var p := Parameter(id, d[o..o + length]);
      raw := [p] + behind;
      AlignedEntries(raw);
      NormalCons(p, behind);
      EntriesCons(e, p, behind);
      var end := Pair(e, PID_SENTINEL, 0) + tail;
      assert d[offset..] == Pair(e, id, length) + p.value + (Entries(e, behind) + end) by {
        assert d[offset..] == d[offset..o] + d[o..o + length] + d[o + length..];
      }
      assert Pair(e, id, length) + p.value + (Entries(e, behind) + end) ==
             Pair(e, id, length) + p.value + Entries(e, behind) + end;
    }
  }

  lemma NothingListed(e: Endianness)
    ensures AlignedCarried([]) && Entries(e, []) == [] && Normal([]) == []
  {
  }

  lemma NormalCons(p: Parameter, behind: seq<Parameter>)
    requires |p.value| % 4 == 0
    ensures Normal([p] + behind) == Kept(p.id, p.value) + Normal(behind)
    ensures p.id == PID_PAD ==> Normal([p] + behind) == Normal(behind)
  {
    assert ([p] + behind)[1..] == behind;
    assert Padded(p.value) == p.value;
    assert [] + Normal(behind) == Normal(behind);
  }

  lemma EntriesCons(e: Endianness, p: Parameter, behind: seq<Parameter>)
    requires AlignedCarried([p] + behind) && |p.value| % 4 == 0
    ensures Carried(p) && AlignedCarried(behind)
    ensures Entries(e, [p] + behind) == Pair(e, p.id, |p.value|) + p.value + Entries(e, behind)
  {
    var raw := [p] + behind;
    assert p in raw && raw[1..] == behind && raw[0] == p;
    EntryPlain(e, p);
  }

  lemma EntryPlain(e: Endianness, p: Parameter)
    requires Carried(p) && |p.value| % 4 == 0
    ensures Entry(e, p) == Pair(e, p.id, |p.value|) + p.value
  {
    hide Pair;
    assert AlignedSize(|p.value|) == |p.value|;
  }

  /** The decoder accepts exactly the payloads in which a list stands, and returns that list
      without its PID_PAD entries. */
  lemma DecodedExactly(payload: Bytes, e: Endianness, ps: seq<Parameter>)
    ensures Decode(payload) == Some((ps, e)) <==>
            exists raw, tail :: ListStands(payload, e, raw, tail) && ps == Normal(raw)
  {
    hide Collect;
    hide Entries;
    hide Pair;
    hide Normal;
    if Decode(payload) == Some((ps, e)) {
      var raw, tail := CollectOrigin(e, payload, HEADER_SIZE);
      assert ListStands(payload, e, raw, tail);
    }
    forall raw, tail | ListStands(payload, e, raw, tail) ensures Decode(payload) == Some((Normal(raw), e)) {
      EntriesRead(e, payload, HEADER_SIZE, raw, tail);
    }
  }

  // ---- find_parameter ----

  function Find(ps: seq<Parameter>, id: UInt16): Option<Bytes> {
    if ps == [] then None else if ps[0].id == id then Some(ps[0].value) else Find(ps[1..], id)
  }

  /** The first parameter with an id keeps its place on the way. */
  lemma {:induction false} FindNormal(ps: seq<Parameter>, id: UInt16)
    requires id != PID_PAD
    ensures Find(Normal(ps), id) == match Find(ps, id) case None => None case Some(v) => Some(Padded(v))
  {
    if ps != [] {
      FindNormal(ps[1..], id);
      var rest := Normal(ps[1..]);
      var head := Parameter(ps[0].id, Padded(ps[0].value));
      assert ([head] + rest)[1..] == rest && [] + rest == rest;
    }
  }

  // ---- As the code runs it ----

  method AppendUint16(bytes: Bytes, value: UInt16, e: Endianness) returns (r: Bytes)
    ensures r == bytes + Put(e, value, 2)
    ensures r == bytes + if e.Little? then [(value % 256) as Byte, (value / 256) as Byte]
                         else [(value / 256) as Byte, (value % 256) as Byte]
  {
    var low, high := (value % 256) as Byte, (value / 256) as Byte;
    r := bytes;
    if e.Little? {
      r := r + [low];
      r := r + [high];
    } else {
      r := r + [high];
      r := r + [low];
    }
    assert LittleBytes(value, 2) == [low] + LittleBytes(value / 256, 1);
    assert LittleBytes(value / 256, 1) == [high] + LittleBytes(value / 256 / 256, 0);
    assert BigBytes(value, 2) == BigBytes(value / 256, 1) + [low];
    assert BigBytes(value / 256, 1) == BigBytes(value / 256 / 256, 0) + [high];
  }

  lemma {:induction false} EntriesSnoc(e: Endianness, ps: seq<Parameter>, p: Parameter)
    requires Carried(p) && forall q | q in ps :: Carried(q)
    ensures forall q | q in ps + [p] :: Carried(q)
    ensures Entries(e, ps + [p]) == Entries(e, ps) + Entry(e, p)
  {
    hide Entry;
    if ps == [] {
      assert ps + [p] == [p] && [p][1..] == [];
    } else {
      assert ps[0] in ps;
      EntriesSnoc(e, ps[1..], p);
      assert (ps + [p])[1..] == ps[1..] + [p];
    }
  }

  method AppendParameter(bytes: Bytes, p: Parameter, wireSize: nat, e: Endianness) returns (r: Bytes)
    requires Carried(p) && wireSize == AlignedSize(|p.value|)
    ensures r == bytes + Entry(e, p)
  {
    hide Put;
    hide AlignedSize;
    r := AppendUint16(bytes, p.id, e);
    r := AppendUint16(r, wireSize, e);
    r := r + p.value;
    r := r + Zeros(wireSize - |p.value|);
  }

  lemma NoEntries(e: Endianness)
    ensures Entries(e, []) == []
  {
  }

  method EncodeParameterList(ps: seq<Parameter>, e: Endianness) returns (ok: bool, payload: Bytes)
    ensures ok == Encode(ps, e).Some?
    ensures payload == if ok then Encode(ps, e).value else []
  {
    hide Put;
    hide Entries;
    hide Entry;
    hide AlignedSize;
    NoEntries(e);
    payload := [0, if e.Little? then 3 else 2, 0, 0];
    for i := 0 to |ps|
      invariant forall p | p in ps[..i] :: Carried(p)
      invariant payload == Header(e) + Entries(e, ps[..i])
    {
      var p := ps[i];
      assert p in ps;
      if p.id == PID_SENTINEL {
        return false, [];
      }
      var wireSize := AlignedSize(|p.value|);
      if wireSize > 0xFFFF {
        return false, [];
      }
      EntriesSnoc(e, ps[..i], p);
      assert ps[..i + 1] == ps[..i] + [p];
      ghost var before := payload;
      payload := AppendParameter(payload, p, wireSize, e);
      assert before + Entry(e, p) == Header(e) + (Entries(e, ps[..i]) + Entry(e, p));
    }
    assert ps[..|ps|] == ps;
    payload := AppendUint16(payload, PID_SENTINEL, e);
    payload := AppendUint16(payload, 0, e);
    ok := true;
  }

  /** What is collected from `offset` on, behind what was collected before. */
  function Onto(before: seq<Parameter>, rest: Option<seq<Parameter>>): Option<seq<Parameter>> {
    if rest.None? then None else Some(before + rest.value)
  }

  method DecodeParameterList(payload: Bytes) returns (r: Option<(seq<Parameter>, Endianness)>)
    ensures r == Decode(payload)
  {
    hide ReadUint16;
    if |payload| < 8 {
      return None;
    }
    var order := ByteOrder(payload);
    if order.None? {
      return None;
    }
    var e, offset := order.value, HEADER_SIZE;
    var parameters: seq<Parameter> := [];
    assert Collect(e, payload, offset).Some? ==>
             [] + Collect(e, payload, offset).value == Collect(e, payload, offset).value;
    while offset + 4 <= |payload|
      invariant offset <= |payload|
      invariant Onto(parameters, Collect(e, payload, offset)) == Collect(e, payload, HEADER_SIZE)
      decreases |payload| - offset
    {
      var id, length := ReadUint16(e, payload, offset), ReadUint16(e, payload, offset + 2);
      ghost var rest := Collect(e, payload, offset);
      offset := offset + 4;
      if id == PID_SENTINEL {
        if length != 0 {
          return None;
        }
        assert parameters + [] == parameters;
        return Some((parameters, e));
      }
      if length % 4 != 0 || length > |payload| - offset {
        return None;
      }
      ghost var before := parameters;
      if id != PID_PAD {
        parameters := parameters + [Parameter(id, payload[offset..offset + length])];
      }
      offset := offset + length;
      if Collect(e, payload, offset).Some? {
        ghost var more := Collect(e, payload, offset).value;
        assert before + ([Parameter(id, payload[offset - length..offset])] + more) ==
               before + [Parameter(id, payload[offset - length..offset])] + more;
      }
    }
    return None;
  }

  method FindParameter(ps: seq<Parameter>, id: UInt16) returns (r: Option<Bytes>)
    ensures r == Find(ps, id)
  {
    for i := 0 to |ps|
      invariant Find(ps, id) == Find(ps[i..], id)
    {
      assert ps[i..][1..] == ps[i + 1..];
      if ps[i].id == id {
        return Some(ps[i].value);
      }
    }
    return None;
  }
}
