/** Strings as a sample payload: an encapsulation header, a CDR string, and up to three
    zero bytes of padding. */
module SerializedPayload {
  import opened Types
  import opened Cdr
  import opened CdrStreams

  const HEADER_SIZE: nat := 4

  function Header(e: Endianness): Bytes {
    [0, if e.Little? then 1 else 0, 0, 0]
  }

  function ByteOrder(payload: Bytes): Option<Endianness>
    requires |payload| >= 2
  {
    if payload[0] != 0 then None
    else if payload[1] == 1 then Some(Little)
    else if payload[1] == 0 then Some(Big)
    else None
  }

  /** What may follow a string: at most three bytes, all of them zero. */
  predicate OnlyZeroPadding(rest: Bytes) {
    |rest| <= 3 && forall i | 0 <= i < |rest| :: rest[i] == 0
  }

  /** A string that fills `d` up to zero padding. */
  function PaddedString(e: Endianness, d: Bytes): Option<Bytes> {
    var (f, o) :- ReadField(e, d, 0, AsStr);
    if OnlyZeroPadding(d[o..]) then Some(f.text) else None
  }

  /** A string whose length does not fit 32 bits throws. */
  function Serialize(value: Bytes, e: Endianness): Option<Bytes> {
    if StringFits(value) then Some(Header(e) + Encoded(e, 0, [Str(value)])) else None
  }

  function Deserialize(payload: Bytes): Option<Bytes> {
    if |payload| < HEADER_SIZE then None
    else
      var e :- ByteOrder(payload);
      PaddedString(e, payload[HEADER_SIZE..])
  }

  lemma EncodedOne(e: Endianness, f: Field)
    ensures Encoded(e, 0, [f]) == Chunk(e, 0, f)
  {
    EncodedCons(e, 0, f, []);
    assert [f] + [] == [f];
    assert Encoded(e, |Chunk(e, 0, f)|, []) == [];
  }

  /** A written string comes back, whatever bytes it holds, exactly when nothing but
      zero padding follows it. */
  lemma PaddedStringExact(e: Endianness, text: Bytes, rest: Bytes)
    requires StringFits(text)
    ensures PaddedString(e, Encoded(e, 0, [Str(text)]) + rest) ==
            if OnlyZeroPadding(rest) then Some(text) else None
  {
    hide ReadField;
    hide Chunk;
    EncodedOne(e, Str(text));
    var c := Chunk(e, 0, Str(text));
    var d := c + rest;
    assert d[0..|c|] == c && d[|c|..] == rest;
    FieldRoundTrip(e, d, 0, Str(text), |c|);
  }

  /** The payload round trip, in either byte order, embedded zero bytes included; any
      other tail than zero padding is refused. */
  lemma PayloadRoundTrip(value: Bytes, e: Endianness, rest: Bytes)
    requires StringFits(value)
    ensures Serialize(value, e).Some?
    ensures Deserialize(Serialize(value, e).value + rest) == if OnlyZeroPadding(rest) then Some(value) else None
  {
    hide PaddedString;
    hide Encoded;
    hide StringFits;
    var body := Encoded(e, 0, [Str(value)]);
    var payload := Serialize(value, e).value + rest;
    assert payload[HEADER_SIZE..] == body + rest;
    PaddedStringExact(e, value, rest);
  }

  /** Whatever deserializes can be serialized again, in either byte order. */
  lemma DeserializedSurvives(payload: Bytes, e: Endianness)
    ensures var value := Deserialize(payload);
            value.Some? ==> Serialize(value.value, e).Some? && Deserialize(Serialize(value.value, e).value) == value
  {
    var value := Deserialize(payload);
    if value.Some? {
      PayloadRoundTrip(value.value, e, []);
      assert Serialize(value.value, e).value + [] == Serialize(value.value, e).value;
    }
  }

  // ---- As the code runs it ----

  lemma ReadSingle(e: Endianness, d: Bytes, o: nat, s: Shape)
    requires o <= |d|
    ensures ReadFields(e, d, o, [s]).Some? <==> ReadField(e, d, o, s).Some?
    ensures ReadField(e, d, o, s).Some? ==>
              ReadFields(e, d, o, [s]) == Some(([ReadField(e, d, o, s).value.0], ReadField(e, d, o, s).value.1))
  {
    hide ReadField;
    ReadCons(e, d, o, s, []);
    assert [s] + [] == [s];
    if ReadField(e, d, o, s).Some? {
      var (f, p) := ReadField(e, d, o, s).value;
      ReadNothing(e, d, p);
      assert [f] + [] == [f];
    }
  }

  method DecodePaddedString(d: Bytes, e: Endianness) returns (r: Option<Bytes>)
    ensures r == PaddedString(e, d)
  {
    hide ReadField;
    hide ReadFields;
    var input := new CdrReader(d, e);
    ReadSingle(e, d, 0, AsStr);
    var ok, text := input.ReadString();
    if !ok {
      assert input.stuck == [AsStr];
      return None;
    }
    assert Shapes(input.taken) == [AsStr];
    assert ReadField(e, d, 0, AsStr) == Some((Str(text), input.offset)) by {
      var f := ReadField(e, d, 0, AsStr).value.0;
      assert [f][0] == [Str(text)][0];
    }
    var trailing := input.Remaining();
    if trailing > 3 {
      return None;
    }
    var padding := ReadRest(input);
    for i := 0 to |padding|
      invariant forall j | 0 <= j < i :: padding[j] == 0
    {
      if padding[i] != 0 {
        return None;
      }
    }
    return Some(text);
  }

  /** Reads what remains; that much can always be read. */
  method ReadRest(input: CdrReader) returns (rest: Bytes)
    requires input.Valid() && input.valid
    modifies input
    ensures rest == input.data[old(input.offset)..]
  {
    hide ReadFields;
    ghost var from := input.offset;
    input.Mark();
    var ok;
    ok, rest := input.ReadBytes(input.Remaining());
    assert !ok ==> input.stuck == [AsRaw(|rest|)];
    ReadSingle(input.endianness, input.data, from, AsRaw(|rest|));
    assert Shapes(input.taken) == [AsRaw(|rest|)];
    ghost var f := ReadField(input.endianness, input.data, from, AsRaw(|rest|)).value.0;
    assert [f][0] == [Raw(rest)][0];
  }

  method SerializeStringPayload(value: Bytes, e: Endianness) returns (r: Option<Bytes>)
    ensures r == Serialize(value, e)
  {
    hide Encoded;
    var writer := new CdrWriter(e);
    var ok := writer.WriteString(value);
    if !ok {
      return None;
    }
    assert writer.fields == [Str(value)];
    var payload: Bytes := [0, if e.Little? then 1 else 0, 0, 0];
    return Some(payload + writer.data);
  }

  method DeserializeStringPayload(payload: Bytes) returns (r: Option<Bytes>)
    ensures r == Deserialize(payload)
  {
    if |payload| < HEADER_SIZE {
      return None;
    }
    var representation := payload[0] as nat * 0x100 + payload[1] as nat;
    var e;
    if representation == 1 {
      e := Little;
    } else if representation == 0 {
      e := Big;
    } else {
      return None;
    }
    r := DecodePaddedString(payload[HEADER_SIZE..], e);
  }
}
