/** The values discovery puts into a parameter list: GUIDs, numbers, strings, UDPv4
    locators and durations (section 9.3.2 of DDSI-RTPS 2.5). */
module DiscoveryValues {
  import opened Types
  import opened Seqs
  import opened Cdr
  import opened Submessages
  import opened SerializedPayload
  import opened ParameterList

  // ---- GUIDs and numbers ----

  function EncodeGuid(g: Guid): Bytes {
    g.prefix + g.entity
  }

  function DecodeGuid(value: Bytes): Option<Guid> {
    if |value| < 16 then None else Some(Guid(value[..12], value[12..16]))
  }

  lemma GuidRoundTrip(g: Guid)
    ensures DecodeGuid(Padded(EncodeGuid(g))) == Some(g)
  {
    assert Padded(EncodeGuid(g)) == g.prefix + g.entity;
  }

  function EncodeUint32(n: UInt32, e: Endianness): Bytes {
    Encoded(e, 0, [U32(n)])
  }

  function DecodeUint32(value: Bytes, e: Endianness): Option<UInt32> {
    var (fields, _) :- ReadSome(e, value, 0, [AsU32]);
    Some(fields[0].v32)
  }

  /** A list of 4-byte fields is read back from a padded value. */
  lemma WordsBack(e: Endianness, fields: seq<Field>, count: nat)
    requires forall f | f in fields :: Word(f)
    requires count <= |fields| && count > 0
    ensures var value := Padded(Encoded(e, 0, fields));
            && |value| == 4 * |fields|
            && ReadSome(e, value, 0, Shapes(fields[..count])) == Some((fields[..count], 4 * count))
  {
    hide ReadFields;
    hide Encoded;
    WordsLength(e, 0, fields);
    WordsLength(e, 0, fields[..count]);
    assert fields == fields[..count] + fields[count..];
    EncodedAppend(e, 0, fields[..count], fields[count..]);
    var value := Padded(Encoded(e, 0, fields));
    assert value[0..4 * count] == Encoded(e, 0, fields[..count]);
    FieldsRoundTrip(e, value, 0, fields[..count], 4 * count);
  }

  lemma Uint32RoundTrip(n: UInt32, e: Endianness)
    ensures DecodeUint32(Padded(EncodeUint32(n, e)), e) == Some(n)
  {
    hide ReadSome;
    hide Encoded;
    WordsBack(e, [U32(n)], 1);
    assert [U32(n)][..1] == [U32(n)];
    assert Shapes([U32(n)]) == [AsU32];
  }

  // ---- Strings ----

  function EncodeString(text: Bytes, e: Endianness): Bytes {
    Encoded(e, 0, [Str(text)])
  }

  lemma StringLength(text: Bytes, e: Endianness)
    ensures |EncodeString(text, e)| == 5 + |text|
  {
    hide Put;
    EncodedOne(e, Str(text));
  }

  /** The padding of the parameter list is padding the string decoder accepts. */
  lemma NameRoundTrip(text: Bytes, e: Endianness)
    requires StringFits(text)
    ensures PaddedString(e, Padded(EncodeString(text, e))) == Some(text)
  {
    hide Encoded;
    hide PaddedString;
    var value := EncodeString(text, e);
    PaddedStringExact(e, text, Zeros(AlignedSize(|value|) - |value|));
  }

  // ---- Dotted addresses ----

  const DOT: Byte := 46

  predicate IsDigit(b: Byte) {
    48 <= b <= 57
  }

  /** std::to_string */
  function Digits(n: nat): Bytes {
    var last := [(48 + n % 10) as Byte];
    if n < 10 then last else Digits(n / 10) + last
  }

  function Decimal(text: Bytes): nat
    requires forall b | b in text :: IsDigit(b)
  {
    if text == [] then 0
    else
      assert text[|text| - 1] in text && IsDigit(text[|text| - 1]);
      Decimal(text[..|text| - 1]) * 10 + (text[|text| - 1] as int - 48)
  }

  function Dotted(octets: Bytes): Bytes
    requires octets != []
  {
    if |octets| == 1 then Digits(octets[0] as nat)
    else Digits(octets[0] as nat) + ([DOT] + Dotted(octets[1..]))
  }

  function DigitsEnd(text: Bytes, i: nat): (r: nat)
    requires i <= |text|
    ensures i <= r <= |text|
    ensures forall k | i <= k < r :: IsDigit(text[k])
    decreases |text| - i
  {
    if i < |text| && IsDigit(text[i]) then DigitsEnd(text, i + 1) else i
  }

  /** n numbers up to 255 separated by dots, up to the end of the text. */
  function ParseOctets(text: Bytes, i: nat, n: nat): (r: Option<Bytes>)
    requires i <= |text| && n >= 1
    ensures r.Some? ==> |r.value| == n
    decreases n
  {
    var j := DigitsEnd(text, i);
    if j == i then None
    else
      var v := Decimal(text[i..j]);
      if v > 255 then None
      else if n == 1 then if j == |text| then Some([v as Byte]) else None
      else if j == |text| || text[j] != DOT then None
      else
        var rest :- ParseOctets(text, j + 1, n - 1);
        Some([v as Byte] + rest)
  }

  function ParseIpv4(text: Bytes): (r: Option<Bytes>)
    ensures r.Some? ==> |r.value| == 4
  {
    ParseOctets(text, 0, 4)
  }

  lemma {:induction false} DigitsAreDecimal(n: nat)
    ensures Digits(n) != [] && (forall b | b in Digits(n) :: IsDigit(b)) && Decimal(Digits(n)) == n
  {
    if n >= 10 {
      DigitsAreDecimal(n / 10);
      assert Digits(n)[..|Digits(n)| - 1] == Digits(n / 10);
    }
  }

  lemma {:induction false} DigitsSpan(text: Bytes, i: nat, digits: Bytes, rest: Bytes)
    requires i <= |text| && text[i..] == digits + rest
    requires (forall b | b in digits :: IsDigit(b)) && (rest == [] || !IsDigit(rest[0]))
    ensures DigitsEnd(text, i) == i + |digits|
    decreases |digits|
  {
    if digits == [] {
      assert rest != [] ==> text[i..][0] == rest[0];
    } else {
      assert text[i..][0] == digits[0] && digits[0] in digits;
      assert text[i + 1..] == text[i..][1..] == digits[1..] + rest;
      DigitsSpan(text, i + 1, digits[1..], rest);
    }
  }

  lemma NumberRead(text: Bytes, i: nat, n: nat, rest: Bytes)
    requires i <= |text| && text[i..] == Digits(n) + rest && (rest == [] || !IsDigit(rest[0]))
    ensures var j := DigitsEnd(text, i);
            i < j && Decimal(text[i..j]) == n && text[j..] == rest
  {
    hide DigitsEnd;
    hide Digits;
    hide Decimal;
    hide IsDigit;
    DigitsAreDecimal(n);
    DigitsSpan(text, i, Digits(n), rest);
    SplitSlice(text, i, |text|, Digits(n), rest);
  }

  lemma {:induction false} ParseDotted(text: Bytes, i: nat, octets: Bytes)
    requires octets != [] && i <= |text| && text[i..] == Dotted(octets)
    ensures ParseOctets(text, i, |octets|) == Some(octets)
    decreases |octets|
  {
    hide Digits;
    hide DigitsEnd;
    hide Decimal;
    if |octets| == 1 {
      assert Digits(octets[0] as nat) + [] == Digits(octets[0] as nat);
      NumberRead(text, i, octets[0] as nat, []);
      assert octets == [octets[0]];
    } else {
      NumberRead(text, i, octets[0] as nat, [DOT] + Dotted(octets[1..]));
      var j := DigitsEnd(text, i);
      assert text[j] == text[j..][0] == DOT;
      assert text[j + 1..] == text[j..][1..] == Dotted(octets[1..]);
      ParseDotted(text, j + 1, octets[1..]);
      assert octets == [octets[0]] + octets[1..];
    }
  }

  predicate CanonicalAddress(text: Bytes) {
    ParseIpv4(text).Some? && text == Dotted(ParseIpv4(text).value)
  }

  /** Printing four octets and parsing the text returns them, so a printed address is
      canonical. */
  lemma AddressRoundTrip(octets: Bytes)
    requires |octets| == 4
    ensures ParseIpv4(Dotted(octets)) == Some(octets) && CanonicalAddress(Dotted(octets))
  {
    ParseDotted(Dotted(octets), 0, octets);
  }

  // ---- Locators ----

  const LOCATOR_KIND_UDP_V4: Int32 := 1
  const LOCATOR_SHAPES: seq<Shape> := [AsI32, AsU32, AsRaw(16)]

  function LocatorFields(port: UInt16, octets: Bytes): seq<Field> {
    [I32(LOCATOR_KIND_UDP_V4), U32(port), Raw(Zeros(12)), Raw(octets)]
  }

  function EncodeLocator(locator: Endpoint, e: Endianness): Option<Bytes> {
    if locator.port == 0 then None
    else
      var octets :- ParseIpv4(locator.address);
      Some(Encoded(e, 0, LocatorFields(locator.port, octets)))
  }

  function DecodeLocator(value: Bytes, e: Endianness): Option<Endpoint> {
    var (fields, _) :- ReadSome(e, value, 0, LOCATOR_SHAPES);
    var kind, port, address := fields[0].i32, fields[1].v32, fields[2].raw;
    if kind != LOCATOR_KIND_UDP_V4 || port == 0 || port > 0xFFFF || address[..12] != Zeros(12) then None
    else Some(Endpoint(Dotted(address[12..]), port))
  }

  /** Two runs of raw bytes read back as one. */
  lemma LocatorBytes(e: Endianness, port: UInt16, octets: Bytes)
    requires |octets| == 4
    ensures var one := [I32(LOCATOR_KIND_UDP_V4), U32(port), Raw(Zeros(12) + octets)];
            Encoded(e, 0, LocatorFields(port, octets)) == Encoded(e, 0, one) && |Encoded(e, 0, one)| == 24
  {
    hide Encoded;
    var head := [I32(LOCATOR_KIND_UDP_V4), U32(port)];
    WordsLength(e, 0, head);
    EncodedAppend(e, 0, head, [Raw(Zeros(12)), Raw(octets)]);
    EncodedAppend(e, 0, head, [Raw(Zeros(12) + octets)]);
    EncodedCons(e, 8, Raw(Zeros(12)), [Raw(octets)]);
    EncodedCons(e, 20, Raw(octets), []);
    EncodedCons(e, 8, Raw(Zeros(12) + octets), []);
    NothingEncoded(e);
    assert LocatorFields(port, octets) == head + [Raw(Zeros(12)), Raw(octets)];
    assert [Raw(Zeros(12))] + [Raw(octets)] == [Raw(Zeros(12)), Raw(octets)];
    assert [Raw(octets)] + [] == [Raw(octets)];
    assert [Raw(Zeros(12) + octets)] + [] == [Raw(Zeros(12) + octets)];
    assert head + [Raw(Zeros(12) + octets)] == [I32(LOCATOR_KIND_UDP_V4), U32(port), Raw(Zeros(12) + octets)];
  }

  lemma NothingEncoded(e: Endianness)
    ensures Encoded(e, 24, []) == []
  {
  }

  function Readdressed(locator: Endpoint): Endpoint
    requires ParseIpv4(locator.address).Some?
  {
    locator.(address := Dotted(ParseIpv4(locator.address).value))
  }

  /** A locator is encodable exactly when its port is not zero and its address parses; it
      comes back with its address in canonical form, so unchanged if it had that form. */
  lemma LocatorRoundTrip(locator: Endpoint, e: Endianness)
    ensures EncodeLocator(locator, e).Some? <==> locator.port != 0 && ParseIpv4(locator.address).Some?
    ensures EncodeLocator(locator, e).Some? ==>
              && |EncodeLocator(locator, e).value| == 24
              && DecodeLocator(Padded(EncodeLocator(locator, e).value), e) == Some(Readdressed(locator))
    ensures CanonicalAddress(locator.address) ==> Readdressed(locator) == locator
  {
    hide ReadFields;
    hide Encoded;
    hide Dotted;
    hide ParseIpv4;
    if EncodeLocator(locator, e).Some? {
      var octets := ParseIpv4(locator.address).value;
      var one := [I32(LOCATOR_KIND_UDP_V4), U32(locator.port), Raw(Zeros(12) + octets)];
      LocatorBytes(e, locator.port, octets);
      var value := Padded(EncodeLocator(locator, e).value);
      assert value[0..24] == Encoded(e, 0, one);
      FieldsRoundTrip(e, value, 0, one, 24);
      assert Shapes(one) == LOCATOR_SHAPES;
      assert (Zeros(12) + octets)[..12] == Zeros(12) && (Zeros(12) + octets)[12..] == octets;
    }
  }

  // ---- Durations ----

  /** Seconds and a 32-bit binary fraction of a number of milliseconds. */
  function EncodeDuration(ms: int, e: Endianness): Option<Bytes> {
    if ms <= 0 || ms / 1000 > INT32_MAX then None
    else
      var fraction := ms % 1000 * TWO_32 / 1000;
      Some(Encoded(e, 0, [I32(ms / 1000), U32(fraction)]))
  }

  function DecodeDuration(value: Bytes, e: Endianness): Option<int> {
    var (fields, _) :- ReadSome(e, value, 0, [AsI32, AsU32]);
    var seconds, fraction := fields[0].i32, fields[1].v32;
    var ms := seconds * 1000 + fraction * 1000 / TWO_32;
    if seconds < 0 || ms <= 0 then None else Some(ms)
  }

  predicate Exact(ms: int) {
    ms % 1000 % 125 == 0
  }

  /** What a remainder of r milliseconds reads as. */
  lemma FractionLoss(r: nat)
    requires r < 1000
    ensures var fraction := r * TWO_32 / 1000;
            fraction < TWO_32 && fraction * 1000 / TWO_32 == if r % 125 == 0 then r else r - 1
  {
    var fraction, lost := r * TWO_32 / 1000, r * TWO_32 % 1000;
    assert fraction * 1000 == r * TWO_32 - lost;
    ThousandthsLost(r);
    if lost > 0 {
      assert fraction * 1000 == (r - 1) * TWO_32 + (TWO_32 - lost);
    }
  }

  lemma ThousandthsLost(r: nat)
    requires r < 1000
    ensures r * TWO_32 % 1000 == 0 <==> r % 125 == 0
  {
    var q, s := r / 125, r % 125;
    assert r * TWO_32 == 1000 * (q * 536870912 + s * 4294967) + s * 296;
    SameThousandth(r * TWO_32, q * 536870912 + s * 4294967, s * 296);
    NoThousand(s);
  }

  lemma SameThousandth(x: nat, a: nat, y: nat)
    requires x == 1000 * a + y
    ensures x % 1000 == y % 1000
  {
    var b := y / 1000;
    assert x == 1000 * (a + b) + y % 1000;
  }

  lemma NoThousand(s: nat)
    requires s < 125
    ensures s * 296 % 1000 == 0 <==> s == 0
  {
    if s * 296 % 1000 == 0 {
      var k := s * 296 / 1000;
      assert 37 * s == 125 * k;
      assert s == 125 * (98 * k - 29 * s);
    }
  }

  /** A lease is encodable exactly when it is positive and its seconds fit 32 bits. It
      comes back exactly when its milliseconds are a multiple of 125, and one millisecond
      short otherwise; a lease of one millisecond therefore does not come back at all. */
  lemma DurationRoundTrip(ms: int, e: Endianness)
    ensures EncodeDuration(ms, e).Some? <==> 0 < ms < (INT32_MAX + 1) * 1000
    ensures EncodeDuration(ms, e).Some? ==> |EncodeDuration(ms, e).value| == 8
    ensures EncodeDuration(ms, e).Some? ==>
              DecodeDuration(Padded(EncodeDuration(ms, e).value), e) ==
              if ms == 1 then None else Some(if Exact(ms) then ms else ms - 1)
  {
    hide ReadSome;
    hide Encoded;
    if EncodeDuration(ms, e).Some? {
      FractionLoss(ms % 1000);
      var fields := [I32(ms / 1000), U32(ms % 1000 * TWO_32 / 1000)];
      WordsLength(e, 0, fields);
      WordsBack(e, fields, 2);
      assert fields[..2] == fields;
      assert Shapes(fields) == [AsI32, AsU32];
    }
  }

  // ---- Reliability ----

  function EncodeReliability(reliable: bool, e: Endianness): Bytes {
    Encoded(e, 0, [I32(if reliable then 2 else 1), I32(0), U32(0)])
  }

  function DecodeReliability(value: Bytes, e: Endianness): Option<bool> {
    var (fields, _) :- ReadSome(e, value, 0, [AsI32]);
    if fields[0].i32 == 1 then Some(false)
    else if fields[0].i32 == 2 then Some(true)
    else None
  }

  lemma ReliabilityRoundTrip(reliable: bool, e: Endianness)
    ensures |EncodeReliability(reliable, e)| == 12
    ensures DecodeReliability(Padded(EncodeReliability(reliable, e)), e) == Some(reliable)
  {
    hide ReadSome;
    hide Encoded;
    var fields := [I32(if reliable then 2 else 1), I32(0), U32(0)];
    WordsLength(e, 0, fields);
    WordsBack(e, fields, 1);
    assert fields[..1] == [fields[0]];
    assert Shapes([fields[0]]) == [AsI32];
  }
}
