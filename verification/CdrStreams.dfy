/** The CDR writer and reader as the code has them: a byte buffer that grows, and a
    cursor that moves over a buffer until a read fails. */
module CdrStreams {
  import opened Types
  import opened Cdr

  class CdrWriter {
    const endianness: Endianness
    var data: Bytes
    ghost var fields: seq<Field>

    ghost predicate Valid()
      reads this
    {
      data == Encoded(endianness, 0, fields)
    }

    constructor (e: Endianness)
      ensures Valid() && endianness == e && fields == [] && data == []
    {
      endianness, data, fields := e, [], [];
    }

    method Align(alignment: nat)
      requires Width(alignment)
      modifies this`data
      ensures data == old(data) + Zeros(Pad(|old(data)|, alignment))
    {
      var padding := Pad(|data|, alignment);
      data := data + Zeros(padding);
    }

    method WriteUnsigned(value: nat, byteCount: nat)
      requires Width(byteCount)
      modifies this`data
      ensures data == old(data) + PutAligned(endianness, |old(data)|, value, byteCount)
      ensures |data| == |old(data)| + Pad(|old(data)|, byteCount) + byteCount
      ensures Holds(endianness, data, |data| - byteCount, byteCount, value)
    {
      Align(byteCount);
      ghost var padded := data;
      AppendDigits(value, byteCount);
      PutDigits(endianness, value, byteCount);
      assert data[|padded|..|padded| + byteCount] == Put(endianness, value, byteCount);
    }

    /** The two byte loops: value >> (8 * i) cut to a byte is value / 256^i % 256. */
    method AppendDigits(value: nat, byteCount: nat)
      modifies this`data
      ensures data == old(data) + Put(endianness, value, byteCount)
    {
      ghost var start := data;
      if endianness.Little? {
        for index := 0 to byteCount
          invariant data == start + LittleBytes(value, byteCount)[..index]
        {
          LittleDigit(value, byteCount, index);
          data := data + [(value / Pow256(index) % 256) as Byte];
        }
      } else {
        for index := 0 to byteCount
          invariant data == start + BigBytes(value, byteCount)[..index]
        {
          BigDigit(value, byteCount, index);
          data := data + [(value / Pow256(byteCount - index - 1) % 256) as Byte];
        }
      }
    }

    method WriteUint8(value: Byte)
      requires Valid()
      modifies this
      ensures Valid() && fields == old(fields) + [U8(value)]
    {
      EncodedSnoc(endianness, fields, U8(value));
      data := data + [value];
      fields := fields + [U8(value)];
    }

    method WriteUint16(value: UInt16)
      requires Valid()
      modifies this
      ensures Valid() && fields == old(fields) + [U16(value)]
    {
      hide Holds;
      EncodedSnoc(endianness, fields, U16(value));
      WriteUnsigned(value, 2);
      fields := fields + [U16(value)];
    }

    method WriteUint32(value: UInt32)
      requires Valid()
      modifies this
      ensures Valid() && fields == old(fields) + [U32(value)]
    {
      hide Holds;
      EncodedSnoc(endianness, fields, U32(value));
      WriteUnsigned(value, 4);
      fields := fields + [U32(value)];
    }

    method WriteUint64(value: UInt64)
      requires Valid()
      modifies this
      ensures Valid() && fields == old(fields) + [U64(value)]
    {
      hide Holds;
      EncodedSnoc(endianness, fields, U64(value));
      WriteUnsigned(value, 8);
      fields := fields + [U64(value)];
    }

    method WriteInt32(value: Int32)
      requires Valid()
      modifies this
      ensures Valid() && fields == old(fields) + [I32(value)]
    {
      hide Holds;
      EncodedSnoc(endianness, fields, I32(value));
      WriteUnsigned(UnsignedOf32(value), 4);
      fields := fields + [I32(value)];
    }

    method WriteBytes(value: Bytes)
      requires Valid()
      modifies this
      ensures Valid() && fields == old(fields) + [Raw(value)]
    {
      EncodedSnoc(endianness, fields, Raw(value));
      data := data + value;
      fields := fields + [Raw(value)];
    }

    /** `ok` is false where the source throws std::length_error. */
    method WriteString(value: Bytes) returns (ok: bool)
      requires Valid()
      modifies this
      ensures Valid() && ok == StringFits(value)
      ensures fields == if ok then old(fields) + [Str(value)] else old(fields)
    {
      hide Holds;
      hide Pad;
      hide Pow256;
      hide PutAligned;
      if |value| >= TWO_32 - 1 {
        return false;
      }
      EncodedSnoc(endianness, fields, Str(value));
      WriteUnsigned(|value| + 1, 4);
      ghost var head := PutAligned(endianness, |old(data)|, |value| + 1, 4);
      data := data + value;
      data := data + [0];
      assert data == old(data) + (head + value + [0]);
      fields := fields + [Str(value)];
      return true;
    }
  }

  class CdrReader {
    const data: Bytes
    const endianness: Endianness
    var offset: nat
    var valid: bool
    ghost var start: nat
    ghost var taken: seq<Field>
    ghost var stuck: seq<Shape>

    /** The cursor stays within the buffer on every input. While no read has failed it
        stands where `ReadFields` leaves it after the fields taken since `start`; after a
        failure `stuck` is a request that `ReadFields` refuses there. */
    ghost predicate Valid()
      reads this
    {
      && start <= |data| && offset <= |data|
      && (valid ==> ReadFields(endianness, data, start, Shapes(taken)) == Some((taken, offset)))
      && (!valid ==> ReadFields(endianness, data, start, stuck).None?)
    }

    constructor (d: Bytes, e: Endianness)
      ensures Valid() && data == d && endianness == e && offset == start == 0 && valid && taken == []
    {
      data, endianness, offset, valid, start, taken := d, e, 0, true, 0, [];
      new;
      ReadNothing(endianness, data, 0);
      assert Shapes([]) == [];
    }

    /** Counts the fields from here on. */
    ghost method Mark()
      requires Valid() && valid
      modifies this`start, this`taken
      ensures Valid() && start == offset && taken == []
    {
      start, taken := offset, [];
      ReadNothing(endianness, data, start);
      assert Shapes([]) == [];
    }

    method Require(count: nat) returns (ok: bool)
      requires offset <= |data|
      modifies this`valid
      ensures ok == (old(valid) && count <= |data| - offset) == valid
    {
      if !valid || count > |data| - offset {
        valid := false;
        return false;
      }
      return true;
    }

    method Align(alignment: nat) returns (ok: bool)
      requires offset <= |data| && Width(alignment)
      modifies this`valid, this`offset
      ensures offset <= |data|
      ensures ok == (old(valid) && old(offset) + Pad(old(offset), alignment) <= |data|) == valid
      ensures ok ==> offset == old(offset) + Pad(old(offset), alignment)
    {
      var padding := Pad(offset, alignment);
      ok := Require(padding);
      if ok {
        offset := offset + padding;
      }
    }

    /** The two byte loops of ReadUnsigned. OR-ing a shifted byte into digits that are
        still zero adds it. */
    method Gather(byteCount: nat) returns (value: nat)
      requires offset + byteCount <= |data|
      ensures value == Get(endianness, data[offset..offset + byteCount])
    {
      value := 0;
      if endianness.Little? {
        for index := 0 to byteCount
          invariant value == LittleValue(data[offset..offset + index])
        {
          LittleSnoc(data[offset..offset + index], data[offset + index]);
          assert data[offset..offset + index + 1] == data[offset..offset + index] + [data[offset + index]];
          value := value + data[offset + index] as nat * Pow256(index);
        }
      } else {
        for index := 0 to byteCount
          invariant value == BigValue(data[offset..offset + index])
        {
          assert data[offset..offset + index + 1][..index] == data[offset..offset + index];
          value := value * 256 + data[offset + index] as nat;
        }
      }
    }

    method ReadUnsigned(byteCount: nat, ghost bound: nat) returns (ok: bool, value: nat)
      requires offset <= |data| && Width(byteCount) && bound == Pow256(byteCount)
      modifies this`valid, this`offset
      ensures offset <= |data| && ok == valid
      ensures ok == (old(valid) && GetAligned(endianness, data, old(offset), byteCount, bound).Some?)
      ensures ok ==> GetAligned(endianness, data, old(offset), byteCount, bound) == Some((value, offset))
      ensures ok <==> old(valid) && old(offset) + Pad(old(offset), byteCount) + byteCount <= |data|
      ensures ok ==> offset == old(offset) + Pad(old(offset), byteCount) + byteCount
      ensures ok ==> value < bound && Holds(endianness, data, offset - byteCount, byteCount, value)
    {
      value := 0;
      ok := Align(byteCount);
      if !ok { return; }
      ok := Require(byteCount);
      if !ok { return; }
      value := Gather(byteCount);
      GetDigits(endianness, data[offset..offset + byteCount]);
      offset := offset + byteCount;
    }

    /** What every public read promises: it succeeds with field `f`, or leaves a record
        of the request that failed. */
    twostate predicate Reads(ok: bool, f: Field)
      reads this
    {
      && ok == valid && start == old(start)
      && (ok ==> old(valid) && taken == old(taken) + [f])
      && (!ok ==> stuck == if old(valid) then Shapes(old(taken)) + [ShapeOf(f)] else old(stuck))
    }

    ghost method Record(ok: bool, wasValid: bool, from: nat, f: Field)
      requires start <= |data| && offset <= |data| && ok == valid && (ok ==> wasValid)
      requires wasValid ==> ReadFields(endianness, data, start, Shapes(taken)) == Some((taken, from))
      requires !wasValid ==> ReadFields(endianness, data, start, stuck).None?
      requires wasValid ==> from <= |data| && ok == ReadField(endianness, data, from, ShapeOf(f)).Some?
      requires ok ==> ReadField(endianness, data, from, ShapeOf(f)) == Some((f, offset))
      modifies this`taken, this`stuck
      ensures Valid()
      ensures ok ==> taken == old(taken) + [f]
      ensures !ok ==> stuck == if wasValid then Shapes(old(taken)) + [ShapeOf(f)] else old(stuck)
    {
      hide ReadField;
      hide ReadFields;
      if wasValid {
        ReadSnoc(endianness, data, start, Shapes(taken), ShapeOf(f));
        if ok {
          assert Shapes(taken + [f]) == Shapes(taken) + [ShapeOf(f)];
          taken := taken + [f];
        } else {
          stuck := Shapes(taken) + [ShapeOf(f)];
        }
      }
    }

    method ReadUint8() returns (ok: bool, value: Byte)
      requires Valid()
      modifies this
      ensures Valid() && Reads(ok, U8(value))
    {
      value := 0;
      ok := Require(1);
      if ok {
        value := data[offset];
        offset := offset + 1;
      }
      Record(ok, old(valid), old(offset), U8(value));
    }

    method ReadUint16() returns (ok: bool, value: UInt16)
      requires Valid()
      modifies this
      ensures Valid() && Reads(ok, U16(value))
    {
      hide Holds;
      Pow256Values();
      var decoded;
      ok, decoded := ReadUnsigned(2, 0x1_0000);
      value := if ok then decoded else 0;
      Record(ok, old(valid), old(offset), U16(value));
    }

    method ReadUint32() returns (ok: bool, value: UInt32)
      requires Valid()
      modifies this
      ensures Valid() && Reads(ok, U32(value))
    {
      hide Holds;
      Pow256Values();
      var decoded;
      ok, decoded := ReadUnsigned(4, TWO_32);
      value := if ok then decoded else 0;
      Record(ok, old(valid), old(offset), U32(value));
    }

    method ReadUint64() returns (ok: bool, value: UInt64)
      requires Valid()
      modifies this
      ensures Valid() && Reads(ok, U64(value))
    {
      hide Holds;
      Pow256Values();
      var decoded;
      ok, decoded := ReadUnsigned(8, TWO_64);
      value := if ok then decoded else 0;
      Record(ok, old(valid), old(offset), U64(value));
    }

    method ReadInt32() returns (ok: bool, value: Int32)
      requires Valid()
      modifies this
      ensures Valid() && Reads(ok, I32(value))
    {
      hide Holds;
      Pow256Values();
      var decoded;
      ok, decoded := ReadUnsigned(4, TWO_32);
      value := if ok then SignedOf32(decoded) else 0;
      Record(ok, old(valid), old(offset), I32(value));
    }

    method ReadBytes(count: nat) returns (ok: bool, value: Bytes)
      requires Valid()
      modifies this
      ensures Valid() && |value| == count && Reads(ok, Raw(value))
    {
      hide ReadFields;
      value := Zeros(count);
      ok := Require(count);
      if ok {
        value := data[offset..offset + count];
        offset := offset + count;
      }
      Record(ok, old(valid), old(offset), Raw(value));
    }

    method ReadString() returns (ok: bool, value: Bytes)
      requires Valid()
      modifies this
      ensures Valid() && Reads(ok, Str(value))
    {
      hide Holds;
      Pow256Values();
      hide ReadFields;
      hide GetAligned;
      hide Pow256;
      value := [];
      var length;
      ok, length := ReadUnsigned(4, TWO_32);
      if ok {
        if length == 0 {
          valid, ok := false, false;
        } else {
          ok := Require(length);
          if ok {
            if data[offset + length - 1] != 0 {
              valid, ok := false, false;
            } else {
              value := data[offset..offset + length - 1];
              offset := offset + length;
            }
          }
        }
      }
      Record(ok, old(valid), old(offset), Str(value));
    }

    function Remaining(): (r: nat)
      requires Valid()
      reads this
      ensures valid ==> offset + r == |data|
      ensures !valid ==> r == 0
    {
      if valid then |data| - offset else 0
    }
  }
}
