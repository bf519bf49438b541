/** A container of up to 128 bits loaded whole, and the extents its fields have in it. */
module Containers {
  import opened Words
  import opened Access

  type U128 = w: Bits | |w| == 128 witness Zeros(128)

  /** `Extent::extract_wide`. */
  function ExtractWide(start: nat, width: nat, bits: U128): U128 {
    And(Shr(bits, start), LowMask(width, 128))
  }

  /** `Extent::insert_wide`. */
  function InsertWide(start: nat, width: nat, bits: U128, value: U128): U128 {
    var mask := LowMask(width, 128);
    Or(And(bits, Not(Shl(mask, start))), Shl(And(value, mask), start))
  }

  lemma ExtractIsSlice(start: nat, width: nat, bits: U128)
    requires start + width <= 128
    ensures ExtractWide(start, width, bits) == Resize(bits[start..start + width], 128)
  {
  }

  lemma InsertIsReplaced(start: nat, width: nat, bits: U128, value: U128)
    requires start + width <= 128
    ensures InsertWide(start, width, bits, value) == Replaced(bits, start, value[..width])
  {
    var mask := LowMask(width, 128);
    forall i | 0 <= i < 128
      ensures InsertWide(start, width, bits, value)[i] == Replaced(bits, start, value[..width])[i]
    {
      assert Shl(mask, start)[i] == (start <= i < start + width);
    }
  }

  /** An insert is read back by the extract at the same extent, and by no extract beside it. */
  lemma ExtractInserted(start: nat, width: nat, bits: U128, value: U128, at: nat, len: nat)
    requires start + width <= 128 && at + len <= 128
    ensures ExtractWide(start, width, InsertWide(start, width, bits, value)) == And(value, LowMask(width, 128))
    ensures at + len <= start || start + width <= at ==>
      ExtractWide(at, len, InsertWide(start, width, bits, value)) == ExtractWide(at, len, bits)
  {
    InsertIsReplaced(start, width, bits, value);
    hide InsertWide;
  }

  /** `BitWord`: the wire's bytes in a `u128`, container bit `i` at bit `i`. */
  class BitWord {
    const wireBytes: nat
    var bits: U128

    ghost predicate Valid()
      reads this
    {
      1 <= wireBytes <= 16 && forall i :: 8 * wireBytes <= i < 128 ==> !bits[i]
    }

    constructor Zeroed(wireBytes: nat)
      requires 1 <= wireBytes <= 16
      ensures Valid() && this.wireBytes == wireBytes && bits == Zeros(128)
    {
      this.wireBytes := wireBytes;
      bits := Zeros(128);
    }

    /** `from_wire`, and `from_wire_be`. */
    constructor FromWire(bytes: seq<Byte>, endian: Endian)
      requires 1 <= |bytes| <= 16
      ensures Valid() && wireBytes == |bytes| && bits == Resize(Whole(bytes, endian), 128)
    {
      hide LeWord, Shl, Or, Reverse, Gathered, Whole;
      var n, gathered: U128 := |bytes|, Zeros(128);
      GatheredEnds(bytes, endian);
      for i := 0 to n
        invariant gathered == Gathered(bytes, endian, i)
      {
        var shift := (if endian.Le? then i else n - 1 - i) * 8;
        GatheredGrows(bytes, endian, i);
        gathered := Or(gathered, Shl(Resize(bytes[i], 128), shift));
      }
      wireBytes := n;
      bits := And(gathered, LowMask(8 * n, 128));
    }

    /** `set_raw`. */
    method SetRaw(raw: U128)
      requires Valid()
      modifies this
      ensures Valid() && bits == And(raw, LowMask(8 * wireBytes, 128))
    {
      bits := And(raw, LowMask(8 * wireBytes, 128));
    }

    /** `to_wire`, and `to_wire_be`: the bytes that load back as this container. */
    method ToWire(endian: Endian) returns (bytes: seq<Byte>)
      requires Valid()
      ensures |bytes| == wireBytes && Whole(bytes, endian) == bits[..8 * wireBytes]
    {
      var out := new Byte[wireBytes](_ => Zeros(8));
      ghost var raw, n := bits[..8 * wireBytes], wireBytes;
      for i := 0 to wireBytes
        invariant bits[..8 * n] == raw
        invariant forall j :: 0 <= j < i ==> out[j] == WireBytes(raw, endian)[j]
      {
        var shift := (if endian.Le? then i else wireBytes - 1 - i) * 8;
        ByteAt(bits, n, endian, i);
        out[i] := Resize(Shr(bits, shift), 8);
      }
      bytes := out[..];
      assert bytes == WireBytes(raw, endian);
      WireBytesLoad(raw, endian);
    }
  }

  /** The bytes a container is sent as. */
  function WireBytes(c: Bits, endian: Endian): (bytes: seq<Byte>)
    requires |c| % 8 == 0
    ensures |bytes| == |c| / 8
  {
    if endian.Le? then LeBytes(c) else BeBytes(c)
  }

  lemma WireBytesLoad(c: Bits, endian: Endian)
    requires |c| % 8 == 0
    ensures Whole(WireBytes(c, endian), endian) == c
  {
    WordBytes(c);
  }

  lemma LoadedWireBytes(bytes: seq<Byte>, endian: Endian)
    ensures WireBytes(Whole(bytes, endian), endian) == bytes
  {
    BytesWord(bytes);
  }

  lemma ByteAt(bits: U128, n: nat, endian: Endian, i: nat)
    requires i < n <= 16
    ensures WireBytes(bits[..8 * n], endian)[i]
         == Resize(Shr(bits, (if endian.Le? then i else n - 1 - i) * 8), 8)
  {
    var k := if endian.Le? then i else n - 1 - i;
    var byte, shifted := bits[..8 * n][8 * k..8 * k + 8], Resize(Shr(bits, k * 8), 8);
    assert WireBytes(bits[..8 * n], endian)[i] == byte;
    forall b | 0 <= b < 8 ensures byte[b] == shifted[b] {
    }
  }

  /** What a load has gathered after `i` bytes. */
  ghost function Gathered(bytes: seq<Byte>, endian: Endian, i: nat): (g: Bits)
    requires i <= |bytes| <= 16
    ensures |g| == 128
  {
    if endian.Le? then Resize(LeWord(bytes[..i]), 128) else Shl(Resize(BeWord(bytes[..i]), 128), 8 * (|bytes| - i))
  }

  lemma GatheredGrows(bytes: seq<Byte>, endian: Endian, i: nat)
    requires i < |bytes| <= 16
    ensures Gathered(bytes, endian, i + 1)
         == Or(Gathered(bytes, endian, i),
               Shl(Resize(bytes[i], 128), (if endian.Le? then i else |bytes| - 1 - i) * 8))
  {
    hide LeWord, Reverse, Resize, Shl, Or;
    var before, b := bytes[..i], bytes[i];
    assert bytes[..i + 1] == before + [b];
    OneByteWord(b);
    if endian.Le? {
      LeWordAppend(before, [b]);
      LowerJoins(LeWord(before), b);
    } else {
      ReverseSnoc(before, b);
      LeWordAppend([b], Reverse(before));
      HigherJoins(LeWord(Reverse(before)), b, 8 * (|bytes| - 1 - i));
    }
  }

  lemma GatheredEnds(bytes: seq<Byte>, endian: Endian)
    requires |bytes| <= 16
    ensures Gathered(bytes, endian, 0) == Zeros(128)
    ensures Gathered(bytes, endian, |bytes|) == Resize(Whole(bytes, endian), 128)
  {
    assert bytes[..|bytes|] == bytes;
    assert Shl(Resize(BeWord(bytes), 128), 0) == Resize(BeWord(bytes), 128);
  }

  lemma ReverseSnoc(bytes: seq<Byte>, b: Byte)
    ensures Reverse(bytes + [b]) == [b] + Reverse(bytes)
  {
  }

  lemma LowerJoins(low: Bits, b: Byte)
    requires |low| <= 120
    ensures Resize(low + b, 128) == Or(Resize(low, 128), Shl(Resize(b, 128), |low|))
  {
  }

  lemma HigherJoins(high: Bits, b: Byte, shift: nat)
    requires |high| + 8 + shift <= 128
    ensures Shl(Resize(b + high, 128), shift) == Or(Shl(Resize(high, 128), shift + 8), Shl(Resize(b, 128), shift))
  {
  }
}
