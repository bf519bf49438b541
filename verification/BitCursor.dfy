/** Bit cursors: a reader over bytes, and a writer that appends to a buffer and can patch what it wrote. */
module BitCursor {
  import opened Words
  import opened BitStream

  datatype ParseError =
    | Short(needBytes: nat, gotBytes: nat, at: nat)
    | Malformed(field: string, at: nat)

  /** The field's bits that one step moves: `take` of them, after `done`. */
  function Chunk(value: U64, bits: nat, done: nat, take: nat, msb: bool): (chunk: Bits)
    requires done + take <= bits <= 64
    ensures |chunk| == take
  {
    FieldBits(value, bits, msb)[done..done + take]
  }

  /** The same bits as the writer lines them up in a byte of which `used` are taken. */
  function ChunkByte(value: U64, bits: nat, left: nat, take: nat, used: nat, msb: bool): Byte
    requires take <= left <= bits && used < 8
  {
    var free := 8 - used;
    if msb then Shl(Resize(And(Shr(value, left - take), LowMask(take, 64)), 8), if free >= take then free - take else 0)
    else Shl(Resize(And(Shr(value, bits - left), LowMask(take, 64)), 8), used)
  }

  /** Whether the byte `c` is zero but for `chunk`, which starts at the stream's slot `used`. */
  predicate Lodges(c: Byte, chunk: Bits, used: nat, msb: bool) {
    forall p :: 0 <= p < 8 ==>
      c[p] == (used <= Slot(msb, p) < used + |chunk| && chunk[Slot(msb, p) - used])
  }

  lemma ChunkByteLodges(value: U64, bits: nat, left: nat, take: nat, used: nat, msb: bool)
    requires take <= left <= bits <= 64 && used + take <= 8 && used < 8
    ensures Lodges(ChunkByte(value, bits, left, take, used, msb), Chunk(value, bits, bits - left, take, msb), used, msb)
  {
    if msb {
      ChunkByteLodgesMsb(value, bits, left, take, used);
    } else {
      ChunkByteLodgesLsb(value, bits, left, take, used);
    }
  }

  /** A field's bits from `from`, `take` of them, moved up in a byte. */
  lemma Moved(value: U64, from: nat, take: nat, up: nat)
    requires take + up <= 8 && from + take <= 64
    ensures forall p :: 0 <= p < 8 ==>
      Shl(Resize(And(Shr(value, from), LowMask(take, 64)), 8), up)[p] == (up <= p < up + take && value[from + p - up])
  {
  }

  /** Which of the value's bits a chunk holds. */
  lemma ChunkAt(value: U64, bits: nat, done: nat, take: nat, msb: bool)
    requires done + take <= bits <= 64
    ensures forall j :: 0 <= j < take ==>
      Chunk(value, bits, done, take, msb)[j] == value[if msb then bits - 1 - (done + j) else done + j]
  {
  }

  lemma ChunkByteLodgesMsb(value: U64, bits: nat, left: nat, take: nat, used: nat)
    requires take <= left <= bits <= 64 && used + take <= 8 && used < 8
    ensures Lodges(ChunkByte(value, bits, left, take, used, true), Chunk(value, bits, bits - left, take, true),
                   used, true)
  {
    hide Shl, Resize, And, Shr, LowMask, Chunk;
    var c, chunk := ChunkByte(value, bits, left, take, used, true), Chunk(value, bits, bits - left, take, true);
    Moved(value, left - take, take, 8 - used - take);
    ChunkAt(value, bits, bits - left, take, true);
    forall p | 0 <= p < 8
      ensures c[p] == (used <= 7 - p < used + take && chunk[7 - p - used])
    {
      if used <= 7 - p < used + take {
        assert chunk[7 - p - used] == value[p + used + left - 8];
      }
    }
  }

  lemma ChunkByteLodgesLsb(value: U64, bits: nat, left: nat, take: nat, used: nat)
    requires take <= left <= bits <= 64 && used + take <= 8 && used < 8
    ensures Lodges(ChunkByte(value, bits, left, take, used, false), Chunk(value, bits, bits - left, take, false),
                   used, false)
  {
    hide Shl, Resize, And, Shr, LowMask, Chunk;
    var c, chunk := ChunkByte(value, bits, left, take, used, false), Chunk(value, bits, bits - left, take, false);
    Moved(value, bits - left, take, used);
    ChunkAt(value, bits, bits - left, take, false);
    forall p | 0 <= p < 8
      ensures c[p] == (used <= p < used + take && chunk[p - used])
    {
      if used <= p < used + take {
        assert chunk[p - used] == value[bits - left + p - used];
      }
    }
  }

  /** One step of a write: the last byte gains the chunk. */
  lemma AppendChunk(stream: Bits, chunk: Bits, c: Byte, msb: bool)
    requires 1 <= |chunk| && Used(|stream|) + |chunk| <= 8 && Lodges(c, chunk, Used(|stream|), msb)
    ensures var bytes := Pack(stream, msb) + if Used(|stream|) == 0 then [Zeros(8)] else [];
      bytes != [] && Pack(stream + chunk, msb) == bytes[|bytes| - 1 := Or(bytes[|bytes| - 1], c)]
  {
    var used := |stream| % 8;
    var bytes := Pack(stream, msb) + if used == 0 then [Zeros(8)] else [];
    var last := |stream| / 8;
    assert |bytes| == last + 1 && ByteCount(|stream| + |chunk|) == last + 1;
    forall k | 0 <= k < last ensures PackByte(stream + chunk, msb, k) == bytes[k] {
      assert bytes[k] == PackByte(stream, msb, k);
    }
    LastByte(stream, chunk, c, bytes[last], msb);
  }

  lemma LastByte(stream: Bits, chunk: Bits, c: Byte, was: Byte, msb: bool)
    requires |stream| % 8 + |chunk| <= 8 && Lodges(c, chunk, |stream| % 8, msb)
    requires was == PackByte(stream, msb, |stream| / 8)
    ensures PackByte(stream + chunk, msb, |stream| / 8) == Or(was, c)
  {
    hide PackByte, Slot;
    var k := |stream| / 8;
    forall p | 0 <= p < 8 ensures PackByte(stream + chunk, msb, k)[p] == Or(was, c)[p] {
      AppendedAt(stream, chunk, msb, p);
      assert c[p] == (|stream| % 8 <= Slot(msb, p) < |stream| % 8 + |chunk| && chunk[Slot(msb, p) - |stream| % 8]);
    }
  }

  /** A bit of the byte a chunk goes on the end of. */
  lemma AppendedAt(stream: Bits, chunk: Bits, msb: bool, p: nat)
    requires |stream| % 8 + |chunk| <= 8 && p < 8
    ensures var i, used := Slot(msb, p), |stream| % 8;
      PackByte(stream + chunk, msb, |stream| / 8)[p] ==
        if used <= i < used + |chunk| then chunk[i - used] else PackByte(stream, msb, |stream| / 8)[p]
    ensures Slot(msb, p) >= |stream| % 8 ==> !PackByte(stream, msb, |stream| / 8)[p]
  {
    var i := 8 * (|stream| / 8) + Slot(msb, p);
    assert |stream| <= i < |stream| + |chunk| ==> (stream + chunk)[i] == chunk[i - |stream|];
  }

  /** `BitReader`. */
  class BitReader {
    const bytes: seq<Byte>
    const msb: bool
    /** The stream position of the next bit. */
    var at: nat

    ghost predicate Valid()
      reads this
    {
      8 * |bytes| <= U64_MAX && at <= U64_MAX
    }

    ghost function Stream(): (s: Bits) {
      Unpack(bytes, msb)
    }

    constructor At(bytes: seq<Byte>, at: nat, msb: bool)
      requires 8 * |bytes| <= U64_MAX && at <= U64_MAX
      ensures Valid() && this.bytes == bytes && this.msb == msb && this.at == at
    {
      this.bytes := bytes;
      this.msb := msb;
      this.at := at;
    }

    /** Reads the next `bits` bits, or reads nothing and says how many bytes it would take. */
    method Read(bits: nat) returns (r: Result<U64, ParseError>)
      requires Valid() && bits <= 64
      modifies this
      ensures Valid()
      ensures r == ReadSpec(bytes, old(at), bits, msb)
      ensures at == if r.Ok? then old(at) + bits else old(at)
    {
      hide Shl, Shr, And, Or, LowMask, Resize, FieldAt, Unpack, Zeros;
      var end := Min(at + bits, U64_MAX);
      var need := ByteCount(end);
      if need > |bytes| {
        return Err(Short(need, |bytes|, at / 8));
      }
      assert at + bits <= 8 * |bytes|;
      var value: U64 := Zeros(64);
      var left: nat := bits;
      ghost var start, stream := at, Stream();
      NothingRead(stream, start, msb);
      while left > 0
        invariant left <= bits && at == start + (bits - left)
        invariant value == FieldAt(stream, start, bits - left, msb)
      {
        var byte := Resize(bytes[at / 8], 64);
        var used := at % 8;
        var free := 8 - used;
        var take := if left < free then left else free;
        ReadChunk(bytes, start, bits - left, take, msb, value);
        if msb {
          value := Or(Shl(value, take), And(Shr(byte, free - take), LowMask(take, 64)));
        } else {
          value := Or(value, Shl(And(Shr(byte, used), LowMask(take, 64)), bits - left));
        }
        at := at + take;
        left := left - take;
      }
      return Ok(value);
    }

    method Bit() returns (r: Result<bool, ParseError>)
      requires Valid()
      modifies this
      ensures Valid()
      ensures r == BitSpec(bytes, old(at), msb)
      ensures at == if r.Ok? then old(at) + 1 else old(at)
    {
      var v := Read(1);
      if v.Err? {
        return Err(v.error);
      }
      assert v.value[0] == Unpack(bytes, msb)[old(at)];
      return Ok(v.value != Zeros(64));
    }

    method Skip(bits: nat) returns (r: Result<(), ParseError>)
      requires Valid()
      modifies this
      ensures Valid()
      ensures r.Ok? <==> old(at) + bits <= 8 * |bytes|
      ensures r.Err? ==> r.error == Short(ByteCount(Min(old(at) + bits, U64_MAX)), |bytes|, old(at) / 8)
      ensures at == if r.Ok? then old(at) + bits else old(at)
    {
      var end := Min(at + bits, U64_MAX);
      var need := ByteCount(end);
      if need > |bytes| {
        return Err(Short(need, |bytes|, at / 8));
      }
      at := end;
      return Ok(());
    }
  }

  function ReadSpec(bytes: seq<Byte>, at: nat, bits: nat, msb: bool): Result<U64, ParseError>
    requires bits <= 64
  {
    if at + bits <= 8 * |bytes| then Ok(FieldAt(Unpack(bytes, msb), at, bits, msb))
    else Err(Short(ByteCount(Min(at + bits, U64_MAX)), |bytes|, at / 8))
  }

  function BitSpec(bytes: seq<Byte>, at: nat, msb: bool): Result<bool, ParseError> {
    if at < 8 * |bytes| then Ok(Unpack(bytes, msb)[at])
    else Err(Short(ByteCount(Min(at + 1, U64_MAX)), |bytes|, at / 8))
  }

  /** Reading a bit is reading a field of one. */
  lemma BitIsAField(bytes: seq<Byte>, at: nat, msb: bool)
    ensures var bit, field := BitSpec(bytes, at, msb), ReadSpec(bytes, at, 1, msb);
      && (bit.Ok? <==> field.Ok?)
      && (bit.Ok? ==> bit.value == field.value[0])
      && (bit.Err? ==> bit.error == field.error)
  {
  }

  /** A read that is refused says how many bytes it takes: with that many it succeeds, and with fewer it does not. */
  lemma ShortSaysHowMany(bytes: seq<Byte>, at: nat, bits: nat, msb: bool, more: seq<Byte>)
    requires bits <= 64 && at + bits <= U64_MAX && ReadSpec(bytes, at, bits, msb).Err?
    ensures ReadSpec(bytes, at, bits, msb).error.Short?
    ensures var e := ReadSpec(bytes, at, bits, msb).error;
      && e.needBytes > e.gotBytes == |bytes| && 8 * e.at <= at < 8 * (e.at + 1)
      && (ReadSpec(bytes + more, at, bits, msb).Ok? <==> |bytes + more| >= e.needBytes)
  {
    hide Unpack, FieldAt;
  }

  lemma NothingRead(stream: Bits, start: nat, msb: bool)
    requires start <= |stream|
    ensures FieldAt(stream, start, 0, msb) == Zeros(64)
  {
  }

  /** One step of a read: `take` more bits of the field, from one byte. */
  lemma ReadChunk(bytes: seq<Byte>, start: nat, done: nat, take: nat, msb: bool, value: U64)
    requires start + done + take <= 8 * |bytes| && done + take <= 64 && (start + done) % 8 + take <= 8
    requires value == FieldAt(Unpack(bytes, msb), start, done, msb)
    requires take >= 1
    ensures var byte, used := Resize(bytes[(start + done) / 8], 64), (start + done) % 8;
      FieldAt(Unpack(bytes, msb), start, done + take, msb) ==
        if msb then Or(Shl(value, take), And(Shr(byte, 8 - used - take), LowMask(take, 64)))
        else Or(value, Shl(And(Shr(byte, used), LowMask(take, 64)), done))
  {
    hide FieldAt, Shl, Shr, And, Or, LowMask, Resize;
    var stream, at := Unpack(bytes, msb), start + done;
    var byte, used := bytes[at / 8], at % 8;
    forall p | 0 <= p < 8 && used <= Slot(msb, p) < used + take
      ensures byte[p] == stream[at + Slot(msb, p) - used]
    {
      SameByte(at, Slot(msb, p));
    }
    ChunkJoins(stream, start, done, take, msb, value, byte, used);
  }

  lemma SameByte(at: nat, slot: nat)
    requires at % 8 <= slot < 8
    ensures var i := at + slot - at % 8;
      i / 8 == at / 8 && i % 8 == slot
  {
  }

  lemma ChunkJoins(stream: Bits, start: nat, done: nat, take: nat, msb: bool, value: U64, byte: Byte, used: nat)
    requires start + done + take <= |stream| && done + take <= 64 && used + take <= 8
    requires value == FieldAt(stream, start, done, msb)
    requires forall p :: 0 <= p < 8 && used <= Slot(msb, p) < used + take ==>
      byte[p] == stream[start + done + Slot(msb, p) - used]
    ensures FieldAt(stream, start, done + take, msb) ==
        if msb then Or(Shl(value, take), And(Shr(Resize(byte, 64), 8 - used - take), LowMask(take, 64)))
        else Or(value, Shl(And(Shr(Resize(byte, 64), used), LowMask(take, 64)), done))
  {
    hide Shr, LowMask, And;
    var field := FieldAt(stream, start, done + take, msb);
    if msb {
      var part := And(Shr(Resize(byte, 64), 8 - used - take), LowMask(take, 64));
      TakenBits(byte, 8 - used - take, take);
      forall i | 0 <= i < 64 ensures field[i] == Or(Shl(value, take), part)[i] {
        if i < take {
          assert Slot(msb, 8 - used - take + i) == used + take - 1 - i;
        }
      }
    } else {
      var part := And(Shr(Resize(byte, 64), used), LowMask(take, 64));
      TakenBits(byte, used, take);
      forall i | 0 <= i < 64 ensures field[i] == Or(value, Shl(part, done))[i] {
        if done <= i < done + take {
          assert Slot(msb, used + i - done) == used + i - done;
        }
      }
    }
  }

  lemma TakenBits(byte: Byte, from: nat, take: nat)
    requires from + take <= 8
    ensures forall i :: 0 <= i < 64 ==>
      And(Shr(Resize(byte, 64), from), LowMask(take, 64))[i] == (i < take && byte[from + i])
  {
  }
}
