/** A writing cursor: fields go on the end of a byte buffer, and may be overwritten there later. */
module BitWriting {
  import opened Words
  import opened Buffer
  import opened BitStream
  import opened BitCursor

  /** The bits of a byte that a stream which has used `used` of it may have set. */
  function UsedMask(used: nat, msb: bool): Byte
    requires used <= 8
  {
    if msb then Shl(Not(Zeros(8)), 8 - used) else LowMask(used, 8)
  }

  /** Cutting a longer stream's bytes back, and masking the last, leaves the shorter stream's bytes. */
  lemma CutBack(stream: Bits, more: Bits, msb: bool)
    ensures var n := ByteCount(|stream|);
      && n <= |Pack(stream + more, msb)|
      && (Used(|stream|) == 0 ==> Pack(stream + more, msb)[..n] == Pack(stream, msb))
      && (Used(|stream|) != 0 ==> var cut := Pack(stream + more, msb)[..n];
            n >= 1 && cut[n - 1 := And(cut[n - 1], UsedMask(Used(|stream|), msb))] == Pack(stream, msb))
  {
    var n, used := ByteCount(|stream|), |stream| % 8;
    var longer := Pack(stream + more, msb);
    forall k | 0 <= k < |stream| / 8 ensures longer[k] == PackByte(stream, msb, k) {
      assert longer[k] == PackByte(stream + more, msb, k);
    }
    if used != 0 {
      assert n == |stream| / 8 + 1;
      LastMasked(stream, more, msb);
    }
  }

  lemma LastMasked(stream: Bits, more: Bits, msb: bool)
    ensures And(PackByte(stream + more, msb, |stream| / 8), UsedMask(|stream| % 8, msb))
         == PackByte(stream, msb, |stream| / 8)
  {
  }

  /** Zero but for ones over the chunk's slots. */
  function Hole(take: nat, used: nat, msb: bool): Byte
    requires used + take <= 8
  {
    Shl(Resize(LowMask(take, 64), 8), if msb then 8 - used - take else used)
  }

  /** One step of a patch: a byte's old bits go, and the chunk takes their place. */
  lemma PatchChunk(stream: Bits, at: nat, chunk: Bits, c: Byte, msb: bool)
    requires at + |chunk| <= |stream| && 1 <= |chunk| && at % 8 + |chunk| <= 8 && Lodges(c, chunk, at % 8, msb)
    ensures var bytes, k := Pack(stream, msb), at / 8;
      && k < |bytes|
      && Pack(Replaced(stream, at, chunk), msb)
         == bytes[k := Or(And(bytes[k], Not(Hole(|chunk|, at % 8, msb))), c)]
  {
    var bytes, k, replaced := Pack(stream, msb), at / 8, Replaced(stream, at, chunk);
    forall b | 0 <= b < |bytes| && b != k ensures PackByte(replaced, msb, b) == bytes[b] {
      assert bytes[b] == PackByte(stream, msb, b);
    }
    PatchedByte(stream, at, chunk, c, msb);
  }

  lemma PatchedByte(stream: Bits, at: nat, chunk: Bits, c: Byte, msb: bool)
    requires at + |chunk| <= |stream| && at % 8 + |chunk| <= 8 && Lodges(c, chunk, at % 8, msb)
    ensures PackByte(Replaced(stream, at, chunk), msb, at / 8)
         == Or(And(PackByte(stream, msb, at / 8), Not(Hole(|chunk|, at % 8, msb))), c)
  {
    var used, hole := at % 8, Hole(|chunk|, at % 8, msb);
    var was, now := PackByte(stream, msb, at / 8), PackByte(Replaced(stream, at, chunk), msb, at / 8);
    HoleHolds(|chunk|, used, msb);
    hide Hole, PackByte, Slot, Replaced;
    forall p | 0 <= p < 8
      ensures now[p] == Or(And(was, Not(hole)), c)[p]
    {
      ReplacedAt(stream, at, chunk, msb, p);
      assert c[p] == (used <= Slot(msb, p) < used + |chunk| && chunk[Slot(msb, p) - used]);
    }
  }

  lemma HoleHolds(take: nat, used: nat, msb: bool)
    requires used + take <= 8
    ensures forall p :: 0 <= p < 8 ==> Hole(take, used, msb)[p] == (used <= Slot(msb, p) < used + take)
  {
  }

  /** A bit of the byte a chunk goes into: the chunk's in its slots, the stream's in the others. */
  lemma ReplacedAt(stream: Bits, at: nat, chunk: Bits, msb: bool, p: nat)
    requires at + |chunk| <= |stream| && at % 8 + |chunk| <= 8 && p < 8
    ensures var i := Slot(msb, p);
      PackByte(Replaced(stream, at, chunk), msb, at / 8)[p] ==
        if at % 8 <= i < at % 8 + |chunk| then chunk[i - at % 8] else PackByte(stream, msb, at / 8)[p]
  {
    var i := 8 * (at / 8) + Slot(msb, p);
    assert i < |stream| ==>
      Replaced(stream, at, chunk)[i] == if at <= i < at + |chunk| then chunk[i - at] else stream[i];
  }

  lemma ReplacedStep(stream: Bits, at: nat, field: Bits, done: nat, take: nat)
    requires at + |field| <= |stream| && done + take <= |field|
    ensures Replaced(Replaced(stream, at, field[..done]), at + done, field[done..done + take])
         == Replaced(stream, at, field[..done + take])
  {
  }

  /** `BitWriter`. `stream` is what has been written since the cursor was made. */
  class BitWriter {
    const out: Fixed
    const base: nat
    const msb: bool
    /** How far into its last byte the stream reaches; 0 when it fills it. */
    var used: nat
    ghost var stream: Bits

    /** The buffer holds, from `base`, exactly the packing of the stream: its unused bits are zero. */
    ghost predicate Valid()
      reads this, out, out.room
    {
      out.Valid() && base <= out.at && out.Written()[base..] == Pack(stream, msb) && used == Used(|stream|)
    }

    constructor (out: Fixed, msb: bool)
      requires out.Valid()
      ensures Valid() && this.out == out && this.msb == msb && base == |out.Written()| && stream == []
    {
      this.out := out;
      this.msb := msb;
      base := out.at;
      used := 0;
      stream := [];
    }

    /** The stream's length, worked out from the buffer's. */
    function Position(): (bits: nat)
      requires Valid()
      reads this, out, out.room
      ensures bits == |stream|
    {
      (out.at - base) * 8 - if used == 0 then 0 else 8 - used
    }

    /** Adds the field to the stream, or leaves buffer and cursor exactly as they were. */
    method Write(value: U64, bits: nat) returns (ok: bool)
      requires Valid() && bits <= 64
      modifies this, out, out.room
      ensures Valid()
      ensures ok <==> base + ByteCount(old(|stream|) + bits) <= out.room.Length
      ensures ok ==> stream == old(stream) + FieldBits(value, bits, msb)
      ensures ok ==> out.Written()[..base] == old(out.Written()[..base])
      ensures !ok ==> stream == old(stream) && out.Written() == old(out.Written()) && used == old(used)
    {
      hide Pack, FieldBits, UsedMask, Used, ByteCount;
      var len, was := out.at, used;
      ghost var done;
      ok, done := Append(value, bits);
      if !ok {
        Undo(len, was, old(stream), FieldBits(value, bits, msb)[..done]);
        assert out.Written() == old(out.Written()[..base]) + Pack(stream, msb);
      }
    }

    /** Cuts buffer and cursor back to where the stream was `before`. */
    method Undo(len: nat, was: nat, ghost before: Bits, ghost more: Bits)
      requires Valid() && stream == before + more
      requires len == base + ByteCount(|before|) && was == Used(|before|)
      modifies this, out, out.room
      ensures Valid() && stream == before && used == was
      ensures out.Written()[..base] == old(out.Written()[..base])
    {
      hide Pack, UsedMask, Used, ByteCount;
      CutBack(before, more, msb);
      ghost var whole := out.Written();
      out.Rewind(len);
      used := was;
      stream := before;
      ghost var cut := out.Written();
      assert cut == whole[..len] && cut[..base] == whole[..base];
      assert cut[base..] == whole[base..][..len - base];
      if used >= 1 {
        var last := And(out.room[out.at - 1], UsedMask(used, msb));
        out.room[out.at - 1] := last;
        assert out.Written() == cut[len - 1 := last];
        SetPast(cut, base, len - 1, last);
      }
    }

    method Append(value: U64, bits: nat) returns (ok: bool, ghost done: nat)
      requires Valid() && bits <= 64
      modifies this, out, out.room
      ensures Valid() && out.at >= old(out.at)
      ensures done <= bits && stream == old(stream) + FieldBits(value, bits, msb)[..done]
      ensures ok <==> done == bits
      ensures ok <==> base + ByteCount(old(|stream|) + bits) <= out.room.Length
      ensures out.Written()[..base] == old(out.Written()[..base])
    {
      hide Pack, FieldBits, ChunkByte, Lodges, Zeros, Used, ByteCount;
      ghost var field, before := FieldBits(value, bits, msb), out.Written()[..base];
      var left: nat := bits;
      assert stream + field[..0] == stream;
      while left > 0
        invariant Valid() && left <= bits && out.at >= old(out.at)
        invariant stream == old(stream) + field[..bits - left]
        invariant out.Written()[..base] == before
      {
        var stepped, take := AppendSome(value, bits, left);
        if !stepped {
          return false, bits - left;
        }
        left := left - take;
      }
      assert field[..bits] == field;
      return true, bits;
    }

    /** One turn of the loop of `append`: as much of the field as the last byte, or a new one, has room for. */
    method AppendSome(value: U64, bits: nat, left: nat) returns (ok: bool, take: nat)
      requires Valid() && 1 <= left <= bits <= 64
      modifies this, out, out.room
      ensures Valid() && out.at >= old(out.at) && take <= left
      ensures ok ==> take >= 1 && stream == old(stream) + Chunk(value, bits, bits - left, take, msb)
      ensures !ok ==> stream == old(stream) && base + ByteCount(|stream| + left) > out.room.Length
      ensures out.Written()[..base] == old(out.Written()[..base])
    {
      hide Pack, Chunk, ChunkByte, Lodges, Zeros, Used, ByteCount;
      if used == 0 {
        var pushed := out.Push([Zeros(8)]);
        if !pushed {
          WholeBytesFull(|stream|, left);
          return false, 0;
        }
        assert out.Written()[base..] == Pack(stream, msb) + [Zeros(8)];
      }
      var free := 8 - used;
      take := if left < free then left else free;
      ghost var part := Chunk(value, bits, bits - left, take, msb);
      ChunkByteLodges(value, bits, left, take, used, msb);
      PartlyUsed(|stream|);
      Fill(ChunkByte(value, bits, left, take, used, msb), part);
      UsedAdvances(|stream| - take, take);
      used := (used + take) % 8;
      ok := true;
    }

    /** Sets a chunk's bits in the last byte, which has room for them. */
    method Fill(c: Byte, ghost part: Bits)
      requires out.Valid() && base < out.at && used == Used(|stream|)
      requires out.Written()[base..] == Pack(stream, msb) + if used == 0 then [Zeros(8)] else []
      requires 1 <= |part| && used + |part| <= 8 && Lodges(c, part, used, msb)
      modifies this`stream, out.room
      ensures stream == old(stream) + part && out.Written()[base..] == Pack(stream, msb)
      ensures out.Written()[..base] == old(out.Written()[..base])
    {
      hide Pack, Lodges, Used, ByteCount;
      ghost var whole := out.Written();
      AppendChunk(stream, part, c, msb);
      var last := Or(out.room[out.at - 1], c);
      out.room[out.at - 1] := last;
      assert out.Written() == whole[out.at - 1 := last];
      SetPast(whole, base, out.at - 1, last);
      stream := stream + part;
    }

    /** Overwrites `bits` bits at `atBit`, all already written. */
    method Patch(atBit: nat, bits: nat, value: U64)
      requires Valid() && bits <= 64 && atBit + bits <= |stream|
      modifies this`stream, out.room
      ensures Valid()
      ensures stream == Replaced(old(stream), atBit, FieldBits(value, bits, msb))
      ensures out.Written()[..base] == old(out.Written()[..base])
    {
      hide Pack, FieldBits, ChunkByte, Lodges, Replaced, Used, ByteCount;
      ghost var field, before, first := FieldBits(value, bits, msb), out.Written()[..base], stream;
      var at := atBit;
      var left: nat := bits;
      ReplacedNothing(first, atBit, field[..0]);
      while left > 0
        invariant Valid() && left <= bits && at == atBit + (bits - left)
        invariant |stream| == |first| && stream == Replaced(first, atBit, field[..bits - left])
        invariant out.Written()[..base] == before
      {
        var used := at % 8;
        var free := 8 - used;
        var take := if left < free then left else free;
        ghost var part := Chunk(value, bits, bits - left, take, msb);
        ChunkByteLodges(value, bits, left, take, used, msb);
        ReplacedStep(first, atBit, field, bits - left, take);
        PatchByte(at, take, ChunkByte(value, bits, left, take, used, msb), part);
        at := at + take;
        left := left - take;
      }
      assert field[..bits] == field;
    }

    /** One turn of the loop of `patch`: the chunk's bits over those of the byte it goes into. */
    method PatchByte(at: nat, take: nat, chunk: Byte, ghost part: Bits)
      requires Valid() && 1 <= take == |part| && at + take <= |stream| && at % 8 + take <= 8
      requires Lodges(chunk, part, at % 8, msb)
      modifies this`stream, out.room
      ensures Valid() && stream == Replaced(old(stream), at, part)
      ensures out.Written()[..base] == old(out.Written()[..base])
    {
      hide Pack, Lodges, Hole, Replaced, Used, ByteCount;
      ghost var whole := out.Written();
      PatchChunk(stream, at, part, chunk, msb);
      var k := base + at / 8;
      var patched := Or(And(out.room[k], Not(Hole(take, at % 8, msb))), chunk);
      out.room[k] := patched;
      assert out.Written() == whole[k := patched];
      SetPast(whole, base, k, patched);
      stream := Replaced(stream, at, part);
    }
  }

  /** Setting a byte at or past `base` is setting it in the part from there. */
  lemma SetPast(bytes: seq<Byte>, base: nat, k: nat, byte: Byte)
    requires base <= k < |bytes|
    ensures bytes[k := byte][base..] == bytes[base..][k - base := byte]
    ensures bytes[k := byte][..base] == bytes[..base]
  {
  }

  lemma WholeBytesFull(n: nat, more: nat)
    requires Used(n) == 0 && more > 0
    ensures ByteCount(n + more) > ByteCount(n)
  {
  }

  lemma PartlyUsed(n: nat)
    ensures Used(n) != 0 ==> ByteCount(n) > 0
  {
  }

  lemma UsedAdvances(n: nat, take: nat)
    ensures (Used(n) + take) % 8 == Used(n + take)
  {
  }

  lemma ReplacedNothing(stream: Bits, at: nat, nothing: Bits)
    requires at <= |stream| && nothing == []
    ensures Replaced(stream, at, nothing) == stream
  {
  }
}
