/** A bit stream and the bytes that carry it, in either bit order. */
module BitStream {
  import opened Words

  /** Which bit of its byte carries bit `i` of the stream. */
  function Slot(msb: bool, i: nat): (b: nat)
    ensures b < 8
  {
    if msb then 7 - i % 8 else i % 8
  }

  /** How much of its last byte a stream of `bits` bits uses. */
  function Used(bits: nat): (used: nat)
    ensures used < 8
  {
    bits % 8
  }

  function ByteCount(bits: nat): nat {
    (bits + 7) / 8
  }

  /** The bytes that carry a stream, the unused bits of the last one zero. */
  function Pack(stream: Bits, msb: bool): (bytes: seq<Byte>)
    ensures |bytes| == ByteCount(|stream|)
  {
    seq(ByteCount(|stream|), k requires 0 <= k < ByteCount(|stream|) => PackByte(stream, msb, k))
  }

  function PackByte(stream: Bits, msb: bool, k: nat): Byte {
    seq(8, b requires 0 <= b < 8 => var i := 8 * k + if msb then 7 - b else b; i < |stream| && stream[i])
  }

  /** The stream a run of bytes carries. */
  function Unpack(bytes: seq<Byte>, msb: bool): (stream: Bits)
    ensures |stream| == 8 * |bytes|
  {
    seq(8 * |bytes|, i requires 0 <= i < 8 * |bytes| => bytes[i / 8][Slot(msb, i)])
  }

  /** The low `bits` bits of a value, in stream order. */
  function FieldBits(value: U64, bits: nat, msb: bool): (field: Bits)
    requires bits <= 64
    ensures |field| == bits
  {
    seq(bits, j requires 0 <= j < bits => value[if msb then bits - 1 - j else j])
  }

  /** The value whose field of `bits` bits stands at `at`. */
  function FieldAt(stream: Bits, at: nat, bits: nat, msb: bool): (value: U64)
    requires at + bits <= |stream| && bits <= 64
  {
    seq(64, j requires 0 <= j < 64 => j < bits && stream[at + if msb then bits - 1 - j else j])
  }

  /** Bytes carry a stream back, and the bits that fill up its last byte are zero. */
  lemma UnpackPack(stream: Bits, msb: bool)
    ensures Unpack(Pack(stream, msb), msb) == stream + Zeros(8 * ByteCount(|stream|) - |stream|)
  {
    var bytes, padded := Pack(stream, msb), stream + Zeros(8 * ByteCount(|stream|) - |stream|);
    forall i | 0 <= i < |padded| ensures Unpack(bytes, msb)[i] == padded[i] {
      assert bytes[i / 8] == PackByte(stream, msb, i / 8);
      assert 8 * (i / 8) + i % 8 == i;
    }
  }

  /** Whole bytes are the packing of the stream they carry. */
  lemma PackUnpack(bytes: seq<Byte>, msb: bool)
    ensures Pack(Unpack(bytes, msb), msb) == bytes
  {
    var stream := Unpack(bytes, msb);
    forall k | 0 <= k < |bytes| ensures PackByte(stream, msb, k) == bytes[k] {
      forall b | 0 <= b < 8 ensures PackByte(stream, msb, k)[b] == bytes[k][b] {
        var i := 8 * k + if msb then 7 - b else b;
        assert i / 8 == k && Slot(msb, i) == b;
      }
    }
  }

  // ---------------------------------------------------------------- sequences of fields

  datatype AnyField = Field(value: U64, bits: nat)

  /** A value and the width it is written in. */
  type Field = f: AnyField | f.bits <= 64 witness Field(Zeros(64), 0)

  function Concat(fields: seq<Field>, msb: bool): Bits
  {
    if fields == [] then []
    else FieldBits(fields[0].value, fields[0].bits, msb) + Concat(fields[1..], msb)
  }

  /** The values read back from `at`, width by width. */
  function ReadBack(stream: Bits, at: nat, fields: seq<Field>, msb: bool): seq<U64>
    requires at + |Concat(fields, msb)| <= |stream|
    decreases |fields|
  {
    if fields == [] then []
    else [FieldAt(stream, at, fields[0].bits, msb)] + ReadBack(stream, at + fields[0].bits, fields[1..], msb)
  }

  /** Each value cut to the width it is written in. */
  function Cut(fields: seq<Field>): seq<U64>
  {
    seq(|fields|, i requires 0 <= i < |fields| => Resize(fields[i].value[..fields[i].bits], 64))
  }

  lemma FieldReadsBack(stream: Bits, at: nat, value: U64, bits: nat, msb: bool)
    requires bits <= 64 && at + bits <= |stream|
    requires stream[at..at + bits] == FieldBits(value, bits, msb)
    ensures FieldAt(stream, at, bits, msb) == Resize(value[..bits], 64)
  {
    var field := stream[at..at + bits];
    forall j | 0 <= j < bits ensures FieldAt(stream, at, bits, msb)[j] == value[j] {
      assert field[if msb then bits - 1 - j else j] == value[j];
    }
  }

  /** Any fields written after any bits read back, width by width, as their low bits, whatever follows them. */
  lemma {:induction false} FieldsReadBack(before: Bits, fields: seq<Field>, after: Bits, msb: bool)
    ensures ReadBack(before + Concat(fields, msb) + after, |before|, fields, msb) == Cut(fields)
    decreases |fields|
  {
    var stream := before + Concat(fields, msb) + after;
    if fields == [] {
    } else {
      var f, rest := fields[0], fields[1..];
      var field := FieldBits(f.value, f.bits, msb);
      assert stream == (before + field) + Concat(rest, msb) + after;
      assert stream[|before|..|before| + f.bits] == field;
      FieldReadsBack(stream, |before|, f.value, f.bits, msb);
      FieldsReadBack(before + field, rest, after, msb);
      assert Cut(fields) == [Resize(f.value[..f.bits], 64)] + Cut(rest);
    }
  }

  /** Fields packed into bytes read back from those bytes, and what pads the last byte is zero. */
  lemma FieldsRoundTrip(before: Bits, fields: seq<Field>, msb: bool)
    ensures var stream := before + Concat(fields, msb);
      var carried := Unpack(Pack(stream, msb), msb);
      && |stream| <= |carried| < |stream| + 8
      && ReadBack(carried, |before|, fields, msb) == Cut(fields)
      && carried[|stream|..] == Zeros(|carried| - |stream|)
  {
    var stream := before + Concat(fields, msb);
    var pad := Zeros(8 * ByteCount(|stream|) - |stream|);
    UnpackPack(stream, msb);
    FieldsReadBack(before, fields, pad, msb);
  }

  /** Whole bytes at a byte's start read as their integer: big-endian when the high bit comes first, little-endian when
      the low one does. */
  lemma WholeBytesAreWords(bytes: seq<Byte>, k: nat, n: nat, msb: bool)
    requires k + n <= |bytes| && n <= 8
    ensures var part := bytes[k..k + n];
      FieldAt(Unpack(bytes, msb), 8 * k, 8 * n, msb) == Resize(if msb then BeWord(part) else LeWord(part), 64)
  {
    if msb {
      HighBitFirst(bytes, k, n);
    } else {
      LowBitFirst(bytes, k, n);
    }
  }

  lemma HighBitFirst(bytes: seq<Byte>, k: nat, n: nat)
    requires k + n <= |bytes| && n <= 8
    ensures FieldAt(Unpack(bytes, true), 8 * k, 8 * n, true) == Resize(BeWord(bytes[k..k + n]), 64)
  {
    var part := bytes[k..k + n];
    forall j | 0 <= j < 8 * n ensures FieldAt(Unpack(bytes, true), 8 * k, 8 * n, true)[j] == BeWord(part)[j] {
      PastBytes(k, 8 * n - 1 - j);
      FromTheTop(n, j);
      assert BeWord(part)[j] == Reverse(part)[j / 8][j % 8];
    }
  }

  lemma LowBitFirst(bytes: seq<Byte>, k: nat, n: nat)
    requires k + n <= |bytes| && n <= 8
    ensures FieldAt(Unpack(bytes, false), 8 * k, 8 * n, false) == Resize(LeWord(bytes[k..k + n]), 64)
  {
    forall j | 0 <= j < 8 * n
      ensures FieldAt(Unpack(bytes, false), 8 * k, 8 * n, false)[j] == LeWord(bytes[k..k + n])[j]
    {
      PastBytes(k, j);
    }
  }

  lemma PastBytes(k: nat, i: nat)
    ensures (8 * k + i) / 8 == k + i / 8 && (8 * k + i) % 8 == i % 8
  {
  }

  lemma FromTheTop(n: nat, j: nat)
    requires j < 8 * n
    ensures (8 * n - 1 - j) / 8 == n - 1 - j / 8 && (8 * n - 1 - j) % 8 == 7 - j % 8
  {
  }

  /** Where field `k` starts. */
  function Offset(fields: seq<Field>, k: nat, msb: bool): nat
    requires k <= |fields|
  {
    |Concat(fields[..k], msb)|
  }

  lemma {:induction false} ConcatAppend(a: seq<Field>, b: seq<Field>, msb: bool)
    ensures Concat(a + b, msb) == Concat(a, msb) + Concat(b, msb)
  {
    hide FieldBits;
    if a == [] {
      assert a + b == b;
    } else {
      var f, rest := a[0], a[1..];
      assert a == [f] + rest && a + b == [f] + (rest + b);
      ConcatAppend(rest, b, msb);
      ConcatCons(f, rest, msb);
      ConcatCons(f, rest + b, msb);
      AppendAssoc(FieldBits(f.value, f.bits, msb), Concat(rest, msb), Concat(b, msb));
    }
  }

  lemma ConcatCons(f: Field, rest: seq<Field>, msb: bool)
    ensures Concat([f] + rest, msb) == FieldBits(f.value, f.bits, msb) + Concat(rest, msb)
  {
    assert ([f] + rest)[1..] == rest;
  }

  /** Patching a field later gives exactly the bytes that writing the patched value first would have given. */
  lemma PatchIsWritingItFirst(before: Bits, fields: seq<Field>, k: nat, value: U64, msb: bool)
    requires k < |fields|
    ensures var changed := fields[k := Field(value, fields[k].bits)];
      && |before| + Offset(fields, k, msb) + fields[k].bits <= |before + Concat(fields, msb)|
      && Pack(Replaced(before + Concat(fields, msb), |before| + Offset(fields, k, msb),
                       FieldBits(value, fields[k].bits, msb)), msb)
         == Pack(before + Concat(changed, msb), msb)
  {
    hide Pack, FieldBits, Replaced;
    var f, f' := fields[k], Field(value, fields[k].bits);
    var a, b := fields[..k], fields[k + 1..];
    var changed := fields[k := f'];
    assert fields == a + ([f] + b) && changed == a + ([f'] + b);
    ConcatAppend(a, [f] + b, msb);
    ConcatAppend(a, [f'] + b, msb);
    assert ([f] + b)[1..] == b && ([f'] + b)[1..] == b;
    ReplacedInPlace(before, Concat(a, msb), FieldBits(f.value, f.bits, msb), FieldBits(value, f.bits, msb),
                    Concat(b, msb));
  }

  lemma ReplacedInPlace(before: Bits, a: Bits, x: Bits, y: Bits, b: Bits)
    requires |x| == |y|
    ensures Replaced(before + (a + (x + b)), |before| + |a|, y) == before + (a + (y + b))
  {
  }
}
