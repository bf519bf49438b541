/** Unsigned Exp-Golomb, `ue(v)` of section 9.1 of ITU-T H.264. */
module ExpGolomb {
  import opened Words
  import opened Buffer
  import opened BitStream
  import opened BitCursor
  import opened BitWriting

  function Log2(n: nat): nat
    requires n >= 1
  {
    if n == 1 then 0 else 1 + Log2(n / 2)
  }

  lemma {:induction false} Log2Brackets(n: nat)
    requires n >= 1
    ensures Pow2(Log2(n)) <= n < 2 * Pow2(Log2(n))
  {
    if n <= 1 {
    } else {
      Log2Brackets(n / 2);
    }
  }

  lemma Log2Unique(n: nat, k: nat)
    requires Pow2(k) <= n < 2 * Pow2(k)
    ensures Log2(n) == k
  {
    Log2Brackets(n);
    if Log2(n) < k {
      Pow2Grows(Log2(n), k);
    } else if k < Log2(n) {
      Pow2Grows(k, Log2(n));
    }
  }

  /** How many zeros a value's word opens with, and the integer its tail spells. */
  function Split(v: nat): (nat, nat)
    requires IsU64(v)
  {
    if v == Pow2(64) - 1 then (64, 0)
    else
      var zeros := Log2(v + 1);
      Log2Brackets(v + 1);
      (zeros, v + 1 - Pow2(zeros))
  }

  lemma SplitMeans(v: nat)
    requires IsU64(v)
    ensures var (zeros, suffix) := Split(v);
      zeros <= 64 && zeros == Log2(v + 1) && suffix < Pow2(zeros) && v == Pow2(zeros) - 1 + suffix
  {
    Log2Brackets(v + 1);
    if v == Pow2(64) - 1 {
      Log2Unique(v + 1, 64);
    } else if Log2(v + 1) >= 64 {
      Pow2Grows(64, Log2(v + 1));
    }
  }

  /** The code word: zeros, a one, and as many bits again, highest first. */
  function Word(v: nat): (word: Bits)
    requires IsU64(v)
  {
    SplitMeans(v);
    var (zeros, suffix) := Split(v);
    Zeros(zeros) + [true] + FieldBits(Of(suffix, 64), zeros, true)
  }

  // ---------------------------------------------------------------- decoding

  /** The zeros before the next one bit: at most 64. */
  function CountZeros(bytes: seq<Byte>, at: nat, zeros: nat): Result<nat, ParseError>
    requires zeros <= 64
    decreases 64 - zeros
  {
    match BitSpec(bytes, at + zeros, true)
    case Err(e) => Err(e)
    case Ok(one) =>
      if one then Ok(zeros)
      else if zeros + 1 > 64 then Err(Malformed("ExpGolomb", at / 8))
      else CountZeros(bytes, at, zeros + 1)
  }

  /** The value and the bits it took. */
  function DecodeSpec(bytes: seq<Byte>, at: nat): Result<(nat, nat), ParseError> {
    match CountZeros(bytes, at, 0)
    case Err(e) => Err(e)
    case Ok(zeros) =>
      CountedZeros(bytes, at, 0);
      if zeros == 0 then Finish(0, 0, at)
      else
        match ReadSpec(bytes, at + zeros + 1, zeros, true)
        case Err(e) => Err(e)
        case Ok(suffix) => Finish(zeros, Nat(suffix), at)
  }

  function Finish(zeros: nat, suffix: nat, at: nat): Result<(nat, nat), ParseError> {
    var value := Pow2(zeros) - 1 + suffix;
    if IsU64(value) then Ok((value, 2 * zeros + 1)) else Err(Malformed("ExpGolomb", at / 8))
  }

  lemma {:induction false} CountedZeros(bytes: seq<Byte>, at: nat, zeros: nat)
    requires zeros <= 64
    ensures var r := CountZeros(bytes, at, zeros);
      r.Ok? ==>
        && zeros <= r.value <= 64 && at + r.value < 8 * |bytes|
        && Unpack(bytes, true)[at + r.value]
        && forall p :: at + zeros <= p < at + r.value ==> !Unpack(bytes, true)[p]
    decreases 64 - zeros
  {
    var bit := BitSpec(bytes, at + zeros, true);
    if bit.Err? || bit.value || zeros + 1 > 64 {
    } else {
      CountedZeros(bytes, at, zeros + 1);
    }
  }

  lemma {:induction false} CountsTo(bytes: seq<Byte>, at: nat, zeros: nat, n: nat)
    requires zeros <= n <= 64 && at + n < 8 * |bytes|
    requires Unpack(bytes, true)[at + n] && forall p :: at + zeros <= p < at + n ==> !Unpack(bytes, true)[p]
    ensures CountZeros(bytes, at, zeros) == Ok(n)
    decreases n - zeros
  {
    if zeros == n {
    } else {
      CountsTo(bytes, at, zeros + 1, n);
    }
  }

  method Decode(bytes: seq<Byte>, at: nat) returns (r: Result<(nat, nat), ParseError>)
    requires 8 * |bytes| <= U64_MAX && at <= U64_MAX
    ensures r == DecodeSpec(bytes, at)
  {
    hide Nat, Pow2, BitSpec, ReadSpec;
    var reader := new BitReader.At(bytes, at, true);
    var zeros: nat := 0;
    var done := false;
    while !done
      invariant reader.Valid() && reader.bytes == bytes && reader.msb
      invariant zeros <= 64
      invariant reader.at == at + zeros + if done then 1 else 0
      invariant if done then CountZeros(bytes, at, 0) == Ok(zeros)
                else CountZeros(bytes, at, 0) == CountZeros(bytes, at, zeros)
      decreases 64 - zeros, !done
    {
      var bit := reader.Bit();
      if bit.Err? {
        return Err(bit.error);
      }
      if bit.value {
        done := true;
      } else {
        zeros := zeros + 1;
        if zeros > 64 {
          return Err(Malformed("ExpGolomb", at / 8));
        }
      }
    }
    var suffix := 0;
    if zeros != 0 {
      var read := reader.Read(zeros);
      if read.Err? {
        return Err(read.error);
      }
      suffix := Nat(read.value);
    }
    var value := Pow2(zeros) - 1 + suffix;
    if !IsU64(value) {
      return Err(Malformed("ExpGolomb", at / 8));
    }
    return Ok((value, reader.at - at));
  }

  // ---------------------------------------------------------------- encoding

  /** What one failed encode leaves behind: nothing, the zeros, or the zeros and the one. */
  predicate Partial(v: nat, bits: nat)
    requires IsU64(v)
  {
    var zeros := Split(v).0;
    bits == 0 || bits == zeros || bits == zeros + 1
  }

  predicate LeavesPart(before: Bits, v: nat, after: Bits)
    requires IsU64(v)
  {
    exists k: nat :: Partial(v, k) && k <= |Word(v)| && after == before + Word(v)[..k]
  }

  lemma LeavesFirst(before: Bits, v: nat, after: Bits, k: nat)
    requires IsU64(v) && Partial(v, k) && k <= |Word(v)| && after == before + Word(v)[..k]
    ensures LeavesPart(before, v, after)
  {
  }

  lemma CountsGrow(n: nat, more: nat)
    ensures ByteCount(n) <= ByteCount(n + more)
  {
  }

  /** The three writes, one after another, are the code word. */
  lemma WordIsWritten(v: nat, before: Bits)
    requires IsU64(v)
    ensures Split(v).0 <= 64
    ensures var (zeros, suffix) := Split(v);
      var a := before + FieldBits(Zeros(64), zeros, true);
      var b := a + FieldBits(Of(1, 64), 1, true);
      && |Word(v)| == 2 * zeros + 1
      && Partial(v, 0) && Partial(v, zeros) && Partial(v, zeros + 1)
      && before == before + Word(v)[..0]
      && a == before + Word(v)[..zeros]
      && b == before + Word(v)[..zeros + 1]
      && b + FieldBits(Of(suffix, 64), zeros, true) == before + Word(v)
  {
    SplitMeans(v);
    hide Log2, Pow2, Split, FieldBits, Of, Zeros;
    var (zeros, suffix) := Split(v);
    ZerosThenOne(zeros);
    var tail := FieldBits(Of(suffix, 64), zeros, true);
    assert Word(v) == Zeros(zeros) + [true] + tail;
    assert Word(v)[..zeros] == Zeros(zeros) && Word(v)[..zeros + 1] == Zeros(zeros) + [true];
  }

  lemma ZerosThenOne(zeros: nat)
    requires zeros <= 64
    ensures FieldBits(Zeros(64), zeros, true) == Zeros(zeros)
    ensures FieldBits(Of(1, 64), 1, true) == [true]
  {
    assert Of(1, 64)[0];
  }

  method Encode(v: nat, out: BitWriter) returns (ok: bool)
    requires IsU64(v) && out.Valid() && out.msb
    modifies out, out.out, out.out.room
    ensures out.Valid()
    ensures ok <==> out.base + ByteCount(old(|out.stream|) + |Word(v)|) <= out.out.room.Length
    ensures ok ==> out.stream == old(out.stream) + Word(v)
    ensures !ok ==> LeavesPart(old(out.stream), v, out.stream)
    ensures out.out.Written()[..out.base] == old(out.out.Written()[..out.base])
  {
    hide FieldBits, Of, ByteCount, Zeros, Split, LeavesPart, Partial, Word, BitWriter.Valid, Fixed.Valid;
    var (zeros, suffix) := Split(v);
    ghost var before := out.stream;
    WordIsWritten(v, before);
    CountsGrow(|before| + zeros, 1);
    CountsGrow(|before| + zeros + 1, zeros);
    ok := out.Write(Zeros(64), zeros);
    if !ok {
      LeavesFirst(before, v, out.stream, 0);
      return;
    }
    ok := out.Write(Of(1, 64), 1);
    if !ok {
      LeavesFirst(before, v, out.stream, zeros);
      return;
    }
    ok := out.Write(Of(suffix, 64), zeros);
    if !ok {
      LeavesFirst(before, v, out.stream, zeros + 1);
    }
  }

  // ---------------------------------------------------------------- the bijection

  /** A code word decodes to its value at every bit offset, whatever follows it. */
  lemma EncodedDecodes(v: nat, bytes: seq<Byte>, at: nat)
    requires IsU64(v) && at + |Word(v)| <= 8 * |bytes|
    requires Unpack(bytes, true)[at..at + |Word(v)|] == Word(v)
    ensures |Word(v)| == 2 * Log2(v + 1) + 1
    ensures DecodeSpec(bytes, at) == Ok((v, |Word(v)|))
  {
    hide Of, Nat, Pow2, Log2, Unpack, FieldBits, FieldAt, CountZeros;
    SplitMeans(v);
    var (zeros, suffix) := Split(v);
    var stream, word := Unpack(bytes, true), Word(v);
    var tail := FieldBits(Of(suffix, 64), zeros, true);
    WordParts(stream, at, zeros, tail);
    CountsTo(bytes, at, 0, zeros);
    LowOfSmall(suffix, zeros);
    if zeros > 0 {
      FieldReadsBack(stream, at + zeros + 1, Of(suffix, 64), zeros, true);
      NatResize(Of(suffix, 64)[..zeros], 64);
    } else {
      PowZero();
    }
  }

  lemma PowZero()
    ensures Pow2(0) == 1
  {
  }

  lemma WordParts(stream: Bits, at: nat, zeros: nat, tail: Bits)
    requires at + zeros + 1 + |tail| <= |stream|
    requires stream[at..at + zeros + 1 + |tail|] == Zeros(zeros) + [true] + tail
    ensures stream[at + zeros] && stream[at + zeros + 1..at + zeros + 1 + |tail|] == tail
    ensures forall p :: at <= p < at + zeros ==> !stream[p]
  {
    var word := stream[at..at + zeros + 1 + |tail|];
    assert word[zeros] && word[zeros + 1..] == tail;
    forall p | at <= p < at + zeros ensures !stream[p] {
      assert !word[p - at];
    }
  }

  /** A value below `2^width` is its low `width` bits. */
  lemma LowOfSmall(n: nat, width: nat)
    requires n < Pow2(width) && width <= 64
    ensures Nat(Of(n, 64)[..width]) == n
  {
    hide Of, Nat, Pow2;
    var w := Of(n, 64);
    Pow2Grows(width, 64);
    NatOf(n, 64);
    assert w == w[..width] + w[width..];
    NatAppend(w[..width], w[width..]);
    NatBound(w[..width]);
    if Nat(w[width..]) >= 1 {
      MulGrows(Pow2(width), Nat(w[width..]));
    }
  }

  /** Encoding a decoded value reproduces exactly the bits it was decoded from. */
  lemma DecodedEncodes(bytes: seq<Byte>, at: nat)
    ensures DecodeSpec(bytes, at).Ok? ==>
      var (v, used) := DecodeSpec(bytes, at).value;
      IsU64(v) && at + used <= 8 * |bytes| && Unpack(bytes, true)[at..at + used] == Word(v)
  {
    hide Of, Nat, Pow2, Log2, Unpack, CountZeros, FieldBits, FieldAt, IsU64, Word;
    if DecodeSpec(bytes, at).Ok? {
      var (v, used) := DecodeSpec(bytes, at).value;
      var stream := Unpack(bytes, true);
      CountedZeros(bytes, at, 0);
      var zeros := CountZeros(bytes, at, 0).value;
      var read: U64 := if zeros == 0 then Zeros(64) else FieldAt(stream, at + zeros + 1, zeros, true);
      NatOfZeros(64);
      ReadIsWord(stream, at, zeros, read, v);
    }
  }

  /** Zeros, a one and the bits of the suffix, as they were read, are the word of the value they give. */
  lemma ReadIsWord(stream: Bits, at: nat, zeros: nat, read: U64, v: nat)
    requires zeros <= 64 && at + 2 * zeros + 1 <= |stream| && IsU64(v) && v == Pow2(zeros) - 1 + Nat(read)
    requires stream[at + zeros] && forall p :: at <= p < at + zeros ==> !stream[p]
    requires read == if zeros == 0 then Zeros(64) else FieldAt(stream, at + zeros + 1, zeros, true)
    ensures stream[at..at + 2 * zeros + 1] == Word(v)
  {
    hide Of, Nat, Pow2, Log2, Split;
    NatOfLow(read, zeros);
    Log2Unique(v + 1, zeros);
    SplitMeans(v);
    OfNat(read);
    assert Split(v) == (zeros, Nat(read));
    hide FieldBits, FieldAt, Zeros;
    SuffixReadsBack(stream, at + zeros + 1, zeros, read);
    PartsMakeTheWord(stream, at, zeros);
  }

  lemma SuffixReadsBack(stream: Bits, at: nat, zeros: nat, read: U64)
    requires zeros <= 64 && at + zeros <= |stream|
    requires read == if zeros == 0 then Zeros(64) else FieldAt(stream, at, zeros, true)
    ensures FieldBits(read, zeros, true) == stream[at..at + zeros]
  {
    forall j | 0 <= j < zeros ensures FieldBits(read, zeros, true)[j] == stream[at..at + zeros][j] {
      assert read[zeros - 1 - j] == stream[at + j];
    }
  }

  lemma PartsMakeTheWord(stream: Bits, at: nat, zeros: nat)
    requires at + 2 * zeros + 1 <= |stream|
    requires stream[at + zeros] && forall p :: at <= p < at + zeros ==> !stream[p]
    ensures stream[at..at + 2 * zeros + 1] == Zeros(zeros) + [true] + stream[at + zeros + 1..at + zeros + 1 + zeros]
  {
    assert stream[at..at + zeros] == Zeros(zeros);
    assert stream[at..at + 2 * zeros + 1]
        == stream[at..at + zeros] + [stream[at + zeros]] + stream[at + zeros + 1..at + zeros + 1 + zeros];
  }

  lemma NatOfLow(w: U64, n: nat)
    requires n <= 64 && forall i :: n <= i < 64 ==> !w[i]
    ensures Nat(w) < Pow2(n)
  {
    hide Nat, Pow2;
    assert w == w[..n] + Zeros(64 - n);
    NatAppend(w[..n], Zeros(64 - n));
    NatOfZeros(64 - n);
    NatBound(w[..n]);
  }

  // ---------------------------------------------------------------- short or malformed

  /** The bits from `at` on. */
  function Left(bytes: seq<Byte>, at: nat): Bits {
    if at <= 8 * |bytes| then Unpack(bytes, true)[at..] else []
  }

  /** These bits begin a code word, and do not end it. */
  ghost predicate BeginsAWord(left: Bits) {
    exists v: nat :: IsU64(v) && |left| < |Word(v)| && left == Word(v)[..|left|]
  }

  /** 64 zeros, a one, and some but not all of a suffix that already makes the value too large. */
  predicate BeginsTooLarge(left: Bits) {
    && 65 < |left| < 129
    && (forall i :: 0 <= i < 64 ==> !left[i]) && left[64]
    && exists i :: 65 <= i < |left| && left[i]
  }

  /** What opens with `zeros` zeros and a one, and then has a suffix that fits, is a word. */
  lemma MakesAWord(zeros: nat, part: Bits) returns (v: nat)
    requires |part| == zeros <= 64 && (zeros == 64 ==> part == Zeros(64))
    ensures IsU64(v) && Word(v) == Zeros(zeros) + [true] + part
  {
    hide Nat, Pow2, Word, FieldAt, Zeros;
    var stream := Zeros(zeros) + [true] + part;
    var read: U64 := if zeros == 0 then Zeros(64) else FieldAt(stream, zeros + 1, zeros, true);
    OpensWith(stream, zeros, part);
    ReadsLow(stream, zeros, read);
    v := Pow2(zeros) - 1 + Nat(read);
    if zeros == 64 {
      ZerosRead(stream);
      NatOfZeros(64);
    } else {
      NatOfLow(read, zeros);
      Pow2Twice(zeros);
      Pow2Grows(zeros + 1, 64);
    }
    ReadIsWord(stream, 0, zeros, read, v);
    assert stream[0..2 * zeros + 1] == stream;
  }

  lemma OpensWith(stream: Bits, zeros: nat, part: Bits)
    requires stream == Zeros(zeros) + [true] + part
    ensures stream[zeros] && forall p :: 0 <= p < zeros ==> !stream[p]
  {
  }

  lemma ReadsLow(stream: Bits, zeros: nat, read: U64)
    requires zeros <= 64 && 2 * zeros + 1 <= |stream|
    requires read == if zeros == 0 then Zeros(64) else FieldAt(stream, zeros + 1, zeros, true)
    ensures forall i :: zeros <= i < 64 ==> !read[i]
  {
  }

  lemma ZerosRead(stream: Bits)
    requires stream == Zeros(64) + [true] + Zeros(64)
    ensures FieldAt(stream, 65, 64, true) == Zeros(64)
  {
  }

  lemma Pow2Twice(n: nat)
    ensures Pow2(n + 1) == 2 * Pow2(n)
  {
  }

  /** A word's zeros are as many as its first one bit says. */
  lemma WordOpens(v: nat)
    requires IsU64(v)
    ensures var zeros := Split(v).0;
      zeros <= 64 && |Word(v)| == 2 * zeros + 1 && Word(v)[zeros] && forall i :: 0 <= i < zeros ==> !Word(v)[i]
  {
    SplitMeans(v);
    hide Split, FieldBits, Of;
  }

  /** Where the search for the first one bit stops. */
  lemma {:induction false} CountStops(bytes: seq<Byte>, at: nat, zeros: nat)
    requires zeros <= 64 && forall i :: 0 <= i < zeros && i < |Left(bytes, at)| ==> !Left(bytes, at)[i]
    requires zeros == 0 || zeros <= |Left(bytes, at)|
    ensures var left := Left(bytes, at);
      match CountZeros(bytes, at, zeros)
      case Ok(n) => n <= 64 && n < |left| && left[n] && forall i :: 0 <= i < n ==> !left[i]
      case Err(e) =>
        if e.Short? then |left| <= 64 && forall i :: 0 <= i < |left| ==> !left[i]
        else |left| > 64 && forall i :: 0 <= i <= 64 ==> !left[i]
    decreases 64 - zeros
  {
    hide Unpack;
    var left := Left(bytes, at);
    var bit := BitSpec(bytes, at + zeros, true);
    if bit.Err? || bit.value || zeros + 1 > 64 {
    } else {
      assert left[zeros] == Unpack(bytes, true)[at + zeros];
      CountStops(bytes, at, zeros + 1);
    }
  }

  lemma ZerosBeginAWord(left: Bits)
    requires |left| <= 64 && forall i :: 0 <= i < |left| ==> !left[i]
    ensures BeginsAWord(left)
  {
    hide Word;
    var v := MakesAWord(|left|, Zeros(|left|));
    assert left == Word(v)[..|left|];
  }

  lemma FirstOne(left: Bits, word: Bits, n: nat, zeros: nat)
    requires n < |left| < |word| && left == word[..|left|] && zeros < |word|
    requires left[n] && forall i :: 0 <= i < n ==> !left[i]
    requires word[zeros] && forall i :: 0 <= i < zeros ==> !word[i]
    ensures n == zeros
  {
    assert left[n] == word[n];
    forall i | 0 <= i < n ensures !word[i] {
      assert left[i] == word[i];
    }
  }

  /** Zeros and a one are followed by as many bits in every word that begins so. */
  lemma OneDecides(left: Bits, n: nat)
    requires n <= 64 && n < |left| && left[n] && forall i :: 0 <= i < n ==> !left[i]
    ensures BeginsAWord(left) ==> |left| < 2 * n + 1
    ensures |left| < 2 * n + 1 && !BeginsTooLarge(left) ==> BeginsAWord(left)
  {
    hide Word, IsU64, Split;
    if BeginsAWord(left) {
      var v: nat :| IsU64(v) && |left| < |Word(v)| && left == Word(v)[..|left|];
      WordOpens(v);
      FirstOne(left, Word(v), n, Split(v).0);
    }
    if |left| < 2 * n + 1 && !BeginsTooLarge(left) {
      var part := left[n + 1..] + Zeros(2 * n + 1 - |left|);
      if n == 64 {
        assert forall i :: 65 <= i < |left| ==> !left[i];
        assert part == Zeros(64);
      }
      var v := MakesAWord(n, part);
      BeginsSo(left, n, Zeros(2 * n + 1 - |left|));
    }
  }

  lemma BeginsSo(left: Bits, n: nat, rest: Bits)
    requires n < |left| && left[n] && forall i :: 0 <= i < n ==> !left[i]
    ensures (Zeros(n) + [true] + (left[n + 1..] + rest))[..|left|] == left
  {
  }

  lemma NoWordOpensWithMore(left: Bits)
    requires |left| > 64 && forall i :: 0 <= i <= 64 ==> !left[i]
    ensures !BeginsAWord(left)
  {
    hide Word;
    if BeginsAWord(left) {
      var v: nat :| IsU64(v) && |left| < |Word(v)| && left == Word(v)[..|left|];
      WordOpens(v);
      assert false;
    }
  }

  /** A decode that fails is `Short` exactly when what is left begins a code word, or a suffix too large that has not
      ended: then more bytes are asked for although none would do. */
  lemma ShortMeansAWordBegins(bytes: seq<Byte>, at: nat)
    requires DecodeSpec(bytes, at).Err?
    ensures DecodeSpec(bytes, at).error.Short? <==>
      BeginsAWord(Left(bytes, at)) || BeginsTooLarge(Left(bytes, at))
  {
    hide BeginsAWord, Unpack, Nat, Pow2, FieldAt;
    var left := Left(bytes, at);
    CountStops(bytes, at, 0);
    match CountZeros(bytes, at, 0) {
      case Err(e) =>
        if e.Short? {
          ZerosBeginAWord(left);
        } else {
          NoWordOpensWithMore(left);
        }
      case Ok(n) =>
        OneDecides(left, n);
        if n == 0 {
          PowZero();
        } else if |left| >= 2 * n + 1 {
          SuffixFits(bytes, at, n);
        }
    }
  }

  lemma {:induction false} ManyZerosAtTheirStart(bytes: seq<Byte>, at: nat, zeros: nat)
    requires zeros <= 64
    ensures var c := CountZeros(bytes, at, zeros);
      c.Err? && c.error.Malformed? ==> 8 * c.error.at <= at < 8 * (c.error.at + 1)
    decreases 64 - zeros
  {
    hide Unpack;
    if zeros == 64 {
    } else {
      ManyZerosAtTheirStart(bytes, at, zeros + 1);
    }
  }

  /** A word that is malformed is said to be at the byte it starts in. */
  lemma MalformedAtItsStart(bytes: seq<Byte>, at: nat)
    ensures var d := DecodeSpec(bytes, at);
      d.Err? && d.error.Malformed? ==> 8 * d.error.at <= at < 8 * (d.error.at + 1)
  {
    hide Unpack, FieldAt, Nat, Pow2, CountZeros;
    ManyZerosAtTheirStart(bytes, at, 0);
  }

  /** Only a suffix of 64 bits can make a value too large. */
  lemma SuffixFits(bytes: seq<Byte>, at: nat, n: nat)
    requires 1 <= n <= 64 && at + 2 * n + 1 <= 8 * |bytes|
    ensures n < 64 ==> IsU64(Pow2(n) - 1 + Nat(FieldAt(Unpack(bytes, true), at + n + 1, n, true)))
  {
    hide Nat, Pow2, Unpack;
    if n < 64 {
      NatOfLow(FieldAt(Unpack(bytes, true), at + n + 1, n, true), n);
      Pow2Twice(n);
      Pow2Grows(n + 1, 64);
    }
  }
}
