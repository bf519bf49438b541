/** What a record's `encode` stamps, what its `decode` checks, and what its view seals and verifies. */
module Stamping {
  import opened Words
  import opened Access
  import opened Containers
  import opened Coverage
  import opened Records

  // ---------------------------------------------------------------- stamping

  /** `magic_writes` up to field `n`. */
  function Magicked<S>(r: Record<S>, buf: seq<Byte>, n: nat): (after: seq<Byte>)
    requires r.Formed() && |buf| == r.Size() && n <= |r.fields|
    ensures |after| == |buf|
  {
    if n == 0 then buf
    else
      var before, stamp := Magicked(r, buf, n - 1), r.fields[n - 1].stamp;
      assert r.fields[n - 1].Formed();
      if stamp.Magic? then PutField(r, before, n - 1, stamp.bytes) else before
  }

  /** `checksum_writes`, first half: every checksum's bytes zeroed. */
  function Cleared<S>(r: Record<S>, buf: seq<Byte>, n: nat): (after: seq<Byte>)
    requires r.Formed() && |buf| == r.Size() && n <= |r.fields|
    ensures |after| == |buf|
  {
    if n == 0 then buf
    else
      var before, f := Cleared(r, buf, n - 1), r.fields[n - 1];
      if f.stamp.Checksum? then PutField(r, before, n - 1, ZeroBytes(f.width)) else before
  }

  function Covered(buf: seq<Byte>, runs: seq<(nat, nat)>): seq<seq<Byte>>
    requires forall run :: run in runs ==> run.0 <= run.1 <= |buf|
  {
    seq(|runs|, i requires 0 <= i < |runs| => buf[runs[i].0..runs[i].1])
  }

  lemma RunsInside<S>(r: Record<S>, i: nat)
    requires r.Accepted() && i < |r.fields| && r.fields[i].stamp.Checksum?
    ensures forall run :: run in r.Runs(i) ==> run.0 <= run.1 <= r.Size()
  {
    forall run | run in r.Runs(i) ensures run.0 <= run.1 <= r.Size() {
      var p, q := RunsAvoidLaterChecksums(r, i, run);
      AtGrows(r, p, q);
      AtGrows(r, q, |r.fields|);
    }
  }

  /** The check value of checksum `i` over a buffer, in the field's own width. */
  function Sum<S>(r: Record<S>, buf: seq<Byte>, i: nat): (sum: Bits)
    requires r.Accepted() && |buf| == r.Size() && i < |r.fields| && r.fields[i].stamp.Checksum?
    ensures |sum| == 8 * r.fields[i].width
  {
    RunsInside(r, i);
    Resize(r.fields[i].stamp.algorithm.FoldOver(Covered(buf, r.Runs(i))), 8 * r.fields[i].width)
  }

  /** The same, as the bytes it is sent as. */
  function SumBytes<S>(r: Record<S>, buf: seq<Byte>, i: nat): (bytes: seq<Byte>)
    requires i < |r.fields| && r.fields[i].stamp.Checksum? && |buf| == r.Size() && r.Accepted()
    ensures |bytes| == r.fields[i].width
  {
    hide Record.Accepted, Record.At;
    WireBytes(Sum(r, buf, i), r.endian)
  }

  /** `checksum_writes`, second half: the checksums before field `n`, each computed from the bytes as they then are. */
  function Stamped<S>(r: Record<S>, buf: seq<Byte>, n: nat): (after: seq<Byte>)
    requires r.Accepted() && |buf| == r.Size() && n <= |r.fields|
    ensures |after| == |buf|
  {
    if n == 0 then buf
    else
      var before := Stamped(r, buf, n - 1);
      if r.fields[n - 1].stamp.Checksum? then PutField(r, before, n - 1, SumBytes(r, before, n - 1)) else before
  }

  /** A buffer with every magic and checksum written: `seal`. */
  function Sealed<S>(r: Record<S>, buf: seq<Byte>): (after: seq<Byte>)
    requires r.Accepted() && |buf| == r.Size()
    ensures |after| == |buf|
  {
    var n := |r.fields|;
    Stamped(r, Cleared(r, Magicked(r, buf, n), n), n)
  }

  // ---------------------------------------------------------------- checking

  datatype ParseError =
    | BadMagic(field: nat)
    | Malformed(field: nat)
    | OutOfRange(field: nat, value: int)
    | BadChecksum(field: nat, expected: int, actual: int)

  /** The integer field `i` of a wire holds. */
  function ReadInt<S>(r: Record<S>, wire: seq<Byte>, i: nat): int
    requires r.Formed() && |wire| == r.Size() && i < |r.fields| && r.fields[i].reading.Integer?
  {
    assert r.fields[i].Formed();
    ToI64(r.fields[i].reading.signed, Whole(Bytes(r, wire, i), r.endian))
  }

  function MagicError<S>(r: Record<S>, wire: seq<Byte>, i: nat): Option<ParseError>
    requires r.Formed() && |wire| == r.Size() && i < |r.fields|
  {
    if r.fields[i].stamp.Magic? && Bytes(r, wire, i) != r.fields[i].stamp.bytes then Some(BadMagic(i)) else None
  }

  function FlagError<S>(r: Record<S>, wire: seq<Byte>, i: nat): Option<ParseError>
    requires r.Formed() && |wire| == r.Size() && i < |r.fields|
  {
    assert r.fields[i].Formed();
    if r.fields[i].reading.Flag? && Nat(Bytes(r, wire, i)[0]) > 1 then Some(Malformed(i)) else None
  }

  function BoundsError<S>(r: Record<S>, wire: seq<Byte>, i: nat): Option<ParseError>
    requires r.Formed() && |wire| == r.Size() && i < |r.fields|
  {
    assert r.fields[i].Formed();
    if r.fields[i].range.Some? && !InBounds(ReadInt(r, wire, i), r.fields[i].range.value)
    then Some(OutOfRange(i, ReadInt(r, wire, i))) else None
  }

  function SumError<S>(r: Record<S>, wire: seq<Byte>, i: nat): Option<ParseError>
    requires r.Accepted() && |wire| == r.Size() && i < |r.fields|
  {
    assert r.fields[i].Formed();
    if r.fields[i].stamp.Checksum? then
      var want, got := ToI64(r.fields[i].reading.signed, Sum(r, wire, i)), ReadInt(r, wire, i);
      if want != got then Some(BadChecksum(i, want, got)) else None
    else None
  }

  datatype Pass = Magics | Flags | Ranges | Sums

  function ErrorAt<S>(r: Record<S>, wire: seq<Byte>, pass: Pass, i: nat): Option<ParseError>
    requires r.Accepted() && |wire| == r.Size() && i < |r.fields|
  {
    match pass
    case Magics => MagicError(r, wire, i)
    case Flags => FlagError(r, wire, i)
    case Ranges => BoundsError(r, wire, i)
    case Sums => SumError(r, wire, i)
  }

  /** `e` is the error at field `i`, and no field before it, from `from` on, has one. */
  predicate IsFirst<S>(r: Record<S>, wire: seq<Byte>, pass: Pass, from: nat, i: nat, e: Option<ParseError>)
    requires r.Accepted() && |wire| == r.Size() && i < |r.fields|
  {
    e.Some? && e == ErrorAt(r, wire, pass, i) && forall k :: from <= k < i ==> ErrorAt(r, wire, pass, k).None?
  }

  /** The first error one kind of check finds, from field `from` on. */
  function FirstError<S>(r: Record<S>, wire: seq<Byte>, pass: Pass, from: nat): (e: Option<ParseError>)
    requires r.Accepted() && |wire| == r.Size() && from <= |r.fields|
    ensures e.None? <==> forall i :: from <= i < |r.fields| ==> ErrorAt(r, wire, pass, i).None?
    decreases |r.fields| - from
  {
    if from == |r.fields| then None
    else if ErrorAt(r, wire, pass, from).Some? then ErrorAt(r, wire, pass, from)
    else FirstError(r, wire, pass, from + 1)
  }

  lemma {:induction false} FirstErrorIsFirst<S>(r: Record<S>, wire: seq<Byte>, pass: Pass, from: nat) returns (i: nat)
    requires r.Accepted() && |wire| == r.Size() && from <= |r.fields| && FirstError(r, wire, pass, from).Some?
    ensures from <= i < |r.fields| && IsFirst(r, wire, pass, from, i, FirstError(r, wire, pass, from))
    decreases |r.fields| - from
  {
    hide ErrorAt, Record.Accepted;
    if ErrorAt(r, wire, pass, from).Some? {
      i := from;
    } else {
      i := FirstErrorIsFirst(r, wire, pass, from + 1);
    }
  }

  /** The first error of several kinds of check, made in turn. */
  function FirstOf<S>(r: Record<S>, wire: seq<Byte>, passes: seq<Pass>): (e: Option<ParseError>)
    requires r.Accepted() && |wire| == r.Size()
    ensures e.None? <==> forall k :: 0 <= k < |passes| ==> FirstError(r, wire, passes[k], 0).None?
  {
    if passes == [] then None
    else if FirstError(r, wire, passes[0], 0).Some? then FirstError(r, wire, passes[0], 0)
    else
      assert passes == [passes[0]] + passes[1..];
      FirstOf(r, wire, passes[1..])
  }

  /** What `decode` checks, in order; and what a view's `verify` does. */
  const DECODE_CHECKS: seq<Pass> := [Magics, Flags, Ranges, Sums]
  const VERIFY_CHECKS: seq<Pass> := [Magics, Sums]

  datatype Value = Number(bits: Bits) | Switch(on: bool) | Raw(bytes: seq<Byte>)

  predicate Typed<S>(f: Field<S>, value: Value) {
    match f.reading
    case Integer(_) => value.Number? && |value.bits| == 8 * f.width
    case Flag => value.Switch?
    case Plain => value.Raw? && |value.bytes| == f.width
  }

  /** The bytes a value is written as. */
  function Wired<S>(r: Record<S>, f: Field<S>, value: Value): (bytes: seq<Byte>)
    requires f.Formed() && Typed(f, value)
    ensures |bytes| == f.width
  {
    match f.reading
    case Integer(_) => WireBytes(value.bits, r.endian)
    case Flag => [[value.on] + Zeros(7)]
    case Plain => value.bytes
  }

  function Valued<S>(r: Record<S>, f: Field<S>, bytes: seq<Byte>): (value: Value)
    requires f.Formed() && |bytes| == f.width
    ensures Typed(f, value)
  {
    match f.reading
    case Integer(_) => Number(Whole(bytes, r.endian))
    case Flag => Switch(bytes[0] != Zeros(8))
    case Plain => Raw(bytes)
  }

  predicate AllTyped<S>(r: Record<S>, values: seq<Value>) {
    |values| == |r.fields| && forall i :: 0 <= i < |r.fields| ==> Typed(r.fields[i], values[i])
  }

  /** A range guard of `encode`. */
  predicate Guarded<S>(r: Record<S>, values: seq<Value>, i: nat)
    requires r.Formed() && AllTyped(r, values) && i < |r.fields|
  {
    assert r.fields[i].Formed();
    r.fields[i].range.Some? ==>
      InBounds(ToI64(r.fields[i].reading.signed, values[i].bits), r.fields[i].range.value)
  }

  function FirstUnguarded<S>(r: Record<S>, values: seq<Value>, from: nat): (e: Option<nat>)
    requires r.Formed() && AllTyped(r, values) && from <= |r.fields|
    ensures e.Some? ==> from <= e.value < |r.fields| && !Guarded(r, values, e.value)
    ensures forall i :: from <= i < (if e.Some? then e.value else |r.fields|) ==> Guarded(r, values, i)
    decreases |r.fields| - from
  {
    if from == |r.fields| then None
    else if !Guarded(r, values, from) then Some(from)
    else FirstUnguarded(r, values, from + 1)
  }

  /** The field writes of `encode`, into a zeroed buffer. */
  function Written<S>(r: Record<S>, values: seq<Value>, n: nat): (buf: seq<Byte>)
    requires r.Formed() && AllTyped(r, values) && n <= |r.fields|
    ensures |buf| == r.Size()
  {
    if n == 0 then ZeroBytes(r.Size())
    else
      assert r.fields[n - 1].Formed();
      PutField(r, Written(r, values, n - 1), n - 1, Wired(r, r.fields[n - 1], values[n - 1]))
  }

  /** `encode`: the stamped wire, or the first field whose range guard stops it. */
  function Encoded<S>(r: Record<S>, values: seq<Value>): Result<seq<Byte>, nat>
    requires r.Accepted() && AllTyped(r, values)
  {
    match FirstUnguarded(r, values, 0)
    case Some(i) => Err(i)
    case None => Ok(Sealed(r, Written(r, values, |r.fields|)))
  }

  /** The fields of a wire, unchecked: what a view's `decode` gives. */
  function Fields<S>(r: Record<S>, wire: seq<Byte>): (values: seq<Value>)
    requires r.Formed() && |wire| == r.Size()
    ensures AllTyped(r, values)
  {
    seq(|r.fields|, i requires 0 <= i < |r.fields| =>
      assert r.fields[i].Formed();
      Valued(r, r.fields[i], Bytes(r, wire, i)))
  }

  function Decoded<S>(r: Record<S>, wire: seq<Byte>): Result<seq<Value>, ParseError>
    requires r.Accepted() && |wire| == r.Size()
  {
    match FirstOf(r, wire, DECODE_CHECKS)
    case Some(e) => Err(e)
    case None => Ok(Fields(r, wire))
  }

  // ---------------------------------------------------------------- what is refused

  /** A ranged field's number lies between the range's ends. */
  predicate Within<S>(f: Field<S>, bits: Bits)
    requires f.Formed() && |bits| == 8 * f.width
  {
    f.range.Some? ==>
      f.range.value.0 <= Saturated(Quantity(f.reading.signed, bits)) <= f.range.value.1
  }

  /** The first `n` values are in their fields' ranges. */
  predicate ValuesWithin<S>(r: Record<S>, values: seq<Value>, n: nat)
    requires r.Formed() && AllTyped(r, values) && n <= |r.fields|
  {
    forall i :: 0 <= i < n ==> ValueWithin(r, values, i)
  }

  predicate ValueWithin<S>(r: Record<S>, values: seq<Value>, i: nat)
    requires r.Formed() && AllTyped(r, values) && i < |r.fields|
  {
    assert r.fields[i].Formed();
    r.fields[i].reading.Integer? ==> Within(r.fields[i], values[i].bits)
  }

  /** Encode stops at the first value outside its range, and otherwise succeeds. */
  lemma EncodeRefusesExactly<S>(r: Record<S>, values: seq<Value>)
    requires r.Accepted() && AllTyped(r, values)
    ensures Encoded(r, values).Ok? <==> ValuesWithin(r, values, |r.fields|)
    ensures forall i: nat :: Encoded(r, values) == Err(i) <==>
      i < |r.fields| && ValuesWithin(r, values, i) && !ValueWithin(r, values, i)
  {
    hide Record.Accepted, Sealed, Written, Guarded, ValueWithin;
    AcceptedIsFormed(r);
    forall i | 0 <= i < |r.fields| ensures Guarded(r, values, i) <==> ValueWithin(r, values, i) {
      GuardMeans(r, values, i);
    }
  }

  lemma GuardMeans<S>(r: Record<S>, values: seq<Value>, i: nat)
    requires r.Formed() && AllTyped(r, values) && i < |r.fields|
    ensures Guarded(r, values, i) <==> ValueWithin(r, values, i)
  {
    assert r.fields[i].Formed();
    if r.fields[i].reading.Integer? {
      ToI64Means(r.fields[i].reading.signed, values[i].bits);
    }
  }

  /** Field `i` passes a check: its magic is there, its flag is 0 or 1, its number is in range, or its checksum is the
      sum, as far as an `i64` shows both. */
  predicate Held<S>(r: Record<S>, wire: seq<Byte>, pass: Pass, i: nat)
    requires r.Accepted() && |wire| == r.Size() && i < |r.fields|
  {
    assert r.fields[i].Formed();
    var f, bytes := r.fields[i], Bytes(r, wire, i);
    match pass
    case Magics => f.stamp.Magic? ==> bytes == f.stamp.bytes
    case Flags => f.reading.Flag? ==> bytes == [Zeros(8)] || bytes == [[true] + Zeros(7)]
    case Ranges => f.reading.Integer? ==> Within(f, Whole(bytes, r.endian))
    case Sums => f.stamp.Checksum? ==> Wanted(r, wire, i) == Found(r, wire, i)
  }

  /** A checksum field's sum, and what it holds, as an `i64`. */
  function Wanted<S>(r: Record<S>, wire: seq<Byte>, i: nat): int
    requires r.Accepted() && |wire| == r.Size() && i < |r.fields| && r.fields[i].stamp.Checksum?
  {
    assert r.fields[i].Formed();
    Saturated(Quantity(r.fields[i].reading.signed, Sum(r, wire, i)))
  }

  function Found<S>(r: Record<S>, wire: seq<Byte>, i: nat): int
    requires r.Formed() && |wire| == r.Size() && i < |r.fields| && r.fields[i].reading.Integer?
  {
    assert r.fields[i].Formed();
    Saturated(Quantity(r.fields[i].reading.signed, Whole(Bytes(r, wire, i), r.endian)))
  }

  predicate HeldBefore<S>(r: Record<S>, wire: seq<Byte>, pass: Pass, n: nat)
    requires r.Accepted() && |wire| == r.Size() && n <= |r.fields|
  {
    forall i :: 0 <= i < n ==> Held(r, wire, pass, i)
  }

  predicate AllHeld<S>(r: Record<S>, wire: seq<Byte>, pass: Pass)
    requires r.Accepted() && |wire| == r.Size()
  {
    HeldBefore(r, wire, pass, |r.fields|)
  }

  /** Field `i` is the first that fails the check. */
  predicate FirstToFail<S>(r: Record<S>, wire: seq<Byte>, pass: Pass, i: nat)
    requires r.Accepted() && |wire| == r.Size()
  {
    i < |r.fields| && HeldBefore(r, wire, pass, i) && !Held(r, wire, pass, i)
  }

  /** Decode checks magics, then flags, then ranges, then checksums, and reports the first field that fails the first
      kind of check any fails; if none does, it succeeds. */
  lemma DecodeRefusesExactly<S>(r: Record<S>, wire: seq<Byte>)
    requires r.Accepted() && |wire| == r.Size()
    ensures r.Formed()
    ensures var d := Decoded(r, wire);
      var magics, flags := AllHeld(r, wire, Magics), AllHeld(r, wire, Flags);
      var ranges, sums := AllHeld(r, wire, Ranges), AllHeld(r, wire, Sums);
      && (d.Ok? <==> magics && flags && ranges && sums)
      && (forall i: nat :: d == Err(BadMagic(i)) <==> FirstToFail(r, wire, Magics, i))
      && (forall i: nat :: d == Err(Malformed(i)) <==> magics && FirstToFail(r, wire, Flags, i))
      && (forall i: nat, v: int :: d == Err(OutOfRange(i, v)) <==>
            magics && flags && FirstToFail(r, wire, Ranges, i) && v == Found(r, wire, i))
      && (forall i: nat, want: int, got: int :: d == Err(BadChecksum(i, want, got)) <==>
            && magics && flags && ranges && FirstToFail(r, wire, Sums, i)
            && want == Wanted(r, wire, i) && got == Found(r, wire, i))
  {
    hide Record.Accepted, FirstOf, FirstError, Held, Fields, Wanted, Found;
    AcceptedIsFormed(r);
    ChecksInTurn(r, wire);
    FirstErrorMeans(r, wire, Magics);
    FirstErrorMeans(r, wire, Flags);
    FirstErrorMeans(r, wire, Ranges);
    FirstErrorMeans(r, wire, Sums);
  }

  /** What one kind of check reports at a field that fails it. */
  function ErrorOf<S>(r: Record<S>, wire: seq<Byte>, pass: Pass, i: nat): ParseError
    requires r.Accepted() && |wire| == r.Size() && i < |r.fields| && !Held(r, wire, pass, i)
  {
    assert r.fields[i].Formed();
    match pass
    case Magics => BadMagic(i)
    case Flags => Malformed(i)
    case Ranges => OutOfRange(i, Found(r, wire, i))
    case Sums => BadChecksum(i, Wanted(r, wire, i), Found(r, wire, i))
  }

  lemma ErrorAtMeans<S>(r: Record<S>, wire: seq<Byte>, pass: Pass, i: nat)
    requires r.Accepted() && |wire| == r.Size() && i < |r.fields|
    ensures ErrorAt(r, wire, pass, i) == if Held(r, wire, pass, i) then None else Some(ErrorOf(r, wire, pass, i))
  {
    hide Record.Accepted, Bytes, Sum;
    AcceptedIsFormed(r);
    var f, bytes := r.fields[i], Bytes(r, wire, i);
    assert f.Formed();
    if f.reading.Flag? {
      SmallByte(bytes[0]);
      assert bytes == [bytes[0]];
      assert [false] + Zeros(7) == Zeros(8);
    }
    if f.reading.Integer? {
      ToI64Means(f.reading.signed, Whole(bytes, r.endian));
    }
    if f.stamp.Checksum? {
      ToI64Means(f.reading.signed, Sum(r, wire, i));
    }
  }

  lemma FirstErrorMeans<S>(r: Record<S>, wire: seq<Byte>, pass: Pass)
    requires r.Accepted() && |wire| == r.Size()
    ensures FirstError(r, wire, pass, 0).None? <==> AllHeld(r, wire, pass)
    ensures FirstError(r, wire, pass, 0).Some? ==>
      exists i :: FirstToFail(r, wire, pass, i) && FirstError(r, wire, pass, 0).value == ErrorOf(r, wire, pass, i)
    ensures forall i: nat, j: nat :: FirstToFail(r, wire, pass, i) && FirstToFail(r, wire, pass, j) ==> i == j
  {
    hide Record.Accepted, Held, ErrorOf, ErrorAt, FirstError;
    var e := FirstError(r, wire, pass, 0);
    forall i | 0 <= i < |r.fields|
      ensures ErrorAt(r, wire, pass, i) == if Held(r, wire, pass, i) then None else Some(ErrorOf(r, wire, pass, i))
    {
      ErrorAtMeans(r, wire, pass, i);
    }
    if e.Some? {
      var i := FirstErrorIsFirst(r, wire, pass, 0);
      assert FirstToFail(r, wire, pass, i);
    }
  }

  // ---------------------------------------------------------------- what stamping leaves in each field

  lemma {:induction false} MagickedHolds<S>(r: Record<S>, buf: seq<Byte>, n: nat, j: nat)
    requires r.Formed() && |buf| == r.Size() && n <= |r.fields| && j < |r.fields|
    ensures Bytes(r, Magicked(r, buf, n), j)
         == if j < n && r.fields[j].stamp.Magic? then r.fields[j].stamp.bytes else Bytes(r, buf, j)
  {
    if n == 0 {
    } else {
      hide PutField, Bytes;
      MagickedHolds(r, buf, n - 1, j);
      var stamp := r.fields[n - 1].stamp;
      assert r.fields[n - 1].Formed();
      if stamp.Magic? {
        PutHolds(r, Magicked(r, buf, n - 1), n - 1, stamp.bytes, j);
      }
    }
  }

  lemma {:induction false} ClearedHolds<S>(r: Record<S>, buf: seq<Byte>, n: nat, j: nat)
    requires r.Formed() && |buf| == r.Size() && n <= |r.fields| && j < |r.fields|
    ensures Bytes(r, Cleared(r, buf, n), j)
         == if j < n && r.fields[j].stamp.Checksum? then ZeroBytes(r.fields[j].width) else Bytes(r, buf, j)
  {
    if n == 0 {
    } else {
      hide PutField, Bytes, ZeroBytes;
      ClearedHolds(r, buf, n - 1, j);
      var f := r.fields[n - 1];
      if f.stamp.Checksum? {
        PutHolds(r, Cleared(r, buf, n - 1), n - 1, ZeroBytes(f.width), j);
      }
    }
  }

  lemma {:induction false} StampedHolds<S>(r: Record<S>, buf: seq<Byte>, n: nat, j: nat)
    requires r.Accepted() && |buf| == r.Size() && n <= |r.fields| && j < |r.fields|
    ensures Bytes(r, Stamped(r, buf, n), j)
         == if j < n && r.fields[j].stamp.Checksum? then SumBytes(r, Stamped(r, buf, j), j) else Bytes(r, buf, j)
  {
    hide PutField, Bytes, SumBytes, Record.Accepted, Stamped;
    StampedSteps(r, buf, n);
    if n == 0 {
    } else {
      StampedHolds(r, buf, n - 1, j);
      if r.fields[n - 1].stamp.Checksum? {
        var before := Stamped(r, buf, n - 1);
        PutHolds(r, before, n - 1, SumBytes(r, before, n - 1), j);
      }
    }
  }

  lemma StampedSteps<S>(r: Record<S>, buf: seq<Byte>, n: nat)
    requires r.Accepted() && |buf| == r.Size() && n <= |r.fields|
    ensures r.Formed()
    ensures Stamped(r, buf, 0) == buf
    ensures n > 0 ==> var before := Stamped(r, buf, n - 1);
      Stamped(r, buf, n) == (
        if r.fields[n - 1].stamp.Checksum? then PutField(r, before, n - 1, SumBytes(r, before, n - 1)) else before)
  {
  }

  /** Two buffers agree but for the checksums from field `i` on. */
  predicate AgreeBefore<S>(r: Record<S>, a: seq<Byte>, b: seq<Byte>, i: nat)
    requires r.Formed() && |a| == |b| == r.Size()
  {
    forall j :: 0 <= j < |r.fields| && !(i <= j && r.fields[j].stamp.Checksum?) ==> Bytes(r, a, j) == Bytes(r, b, j)
  }

  /** A checksum depends on no checksum from its own on. */
  lemma SumIgnoresLaterChecksums<S>(r: Record<S>, a: seq<Byte>, b: seq<Byte>, i: nat)
    requires r.Accepted() && |a| == |b| == r.Size() && i < |r.fields| && r.fields[i].stamp.Checksum?
    ensures AgreeBefore(r, a, b, i) ==> Sum(r, a, i) == Sum(r, b, i) && SumBytes(r, a, i) == SumBytes(r, b, i)
  {
    hide Bytes, Algorithm.FoldOver, Resize, Record.ResolveCheck, Record.At, Record.Formed;
    RunsInside(r, i);
    var runs := r.Runs(i);
    if AgreeBefore(r, a, b, i) {
      forall k | 0 <= k < |runs| ensures a[runs[k].0..runs[k].1] == b[runs[k].0..runs[k].1] {
        RunAgrees(r, a, b, i, runs[k]);
      }
      assert Covered(a, runs) == Covered(b, runs);
    }
  }

  lemma RunAgrees<S>(r: Record<S>, a: seq<Byte>, b: seq<Byte>, i: nat, run: (nat, nat))
    requires r.Accepted() && |a| == |b| == r.Size() && i < |r.fields| && r.fields[i].stamp.Checksum?
    requires run.0 <= run.1 <= r.Size()
    ensures run in r.Runs(i) && AgreeBefore(r, a, b, i) ==> a[run.0..run.1] == b[run.0..run.1]
  {
    hide Bytes, Record.ResolveCheck, Record.At;
    if run in r.Runs(i) && AgreeBefore(r, a, b, i) {
      var p, q := RunsAvoidLaterChecksums(r, i, run);
      SameBetween(r, a, b, p, q);
    }
  }

  /** Each field after a seal: its magic, its checksum over the sealed bytes, or what it was. */
  lemma SealedHolds<S>(r: Record<S>, buf: seq<Byte>, j: nat)
    requires r.Accepted() && |buf| == r.Size() && j < |r.fields|
    ensures Bytes(r, Sealed(r, buf), j) ==
      match r.fields[j].stamp
      case Unstamped => Bytes(r, buf, j)
      case Magic(bytes) => bytes
      case Checksum(_, _) => SumBytes(r, Sealed(r, buf), j)
  {
    hide Bytes, SumBytes, Magicked, Cleared, Stamped, Record.ResolveCheck, Record.At;
    var n := |r.fields|;
    var magicked := Magicked(r, buf, n);
    var cleared := Cleared(r, magicked, n);
    MagickedHolds(r, buf, n, j);
    ClearedHolds(r, magicked, n, j);
    StampedHolds(r, cleared, n, j);
    if r.fields[j].stamp.Checksum? {
      var sealed, before := Stamped(r, cleared, n), Stamped(r, cleared, j);
      forall k | 0 <= k < n && !(j <= k && r.fields[k].stamp.Checksum?)
        ensures Bytes(r, sealed, k) == Bytes(r, before, k)
      {
        StampedHolds(r, cleared, n, k);
        StampedHolds(r, cleared, j, k);
      }
      SumIgnoresLaterChecksums(r, sealed, before, j);
    }
  }

  // ---------------------------------------------------------------- a seal verifies

  lemma SealedPasses<S>(r: Record<S>, buf: seq<Byte>, i: nat)
    requires r.Accepted() && |buf| == r.Size() && i < |r.fields|
    ensures MagicError(r, Sealed(r, buf), i).None? && SumError(r, Sealed(r, buf), i).None?
  {
    hide Bytes, Sum, WireBytes, Sealed, ToI64, Whole, Record.ResolveCheck, Record.At;
    SealedHolds(r, buf, i);
    if r.fields[i].stamp.Checksum? {
      assert r.fields[i].Formed();
      WireBytesLoad(Sum(r, Sealed(r, buf), i), r.endian);
    }
  }

  /** From any bytes, `seal` makes `verify` succeed and changes no field that is not stamped. */
  lemma SealedVerifies<S>(r: Record<S>, buf: seq<Byte>)
    requires r.Accepted() && |buf| == r.Size()
    ensures FirstOf(r, Sealed(r, buf), VERIFY_CHECKS).None?
    ensures forall i :: 0 <= i < |r.fields| && r.fields[i].stamp.Unstamped? ==>
      Bytes(r, Sealed(r, buf), i) == Bytes(r, buf, i)
  {
    hide MagicError, SumError, Sealed, Bytes, Record.ResolveCheck, Record.At;
    forall i | 0 <= i < |r.fields|
      ensures ErrorAt(r, Sealed(r, buf), Magics, i).None? && ErrorAt(r, Sealed(r, buf), Sums, i).None?
    {
      SealedPasses(r, buf, i);
    }
    forall i | 0 <= i < |r.fields| && r.fields[i].stamp.Unstamped?
      ensures Bytes(r, Sealed(r, buf), i) == Bytes(r, buf, i)
    {
      SealedHolds(r, buf, i);
    }
  }

  /** What a seal writes depends on the unstamped fields alone. */
  lemma SealDependsOnUnstamped<S>(r: Record<S>, a: seq<Byte>, b: seq<Byte>)
    requires r.Accepted() && |a| == |b| == r.Size()
    requires forall i :: 0 <= i < |r.fields| && r.fields[i].stamp.Unstamped? ==> Bytes(r, a, i) == Bytes(r, b, i)
    ensures Sealed(r, a) == Sealed(r, b)
  {
    hide Bytes, Magicked, Cleared, Stamped, Record.ResolveCheck, Record.At;
    var n := |r.fields|;
    var x, y := Cleared(r, Magicked(r, a, n), n), Cleared(r, Magicked(r, b, n), n);
    forall i | 0 <= i < n ensures Bytes(r, x, i) == Bytes(r, y, i) {
      MagickedHolds(r, a, n, i);
      MagickedHolds(r, b, n, i);
      ClearedHolds(r, Magicked(r, a, n), n, i);
      ClearedHolds(r, Magicked(r, b, n), n, i);
    }
    SameBuffers(r, x, y);
  }

  /** `seal` twice is `seal` once. */
  lemma SealIsIdempotent<S>(r: Record<S>, buf: seq<Byte>)
    requires r.Accepted() && |buf| == r.Size()
    ensures Sealed(r, Sealed(r, buf)) == Sealed(r, buf)
  {
    hide Sealed, Bytes, Record.ResolveCheck, Record.At;
    SealedVerifies(r, buf);
    SealDependsOnUnstamped(r, Sealed(r, buf), buf);
  }

  // ---------------------------------------------------------------- round trips of encode and decode

  lemma {:induction false} WrittenHolds<S>(r: Record<S>, values: seq<Value>, n: nat, j: nat)
    requires r.Formed() && AllTyped(r, values) && j < n <= |r.fields|
    ensures r.fields[j].Formed() && Bytes(r, Written(r, values, n), j) == Wired(r, r.fields[j], values[j])
  {
    hide PutField, Bytes, Wired;
    assert r.fields[n - 1].Formed() && r.fields[j].Formed();
    PutHolds(r, Written(r, values, n - 1), n - 1, Wired(r, r.fields[n - 1], values[n - 1]), j);
    if j == n - 1 {
    } else {
      WrittenHolds(r, values, n - 1, j);
    }
  }

  lemma ValuedWired<S>(r: Record<S>, f: Field<S>, value: Value)
    requires f.Formed() && Typed(f, value)
    ensures Valued(r, f, Wired(r, f, value)) == value
  {
    match f.reading {
      case Integer(_) =>
        WireBytesLoad(value.bits, r.endian);
      case Flag =>
        assert value.on ==> ([true] + Zeros(7))[0] && !Zeros(8)[0];
        assert !value.on ==> [false] + Zeros(7) == Zeros(8);
      case Plain =>
    }
  }

  /** Only a strict `bool` can be written other than it was read. */
  lemma WiredValued<S>(r: Record<S>, f: Field<S>, bytes: seq<Byte>)
    requires f.Formed() && |bytes| == f.width && (f.reading.Flag? ==> Nat(bytes[0]) <= 1)
    ensures Wired(r, f, Valued(r, f, bytes)) == bytes
  {
    match f.reading {
      case Integer(_) =>
        LoadedWireBytes(bytes, r.endian);
      case Flag =>
        SmallByte(bytes[0]);
        assert bytes == [bytes[0]];
      case Plain =>
    }
  }

  lemma SmallByte(b: Byte)
    ensures Nat(b) <= 1 <==> b == [b[0]] + Zeros(7)
    ensures b == [b[0]] + Zeros(7) ==> b[0] == (b != Zeros(8))
  {
    assert b == [b[0]] + b[1..];
    NatAppend([b[0]], b[1..]);
    NatOne(b[0]);
    assert Pow2(1) == 2;
    if Nat(b) <= 1 {
      ZeroWord(b[1..]);
    } else if b == [b[0]] + Zeros(7) {
      assert b[1..] == Zeros(7);
      NatOfZeros(7);
    }
    assert b[0] ==> !Zeros(8)[0];
    assert b == [false] + Zeros(7) ==> b == Zeros(8);
  }

  lemma ZeroWord(w: Bits)
    requires Nat(w) == 0
    ensures w == Zeros(|w|)
  {
    OfNat(w);
    NatOfZeros(|w|);
    OfNat(Zeros(|w|));
  }

  /** Every magic with a range is in it. Only the record decides. */
  predicate MagicsInBounds<S>(r: Record<S>)
    requires r.Formed()
  {
    forall i :: 0 <= i < |r.fields| && r.fields[i].stamp.Magic? && r.fields[i].range.Some? ==>
      MagicInBounds(r.fields[i], r.endian)
  }

  predicate MagicInBounds<S>(f: Field<S>, endian: Endian)
    requires f.Formed() && f.stamp.Magic? && f.range.Some?
  {
    InBounds(ToI64(f.reading.signed, Whole(f.stamp.bytes, endian)), f.range.value)
  }

  /** Every checksum with a range has, over these bytes, a value in it. */
  predicate SumsInBounds<S>(r: Record<S>, buf: seq<Byte>)
    requires r.Accepted() && |buf| == r.Size()
  {
    forall i :: 0 <= i < |r.fields| && r.fields[i].stamp.Checksum? && r.fields[i].range.Some? ==> SumInBounds(r, buf, i)
  }

  predicate SumInBounds<S>(r: Record<S>, buf: seq<Byte>, i: nat)
    requires r.Accepted() && |buf| == r.Size() && i < |r.fields|
    requires r.fields[i].stamp.Checksum? && r.fields[i].range.Some?
  {
    assert r.fields[i].Formed();
    InBounds(ToI64(r.fields[i].reading.signed, Sum(r, buf, i)), r.fields[i].range.value)
  }

  /** Whether a sealed wire's stamp is in its field's range. */
  lemma StampBounds<S>(r: Record<S>, buf: seq<Byte>, i: nat)
    requires r.Accepted() && |buf| == r.Size() && i < |r.fields|
    ensures r.fields[i].Formed()
    ensures r.fields[i].stamp.Magic? && r.fields[i].range.Some? ==>
      (BoundsError(r, Sealed(r, buf), i).None? <==> MagicInBounds(r.fields[i], r.endian))
    ensures r.fields[i].stamp.Checksum? && r.fields[i].range.Some? ==>
      (BoundsError(r, Sealed(r, buf), i).None? <==> SumInBounds(r, Sealed(r, buf), i))
    ensures !r.fields[i].stamp.Unstamped? && r.fields[i].range.None? ==> BoundsError(r, Sealed(r, buf), i).None?
  {
    hide Bytes, Sum, Sealed, ToI64, Whole, WireBytes, Record.ResolveCheck, Record.At;
    assert r.fields[i].Formed();
    SealedHolds(r, buf, i);
    if r.fields[i].stamp.Checksum? {
      WireBytesLoad(Sum(r, Sealed(r, buf), i), r.endian);
    }
  }

  /** What encode wrote in an unstamped field passes that field's checks and is read back. */
  lemma UnstampedSurvives<S>(r: Record<S>, values: seq<Value>, wire: seq<Byte>, i: nat)
    requires r.Accepted() && AllTyped(r, values) && |wire| == r.Size() && i < |r.fields| && Guarded(r, values, i)
    requires r.fields[i].Formed() && Bytes(r, wire, i) == Wired(r, r.fields[i], values[i])
    ensures FlagError(r, wire, i).None? && BoundsError(r, wire, i).None? && Fields(r, wire)[i] == values[i]
  {
    hide Bytes, Record.Accepted, ToI64;
    ValuedWired(r, r.fields[i], values[i]);
    if r.fields[i].reading.Flag? {
      var b := Wired(r, r.fields[i], values[i])[0];
      assert b == [b[0]] + Zeros(7);
      SmallByte(b);
    }
  }

  /** An encoded wire decodes, to the values given but for what is stamped, exactly when every ranged magic is in its
      range, which the record alone decides, and every ranged checksum's value is: so always, when no field is both
      stamped and ranged. */
  lemma EncodedDecodes<S>(r: Record<S>, values: seq<Value>)
    requires r.Accepted() && AllTyped(r, values) && Encoded(r, values).Ok?
    ensures |Encoded(r, values).value| == r.Size()
    ensures var wire := Encoded(r, values).value;
      && (Decoded(r, wire).Ok? <==> MagicsInBounds(r) && SumsInBounds(r, wire))
      && (forall i :: 0 <= i < |r.fields| && r.fields[i].stamp.Unstamped? ==> Fields(r, wire)[i] == values[i])
    ensures (forall i :: 0 <= i < |r.fields| ==> !r.fields[i].stamp.Checksum? || r.fields[i].range.None?) ==>
      (Decoded(r, Encoded(r, values).value).Ok? <==> MagicsInBounds(r))
    ensures (forall i :: 0 <= i < |r.fields| ==> r.fields[i].stamp.Unstamped? || r.fields[i].range.None?) ==>
      Decoded(r, Encoded(r, values).value).Ok?
  {
    hide Bytes, Wired, Sealed, Written, Record.Accepted, Fields, MagicError, SumError, FlagError, BoundsError;
    hide FirstError, Guarded, SumInBounds, MagicInBounds;
    AcceptedIsFormed(r);
    var n := |r.fields|;
    var written, wire := Written(r, values, n), Encoded(r, values).value;
    forall i | 0 <= i < n
      ensures ErrorAt(r, wire, Magics, i).None? && ErrorAt(r, wire, Sums, i).None? && ErrorAt(r, wire, Flags, i).None?
      ensures r.fields[i].stamp.Unstamped? ==> ErrorAt(r, wire, Ranges, i).None? && Fields(r, wire)[i] == values[i]
      ensures !r.fields[i].stamp.Unstamped? && r.fields[i].range.None? ==> ErrorAt(r, wire, Ranges, i).None?
      ensures r.fields[i].stamp.Magic? && r.fields[i].range.Some? ==>
        (ErrorAt(r, wire, Ranges, i).None? <==> MagicInBounds(r.fields[i], r.endian))
      ensures r.fields[i].stamp.Checksum? && r.fields[i].range.Some? ==>
        (ErrorAt(r, wire, Ranges, i).None? <==> SumInBounds(r, wire, i))
    {
      SealedPasses(r, written, i);
      WrittenHolds(r, values, n, i);
      SealedHolds(r, written, i);
      StampBounds(r, written, i);
      if r.fields[i].stamp.Unstamped? {
        UnstampedSurvives(r, values, wire, i);
      } else {
        StampsAreNoFlags(r, wire, i);
      }
    }
    DecodesWhen(r, wire);
  }

  /** When a ranged magic is outside its range, no wire at all decodes: what passes as the magic fails the range. */
  lemma MagicsOutOfBoundsNeverDecode<S>(r: Record<S>, wire: seq<Byte>)
    requires r.Accepted() && |wire| == r.Size() && !MagicsInBounds(r)
    ensures Decoded(r, wire).Err?
  {
    hide Bytes, ToI64, Record.Accepted, FirstError, Fields;
    AcceptedIsFormed(r);
    DecodesWhen(r, wire);
    var i :| 0 <= i < |r.fields| && r.fields[i].stamp.Magic? && r.fields[i].range.Some?
      && !MagicInBounds(r.fields[i], r.endian);
    assert r.fields[i].Formed();
    assert ErrorAt(r, wire, Magics, i).Some? || ErrorAt(r, wire, Ranges, i).Some?;
  }

  /** A `u8` with magic 5 and range 0 to 3. */
  function OddMagic(): Record<int> {
    Record(Le, [Field("kind", 1, Integer(false), Some((0, 3)), Magic([[true, false, true] + Zeros(5)]))])
  }

  /** A ranged magic outside its range: encode accepts a value in the range, decode refuses what it writes, and refuses
      every other wire. */
  lemma AMagicOutsideItsRangeNeverDecodes()
    ensures var r, values := OddMagic(), [Number([false, true] + Zeros(6))];
      && r.Accepted() && r.Size() == 1 && AllTyped(r, values)
      && Encoded(r, values) == Ok([[true, false, true] + Zeros(5)])
      && Decoded(r, [[true, false, true] + Zeros(5)]) == Err(OutOfRange(0, 5))
      && forall wire: seq<Byte> | |wire| == 1 :: Decoded(r, wire).Err?
  {
    hide Encoded, FirstOf, MagicError, FlagError, BoundsError, Record.ResolveCheck, MagicsInBounds;
    var r, values := OddMagic(), [Number([false, true] + Zeros(6))];
    var wire := [[true, false, true] + Zeros(5)];
    OddMagicReads(r, values, wire);
    ChecksInTurn(r, wire);
    OddMagicIsOut();
    forall other: seq<Byte> | |other| == 1 ensures Decoded(r, other).Err? {
      MagicsOutOfBoundsNeverDecode(r, other);
    }
  }

  /** The four kinds of check, one after another. */
  lemma ChecksInTurn<S>(r: Record<S>, wire: seq<Byte>)
    requires r.Accepted() && |wire| == r.Size()
    ensures FirstOf(r, wire, DECODE_CHECKS) ==
      if FirstError(r, wire, Magics, 0).Some? then FirstError(r, wire, Magics, 0)
      else if FirstError(r, wire, Flags, 0).Some? then FirstError(r, wire, Flags, 0)
      else if FirstError(r, wire, Ranges, 0).Some? then FirstError(r, wire, Ranges, 0)
      else FirstError(r, wire, Sums, 0)
    ensures FirstOf(r, wire, VERIFY_CHECKS) ==
      if FirstError(r, wire, Magics, 0).Some? then FirstError(r, wire, Magics, 0) else FirstError(r, wire, Sums, 0)
  {
    hide FirstError, Record.Accepted;
    FirstOfNext(r, wire, Magics, [Flags, Ranges, Sums]);
    FirstOfNext(r, wire, Flags, [Ranges, Sums]);
    FirstOfNext(r, wire, Ranges, [Sums]);
    FirstOfNext(r, wire, Magics, [Sums]);
    FirstOfNext(r, wire, Sums, []);
    assert DECODE_CHECKS == [Magics] + [Flags, Ranges, Sums] && VERIFY_CHECKS == [Magics] + [Sums];
    assert [Flags, Ranges, Sums] == [Flags] + [Ranges, Sums] && [Ranges, Sums] == [Ranges] + [Sums];
    assert [Sums] == [Sums] + [];
  }

  lemma OddMagicIsOut()
    ensures OddMagic().Formed() && !MagicsInBounds(OddMagic())
  {
    SmallNats();
    hide Nat, Pow2;
    var r := OddMagic();
    assert r.fields[0].Formed();
    var magic := r.fields[0].stamp.bytes;
    OneByteWord(magic[0]);
    assert !MagicInBounds(r.fields[0], r.endian);
  }

  lemma OddMagicReads(r: Record<int>, values: seq<Value>, wire: seq<Byte>)
    requires r == OddMagic() && values == [Number([false, true] + Zeros(6))] && wire == [[true, false, true] + Zeros(5)]
    ensures r.Accepted() && r.Size() == 1 && AllTyped(r, values)
    ensures Encoded(r, values) == Ok(wire)
    ensures MagicError(r, wire, 0).None? && FlagError(r, wire, 0).None?
    ensures BoundsError(r, wire, 0) == Some(OutOfRange(0, 5))
  {
    assert r.fields[0].Formed() && r.At(1) == 1 && r.Size() == 1;
    OddMagicEncodes(r, values, wire);
    OddMagicChecks(r, wire);
  }

  lemma OddMagicEncodes(r: Record<int>, values: seq<Value>, wire: seq<Byte>)
    requires r == OddMagic() && values == [Number([false, true] + Zeros(6))] && wire == [[true, false, true] + Zeros(5)]
    requires r.Accepted() && r.Size() == 1 && AllTyped(r, values)
    ensures Encoded(r, values) == Ok(wire)
  {
    SmallNats();
    hide Nat, Pow2, Sealed, Written;
    assert FirstUnguarded(r, values, 1).None? && Guarded(r, values, 0);
    OddMagicSeals(r, Written(r, values, 1), wire);
  }

  lemma OddMagicChecks(r: Record<int>, wire: seq<Byte>)
    requires r == OddMagic() && wire == [[true, false, true] + Zeros(5)] && r.Accepted() && r.Size() == 1
    ensures MagicError(r, wire, 0).None? && FlagError(r, wire, 0).None?
    ensures BoundsError(r, wire, 0) == Some(OutOfRange(0, 5))
  {
    SmallNats();
    hide Nat, Pow2;
    assert r.At(0) == 0 && r.At(1) == 1 && Bytes(r, wire, 0) == wire;
    OneByteWord(wire[0]);
    assert Reverse(wire) == wire;
  }

  lemma OddMagicSeals(r: Record<int>, buf: seq<Byte>, wire: seq<Byte>)
    requires r == OddMagic() && r.Accepted() && r.Size() == 1 && |buf| == 1 && wire == [[true, false, true] + Zeros(5)]
    ensures Sealed(r, buf) == wire
  {
    SealedHolds(r, buf, 0);
    hide Sealed;
    assert r.At(0) == 0 && r.At(1) == 1;
    assert Bytes(r, Sealed(r, buf), 0) == Sealed(r, buf);
  }

  lemma SmallNats()
    ensures Nat([true, false, true] + Zeros(5)) == 5 && Nat([false, true] + Zeros(6)) == 2
    ensures Pow2(63) > 5
  {
    hide Pow2;
    NatAppend([true, false, true], Zeros(5));
    NatAppend([false, true], Zeros(6));
    NatOfZeros(5);
    NatOfZeros(6);
    assert Nat([true, false, true]) == 5 by {
      assert [true, false, true][1..] == [false, true] && [false, true][1..] == [true];
      NatOne(true);
    }
    assert Nat([false, true]) == 2 by {
      assert [false, true][1..] == [true];
      NatOne(true);
    }
    Pow2Grows(3, 63);
    EightBits();
  }

  lemma EightBits()
    ensures Pow2(3) == 8
  {
  }

  lemma AcceptedIsFormed<S>(r: Record<S>)
    requires r.Accepted()
    ensures r.Formed()
  {
  }

  lemma StampsAreNoFlags<S>(r: Record<S>, wire: seq<Byte>, i: nat)
    requires r.Formed() && |wire| == r.Size() && i < |r.fields| && !r.fields[i].stamp.Unstamped?
    ensures FlagError(r, wire, i).None?
  {
  }

  lemma DecodesWhen<S>(r: Record<S>, wire: seq<Byte>)
    requires r.Accepted() && |wire| == r.Size()
    ensures Decoded(r, wire).Ok? <==>
      forall i :: 0 <= i < |r.fields| ==>
        && ErrorAt(r, wire, Magics, i).None? && ErrorAt(r, wire, Flags, i).None?
        && ErrorAt(r, wire, Ranges, i).None? && ErrorAt(r, wire, Sums, i).None?
  {
    hide ErrorAt, Record.Accepted;
    var d := DECODE_CHECKS;
    assert d[0] == Magics && d[1] == Flags && d[2] == Ranges && d[3] == Sums;
  }

  // ---------------------------------------------------------------- from a wire, back to it

  /** Every stamp in the wire is what a seal would write there. */
  predicate StampsHold<S>(r: Record<S>, wire: seq<Byte>)
    requires r.Accepted() && |wire| == r.Size()
  {
    forall i :: 0 <= i < |r.fields| ==>
      match r.fields[i].stamp
      case Unstamped => true
      case Magic(bytes) => Bytes(r, wire, i) == bytes
      case Checksum(_, _) => Bytes(r, wire, i) == SumBytes(r, wire, i)
  }

  /** A seal leaves exactly the wires whose stamps hold as they are. */
  lemma SealFixesExactlyTheStamped<S>(r: Record<S>, wire: seq<Byte>)
    requires r.Accepted() && |wire| == r.Size()
    ensures Sealed(r, wire) == wire <==> StampsHold(r, wire)
  {
    hide Bytes, SumBytes, Sealed, Record.Accepted;
    AcceptedIsFormed(r);
    if Sealed(r, wire) == wire {
      forall i | 0 <= i < |r.fields|
        ensures r.fields[i].stamp.Magic? ==> Bytes(r, wire, i) == r.fields[i].stamp.bytes
        ensures r.fields[i].stamp.Checksum? ==> Bytes(r, wire, i) == SumBytes(r, wire, i)
      {
        SealedHolds(r, wire, i);
      }
    }
    if StampsHold(r, wire) {
      SealKeepsUpTo(r, wire, |r.fields|);
      SameBuffers(r, Sealed(r, wire), wire);
    }
  }

  lemma {:induction false} SealKeepsUpTo<S>(r: Record<S>, wire: seq<Byte>, n: nat)
    requires r.Accepted() && |wire| == r.Size() && n <= |r.fields| && StampsHold(r, wire)
    ensures forall j :: 0 <= j < |r.fields| && (j < n || !r.fields[j].stamp.Checksum?) ==>
      Bytes(r, Sealed(r, wire), j) == Bytes(r, wire, j)
  {
    hide Bytes, SumBytes, Sealed, Record.Accepted;
    AcceptedIsFormed(r);
    if n > 0 {
      SealKeepsUpTo(r, wire, n - 1);
      if r.fields[n - 1].stamp.Checksum? {
        SumIgnoresLaterChecksums(r, Sealed(r, wire), wire, n - 1);
        SealedHolds(r, wire, n - 1);
      }
    } else {
      forall j | 0 <= j < |r.fields| && !r.fields[j].stamp.Checksum?
        ensures Bytes(r, Sealed(r, wire), j) == Bytes(r, wire, j)
      {
        SealedHolds(r, wire, j);
      }
    }
  }

  /** Encoding what a wire decodes to gives the wire back exactly when its checksums match bit for bit. */
  lemma DecodedEncodes<S>(r: Record<S>, wire: seq<Byte>)
    requires r.Accepted() && |wire| == r.Size()
    ensures Decoded(r, wire).Ok? ==> (Encoded(r, Decoded(r, wire).value) == Ok(wire) <==> StampsHold(r, wire))
  {
    hide Bytes, Sealed, Written, Record.Accepted, Fields, FirstError, Wired, StampsHold, FirstOf;
    AcceptedIsFormed(r);
    if Decoded(r, wire).Ok? {
      var n, values := |r.fields|, Decoded(r, wire).value;
      DecodesWhen(r, wire);
      forall i | 0 <= i < n ensures Guarded(r, values, i) && Bytes(r, Written(r, values, n), i) == Bytes(r, wire, i) {
        assert ErrorAt(r, wire, Flags, i).None? && ErrorAt(r, wire, Ranges, i).None?;
        WrittenHolds(r, values, n, i);
        FieldAgain(r, wire, i);
      }
      SameBuffers(r, Written(r, values, n), wire);
      SealFixesExactlyTheStamped(r, wire);
    }
  }

  lemma FieldAgain<S>(r: Record<S>, wire: seq<Byte>, i: nat)
    requires r.Formed() && |wire| == r.Size() && i < |r.fields|
    requires FlagError(r, wire, i).None? && BoundsError(r, wire, i).None?
    ensures r.fields[i].Formed() && Guarded(r, Fields(r, wire), i)
    ensures Wired(r, r.fields[i], Fields(r, wire)[i]) == Bytes(r, wire, i)
  {
    assert r.fields[i].Formed();
    hide Bytes, Wired, Valued, ToI64;
    WiredValued(r, r.fields[i], Bytes(r, wire, i));
  }

  /** The only integers `to_i64` confuses are of a `u64`. */
  lemma ToI64TellsApart(signed: bool, a: Bits, b: Bits)
    requires |a| == |b| && 1 <= |a| <= 64 && (signed || |a| < 64)
    ensures ToI64(signed, a) == ToI64(signed, b) <==> a == b
  {
    hide Nat, Pow2;
    OfNat(a);
    OfNat(b);
    if signed {
      IntTop(a);
      IntTop(b);
      NatBound(a);
      NatBound(b);
    } else {
      NatBound(a);
      NatBound(b);
      Pow2Grows(|a|, 63);
    }
  }

  /** A wire that passes its checks has stamps that hold, if no checksum is a `u64`. */
  lemma DecodedStampsHold<S>(r: Record<S>, wire: seq<Byte>)
    requires r.Accepted() && |wire| == r.Size() && FirstOf(r, wire, VERIFY_CHECKS).None?
    requires forall i :: 0 <= i < |r.fields| && r.fields[i].stamp.Checksum? ==>
      r.fields[i].reading.signed || r.fields[i].width < 8
    ensures StampsHold(r, wire)
  {
    hide Bytes, Sum, Record.Accepted, FirstError, ToI64;
    AcceptedIsFormed(r);
    var v := VERIFY_CHECKS;
    assert v[0] == Magics && v[1] == Sums;
    forall i | 0 <= i < |r.fields|
      ensures r.fields[i].stamp.Magic? ==> Bytes(r, wire, i) == r.fields[i].stamp.bytes
      ensures r.fields[i].stamp.Checksum? ==> Bytes(r, wire, i) == SumBytes(r, wire, i)
    {
      assert ErrorAt(r, wire, Magics, i).None? && ErrorAt(r, wire, Sums, i).None?;
      assert r.fields[i].Formed();
      if r.fields[i].stamp.Checksum? {
        ToI64TellsApart(r.fields[i].reading.signed, Sum(r, wire, i), Whole(Bytes(r, wire, i), r.endian));
        LoadedWireBytes(Bytes(r, wire, i), r.endian);
      }
    }
  }

  /** Two `u64` checksums that `to_i64` does not tell apart. */
  lemma LargeSumsLookAlike()
    ensures var a, b := Zeros(63) + [true], [true] + Zeros(62) + [true];
      a != b && ToI64(false, a) == ToI64(false, b)
  {
    hide Nat, Pow2;
    var a, b := Zeros(63) + [true], [true] + Zeros(62) + [true];
    assert !a[0] && b[0];
    NatAppend(Zeros(63), [true]);
    NatAppend([true] + Zeros(62), [true]);
    NatOne(true);
  }

  /** A byte, and a `u64` checksum of it whose algorithm always gives 2^63. */
  function LargeSum(): Record<int> {
    Record(Le, [Field("x", 1, Plain, None, Unstamped),
                Field("sum", 8, Integer(false), None, Checksum(TopBit(), Coverage(Start, Here)))])
  }

  function TopBit(): Algorithm<int> {
    Algorithm(0, (state: int, bytes: seq<Byte>) => state, (state: int) => Zeros(63) + [true])
  }

  /** On a wire whose checksum is 2^63 + 1 decode passes, and encode does not give the wire back. */
  lemma ALargeSumIsNotReturned(x: Byte)
    ensures var r, wire := LargeSum(), [x] + LeBytes([true] + Zeros(62) + [true]);
      && r.Accepted() && |wire| == r.Size()
      && Decoded(r, wire).Ok? && Encoded(r, Decoded(r, wire).value) != Ok(wire)
  {
    var r, wire := LargeSum(), [x] + LeBytes([true] + Zeros(62) + [true]);
    LargeSumIsAccepted();
    LargeSumReads(r, wire, x);
    DecodesWhen(r, wire);
    assert !StampsHold(r, wire);
    DecodedEncodes(r, wire);
  }

  lemma LargeSumIsAccepted()
    ensures var r := LargeSum(); r.Accepted() && r.At(0) == 0 && r.At(1) == 1 && r.At(2) == 9 == r.Size()
  {
    var r := LargeSum();
    assert r.fields[0].Formed() && r.fields[1].Formed();
    assert r.At(1) == 1 && r.At(2) == 9;
    assert NonEmpty([(0, 1)]) == [(0, 1)] by {
      assert NonEmpty([]) == [];
    }
    assert r.ResolveCheck(1) == Ok([(0, 1)]);
  }

  lemma LargeSumReads(r: Record<int>, wire: seq<Byte>, x: Byte)
    requires r == LargeSum() && r.Accepted() && r.At(0) == 0 && r.At(1) == 1 && r.At(2) == 9 == r.Size()
    requires wire == [x] + LeBytes([true] + Zeros(62) + [true])
    ensures forall i :: 0 <= i < 2 ==>
      && ErrorAt(r, wire, Magics, i).None? && ErrorAt(r, wire, Flags, i).None?
      && ErrorAt(r, wire, Ranges, i).None? && ErrorAt(r, wire, Sums, i).None?
    ensures Bytes(r, wire, 1) != SumBytes(r, wire, 1)
  {
    hide ToI64, LeBytes, LeWord, Record.ResolveCheck, Record.At;
    var a, b := Zeros(63) + [true], [true] + Zeros(62) + [true];
    LargeSumsLookAlike();
    LeWordBytes(a);
    LeWordBytes(b);
    assert Bytes(r, wire, 1) == LeBytes(b);
    assert Sum(r, wire, 1) == a;
  }

  // ---------------------------------------------------------------- a run of setters

  predicate Settable<S>(r: Record<S>, sets: seq<(nat, Value)>) {
    forall k :: 0 <= k < |sets| ==> sets[k].0 < |r.fields| && Typed(r.fields[sets[k].0], sets[k].1)
  }

  /** The bytes after one setter. */
  function SetField<S>(r: Record<S>, wire: seq<Byte>, i: nat, value: Value): (after: seq<Byte>)
    requires r.Formed() && |wire| == r.Size() && i < |r.fields| && Typed(r.fields[i], value)
    ensures |after| == r.Size()
  {
    assert r.fields[i].Formed();
    PutField(r, wire, i, Wired(r, r.fields[i], value))
  }

  /** The bytes after calls of setters, the last of `sets` the latest. */
  function AfterSets<S>(r: Record<S>, wire: seq<Byte>, sets: seq<(nat, Value)>): (after: seq<Byte>)
    requires r.Formed() && |wire| == r.Size() && Settable(r, sets)
    ensures |after| == r.Size()
  {
    if sets == [] then wire
    else
      var n := |sets| - 1;
      SetField(r, AfterSets(r, wire, sets[..n]), sets[n].0, sets[n].1)
  }

  /** After any setters a field holds the value last set on it, or what it held. */
  lemma {:induction false} SetsHold<S>(r: Record<S>, wire: seq<Byte>, sets: seq<(nat, Value)>, i: nat)
    requires r.Formed() && |wire| == r.Size() && Settable(r, sets) && i < |r.fields|
    ensures r.fields[i].Formed()
    ensures LastWrite(sets, i).Some? ==> Typed(r.fields[i], LastWrite(sets, i).value)
    ensures Bytes(r, AfterSets(r, wire, sets), i) ==
      if LastWrite(sets, i).Some? then Wired(r, r.fields[i], LastWrite(sets, i).value) else Bytes(r, wire, i)
  {
    hide Bytes, PutField, Wired, Typed, Record.At;
    assert r.fields[i].Formed();
    if sets == [] {
    } else {
      var n := |sets| - 1;
      var (j, value) := sets[n];
      SetsHold(r, wire, sets[..n], i);
      assert r.fields[j].Formed();
      PutHolds(r, AfterSets(r, wire, sets[..n]), j, Wired(r, r.fields[j], value), i);
    }
  }

  /** Any setters, from any bytes, that leave each unstamped field at its value, and then a seal, are encode. */
  lemma SettersAndSealAreEncode<S>(r: Record<S>, values: seq<Value>, wire: seq<Byte>, sets: seq<(nat, Value)>)
    requires r.Accepted() && AllTyped(r, values) && |wire| == r.Size() && Settable(r, sets)
    requires forall i :: 0 <= i < |r.fields| && r.fields[i].stamp.Unstamped? ==> LastWrite(sets, i) == Some(values[i])
    ensures Encoded(r, values).Ok? ==> Encoded(r, values) == Ok(Sealed(r, AfterSets(r, wire, sets)))
  {
    hide Bytes, Sealed, Written, Wired, AfterSets, Record.ResolveCheck, Record.At;
    var n, edited := |r.fields|, AfterSets(r, wire, sets);
    forall i | 0 <= i < n && r.fields[i].stamp.Unstamped?
      ensures Bytes(r, Written(r, values, n), i) == Bytes(r, edited, i)
    {
      WrittenHolds(r, values, n, i);
      SetsHold(r, wire, sets, i);
    }
    SealDependsOnUnstamped(r, Written(r, values, n), edited);
  }

  // ---------------------------------------------------------------- a view

  /** Whether a view is allowed: no field is a flag and none is ranged. */
  predicate Viewable<S>(r: Record<S>) {
    forall i :: 0 <= i < |r.fields| ==> !r.fields[i].reading.Flag? && r.fields[i].range.None?
  }

  lemma FirstOfNext<S>(r: Record<S>, wire: seq<Byte>, pass: Pass, passes: seq<Pass>)
    requires r.Accepted() && |wire| == r.Size()
    ensures FirstOf(r, wire, [pass] + passes) ==
      (if FirstError(r, wire, pass, 0).Some? then FirstError(r, wire, pass, 0) else FirstOf(r, wire, passes))
  {
    assert ([pass] + passes)[1..] == passes;
  }

  /** Where a view is allowed, its check of the bytes ends exactly as the owned decode's does. */
  lemma VerifyIsDecode<S>(r: Record<S>, wire: seq<Byte>)
    requires r.Accepted() && |wire| == r.Size() && Viewable(r)
    ensures FirstOf(r, wire, VERIFY_CHECKS) == FirstOf(r, wire, DECODE_CHECKS)
  {
    hide Record.Accepted, FirstError;
    forall i | 0 <= i < |r.fields| ensures ErrorAt(r, wire, Flags, i).None? && ErrorAt(r, wire, Ranges, i).None? {
    }
    ChecksInTurn(r, wire);
  }

  function OneFlag(): Record<int> {
    Record(Le, [Field("on", 1, Flag, None, Unstamped)])
  }

  /** A strict `bool` is refused a view because `verify` would pass what `decode` refuses. */
  lemma WhyStrictBoolsHaveNoView()
    ensures var r, wire := OneFlag(), [[false, true] + Zeros(6)];
      && r.Accepted() && |wire| == r.Size()
      && FirstOf(r, wire, VERIFY_CHECKS).None? && Decoded(r, wire) == Err(Malformed(0))
  {
    var r, wire := OneFlag(), [[false, true] + Zeros(6)];
    assert r.fields[0].Formed();
    assert r.At(1) == 1 && Bytes(r, wire, 0) == wire;
    SmallByte(wire[0]);
    assert !([wire[0][0]] + Zeros(7))[1] && wire[0][1];
    assert ErrorAt(r, wire, Flags, 0) == Some(Malformed(0));
    ChecksInTurn(r, wire);
  }
}
