/** What a `bits = N` layout's generated `encode` and `decode` mean, and the three forms they are compiled to. */
module Emit {
  import opened Words
  import opened Access
  import opened Containers

  /** How a field's bits are read. A `bool` is a one-bit codec. */
  datatype Reading<!V> = Unsigned(prim: nat) | Signed(prim: nat) | Coded(from: U64 -> V, to: V -> U64)

  /** A field's value: a number as the bits of its own type, or what a codec holds. */
  datatype Value<+V> = Number(bits: Bits) | Held(held: V)

  /** A field's place, its reading, and the values its `#[range]` allows, both ends included. */
  datatype Field<!V> = Field(start: nat, width: nat, reading: Reading<V>, range: Option<(int, int)>) {
    /** What parsing leaves: no field is wider than its type, only a `u128` is wider than 64 bits, and a range is on
        an integer an `i64` is read from. */
    predicate Ok() {
      && width >= 1
      && match reading
         case Unsigned(prim) => prim in {8, 16, 32, 64, 128} && width <= prim && (range.Some? ==> prim <= 64)
         case Signed(prim) => prim in {8, 16, 32, 64} && width <= prim
         case Coded(_, _) => width <= 64 && range.None?
    }

    function End(): nat {
      start + width
    }

    predicate Has(bit: nat) {
      start <= bit < End()
    }

    predicate Wide() {
      reading.Unsigned? && (reading.prim > 64 || width > 64)
    }

    predicate Typed(value: Value<V>) {
      match reading
      case Unsigned(prim) => value.Number? && |value.bits| == prim
      case Signed(prim) => value.Number? && |value.bits| == prim
      case Coded(_, _) => value.Held?
    }
  }

  // ---------------------------------------------------------------- one field

  /** `encode_raw`: the value as a word of `size` bits. */
  function EncodeRaw<V>(f: Field<V>, value: Value<V>, size: nat): (raw: Bits)
    requires f.Ok() && f.Typed(value)
    ensures |raw| == size
  {
    match f.reading
    case Unsigned(_) => Resize(value.bits, size)
    case Signed(_) => SignExtend(value.bits, size)
    case Coded(_, to) => Resize(to(value.held), size)
  }

  /** `sign_extend`, up to 64 bits. */
  function SignExtended(raw: Bits, width: nat): (r: U64)
    requires 1 <= width <= 64
  {
    Sar(Shl(Resize(raw, 64), 64 - width), 64 - width)
  }

  /** `decode_value`, from a masked word. */
  function DecodeValue<V>(f: Field<V>, raw: Bits): (value: Value<V>)
    requires f.Ok()
    ensures f.Typed(value)
  {
    match f.reading
    case Unsigned(prim) => Number(Resize(raw, prim))
    case Signed(prim) => Number(Resize(SignExtended(raw, f.width), prim))
    case Coded(from, _) => Held(from(Resize(raw, 64)))
  }

  /** `fits_check`: whether the value passes the guard of its width. */
  predicate Fitting<V>(f: Field<V>, value: Value<V>)
    requires f.Ok() && f.Typed(value)
  {
    match f.reading
    case Unsigned(prim) =>
      f.width < prim ==>
        var n := if prim > 64 then 128 else 64;
        Shr(Resize(value.bits, n), f.width) == Zeros(n)
    case Signed(_) =>
      f.width < 64 ==>
        var v, half: int := Int(SignExtend(value.bits, 64)), Pow2(f.width - 1);
        -half <= v <= half - 1
    case Coded(_, to) =>
      f.width < 64 ==> Shr(to(value.held), f.width) == Zeros(64)
  }

  /** The integer a ranged field's value is compared as. */
  function Carried<V>(f: Field<V>, value: Value<V>): int
    requires f.Ok() && f.Typed(value) && f.range.Some?
  {
    ToI64(f.reading.Signed?, value.bits)
  }

  /** Whether a value is in its field's range, if it has one. */
  predicate Ranged<V>(f: Field<V>, value: Value<V>)
    requires f.Ok() && f.Typed(value)
  {
    f.range.Some? ==> InBounds(Carried(f, value), f.range.value)
  }

  /** The bits a value puts in its field. */
  function FieldOf<V>(f: Field<V>, value: Value<V>): (bits: Bits)
    requires f.Ok() && f.Typed(value)
    ensures |bits| == f.width
  {
    match f.reading
    case Unsigned(_) => value.bits[..f.width]
    case Signed(_) => value.bits[..f.width]
    case Coded(_, to) => to(value.held)[..f.width]
  }

  /** The value a field's bits mean. */
  function Meaning<V>(f: Field<V>, bits: Bits): (value: Value<V>)
    requires f.Ok() && |bits| == f.width
    ensures f.Typed(value)
  {
    match f.reading
    case Unsigned(prim) => Number(Resize(bits, prim))
    case Signed(prim) => Number(SignExtend(bits, prim))
    case Coded(from, _) => Held(from(Resize(bits, 64)))
  }

  /** A codec value that its own raw bits decode to. */
  predicate Canonical<V(==)>(f: Field<V>, value: Value<V>)
    requires f.Typed(value)
  {
    f.reading.Coded? ==> f.reading.from(f.reading.to(value.held)) == value.held
  }

  /** Whether the codec gives back the raw bits it was handed: all of them, or, where encode cuts what does not fit,
      those of the field. */
  predicate Returned<V>(f: Field<V>, bits: Bits, truncate: bool)
    requires f.Ok() && |bits| == f.width
  {
    f.reading.Coded? ==>
      var raw := f.reading.to(f.reading.from(Resize(bits, 64)));
      if truncate then raw[..f.width] == bits else raw == Resize(bits, 64)
  }

  /** Of what the compiled code handles, only the field's own bits matter. */
  lemma RawHoldsTheField<V>(f: Field<V>, value: Value<V>, size: nat)
    requires f.Ok() && f.Typed(value) && f.width <= size
    ensures EncodeRaw(f, value, size)[..f.width] == FieldOf(f, value)
  {
  }

  lemma DecodeValueMeans<V>(f: Field<V>, bits: Bits, size: nat)
    requires f.Ok() && |bits| == f.width <= size
    ensures DecodeValue(f, Resize(bits, size)) == Meaning(f, bits)
  {
    match f.reading {
      case Unsigned(prim) =>
        assert Resize(Resize(bits, size), prim) == Resize(bits, prim);
      case Signed(prim) =>
        SignExtendedMeans(bits, size, prim);
      case Coded(_, _) =>
        assert Resize(Resize(bits, size), 64) == Resize(bits, 64);
    }
  }

  /** Shifting a field to the top of an `i64` and back fills in its sign. */
  lemma SignExtendedMeans(bits: Bits, size: nat, prim: nat)
    requires 1 <= |bits| <= prim <= 64 && |bits| <= size
    ensures Resize(SignExtended(Resize(bits, size), |bits|), prim) == SignExtend(bits, prim)
  {
    var k := 64 - |bits|;
    var high := Shl(Resize(Resize(bits, size), 64), k);
    forall i | 0 <= i < 64 ensures Sar(high, k)[i] == SignExtend(bits, 64)[i] {
      if i < |bits| {
        assert high[i + k] == bits[i];
      } else {
        assert high[63] == bits[|bits| - 1];
      }
    }
  }

  /** A value that passes its guard survives its field exactly when it is canonical. */
  lemma FittingSurvives<V>(f: Field<V>, value: Value<V>)
    requires f.Ok() && f.Typed(value) && Fitting(f, value)
    ensures Meaning(f, FieldOf(f, value)) == value <==> Canonical(f, value)
  {
    match f.reading {
      case Unsigned(prim) =>
        if f.width < prim {
          UnsignedSurvives(value.bits, f.width, if prim > 64 then 128 else 64);
        }
        assert f.width == prim ==> value.bits[..f.width] == value.bits && Resize(value.bits, prim) == value.bits;
      case Signed(prim) =>
        SignedSurvives(value.bits, f.width);
      case Coded(_, to) =>
        if f.width < 64 {
          ShrOfZeros(to(value.held), f.width);
        }
        assert Resize(to(value.held)[..f.width], 64) == to(value.held);
    }
  }

  lemma ShrOfZeros(w: Bits, k: nat)
    ensures Shr(w, k) == Zeros(|w|) <==> forall i :: k <= i < |w| ==> !w[i]
  {
    if Shr(w, k) == Zeros(|w|) {
      forall i | k <= i < |w| ensures !w[i] {
        assert !Shr(w, k)[i - k];
      }
    }
  }

  lemma UnsignedSurvives(bits: Bits, width: nat, n: nat)
    requires width <= |bits| <= n && Shr(Resize(bits, n), width) == Zeros(n)
    ensures Resize(bits[..width], |bits|) == bits
  {
    var w := Resize(bits, n);
    ShrOfZeros(w, width);
    forall i | width <= i < |bits| ensures !bits[i] {
      assert !w[i];
    }
  }

  lemma SignedSurvives(bits: Bits, width: nat)
    requires 1 <= width <= |bits| <= 64
    requires width < 64 ==> InRange(Int(SignExtend(bits, 64)), width)
    ensures SignExtend(bits[..width], |bits|) == bits
  {
    hide Int, InRange;
    var w := SignExtend(bits, 64);
    if width < 64 {
      FitsSigned(w, width);
      forall i | width <= i < |bits| ensures bits[i] == bits[width - 1] {
        assert w[i] == w[width - 1];
      }
    }
  }

  /** Decoding a field gives a value that passes its guard, where there is one, and encodes to the same bits, exactly
      when its codec returns them. */
  lemma MeaningEncodes<V>(f: Field<V>, bits: Bits, truncate: bool)
    requires f.Ok() && |bits| == f.width
    ensures var value := Meaning(f, bits);
      (truncate || Fitting(f, value)) && FieldOf(f, value) == bits <==> Returned(f, bits, truncate)
  {
    var value := Meaning(f, bits);
    match f.reading {
      case Unsigned(prim) =>
        ShrOfZeros(Resize(value.bits, if prim > 64 then 128 else 64), f.width);
        assert value.bits[..f.width] == bits;
      case Signed(prim) =>
        MeaningIsInRange(bits, prim);
        assert value.bits[..f.width] == bits;
      case Coded(from, to) =>
        RawIsReturned(to(from(Resize(bits, 64))), bits);
    }
  }

  lemma RawIsReturned(raw: U64, bits: Bits)
    requires 1 <= |bits| <= 64
    ensures raw == Resize(bits, 64) <==>
      (|bits| < 64 ==> Shr(raw, |bits|) == Zeros(64)) && raw[..|bits|] == bits
  {
    ShrOfZeros(raw, |bits|);
    if raw == Resize(bits, 64) {
      assert raw[..|bits|] == bits;
    }
    if (forall i :: |bits| <= i < 64 ==> !raw[i]) && raw[..|bits|] == bits {
      forall i | 0 <= i < 64 ensures raw[i] == Resize(bits, 64)[i] {
        assert i < |bits| ==> raw[i] == raw[..|bits|][i];
      }
    }
  }

  lemma MeaningIsInRange(bits: Bits, prim: nat)
    requires 1 <= |bits| <= prim <= 64
    ensures InRange(Int(SignExtend(SignExtend(bits, prim), 64)), |bits|)
  {
    hide Int, InRange;
    FitsSigned(SignExtend(SignExtend(bits, prim), 64), |bits|);
  }

  /** A numeric field that keeps only a value's low bits loses it exactly when the guard would have refused it. */
  lemma NumbersSurviveExactlyWhenFitting<V>(f: Field<V>, value: Value<V>)
    requires f.Ok() && f.Typed(value) && !f.reading.Coded?
    ensures Meaning(f, FieldOf(f, value)) == value <==> Fitting(f, value)
  {
    if Fitting(f, value) {
      FittingSurvives(f, value);
    } else {
      MeaningEncodes(f, FieldOf(f, value), false);
    }
  }

  // ---------------------------------------------------------------- a layout

  /** A solved layout of `bytes` bytes. `prefixValue` is what encode writes in the prefix, and decode insists on. */
  datatype Plan<!V> = Plan(
    bytes: nat, endian: Endian, fields: seq<Field<V>>, prefixAt: nat, prefix: nat, prefixValue: Option<Bits>,
    truncate: bool)
  {
    predicate Ok() {
      && bytes >= 1
      && prefixAt + prefix <= 8 * bytes
      && (prefixValue.Some? ==> |prefixValue.value| == prefix && PrefixFits())
      && (forall i :: 0 <= i < |fields| ==> fields[i].Ok() && Inside(fields[i]))
      && Apart()
    }

    /** A valued prefix is in one window. */
    predicate PrefixFits() {
      1 <= prefix && prefixAt % 8 + prefix <= 128
    }

    predicate Inside(f: Field<V>) {
      f.End() <= 8 * bytes && (f.End() <= prefixAt || prefixAt + prefix <= f.start)
    }

    predicate Apart() {
      forall i, j :: 0 <= i < j < |fields| ==> Beside(fields[i], fields[j])
    }

    predicate Owned(bit: nat) {
      prefixAt <= bit < prefixAt + prefix || InFields(bit)
    }

    predicate InFields(bit: nat) {
      exists i :: 0 <= i < |fields| && fields[i].Has(bit)
    }

    /** Every bit is the prefix's or a field's. */
    predicate Full() {
      forall bit: nat :: bit < 8 * bytes ==> Owned(bit)
    }

    predicate Typed(values: seq<Value<V>>) {
      |values| == |fields| && forall i :: 0 <= i < |fields| ==> fields[i].Typed(values[i])
    }

    /** Whether field `i` passes its guard. A `truncate` layout has none. */
    predicate Passes(values: seq<Value<V>>, i: nat)
      requires Ok() && Typed(values) && i < |fields|
    {
      truncate || Fitting(fields[i], values[i])
    }

    /** The part of the container a field has. */
    function Slice(c: Bits, i: nat): (bits: Bits)
      requires Ok() && |c| == 8 * bytes && i < |fields|
      ensures |bits| == fields[i].width
    {
      c[fields[i].start..fields[i].End()]
    }
  }

  predicate Beside<V>(f: Field<V>, g: Field<V>) {
    f.End() <= g.start || g.End() <= f.start
  }

  /** The container before any field: the prefix alone, or nothing. */
  function Base<V>(p: Plan<V>): (c: Bits)
    requires p.Ok()
    ensures |c| == 8 * p.bytes
  {
    if p.prefixValue.Some? then Replaced(Zeros(8 * p.bytes), p.prefixAt, p.prefixValue.value) else Zeros(8 * p.bytes)
  }

  /** `c` with the first `n` fields put in their places. */
  function Composed<V>(p: Plan<V>, values: seq<Value<V>>, c: Bits, n: nat): (r: Bits)
    requires p.Ok() && p.Typed(values) && |c| == 8 * p.bytes && n <= |p.fields|
    ensures |r| == |c|
  {
    if n == 0 then c
    else
      Replaced(Composed(p, values, c, n - 1), p.fields[n - 1].start, FieldOf(p.fields[n - 1], values[n - 1]))
  }

  /** What stops an encode: a value outside its range, or one too wide for its field. */
  datatype Panic = Outside(field: nat) | TooWide(field: nat)

  datatype DecodeError = Prefix(expected: Bits, got: Bits) | OutOfRange(field: nat, value: int)

  /** `encode`: the container with every field in its place. The ranges are guarded before anything is written, each
      width as its field is. */
  function Encoded<V>(p: Plan<V>, values: seq<Value<V>>): (r: Result<seq<Byte>, Panic>)
    requires p.Ok() && p.Typed(values)
  {
    match FirstOutside(p, values, 0)
    case Some(i) => Err(Outside(i))
    case None =>
      match FirstStopped(p, values, 0)
      case Some(i) => Err(TooWide(i))
      case None => Ok(WireBytes(Composed(p, values, Base(p), |p.fields|), p.endian))
  }

  predicate RangedBetween<V>(p: Plan<V>, values: seq<Value<V>>, from: nat, to: nat)
    requires p.Ok() && p.Typed(values) && to <= |p.fields|
  {
    forall i :: from <= i < to ==> RangedAt(p, values, i)
  }

  predicate RangedAt<V>(p: Plan<V>, values: seq<Value<V>>, i: nat)
    requires p.Ok() && p.Typed(values) && i < |p.fields|
  {
    Ranged(p.fields[i], values[i])
  }

  function FirstOutside<V>(p: Plan<V>, values: seq<Value<V>>, from: nat): (r: Option<nat>)
    requires p.Ok() && p.Typed(values) && from <= |p.fields|
    ensures r.Some? ==> from <= r.value < |p.fields| && !RangedAt(p, values, r.value)
    ensures RangedBetween(p, values, from, if r.Some? then r.value else |p.fields|)
    decreases |p.fields| - from
  {
    if from == |p.fields| then None
    else if !RangedAt(p, values, from) then Some(from)
    else FirstOutside(p, values, from + 1)
  }

  function FirstStopped<V>(p: Plan<V>, values: seq<Value<V>>, from: nat): (r: Option<nat>)
    requires p.Ok() && p.Typed(values) && from <= |p.fields|
    ensures r.Some? ==> from <= r.value < |p.fields| && !p.Passes(values, r.value)
    ensures forall i :: from <= i < (if r.Some? then r.value else |p.fields|) ==> p.Passes(values, i)
    decreases |p.fields| - from
  {
    if from == |p.fields| then None
    else if !p.Passes(values, from) then Some(from)
    else FirstStopped(p, values, from + 1)
  }

  /** The meaning of every field's part of the container. */
  function Meanings<V>(p: Plan<V>, c: Bits): (values: seq<Value<V>>)
    requires p.Ok() && |c| == 8 * p.bytes
    ensures p.Typed(values)
  {
    seq(|p.fields|, i requires 0 <= i < |p.fields| => Meaning(p.fields[i], p.Slice(c, i)))
  }

  /** Fields read from a wire, once their ranges are checked. */
  function Checked<V>(p: Plan<V>, values: seq<Value<V>>): (r: Result<seq<Value<V>>, DecodeError>)
    requires p.Ok() && p.Typed(values)
    ensures r.Ok? ==> r.value == values
  {
    match FirstOutside(p, values, 0)
    case Some(i) => Err(OutOfRange(i, Carried(p.fields[i], values[i])))
    case None => Ok(values)
  }

  /** `decode`: the prefix checked, then the ranges, and the fields built. */
  function Decoded<V>(p: Plan<V>, wire: seq<Byte>): (r: Result<seq<Value<V>>, DecodeError>)
    requires p.Ok() && |wire| == p.bytes
    ensures r.Ok? ==> p.Typed(r.value)
  {
    var c := Whole(wire, p.endian);
    if PrefixPasses(p, c) then Checked(p, Meanings(p, c)) else Err(Prefix(Expected(p), Got(p, c)))
  }

  // ---------------------------------------------------------------- the check of the prefix

  /** What the check expects: the low 64 bits of the prefix's value. */
  function Expected<V>(p: Plan<V>): U64
    requires p.prefixValue.Some?
  {
    Resize(p.prefixValue.value, 64)
  }

  /** The mask of the check is a `u64` shifted by the prefix's width, which counts modulo 64. */
  function PrefixMask(prefix: nat): U64 {
    LowMask(prefix % 64, 64)
  }

  function PrefixBits<V>(p: Plan<V>, c: Bits): (bits: Bits)
    requires p.Ok() && |c| == 8 * p.bytes
    ensures |bits| == p.prefix
  {
    c[p.prefixAt..p.prefixAt + p.prefix]
  }

  /** What the check reads. */
  function Got<V>(p: Plan<V>, c: Bits): U64
    requires p.Ok() && |c| == 8 * p.bytes
  {
    And(Resize(PrefixBits(p, c), 64), PrefixMask(p.prefix))
  }

  predicate PrefixPasses<V>(p: Plan<V>, c: Bits)
    requires p.Ok() && |c| == 8 * p.bytes
  {
    p.prefixValue.Some? ==> Got(p, c) == Expected(p)
  }

  /** What encode writes in the prefix. */
  function PrefixWritten<V>(p: Plan<V>): (bits: Bits)
    requires p.Ok()
    ensures |bits| == p.prefix
  {
    if p.prefixValue.Some? then p.prefixValue.value else Zeros(p.prefix)
  }

  predicate PrefixHolds<V>(p: Plan<V>, c: Bits)
    requires p.Ok() && |c| == 8 * p.bytes
  {
    PrefixBits(p, c) == PrefixWritten(p)
  }

  /** Whether the check can pass at all: a prefix of 64 bits or more is masked by its width modulo 64, and the rest of
      the 64 bits compared must be zero. */
  predicate Readable<V>(p: Plan<V>)
    requires p.Ok()
  {
    p.prefixValue.Some? && p.prefix >= 64 ==> forall i :: p.prefix % 64 <= i < 64 ==> !p.prefixValue.value[i]
  }

  /** The check is of the whole prefix when that is below 64 bits. A wider one is compared in its lowest bits only, as
      many as its width has modulo 64, and passes on what encode writes exactly when it is readable. */
  lemma PrefixPassesWhen<V>(p: Plan<V>, c: Bits)
    requires p.Ok() && |c| == 8 * p.bytes && p.prefixValue.Some?
    ensures p.prefix < 64 ==> Readable(p) && (PrefixPasses(p, c) <==> PrefixHolds(p, c))
    ensures var low := p.prefix % 64;
      p.prefix >= 64 ==> (PrefixPasses(p, c) <==> Readable(p) && PrefixBits(p, c)[..low] == p.prefixValue.value[..low])
    ensures PrefixHolds(p, c) ==> (PrefixPasses(p, c) <==> Readable(p))
  {
    hide PrefixBits;
    LowBitsCompared(PrefixBits(p, c), p.prefixValue.value);
  }

  lemma LowBitsCompared(bits: Bits, value: Bits)
    requires |bits| == |value|
    ensures And(Resize(bits, 64), PrefixMask(|bits|)) == Resize(value, 64) <==>
      if |bits| < 64 then bits == value
      else bits[..|bits| % 64] == value[..|bits| % 64] && forall i :: |bits| % 64 <= i < 64 ==> !value[i]
  {
    var low, got, want := |bits| % 64, And(Resize(bits, 64), PrefixMask(|bits|)), Resize(value, 64);
    if got == want {
      forall i | 0 <= i < low ensures bits[..low][i] == value[..low][i] {
        assert got[i] == want[i];
      }
      forall i | low <= i < 64 && i < |bits| ensures !value[i] {
        assert got[i] == want[i];
      }
      assert |bits| < 64 ==> bits[..low] == bits && value[..low] == value;
    } else {
      var i :| 0 <= i < 64 && got[i] != want[i];
      assert i < low ==> bits[..low][i] == bits[i] && value[..low][i] == value[i];
    }
  }

  /** A layout whose prefix is not readable decodes nothing, its own encode's wires least of all. */
  lemma UnreadablePrefixesNeverDecode<V>(p: Plan<V>, wire: seq<Byte>)
    requires p.Ok() && |wire| == p.bytes && !Readable(p)
    ensures Decoded(p, wire) == Err(Prefix(Expected(p), Got(p, Whole(wire, p.endian))))
  {
    hide PrefixPasses, Whole;
    PrefixPassesWhen(p, Whole(wire, p.endian));
  }

  // ---------------------------------------------------------------- what the guards let through

  /** The number a numeric value is. */
  function Quantity<V>(f: Field<V>, value: Value<V>): int
    requires f.Ok() && f.Typed(value) && !f.reading.Coded?
  {
    Words.Quantity(f.reading.Signed?, value.bits)
  }

  /** The number a ranged field's value is lies between the range's ends. */
  predicate WithinRange<V>(f: Field<V>, value: Value<V>)
    requires f.Ok() && f.Typed(value)
  {
    f.range.Some? ==> f.range.value.0 <= Saturated(Quantity(f, value)) <= f.range.value.1
  }

  /** The value, or a codec's raw bits, is a number of the field's width. */
  predicate WithinWidth<V>(f: Field<V>, value: Value<V>)
    requires f.Ok() && f.Typed(value)
  {
    match f.reading
    case Unsigned(_) => Nat(value.bits) < Pow2(f.width)
    case Signed(_) => -(Pow2(f.width - 1) as int) <= Int(value.bits) < Pow2(f.width - 1)
    case Coded(_, to) => Nat(to(value.held)) < Pow2(f.width)
  }

  lemma RangedMeans<V>(f: Field<V>, value: Value<V>)
    requires f.Ok() && f.Typed(value)
    ensures Ranged(f, value) <==> WithinRange(f, value)
    ensures f.range.Some? ==> Carried(f, value) == Saturated(Quantity(f, value))
  {
    if f.range.Some? {
      hide Nat, Int, Pow2;
      ToI64Means(f.reading.Signed?, value.bits);
    }
  }

  /** The guard of a width is that the value is a number of that width. */
  lemma FittingMeans<V>(f: Field<V>, value: Value<V>)
    requires f.Ok() && f.Typed(value)
    ensures Fitting(f, value) <==> WithinWidth(f, value)
  {
    hide Nat, Pow2, Int;
    match f.reading {
      case Unsigned(prim) =>
        var n := if prim > 64 then 128 else 64;
        ShrOfZeros(Resize(value.bits, n), f.width);
        NatResize(value.bits, n);
        NatBelow(Resize(value.bits, n), f.width);
        NatBound(value.bits);
      case Signed(prim) =>
        SignExtendKeeps(value.bits, 64);
        SignedBound(value.bits);
      case Coded(_, to) =>
        ShrOfZeros(to(value.held), f.width);
        NatBelow(to(value.held), f.width);
        NatBound(to(value.held));
    }
  }

  /** A field's bits mean the number they are. */
  lemma MeaningIsTheNumber<V>(f: Field<V>, bits: Bits)
    requires f.Ok() && |bits| == f.width && !f.reading.Coded?
    ensures Quantity(f, Meaning(f, bits)) == if f.reading.Signed? then Int(bits) else Nat(bits)
  {
    if f.reading.Signed? {
      SignExtendKeeps(bits, f.reading.prim);
    } else {
      NatResize(bits, f.reading.prim);
    }
  }

  /** The first `n` fields are in their ranges. */
  predicate RangesHold<V>(p: Plan<V>, values: seq<Value<V>>, n: nat)
    requires p.Ok() && p.Typed(values) && n <= |p.fields|
  {
    forall i :: 0 <= i < n ==> WithinRange(p.fields[i], values[i])
  }

  /** The first `n` fields fit their widths, or the layout truncates. */
  predicate WidthsHold<V>(p: Plan<V>, values: seq<Value<V>>, n: nat)
    requires p.Ok() && p.Typed(values) && n <= |p.fields|
  {
    p.truncate || forall i :: 0 <= i < n ==> WithinWidth(p.fields[i], values[i])
  }

  /** Encode stops at the first value outside its range, whatever the widths; with all of them inside, at the first too
      wide for its field; and otherwise succeeds. */
  lemma EncodeRefusesExactly<V>(p: Plan<V>, values: seq<Value<V>>)
    requires p.Ok() && p.Typed(values)
    ensures var n := |p.fields|;
      Encoded(p, values).Ok? <==> RangesHold(p, values, n) && WidthsHold(p, values, n)
    ensures forall i: nat :: Encoded(p, values) == Err(Outside(i)) <==>
      i < |p.fields| && RangesHold(p, values, i) && !WithinRange(p.fields[i], values[i])
    ensures forall i: nat :: Encoded(p, values) == Err(TooWide(i)) <==>
      && RangesHold(p, values, |p.fields|)
      && i < |p.fields| && WidthsHold(p, values, i) && !p.truncate && !WithinWidth(p.fields[i], values[i])
  {
    hide Ranged, Fitting, WithinRange, WithinWidth, Composed, WireBytes;
    forall i | 0 <= i < |p.fields|
      ensures RangedAt(p, values, i) <==> WithinRange(p.fields[i], values[i])
      ensures p.Passes(values, i) <==> p.truncate || WithinWidth(p.fields[i], values[i])
    {
      RangedMeans(p.fields[i], values[i]);
      FittingMeans(p.fields[i], values[i]);
    }
  }

  /** A decode whose prefix passes gives the fields' meanings, unless one is outside its range: then the first of those,
      with its number. */
  lemma DecodeRefusesExactly<V>(p: Plan<V>, wire: seq<Byte>)
    requires p.Ok() && |wire| == p.bytes
    ensures var c := Whole(wire, p.endian);
      var values, passes := Meanings(p, c), PrefixPasses(p, c);
      && (Decoded(p, wire).Ok? <==> passes && RangesHold(p, values, |p.fields|))
      && (Decoded(p, wire).Ok? ==> Decoded(p, wire).value == values)
      && forall i: nat, q: int :: Decoded(p, wire) == Err(OutOfRange(i, q)) <==>
           && passes && i < |p.fields| && RangesHold(p, values, i) && !WithinRange(p.fields[i], values[i])
           && q == Saturated(Quantity(p.fields[i], values[i]))
  {
    hide Ranged, WithinRange, Carried, Quantity, Saturated, PrefixPasses, Whole, Meanings;
    var values := Meanings(p, Whole(wire, p.endian));
    forall i | 0 <= i < |p.fields|
      ensures RangedAt(p, values, i) <==> WithinRange(p.fields[i], values[i])
      ensures p.fields[i].range.Some? ==>
        Carried(p.fields[i], values[i]) == Saturated(Quantity(p.fields[i], values[i]))
    {
      RangedMeans(p.fields[i], values[i]);
    }
    assert forall i :: 0 <= i < |p.fields| && p.fields[i].range.None? ==> WithinRange(p.fields[i], values[i]) by {
      UnrangedHolds(p, values);
    }
  }

  lemma UnrangedHolds<V>(p: Plan<V>, values: seq<Value<V>>)
    requires p.Ok() && p.Typed(values)
    ensures forall i :: 0 <= i < |p.fields| && p.fields[i].range.None? ==> WithinRange(p.fields[i], values[i])
  {
  }

  // ---------------------------------------------------------------- where the bits of a container come from

  /** The first `n` fields hold their values. */
  lemma {:induction false} ComposedHolds<V>(p: Plan<V>, values: seq<Value<V>>, c: Bits, n: nat)
    requires p.Ok() && p.Typed(values) && |c| == 8 * p.bytes && n <= |p.fields|
    ensures forall i :: 0 <= i < n ==> p.Slice(Composed(p, values, c, n), i) == FieldOf(p.fields[i], values[i])
  {
    hide FieldOf, Composed, Plan.Slice, Plan.Inside, Plan.Apart, Field.Typed, Field.End;
    if n == 0 {
    } else {
      ComposedHolds(p, values, c, n - 1);
      forall i | 0 <= i < n
        ensures p.Slice(Composed(p, values, c, n), i) == FieldOf(p.fields[i], values[i])
      {
        ComposedStep(p, values, c, n, i);
      }
    }
  }

  lemma ComposedStep<V>(p: Plan<V>, values: seq<Value<V>>, c: Bits, n: nat, i: nat)
    requires p.Ok() && p.Typed(values) && |c| == 8 * p.bytes && i < n <= |p.fields|
    ensures p.Slice(Composed(p, values, c, n), i)
         == if i < n - 1 then p.Slice(Composed(p, values, c, n - 1), i) else FieldOf(p.fields[i], values[i])
  {
    var f, before := p.fields[n - 1], Composed(p, values, c, n - 1);
    hide FieldOf, Replaced, Field.Ok;
    assert p.Inside(p.fields[i]) && p.Inside(f);
    if i < n - 1 {
      assert Beside(p.fields[i], f);
      BesideReplaced(before, f.start, FieldOf(f, values[n - 1]), p.fields[i].start, p.fields[i].End());
    } else {
      ReplacedSlice(before, f.start, FieldOf(f, values[n - 1]));
    }
  }

  /** The first `n` fields leave a bit that none of them has. */
  lemma {:induction false} ComposedKeeps<V>(p: Plan<V>, values: seq<Value<V>>, c: Bits, n: nat, bit: nat)
    requires p.Ok() && p.Typed(values) && |c| == 8 * p.bytes && n <= |p.fields| && bit < |c|
    requires forall i :: 0 <= i < n ==> !p.fields[i].Has(bit)
    ensures Composed(p, values, c, n)[bit] == c[bit]
  {
    if n == 0 {
    } else {
      hide FieldOf;
      ComposedKeeps(p, values, c, n - 1, bit);
      assert !p.fields[n - 1].Has(bit);
    }
  }

  lemma BesideReplaced(c: Bits, at: nat, field: Bits, from: nat, to: nat)
    requires at + |field| <= |c| && from <= to <= |c| && (to <= at || at + |field| <= from)
    ensures Replaced(c, at, field)[from..to] == c[from..to]
  {
  }

  lemma OutsideReplaced(c: Bits, at: nat, field: Bits, bit: nat)
    requires at + |field| <= |c| && bit < |c| && !(at <= bit < at + |field|)
    ensures Replaced(c, at, field)[bit] == c[bit]
  {
  }

  lemma ReplacedSlice(c: Bits, at: nat, field: Bits)
    requires at + |field| <= |c|
    ensures Replaced(c, at, field)[at..at + |field|] == field
  {
  }

  lemma ReplacedCommutes(c: Bits, at: nat, a: Bits, to: nat, b: Bits)
    requires at + |a| <= |c| && to + |b| <= |c| && (at + |a| <= to || to + |b| <= at)
    ensures Replaced(Replaced(c, at, a), to, b) == Replaced(Replaced(c, to, b), at, a)
  {
  }

  /** The prefix may as well be written last. */
  lemma {:induction false} PrefixLast<V>(p: Plan<V>, values: seq<Value<V>>, c: Bits, prefix: Bits, n: nat)
    requires p.Ok() && p.Typed(values) && |c| == 8 * p.bytes && n <= |p.fields| && |prefix| == p.prefix
    ensures Composed(p, values, Replaced(c, p.prefixAt, prefix), n)
         == Replaced(Composed(p, values, c, n), p.prefixAt, prefix)
  {
    if n == 0 {
    } else {
      hide FieldOf, Replaced;
      PrefixLast(p, values, c, prefix, n - 1);
      assert p.Inside(p.fields[n - 1]);
      ReplacedCommutes(Composed(p, values, c, n - 1), p.prefixAt, prefix, p.fields[n - 1].start,
                       FieldOf(p.fields[n - 1], values[n - 1]));
    }
  }

  /** Before field `n` is put in its place, there is nothing there. */
  lemma NothingThereYet<V>(p: Plan<V>, values: seq<Value<V>>, n: nat)
    requires p.Ok() && p.Typed(values) && n < |p.fields|
    ensures p.fields[n].End() <= 8 * p.bytes
    ensures forall bit :: p.fields[n].start <= bit < p.fields[n].End() ==> !Composed(p, values, Base(p), n)[bit]
  {
    assert p.Inside(p.fields[n]);
    hide Composed;
    forall bit | p.fields[n].start <= bit < p.fields[n].End() ensures !Composed(p, values, Base(p), n)[bit] {
      forall i | 0 <= i < n ensures !p.fields[i].Has(bit) {
        assert Beside(p.fields[i], p.fields[n]);
      }
      ComposedKeeps(p, values, Base(p), n, bit);
      assert !Base(p)[bit];
    }
  }

  // ---------------------------------------------------------------- round trips

  predicate AllFitting<V>(p: Plan<V>, values: seq<Value<V>>)
    requires p.Ok() && p.Typed(values)
  {
    forall i :: 0 <= i < |p.fields| ==> Fitting(p.fields[i], values[i])
  }

  predicate AllCanonical<V(==)>(p: Plan<V>, values: seq<Value<V>>)
    requires p.Ok() && p.Typed(values)
  {
    forall i :: 0 <= i < |p.fields| ==> Canonical(p.fields[i], values[i])
  }

  predicate AllRanged<V>(p: Plan<V>, values: seq<Value<V>>)
    requires p.Ok() && p.Typed(values)
  {
    forall i :: 0 <= i < |p.fields| ==> Ranged(p.fields[i], values[i])
  }

  /** For values in their ranges and widths encode succeeds, its wire decodes exactly when the prefix is readable, and
      `decode(encode(v)) == v` holds exactly when, besides, every codec value is one its own raw bits decode to. */
  lemma EncodedDecodes<V>(p: Plan<V>, values: seq<Value<V>>)
    requires p.Ok() && p.Typed(values) && AllFitting(p, values) && AllRanged(p, values)
    ensures Encoded(p, values).Ok? && |Encoded(p, values).value| == p.bytes
    ensures Decoded(p, Encoded(p, values).value).Ok? <==> Readable(p)
    ensures Decoded(p, Encoded(p, values).value) == Ok(values) <==> Readable(p) && AllCanonical(p, values)
  {
    hide PrefixPasses, PrefixHolds, Readable, PrefixBits, Fitting, FieldOf, Meaning, Canonical, Composed, Replaced;
    hide Whole, WireBytes, Plan.Slice, Ranged;
    var n := |p.fields|;
    var c := Composed(p, values, Base(p), n);
    var wire, back := Encoded(p, values).value, Meanings(p, c);
    WireBytesLoad(c, p.endian);
    ComposedHolds(p, values, Base(p), n);
    PrefixStays(p, values);
    if p.prefixValue.Some? {
      PrefixPassesWhen(p, c);
    } else {
      UnvaluedPasses(p, c);
    }
    forall i | 0 <= i < n
      ensures back[i] == values[i] <==> Canonical(p.fields[i], values[i])
      ensures Ranged(p.fields[i], back[i])
    {
      FittingSurvives(p.fields[i], values[i]);
      OnlyNumbersAreRanged(p.fields[i], back[i], values[i]);
    }
    if AllCanonical(p, values) {
      assert back == values;
    }
  }

  lemma OnlyNumbersAreRanged<V>(f: Field<V>, back: Value<V>, value: Value<V>)
    requires f.Ok() && f.Typed(back) && f.Typed(value) && Ranged(f, value)
    ensures (Canonical(f, value) ==> back == value) ==> Ranged(f, back)
  {
  }

  lemma PrefixStays<V>(p: Plan<V>, values: seq<Value<V>>)
    requires p.Ok() && p.Typed(values)
    ensures PrefixHolds(p, Composed(p, values, Base(p), |p.fields|))
  {
    hide Composed, Replaced;
    var zeros := Zeros(8 * p.bytes);
    BaseHasThePrefix(p);
    PrefixLast(p, values, zeros, PrefixWritten(p), |p.fields|);
    ReplacedSlice(Composed(p, values, zeros, |p.fields|), p.prefixAt, PrefixWritten(p));
  }

  lemma BaseHasThePrefix<V>(p: Plan<V>)
    requires p.Ok()
    ensures Base(p) == Replaced(Zeros(8 * p.bytes), p.prefixAt, PrefixWritten(p))
  {
  }

  lemma UnvaluedPasses<V>(p: Plan<V>, c: Bits)
    requires p.Ok() && |c| == 8 * p.bytes && p.prefixValue.None?
    ensures PrefixPasses(p, c) && Readable(p)
  {
  }

  /** What encode restores of a wire: every bit of its fields, and in the prefix its value, or zeros. */
  function Restored<V>(p: Plan<V>, c: Bits): (r: Bits)
    requires p.Ok() && |c| == 8 * p.bytes
    ensures |r| == |c|
  {
    Replaced(c, p.prefixAt, PrefixWritten(p))
  }

  /** That is the whole wire exactly when its prefix is what encode writes; after a decode, always, if a prefix below
      64 bits has a value. */
  lemma RestoredIsTheWire<V>(p: Plan<V>, wire: seq<Byte>)
    requires p.Ok() && |wire| == p.bytes
    ensures RestoredBytes(p, wire) == wire <==> PrefixHolds(p, Whole(wire, p.endian))
    ensures p.prefixValue.Some? && p.prefix < 64 && Decoded(p, wire).Ok? ==> RestoredBytes(p, wire) == wire
  {
    hide Whole, WireBytes, PrefixWritten, Checked, Meanings;
    var c := Whole(wire, p.endian);
    LoadedWireBytes(wire, p.endian);
    WireBytesLoad(Restored(p, c), p.endian);
    ReplacedSlice(c, p.prefixAt, PrefixWritten(p));
    assert Replaced(c, p.prefixAt, PrefixBits(p, c)) == c;
    if p.prefixValue.Some? {
      PrefixPassesWhen(p, c);
    }
  }

  function RestoredBytes<V>(p: Plan<V>, wire: seq<Byte>): (bytes: seq<Byte>)
    requires p.Ok() && |wire| == p.bytes
    ensures |bytes| == p.bytes
  {
    WireBytes(Restored(p, Whole(wire, p.endian)), p.endian)
  }

  predicate AllReturned<V>(p: Plan<V>, c: Bits)
    requires p.Ok() && |c| == 8 * p.bytes
  {
    forall i :: 0 <= i < |p.fields| ==> Returned(p.fields[i], p.Slice(c, i), p.truncate)
  }

  /** For a layout whose fields and prefix cover it, `encode(decode(w))` is `w` with the prefix encode writes exactly
      when every codec returns the raw bits it is handed. */
  lemma DecodedEncodes<V>(p: Plan<V>, wire: seq<Byte>)
    requires p.Ok() && p.Full() && |wire| == p.bytes && Decoded(p, wire).Ok?
    ensures Encoded(p, Decoded(p, wire).value) == Ok(RestoredBytes(p, wire)) <==> AllReturned(p, Whole(wire, p.endian))
  {
    hide Fitting, FieldOf, Meaning, Returned, Composed, Replaced, Whole, WireBytes, Plan.Slice, Base, Ranged;
    hide PrefixPasses, PrefixWritten;
    var c, values, n := Whole(wire, p.endian), Decoded(p, wire).value, |p.fields|;
    var composed := Composed(p, values, Base(p), n);
    forall i | 0 <= i < n
      ensures p.Passes(values, i) && FieldOf(p.fields[i], values[i]) == p.Slice(c, i) <==>
              Returned(p.fields[i], p.Slice(c, i), p.truncate)
    {
      MeaningEncodes(p.fields[i], p.Slice(c, i), p.truncate);
    }
    ComposedHolds(p, values, Base(p), n);
    WireBytesLoad(composed, p.endian);
    WireBytesLoad(Restored(p, c), p.endian);
    RestoredSlices(p, c);
    if AllReturned(p, c) {
      SlicesMakeTheContainer(p, values, c);
    }
    if Encoded(p, values) == Ok(RestoredBytes(p, wire)) {
      assert composed == Restored(p, c);
    }
  }

  lemma RestoredSlices<V>(p: Plan<V>, c: Bits)
    requires p.Ok() && |c| == 8 * p.bytes
    ensures forall i :: 0 <= i < |p.fields| ==> p.Slice(Restored(p, c), i) == p.Slice(c, i)
  {
    forall i | 0 <= i < |p.fields| ensures p.Slice(Restored(p, c), i) == p.Slice(c, i) {
      assert p.Inside(p.fields[i]);
      BesideReplaced(c, p.prefixAt, PrefixWritten(p), p.fields[i].start, p.fields[i].End());
    }
  }

  /** Fields that hold the wire's bits, and the prefix encode writes, are all of a covered container. */
  lemma SlicesMakeTheContainer<V>(p: Plan<V>, values: seq<Value<V>>, c: Bits)
    requires p.Ok() && p.Full() && p.Typed(values) && |c| == 8 * p.bytes
    requires forall i :: 0 <= i < |p.fields| ==> FieldOf(p.fields[i], values[i]) == p.Slice(c, i)
    ensures Composed(p, values, Base(p), |p.fields|) == Restored(p, c)
  {
    hide Composed, FieldOf, Base, Restored, Plan.Slice, Field.Ok;
    var composed := Composed(p, values, Base(p), |p.fields|);
    forall bit: nat | bit < 8 * p.bytes ensures composed[bit] == Restored(p, c)[bit] {
      assert p.Owned(bit);
      if p.prefixAt <= bit < p.prefixAt + p.prefix {
        PrefixBit(p, values, c, bit);
      } else {
        var i :| 0 <= i < |p.fields| && p.fields[i].Has(bit);
        FieldBit(p, values, c, i, bit);
      }
    }
  }

  lemma PrefixBit<V>(p: Plan<V>, values: seq<Value<V>>, c: Bits, bit: nat)
    requires p.Ok() && p.Typed(values) && |c| == 8 * p.bytes
    requires p.prefixAt <= bit < p.prefixAt + p.prefix
    ensures Composed(p, values, Base(p), |p.fields|)[bit] == Restored(p, c)[bit]
  {
    hide Composed, Field.Ok, PrefixWritten;
    PrefixStays(p, values);
    var composed := Composed(p, values, Base(p), |p.fields|);
    assert PrefixBits(p, composed)[bit - p.prefixAt] == composed[bit];
  }

  lemma FieldBit<V>(p: Plan<V>, values: seq<Value<V>>, c: Bits, i: nat, bit: nat)
    requires p.Ok() && p.Typed(values) && |c| == 8 * p.bytes && i < |p.fields| && p.fields[i].Has(bit)
    requires FieldOf(p.fields[i], values[i]) == p.Slice(c, i)
    ensures bit < 8 * p.bytes && Composed(p, values, Base(p), |p.fields|)[bit] == Restored(p, c)[bit]
  {
    hide Composed, FieldOf, Base, Field.Ok, Replaced, PrefixWritten, Plan.Apart;
    var composed := Composed(p, values, Base(p), |p.fields|);
    ComposedHolds(p, values, Base(p), |p.fields|);
    assert p.Inside(p.fields[i]);
    OutsideReplaced(c, p.prefixAt, PrefixWritten(p), bit);
    assert p.Slice(composed, i)[bit - p.fields[i].start] == p.Slice(c, i)[bit - p.fields[i].start];
  }
}
