/** From the magics, ranges and checksums a byte-mode record declares to those its generated code stamps and checks. */
module Assertions {
  import opened Words
  import opened Access
  import opened Containers
  import opened Coverage
  import E = Emit
  import D = Derive
  import R = Records
  import St = Stamping

  /** The constant of a magic: a byte string, or a number in the record's byte order. */
  datatype Literal = Text(bytes: seq<Byte>) | Number(n: nat)

  datatype Claim<!S> = Unclaimed | Magic(literal: Literal) | Checksum(algorithm: R.Algorithm<S>, over: Coverage)

  /** A declared range. A missing end is the type's own. */
  datatype Range = Range(lo: Option<int>, hi: Option<int>) {
    /** `range_attr`: two ends that are both written are in order. */
    predicate Formed() {
      lo.Some? && hi.Some? ==> lo.value <= hi.value
    }

    /** The bounds a range on a field with these values resolves to, or why it is refused. */
    function Resolve(bounds: Option<(int, int)>): Result<(int, int), RangeRefusal> {
      if bounds.None? then Err(NotAnInteger)
      else
        var (min, max) := bounds.value;
        var from := if lo.Some? then lo.value else min;
        var to := if hi.Some? then hi.value else max;
        if !FitsI64(from) || !FitsI64(to) then Err(BeyondI64(from, to))
        else if from < min || to > max then Err(BeyondTheField(from, to))
        else if from == min && to == max then Err(AllowsEverything)
        else Ok((from, to))
    }
  }

  /** The least and greatest value an integer of `width` bits holds. */
  function IntegerBounds(signed: bool, width: nat): (int, int)
    requires width >= 1
  {
    if signed then (-(Pow2(width - 1) as int), Pow2(width - 1) - 1) else (0, Pow2(width) - 1)
  }

  /** An optional range, resolved. */
  function Resolution(range: Option<Range>, bounds: Option<(int, int)>): Result<Option<(int, int)>, RangeRefusal> {
    if range.None? then Ok(None)
    else match range.value.Resolve(bounds) case Ok(ends) => Ok(Some(ends)) case Err(e) => Err(e)
  }

  datatype Item<!S> = Item(name: string, width: nat, reading: R.Reading, range: Option<Range>, claim: Claim<S>) {
    /** What parsing leaves: scalars of whole bytes, and claims only on fields that may have them. */
    predicate Formed() {
      && width >= 1
      && (reading.Integer? ==> width in {1, 2, 4, 8})
      && (reading.Flag? ==> width == 1 && claim.Unclaimed?)
      && (claim.Checksum? ==> reading.Integer?)
      && (claim.Magic? && claim.literal.Number? ==> reading.Integer?)
      && (range.Some? ==> range.value.Formed())
    }

    /** `value_bounds`. */
    function ValueBounds(): Option<(int, int)> {
      if reading.Integer? && width >= 1 then Some(IntegerBounds(reading.signed, 8 * width)) else None
    }

    function ResolveRange(): Result<Option<(int, int)>, RangeRefusal> {
      Resolution(range, ValueBounds())
    }

    /** `magic_bytes`: the bytes a magic pins, or why it does not fit its field. */
    function ResolveMagic(endian: Endian): (r: Result<seq<Byte>, MagicRefusal>)
      requires claim.Magic?
      ensures r.Ok? ==> |r.value| == width
    {
      match claim.literal
      case Text(bytes) => if |bytes| != width then Err(WrongLength(|bytes|)) else Ok(bytes)
      case Number(n) => if n >= Pow2(8 * width) then Err(TooLarge) else Ok(WireBytes(Of(n, 8 * width), endian))
    }
  }

  datatype RangeRefusal =
    | NotAnInteger
    | BeyondI64(lo: int, hi: int)
    | BeyondTheField(lo: int, hi: int)
    | AllowsEverything

  datatype MagicRefusal = WrongLength(given: nat) | TooLarge

  datatype Refusal =
    | BadRange(field: nat, range: RangeRefusal)
    | BadMagic(field: nat, magic: MagicRefusal)
    | BadCoverage(field: nat, coverage: R.RangeError)
    | CoversLater(field: nat, later: nat)

  predicate FitsI64(v: int) {
    InRange(v, 64)
  }

  predicate Formed<S>(items: seq<Item<S>>) {
    && (forall i :: 0 <= i < |items| ==> items[i].Formed())
    && forall i, j :: 0 <= i < j < |items| ==> items[i].name != items[j].name
  }

  /** The field of a resolved record; a refused range or magic leaves a stand-in. */
  function FieldOf<S>(item: Item<S>, endian: Endian): (f: R.Field<S>)
    requires item.Formed()
    ensures f.Formed()
  {
    var range := match item.ResolveRange() case Ok(bounds) => bounds case Err(_) => None;
    var stamp := match item.claim
      case Unclaimed => R.Unstamped
      case Magic(_) =>
        (match item.ResolveMagic(endian) case Ok(bytes) => R.Magic(bytes) case Err(_) => R.Magic(ZeroBytes(item.width)))
      case Checksum(algorithm, over) => R.Checksum(algorithm, over);
    R.Field(item.name, item.width, item.reading, range, stamp)
  }

  function Resolved<S>(items: seq<Item<S>>, endian: Endian): (r: R.Record<S>)
    requires Formed(items)
    ensures r.Formed()
  {
    R.Record(endian, seq(|items|, i requires 0 <= i < |items| => FieldOf(items[i], endian)))
  }

  predicate RangesResolve<S>(items: seq<Item<S>>, n: nat)
    requires Formed(items) && n <= |items|
  {
    forall i :: 0 <= i < n ==> items[i].ResolveRange().Ok?
  }

  predicate ClaimResolves<S>(items: seq<Item<S>>, endian: Endian, i: nat)
    requires Formed(items) && i < |items|
  {
    && (items[i].claim.Magic? ==> items[i].ResolveMagic(endian).Ok?)
    && (items[i].claim.Checksum? ==> Resolved(items, endian).ResolveCheck(i).Ok?)
  }

  /** The record a declaration is accepted as. */
  predicate Accepts<S>(items: seq<Item<S>>, endian: Endian)
    requires Formed(items)
  {
    && RangesResolve(items, |items|)
    && (forall i :: 0 <= i < |items| ==> ClaimResolves(items, endian, i))
    && Resolved(items, endian).Accepted()
  }

  /** `resolve_assertions`: ranges first, then each item's magic and coverage, then what covers a later checksum. */
  method ResolveAssertions<S>(items: seq<Item<S>>, endian: Endian) returns (r: Result<R.Record<S>, Refusal>)
    requires Formed(items)
    ensures r.Ok? <==> Accepts(items, endian)
    ensures r.Ok? ==> r.value == Resolved(items, endian)
    ensures r.Err? && r.error.BadRange? ==> var i := r.error.field;
      i < |items| && RangesResolve(items, i) && items[i].ResolveRange() == Err(r.error.range)
    ensures r.Err? && !r.error.BadRange? ==> RangesResolve(items, |items|) && r.error.field < |items|
    ensures r.Err? && (r.error.BadMagic? || r.error.BadCoverage?) ==>
      forall i :: 0 <= i < r.error.field ==> ClaimResolves(items, endian, i)
    ensures r.Err? && r.error.BadMagic? ==> var i := r.error.field;
      items[i].claim.Magic? && items[i].ResolveMagic(endian) == Err(r.error.magic)
    ensures r.Err? && r.error.BadCoverage? ==> var i := r.error.field;
      items[i].claim.Checksum? && Resolved(items, endian).ResolveCheck(i) == Err(r.error.coverage)
    ensures r.Err? && r.error.CoversLater? ==>
      var i, j, record := r.error.field, r.error.later, Resolved(items, endian);
      && i < j < |items| && items[i].claim.Checksum? && items[j].claim.Checksum?
      && record.ResolveCheck(i).Ok? && record.Reaches(i, j)
  {
    hide Item.ResolveRange, Item.ResolveMagic, R.Record.ResolveCheck, R.Record.Reaches, R.Record.Accepted;
    var n := |items|;
    for i := 0 to n
      invariant RangesResolve(items, i)
    {
      var one := items[i].ResolveRange();
      if one.Err? {
        return Err(BadRange(i, one.error));
      }
    }
    var record := Resolved(items, endian);
    for i := 0 to n
      invariant forall k :: 0 <= k < i ==> ClaimResolves(items, endian, k)
    {
      if items[i].claim.Magic? {
        var one := items[i].ResolveMagic(endian);
        if one.Err? {
          assert !ClaimResolves(items, endian, i);
          return Err(BadMagic(i, one.error));
        }
      }
      if items[i].claim.Checksum? {
        assert record == Resolved(items, endian) && record.fields[i].stamp.Checksum?;
        var one := record.ResolveCheck(i);
        if one.Err? {
          assert !ClaimResolves(items, endian, i);
          return Err(BadCoverage(i, one.error));
        }
      }
    }
    forall i | 0 <= i < n && record.fields[i].stamp.Checksum? ensures record.ResolveCheck(i).Ok? {
      assert ClaimResolves(items, endian, i);
    }
    var late := R.FindLaterCovered(record);
    if late.Some? {
      return Err(CoversLater(late.value.0, late.value.1));
    }
    return Ok(record);
  }

  /** The record keeps what was declared: byte order, names, widths and readings in order, each checksum's algorithm and
      range, and a magic's text. */
  lemma ResolvedKeeps<S>(items: seq<Item<S>>, endian: Endian, i: nat)
    requires Formed(items) && i < |items|
    ensures var r, item := Resolved(items, endian), items[i];
      && r.endian == endian && |r.fields| == |items|
      && var f := r.fields[i];
         && f.name == item.name && f.width == item.width && f.reading == item.reading
         && (item.claim.Unclaimed? <==> f.stamp.Unstamped?)
         && (item.claim.Checksum? ==> f.stamp == R.Checksum(item.claim.algorithm, item.claim.over))
         && (item.claim.Magic? && item.claim.literal.Text? && ClaimResolves(items, endian, i) ==>
               f.stamp == R.Magic(item.claim.literal.bytes))
         && (item.range.None? ==> f.range.None?)
         && (item.range.Some? && item.ResolveRange().Ok? ==> f.range == item.ResolveRange().value)
  {
  }

  /** What an accepted declaration claims of a field, its resolved field holds: the declared range, resolved, and the
      declared magic, as its text or as its number in the record's byte order. */
  lemma AcceptedKeeps<S>(items: seq<Item<S>>, endian: Endian, i: nat)
    requires Formed(items) && Accepts(items, endian) && i < |items|
    ensures var item, f := items[i], Resolved(items, endian).fields[i];
      && item.ResolveRange().Ok? && f.range == item.ResolveRange().value
      && (item.claim.Magic? && item.claim.literal.Text? ==> f.stamp == R.Magic(item.claim.literal.bytes))
      && (item.claim.Magic? && item.claim.literal.Number? ==>
            f.stamp.Magic? && Nat(Whole(f.stamp.bytes, endian)) == item.claim.literal.n)
      && (item.claim.Checksum? ==> Resolved(items, endian).ResolveCheck(i).Ok?)
  {
    hide Nat, Whole, R.Record.ResolveCheck, Item.ResolveRange;
    ResolvedKeeps(items, endian, i);
    assert ClaimResolves(items, endian, i);
    if items[i].claim.Magic? && items[i].claim.literal.Number? {
      NumberMagicReadsBack(items[i], endian);
    }
  }

  /** A numeric magic's bytes hold that number, in either byte order. */
  lemma NumberMagicReadsBack<S>(item: Item<S>, endian: Endian)
    requires item.claim.Magic? && item.claim.literal.Number? && item.ResolveMagic(endian).Ok?
    ensures Nat(Whole(item.ResolveMagic(endian).value, endian)) == item.claim.literal.n
  {
    hide Nat, Of, Pow2, Whole, WireBytes;
    WireBytesLoad(Of(item.claim.literal.n, 8 * item.width), endian);
    NatOf(item.claim.literal.n, 8 * item.width);
  }

  // ---------------------------------------------------------------- the ranges of a `bits = N` layout

  /** A field as declared in a `bits = N` layout, where only ranges are claimed. */
  datatype BitItem<!V> = BitItem(width: nat, reading: E.Reading<V>, range: Option<Range>) {
    predicate Formed() {
      D.Declared(width, reading, None).PlacedAt(0).Ok() && (range.Some? ==> range.value.Formed())
    }

    /** `value_bounds`, of the field's own width. */
    function ValueBounds(): Option<(int, int)>
      requires Formed()
    {
      if reading.Coded? || width > 64 then None else Some(IntegerBounds(reading.Signed?, width))
    }

    function ResolveRange(): Result<Option<(int, int)>, RangeRefusal>
      requires Formed()
    {
      Resolution(range, ValueBounds())
    }
  }

  predicate BitsFormed<V>(items: seq<BitItem<V>>) {
    forall i :: 0 <= i < |items| ==> items[i].Formed()
  }

  /** `resolve_assertions` there: the fields a plan is solved from, or the first range refused. A ranged `u128` that is
      narrow enough to resolve does not compile. */
  method ResolveRanges<V>(items: seq<BitItem<V>>) returns (r: Result<seq<D.Declared<V>>, Refusal>)
    requires BitsFormed(items)
    ensures r.Ok? <==> forall i :: 0 <= i < |items| ==> items[i].ResolveRange().Ok?
    ensures r.Ok? ==> |r.value| == |items| && forall i :: 0 <= i < |items| ==>
      && items[i].ResolveRange().Ok?
      && r.value[i] == D.Declared(items[i].width, items[i].reading, items[i].ResolveRange().value)
      && (items[i].range.None? || items[i].reading != E.Unsigned(128) ==> r.value[i].PlacedAt(0).Ok())
    ensures r.Err? ==> r.error.BadRange? && var i := r.error.field;
      && i < |items| && items[i].ResolveRange() == Err(r.error.range)
      && forall k :: 0 <= k < i ==> items[k].ResolveRange().Ok?
  {
    hide BitItem.ResolveRange;
    var declared: seq<D.Declared<V>> := [];
    for i := 0 to |items|
      invariant |declared| == i
      invariant forall k :: 0 <= k < i ==>
        && items[k].ResolveRange().Ok?
        && declared[k] == D.Declared(items[k].width, items[k].reading, items[k].ResolveRange().value)
        && (items[k].range.None? || items[k].reading != E.Unsigned(128) ==> declared[k].PlacedAt(0).Ok())
    {
      var one := items[i].ResolveRange();
      if one.Err? {
        return Err(BadRange(i, one.error));
      }
      RangesAreOnIntegers(items[i]);
      declared := declared + [D.Declared(items[i].width, items[i].reading, one.value)];
    }
    return Ok(declared);
  }

  /** The fields with values to bound are the integers of up to 64 bits, and the bounds are their least and greatest. */
  lemma BoundsAreExtremes<V>(item: BitItem<V>)
    requires item.Formed()
    ensures item.ValueBounds().None? <==> item.reading.Coded? || item.width > 64
    ensures item.ValueBounds().Some? ==>
      forall bits: Bits :: |bits| == item.width ==>
        item.ValueBounds().value.0 <= Quantity(item.reading.Signed?, bits) <= item.ValueBounds().value.1
    ensures item.ValueBounds().Some? ==>
      exists least: Bits, most: Bits :: |least| == |most| == item.width
        && item.ValueBounds().value == (Quantity(item.reading.Signed?, least), Quantity(item.reading.Signed?, most))
  {
    if item.ValueBounds().Some? {
      hide Nat, Int, Pow2;
      var signed := item.reading.Signed?;
      var least, most := Extremes(signed, item.width);
      DoublePow2(item.width);
      forall bits: Bits | |bits| == item.width
        ensures item.ValueBounds().value.0 <= Quantity(signed, bits) <= item.ValueBounds().value.1
      {
        NatBound(bits);
        SignedBound(bits);
      }
    }
  }

  lemma RangesAreOnIntegers<V>(item: BitItem<V>)
    requires item.Formed() && item.ResolveRange().Ok?
    ensures item.range.None? || item.reading != E.Unsigned(128) ==>
      D.Declared(item.width, item.reading, item.ResolveRange().value).PlacedAt(0).Ok()
  {
    hide Range.Resolve;
    assert item.ResolveRange().value.Some? ==> item.range.Some? && item.range.value.Resolve(item.ValueBounds()).Ok?;
    RefusedWithoutBounds(item.range);
  }

  lemma RefusedWithoutBounds(range: Option<Range>)
    ensures range.Some? ==> range.value.Resolve(None).Err?
  {
  }

  // ---------------------------------------------------------------- a range that holds nothing

  /** Some integer of `width` bits is in the range. */
  ghost predicate Holds(signed: bool, width: nat, bounds: (int, int))
    requires width >= 1
  {
    exists bits: Bits :: |bits| == width && InBounds(ToI64(signed, bits), bounds)
  }

  /** A range with an end left open that lies wholly on the wrong side of its field's values. */
  predicate Beyond(range: Range, bounds: (int, int)) {
    || (range.hi.None? && range.lo.Some? && range.lo.value > bounds.1)
    || (range.lo.None? && range.hi.Some? && range.hi.value < bounds.0)
  }

  /** An accepted range holds some value of its field exactly when it resolves forwards, which it does but for an open
      end beyond the field's values. */
  lemma AcceptedRangesHoldUnlessBeyond(signed: bool, width: nat, range: Range)
    requires 1 <= width <= 64 && range.Formed()
    ensures var bounds := IntegerBounds(signed, width);
      var ends := range.Resolve(Some(bounds));
      ends.Ok? ==>
        && (Holds(signed, width, ends.value) <==> ends.value.0 <= ends.value.1)
        && (Holds(signed, width, ends.value) <==> !Beyond(range, bounds))
  {
    var ends := range.Resolve(Some(IntegerBounds(signed, width)));
    hide Nat, Of, Pow2, Int, Signed;
    Pow2Grows(0, width - 1);
    assert Pow2(width) == 2 * Pow2(width - 1);
    if ends.Ok? && ends.value.0 <= ends.value.1 {
      if signed {
        IntSigned(ends.value.0, width);
        assert InBounds(ToI64(true, Signed(ends.value.0, width)), ends.value);
      } else {
        NatOf(ends.value.0, width);
        assert InBounds(ToI64(false, Of(ends.value.0, width)), ends.value);
      }
    }
  }

  /** A number lies between the ends that are written. */
  predicate Admits(range: Range, v: int) {
    (range.lo.Some? ==> range.lo.value <= v) && (range.hi.Some? ==> v <= range.hi.value)
  }

  /** An accepted range, resolved, lets through exactly the values between the ends that are written. */
  lemma AcceptedRangesAdmitTheWritten(signed: bool, width: nat, range: Range, bits: Bits)
    requires 1 <= width == |bits| <= 64
    ensures var ends := range.Resolve(Some(IntegerBounds(signed, width)));
      ends.Ok? ==> (InBounds(ToI64(signed, bits), ends.value) <==> Admits(range, Saturated(Quantity(signed, bits))))
  {
    hide Nat, Int, Pow2;
    ToI64Means(signed, bits);
    NatBound(bits);
    SignedBound(bits);
    Pow2Grows(0, width - 1);
    DoublePow2(width);
  }

  lemma DoublePow2(width: nat)
    requires width >= 1
    ensures Pow2(width) == 2 * Pow2(width - 1)
  {
  }

  /** A range on an integer is refused exactly when a written end is outside the field's values, an end it resolves to
      is outside an `i64`, or it lets every value through. */
  lemma RangesRefusedExactly(signed: bool, width: nat, range: Range)
    requires 1 <= width <= 64
    ensures var (min, max) := IntegerBounds(signed, width);
      var from := if range.lo.Some? then range.lo.value else min;
      var to := if range.hi.Some? then range.hi.value else max;
      range.Resolve(Some((min, max))).Ok? <==>
        && (range.lo.Some? ==> min <= range.lo.value) && (range.hi.Some? ==> range.hi.value <= max)
        && FitsI64(from) && FitsI64(to)
        && exists bits: Bits :: |bits| == width && !Admits(range, Quantity(signed, bits))
  {
    var (min, max) := IntegerBounds(signed, width);
    var from := if range.lo.Some? then range.lo.value else min;
    var to := if range.hi.Some? then range.hi.value else max;
    hide Nat, Of, Int, Signed, Pow2;
    Pow2Grows(0, width - 1);
    DoublePow2(width);
    var least, most := Extremes(signed, width);
    assert from > min ==> !Admits(range, Quantity(signed, least));
    assert to < max ==> !Admits(range, Quantity(signed, most));
    if from == min && to == max {
      forall bits: Bits | |bits| == width ensures Admits(range, Quantity(signed, bits)) {
        NatBound(bits);
        SignedBound(bits);
      }
    }
  }

  /** What each refusal says is so. */
  lemma RangeRefusalsAreTrue(signed: bool, width: nat, range: Range)
    requires 1 <= width <= 64
    ensures range.Resolve(None) == Err(NotAnInteger)
    ensures var (min, max) := IntegerBounds(signed, width);
      var r := range.Resolve(Some((min, max)));
      var from := if range.lo.Some? then range.lo.value else min;
      var to := if range.hi.Some? then range.hi.value else max;
      r.Err? ==>
        match r.error
        case NotAnInteger => false
        case BeyondI64(a, b) => a == from && b == to && (!FitsI64(from) || !FitsI64(to))
        case BeyondTheField(a, b) => a == from && b == to && (from < min || to > max)
        case AllowsEverything => from == min && to == max
  {
  }

  lemma Extremes(signed: bool, width: nat) returns (least: Bits, most: Bits)
    requires 1 <= width <= 64
    ensures |least| == |most| == width
    ensures (Quantity(signed, least), Quantity(signed, most)) == IntegerBounds(signed, width)
  {
    hide Nat, Of, Int, Signed, Pow2;
    var (min, max) := IntegerBounds(signed, width);
    Pow2Grows(0, width - 1);
    DoublePow2(width);
    if signed {
      least, most := Signed(min, width), Signed(max, width);
      IntSigned(min, width);
      IntSigned(max, width);
    } else {
      least, most := Of(min, width), Of(max, width);
      NatOf(min, width);
      NatOf(max, width);
    }
  }

  function Level(range: Range): Item<int> {
    Item("level", 1, R.Integer(false), Some(range), Unclaimed)
  }

  /** `#[range(300..)]` on a `u8` is accepted, as 300 to 255; and `#[range(..=-1)]`, as 0 to -1. */
  lemma AcceptedRangesThatHoldNothing()
    ensures var item := Level(Range(Some(300), None));
      item.Formed() && item.ResolveRange() == Ok(Some((300, 255))) && !Holds(false, 8, (300, 255))
    ensures var item := Level(Range(None, Some(-1)));
      item.Formed() && item.ResolveRange() == Ok(Some((0, -1))) && !Holds(false, 8, (0, -1))
  {
    assert Pow2(8) == 256;
    Pow2Grows(9, 63);
    assert Pow2(9) == 512;
  }

  // ---------------------------------------------------------------- a magic outside its range

  function OddItem(): Item<int> {
    Item("kind", 1, R.Integer(false), Some(Range(Some(0), Some(3))), Magic(Number(5)))
  }

  /** `#[magic(5)] #[range(0..=3)]` on a `u8` is accepted, as the record no wire of which decodes. */
  lemma AMagicOutsideItsRangeIsAccepted()
    ensures var items := [OddItem()];
      Formed(items) && Accepts(items, Le) && Resolved(items, Le) == St.OddMagic()
  {
    hide Item.ResolveRange, Item.ResolveMagic;
    var items, item := [OddItem()], OddItem();
    OddRange();
    OddMagicBytes();
    assert FieldOf(item, Le) == St.OddMagic().fields[0];
  }

  lemma OddRange()
    ensures OddItem().ResolveRange() == Ok(Some((0, 3)))
  {
    assert Pow2(8) == 256;
    Pow2Grows(9, 63);
    assert Pow2(9) == 512;
  }

  lemma OddMagicBytes()
    ensures OddItem().ResolveMagic(Le) == Ok([[true, false, true] + Zeros(5)])
  {
    assert Pow2(8) == 256;
    FiveInBits();
    var byte: Byte := [true, false, true] + Zeros(5);
    assert LeBytes(byte)[0] == byte[0..8] == byte;
    assert LeBytes(byte) == [byte];
  }

  lemma FiveInBits()
    ensures Of(5, 8) == [true, false, true] + Zeros(5)
  {
    assert Of(0, 5) == Zeros(5);
  }
}
