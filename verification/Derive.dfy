/** From a declared `bits = N` layout to its plan: what the solver accepts is what encode and decode rely on. */
module Derive {
  import opened Words
  import opened Access
  import opened Emit
  import L = Layout

  /** A field as declared: its width, how it is read, and its range. */
  datatype Declared<!V> = Declared(width: nat, reading: Reading<V>, range: Option<(int, int)>) {
    function PlacedAt(start: nat): Field<V> {
      Field(start, width, reading, range)
    }
  }

  function Kinds<V>(declared: seq<Declared<V>>): (kinds: seq<L.Kind>)
    ensures |kinds| == |declared|
  {
    seq(|declared|, i requires 0 <= i < |declared| => L.Packed(declared[i].width))
  }

  /** Each field where the solver put it, and the prefix in the container's low bits, after the bit order. */
  function Solved<V>(
    c: L.Container, endian: Endian, declared: seq<Declared<V>>, prefixValue: Option<Bits>, truncate: bool): (p: Plan<V>)
    requires c.WordGrid?
  {
    var starts := L.Positions(c, Kinds(declared));
    Plan(c.Size() / 8, endian,
         seq(|declared|, i requires 0 <= i < |declared| => declared[i].PlacedAt(starts[i])),
         c.Physical(L.Packed(c.Prefix()), 0), c.Prefix(), prefixValue, truncate)
  }

  /** What parsing and `validate_container` leave of a `bits = N` layout before it is solved, and that a valued prefix
      is in one `u128`: what is generated for a wider one does not compile. */
  predicate Declares<V>(c: L.Container, declared: seq<Declared<V>>, prefixValue: Option<Bits>) {
    && c.WordGrid? && c.Ok()
    && (forall i :: 0 <= i < |declared| ==> declared[i].PlacedAt(0).Ok())
    && (prefixValue.Some? ==> |prefixValue.value| == c.Prefix() && 1 <= c.Prefix() <= 128)
  }

  function PrefixRows(c: L.Container): nat {
    if c.Prefix() > 0 then 1 else 0
  }

  /** The field table before it is sorted: the prefix, if there is one, then each field at its solved position. */
  lemma {:induction false} RowsAreTheFields(c: L.Container, kinds: seq<L.Kind>, n: nat)
    requires c.WordGrid? && n <= |kinds| && L.AllFit(c, kinds) && L.AllPacked(kinds)
    ensures var rows, k := L.Unsorted(c, kinds, n), PrefixRows(c);
      && |rows| == n + k
      && (k == 1 ==> rows[0] == L.Row(c.Physical(L.Packed(c.Prefix()), 0), c.Prefix()))
      && forall i :: k <= i < |rows| ==>
           rows[i].start == L.Positions(c, kinds)[i - k] && rows[i].width == kinds[i - k].Width()
  {
    hide L.Container.Physical, L.Positions, L.Declared;
    if n == 0 {
    } else {
      RowsAreTheFields(c, kinds, n - 1);
      L.PositionAt(c, kinds, n - 1);
      assert kinds[n - 1] in kinds;
    }
  }

  /** Two rows of a tiling are beside each other. */
  lemma RowsBeside(rows: seq<L.Row>, total: nat, i: nat, j: nat)
    requires L.Tiles(rows, total) && i < j < |rows|
    ensures rows[i].End() <= rows[j].start || rows[j].End() <= rows[i].start
    ensures rows[i].End() <= total && rows[j].End() <= total
  {
    L.OnceDistinct(rows, i, j);
    assert rows[i] in rows && rows[j] in rows;
    var bit := if rows[i].start <= rows[j].start then rows[j].start else rows[i].start;
    assert !(rows[i].Covers(bit) && rows[j].Covers(bit));
  }

  /** The table's rows are the plan's prefix and fields. */
  predicate Rows<V>(p: Plan<V>, rows: seq<L.Row>, k: nat) {
    && k == (if p.prefix > 0 then 1 else 0)
    && |rows| == |p.fields| + k
    && (k == 1 ==> rows[0] == L.Row(p.prefixAt, p.prefix))
    && forall i :: 0 <= i < |p.fields| ==> IsRow(p.fields[i], rows[i + k])
  }

  predicate IsRow<V>(f: Field<V>, r: L.Row) {
    f.start == r.start && f.width == r.width
  }

  lemma RowsAreThePlans<V>(
    c: L.Container, endian: Endian, declared: seq<Declared<V>>, prefixValue: Option<Bits>, truncate: bool)
    requires Declares(c, declared, prefixValue)
    ensures L.AllFit(c, Kinds(declared)) && L.AllPacked(Kinds(declared))
    ensures var p := Solved(c, endian, declared, prefixValue, truncate);
      Rows(p, L.Unsorted(c, Kinds(declared), |declared|), PrefixRows(c))
  {
    hide L.Container.Physical, L.Positions, L.Declared, L.Unsorted;
    var kinds, p := Kinds(declared), Solved(c, endian, declared, prefixValue, truncate);
    forall kind | kind in kinds ensures kind.Packed? && kind.Ok(c) {
      var i :| 0 <= i < |kinds| && kinds[i] == kind;
      assert declared[i].PlacedAt(0).Ok();
    }
    RowsAreTheFields(c, kinds, |kinds|);
    var rows, k := L.Unsorted(c, kinds, |kinds|), PrefixRows(c);
    forall i | 0 <= i < |p.fields| ensures IsRow(p.fields[i], rows[i + k]) {
      assert rows[i + k].start == L.Positions(c, kinds)[i + k - k];
    }
  }

  /** The plan of every layout the solver accepts, in either bit order, has its fields apart, inside the container
      and covering it with the prefix. */
  lemma AcceptedPlansAreSound<V>(
    c: L.Container, endian: Endian, declared: seq<Declared<V>>, prefixValue: Option<Bits>, truncate: bool)
    requires Declares(c, declared, prefixValue) && L.Accepts(c, Kinds(declared))
    ensures Solved(c, endian, declared, prefixValue, truncate).Ok()
    ensures Solved(c, endian, declared, prefixValue, truncate).Full()
  {
    hide L.Tiles, L.Positions, L.Unsorted, L.Container.Physical, L.Accepts, Rows, Field.Ok, L.AllFit, L.AllPacked;
    var p, kinds := Solved(c, endian, declared, prefixValue, truncate), Kinds(declared);
    RowsAreThePlans(c, endian, declared, prefixValue, truncate);
    L.AcceptedLayoutsAreTabled(c, kinds);
    assert |kinds| == |declared|;
    forall i | 0 <= i < |p.fields| ensures p.fields[i].Ok() {
      OkAnywhere(p.fields[i]);
    }
    PrefixInside(c);
    assert prefixValue.Some? ==> p.PrefixFits();
    TilesMakeASoundPlan(p, L.Unsorted(c, kinds, |kinds|), PrefixRows(c));
  }

  lemma OkAnywhere<V>(f: Field<V>)
    ensures f.Ok() == Declared(f.width, f.reading, f.range).PlacedAt(0).Ok()
  {
  }

  lemma PrefixInside(c: L.Container)
    requires c.WordGrid? && c.Ok()
    ensures c.Physical(L.Packed(c.Prefix()), 0) + c.Prefix() <= c.Size() && c.Size() % 8 == 0 && c.Size() >= 8
    ensures c.Prefix() == 0 ==> c.Physical(L.Packed(0), 0) == 0 || c.Physical(L.Packed(0), 0) == c.Size()
    ensures c.Prefix() <= 128 ==> c.Physical(L.Packed(c.Prefix()), 0) % 8 + c.Prefix() <= 128
  {
    L.InFirst(0, c.size);
  }

  lemma TilesMakeASoundPlan<V>(p: Plan<V>, rows: seq<L.Row>, k: nat)
    requires Rows(p, rows, k) && L.Tiles(rows, 8 * p.bytes) && p.bytes >= 1 && p.prefixAt + p.prefix <= 8 * p.bytes
    requires p.prefix == 0 ==> p.prefixAt == 0 || p.prefixAt == 8 * p.bytes
    requires p.prefixValue.Some? ==> |p.prefixValue.value| == p.prefix && p.PrefixFits()
    requires forall i :: 0 <= i < |p.fields| ==> p.fields[i].Ok()
    ensures p.Ok() && p.Full()
  {
    hide L.Tiles, Field.Ok;
    forall i | 0 <= i < |p.fields| ensures p.Inside(p.fields[i]) {
      FieldInside(p, rows, k, i);
    }
    forall i, j | 0 <= i < j < |p.fields| ensures Beside(p.fields[i], p.fields[j]) {
      assert IsRow(p.fields[i], rows[i + k]) && IsRow(p.fields[j], rows[j + k]);
      RowsBeside(rows, 8 * p.bytes, i + k, j + k);
    }
    forall bit: nat | bit < 8 * p.bytes ensures p.Owned(bit) {
      BitOwned(p, rows, k, bit);
    }
  }

  lemma FieldInside<V>(p: Plan<V>, rows: seq<L.Row>, k: nat, i: nat)
    requires i < |p.fields| && Rows(p, rows, k) && L.Tiles(rows, 8 * p.bytes) && p.prefixAt + p.prefix <= 8 * p.bytes
    requires p.prefix == 0 ==> p.prefixAt == 0 || p.prefixAt == 8 * p.bytes
    ensures p.Inside(p.fields[i])
  {
    assert IsRow(p.fields[i], rows[i + k]) && rows[i + k] in rows;
    if k == 1 {
      RowsBeside(rows, 8 * p.bytes, 0, i + k);
    }
  }

  lemma BitOwned<V>(p: Plan<V>, rows: seq<L.Row>, k: nat, bit: nat)
    requires Rows(p, rows, k) && L.Tiles(rows, 8 * p.bytes) && bit < 8 * p.bytes
    ensures p.Owned(bit)
  {
    assert L.Covered(rows, bit);
    var r :| r in rows && r.Covers(bit);
    var j :| 0 <= j < |rows| && rows[j] == r;
    if j >= k {
      assert IsRow(p.fields[j - k], rows[j - k + k]);
      assert p.fields[j - k].Has(bit);
    }
  }

  // ---------------------------------------------------------------- accepted layouts round trip

  /** In an accepted layout, values that pass their guards come back exactly when the prefix is readable and every codec
      value is canonical; and a wire that decodes comes back, with the prefix encode writes, exactly when every codec
      returns its raw bits. */
  lemma AcceptedLayoutsRoundTrip<V>(
    c: L.Container, endian: Endian, declared: seq<Declared<V>>, prefixValue: Option<Bits>, truncate: bool,
    values: seq<Value<V>>, wire: seq<Byte>)
    requires Declares(c, declared, prefixValue) && L.Accepts(c, Kinds(declared)) && 8 * |wire| == c.Size()
    ensures var p := Solved(c, endian, declared, prefixValue, truncate);
      && p.Ok() && |wire| == p.bytes
      && (p.Typed(values) && AllFitting(p, values) && AllRanged(p, values) ==>
            && Encoded(p, values).Ok? && |Encoded(p, values).value| == p.bytes
            && (Decoded(p, Encoded(p, values).value) == Ok(values) <==> Readable(p) && AllCanonical(p, values)))
      && (Decoded(p, wire).Ok? ==>
            (Encoded(p, Decoded(p, wire).value) == Ok(RestoredBytes(p, wire)) <==> AllReturned(p, Whole(wire, endian))))
  {
    hide Solved, L.Accepts, Encoded, Decoded, AllFitting, AllRanged, AllCanonical, AllReturned, Whole;
    hide Plan.Ok, Plan.Full, Readable;
    var p := Solved(c, endian, declared, prefixValue, truncate);
    AcceptedPlansAreSound(c, endian, declared, prefixValue, truncate);
    SolvedSize(c, endian, declared, prefixValue, truncate);
    if p.Typed(values) && AllFitting(p, values) && AllRanged(p, values) {
      EncodedDecodes(p, values);
    }
    if Decoded(p, wire).Ok? {
      DecodedEncodes(p, wire);
    }
  }

  lemma SolvedSize<V>(
    c: L.Container, endian: Endian, declared: seq<Declared<V>>, prefixValue: Option<Bits>, truncate: bool)
    requires c.WordGrid?
    ensures Solved(c, endian, declared, prefixValue, truncate).bytes == c.Size() / 8
    ensures Solved(c, endian, declared, prefixValue, truncate).endian == endian
  {
  }

  /** The plan keeps what was declared: each field's width, reading and range at its solved position, and the layout's
      byte order, prefix and truncation. */
  lemma SolvedKeeps<V>(
    c: L.Container, endian: Endian, declared: seq<Declared<V>>, prefixValue: Option<Bits>, truncate: bool, i: nat)
    requires c.WordGrid? && i < |declared|
    ensures var p := Solved(c, endian, declared, prefixValue, truncate);
      && 8 * p.bytes <= c.Size() < 8 * p.bytes + 8 && p.endian == endian && p.truncate == truncate
      && p.prefix == c.Prefix() && p.prefixValue == prefixValue
      && |p.fields| == |declared|
      && var f, kind := p.fields[i], L.Packed(declared[i].width);
         && f.width == declared[i].width && f.reading == declared[i].reading && f.range == declared[i].range
         && f.start == c.Physical(kind, L.Declared(c, Kinds(declared), i))
  {
    L.PositionAt(c, Kinds(declared), i);
  }

  // ---------------------------------------------------------------- where the conditions are needed

  /** A codec of integers that keeps only parity. It returns every raw bit, but 2 and 0 share one. */
  function Parity(): Declared<int> {
    Declared(1, Coded((raw: U64) => if raw[0] then 1 else 0, (v: int) => [v % 2 == 1] + Zeros(63)), None)
  }

  /** `Nonzero`: any nonzero raw value is the flag set, and the flag set is 1. */
  function Nonzero(bits: nat): Declared<bool> {
    Declared(bits, Coded((raw: U64) => raw != Zeros(64), (v: bool) => [v] + Zeros(63)), None)
  }

  /** One field of a byte: `width` bits read so, and the rest of the byte a number. */
  function OneField<V>(d: Declared<V>): Plan<V>
    requires 1 <= d.width <= 8
  {
    var rest := if d.width == 8 then [] else [Field(d.width, 8 - d.width, Unsigned(8), None)];
    Plan(1, Le, [d.PlacedAt(0)] + rest, 0, 0, None, false)
  }

  /** A lawful codec does not make `decode(encode(v)) == v`: the parity of 2 is sent, and 0 comes back. */
  lemma ValuesThatAreNotCanonicalAreLost()
    ensures var p, values := OneField(Parity()), [Held(2), Number(Zeros(8))];
      && p.Ok() && p.Full() && p.Typed(values) && AllFitting(p, values) && AllRanged(p, values)
      && (forall wire: seq<Byte> | |wire| == 1 :: AllReturned(p, Whole(wire, Le)))
      && Encoded(p, values).Ok? && |Encoded(p, values).value| == 1
      && Decoded(p, Encoded(p, values).value) != Ok(values)
  {
    var p, values := OneField(Parity()), [Held(2), Number(Zeros(8))];
    OneFieldIsWhole(Parity());
    assert AllFitting(p, values) by {
      assert Shr([false] + Zeros(63), 1) == Zeros(64);
      assert Shr(Resize(Zeros(8), 64), 7) == Zeros(64);
    }
    assert !Canonical(p.fields[0], values[0]);
    hide Encoded, Decoded, Fitting, Whole;
    EncodedDecodes(p, values);
    forall wire: seq<Byte> | |wire| == 1 ensures AllReturned(p, Whole(wire, Le)) {
      ParityIsReturned(p.Slice(Whole(wire, Le), 0));
    }
  }

  lemma ParityIsReturned(bits: Bits)
    requires |bits| == 1
    ensures Returned(Parity().PlacedAt(0), bits, false)
  {
    assert bits[0] ==> [true] + Zeros(63) == Resize(bits, 64);
    assert !bits[0] ==> [false] + Zeros(63) == Resize(bits, 64);
  }

  lemma OneFieldIsWhole<V>(d: Declared<V>)
    requires 1 <= d.width < 8 && d.reading.Coded? && d.range.None?
    ensures OneField(d).Ok() && OneField(d).Full()
  {
    var p := OneField(d);
    forall bit: nat | bit < 8 ensures p.Owned(bit) {
      assert p.fields[0].Has(bit) || p.fields[1].Has(bit);
    }
  }

  /** A `u64` above a 64-bit prefix whose value is 1. */
  function WidePrefix(): L.Container {
    L.WordGrid(128, 64, L.Lsb)
  }

  function Above(): seq<Declared<int>> {
    [Declared(64, Unsigned(64), None)]
  }

  /** It is accepted, and no wire of it decodes: the check masks all of the prefix away and expects 1. */
  lemma AWidePrefixNeverDecodes(wire: seq<Byte>)
    requires |wire| == 16
    ensures var c, value := WidePrefix(), [true] + Zeros(63);
      && Declares(c, Above(), Some(value)) && L.Accepts(c, Kinds(Above()))
      && var p := Solved(c, Le, Above(), Some(value), false);
         && p.Ok() && p.bytes == 16
         && Decoded(p, wire) == Err(Prefix(value, Zeros(64)))
  {
    var c, value := WidePrefix(), [true] + Zeros(63);
    WidePrefixIsAccepted();
    AcceptedPlansAreSound(c, Le, Above(), Some(value), false);
    SolvedSize(c, Le, Above(), Some(value), false);
    var p := Solved(c, Le, Above(), Some(value), false);
    assert value[0] && !Readable(p);
    UnreadablePrefixesNeverDecode(p, wire);
    assert Resize(value, 64) == value;
    assert Got(p, Whole(wire, Le)) == Zeros(64);
  }

  lemma WidePrefixIsAccepted()
    ensures Declares(WidePrefix(), Above(), Some([true] + Zeros(63)))
    ensures L.Accepts(WidePrefix(), Kinds(Above()))
  {
    var c, kinds := WidePrefix(), Kinds(Above());
    assert kinds == [L.Packed(64)];
    assert L.Declared(c, kinds, 0) == 64 && L.Declared(c, kinds, 1) == 128;
  }

  /** `Nonzero` does not return the raw value 2, whole or cut to its field. */
  lemma NonzeroIsNotReturned()
    ensures var f := Nonzero(8).PlacedAt(0);
      && f.Ok()
      && !Returned(f, [false, true] + Zeros(6), false) && !Returned(f, [false, true] + Zeros(6), true)
  {
    var f, bits := Nonzero(8).PlacedAt(0), [false, true] + Zeros(6);
    var raw := Resize(bits, 64);
    assert raw[1] && !Zeros(64)[1];
    var back := f.reading.to(f.reading.from(raw));
    assert back[0] && back[..8][0] && !raw[0] && !bits[0];
  }
}
