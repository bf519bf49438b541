/** Fixed layouts: where declared fields land in their container, and that they cover it bit for bit. */
module Layout {
  import opened Words

  datatype BitOrder = Lsb | Msb

  datatype Container =
    | WordGrid(size: nat, prefix: nat, order: BitOrder)
    | ByteGrid(bytes: nat)
    | WordsGrid(words: nat, order: BitOrder)
  {
    /** How many bits there are to tile. */
    function Size(): nat {
      match this
      case WordGrid(size, _, _) => size
      case ByteGrid(bytes) => 8 * bytes
      case WordsGrid(words, _) => 16 * words
    }

    /** `validate_container`. */
    predicate Ok() {
      WordGrid? ==> size > 0 && size % 8 == 0 && prefix < size
    }

    function Prefix(): nat {
      if WordGrid? then prefix else 0
    }

    /** The bits a bit order mirrors within. */
    function Region(): nat {
      if WordsGrid? then 16 else Size()
    }

    predicate Mirrors() {
      !ByteGrid? && order.Msb?
    }

    /** Where the bit order puts a field whose widths before it add up to `start`. */
    function Physical(kind: Kind, start: nat): nat {
      if ByteGrid? || order.Lsb? || !kind.Packed? || Region() == 0 then start
      else
        var base := start - start % Region();
        var end := start - base + kind.Width();
        base + if end > Region() then 0 else Region() - end
    }
  }

  /** A container is as many bits as its bytes, or its 16-bit words, have. */
  lemma SizeMeans(c: Container)
    ensures match c
      case WordGrid(size, _, _) => c.Size() == size
      case ByteGrid(bytes) => c.Size() % 8 == 0 && c.Size() / 8 == bytes
      case WordsGrid(words, _) => c.Size() % 16 == 0 && c.Size() / 16 == words
  {
  }

  /** What a field's width depends on. A scalar or a codec is packed. */
  datatype Kind =
    | Packed(bits: nat)
    | Array(each: nat, count: nat)
    | Nested(bytes: nat)
    | NestedArray(bytes: nat, count: nat)
  {
    function Width(): nat {
      match this
      case Packed(bits) => bits
      case Array(each, count) => each * count
      case Nested(bytes) => 8 * bytes
      case NestedArray(bytes, count) => 8 * bytes * count
    }

    function ElementBits(): nat {
      match this
      case Array(each, _) => each
      case NestedArray(bytes, _) => 8 * bytes
      case _ => Width()
    }

    /** What parsing leaves of a field's size. */
    predicate Ok(c: Container) {
      match this
      case Packed(bits) => bits >= 1
      case Array(each, _) => each >= 1
      case Nested(bytes) => bytes >= 1 && (c.WordsGrid? ==> bytes % 2 == 0)
      case NestedArray(bytes, _) => bytes >= 1 && (c.WordsGrid? ==> bytes % 2 == 0)
    }
  }

  // ---------------------------------------------------------------- the solver

  datatype SolveError =
    | Overflow(item: nat)
    | CrossesWord(item: nat)
    | Misaligned(item: nat)
    | Misstated(item: nat, claimed: nat, declared: nat)
    | Shortfall(end: nat)

  /** An `#[at]` claim. */
  datatype Stated = AtBit(pos: nat) | AtByte(pos: nat) {
    function Bits(): nat {
      if AtBit? then pos else 8 * pos
    }
  }

  /** The declared start of item `i`: the prefix and the widths before it. */
  function Declared(c: Container, kinds: seq<Kind>, i: nat): nat
    requires i <= |kinds|
  {
    if i == 0 then c.Prefix() else Declared(c, kinds, i - 1) + kinds[i - 1].Width()
  }

  /** `check_placement`. */
  function Misplaced(c: Container, kind: Kind, at: nat, item: nat): (e: Option<SolveError>)
    ensures e.Some? ==> (e.value.CrossesWord? || e.value.Misaligned?) && e.value.item == item
  {
    if !c.WordsGrid? then None
    else if kind.Packed? then if at % 16 + kind.bits > 16 then Some(CrossesWord(item)) else None
    else
      var align := if kind.ElementBits() < 16 then kind.ElementBits() else 16;
      if align != 0 && at % align != 0 then Some(Misaligned(item)) else None
  }

  /** Item `i` is where it may be and ends inside the container. */
  predicate Placed(c: Container, kinds: seq<Kind>, i: nat)
    requires i < |kinds|
  {
    Misplaced(c, kinds[i], Declared(c, kinds, i), i).None? && Declared(c, kinds, i + 1) <= c.Size()
  }

  predicate Accepts(c: Container, kinds: seq<Kind>) {
    (forall i :: 0 <= i < |kinds| ==> Placed(c, kinds, i)) && Declared(c, kinds, |kinds|) == c.Size()
  }

  /** Item `i`'s claim, if it makes one, names its declared position, whatever the bit order. */
  predicate Agrees(c: Container, kinds: seq<Kind>, stated: seq<Option<Stated>>, i: nat)
    requires i < |kinds| == |stated|
  {
    stated[i].Some? ==> stated[i].value.Bits() == Declared(c, kinds, i)
  }

  /** A claim in bits names the declared bit, and one in bytes the byte it begins. */
  lemma AgreesMeans(c: Container, kinds: seq<Kind>, stated: seq<Option<Stated>>, i: nat)
    requires i < |kinds| == |stated| && stated[i].Some?
    ensures var at, pos := Declared(c, kinds, i), stated[i].value.pos;
      Agrees(c, kinds, stated, i) <==> if stated[i].value.AtBit? then at == pos else at % 8 == 0 && at / 8 == pos
    ensures AllAgree(c, kinds, stated) ==> Agrees(c, kinds, stated, i)
  {
  }

  predicate AllAgree(c: Container, kinds: seq<Kind>, stated: seq<Option<Stated>>)
    requires |kinds| == |stated|
  {
    forall i :: 0 <= i < |kinds| ==> Agrees(c, kinds, stated, i)
  }

  /** Each item's physical position. */
  function Positions(c: Container, kinds: seq<Kind>): (phys: seq<nat>)
    ensures |phys| == |kinds|
  {
    seq(|kinds|, i requires 0 <= i < |kinds| => c.Physical(kinds[i], Declared(c, kinds, i)))
  }

  lemma PositionAt(c: Container, kinds: seq<Kind>, i: nat)
    requires i < |kinds|
    ensures Positions(c, kinds)[i] == c.Physical(kinds[i], Declared(c, kinds, i))
  {
  }

  lemma PrefixInside(c: Container)
    requires c.Ok()
    ensures c.Prefix() <= c.Size()
  {
  }

  /** In words mode a packed field is where it may be exactly when it lies in one word, and anything else when each of
      its elements starts at a byte or word of its own size; elsewhere any place will do. */
  lemma PlacedMeans(c: Container, kind: Kind, at: nat, item: nat)
    requires kind.Ok(c)
    ensures !c.WordsGrid? ==> Misplaced(c, kind, at, item).None?
    ensures c.WordsGrid? && kind.Packed? ==>
      (Misplaced(c, kind, at, item).None? <==> at / 16 == (at + kind.bits - 1) / 16)
    ensures Misplaced(c, kind, at, item).Some? ==>
      Misplaced(c, kind, at, item).value == if kind.Packed? then CrossesWord(item) else Misaligned(item)
    ensures c.WordsGrid? && !kind.Packed? && (kind.Array? ==> kind.each % 16 == 0 || kind.each == 8) ==>
      (Misplaced(c, kind, at, item).None? <==> if kind.Array? && kind.each == 8 then at % 8 == 0 else at % 16 == 0)
  {
  }

  /** Only packed fields are mirrored: an array or a nested layout starts at its declared position in every order. */
  lemma OthersStayInPlace(c: Container, kind: Kind, start: nat)
    ensures !kind.Packed? || !c.Mirrors() ==> c.Physical(kind, start) == start
  {
  }

  /** `solve`, with `check_stated`: each item's physical position. */
  method Solve(c: Container, kinds: seq<Kind>, stated: seq<Option<Stated>>) returns (r: Result<seq<nat>, SolveError>)
    requires c.Ok() && |stated| == |kinds|
    ensures r.Ok? <==> Accepts(c, kinds) && AllAgree(c, kinds, stated)
    ensures r.Ok? ==> r.value == Positions(c, kinds)
    ensures r.Err? && r.error.Shortfall? ==> r.error.end == Declared(c, kinds, |kinds|) < c.Size()
    ensures r.Err? && !r.error.Shortfall? ==>
      && r.error.item < |kinds|
      && forall i :: 0 <= i < r.error.item ==> Placed(c, kinds, i) && Agrees(c, kinds, stated, i)
    ensures r.Err? && !r.error.Shortfall? ==> (r.error.Misstated? <==> Placed(c, kinds, r.error.item))
    ensures r.Err? && !r.error.Shortfall? && !r.error.Misstated? ==> var i := r.error.item;
      var misplaced := Misplaced(c, kinds[i], Declared(c, kinds, i), i);
      r.error == if misplaced.Some? then misplaced.value else Overflow(i)
    ensures r.Err? && r.error.Misstated? ==> var i := r.error.item;
      && stated[i].Some? && r.error.claimed == stated[i].value.Bits() != Declared(c, kinds, i) == r.error.declared
  {
    hide Misplaced, Container.Physical, Kind.Width, Container.Size, Positions, Stated.Bits;
    PrefixInside(c);
    var at := c.Prefix();
    var phys: seq<nat> := [];
    for i := 0 to |kinds|
      invariant at == Declared(c, kinds, i) <= c.Size()
      invariant |phys| == i && phys == Positions(c, kinds)[..i]
      invariant forall j :: 0 <= j < i ==> Placed(c, kinds, j) && Agrees(c, kinds, stated, j)
    {
      var misplaced := Misplaced(c, kinds[i], at, i);
      if misplaced.Some? {
        assert !Placed(c, kinds, i);
        return Err(misplaced.value);
      }
      var end := at + kinds[i].Width();
      assert end == Declared(c, kinds, i + 1);
      if end > c.Size() {
        assert !Placed(c, kinds, i);
        return Err(Overflow(i));
      }
      PositionAt(c, kinds, i);
      phys := phys + [c.Physical(kinds[i], at)];
      if stated[i].Some? && stated[i].value.Bits() != at {
        assert !Agrees(c, kinds, stated, i) && Placed(c, kinds, i);
        return Err(Misstated(i, stated[i].value.Bits(), at));
      }
      at := end;
    }
    if at != c.Size() {
      return Err(Shortfall(at));
    }
    return Ok(phys);
  }

  // ---------------------------------------------------------------- the table

  /** One row of `FIELDS`: an `Extent`, never empty. */
  datatype AnyRow = Row(start: nat, width: nat) {
    function End(): nat {
      start + width
    }

    predicate Covers(bit: nat) {
      start <= bit < End()
    }
  }

  type Row = r: AnyRow | r.width >= 1 witness Row(0, 1)

  datatype LayoutError = Gap(field: nat, expected: nat, actual: nat) | Short(end: nat, total: nat)

  /** Where the first `i` rows end, when they begin at `from`. */
  function EndFrom(rows: seq<Row>, i: nat, from: nat): nat
    requires i <= |rows|
  {
    if i == 0 then from else rows[i - 1].End()
  }

  function EndOf(rows: seq<Row>, i: nat): nat
    requires i <= |rows|
  {
    EndFrom(rows, i, 0)
  }

  /** The rows before `i` run on from bit zero without a gap. */
  predicate RunsOn(rows: seq<Row>, i: nat)
    requires i <= |rows|
  {
    forall j {:trigger EndOf(rows, j)} :: 0 <= j < i ==> rows[j].start == EndOf(rows, j)
  }

  method CheckLayout(rows: seq<Row>, total: nat) returns (r: Result<(), LayoutError>)
    ensures r.Ok? <==> RunsOn(rows, |rows|) && EndOf(rows, |rows|) == total
    ensures r.Err? && r.error.Gap? ==> var f := r.error.field;
      && f < |rows| && RunsOn(rows, f)
      && r.error == Gap(f, EndOf(rows, f), rows[f].start) && rows[f].start != EndOf(rows, f)
    ensures r.Err? && r.error.Short? ==> RunsOn(rows, |rows|) && r.error == Short(EndOf(rows, |rows|), total)
  {
    var at := 0;
    var i := 0;
    while i < |rows|
      invariant i <= |rows| && at == EndOf(rows, i) && RunsOn(rows, i)
    {
      var extent := rows[i];
      if extent.start != at {
        return Err(Gap(i, at, extent.start));
      }
      at := extent.End();
      i := i + 1;
    }
    if at != total {
      return Err(Short(at, total));
    }
    return Ok(());
  }

  ghost predicate Covered(rows: seq<Row>, bit: nat) {
    exists r :: r in rows && r.Covers(bit)
  }

  /** Every bit of the container is in exactly one row, and no row reaches outside it. */
  ghost predicate Tiles(rows: seq<Row>, total: nat) {
    && (forall r :: r in rows ==> r.End() <= total)
    && (forall b: nat :: b < total ==> Covered(rows, b))
    && (forall r, s, b: nat :: r in rows && s in rows && r.Covers(b) && s.Covers(b) ==> r == s)
    && (forall r :: multiset(rows)[r] <= 1)
  }

  // ---------------------------------------------------------------- a table `check_layout` accepts

  predicate Tabled(rows: seq<Row>, total: nat) {
    RunsOn(rows, |rows|) && EndOf(rows, |rows|) == total
  }

  lemma {:induction false} RunsOnAscends(rows: seq<Row>, i: nat, j: nat)
    requires i < j < |rows| && RunsOn(rows, |rows|)
    ensures rows[i].End() <= rows[j].start
    decreases j
  {
    assert rows[j].start == EndOf(rows, j);
    if i + 1 == j {
    } else {
      RunsOnAscends(rows, i, j - 1);
    }
  }

  lemma {:induction false} RunsOnCovers(rows: seq<Row>, n: nat, bit: nat) returns (i: nat)
    requires n <= |rows| && RunsOn(rows, |rows|) && bit < EndOf(rows, n)
    ensures i < n && rows[i].Covers(bit)
  {
    if rows[n - 1].start <= bit {
      i := n - 1;
    } else {
      i := RunsOnCovers(rows, n - 1, bit);
    }
  }

  /** A table `check_layout` accepts puts every bit of the container in exactly one field. */
  lemma EveryBitInExactlyOneField(rows: seq<Row>, total: nat, bit: nat) returns (i: nat)
    requires Tabled(rows, total) && bit < total
    ensures i < |rows| && rows[i].Covers(bit) && forall j :: 0 <= j < |rows| && rows[j].Covers(bit) ==> j == i
  {
    i := RunsOnCovers(rows, |rows|, bit);
    forall j | 0 <= j < |rows| && rows[j].Covers(bit) ensures j == i {
      if j < i {
        RunsOnAscends(rows, j, i);
      } else if i < j {
        RunsOnAscends(rows, i, j);
      }
    }
  }

  lemma TabledTiles(rows: seq<Row>, total: nat)
    requires Tabled(rows, total)
    ensures Tiles(rows, total)
  {
    forall r | r in rows ensures r.End() <= total {
      var i :| 0 <= i < |rows| && rows[i] == r;
      if i < |rows| - 1 {
        RunsOnAscends(rows, i, |rows| - 1);
      }
    }
    forall b: nat | b < total ensures Covered(rows, b) {
      var i := EveryBitInExactlyOneField(rows, total, b);
    }
    forall r, s, b: nat | r in rows && s in rows && r.Covers(b) && s.Covers(b) ensures r == s {
      var x :| 0 <= x < |rows| && rows[x] == r;
      var y :| 0 <= y < |rows| && rows[y] == s;
      var i := EveryBitInExactlyOneField(rows, total, b);
    }
    forall i, j | 0 <= i < j < |rows| ensures rows[i] != rows[j] {
      RunsOnAscends(rows, i, j);
    }
    DistinctOnce(rows);
  }

  lemma {:induction false} DistinctOnce(rows: seq<Row>)
    requires forall i, j :: 0 <= i < j < |rows| ==> rows[i] != rows[j]
    ensures forall r :: multiset(rows)[r] <= 1
  {
    if rows == [] {
    } else {
      var last := |rows| - 1;
      DistinctOnce(rows[..last]);
      assert rows == rows[..last] + [rows[last]];
      assert rows[last] !in rows[..last];
    }
  }

  lemma OnceDistinct(rows: seq<Row>, i: nat, j: nat)
    requires i < j < |rows| && forall r :: multiset(rows)[r] <= 1
    ensures rows[i] != rows[j]
  {
    assert rows == rows[..j] + rows[j..];
    var x := rows[i];
    assert multiset(rows)[x] == multiset(rows[..j])[x] + multiset(rows[j..])[x];
    assert x == rows[..j][i] && x in rows[..j];
    assert multiset(rows[j..])[x] == 0;
    assert x !in rows[j..];
    assert rows[j..][0] == rows[j];
  }

  ghost predicate Ascending(rows: seq<Row>) {
    forall i, j :: 0 <= i < j < |rows| ==> rows[i].start <= rows[j].start
  }

  lemma EndsBefore(rows: seq<Row>, total: nat, j: nat, k: nat)
    requires Tiles(rows, total) && Ascending(rows) && j < k < |rows|
    ensures rows[j].End() <= rows[k].start
  {
    OnceDistinct(rows, j, k);
    assert rows[j] in rows && rows[k] in rows && rows[k].Covers(rows[k].start);
  }

  /** No row covers a bit between row `i` and the row before it. */
  lemma GapIsUncovered(rows: seq<Row>, total: nat, i: nat)
    requires Tiles(rows, total) && Ascending(rows) && i <= |rows|
    requires i < |rows| ==> EndOf(rows, i) < rows[i].start
    ensures !Covered(rows, EndOf(rows, i))
  {
    forall r | r in rows ensures !r.Covers(EndOf(rows, i)) {
      var j :| 0 <= j < |rows| && rows[j] == r;
      if j + 1 < i {
        EndsBefore(rows, total, j, i - 1);
      }
    }
  }

  /** Rows that tile a container, in order of their starts, are a table `check_layout` accepts. */
  lemma AscendingTilesAreTabled(rows: seq<Row>, total: nat)
    requires Tiles(rows, total) && Ascending(rows)
    ensures Tabled(rows, total)
  {
    var n := |rows|;
    forall i | 0 <= i < n ensures rows[i].start == EndOf(rows, i) {
      if i > 0 {
        EndsBefore(rows, total, i - 1, i);
      }
      assert rows[i] in rows;
      if EndOf(rows, i) < rows[i].start {
        GapIsUncovered(rows, total, i);
      }
    }
    if n > 0 {
      assert rows[n - 1] in rows;
    }
    if EndOf(rows, n) < total {
      GapIsUncovered(rows, total, n);
    }
  }

  // ---------------------------------------------------------------- field rows

  function Element(at: nat, each: nat, i: nat): Row
    requires each >= 1
  {
    Row(at + i * each, each)
  }

  function Elements(at: nat, each: nat, count: nat): (rows: seq<Row>)
    requires each >= 1
    ensures |rows| == count
  {
    seq(count, i requires 0 <= i < count => Element(at, each, i))
  }

  /** `rows_of`: one row, or one for each element or word. */
  function RowsOf(kind: Kind, at: nat, c: Container): (rows: seq<Row>)
    requires kind.Ok(c)
  {
    match kind
    case Packed(bits) => [Row(at, bits)]
    case Array(each, count) => Elements(at, each, count)
    case Nested(bytes) =>
      if c.WordsGrid? then Elements(at, 16, bytes / 2)
      else [Row(at, 8 * bytes)]
    case NestedArray(bytes, count) =>
      if c.WordsGrid? then Elements(at, 16, bytes / 2 * count) else Elements(at, 8 * bytes, count)
  }

  predicate AllFit(c: Container, kinds: seq<Kind>) {
    forall k | k in kinds :: k.Ok(c)
  }

  /** The rows of the prefix and the first `n` fields, in declaration order. */
  function Unsorted(c: Container, kinds: seq<Kind>, n: nat): seq<Row>
    requires n <= |kinds| && AllFit(c, kinds)
  {
    if n == 0 then
      if c.Prefix() > 0 then [Row(c.Physical(Packed(c.Prefix()), 0), c.Prefix())] else []
    else
      Unsorted(c, kinds, n - 1) + RowsOf(kinds[n - 1], c.Physical(kinds[n - 1], Declared(c, kinds, n - 1)), c)
  }

  /** A stable sort by start. */
  function SortByStart(rows: seq<Row>): (sorted: seq<Row>)
    ensures multiset(sorted) == multiset(rows)
  {
    if rows == [] then []
    else
      assert rows == rows[..|rows| - 1] + [rows[|rows| - 1]];
      Insert(SortByStart(rows[..|rows| - 1]), rows[|rows| - 1])
  }

  function Insert(sorted: seq<Row>, row: Row): (r: seq<Row>)
    ensures multiset(r) == multiset(sorted) + multiset{row}
  {
    if sorted == [] || sorted[|sorted| - 1].start <= row.start then sorted + [row]
    else
      assert sorted == sorted[..|sorted| - 1] + [sorted[|sorted| - 1]];
      Insert(sorted[..|sorted| - 1], row) + [sorted[|sorted| - 1]]
  }

  lemma {:induction false} InsertAscends(sorted: seq<Row>, row: Row)
    requires Ascending(sorted)
    ensures Ascending(Insert(sorted, row))
  {
    if sorted == [] || sorted[|sorted| - 1].start <= row.start {
    } else {
      var init, last := sorted[..|sorted| - 1], sorted[|sorted| - 1];
      InsertAscends(init, row);
      InsertBelow(init, row, last.start);
      AscendingSnoc(Insert(init, row), last);
    }
  }

  lemma InsertBelow(sorted: seq<Row>, row: Row, top: nat)
    requires row.start <= top && forall i :: 0 <= i < |sorted| ==> sorted[i].start <= top
    ensures forall i :: 0 <= i < |Insert(sorted, row)| ==> Insert(sorted, row)[i].start <= top
  {
    var r := Insert(sorted, row);
    hide Insert;
    forall i | 0 <= i < |r| ensures r[i].start <= top {
      assert r[i] in multiset(r);
    }
  }

  lemma AscendingSnoc(rows: seq<Row>, last: Row)
    requires Ascending(rows) && forall i :: 0 <= i < |rows| ==> rows[i].start <= last.start
    ensures Ascending(rows + [last])
  {
  }

  lemma {:induction false} SortAscends(rows: seq<Row>)
    ensures Ascending(SortByStart(rows))
  {
    if rows == [] {
    } else {
      SortAscends(rows[..|rows| - 1]);
      InsertAscends(SortByStart(rows[..|rows| - 1]), rows[|rows| - 1]);
    }
  }

  /** `field_rows`. */
  method FieldRows(c: Container, kinds: seq<Kind>) returns (rows: seq<Row>)
    requires AllFit(c, kinds)
    ensures rows == SortByStart(Unsorted(c, kinds, |kinds|))
  {
    hide RowsOf, Container.Physical, Kind.Width, SortByStart;
    rows := [];
    var prefix := c.Prefix();
    if prefix > 0 {
      rows := [Row(c.Physical(Packed(prefix), 0), prefix)];
    }
    var at := prefix;
    for i := 0 to |kinds|
      invariant at == Declared(c, kinds, i) && rows == Unsorted(c, kinds, i)
    {
      rows := PushRows(kinds[i], c.Physical(kinds[i], at), c, rows);
      at := at + kinds[i].Width();
    }
    rows := SortByStart(rows);
  }

  /** `rows_of`. */
  method PushRows(kind: Kind, at: nat, c: Container, before: seq<Row>) returns (rows: seq<Row>)
    requires kind.Ok(c)
    ensures rows == before + RowsOf(kind, at, c)
    decreases kind.NestedArray?
  {
    hide NestedRows;
    rows := before;
    match kind {
      case Packed(bits) =>
        rows := rows + [Row(at, bits)];
      case Array(each, count) =>
        rows := PushElements(at, each, count, rows);
      case Nested(bytes) =>
        if c.WordsGrid? {
          rows := PushElements(at, 16, bytes / 2, rows);
        } else {
          rows := rows + [Row(at, 8 * bytes)];
        }
      case NestedArray(bytes, count) =>
        NestedRowsAre(bytes, count, at, c);
        for i := 0 to count
          invariant rows == before + NestedRows(bytes, i, at, c)
        {
          var from := at + i * (8 * bytes);
          rows := PushRows(Nested(bytes), from, c, rows);
          NestedRowsGrow(bytes, i, at, c);
          AppendAssoc(before, NestedRows(bytes, i, at, c), RowsOf(Nested(bytes), from, c));
        }
    }
  }

  method PushElements(at: nat, each: nat, count: nat, before: seq<Row>) returns (rows: seq<Row>)
    requires each >= 1
    ensures rows == before + Elements(at, each, count)
  {
    rows := before;
    for i := 0 to count
      invariant rows == before + Elements(at, each, count)[..i]
    {
      rows := rows + [Row(at + i * each, each)];
    }
  }

  /** The rows of the first `n` elements of an array of nested layouts. */
  function NestedRows(bytes: nat, n: nat, at: nat, c: Container): (rows: seq<Row>)
    requires bytes >= 1
  {
    if c.WordsGrid? then Elements(at, 16, bytes / 2 * n) else Elements(at, 8 * bytes, n)
  }

  lemma NestedRowsAre(bytes: nat, n: nat, at: nat, c: Container)
    requires NestedArray(bytes, n).Ok(c)
    ensures NestedRows(bytes, 0, at, c) == [] && NestedRows(bytes, n, at, c) == RowsOf(NestedArray(bytes, n), at, c)
  {
  }

  lemma NestedRowsGrow(bytes: nat, n: nat, at: nat, c: Container)
    requires Nested(bytes).Ok(c)
    ensures NestedRows(bytes, n + 1, at, c)
         == NestedRows(bytes, n, at, c) + RowsOf(Nested(bytes), at + n * (8 * bytes), c)
  {
    hide Elements;
    if c.WordsGrid? {
      WordsOf(bytes, n);
      ElementsAppend(at, 16, bytes / 2 * n, bytes / 2);
    } else {
      ElementsAppend(at, 8 * bytes, n, 1);
      OneElement(at + n * (8 * bytes), 8 * bytes);
    }
  }

  lemma OneElement(at: nat, bits: nat)
    requires bits >= 1
    ensures Elements(at, bits, 1) == [Row(at, bits)]
  {
  }

  lemma WordsOf(bytes: nat, n: nat)
    requires bytes % 2 == 0
    ensures n * (8 * bytes) == bytes / 2 * n * 16
    ensures bytes / 2 * (n + 1) == bytes / 2 * n + bytes / 2
  {
    var half := bytes / 2;
    assert bytes == 2 * half;
    assert n * (8 * (2 * half)) == half * n * 16;
  }

  lemma ElementsAppend(at: nat, each: nat, n: nat, more: nat)
    requires each >= 1
    ensures Elements(at, each, n + more) == Elements(at, each, n) + Elements(at + n * each, each, more)
  {
    var all, tail := Elements(at, each, n + more), Elements(at + n * each, each, more);
    forall i | n <= i < n + more ensures all[i] == tail[i - n] {
      assert i * each == n * each + (i - n) * each;
    }
  }

  lemma SortedTiles(rows: seq<Row>, total: nat)
    requires Tiles(rows, total)
    ensures Tabled(SortByStart(rows), total)
  {
    var sorted := SortByStart(rows);
    SortAscends(rows);
    assert forall r :: r in sorted <==> r in multiset(sorted);
    assert forall r :: r in rows <==> r in multiset(rows);
    forall b: nat | b < total ensures Covered(sorted, b) {
      assert Covered(rows, b);
    }
    AscendingTilesAreTabled(sorted, total);
  }

  // ---------------------------------------------------------------- what the solver accepts, tiles

  /** `more` runs on from `at` to `end`. */
  predicate RunsFrom(more: seq<Row>, at: nat, end: nat) {
    && (forall j {:trigger EndFrom(more, j, at)} :: 0 <= j < |more| ==> more[j].start == EndFrom(more, j, at))
    && end == EndFrom(more, |more|, at)
  }

  lemma RowsRunOn(kind: Kind, at: nat, c: Container)
    requires kind.Ok(c)
    ensures RunsFrom(RowsOf(kind, at, c), at, at + kind.Width())
  {
    hide RunsFrom, Elements;
    match kind {
      case Packed(bits) => OneRunsOn(at, bits);
      case Array(each, count) => ElementsRunOn(at, each, count);
      case Nested(bytes) =>
        if c.WordsGrid? {
          ElementsRunOn(at, 16, bytes / 2);
        } else {
          OneRunsOn(at, 8 * bytes);
        }
      case NestedArray(bytes, count) =>
        if c.WordsGrid? {
          WordsOf(bytes, count);
          ElementsRunOn(at, 16, bytes / 2 * count);
        } else {
          ElementsRunOn(at, 8 * bytes, count);
        }
    }
  }

  /** How wide each of a field's rows is: they run on, so that is where they all are. */
  lemma RowsAreElements(kind: Kind, at: nat, c: Container)
    requires kind.Ok(c)
    ensures forall r :: r in RowsOf(kind, at, c) ==>
      r.width ==
        match kind
        case Packed(bits) => bits
        case Array(each, _) => each
        case Nested(bytes) => if c.WordsGrid? then 16 else 8 * bytes
        case NestedArray(bytes, _) => if c.WordsGrid? then 16 else 8 * bytes
  {
  }

  lemma OneRunsOn(at: nat, bits: nat)
    requires bits >= 1
    ensures RunsFrom([Row(at, bits)], at, at + bits)
  {
    assert EndFrom([Row(at, bits)], 1, at) == at + bits;
  }

  lemma ElementsRunOn(at: nat, each: nat, count: nat)
    requires each >= 1
    ensures RunsFrom(Elements(at, each, count), at, at + each * count)
  {
    var rows := Elements(at, each, count);
    forall i | 0 <= i < count ensures rows[i].End() == at + (i + 1) * each {
    }
  }

  lemma TabledAppend(rows: seq<Row>, more: seq<Row>, at: nat, end: nat)
    requires Tabled(rows, at) && RunsFrom(more, at, end)
    ensures Tabled(rows + more, end)
  {
    var all := rows + more;
    forall j | 0 <= j < |all| ensures all[j].start == EndOf(all, j) {
      if j < |rows| {
        assert rows[j].start == EndOf(rows, j);
      } else {
        assert more[j - |rows|].start == EndFrom(more, j - |rows|, at);
      }
    }
    assert more == [] ==> all == rows;
  }

  /** Without a mirror the rows run on in declaration order. */
  lemma {:induction false} PlainRowsRunOn(c: Container, kinds: seq<Kind>, n: nat)
    requires n <= |kinds| && AllFit(c, kinds) && !c.Mirrors()
    ensures Tabled(Unsorted(c, kinds, n), Declared(c, kinds, n))
  {
    if n == 0 {
    } else {
      var at := Declared(c, kinds, n - 1);
      PlainRowsRunOn(c, kinds, n - 1);
      RowsRunOn(kinds[n - 1], at, c);
      TabledAppend(Unsorted(c, kinds, n - 1), RowsOf(kinds[n - 1], at, c), at, at + kinds[n - 1].Width());
    }
  }

  predicate AllPacked(kinds: seq<Kind>) {
    forall k | k in kinds :: k.Packed?
  }

  /** The same container with its fields in declaration order. */
  function Unmirrored(c: Container): Container {
    if c.ByteGrid? then c else c.(order := Lsb)
  }

  /** The bit a mirror puts in the place of `bit`. */
  function Mirrored(c: Container, bit: nat): (m: nat)
    requires c.Region() > 0
    ensures m < bit + c.Region()
  {
    RemainderIsSmall(bit, c.Region());
    bit - bit % c.Region() + c.Region() - 1 - bit % c.Region()
  }

  lemma RemainderIsSmall(n: nat, region: nat)
    requires region > 0
    ensures 0 <= n % region < region && n % region <= n
  {
    if n < region {
      InFirst(n, region);
    }
  }

  function MirrorRow(c: Container, r: Row): Row {
    Row(c.Physical(Packed(r.width), r.start), r.width)
  }

  /** A row that does not cross its region's end covers, mirrored, the mirrors of its bits. */
  lemma MirrorRowCovers(c: Container, r: Row, bit: nat)
    requires c.Mirrors() && c.Region() > 0 && r.End() <= c.Size() && bit < c.Size()
    requires r.start % c.Region() + r.width <= c.Region()
    ensures Mirrored(c, bit) < c.Size()
    ensures MirrorRow(c, r).Covers(bit) <==> r.Covers(Mirrored(c, bit))
    ensures MirrorRow(c, r).End() <= c.Size()
  {
    if c.WordGrid? {
      InFirst(bit, c.size);
      InFirst(r.start, c.size);
    } else {
      MirrorWithin16(r.start, r.width, bit, c.words);
    }
  }

  lemma InFirst(n: nat, size: nat)
    requires n < size
    ensures n % size == n
  {
  }

  lemma MirrorWithin16(start: nat, width: nat, bit: nat, words: nat)
    requires start % 16 + width <= 16 && bit < 16 * words && start + width <= 16 * words && width >= 1
    ensures var base, m := start - start % 16, bit - bit % 16 + 15 - bit % 16;
      var phys := base + 16 - (start % 16 + width);
      && m < 16 * words
      && (phys <= bit < phys + width <==> start <= m < start + width)
      && phys + width <= 16 * words
  {
    var q, t := start / 16, bit / 16;
    assert start == 16 * q + start % 16 && bit == 16 * t + bit % 16;
    assert q < words && t < words;
  }

  lemma MirrorTiles(c: Container, plain: seq<Row>, rows: seq<Row>)
    requires c.Mirrors() && c.Region() > 0 && Tabled(plain, c.Size())
    requires forall r :: r in plain ==> r.start % c.Region() + r.width <= c.Region()
    requires |rows| == |plain| && forall i :: 0 <= i < |rows| ==> rows[i] == MirrorRow(c, plain[i])
    ensures Tiles(rows, c.Size())
  {
    var total := c.Size();
    TabledTiles(plain, total);
    forall i, bit: nat | 0 <= i < |rows| && bit < total
      ensures rows[i].Covers(bit) <==> plain[i].Covers(Mirrored(c, bit))
      ensures Mirrored(c, bit) < total && rows[i].End() <= total
    {
      assert plain[i] in plain;
      MirrorRowCovers(c, plain[i], bit);
    }
    forall r | r in rows ensures r.End() <= total {
      var i :| 0 <= i < |rows| && rows[i] == r;
      assert plain[i] in plain && plain[i].Covers(plain[i].start);
      assert rows[i].Covers(rows[i].start);
      MirrorRowCovers(c, plain[i], plain[i].start);
    }
    forall bit: nat | bit < total ensures Covered(rows, bit) {
      assert Covered(plain, Mirrored(c, bit));
      var r :| r in plain && r.Covers(Mirrored(c, bit));
      var i :| 0 <= i < |plain| && plain[i] == r;
      assert rows[i].Covers(bit);
    }
    forall i, j, bit: nat | 0 <= i < |rows| && 0 <= j < |rows| && rows[i].Covers(bit) && rows[j].Covers(bit)
      ensures i == j
    {
      assert rows[i] in rows && bit < total;
      assert plain[i] in plain && plain[j] in plain;
      var only := EveryBitInExactlyOneField(plain, total, Mirrored(c, bit));
    }
    forall i, j | 0 <= i < j < |rows| ensures rows[i] != rows[j] {
      assert rows[i].Covers(rows[i].start);
    }
    DistinctOnce(rows);
  }

  /** Packed fields give the same rows in either order, mirrored one by one. */
  lemma {:induction false} RowsMirror(c: Container, kinds: seq<Kind>, n: nat)
    requires n <= |kinds| && AllFit(c, kinds) && AllPacked(kinds) && c.Mirrors()
    ensures AllFit(Unmirrored(c), kinds)
    ensures var plain, rows := Unsorted(Unmirrored(c), kinds, n), Unsorted(c, kinds, n);
      |rows| == |plain| && forall i :: 0 <= i < |rows| ==> rows[i] == MirrorRow(c, plain[i])
    ensures Declared(Unmirrored(c), kinds, n) == Declared(c, kinds, n)
  {
    if n == 0 {
    } else {
      RowsMirror(c, kinds, n - 1);
    }
  }

  /** No accepted packed field crosses the end of the region it is mirrored in. */
  lemma {:induction false} PlainRowsStayInside(c: Container, kinds: seq<Kind>, n: nat)
    requires n <= |kinds| && AllFit(c, kinds) && AllPacked(kinds) && c.Mirrors() && c.Ok()
    requires forall i :: 0 <= i < n ==> Placed(c, kinds, i)
    ensures AllFit(Unmirrored(c), kinds)
    ensures forall r :: r in Unsorted(Unmirrored(c), kinds, n) ==>
      r.start % c.Region() + r.width <= c.Region()
  {
    RowsMirror(c, kinds, n);
    if n > 0 {
      PlainRowsStayInside(c, kinds, n - 1);
      RowsMirror(c, kinds, n - 1);
      hide Misplaced, Container.Region, Container.Size;
      assert Placed(c, kinds, n - 1) && kinds[n - 1] in kinds;
      PlacedStaysInside(c, kinds[n - 1], Declared(c, kinds, n - 1), n - 1);
      OthersStayInPlace(Unmirrored(c), kinds[n - 1], Declared(c, kinds, n - 1));
    } else if c.Prefix() > 0 {
      InFirst(0, c.size);
    }
  }

  lemma PlacedStaysInside(c: Container, kind: Kind, at: nat, item: nat)
    requires c.Mirrors() && c.Ok() && kind.Ok(c) && kind.Packed?
    requires Misplaced(c, kind, at, item).None? && at + kind.bits <= c.Size()
    ensures c.Region() > 0 && at % c.Region() + kind.bits <= c.Region()
  {
    if c.WordGrid? {
      InFirst(at, c.size);
    }
  }

  /** When the solver accepts a container of packed fields in either bit order, or of any fields in plain order,
      the rows tile it, and sorted by start they are a table `check_layout` accepts. */
  lemma AcceptedLayoutsAreTabled(c: Container, kinds: seq<Kind>)
    requires c.Ok() && AllFit(c, kinds) && Accepts(c, kinds)
    requires AllPacked(kinds) || !c.Mirrors()
    ensures Tiles(Unsorted(c, kinds, |kinds|), c.Size())
    ensures Tabled(SortByStart(Unsorted(c, kinds, |kinds|)), c.Size())
  {
    var n := |kinds|;
    if !c.Mirrors() {
      PlainRowsRunOn(c, kinds, n);
      TabledTiles(Unsorted(c, kinds, n), c.Size());
    } else if c.Region() > 0 {
      RowsMirror(c, kinds, n);
      PlainRowsRunOn(Unmirrored(c), kinds, n);
      PlainRowsStayInside(c, kinds, n);
      MirrorTiles(c, Unsorted(Unmirrored(c), kinds, n), Unsorted(c, kinds, n));
    }
    SortedTiles(Unsorted(c, kinds, n), c.Size());
  }
}
