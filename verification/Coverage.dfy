/** The bytes a checksum covers, and whether a body's checksums can be stamped in some order. */
module Coverage {
  import opened Words
  import opened Walks

  datatype CoverFrom = Start | FromField(name: string)

  datatype CoverTo = Here | Before(name: string) | After(name: string)

  type Place = (nat, nat)

  datatype Coverage = Coverage(from: CoverFrom, to: CoverTo) {
    /** Both ends as positions, once names are looked up in `at`; nothing if either is unknown. */
    function Resolve(own: Place, at: string -> Option<Place>): Option<Covered> {
      var start := match from
        case Start => Some(0)
        case FromField(f) => if at(f).Some? then Some(at(f).value.0) else None;
      var end := match to
        case Here => Some(own.0)
        case Before(f) => if at(f).Some? then Some(at(f).value.0) else None
        case After(f) => if at(f).Some? then Some(at(f).value.1) else None;
      if start.Some? && end.Some? then Some(Covered(start.value, end.value, own)) else None
    }
  }

  /** Resolved ends, beside the place of the checksum they belong to. */
  datatype Covered = Covered(from: nat, to: nat, own: Place) {
    predicate Excises() {
      from <= own.0 && to > own.0
    }

    function Runs(): seq<Place> {
      if Excises() then [(from, own.0), (own.1, to)] else [(from, to)]
    }
  }

  predicate InRun(runs: seq<Place>, x: nat) {
    exists r | r in runs :: r.0 <= x < r.1
  }

  /** The runs are exactly the range without the checksum's own place, unless the range starts inside it. */
  lemma RunsAreTheRangeWithoutItself(c: Covered)
    requires c.own.0 <= c.own.1
    ensures (forall x: nat :: InRun(c.Runs(), x) <==> c.from <= x < c.to && !(c.own.0 <= x < c.own.1))
      <==> !(c.own.0 < c.from < c.own.1 && c.from < c.to)
  {
    if c.own.0 < c.from < c.own.1 && c.from < c.to {
      assert (c.from, c.to) in c.Runs() && InRun(c.Runs(), c.from);
    } else {
      forall x: nat
        ensures InRun(c.Runs(), x) <==> c.from <= x < c.to && !(c.own.0 <= x < c.own.1)
      {
        if c.Excises() {
          assert c.Runs()[0] == (c.from, c.own.0) && c.Runs()[1] == (c.own.1, c.to);
        } else {
          assert c.Runs()[0] == (c.from, c.to);
        }
      }
    }
  }

  // ---------------------------------------------------------------- stamping

  datatype Check = Check(name: string, over: Coverage)

  /** The position of a row in wire order. */
  function Order(names: seq<string>, row: string, from: nat): (r: Option<nat>)
    requires from <= |names|
    ensures r.Some? ==> from <= r.value < |names| && names[r.value] == row
    ensures r.Some? <==> row in names[from..]
    decreases |names| - from
  {
    if from == |names| then None
    else if names[from] == row then Some(from)
    else Order(names, row, from + 1)
  }

  function PlaceOf(names: seq<string>): string -> Option<Place> {
    (n: string) =>
      var i := Order(names, n, 0);
      if i.Some? then Some((i.value, i.value + 1)) else None
  }

  /** Whether the range of the checksum `own` reaches the row `other`. */
  predicate Covers(names: seq<string>, over: Coverage, own: string, other: string) {
    var o, t := Order(names, own, 0), Order(names, other, 0);
    o.Some? && t.Some? &&
    var c := over.Resolve((o.value, o.value + 1), PlaceOf(names));
    c.Some? && InRun(c.value.Runs(), t.value)
  }

  predicate WaitsOn(names: seq<string>, checks: seq<Check>, i: nat, j: nat)
    requires i < |checks| && j < |checks|
  {
    checks[j].name != checks[i].name && Covers(names, checks[i].over, checks[i].name, checks[j].name)
  }

  /** A checksum covers another exactly when the other's row lies in its resolved range. */
  lemma CoversMeansInRange(names: seq<string>, over: Coverage, own: string, other: string)
    requires own != other && own in names && other in names
    ensures Order(names, own, 0).Some? && Order(names, other, 0).Some?
    ensures var o, t := Order(names, own, 0).value, Order(names, other, 0).value;
      var c := over.Resolve((o, o + 1), PlaceOf(names));
      Covers(names, over, own, other) <==> c.Some? && c.value.from <= t < c.value.to
  {
    assert names[0..] == names;
    var o := Order(names, own, 0).value;
    var c := over.Resolve((o, o + 1), PlaceOf(names));
    if c.Some? {
      RunsAreTheRangeWithoutItself(c.value);
    }
  }

  /** In names: a checksum covers a row from the one its range starts at, or the first, to the last one before the one
      it ends at, or to that one when the range takes it in. */
  lemma CoversByName(names: seq<string>, over: Coverage, own: string, other: string)
    requires own != other
    ensures Covers(names, over, own, other) <==> own in names && other in names && TakesIn(names, over, own, other)
  {
    assert names[0..] == names;
    if own in names && other in names {
      CoversMeansInRange(names, over, own, other);
    }
  }

  predicate TakesIn(names: seq<string>, over: Coverage, own: string, other: string) {
    var row := RowOf(names, other);
    && (over.from.FromField? ==> over.from.name in names && RowOf(names, over.from.name) <= row)
    && (match over.to
        case Here => row < RowOf(names, own)
        case Before(name) => name in names && row < RowOf(names, name)
        case After(name) => name in names && row <= RowOf(names, name))
  }

  /** A checksum waits on the other checksums its range takes in. */
  lemma WaitsByName(names: seq<string>, checks: seq<Check>, i: nat, j: nat)
    ensures (i, j) in Waits(names, checks) <==>
      && i < |checks| && j < |checks|
      && var own, other := checks[i].name, checks[j].name;
         own != other && own in names && other in names && TakesIn(names, checks[i].over, own, other)
  {
    hide Covers, TakesIn;
    if i < |checks| && j < |checks| && checks[i].name != checks[j].name {
      CoversByName(names, checks[i].over, checks[i].name, checks[j].name);
    }
  }

  /** The row of a name, if it has one. */
  function RowOf(names: seq<string>, name: string): int {
    var i := Order(names, name, 0);
    if i.Some? then i.value else -1
  }

  // ---------------------------------------------------------------- accepted ranges

  datatype Refusal =
    | StartsAtItself | RunsThroughItself | EndsAtItself | Empty | Backwards
    | SometimesPresent(field: string) | Unknown(field: string)

  function Position(places: seq<string>, optional: seq<string>, field: string): Result<nat, Refusal> {
    var i := Order(places, field, 0);
    if i.Some? then Ok(i.value)
    else if field in optional then Err(SometimesPresent(field))
    else Err(Unknown(field))
  }

  /** `coverage`: checks a range for the checksum `own`. */
  function Validate(places: seq<string>, optional: seq<string>, own: string, over: Coverage): Result<(), Refusal> {
    if over.from == FromField(own) then Err(StartsAtItself)
    else
      var from := if over.from.Start? then Ok(0) else Position(places, optional, over.from.name);
      if from.Err? then Err(from.error)
      else
        var end := if over.to.Here? then own else over.to.name;
        var through := over.to.After?;
        if end == own && through then Err(RunsThroughItself)
        else
          var to := Position(places, optional, end);
          var ck := Position(places, optional, own);
          if to.Err? then Err(to.error)
          else if ck.Err? then Err(ck.error)
          else if over.to.Before? && to.value == ck.value then Err(EndsAtItself)
          else if !through && to.value == 0 then Err(Empty)
          else
            var last := if through then to.value else to.value - 1;
            if over.from.FromField? && from.value > last then Err(Backwards) else Ok(())
  }

  /** A range is accepted exactly when it begins and ends at rows other than the checksum, or at the ends that need no
      name, does not end before the first row, and does not begin after its last one. */
  lemma ValidatesExactly(places: seq<string>, optional: seq<string>, own: string, over: Coverage)
    ensures Validate(places, optional, own, over).Ok? <==>
      && own in places
      && (over.from.FromField? ==> over.from.name in places && over.from.name != own)
      && (!over.to.Here? ==> over.to.name in places && RowOf(places, over.to.name) != RowOf(places, own))
      && var last :=
           if over.to.Here? then RowOf(places, own) - 1
           else RowOf(places, over.to.name) - if over.to.After? then 0 else 1;
         0 <= last && (over.from.FromField? ==> RowOf(places, over.from.name) <= last)
  {
    hide Order;
    assert places[0..] == places;
    if !over.to.Here? && over.to.name in places && own in places {
      SameRow(places, over.to.name, own);
    }
  }

  /** What each refusal says is so. A name that is not a row may be one that is only sometimes there. */
  lemma RefusalsAreTrue(places: seq<string>, optional: seq<string>, own: string, over: Coverage)
    requires Validate(places, optional, own, over).Err?
    ensures match Validate(places, optional, own, over).error
      case StartsAtItself => over.from == FromField(own)
      case RunsThroughItself => over.to == After(own)
      case EndsAtItself => own in places && over.to == Before(own)
      case Empty => !over.to.After? && RowOf(places, if over.to.Here? then own else over.to.name) == 0
      case Backwards =>
        && over.from.FromField?
        && var end := RowOf(places, if over.to.Here? then own else over.to.name);
           if over.to.After? then RowOf(places, over.from.name) > end else RowOf(places, over.from.name) >= end
      case SometimesPresent(name) => name !in places && name in optional && Mentions(over, own, name)
      case Unknown(name) => name !in places && name !in optional && Mentions(over, own, name)
  {
    hide Order;
    assert places[0..] == places;
  }

  predicate Mentions(over: Coverage, own: string, name: string) {
    name == own || over.from == FromField(name) || (!over.to.Here? && over.to.name == name)
  }

  lemma SameRow(places: seq<string>, a: string, b: string)
    requires a in places && b in places
    ensures RowOf(places, a) == RowOf(places, b) <==> a == b
  {
    hide Order;
    assert places[0..] == places;
  }

  /** An accepted range resolves, forwards. */
  lemma ValidatedRangesResolve(places: seq<string>, optional: seq<string>, own: string, over: Coverage)
    requires Validate(places, optional, own, over).Ok?
    ensures own in places
    ensures var o := Order(places, own, 0).value;
      var c := over.Resolve((o, o + 1), PlaceOf(places));
      && c.Some? && c.value.from < c.value.to <= |places| && c.value.own == (o, o + 1)
      && (c.value.from == o ==> over.from.Start? && o == 0)
      && (over.from.Start? ==> c.value.from == 0)
  {
    hide Order;
    assert places[0..] == places;
  }

  /** An accepted range covers some row exactly when it is not the first row alone, which is then the checksum:
      `over = ..b` on a checksum at the front, just before `b`, is accepted and covers nothing. */
  lemma ValidatedRangesCover(places: seq<string>, optional: seq<string>, own: string, over: Coverage)
    requires Validate(places, optional, own, over).Ok?
    ensures own in places
    ensures var o := Order(places, own, 0).value;
      var c := over.Resolve((o, o + 1), PlaceOf(places));
      && c.Some?
      && ((exists x: nat :: InRun(c.value.Runs(), x)) <==> !(o == 0 && over.from.Start? && c.value.to == 1))
  {
    hide Validate, Coverage.Resolve, Order, InRun, Covered.Runs;
    ValidatedRangesResolve(places, optional, own, over);
    var o := Order(places, own, 0).value;
    var c := over.Resolve((o, o + 1), PlaceOf(places)).value;
    RunsAreTheRangeWithoutItself(c);
    var x: nat := if c.from == o then o + 1 else c.from;
    assert x < c.to ==> InRun(c.Runs(), x);
  }

  lemma AnAcceptedRangeThatCoversNothing()
    ensures var over := Coverage(Start, Before("b"));
      && Validate(["sum", "b"], [], "sum", over).Ok?
      && over.Resolve((0, 1), PlaceOf(["sum", "b"])) == Some(Covered(0, 1, (0, 1)))
      && forall x: nat :: !InRun(Covered(0, 1, (0, 1)).Runs(), x)
  {
    assert Order(["sum", "b"], "b", 0) == Some(1) by {
      assert Order(["sum", "b"], "b", 1) == Some(1);
    }
    RunsAreTheRangeWithoutItself(Covered(0, 1, (0, 1)));
  }

  /** Which checksums must be stamped before which. */
  function Waits(names: seq<string>, checks: seq<Check>): Edges {
    set i, j | 0 <= i < |checks| && 0 <= j < |checks| && WaitsOn(names, checks, i, j) :: (i, j)
  }

  /** An order of all the checksums in which each comes after every checksum it covers. */
  ghost predicate StampingOrder(names: seq<string>, checks: seq<Check>, order: seq<nat>) {
    && |order| == |checks|
    && (forall i: nat :: i < |checks| ==> i in order)
    && Points(Waits(names, checks), order)
  }

  /** One of these checksums that checksum `i` covers. */
  predicate CoversOneOf(names: seq<string>, checks: seq<Check>, left: seq<nat>, i: nat)
    requires i < |checks|
  {
    exists j | j in left :: j < |checks| && WaitsOn(names, checks, i, j)
  }

  /** Checksums none of which can be computed before the others: each covers another of them. */
  predicate Stuck(names: seq<string>, checks: seq<Check>, left: seq<nat>) {
    left != [] && forall k :: 0 <= k < |left| ==> left[k] < |checks| && CoversOneOf(names, checks, left, left[k])
  }

  function Named(checks: seq<Check>, left: seq<nat>): (r: seq<string>)
    requires forall k :: 0 <= k < |left| ==> left[k] < |checks|
    ensures |r| == |left|
  {
    seq(|left|, k requires 0 <= k < |left| => checks[left[k]].name)
  }

  ghost predicate Blames(names: seq<string>, checks: seq<Check>, error: seq<string>) {
    exists left: seq<nat> :: Stuck(names, checks, left) && error == Named(checks, left)
  }

  /** `stampable`. A refusal names checksums that are stuck on one another. */
  method Stampable(names: seq<string>, checks: seq<Check>) returns (r: Result<(), seq<string>>)
    ensures r.Ok? <==> Acyclic(Waits(names, checks))
    ensures r.Ok? <==> exists order :: StampingOrder(names, checks, order)
    ensures r.Err? ==> Blames(names, checks, r.error)
  {
    hide Waits, WaitsOn, Acyclic, Stuck, Blames, Lists;
    var n := |checks|;
    ghost var e := Waits(names, checks);
    WaitsWithin(names, checks);
    var stamped := seq(n, _ => false);
    ghost var order: seq<nat> := [];
    for round := 0 to n
      invariant |stamped| == n && |order| == round
      invariant forall i: nat :: i in order <==> i < n && stamped[i]
      invariant Points(e, order)
    {
      var next := 0;
      while next < n && (stamped[next] || !ReadyAt(names, checks, stamped, next))
        invariant 0 <= next <= n
        invariant forall i :: 0 <= i < next ==> stamped[i] || !ReadyAt(names, checks, stamped, i)
      {
        next := next + 1;
      }
      if next == n {
        var stuck := NamesLeft(checks, stamped);
        StuckIsCyclic(names, checks, stamped, order);
        SomeListed(Unstamped(stamped, n), stamped);
        LeftIsStuck(names, checks, stamped);
        return Err(stuck);
      }
      PointsSnoc(names, checks, stamped, order, next);
      stamped := stamped[next := true];
      order := order + [next];
    }
    DistinctFills(order, n);
    assert StampingOrder(names, checks, order);
    OrderedIsAcyclic(e, n, order);
    return Ok(());
  }

  /** The first `n` checksums' numbers, without those that are stamped. */
  function Unstamped(stamped: seq<bool>, n: nat): (left: seq<nat>)
    requires n <= |stamped|
    ensures Lists(left, stamped, n) && forall k :: 0 <= k < |left| ==> left[k] < n
  {
    if n == 0 then []
    else Unstamped(stamped, n - 1) + if stamped[n - 1] then [] else [n - 1]
  }

  method NamesLeft(checks: seq<Check>, stamped: seq<bool>) returns (names: seq<string>)
    requires |stamped| == |checks|
    ensures names == Named(checks, Unstamped(stamped, |checks|))
  {
    hide Named, Unstamped;
    NamedNone(checks, stamped);
    names := [];
    for i := 0 to |checks|
      invariant names == Named(checks, Unstamped(stamped, i))
    {
      NamedOneMore(checks, stamped, i);
      if !stamped[i] {
        names := names + [checks[i].name];
      }
    }
  }

  lemma NamedNone(checks: seq<Check>, stamped: seq<bool>)
    ensures Named(checks, Unstamped(stamped, 0)) == []
  {
  }

  lemma NamedOneMore(checks: seq<Check>, stamped: seq<bool>, i: nat)
    requires i < |stamped| == |checks|
    ensures Named(checks, Unstamped(stamped, i + 1))
         == Named(checks, Unstamped(stamped, i)) + if stamped[i] then [] else [checks[i].name]
  {
    hide Lists;
  }

  predicate ReadyAt(names: seq<string>, checks: seq<Check>, stamped: seq<bool>, i: nat)
    requires |stamped| == |checks| && i < |checks|
  {
    forall j | 0 <= j < |checks| :: WaitsOn(names, checks, i, j) ==> stamped[j]
  }

  lemma WaitsWithin(names: seq<string>, checks: seq<Check>)
    ensures Within(Waits(names, checks), |checks|)
  {
  }

  lemma PointsSnoc(names: seq<string>, checks: seq<Check>, stamped: seq<bool>, order: seq<nat>, next: nat)
    requires |stamped| == |checks| && next < |checks| && !stamped[next] && ReadyAt(names, checks, stamped, next)
    requires forall i: nat :: i in order <==> i < |checks| && stamped[i]
    requires Points(Waits(names, checks), order)
    ensures Points(Waits(names, checks), order + [next])
  {
    var e, longer := Waits(names, checks), order + [next];
    forall a, j | 0 <= a < |longer| && (longer[a], j) in e ensures j in longer[..a] {
      if a < |order| {
        assert longer[..a] == order[..a];
      } else {
        assert longer[..a] == order;
      }
    }
    forall a, b | 0 <= a < b < |longer| ensures longer[a] != longer[b] {
      assert a < |order| && order[a] in order;
    }
  }

  /** When no checksum left is ready, the ones left cover each other in a cycle, and no order exists. */
  lemma StuckIsCyclic(names: seq<string>, checks: seq<Check>, stamped: seq<bool>, order: seq<nat>)
    requires |stamped| == |checks| && |order| < |checks|
    requires forall i: nat :: i in order <==> i < |checks| && stamped[i]
    requires forall i :: 0 <= i < |checks| ==> stamped[i] || !ReadyAt(names, checks, stamped, i)
    ensures !Acyclic(Waits(names, checks))
    ensures !exists order' :: StampingOrder(names, checks, order')
    ensures exists i :: 0 <= i < |checks| && !stamped[i]
  {
    hide Waits, WaitsOn, HasNext;
    var e, n := Waits(names, checks), |checks|;
    var start := SomeLeft(stamped, order);
    var stuck := set i | 0 <= i < n && !stamped[i];
    forall i | i in stuck ensures HasNext(e, stuck, i) {
      LeftWaitsOnLeft(names, checks, stamped, stuck, i);
    }
    StuckLeadsToCycle(e, n, stuck, start);
    WaitsWithin(names, checks);
    if order' :| StampingOrder(names, checks, order') {
      OrderedIsAcyclic(e, n, order');
    }
  }

  /** `left` is the first `n` checksums that are not stamped. */
  predicate Lists(left: seq<nat>, stamped: seq<bool>, n: nat)
    requires n <= |stamped|
  {
    && (forall k :: 0 <= k < |left| ==> left[k] < n && !stamped[left[k]])
    && forall j: nat :: j < n && !stamped[j] ==> j in left
  }

  lemma LeftIsStuck(names: seq<string>, checks: seq<Check>, stamped: seq<bool>)
    requires |stamped| == |checks|
    requires forall i :: 0 <= i < |checks| ==> stamped[i] || !ReadyAt(names, checks, stamped, i)
    ensures Unstamped(stamped, |checks|) != [] ==> Blames(names, checks, Named(checks, Unstamped(stamped, |checks|)))
  {
    hide WaitsOn, CoversOneOf, ReadyAt, Lists, Order, Blames, Named, Unstamped;
    var left := Unstamped(stamped, |checks|);
    forall k | 0 <= k < |left| ensures CoversOneOf(names, checks, left, left[k]) {
      ListedIsLeft(left, stamped, k);
      WaitsOnLeft(names, checks, stamped, left, left[k]);
    }
    if left != [] {
      StuckBlames(names, checks, left);
    }
  }

  lemma StuckBlames(names: seq<string>, checks: seq<Check>, left: seq<nat>)
    ensures Stuck(names, checks, left) ==> Blames(names, checks, Named(checks, left))
  {
  }

  lemma ListedIsLeft(left: seq<nat>, stamped: seq<bool>, k: nat)
    requires Lists(left, stamped, |stamped|) && k < |left|
    ensures left[k] < |stamped| && !stamped[left[k]]
  {
  }

  lemma SomeListed(left: seq<nat>, stamped: seq<bool>)
    requires Lists(left, stamped, |stamped|) && exists i :: 0 <= i < |stamped| && !stamped[i]
    ensures left != [] && forall k :: 0 <= k < |left| ==> left[k] < |stamped|
  {
    var some :| 0 <= some < |stamped| && !stamped[some];
    assert some in left;
  }

  lemma WaitsOnLeft(names: seq<string>, checks: seq<Check>, stamped: seq<bool>, left: seq<nat>, i: nat)
    requires |stamped| == |checks| && i < |checks| && !ReadyAt(names, checks, stamped, i)
    requires Lists(left, stamped, |checks|)
    ensures CoversOneOf(names, checks, left, i)
  {
    hide WaitsOn;
    var j :| 0 <= j < |checks| && WaitsOn(names, checks, i, j) && !stamped[j];
    assert j in left;
  }

  lemma LeftWaitsOnLeft(names: seq<string>, checks: seq<Check>, stamped: seq<bool>, stuck: set<nat>, i: nat)
    requires |stamped| == |checks| && i in stuck && forall j: nat :: j in stuck <==> j < |checks| && !stamped[j]
    requires !ReadyAt(names, checks, stamped, i)
    ensures HasNext(Waits(names, checks), stuck, i)
  {
    var j :| 0 <= j < |checks| && WaitsOn(names, checks, i, j) && !stamped[j];
    assert j in stuck && (i, j) in Waits(names, checks);
  }

  lemma SomeLeft(stamped: seq<bool>, order: seq<nat>) returns (left: nat)
    requires |order| < |stamped| && forall i: nat :: i in order <==> i < |stamped| && stamped[i]
    ensures left < |stamped| && !stamped[left]
  {
    if forall i :: 0 <= i < |stamped| ==> stamped[i] {
      ElementsSize(order);
      SubsetSize(Upto(|stamped|), Elements(order));
      assert false;
    }
    left :| 0 <= left < |stamped| && !stamped[left];
  }

  lemma {:induction false} ElementsSize(p: seq<nat>)
    ensures |Elements(p)| <= |p|
  {
    if p == [] {
    } else {
      ElementsSize(p[..|p| - 1]);
    }
  }
}
