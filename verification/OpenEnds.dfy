/** Items that end as other items do: the cycles of that relation, and which of them run on without an end. */
module OpenEnds {
  import opened Words
  import opened Walks
  import opened Items
  import opened Graph

  /** What a body's end says: an answer, or whose answer to take. */
  datatype Term = Known(open: bool) | Defers(to: Referent)

  datatype Body = Body(name: string, choice: bool, terms: seq<Term>)

  function SegmentOpenEnded(segment: Segment): bool {
    (segment.Repeat? && segment.count.Fill?) || ((segment.Value? || segment.Opt?) && segment.kind.TextToEnd?)
  }

  /** The last segment's reference, when the body ends as its target does. */
  function DefersOpenEnd(segments: seq<Segment>): Option<Reference> {
    if segments == [] then None
    else
      var last := segments[|segments| - 1];
      match last
      case Switch(_, windowed) => if windowed then None else Refers(last)
      case Value(Msg(_, _)) => Refers(last)
      case Opt(Msg(_, _)) => Refers(last)
      case _ => None
  }

  function TermOf(segments: seq<Segment>): Term {
    match DefersOpenEnd(segments)
    case Some(r) => Defers(r.to)
    case None => Known(segments != [] && SegmentOpenEnded(segments[|segments| - 1]))
  }

  function BodyOf(item: Item): Option<Body> {
    match item
    case Message(name, segments) => Some(Body(name, false, [TermOf(segments)]))
    case Choice(name, arms, other, otherBytes) =>
      if other && !otherBytes then Some(Body(name, true, [Known(true)]))
      else Some(Body(name, true, seq(|arms|, i requires 0 <= i < |arms| => TermOf(arms[i]))))
    case OtherItem => None
  }

  function BodiesOf(items: seq<Item>): seq<Body> {
    if items == [] then []
    else
      var rest := BodiesOf(items[1..]);
      match BodyOf(items[0]) case Some(body) => [body] + rest case None => rest
  }

  function Locate(bodies: seq<Body>, to: Referent, from: nat): (r: Option<nat>)
    requires from <= |bodies|
    ensures r.Some? ==> from <= r.value < |bodies|
    decreases |bodies| - from
  {
    if from == |bodies| then None
    else if bodies[from].name == to.name && bodies[from].choice == to.ToChoice? then Some(from)
    else Locate(bodies, to, from + 1)
  }

  predicate DefersTo(bodies: seq<Body>, i: nat, j: nat)
    requires i < |bodies|
  {
    exists t | t in bodies[i].terms :: t.Defers? && Locate(bodies, t.to, 0) == Some(j)
  }

  /** Item `i` ends the way item `j` does. */
  function Deferrals(bodies: seq<Body>): Edges {
    set i, j | 0 <= i < |bodies| && 0 <= j < |bodies| && DefersTo(bodies, i, j) :: (i, j)
  }

  // ---------------------------------------------------------------- transitive closure

  /** `i` to `j` by a path whose inner nodes are all below `k`. */
  ghost predicate Via(e: Edges, k: nat, i: nat, j: nat) {
    if k == 0 then (i, j) in e
    else Via(e, k - 1, i, j) || (Via(e, k - 1, i, k - 1) && Via(e, k - 1, k - 1, j))
  }

  lemma {:induction false} ViaIsPath(e: Edges, k: nat, i: nat, j: nat)
    requires Via(e, k, i, j)
    ensures Reaches(e, i, j)
  {
    if k == 0 {
      EdgeReaches(e, i, j);
    } else if Via(e, k - 1, i, j) {
      ViaIsPath(e, k - 1, i, j);
    } else {
      ViaIsPath(e, k - 1, i, k - 1);
      ViaIsPath(e, k - 1, k - 1, j);
      ReachesJoin(e, i, k - 1, j);
    }
  }

  /** A walk whose inner nodes are all below `k`. */
  lemma {:induction false} PathIsVia(e: Edges, k: nat, p: seq<nat>)
    requires IsWalk(e, p) && |p| >= 2
    requires forall t :: 1 <= t < |p| - 1 ==> p[t] < k
    ensures Via(e, k, p[0], p[|p| - 1])
    decreases k, |p|
  {
    if |p| == 2 {
      assert (p[0], p[1]) in e;
      EdgeIsVia(e, k, p[0], p[1]);
    } else {
      assert p[1] < k;
      if t :| 1 <= t < |p| - 1 && p[t] == k - 1 {
        PathIsVia(e, k, p[..t + 1]);
        PathIsVia(e, k, p[t..]);
      } else {
        PathIsVia(e, k - 1, p);
      }
    }
  }

  lemma {:induction false} EdgeIsVia(e: Edges, k: nat, i: nat, j: nat)
    requires (i, j) in e
    ensures Via(e, k, i, j)
  {
    if k == 0 {
    } else {
      EdgeIsVia(e, k - 1, i, j);
    }
  }

  lemma ViaIsReaches(e: Edges, n: nat, i: nat, j: nat)
    requires Within(e, n)
    ensures Via(e, n, i, j) <==> Reaches(e, i, j)
  {
    if Via(e, n, i, j) {
      ViaIsPath(e, n, i, j);
    }
    if Reaches(e, i, j) {
      var p :| Joins(e, p, i, j);
      forall t | 1 <= t < |p| - 1 ensures p[t] < n {
        assert (p[t], p[t + 1]) in e;
      }
      PathIsVia(e, n, p);
    }
  }

  /** Closes the deferrals in place. */
  method Close(bodies: seq<Body>) returns (reaches: array2<bool>)
    ensures fresh(reaches) && reaches.Length0 == reaches.Length1 == |bodies|
    ensures forall i, j :: 0 <= i < |bodies| && 0 <= j < |bodies| ==>
      (reaches[i, j] <==> Reaches(Deferrals(bodies), i, j))
  {
    var n := |bodies|;
    ghost var e := Deferrals(bodies);
    reaches := new bool[n, n]((_, _) => false);
    for i := 0 to n
      invariant forall a, b :: 0 <= a < n && 0 <= b < n ==> reaches[a, b] == (a < i && (a, b) in e)
    {
      var terms := bodies[i].terms;
      for t := 0 to |terms|
        invariant forall a, b :: 0 <= a < n && 0 <= b < n && a != i ==> reaches[a, b] == (a < i && (a, b) in e)
        invariant forall b :: 0 <= b < n ==> (reaches[i, b] <==> TargetAmong(bodies, terms[..t], b))
      {
        assert terms[..t + 1] == terms[..t] + [terms[t]];
        if terms[t].Defers? {
          var to := Locate(bodies, terms[t].to, 0);
          if to.Some? {
            reaches[i, to.value] := true;
          }
        }
      }
      assert terms[..|terms|] == terms;
    }
    for k := 0 to n
      invariant forall a, b :: 0 <= a < n && 0 <= b < n ==> (reaches[a, b] <==> Via(e, k, a, b))
    {
      for i := 0 to n
        invariant forall a, b :: 0 <= a < n && 0 <= b < n ==>
          (reaches[a, b] <==> if a < i then Via(e, k + 1, a, b) else Via(e, k, a, b))
      {
        if reaches[i, k] {
          for j := 0 to n
            invariant forall a, b :: 0 <= a < n && 0 <= b < n ==>
              (reaches[a, b] <==>
                if a < i || (a == i && b < j) then Via(e, k + 1, a, b) else Via(e, k, a, b))
          {
            reaches[i, j] := reaches[i, j] || reaches[k, j];
          }
        }
      }
    }
    forall i: nat, j: nat ensures Via(e, n, i, j) <==> Reaches(e, i, j) {
      ViaIsReaches(e, n, i, j);
    }
  }

  predicate TargetAmong(bodies: seq<Body>, terms: seq<Term>, j: nat) {
    exists t | t in terms :: t.Defers? && Locate(bodies, t.to, 0) == Some(j)
  }

  // ---------------------------------------------------------------- open ends

  function Opens(bodies: seq<Body>): Rule {
    (i: nat, s: seq<bool>) =>
      i < |bodies| && exists t | t in bodies[i].terms :: TermOpen(bodies, t, s)
  }

  predicate TermOpen(bodies: seq<Body>, t: Term, s: seq<bool>) {
    match t
    case Known(open) => open
    case Defers(to) =>
      var j := Locate(bodies, to, 0);
      j.Some? && j.value < |s| && s[j.value]
  }

  // ---------------------------------------------------------------- bodies are items

  predicate TermsAre(terms: seq<Term>, item: Item) {
    match item
    case Message(_, segments) => terms == [TermOf(segments)]
    case Choice(_, arms, _, _) =>
      if UnknownRunsOn(item) then terms == [Known(true)]
      else |terms| == |arms| && forall k :: 0 <= k < |arms| ==> terms[k] == TermOf(arms[k])
    case OtherItem => false
  }

  predicate BodyIs(body: Body, item: Item) {
    body.name == NameOf(item) && body.choice == item.Choice? && TermsAre(body.terms, item)
  }

  predicate BodiesAre(bodies: seq<Body>, d: seq<Item>) {
    |bodies| == |d| && forall i :: 0 <= i < |d| ==> BodyIs(bodies[i], d[i])
  }

  lemma BodyOfIs(item: Item)
    ensures BodyOf(item).None? <==> item.OtherItem?
    ensures BodyOf(item).Some? ==> BodyIs(BodyOf(item).value, item)
  {
    hide TermOf;
  }

  lemma OneMoreIs(body: Body, item: Item, bodies: seq<Body>, d: seq<Item>)
    requires BodyIs(body, item) && BodiesAre(bodies, d)
    ensures BodiesAre([body] + bodies, [item] + d)
  {
    hide BodyIs;
  }

  lemma {:induction false} BodiesAreItems(items: seq<Item>)
    ensures BodiesAre(BodiesOf(items), Bodies(items))
  {
    if items == [] {
    } else {
      hide BodyOf, BodyIs, BodiesAre;
      BodyOfIs(items[0]);
      BodiesAreItems(items[1..]);
      if !items[0].OtherItem? {
        OneMoreIs(BodyOf(items[0]).value, items[0], BodiesOf(items[1..]), Bodies(items[1..]));
      } else {
        assert [] + Bodies(items[1..]) == Bodies(items[1..]);
      }
    }
  }

  lemma {:induction false} LocatesTheItem(bodies: seq<Body>, d: seq<Item>, to: Referent, from: nat)
    requires BodiesAre(bodies, d) && from <= |d| && forall k :: 0 <= k < from ==> !Named(d[k], to)
    ensures var j := Locate(bodies, to, from);
      && (j.Some? <==> Declared(d, to))
      && forall k: nat :: Declares(d, to, k) <==> j == Some(k)
    decreases |d| - from
  {
    hide TermsAre;
    if from == |d| {
    } else {
      NamedAlike(bodies, d, to, from);
      if !Named(d[from], to) {
        LocatesTheItem(bodies, d, to, from + 1);
      }
    }
  }

  lemma NamedAlike(bodies: seq<Body>, d: seq<Item>, to: Referent, i: nat)
    requires BodiesAre(bodies, d) && i < |d|
    ensures Named(d[i], to) <==> bodies[i].name == to.name && bodies[i].choice == to.ToChoice?
  {
    assert BodyIs(bodies[i], d[i]);
  }

  /** A body's term says whether its last segment runs on, or whose end it has. */
  lemma TermMeans(segments: seq<Segment>)
    ensures TermOf(segments) == Known(true) <==> RunsOn(segments)
    ensures forall to :: TermOf(segments) == Defers(to) <==> EndsAs(segments, to)
  {
  }

  lemma TermsMean(terms: seq<Term>, item: Item)
    requires TermsAre(terms, item)
    ensures Known(true) in terms <==> ItemRunsOn(item)
    ensures forall to :: Defers(to) in terms <==> ItemEndsAs(item, to)
  {
    hide TermOf, RunsOn, EndsAs;
    match item {
      case Message(_, segments) => TermMeans(segments);
      case Choice(_, arms, _, _) =>
        forall k | 0 <= k < |arms|
          ensures TermOf(arms[k]) == Known(true) <==> RunsOn(arms[k])
          ensures forall to :: TermOf(arms[k]) == Defers(to) <==> EndsAs(arms[k], to)
        {
          TermMeans(arms[k]);
        }
    }
  }

  lemma DeferralsAreEnds(bodies: seq<Body>, d: seq<Item>)
    requires BodiesAre(bodies, d)
    ensures Deferrals(bodies) == EndEdges(d)
    ensures forall i: nat :: i < |d| ==> (Undeclared(bodies, i) <==> EndsElsewhere(d, i))
  {
    hide ItemEndsAs, TermsAre, Locate;
    forall i: nat, j: nat | i < |d| && j < |d| ensures DefersTo(bodies, i, j) <==> EndsWith(d, i, j) {
      DefersAsItem(bodies, d, i);
      forall to ensures Locate(bodies, to, 0) == Some(j) <==> Declares(d, to, j) {
        LocatesTheItem(bodies, d, to, 0);
      }
    }
    forall i: nat | i < |d| ensures Undeclared(bodies, i) <==> EndsElsewhere(d, i) {
      DefersAsItem(bodies, d, i);
      forall to ensures Locate(bodies, to, 0).None? <==> !Declared(d, to) {
        LocatesTheItem(bodies, d, to, 0);
      }
    }
  }

  lemma DefersAsItem(bodies: seq<Body>, d: seq<Item>, i: nat)
    requires BodiesAre(bodies, d) && i < |d|
    ensures Known(true) in bodies[i].terms <==> ItemRunsOn(d[i])
    ensures forall to :: Defers(to) in bodies[i].terms <==> ItemEndsAs(d[i], to)
    ensures forall t :: t in bodies[i].terms && t.Defers? ==> ItemEndsAs(d[i], t.to)
  {
    assert BodyIs(bodies[i], d[i]);
    TermsMean(bodies[i].terms, d[i]);
  }

  // ---------------------------------------------------------------- which items run on

  lemma {:induction false} OpenComesBack(bodies: seq<Body>, s: seq<bool>, p: seq<nat>)
    requires Closed(|bodies|, Opens(bodies), s) && IsWalk(Deferrals(bodies), p)
    requires p[|p| - 1] < |bodies| && Known(true) in bodies[p[|p| - 1]].terms
    ensures p[0] < |bodies| && s[p[0]]
    decreases |p|
  {
    if |p| == 1 {
      assert TermOpen(bodies, Known(true), s);
      assert Holds(Opens(bodies), p[0], s);
    } else {
      assert (p[0], p[1]) in Deferrals(bodies);
      assert IsWalk(Deferrals(bodies), p[1..]) by {
        forall k | 0 <= k < |p| - 2 ensures (p[1..][k], p[1..][k + 1]) in Deferrals(bodies) {
          assert (p[k + 1], p[k + 2]) in Deferrals(bodies);
        }
      }
      OpenComesBack(bodies, s, p[1..]);
      var t :| t in bodies[p[0]].terms && t.Defers? && Locate(bodies, t.to, 0) == Some(p[1]);
      assert TermOpen(bodies, t, s);
      assert Holds(Opens(bodies), p[0], s);
    }
  }

  lemma OpenEndedIsClosed(bodies: seq<Body>, d: seq<Item>, t: seq<bool>)
    requires BodiesAre(bodies, d) && |t| == |d| && forall i :: 0 <= i < |d| ==> t[i] == OpenEnded(d, i)
    ensures Closed(|bodies|, Opens(bodies), t)
  {
    hide ItemRunsOn, TermsAre;
    var e := EndEdges(d);
    DeferralsAreEnds(bodies, d);
    forall i | 0 <= i < |bodies| && Holds(Opens(bodies), i, t)
      ensures t[i]
    {
      DefersAsItem(bodies, d, i);
      var x :| x in bodies[i].terms && TermOpen(bodies, x, t);
      if x.Known? {
        assert ItemRunsOn(d[i]);
      } else {
        var j := Locate(bodies, x.to, 0).value;
        assert DefersTo(bodies, i, j);
        EdgeReaches(e, i, j);
        OpenSpreads(d, i, j);
      }
    }
  }

  /** An item is open-ended exactly when zero or more deferrals lead to one that runs on. */
  lemma LeastMeansOpenEnded(bodies: seq<Body>, d: seq<Item>, s: seq<bool>)
    requires BodiesAre(bodies, d) && IsLeast(|bodies|, Opens(bodies), s)
    ensures forall i :: 0 <= i < |d| ==> (s[i] <==> OpenEnded(d, i))
  {
    hide ItemRunsOn, TermsAre;
    ghost var t := seq(|d|, i requires 0 <= i < |d| => OpenEnded(d, i));
    OpenEndedIsClosed(bodies, d, t);
    DeferralsAreEnds(bodies, d);
    forall i | 0 <= i < |d| && OpenEnded(d, i) ensures s[i] {
      var j :| 0 <= j < |d| && ItemRunsOn(d[j]) && (i == j || Reaches(EndEdges(d), i, j));
      DefersAsItem(bodies, d, j);
      if i == j {
        OpenComesBack(bodies, s, [i]);
      } else {
        var p :| Joins(EndEdges(d), p, i, j);
        OpenComesBack(bodies, s, p);
      }
    }
  }

  ghost predicate SameCycle(d: seq<Item>, i: nat, j: nat) {
    Reaches(EndEdges(d), i, j) && Reaches(EndEdges(d), j, i)
  }

  /** The members of `i`'s cycle among the first `n` items, each with whether it is open-ended. */
  ghost function Members(d: seq<Item>, i: nat, n: nat): seq<(string, bool)>
    requires n <= |d|
  {
    if n == 0 then []
    else if SameCycle(d, i, n - 1) then Members(d, i, n - 1) + [(NameOf(d[n - 1]), OpenEnded(d, n - 1))]
    else Members(d, i, n - 1)
  }

  lemma OpenSpreads(d: seq<Item>, i: nat, j: nat)
    requires Reaches(EndEdges(d), i, j) && OpenEnded(d, j)
    ensures OpenEnded(d, i)
  {
    var k :| 0 <= k < |d| && ItemRunsOn(d[k]) && (j == k || Reaches(EndEdges(d), j, k));
    if j != k {
      ReachesJoin(EndEdges(d), i, j, k);
    }
  }

  /** All members reported for one cycle have the same value. */
  lemma {:induction false} OneCycleOneEnd(d: seq<Item>, i: nat, n: nat)
    requires n <= |d|
    ensures forall m :: m in Members(d, i, n) ==> m.1 == OpenEnded(d, i)
  {
    if n == 0 {
    } else {
      OneCycleOneEnd(d, i, n - 1);
      if SameCycle(d, i, n - 1) {
        if OpenEnded(d, i) {
          OpenSpreads(d, n - 1, i);
        }
        if OpenEnded(d, n - 1) {
          OpenSpreads(d, i, n - 1);
        }
      }
    }
  }

  predicate Undeclared(bodies: seq<Body>, j: nat) {
    j < |bodies| && exists t | t in bodies[j].terms :: t.Defers? && Locate(bodies, t.to, 0).None?
  }

  /** Item `i` is on a cycle whose end depends on an item the module does not declare. */
  ghost predicate Dangling(d: seq<Item>, i: nat) {
    Reaches(EndEdges(d), i, i) && exists j :: (j == i || Reaches(EndEdges(d), i, j)) && EndsElsewhere(d, j)
  }

  ghost predicate SomeDangle(d: seq<Item>) {
    exists i: nat :: i < |d| && Dangling(d, i)
  }

  type Report = seq<(string, seq<(string, bool)>)>

  /** `open_end_cycles`: for the first item on a cycle whose end depends on one the module does not declare, a refusal;
      otherwise each item's cycle and whether its members run on, if there is any cycle. */
  method OpenEndCycles(items: seq<Item>) returns (r: Result<Report, nat>)
    ensures var d := Bodies(items);
      && (r.Err? <==> SomeDangle(d))
      && (r.Err? ==> r.error < |d| && Dangling(d, r.error) && forall k :: 0 <= k < r.error ==> !Dangling(d, k))
      && (r.Ok? && Acyclic(EndEdges(d)) ==> r.value == [])
      && (r.Ok? && !Acyclic(EndEdges(d)) ==>
            |r.value| == |d| && forall i :: 0 <= i < |d| ==> r.value[i] == (NameOf(d[i]), Members(d, i, |d|)))
  {
    hide BodiesOf, Bodies, TermsAre, Locate, Deferrals, EndEdges, Reaches, OpenEnded, EndsElsewhere, Opens, IsLeast;
    var bodies := BodiesOf(items);
    ghost var d := Bodies(items);
    BodiesAreItems(items);
    DeferralsAreEnds(bodies, d);
    var n := |bodies|;
    var reaches := Close(bodies);
    var cyclic := exists i | 0 <= i < n :: reaches[i, i];
    CyclesAreWithin(d);
    if !cyclic {
      return Ok([]);
    }
    for i := 0 to n
      invariant forall a :: 0 <= a < i ==> !Dangling(d, a)
    {
      if reaches[i, i] {
        for j := 0 to n
          invariant forall b :: 0 <= b < j && (b == i || reaches[i, b]) ==> !Undeclared(bodies, b)
        {
          if (j == i || reaches[i, j]) && Undeclared(bodies, j) {
            var found: nat := i;
            assert EndsElsewhere(d, j) && Dangling(d, found) && SomeDangle(d);
            return Err(found);
          }
        }
      }
      assert !Dangling(d, i) by {
        ElsewhereIsWithin(d);
      }
    }
    var value := LeastFixpoint(n, Opens(bodies));
    OpensIsMonotone(bodies);
    LeastMeansOpenEnded(bodies, d, value);
    var report: Report := [];
    for i := 0 to n
      invariant |report| == i
      invariant forall a :: 0 <= a < i ==> report[a] == (NameOf(d[a]), Members(d, a, n))
    {
      var members: seq<(string, bool)> := [];
      for j := 0 to n
        invariant members == Members(d, i, j)
      {
        if reaches[i, j] && reaches[j, i] {
          members := members + [(bodies[j].name, value[j])];
        }
      }
      report := report + [(bodies[i].name, members)];
    }
    return Ok(report);
  }

  lemma OpensIsMonotone(bodies: seq<Body>)
    ensures Monotone(|bodies|, Opens(bodies))
  {
    forall i: nat, s, t | i < |bodies| && |s| == |bodies| && Below(s, t) && Holds(Opens(bodies), i, s)
      ensures Holds(Opens(bodies), i, t)
    {
      var x :| x in bodies[i].terms && TermOpen(bodies, x, s);
      assert TermOpen(bodies, x, t);
    }
  }

  lemma ElsewhereIsWithin(d: seq<Item>)
    ensures forall j: nat :: EndsElsewhere(d, j) ==> j < |d|
  {
  }

  /** Every cycle is among the items. */
  lemma CyclesAreWithin(d: seq<Item>)
    ensures Acyclic(EndEdges(d)) <==> forall i: nat :: i < |d| ==> !Reaches(EndEdges(d), i, i)
    ensures forall i: nat :: Dangling(d, i) ==> i < |d|
  {
    forall i: nat | Reaches(EndEdges(d), i, i) ensures i < |d| {
      var p :| Joins(EndEdges(d), p, i, i);
      assert (p[0], p[1]) in EndEdges(d);
    }
  }
}
