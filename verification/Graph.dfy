/** Whole-module checks over the references between items: endless recursion, infinite size, open ends. */
module Graph {
  import opened Words
  import opened Walks
  import opened Items

  // ---------------------------------------------------------------- references

  /** `avoidable`: some valid wire skips it. `indirect`: the value holds its target behind a pointer. */
  datatype Reference = Reference(to: Referent, avoidable: bool, indirect: bool)

  function Refers(segment: Segment): Option<Reference> {
    match segment
    case Value(Msg(ty, boxed)) => Some(Reference(ToMessage(ty), false, boxed))
    case Opt(Msg(ty, boxed)) => Some(Reference(ToMessage(ty), true, boxed))
    case Repeat(Msg(ty, _), count) =>
      Some(Reference(ToMessage(ty), !(count.WindowBytes? && count.n > 0), true))
    case Placed(Msg(ty, boxed), canBeAbsent) => Some(Reference(ToMessage(ty), canBeAbsent, boxed))
    case Switch(choice, _) => Some(Reference(ToChoice(choice), false, false))
    case _ => None
  }

  function References(segments: seq<Segment>): seq<Reference> {
    if segments == [] then []
    else
      var rest := References(segments[1..]);
      match Refers(segments[0]) case Some(r) => [r] + rest case None => rest
  }

  // ---------------------------------------------------------------- least fixpoints

  type Rule = (nat, seq<bool>) -> bool

  predicate Holds(rule: Rule, i: nat, s: seq<bool>) {
    rule(i, s)
  }

  ghost predicate Below(s: seq<bool>, t: seq<bool>) {
    |s| == |t| && forall i :: 0 <= i < |s| && s[i] ==> t[i]
  }

  ghost predicate Closed(n: nat, rule: Rule, s: seq<bool>) {
    |s| == n && forall i :: 0 <= i < n && Holds(rule, i, s) ==> s[i]
  }

  ghost predicate Monotone(n: nat, rule: Rule) {
    forall i: nat, s, t :: i < n && |s| == n && Below(s, t) && Holds(rule, i, s) ==> Holds(rule, i, t)
  }

  /** `s` is closed under `rule`, and lies inside every set that is. */
  ghost predicate IsLeast(n: nat, rule: Rule, s: seq<bool>) {
    Closed(n, rule, s) && forall t :: Closed(n, rule, t) ==> Below(s, t)
  }

  function Missing(s: seq<bool>): nat {
    if s == [] then 0 else (if s[0] then 0 else 1) + Missing(s[1..])
  }

  lemma {:induction false} MissingFalls(s: seq<bool>, i: nat)
    requires i < |s| && !s[i]
    ensures Missing(s[i := true]) == Missing(s) - 1
  {
    if i == 0 {
      assert s[0 := true][1..] == s[1..];
    } else {
      assert s[i := true][1..] == s[1..][i - 1 := true];
      MissingFalls(s[1..], i - 1);
    }
  }

  method LeastFixpoint(n: nat, rule: Rule) returns (s: seq<bool>)
    ensures Closed(n, rule, s)
    ensures Monotone(n, rule) ==> IsLeast(n, rule, s)
  {
    s := seq(n, _ => false);
    var changed := true;
    while changed
      invariant |s| == n
      invariant Monotone(n, rule) ==> forall t :: Closed(n, rule, t) ==> Below(s, t)
      invariant !changed ==> Closed(n, rule, s)
      decreases Missing(s) + if changed then 1 else 0
    {
      changed := false;
      ghost var before := s;
      for i := 0 to n
        invariant |s| == n
        invariant Monotone(n, rule) ==> forall t :: Closed(n, rule, t) ==> Below(s, t)
        invariant !changed ==> s == before && forall j :: 0 <= j < i && Holds(rule, j, s) ==> s[j]
        invariant changed ==> Missing(s) < Missing(before)
      {
        if !s[i] && Holds(rule, i, s) {
          MissingFalls(s, i);
          s := s[i := true];
          changed := true;
        }
      }
    }
  }

  // ---------------------------------------------------------------- recursion and size

  /** An item of the reference graph. A message has one alternative, a choice one for each arm and its default. */
  datatype Node = Node(name: string, choice: bool, alternatives: seq<seq<Reference>>)

  function ArmReferences(arms: seq<seq<Segment>>): seq<seq<Reference>> {
    seq(|arms|, i requires 0 <= i < |arms| => References(arms[i]))
  }

  function NodesOf(items: seq<Item>): seq<Node> {
    if items == [] then []
    else
      var rest := NodesOf(items[1..]);
      match items[0]
      case Message(name, segments) => [Node(name, false, [References(segments)])] + rest
      case Choice(name, arms, other, _) =>
        var alternatives := ArmReferences(arms) + if other || arms == [] then [[]] else [];
        [Node(name, true, alternatives)] + rest
      case OtherItem => rest
  }

  /** The node a reference names, if this module declares it. */
  function Find(nodes: seq<Node>, to: Referent, from: nat): (r: Option<nat>)
    requires from <= |nodes|
    ensures r.Some? ==> from <= r.value < |nodes|
    decreases |nodes| - from
  {
    if from == |nodes| then None
    else if nodes[from].name == to.name && nodes[from].choice == to.ToChoice? then Some(from)
    else Find(nodes, to, from + 1)
  }

  predicate Met(nodes: seq<Node>, r: Reference, s: seq<bool>) {
    var j := Find(nodes, r.to, 0);
    j.None? || (j.value < |s| && s[j.value])
  }

  predicate AlternativeEnds(nodes: seq<Node>, edges: seq<Reference>, s: seq<bool>) {
    forall r | r in edges :: !r.avoidable ==> Met(nodes, r, s)
  }

  function Ends(nodes: seq<Node>): Rule {
    (i: nat, s: seq<bool>) =>
      i < |nodes| && exists a | a in nodes[i].alternatives :: AlternativeEnds(nodes, a, s)
  }

  function Sized(nodes: seq<Node>): Rule {
    (i: nat, s: seq<bool>) =>
      i < |nodes| && forall a | a in nodes[i].alternatives :: forall r | r in a :: !r.indirect ==> Met(nodes, r, s)
  }

  datatype Refusal = EndlessRecursion(node: nat) | InfiniteSize(node: nat)

  /** The references held without a pointer. */
  function DirectEdges(nodes: seq<Node>): Edges {
    set i, j | 0 <= i < |nodes| && 0 <= j < |nodes| && HoldsDirectly(nodes, i, j) :: (i, j)
  }

  predicate HoldsDirectly(nodes: seq<Node>, i: nat, j: nat)
    requires i < |nodes|
  {
    exists a | a in nodes[i].alternatives :: exists r | r in a :: !r.indirect && Find(nodes, r.to, 0) == Some(j)
  }

  lemma EndsIsMonotone(nodes: seq<Node>)
    ensures Monotone(|nodes|, Ends(nodes))
  {
    forall i: nat, s, t | i < |nodes| && |s| == |nodes| && Below(s, t) && Holds(Ends(nodes), i, s)
      ensures Holds(Ends(nodes), i, t)
    {
      var a :| a in nodes[i].alternatives && AlternativeEnds(nodes, a, s);
      assert AlternativeEnds(nodes, a, t);
    }
  }

  lemma SizedIsMonotone(nodes: seq<Node>)
    ensures Monotone(|nodes|, Sized(nodes))
  {
    forall i: nat, s, t | i < |nodes| && |s| == |nodes| && Below(s, t) && Holds(Sized(nodes), i, s)
      ensures Holds(Sized(nodes), i, t)
    {
      forall a, r | a in nodes[i].alternatives && r in a && !r.indirect ensures Met(nodes, r, t) {
        assert Met(nodes, r, s);
      }
    }
  }

  // ---------------------------------------------------------------- nodes are items

  predicate NodeIs(node: Node, item: Item) {
    match item
    case Message(name, segments) => node == Node(name, false, [References(segments)])
    case Choice(name, arms, other, _) =>
      node == Node(name, true, ArmReferences(arms) + if other || arms == [] then [[]] else [])
    case OtherItem => false
  }

  predicate Mirrors(nodes: seq<Node>, d: seq<Item>) {
    |nodes| == |d| && forall i :: 0 <= i < |d| ==> NodeIs(nodes[i], d[i])
  }

  lemma {:induction false} NodesAreBodies(items: seq<Item>)
    ensures Mirrors(NodesOf(items), Bodies(items))
  {
    if items == [] {
    } else {
      hide References, ArmReferences;
      NodesAreBodies(items[1..]);
    }
  }

  /** Lookups find the item a reference is to. */
  lemma {:induction false} FindsTheItem(nodes: seq<Node>, d: seq<Item>, to: Referent, from: nat)
    requires Mirrors(nodes, d) && from <= |d| && forall k :: 0 <= k < from ==> !Named(d[k], to)
    ensures var j := Find(nodes, to, from);
      && (j.Some? <==> Declared(d, to))
      && forall k: nat :: Declares(d, to, k) <==> j == Some(k)
    decreases |d| - from
  {
    hide References, ArmReferences;
    if from == |d| {
    } else {
      assert NodeIs(nodes[from], d[from]);
      if !Named(d[from], to) {
        FindsTheItem(nodes, d, to, from + 1);
      }
    }
  }

  lemma {:induction false} ReferencesAre(segments: seq<Segment>, r: Reference)
    ensures r in References(segments) <==> exists k :: 0 <= k < |segments| && Refers(segments[k]) == Some(r)
  {
    if segments == [] {
    } else {
      hide Refers;
      ReferencesAre(segments[1..], r);
      assert forall k :: 1 <= k < |segments| ==> segments[k] == segments[1..][k - 1];
    }
  }

  // ---------------------------------------------------------------- ends means a finite value

  lemma {:induction false} ValueEnds(nodes: seq<Node>, d: seq<Item>, t: seq<bool>, i: nat, v: Tree)
    requires Mirrors(nodes, d) && Closed(|nodes|, Ends(nodes), t) && i < |d| && IsValue(d, d[i], v)
    ensures t[i]
    decreases v, 0
  {
    assert NodeIs(nodes[i], d[i]);
    var a := AlternativeOf(d[i], v);
    match d[i] {
      case Message(_, segments) =>
        PartsEnd(nodes, d, t, segments, v.parts);
      case Choice(_, arms, _, _) =>
        if v.Arm? {
          assert nodes[i].alternatives[v.k] == a;
          PartsEnd(nodes, d, t, arms[v.k], v.parts);
        } else {
          assert nodes[i].alternatives[|arms|] == a;
        }
    }
    assert AlternativeEnds(nodes, a, t);
    assert Holds(Ends(nodes), i, t);
  }

  /** The references of the alternative a value takes. */
  function AlternativeOf(item: Item, v: Tree): seq<Reference> {
    match item
    case Message(_, segments) => References(segments)
    case Choice(_, arms, _, _) => if v.Arm? && v.k < |arms| then References(arms[v.k]) else []
    case OtherItem => []
  }

  lemma {:induction false} PartsEnd(
    nodes: seq<Node>, d: seq<Item>, t: seq<bool>, segments: seq<Segment>, parts: seq<Part>)
    requires Mirrors(nodes, d) && Closed(|nodes|, Ends(nodes), t) && AreParts(d, segments, parts)
    ensures AlternativeEnds(nodes, References(segments), t)
    decreases parts, 1
  {
    forall r | r in References(segments) && !r.avoidable
      ensures Met(nodes, r, t)
    {
      ReferencesAre(segments, r);
      var k :| 0 <= k < |segments| && Refers(segments[k]) == Some(r);
      PartEnds(nodes, d, t, segments[k], parts[k], r);
    }
  }

  lemma {:induction false} PartEnds(
    nodes: seq<Node>, d: seq<Item>, t: seq<bool>, segment: Segment, part: Part, r: Reference)
    requires Mirrors(nodes, d) && Closed(|nodes|, Ends(nodes), t) && IsPart(d, segment, part)
    requires Refers(segment) == Some(r) && !r.avoidable
    ensures Met(nodes, r, t)
    decreases part, 1
  {
    FindsTheItem(nodes, d, r.to, 0);
    if Declared(d, r.to) {
      if segment.Repeat? {
        var v := part.values[0];
        assert IsOf(d, r.to, v);
        var j :| 0 <= j < |d| && Declares(d, r.to, j) && IsValue(d, d[j], v);
        ValueEnds(nodes, d, t, j, v);
      } else {
        var v := part.value;
        assert IsOf(d, r.to, v);
        var j :| 0 <= j < |d| && Declares(d, r.to, j) && IsValue(d, d[j], v);
        ValueEnds(nodes, d, t, j, v);
      }
    }
  }

  /** Whether what a reference is to has a finite value, here or in another module. */
  ghost predicate Reachable(d: seq<Item>, to: Referent) {
    exists v :: IsOf(d, to, v)
  }

  lemma PartExists(d: seq<Item>, segment: Segment) returns (part: Part)
    requires Refers(segment).Some? && !Refers(segment).value.avoidable ==> Reachable(d, Refers(segment).value.to)
    ensures IsPart(d, segment, part)
  {
    if Refers(segment).Some? && !Refers(segment).value.avoidable {
      var v :| IsOf(d, Refers(segment).value.to, v);
      part := if segment.Repeat? then Many([v]) else One(v);
    } else {
      part := if segment.Repeat? && segment.element.Msg? then Many([]) else Nothing;
    }
  }

  lemma {:induction false} PartsExist(d: seq<Item>, segments: seq<Segment>, n: nat) returns (parts: seq<Part>)
    requires n <= |segments|
    requires forall r :: r in References(segments) && !r.avoidable ==> Reachable(d, r.to)
    ensures |parts| == n && forall i :: 0 <= i < n ==> IsPart(d, segments[i], parts[i])
  {
    if n == 0 {
      parts := [];
    } else {
      hide Refers, IsPart;
      parts := PartsExist(d, segments, n - 1);
      if Refers(segments[n - 1]).Some? {
        ReferencesAre(segments, Refers(segments[n - 1]).value);
      }
      var part := PartExists(d, segments[n - 1]);
      parts := parts + [part];
    }
  }

  /** The items with a finite value are closed under the rule that finds them. */
  lemma ValuesAreClosed(nodes: seq<Node>, d: seq<Item>, t: seq<bool>)
    requires Mirrors(nodes, d) && |t| == |d| && forall i :: 0 <= i < |d| ==> t[i] == HasValue(d, i)
    ensures Closed(|nodes|, Ends(nodes), t)
  {
    forall i | 0 <= i < |nodes| && Holds(Ends(nodes), i, t)
      ensures t[i]
    {
      var k :| 0 <= k < |nodes[i].alternatives| && AlternativeEnds(nodes, nodes[i].alternatives[k], t);
      assert NodeIs(nodes[i], d[i]);
      forall r | r in nodes[i].alternatives[k] && !r.avoidable ensures Reachable(d, r.to) {
        MetIsReachable(nodes, d, t, r);
      }
      match d[i] {
        case Message(_, segments) =>
          var parts := PartsExist(d, segments, |segments|);
          assert IsValue(d, d[i], Record(parts));
        case Choice(_, arms, _, _) =>
          if k < |arms| {
            var parts := PartsExist(d, arms[k], |arms[k]|);
            assert IsValue(d, d[i], Arm(k, parts));
          } else {
            assert IsValue(d, d[i], Default);
          }
      }
    }
  }

  lemma MetIsReachable(nodes: seq<Node>, d: seq<Item>, t: seq<bool>, r: Reference)
    requires Mirrors(nodes, d) && |t| == |d| && forall i :: 0 <= i < |d| ==> t[i] == HasValue(d, i)
    requires Met(nodes, r, t)
    ensures Reachable(d, r.to)
  {
    hide IsValue;
    FindsTheItem(nodes, d, r.to, 0);
    if Declared(d, r.to) {
      var j := Find(nodes, r.to, 0).value;
      var v :| IsValue(d, d[j], v);
      assert Declares(d, r.to, j) && IsOf(d, r.to, v);
    } else {
      assert IsOf(d, r.to, Default);
    }
  }

  /** An item ends exactly when it has a finite value. */
  lemma EndsMeansValue(nodes: seq<Node>, d: seq<Item>, s: seq<bool>)
    requires Mirrors(nodes, d) && IsLeast(|nodes|, Ends(nodes), s)
    ensures forall i :: 0 <= i < |d| ==> (s[i] <==> HasValue(d, i))
  {
    hide IsValue, Ends;
    ghost var t := seq(|d|, i requires 0 <= i < |d| => HasValue(d, i));
    ValuesAreClosed(nodes, d, t);
    forall i | 0 <= i < |d| && HasValue(d, i) ensures s[i] {
      var v :| IsValue(d, d[i], v);
      ValueEnds(nodes, d, s, i, v);
    }
  }

  // ---------------------------------------------------------------- finite size means no cycle

  lemma HeldDirectly(segments: seq<Segment>, to: Referent)
    ensures BodyHolds(segments, to) <==> exists r :: r in References(segments) && !r.indirect && r.to == to
  {
    if BodyHolds(segments, to) {
      var k :| 0 <= k < |segments| && HoldsInside(segments[k], to);
      var r := Refers(segments[k]).value;
      ReferencesAre(segments, r);
      assert r in References(segments) && !r.indirect && r.to == to;
    }
    if r :| r in References(segments) && !r.indirect && r.to == to {
      ReferencesAre(segments, r);
      var k :| 0 <= k < |segments| && Refers(segments[k]) == Some(r);
      assert HoldsInside(segments[k], to);
    }
  }

  predicate NodeHolds(node: Node, to: Referent) {
    exists a | a in node.alternatives :: exists r | r in a :: !r.indirect && r.to == to
  }

  lemma NodeHoldsAsItem(node: Node, item: Item, to: Referent)
    requires NodeIs(node, item)
    ensures NodeHolds(node, to) <==> ItemHolds(item, to)
  {
    hide References, BodyHolds;
    match item {
      case Message(_, segments) =>
        HeldDirectly(segments, to);
        assert node.alternatives[0] == References(segments) && References(segments) in node.alternatives;
        if NodeHolds(node, to) {
          var a, r :| a in node.alternatives && r in a && !r.indirect && r.to == to;
          assert a == References(segments);
        }
      case Choice(_, arms, _, _) =>
        forall k | 0 <= k < |arms|
          ensures BodyHolds(arms[k], to) <==> exists r :: r in node.alternatives[k] && !r.indirect && r.to == to
        {
          HeldDirectly(arms[k], to);
        }
        if NodeHolds(node, to) {
          var a, r :| a in node.alternatives && r in a && !r.indirect && r.to == to;
          var k :| 0 <= k < |node.alternatives| && node.alternatives[k] == a;
          assert k < |arms| && BodyHolds(arms[k], to);
        }
        if ItemHolds(item, to) {
          var k :| 0 <= k < |arms| && BodyHolds(arms[k], to);
          assert node.alternatives[k] in node.alternatives;
        }
    }
  }

  /** The references held without a pointer are what is held inside what. */
  lemma DirectIsInside(nodes: seq<Node>, d: seq<Item>)
    requires Mirrors(nodes, d)
    ensures DirectEdges(nodes) == InlineEdges(d)
  {
    hide Mirrors, NodeHolds, ItemHolds;
    forall i: nat, j: nat | i < |nodes| && j < |nodes| ensures HoldsDirectly(nodes, i, j) <==> Inside(d, i, j) {
      HoldsDirectlyMeans(nodes, d, i, j);
    }
    SameLength(nodes, d);
  }

  lemma SameLength(nodes: seq<Node>, d: seq<Item>)
    requires Mirrors(nodes, d)
    ensures |nodes| == |d|
  {
  }

  lemma HoldsDirectlyMeans(nodes: seq<Node>, d: seq<Item>, i: nat, j: nat)
    requires Mirrors(nodes, d) && i < |nodes|
    ensures HoldsDirectly(nodes, i, j) <==> Inside(d, i, j)
  {
    hide ItemHolds;
    if HoldsDirectly(nodes, i, j) {
      var a, r :| a in nodes[i].alternatives && r in a && !r.indirect && Find(nodes, r.to, 0) == Some(j);
      FindsTheItem(nodes, d, r.to, 0);
      NodeHoldsAsItem(nodes[i], d[i], r.to);
      assert NodeHolds(nodes[i], r.to) && Declares(d, r.to, j);
    }
    if Inside(d, i, j) {
      var to :| Declares(d, to, j) && ItemHolds(d[i], to);
      FindsTheItem(nodes, d, to, 0);
      NodeHoldsAsItem(nodes[i], d[i], to);
      var a, r :| a in nodes[i].alternatives && r in a && !r.indirect && r.to == to;
      assert Find(nodes, r.to, 0) == Some(j);
    }
  }

  /** The nodes that lead to no cycle of direct references are closed under the rule for finite size. */
  lemma CycleFreeIsClosed(nodes: seq<Node>, t: seq<bool>)
    requires |t| == |nodes| && forall i :: 0 <= i < |nodes| ==> t[i] == !LeadsToCycle(DirectEdges(nodes), i)
    ensures Closed(|nodes|, Sized(nodes), t)
  {
    var e := DirectEdges(nodes);
    forall i | 0 <= i < |nodes| && LeadsToCycle(e, i)
      ensures !Holds(Sized(nodes), i, t)
    {
      var j := NextOnTheWay(e, i);
      var a :| a in nodes[i].alternatives && exists r :: r in a && !r.indirect && Find(nodes, r.to, 0) == Some(j);
      var r :| r in a && !r.indirect && Find(nodes, r.to, 0) == Some(j);
      assert !Met(nodes, r, t);
    }
  }

  /** From a node that leads to a cycle, a neighbour that does. */
  lemma NextOnTheWay(e: Edges, i: nat) returns (next: nat)
    requires LeadsToCycle(e, i)
    ensures (i, next) in e && LeadsToCycle(e, next)
  {
    var j :| (i == j || Reaches(e, i, j)) && Reaches(e, j, j);
    var p :| Joins(e, p, i, j);
    next := p[1];
    assert (p[0], p[1]) in e;
    if |p| > 2 {
      WalkReaches(e, p, 1, |p| - 1);
    }
  }

  lemma UnsizedHasNext(nodes: seq<Node>, s: seq<bool>, stuck: set<nat>, i: nat)
    requires Closed(|nodes|, Sized(nodes), s)
    requires forall j: nat :: j in stuck <==> j < |nodes| && !s[j]
    requires i in stuck
    ensures HasNext(DirectEdges(nodes), stuck, i)
  {
    assert !Holds(Sized(nodes), i, s);
    var a, r :| a in nodes[i].alternatives && r in a && !r.indirect && !Met(nodes, r, s);
    var j := Find(nodes, r.to, 0).value;
    assert j in stuck && (i, j) in DirectEdges(nodes);
  }

  /** A node has finite size exactly when it leads to no cycle of direct references. */
  lemma SizedMeansCycleFree(nodes: seq<Node>, s: seq<bool>)
    requires IsLeast(|nodes|, Sized(nodes), s)
    ensures forall i :: 0 <= i < |nodes| ==> (s[i] <==> !LeadsToCycle(DirectEdges(nodes), i))
  {
    var e := DirectEdges(nodes);
    ghost var t := seq(|nodes|, i requires 0 <= i < |nodes| => !LeadsToCycle(e, i));
    CycleFreeIsClosed(nodes, t);
    var stuck := set j | 0 <= j < |nodes| && !s[j];
    forall i | 0 <= i < |nodes| && !s[i] ensures LeadsToCycle(e, i) {
      forall j | j in stuck ensures HasNext(e, stuck, j) {
        UnsizedHasNext(nodes, s, stuck, j);
      }
      StuckLeadsToCycle(e, |nodes|, stuck, i);
    }
  }

  /** No node leads to a cycle exactly when there is none. */
  lemma NoneLeadsMeansAcyclic(nodes: seq<Node>)
    ensures (forall i :: 0 <= i < |nodes| ==> !LeadsToCycle(DirectEdges(nodes), i)) <==> Acyclic(DirectEdges(nodes))
  {
    var e := DirectEdges(nodes);
    forall i: nat | Reaches(e, i, i) ensures i < |nodes| && LeadsToCycle(e, i) {
      var p :| Joins(e, p, i, i);
      assert (p[0], p[1]) in e;
    }
  }

  /** `recursion`: accepts exactly the modules whose every message and choice has a finite value, and in which none is
      held inside itself; or names the first for which that fails. */
  method Recursion(items: seq<Item>) returns (refused: Option<Refusal>)
    ensures var d := Bodies(items);
      && (refused.None? <==> (forall i :: 0 <= i < |d| ==> HasValue(d, i)) && Acyclic(InlineEdges(d)))
      && (refused.Some? && refused.value.EndlessRecursion? ==> var i := refused.value.node;
            i < |d| && !HasValue(d, i) && forall k :: 0 <= k < i ==> HasValue(d, k))
      && (refused.Some? && refused.value.InfiniteSize? ==> var i := refused.value.node;
            && i < |d| && LeadsToCycle(InlineEdges(d), i)
            && (forall k :: 0 <= k < i ==> !LeadsToCycle(InlineEdges(d), k))
            && forall k :: 0 <= k < |d| ==> HasValue(d, k))
  {
    hide NodesOf, Bodies, Mirrors, Ends, Sized, Closed, DirectEdges, InlineEdges, HasValue, LeadsToCycle, Acyclic;
    var nodes := NodesOf(items);
    ghost var d := Bodies(items);
    NodesAreBodies(items);
    SameLength(nodes, d);
    var ends := LeastFixpoint(|nodes|, Ends(nodes));
    EndsIsMonotone(nodes);
    EndsMeansValue(nodes, d, ends);
    for i := 0 to |nodes|
      invariant forall j :: 0 <= j < i ==> ends[j]
    {
      if !ends[i] {
        return Some(EndlessRecursion(i));
      }
    }
    var sized := LeastFixpoint(|nodes|, Sized(nodes));
    SizedIsMonotone(nodes);
    SizedMeansCycleFree(nodes, sized);
    DirectIsInside(nodes, d);
    NoneLeadsMeansAcyclic(nodes);
    for i := 0 to |nodes|
      invariant forall j :: 0 <= j < i ==> sized[j]
    {
      if !sized[i] {
        return Some(InfiniteSize(i));
      }
    }
    return None;
  }
}
