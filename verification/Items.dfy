/** A module's messages and choices, and what they mean: which have a finite value, which are held inside which, and
    which run on to the end of their bytes. */
module Items {
  import opened Words
  import opened Walks

  datatype Referent = ToMessage(name: string) | ToChoice(name: string)

  datatype Kind = Msg(ty: string, boxed: bool) | TextToEnd | OtherKind

  datatype Count = WindowBytes(n: nat) | Fill | OtherCount

  /** The parts of a message segment that its references and its end depend on. */
  datatype Segment =
    | Value(kind: Kind)
    | Opt(kind: Kind)
    | Repeat(element: Kind, count: Count)
    | Placed(kind: Kind, canBeAbsent: bool)
    | Switch(choice: string, windowed: bool)
    | Block
    | Checksum

  datatype Item =
    | Message(name: string, segments: seq<Segment>)
    | Choice(name: string, arms: seq<seq<Segment>>, other: bool, otherBytes: bool)
    | OtherItem

  /** The messages and choices of a module. */
  function Bodies(items: seq<Item>): (d: seq<Item>)
    ensures forall item :: item in d <==> item in items && !item.OtherItem?
  {
    if items == [] then []
    else (if items[0].OtherItem? then [] else [items[0]]) + Bodies(items[1..])
  }

  function NameOf(item: Item): string {
    if item.OtherItem? then "" else item.name
  }

  predicate Named(item: Item, to: Referent) {
    match to
    case ToMessage(name) => item.Message? && item.name == name
    case ToChoice(name) => item.Choice? && item.name == name
  }

  /** A reference is to the first item of its kind and name. */
  predicate Declares(d: seq<Item>, to: Referent, j: nat) {
    j < |d| && Named(d[j], to) && forall k :: 0 <= k < j ==> !Named(d[k], to)
  }

  predicate Declared(d: seq<Item>, to: Referent) {
    exists j :: 0 <= j < |d| && Named(d[j], to)
  }

  // ---------------------------------------------------------------- finite values

  /** A value: a message's parts, an arm of a choice with its parts, or a choice's default. */
  datatype Tree = Record(parts: seq<Part>) | Arm(k: nat, parts: seq<Part>) | Default

  datatype Part = Nothing | One(value: Tree) | Many(values: seq<Tree>)

  ghost predicate IsValue(d: seq<Item>, item: Item, v: Tree)
    decreases v, 0
  {
    match item
    case Message(_, segments) => v.Record? && AreParts(d, segments, v.parts)
    case Choice(_, arms, other, _) =>
      (match v
       case Arm(k, parts) => k < |arms| && AreParts(d, arms[k], parts)
       case Default => other || arms == []
       case Record(_) => false)
    case OtherItem => false
  }

  ghost predicate AreParts(d: seq<Item>, segments: seq<Segment>, parts: seq<Part>)
    decreases parts
  {
    |parts| == |segments| && forall i :: 0 <= i < |parts| ==> IsPart(d, segments[i], parts[i])
  }

  /** An optional message may be absent, a repeat may be empty unless it fills a window of some bytes, and a placed
      message may be absent if it can be. */
  ghost predicate IsPart(d: seq<Item>, segment: Segment, part: Part)
    decreases part
  {
    match segment
    case Value(Msg(ty, _)) => IsOne(d, ToMessage(ty), part)
    case Opt(Msg(ty, _)) => part.Nothing? || IsOne(d, ToMessage(ty), part)
    case Repeat(Msg(ty, _), count) =>
      && part.Many?
      && (count.WindowBytes? && count.n > 0 ==> part.values != [])
      && forall i :: 0 <= i < |part.values| ==> IsOf(d, ToMessage(ty), part.values[i])
    case Placed(Msg(ty, _), canBeAbsent) => (canBeAbsent && part.Nothing?) || IsOne(d, ToMessage(ty), part)
    case Switch(choice, _) => IsOne(d, ToChoice(choice), part)
    case _ => part.Nothing?
  }

  ghost predicate IsOne(d: seq<Item>, to: Referent, part: Part)
    decreases part, 0
  {
    part.One? && IsOf(d, to, part.value)
  }

  /** An item of another module may have any value. */
  ghost predicate IsOf(d: seq<Item>, to: Referent, v: Tree)
    decreases v, 1
  {
    !Declared(d, to) || exists j :: 0 <= j < |d| && Declares(d, to, j) && IsValue(d, d[j], v)
  }

  /** Item `i` has a finite value. */
  ghost predicate HasValue(d: seq<Item>, i: nat) {
    i < |d| && exists v :: IsValue(d, d[i], v)
  }

  // ---------------------------------------------------------------- what is held inside what

  /** The message or choice a segment's value is held inside: not one behind a `Box` or in a collection. */
  predicate HoldsInside(segment: Segment, to: Referent) {
    match to
    case ToMessage(name) => (segment.Value? || segment.Opt? || segment.Placed?) && segment.kind == Msg(name, false)
    case ToChoice(name) => segment.Switch? && segment.choice == name
  }

  predicate BodyHolds(segments: seq<Segment>, to: Referent) {
    exists k :: 0 <= k < |segments| && HoldsInside(segments[k], to)
  }

  predicate ItemHolds(item: Item, to: Referent) {
    match item
    case Message(_, segments) => BodyHolds(segments, to)
    case Choice(_, arms, _, _) => exists k :: 0 <= k < |arms| && BodyHolds(arms[k], to)
    case OtherItem => false
  }

  ghost predicate Inside(d: seq<Item>, i: nat, j: nat) {
    i < |d| && exists to :: Declares(d, to, j) && ItemHolds(d[i], to)
  }

  /** Which items hold which inside them. */
  ghost function InlineEdges(d: seq<Item>): Edges {
    set i, j | 0 <= i < |d| && 0 <= j < |d| && Inside(d, i, j) :: (i, j)
  }

  // ---------------------------------------------------------------- open ends

  /** The body's last segment runs on: a repeat that fills what is left, or text to the end. */
  predicate RunsOn(segments: seq<Segment>) {
    segments != [] &&
    var last := segments[|segments| - 1];
    || last == Value(TextToEnd) || last == Opt(TextToEnd)
    || (last.Repeat? && last.count == Fill)
  }

  /** The body's last segment is a message or an unbounded switch, and ends as that does. */
  predicate EndsAs(segments: seq<Segment>, to: Referent) {
    segments != [] &&
    var last := segments[|segments| - 1];
    match to
    case ToMessage(name) => (last.Value? || last.Opt?) && last.kind.Msg? && last.kind.ty == name
    case ToChoice(name) => last == Switch(name, false)
  }

  /** An unknown arm that is kept as the rest of the bytes runs on; the known ones end as their bodies do. */
  predicate UnknownRunsOn(item: Item) {
    item.Choice? && item.other && !item.otherBytes
  }

  predicate ItemRunsOn(item: Item) {
    match item
    case Message(_, segments) => RunsOn(segments)
    case Choice(_, arms, _, _) => UnknownRunsOn(item) || exists k :: 0 <= k < |arms| && RunsOn(arms[k])
    case OtherItem => false
  }

  predicate ItemEndsAs(item: Item, to: Referent) {
    match item
    case Message(_, segments) => EndsAs(segments, to)
    case Choice(_, arms, _, _) => !UnknownRunsOn(item) && exists k :: 0 <= k < |arms| && EndsAs(arms[k], to)
    case OtherItem => false
  }

  ghost predicate EndsWith(d: seq<Item>, i: nat, j: nat) {
    i < |d| && exists to :: Declares(d, to, j) && ItemEndsAs(d[i], to)
  }

  /** Which items end as which. */
  ghost function EndEdges(d: seq<Item>): Edges {
    set i, j | 0 <= i < |d| && 0 <= j < |d| && EndsWith(d, i, j) :: (i, j)
  }

  /** An item runs on when it ends, zero or more items on, as one that does. */
  ghost predicate OpenEnded(d: seq<Item>, i: nat) {
    exists j :: 0 <= j < |d| && ItemRunsOn(d[j]) && (i == j || Reaches(EndEdges(d), i, j))
  }

  /** Item `i` ends as one of another module does. */
  ghost predicate EndsElsewhere(d: seq<Item>, i: nat) {
    i < |d| && exists to :: ItemEndsAs(d[i], to) && !Declared(d, to)
  }
}
