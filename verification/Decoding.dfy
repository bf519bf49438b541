/** The stream decoder: a machine over pushes and pops, and the class that runs it in place. */
module Decoding {
  import opened Words
  import opened Frame

  datatype Stats = Stats(frames: nat, discarded: nat, checksumErrors: nat, refused: nat, unmeasurable: nat)

  const NO_STATS := Stats(0, 0, 0, 0, 0)

  datatype Popped = Popped(frame: seq<Byte>, body: seq<Byte>, integrity: Integrity)

  /** The bytes held; the first `spent` of them are the frame last returned. */
  datatype State = State(held: seq<Byte>, spent: nat, stats: Stats) {
    predicate Ok() {
      spent <= |held|
    }

    function Buffered(): seq<Byte>
      requires Ok()
    {
      held[spent..]
    }
  }

  const EMPTY := State([], 0, NO_STATS)

  /** What one pop does to the front of the stream. */
  datatype Piece = Emitted(popped: Popped) | Dropped(bytes: seq<Byte>, cause: DesyncCause) {
    function Taken(): seq<Byte> {
      if Emitted? then popped.frame else bytes
    }

    function Given(): seq<Popped> {
      if Emitted? then [popped] else []
    }
  }

  function Release(st: State): State
    requires st.Ok()
  {
    State(st.held[st.spent..], 0, st.stats)
  }

  function CountDiscard(stats: Stats, n: nat, cause: DesyncCause): Stats {
    var counted := stats.(discarded := SatAdd(stats.discarded, n));
    match cause
    case BadChecksum => counted.(checksumErrors := SatAdd(counted.checksumErrors, 1))
    case CannotMeasure => counted.(unmeasurable := SatAdd(counted.unmeasurable, 1))
    case _ => counted
  }

  function CountFrame(stats: Stats, integrity: Integrity): Stats {
    var counted := stats.(frames := SatAdd(stats.frames, 1));
    if integrity.Corrupt? then counted.(checksumErrors := SatAdd(counted.checksumErrors, 1)) else counted
  }

  function Taken(cap: nat, st: State, bytes: seq<Byte>): nat
    requires st.Ok() && |st.held| <= cap
  {
    Min(cap - |st.Buffered()|, |bytes|)
  }

  function PushStep(cap: nat, st: State, bytes: seq<Byte>): (next: State)
    requires st.Ok() && |st.held| <= cap
    ensures next.Ok() && |next.held| <= cap
  {
    var take := Taken(cap, st, bytes);
    State(st.Buffered() + bytes[..take], 0, st.stats.(refused := SatAdd(st.stats.refused, |bytes| - take)))
  }

  datatype Drained = Drained(state: State, out: Option<Popped>, log: seq<Piece>)

  /** The loop of `pop` over bytes of which none are spent. */
  function Drain(s: Spec, held: seq<Byte>, stats: Stats): (d: Drained)
    requires s.Fits()
    ensures d.state.Ok() && |d.state.held| <= |held|
    ensures d.out.Some? ==> 1 <= d.state.spent && d.out.value.frame == d.state.held[..d.state.spent]
    ensures d.out.None? ==> d.state.spent == 0 && |d.state.held| < s.maxFrame
    decreases |held|
  {
    match Parse(s, held)
    case Desync(discard, cause) =>
      var n := Min(Max(discard, 1), |held|);
      var d := Drain(s, held[n..], CountDiscard(stats, n, cause));
      d.(log := [Dropped(held[..n], cause)] + d.log)
    case Incomplete(_) => Drained(State(held, 0, stats), None, [])
    case Complete(consumed, from, to, integrity) =>
      var popped := Popped(held[..consumed], held[from..to], integrity);
      Drained(State(held, consumed, CountFrame(stats, integrity)), Some(popped), [Emitted(popped)])
  }

  function PopStep(s: Spec, st: State): Drained
    requires s.Fits() && st.Ok()
  {
    Drain(s, st.Buffered(), st.stats)
  }

  // ---------------------------------------------------------------- runs

  datatype Op = Push(bytes: seq<Byte>) | Pop

  /** Everything a run has done: the bytes accepted, the frames returned, and whether its last pop found none. */
  datatype Trace = Trace(state: State, accepted: seq<Byte>, frames: seq<Popped>, drained: bool)

  function Run(s: Spec, cap: nat, ops: seq<Op>): (t: Trace)
    requires s.Fits()
    ensures t.state.Ok() && |t.state.held| <= cap
  {
    if ops == [] then Trace(EMPTY, [], [], false)
    else
      var t := Run(s, cap, ops[..|ops| - 1]);
      match ops[|ops| - 1]
      case Push(bytes) =>
        var take := Taken(cap, t.state, bytes);
        Trace(PushStep(cap, t.state, bytes), t.accepted + bytes[..take], t.frames, false)
      case Pop =>
        var d := PopStep(s, t.state);
        Trace(d.state, t.accepted, if d.out.Some? then t.frames + [d.out.value] else t.frames, d.out.None?)
  }

  /** The pieces a run has taken off the stream, in order. */
  function Log(s: Spec, cap: nat, ops: seq<Op>): seq<Piece>
    requires s.Fits()
  {
    if ops == [] then []
    else
      var before := Log(s, cap, ops[..|ops| - 1]);
      if ops[|ops| - 1].Pop? then before + PopStep(s, Run(s, cap, ops[..|ops| - 1]).state).log else before
  }

  /** The bytes a run's pushes were given, and those of them that did not fit. */
  function Offered(ops: seq<Op>): nat {
    if ops == [] then 0
    else
      var last := ops[|ops| - 1];
      Offered(ops[..|ops| - 1]) + if last.Push? then |last.bytes| else 0
  }

  function Refused(s: Spec, cap: nat, ops: seq<Op>): nat
    requires s.Fits()
  {
    if ops == [] then 0
    else
      var before, last := ops[..|ops| - 1], ops[|ops| - 1];
      var now := if last.Push? then |last.bytes| - Taken(cap, Run(s, cap, before).state, last.bytes) else 0;
      Refused(s, cap, before) + now
  }

  // ---------------------------------------------------------------- conservation

  function Bytes(log: seq<Piece>): seq<Byte> {
    if log == [] then [] else log[0].Taken() + Bytes(log[1..])
  }

  function Frames(log: seq<Piece>): seq<Popped> {
    if log == [] then [] else log[0].Given() + Frames(log[1..])
  }

  /** The sum of `worth` over a log. */
  function Tally(log: seq<Piece>, worth: Piece -> nat): nat {
    if log == [] then 0 else worth(log[0]) + Tally(log[1..], worth)
  }

  function Lost(p: Piece): nat {
    if p.Dropped? then |p.bytes| else 0
  }

  function Failed(p: Piece): nat {
    if p.Dropped? then (if p.cause.BadChecksum? then 1 else 0) else if p.popped.integrity.Corrupt? then 1 else 0
  }

  function Unsized(p: Piece): nat {
    if p.Dropped? && p.cause.CannotMeasure? then 1 else 0
  }

  function Whole(p: Piece): nat {
    if p.Emitted? then 1 else 0
  }

  /** What saturating counters show for a log. `refused` belongs to `push`. */
  predicate Shows(stats: Stats, log: seq<Piece>) {
    && stats.frames == Min(Tally(log, Whole), U64_MAX)
    && stats.discarded == Min(Tally(log, Lost), U64_MAX)
    && stats.checksumErrors == Min(Tally(log, Failed), U64_MAX)
    && stats.unmeasurable == Min(Tally(log, Unsized), U64_MAX)
  }

  lemma {:induction false} BytesAppend(a: seq<Piece>, b: seq<Piece>)
    ensures Bytes(a + b) == Bytes(a) + Bytes(b)
  {
    if a == [] {
      assert a + b == b;
    } else {
      assert (a + b)[1..] == a[1..] + b;
      BytesAppend(a[1..], b);
      assert a[0].Taken() + (Bytes(a[1..]) + Bytes(b)) == (a[0].Taken() + Bytes(a[1..])) + Bytes(b);
    }
  }

  lemma {:induction false} FramesAppend(a: seq<Piece>, b: seq<Piece>)
    ensures Frames(a + b) == Frames(a) + Frames(b)
  {
    if a == [] {
      assert a + b == b;
    } else {
      assert (a + b)[1..] == a[1..] + b;
      FramesAppend(a[1..], b);
      assert a[0].Given() + (Frames(a[1..]) + Frames(b)) == (a[0].Given() + Frames(a[1..])) + Frames(b);
    }
  }

  lemma {:induction false} TallyAppend(a: seq<Piece>, b: seq<Piece>, worth: Piece -> nat)
    ensures Tally(a + b, worth) == Tally(a, worth) + Tally(b, worth)
  {
    if a == [] {
      assert a + b == b;
    } else {
      assert (a + b)[1..] == a[1..] + b;
      TallyAppend(a[1..], b, worth);
    }
  }

  lemma ShowsOneMore(stats: Stats, log: seq<Piece>, p: Piece)
    requires Shows(stats, log)
    ensures p.Dropped? ==> Shows(CountDiscard(stats, |p.bytes|, p.cause), log + [p])
    ensures p.Emitted? ==> Shows(CountFrame(stats, p.popped.integrity), log + [p])
  {
    assert forall worth: Piece -> nat :: Tally([p], worth) == worth(p);
    TallyAppend(log, [p], Whole);
    TallyAppend(log, [p], Lost);
    TallyAppend(log, [p], Failed);
    TallyAppend(log, [p], Unsized);
  }

  lemma Rejoin(whole: seq<Byte>, n: nat, a: seq<Byte>, b: seq<Byte>)
    requires n <= |whole| && whole[n..] == a + b
    ensures whole == (whole[..n] + a) + b
  {
    assert whole == whole[..n] + whole[n..];
  }

  /** A pop's log is exactly what it took off the front. */
  lemma {:induction false} DrainConserves(s: Spec, held: seq<Byte>, stats: Stats)
    requires s.Fits()
    ensures var d := Drain(s, held, stats);
      && held == Bytes(d.log) + d.state.Buffered()
      && Frames(d.log) == (if d.out.Some? then [d.out.value] else [])
    decreases |held|
  {
    var d := Drain(s, held, stats);
    var p := Parse(s, held);
    if p.Desync? {
      var n := p.discard;
      var counted := CountDiscard(stats, n, p.cause);
      DrainConserves(s, held[n..], counted);
      var rest := Drain(s, held[n..], counted);
      Rejoin(held, n, Bytes(rest.log), d.state.Buffered());
    } else if p.Complete? {
      Rejoin(held, p.consumed, [], held[p.consumed..]);
    }
  }

  /** A pop moves the counters on by exactly its log. */
  lemma {:induction false} DrainCounts(s: Spec, held: seq<Byte>, stats: Stats, earlier: seq<Piece>)
    requires s.Fits() && Shows(stats, earlier)
    ensures Shows(Drain(s, held, stats).state.stats, earlier + Drain(s, held, stats).log)
    decreases |held|
  {
    hide Shows, CountDiscard, CountFrame, Parse;
    var d := Drain(s, held, stats);
    var p := Parse(s, held);
    if p.Desync? {
      var piece := Dropped(held[..p.discard], p.cause);
      var counted := CountDiscard(stats, p.discard, p.cause);
      ShowsOneMore(stats, earlier, piece);
      DrainCounts(s, held[p.discard..], counted, earlier + [piece]);
      assert earlier + d.log == (earlier + [piece]) + Drain(s, held[p.discard..], counted).log;
    } else if p.Complete? {
      ShowsOneMore(stats, earlier, d.log[0]);
    } else {
      assert earlier + d.log == earlier;
    }
  }

  /** The accepted bytes are, in order, the returned frames and the counted discards, then the bytes still held. */
  lemma {:induction false} RunConserves(s: Spec, cap: nat, ops: seq<Op>)
    requires s.Fits()
    ensures var t := Run(s, cap, ops);
      && t.accepted == Bytes(Log(s, cap, ops)) + t.state.Buffered()
      && t.frames == Frames(Log(s, cap, ops))
      && Shows(t.state.stats, Log(s, cap, ops))
  {
    if ops == [] {
    } else {
      var before := ops[..|ops| - 1];
      RunConserves(s, cap, before);
      var t := Run(s, cap, before);
      var log := Log(s, cap, before);
      match ops[|ops| - 1]
      case Push(bytes) =>
        AppendAssoc(Bytes(log), t.state.Buffered(), bytes[..Taken(cap, t.state, bytes)]);
      case Pop =>
        var d := PopStep(s, t.state);
        DrainConserves(s, t.state.Buffered(), t.state.stats);
        DrainCounts(s, t.state.Buffered(), t.state.stats, log);
        BytesAppend(log, d.log);
        FramesAppend(log, d.log);
        AppendAssoc(Bytes(log), Bytes(d.log), d.state.Buffered());
    }
  }

  lemma {:induction false} DrainRefusesNothing(s: Spec, held: seq<Byte>, stats: Stats)
    requires s.Fits()
    ensures Drain(s, held, stats).state.stats.refused == stats.refused
    decreases |held|
  {
    hide Parse;
    var p := Parse(s, held);
    if !p.Desync? {
    } else {
      DrainRefusesNothing(s, held[p.discard..], CountDiscard(stats, p.discard, p.cause));
    }
  }

  /** Every byte a push is given is accepted or refused, and the counter shows the refused ones of the whole run. */
  lemma {:induction false} RunCountsRefusals(s: Spec, cap: nat, ops: seq<Op>)
    requires s.Fits()
    ensures Run(s, cap, ops).state.stats.refused == Min(Refused(s, cap, ops), U64_MAX)
    ensures Offered(ops) == |Run(s, cap, ops).accepted| + Refused(s, cap, ops)
    decreases |ops|
  {
    if ops == [] {
    } else {
      var before := ops[..|ops| - 1];
      RunCountsRefusals(s, cap, before);
      if ops[|ops| - 1].Pop? {
        var st := Run(s, cap, before).state;
        DrainRefusesNothing(s, st.Buffered(), st.stats);
      }
    }
  }

  /** A push refuses nothing while there is room: what it holds back finds the buffer full, but for the spent frame. */
  lemma PushTakesWhatFits(cap: nat, st: State, bytes: seq<Byte>)
    requires st.Ok() && |st.held| <= cap
    ensures var next := PushStep(cap, st, bytes);
      && next.Buffered() <= st.Buffered() + bytes
      && (next.Buffered() == st.Buffered() + bytes || |next.held| == cap)
      && next.spent == 0
  {
    var next, all := PushStep(cap, st, bytes), st.Buffered() + bytes;
    assert next.Buffered() == all[..|next.held|];
    assert all[..|all|] == all;
  }

  /** A drained decoder has room: the next push that offers a byte takes one. */
  lemma DrainedHasRoom(s: Spec, cap: nat, ops: seq<Op>, bytes: seq<Byte>)
    requires s.Fits() && s.maxFrame <= cap && bytes != []
    requires Run(s, cap, ops).drained
    ensures |Run(s, cap, ops).state.held| < s.maxFrame
    ensures Run(s, cap, ops).accepted < Run(s, cap, ops + [Push(bytes)]).accepted
  {
    assert (ops + [Push(bytes)])[..|ops|] == ops;
    assert ops[|ops| - 1].Pop?;
  }

  // ---------------------------------------------------------------- in place

  lemma DrainUnfolds(s: Spec, held: seq<Byte>, stats: Stats)
    requires s.Fits()
    ensures var p, d := Parse(s, held), Drain(s, held, stats);
      && (p.Desync? ==> var next := Drain(s, held[p.discard..], CountDiscard(stats, p.discard, p.cause));
            d.state == next.state && d.out == next.out)
      && (p.Incomplete? ==> d.state == State(held, 0, stats) && d.out == None)
      && (p.Complete? ==>
            && d.state == State(held, p.consumed, CountFrame(stats, p.integrity))
            && d.out == Some(Popped(held[..p.consumed], held[p.bodyFrom..p.bodyTo], p.integrity)))
  {
  }

  /** `Decoder`: the machine above over one fixed buffer. */
  class Decoder {
    const spec: Spec
    const buf: array<Byte>
    var len: nat
    var spent: nat
    var stats: Stats

    ghost predicate Valid()
      reads this
    {
      spec.Fits() && spec.maxFrame <= buf.Length && spent <= len <= buf.Length
    }

    ghost function Abs(): (st: State)
      reads this, buf
      requires Valid()
      ensures st.Ok() && |st.held| <= buf.Length
    {
      State(buf[..len], spent, stats)
    }

    constructor (spec: Spec, capacity: nat)
      requires spec.Fits() && spec.maxFrame <= capacity
      ensures Valid() && fresh(buf)
      ensures this.spec == spec && buf.Length == capacity && Abs() == EMPTY
    {
      this.spec := spec;
      buf := new Byte[capacity](_ => Zeros(8));
      len, spent, stats := 0, 0, NO_STATS;
    }

    method Push(bytes: seq<Byte>) returns (take: nat)
      requires Valid()
      modifies this, buf
      ensures Valid()
      ensures take == Taken(buf.Length, old(Abs()), bytes)
      ensures Abs() == PushStep(buf.Length, old(Abs()), bytes)
    {
      DoRelease();
      take := Min(buf.Length - len, |bytes|);
      forall i | 0 <= i < take {
        buf[len + i] := bytes[i];
      }
      len := len + take;
      stats := stats.(refused := SatAdd(stats.refused, |bytes| - take));
      assert buf[..len] == old(buf[..len])[old(spent)..] + bytes[..take];
    }

    method Pop() returns (out: Option<Popped>)
      requires Valid()
      modifies this, buf
      ensures Valid()
      ensures Abs() == PopStep(spec, old(Abs())).state
      ensures out == PopStep(spec, old(Abs())).out
    {
      hide Drain, Parse;
      DoRelease();
      ghost var want := Drain(spec, buf[..len], stats);
      while true
        invariant Valid() && spent == 0
        invariant Drain(spec, buf[..len], stats).state == want.state
        invariant Drain(spec, buf[..len], stats).out == want.out
        decreases len
      {
        var p := ParseBuffer(spec, buf[..len]);
        DrainUnfolds(spec, buf[..len], stats);
        match p {
          case Desync(discard, cause) =>
            var n := Min(Max(discard, 1), len);
            stats := stats.(discarded := SatAdd(stats.discarded, n));
            match cause {
              case BadChecksum => stats := stats.(checksumErrors := SatAdd(stats.checksumErrors, 1));
              case CannotMeasure => stats := stats.(unmeasurable := SatAdd(stats.unmeasurable, 1));
              case NoCandidate | BadHeader | TooLarge | Unbounded =>
            }
            Consume(n);
          case Incomplete(_) =>
            return None;
          case Complete(consumed, from, to, integrity) =>
            spent := consumed;
            stats := stats.(frames := SatAdd(stats.frames, 1));
            if integrity.Corrupt? {
              stats := stats.(checksumErrors := SatAdd(stats.checksumErrors, 1));
            }
            var held := buf[..len];
            return Some(Popped(held[..consumed], held[from..to], integrity));
        }
      }
    }

    method DoRelease()
      requires Valid()
      modifies this, buf
      ensures Valid()
      ensures Abs() == Release(old(Abs()))
    {
      if spent > 0 {
        Consume(spent);
        spent := 0;
      }
    }

    method Consume(n: nat)
      requires n <= len <= buf.Length
      modifies this`len, buf
      ensures len == old(len) - n && buf[..len] == old(buf[..len])[n..]
    {
      forall i | 0 <= i < len - n {
        buf[i] := buf[n + i];
      }
      len := len - n;
    }
  }
}
