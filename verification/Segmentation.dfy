/** The frames of a whole stream, judged byte by byte with no decoder, and the proof that the decoder finds
    exactly those however the stream was cut up. */
module Segmentation {
  import opened Words
  import opened Frame
  import opened Decoding

  datatype Verdict = Wait | Skip(cause: DesyncCause) | Take(popped: Popped)

  /** What the start of a stream is, from those bytes alone. */
  function Front(s: Spec, stream: seq<Byte>): (v: Verdict)
    requires s.Fits()
    ensures v.Take? ==> 1 <= |v.popped.frame| <= |stream|
    ensures !v.Wait? ==> stream != []
  {
    if |stream| < s.candidateLen then Wait
    else if !s.candidate(stream) then Skip(NoCandidate)
    else
      match s.measure(stream)
      case Reject => Skip(BadHeader)
      case Unmeasurable => Skip(CannotMeasure)
      case More(_) => if |stream| < s.maxFrame then Wait else Skip(Unbounded)
      case Total(total) =>
        if total > s.maxFrame then Skip(TooLarge)
        else if total < s.headerLen then Skip(BadHeader)
        else if |stream| < total then Wait
        else
          var frame := stream[..total];
          var (from, to) := s.body(frame);
          if from > to || to > total then Skip(BadHeader)
          else if s.verify(frame) then Take(Popped(frame, frame[from..to], Verified))
          else if s.onCorrupt.Resync? then Skip(BadChecksum)
          else Take(Popped(frame, frame[from..to], Corrupt))
  }

  /** The leftmost greedy reading of a stream: its frames, what it loses, and the bytes still undecided. */
  datatype Reading = Reading(frames: seq<Popped>, lost: nat, failed: nat, unsized: nat, rest: seq<Byte>)

  function Read(s: Spec, stream: seq<Byte>): Reading
    requires s.Fits()
    decreases |stream|
  {
    match Front(s, stream)
    case Wait => Reading([], 0, 0, 0, stream)
    case Skip(cause) => After([Dropped(stream[..1], cause)], Read(s, stream[1..]))
    case Take(popped) => After([Emitted(popped)], Read(s, stream[|popped.frame|..]))
  }

  /** `log`, and then `g`. */
  function After(log: seq<Piece>, g: Reading): Reading {
    Reading(Frames(log) + g.frames, Tally(log, Lost) + g.lost, Tally(log, Failed) + g.failed,
            Tally(log, Unsized) + g.unsized, g.rest)
  }

  /** For any protocol, a verdict of `parse` is the reading of what the stream begins with: but that a run of bytes that
      start no frame is skipped at once, and one that scans on may skip what it would wait for. */
  lemma VerdictIsTheFronts(s: Spec, buf: seq<Byte>)
    requires s.Fits()
    ensures var p := Parse(s, buf);
      && (p.Complete? <==> Front(s, buf).Take?)
      && (p.Complete? ==>
            Front(s, buf) == Take(Popped(buf[..p.consumed], buf[p.bodyFrom..p.bodyTo], p.integrity)))
      && (p.Incomplete? ==> Front(s, buf).Wait?)
      && (Front(s, buf).Wait? && p.Desync? ==> s.scanPastIncomplete && p.cause.NoCandidate?)
      && (Front(s, buf).Skip? && !Front(s, buf).cause.NoCandidate? ==> p == Desync(1, Front(s, buf).cause))
      && (Front(s, buf) == Skip(NoCandidate) ==>
            && p.Desync? && p.cause.NoCandidate?
            && (forall j :: 0 <= j < p.discard ==> Front(s, buf[j..]) == Skip(NoCandidate))
            && Front(s, buf[p.discard..]) != Skip(NoCandidate))
  {
    var i := ScanEnd(s, buf, 0);
    assert buf[0..] == buf;
    if i > 0 {
      assert NoStartAt(s, buf, 0);
      forall j | 0 <= j < i ensures Front(s, buf[j..]) == Skip(NoCandidate) {
        assert NoStartAt(s, buf, j);
      }
    } else if s.candidateLen <= |buf| {
      var m := s.measure(buf);
      if m.Total? && m.len <= |buf| {
        var (from, to) := s.body(buf[..m.len]);
        if from <= to <= m.len {
          assert buf[..m.len][from..to] == buf[from..to];
        }
      }
    }
  }

  // ---------------------------------------------------------------- which protocols

  /** No verdict changes when more bytes arrive, and none is put off past the largest frame. */
  ghost predicate Stable(s: Spec) {
    && (forall a, b :: |a| >= s.candidateLen ==> s.candidate(a + b) == s.candidate(a))
    && (forall a, b :: !s.measure(a).More? ==> s.measure(a + b) == s.measure(a))
    && (forall a :: |a| >= s.maxFrame ==> !s.measure(a).More?)
  }

  /** The default `measure`: nothing until the header is there, then whatever `frame_len` reads in it. */
  function DefaultMeasure(headerLen: nat, frameLen: seq<Byte> -> Option<nat>): seq<Byte> -> Measure {
    (bytes: seq<Byte>) =>
      if |bytes| < headerLen then More(headerLen - |bytes|)
      else match frameLen(bytes[..headerLen]) case Some(total) => Total(total) case None => Reject
  }

  /** A protocol with the default `measure` is stable whenever its `candidate` reads only its own bytes. */
  lemma DefaultIsStable(s: Spec, frameLen: seq<Byte> -> Option<nat>)
    requires s.Fits()
    requires s.measure == DefaultMeasure(s.headerLen, frameLen)
    requires forall a :: |a| >= s.candidateLen ==> s.candidate(a) == s.candidate(a[..s.candidateLen])
    ensures Stable(s)
  {
    forall a: seq<Byte>, b: seq<Byte> | |a| >= s.candidateLen
      ensures s.candidate(a + b) == s.candidate(a)
    {
      assert (a + b)[..s.candidateLen] == a[..s.candidateLen];
    }
    forall a: seq<Byte>, b: seq<Byte> | !s.measure(a).More?
      ensures s.measure(a + b) == s.measure(a)
    {
      assert (a + b)[..s.headerLen] == a[..s.headerLen];
    }
  }

  /** With the default `measure`, while fewer bytes than an `Incomplete` asks for arrive, the verdict stays incomplete
      exactly as long as a spec that scans on sees no later frame whole. */
  lemma NeedIsALowerBound(s: Spec, frameLen: seq<Byte> -> Option<nat>, held: seq<Byte>, more: seq<Byte>)
    requires s.Fits() && s.measure == DefaultMeasure(s.headerLen, frameLen)
    requires forall a :: |a| >= s.candidateLen ==> s.candidate(a) == s.candidate(a[..s.candidateLen])
    requires Parse(s, held).Incomplete? && |more| < Parse(s, held).need
    ensures Parse(s, held + more).Incomplete? <==>
      !(s.scanPastIncomplete && |held + more| >= s.candidateLen && CompleteBeyond(s, held + more, 1).Some?)
    ensures Parse(s, held + more).Incomplete? ==> |more| + Parse(s, held + more).need >= Parse(s, held).need
  {
    DefaultIsStable(s, frameLen);
    var buf := held + more;
    assert held[0..] == held && buf[0..] == buf;
    if |held| >= s.candidateLen {
      assert s.candidate(held) by {
        assert !NoStartAt(s, held, 0);
      }
      assert s.candidate(buf) == s.candidate(held);
      assert !s.measure(held).More? ==> s.measure(buf) == s.measure(held);
    }
  }

  /** What an `Incomplete` asks for completes the candidate, the header, or the frame its length is read from; and when
      it is the frame, those bytes end the wait. */
  lemma NeedIsWhatIsMissing(s: Spec, frameLen: seq<Byte> -> Option<nat>, held: seq<Byte>, more: seq<Byte>)
    requires s.Fits() && s.measure == DefaultMeasure(s.headerLen, frameLen)
    requires forall a :: |a| >= s.candidateLen ==> s.candidate(a) == s.candidate(a[..s.candidateLen])
    requires Parse(s, held).Incomplete?
    ensures var whole := |held| + Parse(s, held).need;
      if |held| < s.candidateLen then whole == s.candidateLen
      else if |held| < s.headerLen then whole == s.headerLen
      else
        && frameLen(held[..s.headerLen]) == Some(whole)
        && (|held + more| >= whole ==> !Parse(s, held + more).Incomplete?)
  {
    assert held[0..] == held;
    if |held| >= s.headerLen {
      assert !NoStartAt(s, held, 0);
      if |held + more| >= |held| + Parse(s, held).need {
        MeasuredEndsTheWait(s, frameLen, held, more);
      }
    }
  }

  lemma MeasuredEndsTheWait(s: Spec, frameLen: seq<Byte> -> Option<nat>, held: seq<Byte>, more: seq<Byte>)
    requires s.Fits() && s.measure == DefaultMeasure(s.headerLen, frameLen) && |held| >= s.headerLen
    requires forall a :: |a| >= s.candidateLen ==> s.candidate(a) == s.candidate(a[..s.candidateLen])
    requires s.candidate(held) && s.measure(held).Total? && |held + more| >= s.measure(held).len
    ensures !Parse(s, held + more).Incomplete?
  {
    DefaultIsStable(s, frameLen);
    var buf := held + more;
    assert buf[0..] == buf && s.candidate(buf) == s.candidate(held) && s.measure(buf) == s.measure(held);
    assert !NoStartAt(s, buf, 0);
  }

  // ---------------------------------------------------------------- the proof

  lemma FrontIsStable(s: Spec, a: seq<Byte>, b: seq<Byte>)
    requires s.Fits() && Stable(s) && !Front(s, a).Wait?
    ensures Front(s, a + b) == Front(s, a)
  {
    var m := s.measure(a);
    assert s.candidate(a + b) == s.candidate(a);
    if s.candidate(a) {
      assert s.measure(a + b) == m;
      if m.Total? && m.len <= |a| {
        assert (a + b)[..m.len] == a[..m.len];
      }
    }
  }

  lemma AfterAfter(a: seq<Piece>, b: seq<Piece>, g: Reading)
    ensures After(a + b, g) == After(a, After(b, g))
  {
    FramesAppend(a, b);
    TallyAppend(a, b, Lost);
    TallyAppend(a, b, Failed);
    TallyAppend(a, b, Unsized);
    assert Frames(a) + (Frames(b) + g.frames) == (Frames(a) + Frames(b)) + g.frames;
  }

  lemma SkipsMerge(x: seq<Byte>, y: seq<Byte>, xy: seq<Byte>, g: Reading)
    requires |xy| == |x| + |y|
    ensures After([Dropped(x, NoCandidate)], After([Dropped(y, NoCandidate)], g))
         == After([Dropped(xy, NoCandidate)], g)
  {
    assert forall p: Piece, worth: Piece -> nat :: Tally([p], worth) == worth(p);
    assert forall p: Piece :: Frames([p]) == p.Given();
  }

  /** A run of `n` bytes that start no frame is read one byte at a time to the same effect. */
  lemma {:induction false} ReadSkips(s: Spec, a: seq<Byte>, n: nat, b: seq<Byte>)
    requires s.Fits() && Stable(s) && 1 <= n <= |a|
    requires forall j :: 0 <= j < n ==> NoStartAt(s, a, j)
    ensures Read(s, a + b) == After([Dropped(a[..n], NoCandidate)], Read(s, a[n..] + b))
  {
    hide Stable, After;
    assert NoStartAt(s, a, 0) && a[0..] == a;
    assert Front(s, a) == Skip(NoCandidate);
    hide Front, Spec.Fits;
    FrontIsStable(s, a, b);
    Cut(a, b, 1);
    if n <= 1 {
    } else {
      forall j | 0 <= j < n - 1
        ensures NoStartAt(s, a[1..], j)
      {
        assert NoStartAt(s, a, j + 1) && a[1..][j..] == a[j + 1..];
      }
      ReadSkips(s, a[1..], n - 1, b);
      assert a[1..][n - 1..] == a[n..];
      SkipsMerge(a[..1], a[1..][..n - 1], a[..n], Read(s, a[n..] + b));
    }
  }

  /** One verdict of `parse` on the bytes that have arrived is a step of the reading of any stream they begin. */
  lemma ParseReads(s: Spec, held: seq<Byte>, b: seq<Byte>)
    requires s.Fits() && Stable(s) && !s.scanPastIncomplete
    ensures var p := Parse(s, held);
      && (p.Desync? ==>
        Read(s, held + b) == After([Dropped(held[..p.discard], p.cause)], Read(s, held[p.discard..] + b)))
      && (p.Complete? ==>
        Read(s, held + b) ==
          After([Emitted(Popped(held[..p.consumed], held[p.bodyFrom..p.bodyTo], p.integrity))],
                Read(s, held[p.consumed..] + b)))
      && (p.Incomplete? ==> Front(s, held).Wait?)
  {
    var i := ScanEnd(s, held, 0);
    if i > 0 {
      ReadSkips(s, held, i, b);
    } else if s.candidateLen <= |held| {
      assert held[0..] == held;
      ClassifyJudges(s, held);
      var p := Classify(s, held);
      if !p.Incomplete? {
        FrontIsStable(s, held, b);
        Cut(held, b, if p.Desync? then 1 else p.consumed);
      }
    }
  }

  lemma Cut(a: seq<Byte>, b: seq<Byte>, n: nat)
    requires n <= |a|
    ensures (a + b)[..n] == a[..n] && (a + b)[n..] == a[n..] + b
  {
  }

  /** `parse` past its search and the reading of one stream start agree. */
  lemma ClassifyJudges(s: Spec, held: seq<Byte>)
    requires s.Fits() && !s.scanPastIncomplete && |held| >= s.candidateLen && s.candidate(held)
    ensures Front(s, held) ==
      match Classify(s, held)
      case Desync(_, cause) => Skip(cause)
      case Incomplete(_) => Wait
      case Complete(n, from, to, integrity) => Take(Popped(held[..n], held[from..to], integrity))
    ensures Classify(s, held).Desync? ==> Classify(s, held).discard == 1
  {
    var m := s.measure(held);
    if m.Total? && m.len <= |held| {
      var (from, to) := s.body(held[..m.len]);
      if from <= to <= m.len {
        assert held[..m.len][from..to] == held[from..to];
      }
    }
  }

  lemma {:induction false} DrainReads(s: Spec, held: seq<Byte>, stats: Stats, b: seq<Byte>)
    requires s.Fits() && Stable(s) && !s.scanPastIncomplete
    ensures var d := Drain(s, held, stats);
      && Read(s, held + b) == After(d.log, Read(s, d.state.Buffered() + b))
      && (d.out.None? ==> Front(s, d.state.Buffered()).Wait?)
    decreases |held|
  {
    var d := Drain(s, held, stats);
    var p := Parse(s, held);
    ParseReads(s, held, b);
    if !p.Desync? {
    } else {
      var counted := CountDiscard(stats, p.discard, p.cause);
      DrainReads(s, held[p.discard..], counted, b);
      AfterAfter([Dropped(held[..p.discard], p.cause)], Drain(s, held[p.discard..], counted).log,
                 Read(s, d.state.Buffered() + b));
    }
  }

  /** At every point of every run, the stream so far, whatever follows it, reads as what the run has taken off
      and then what it still holds. */
  lemma {:induction false} RunReads(s: Spec, cap: nat, ops: seq<Op>, b: seq<Byte>)
    requires s.Fits() && Stable(s) && !s.scanPastIncomplete
    ensures var t := Run(s, cap, ops);
      && Read(s, t.accepted + b) == After(Log(s, cap, ops), Read(s, t.state.Buffered() + b))
      && (t.drained ==> Front(s, t.state.Buffered()).Wait?)
    decreases |ops|
  {
    hide Front, Drain, Stable, Spec.Fits;
    if ops == [] {
      assert [] + b == b;
    } else {
      var before := ops[..|ops| - 1];
      var t := Run(s, cap, before);
      match ops[|ops| - 1]
      case Push(bytes) =>
        var taken := bytes[..Taken(cap, t.state, bytes)];
        RunReads(s, cap, before, taken + b);
        AppendAssoc(t.accepted, taken, b);
        AppendAssoc(t.state.Buffered(), taken, b);
      case Pop =>
        RunReads(s, cap, before, b);
        DrainReads(s, t.state.Buffered(), t.state.stats, b);
        var d := PopStep(s, t.state);
        AfterAfter(Log(s, cap, before), d.log, Read(s, d.state.Buffered() + b));
    }
  }

  /** However a stream is cut into pushes and pops, the frames returned are a prefix of the stream's own frames,
      and once a pop finds none the frames, the bytes left over and the counters are the stream's own. */
  lemma FramesAreTheStreams(s: Spec, cap: nat, ops: seq<Op>)
    requires s.Fits() && Stable(s) && !s.scanPastIncomplete
    ensures var t := Run(s, cap, ops);
      var g := Read(s, t.accepted);
      && t.frames <= g.frames
      && (t.drained ==>
        && t.frames == g.frames
        && t.state.held == g.rest
        && t.state.stats.frames == Min(|g.frames|, U64_MAX)
        && t.state.stats.discarded == Min(g.lost, U64_MAX)
        && t.state.stats.checksumErrors == Min(g.failed, U64_MAX)
        && t.state.stats.unmeasurable == Min(g.unsized, U64_MAX))
  {
    var t := Run(s, cap, ops);
    RunReads(s, cap, ops, []);
    RunConserves(s, cap, ops);
    assert t.accepted + [] == t.accepted;
    assert t.state.Buffered() + [] == t.state.Buffered();
    WholeCountsFrames(Log(s, cap, ops));
    if t.drained {
      assert ops != [] && ops[|ops| - 1].Pop?;
      assert t.state.spent == 0;
    }
  }

  lemma {:induction false} WholeCountsFrames(log: seq<Piece>)
    ensures Tally(log, Whole) == |Frames(log)|
  {
    if log == [] {
    } else {
      WholeCountsFrames(log[1..]);
    }
  }

  /** Two drained runs that accepted the same bytes agree, however each was cut up and whatever its buffer size. */
  lemma CutsDoNotMatter(s: Spec, cap: nat, ops: seq<Op>, cap': nat, ops': seq<Op>)
    requires s.Fits() && Stable(s) && !s.scanPastIncomplete
    requires Run(s, cap, ops).drained && Run(s, cap', ops').drained
    requires Run(s, cap, ops).accepted == Run(s, cap', ops').accepted
    ensures var t, t' := Run(s, cap, ops), Run(s, cap', ops');
      t.frames == t'.frames && t.state.held == t'.state.held &&
      t.state.stats.(refused := 0) == t'.state.stats.(refused := 0)
  {
    FramesAreTheStreams(s, cap, ops);
    FramesAreTheStreams(s, cap', ops');
  }
}
