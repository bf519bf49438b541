/** Stream framing: what `parse` says about a buffer, and the decoder built on it. */
module Frame {
  import opened Words

  datatype Measure = Total(len: nat) | More(need: nat) | Reject | Unmeasurable

  datatype CorruptPolicy = Resync | Consume

  datatype Integrity = Verified | Corrupt

  datatype DesyncCause = NoCandidate | BadHeader | BadChecksum | TooLarge | CannotMeasure | Unbounded

  datatype Parsed =
    | Complete(consumed: nat, bodyFrom: nat, bodyTo: nat, integrity: Integrity)
    | Incomplete(need: nat)
    | Desync(discard: nat, cause: DesyncCause)

  /** A framing protocol. The functions are the protocol's own and may be anything. */
  datatype Spec = Spec(
    candidateLen: nat,
    headerLen: nat,
    maxFrame: nat,
    onCorrupt: CorruptPolicy,
    scanPastIncomplete: bool,
    candidate: seq<Byte> -> bool,
    measure: seq<Byte> -> Measure,
    verify: seq<Byte> -> bool,
    body: seq<Byte> -> (nat, nat))
  {
    /** What `Decoder::new` asserts at compile time. */
    predicate Fits() {
      1 <= candidateLen <= headerLen <= maxFrame
    }
  }

  function Max(a: nat, b: nat): nat {
    if a < b then b else a
  }

  function SatAdd(a: nat, b: nat): nat {
    Min(a + b, U64_MAX)
  }

  // ---------------------------------------------------------------- parse

  /** Whether the bytes at `i` are enough to judge, and start no frame. */
  predicate NoStartAt(s: Spec, buf: seq<Byte>, i: nat) {
    i + s.candidateLen <= |buf| && !s.candidate(buf[i..])
  }

  /** Where the search for a frame start that begins at `i` stops. */
  function ScanEnd(s: Spec, buf: seq<Byte>, i: nat): (end: nat)
    requires s.Fits()
    requires i <= |buf|
    ensures i <= end <= |buf|
    ensures forall j :: i <= j < end ==> NoStartAt(s, buf, j)
    ensures end + s.candidateLen <= |buf| ==> s.candidate(buf[end..])
    decreases |buf| - i
  {
    if i + s.candidateLen > |buf| || s.candidate(buf[i..]) then i else ScanEnd(s, buf, i + 1)
  }

  /** Whether a complete, verified frame starts at `i`. */
  predicate CompleteAt(s: Spec, buf: seq<Byte>, i: nat)
    requires i <= |buf|
  {
    i + s.candidateLen <= |buf| && s.candidate(buf[i..]) &&
    var m := s.measure(buf[i..]);
    m.Total? && s.headerLen <= m.len <= s.maxFrame && i + m.len <= |buf| && s.verify(buf[i..i + m.len])
  }

  /** The first complete, verified frame at `i` or later. */
  function CompleteBeyond(s: Spec, buf: seq<Byte>, i: nat): (r: Option<nat>)
    requires s.Fits()
    requires i <= |buf|
    ensures r.Some? ==> i <= r.value < |buf| && CompleteAt(s, buf, r.value)
    ensures forall j :: i <= j <= |buf| && CompleteAt(s, buf, j) ==> r.Some? && r.value <= j
    decreases |buf| - i
  {
    if i + s.candidateLen > |buf| then None
    else if CompleteAt(s, buf, i) then Some(i)
    else CompleteBeyond(s, buf, i + 1)
  }

  /** A verdict that needs more bytes, unless a later frame is already whole. */
  function Await(s: Spec, buf: seq<Byte>, need: nat): Parsed
    requires s.Fits() && |buf| >= 1
  {
    var beyond := if s.scanPastIncomplete then CompleteBeyond(s, buf, 1) else None;
    if beyond.Some? then Desync(beyond.value, NoCandidate) else Incomplete(need)
  }

  /** What a buffer that begins with a frame start holds. */
  function Classify(s: Spec, buf: seq<Byte>): Parsed
    requires s.Fits() && |buf| >= s.candidateLen
  {
    match s.measure(buf)
    case Reject => Desync(1, BadHeader)
    case Unmeasurable => Desync(1, CannotMeasure)
    case More(need) =>
      if |buf| >= s.maxFrame then Desync(1, Unbounded) else Await(s, buf, Max(need, 1))
    case Total(total) =>
      if total > s.maxFrame then Desync(1, TooLarge)
      else if total < s.headerLen then Desync(1, BadHeader)
      else if |buf| < total then Await(s, buf, total - |buf|)
      else
        var frame := buf[..total];
        var (from, to) := s.body(frame);
        if from > to || to > total then Desync(1, BadHeader)
        else if s.verify(frame) then Complete(total, from, to, Verified)
        else if s.onCorrupt.Resync? then Desync(1, BadChecksum)
        else Complete(total, from, to, Corrupt)
  }

  /** `parse`: one verdict on the start of `buf`. */
  function Parse(s: Spec, buf: seq<Byte>): (p: Parsed)
    requires s.Fits()
    ensures p.Complete? ==> 1 <= p.consumed <= |buf| && p.bodyFrom <= p.bodyTo <= p.consumed
    ensures p.Desync? ==> 1 <= p.discard <= |buf|
    ensures p.Incomplete? ==> |buf| < s.maxFrame && p.need >= 1
  {
    var i := ScanEnd(s, buf, 0);
    if i > 0 then Desync(i, NoCandidate)
    else if s.candidateLen > |buf| then Incomplete(s.candidateLen - |buf|)
    else Classify(s, buf)
  }

  /** A stalled candidate is given up only for the first complete, verified frame beyond it, and the next verdict
      is that frame, unless its body lies outside it, which the scan does not look at. */
  lemma ScanLandsOnTheNextFrame(s: Spec, buf: seq<Byte>)
    requires s.Fits() && |buf| >= s.candidateLen && s.candidate(buf)
    requires Parse(s, buf).Desync? && Parse(s, buf).cause.NoCandidate?
    ensures s.scanPastIncomplete
    ensures var n := Parse(s, buf).discard;
      && CompleteAt(s, buf, n)
      && (forall j :: 1 <= j < n ==> !CompleteAt(s, buf, j))
      && var next, total := Parse(s, buf[n..]), s.measure(buf[n..]).len;
        var (from, to) := s.body(buf[n..][..total]);
        next == if from <= to <= total then Complete(total, from, to, Verified) else Desync(1, BadHeader)
  {
    assert buf[0..] == buf;
    assert !NoStartAt(s, buf, 0);
    var n := Parse(s, buf).discard;
    assert CompleteBeyond(s, buf, 1) == Some(n);
    var tail := buf[n..];
    var total := s.measure(tail).len;
    assert tail[0..] == tail && tail[..total] == buf[n..n + total];
    assert !NoStartAt(s, tail, 0);
  }

  /** Whether the bytes from `j` on are judged to begin with a whole, verified frame. */
  predicate VerifiedAt(s: Spec, buf: seq<Byte>, j: nat)
    requires s.Fits() && j <= |buf|
  {
    var p := Parse(s, buf[j..]);
    p.Complete? && p.integrity.Verified?
  }

  /** A spec that scans on waits only when no later bytes are a whole, verified frame; and whatever the spec, bytes
      discarded for holding no frame start hold no such frame. */
  lemma NoFrameIsPassedOver(s: Spec, buf: seq<Byte>)
    requires s.Fits()
    ensures s.scanPastIncomplete && Parse(s, buf).Incomplete? ==>
      forall j :: 1 <= j <= |buf| ==> !VerifiedAt(s, buf, j)
    ensures var p := Parse(s, buf);
      p.Desync? && p.cause.NoCandidate? ==> forall j :: 0 <= j < p.discard ==> !VerifiedAt(s, buf, j)
  {
    var p := Parse(s, buf);
    assert buf[0..] == buf;
    forall j | 1 <= j <= |buf| && VerifiedAt(s, buf, j)
      ensures CompleteAt(s, buf, j) && !NoStartAt(s, buf, j)
    {
      VerifiedIsComplete(s, buf, j);
    }
  }

  lemma VerifiedIsComplete(s: Spec, buf: seq<Byte>, j: nat)
    requires s.Fits() && j <= |buf| && VerifiedAt(s, buf, j)
    ensures CompleteAt(s, buf, j) && !NoStartAt(s, buf, j)
  {
    var tail := buf[j..];
    assert tail[0..] == tail;
    assert !NoStartAt(s, tail, 0);
    var total := s.measure(tail).len;
    assert tail[..total] == buf[j..j + total];
  }

  method CompleteFrameBeyond(s: Spec, buf: seq<Byte>) returns (at: Option<nat>)
    requires s.Fits() && |buf| >= 1
    ensures at == CompleteBeyond(s, buf, 1)
  {
    var i := 1;
    while i + s.candidateLen <= |buf|
      invariant 1 <= i <= |buf|
      invariant CompleteBeyond(s, buf, 1) == CompleteBeyond(s, buf, i)
    {
      if s.candidate(buf[i..]) {
        var m := s.measure(buf[i..]);
        if m.Total? && s.headerLen <= m.len <= s.maxFrame && i + m.len <= |buf| && s.verify(buf[i..i + m.len]) {
          return Some(i);
        }
      }
      i := i + 1;
    }
    return None;
  }

  method ParseBuffer(s: Spec, buf: seq<Byte>) returns (p: Parsed)
    requires s.Fits()
    ensures p == Parse(s, buf)
  {
    var i := 0;
    var found := false;
    while i + s.candidateLen <= |buf| && !found
      invariant i <= |buf|
      invariant ScanEnd(s, buf, 0) == ScanEnd(s, buf, i)
      invariant found ==> i + s.candidateLen <= |buf| && s.candidate(buf[i..])
      decreases |buf| - i, !found
    {
      if s.candidate(buf[i..]) {
        found := true;
      } else {
        i := i + 1;
      }
    }
    if i > 0 {
      return Desync(i, NoCandidate);
    }
    if !found {
      return Incomplete(s.candidateLen - |buf|);
    }
    var m := s.measure(buf);
    var total := 0;
    match m {
      case Reject => return Desync(1, BadHeader);
      case Unmeasurable => return Desync(1, CannotMeasure);
      case More(need) =>
        if |buf| >= s.maxFrame {
          return Desync(1, Unbounded);
        }
        if s.scanPastIncomplete {
          var at := CompleteFrameBeyond(s, buf);
          if at.Some? {
            return Desync(at.value, NoCandidate);
          }
        }
        return Incomplete(Max(need, 1));
      case Total(len) => total := len;
    }
    if total > s.maxFrame {
      return Desync(1, TooLarge);
    }
    if total < s.headerLen {
      return Desync(1, BadHeader);
    }
    if |buf| < total {
      if s.scanPastIncomplete {
        var at := CompleteFrameBeyond(s, buf);
        if at.Some? {
          return Desync(at.value, NoCandidate);
        }
      }
      return Incomplete(total - |buf|);
    }
    var frame := buf[..total];
    var (from, to) := s.body(frame);
    if from > to || to > total {
      return Desync(1, BadHeader);
    }
    if s.verify(frame) {
      return Complete(total, from, to, Verified);
    }
    match s.onCorrupt {
      case Resync => return Desync(1, BadChecksum);
      case Consume => return Complete(total, from, to, Corrupt);
    }
  }
}
