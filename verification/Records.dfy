/** Byte-mode records: magics, checksums, ranges and strict flags, and which covered ranges are accepted. */
module Records {
  import opened Words
  import opened Coverage
  import C = Checksum

  /** The `Checksum` trait. `finish` gives a word, of which the field keeps its own width. */
  datatype Algorithm<!S> = Algorithm(init: S, update: (S, seq<Byte>) -> S, finish: S -> Bits) {
    function Compute(bytes: seq<Byte>): Bits {
      finish(update(init, bytes))
    }

    function Fold(state: S, runs: seq<seq<Byte>>): S {
      if runs == [] then state else Fold(update(state, runs[0]), runs[1..])
    }

    /** `fold_over`: one run is computed at once, several are folded in wire order. */
    function FoldOver(runs: seq<seq<Byte>>): Bits {
      if |runs| == 1 then Compute(runs[0]) else finish(Fold(init, runs))
    }
  }

  /** An algorithm that folds a message in parts as it does at once. */
  ghost predicate Lawful<S(!new)>(a: Algorithm<S>) {
    && (forall s :: a.update(s, []) == s)
    && forall s, x, y :: a.update(a.update(s, x), y) == a.update(s, x + y)
  }

  lemma {:induction false} FoldIsOneUpdate<S(!new)>(a: Algorithm<S>, state: S, runs: seq<seq<Byte>>)
    requires Lawful(a)
    ensures a.Fold(state, runs) == a.update(state, C.Flat(runs))
    decreases |runs|
  {
    if runs == [] {
    } else {
      FoldIsOneUpdate(a, a.update(state, runs[0]), runs[1..]);
    }
  }

  /** Whatever the runs, a lawful algorithm's value over them is that of their bytes in one piece. */
  lemma FoldOverIsCompute<S(!new)>(a: Algorithm<S>, runs: seq<seq<Byte>>)
    requires Lawful(a)
    ensures a.FoldOver(runs) == a.Compute(C.Flat(runs))
  {
    FoldIsOneUpdate(a, a.init, runs);
    if |runs| == 1 {
      assert C.Flat(runs) == runs[0] + C.Flat(runs[1..]) == runs[0];
    }
  }

  /** A catalogue CRC. */
  function CrcAlgorithm(c: C.Crc): Algorithm<Bits>
    requires c.Ok()
  {
    Algorithm(
      c.init,
      (state: Bits, bytes: seq<Byte>) =>
        if c.Ok() && |state| == |c.poly| then C.Fold(c.poly, c.reflect, state, bytes) else state,
      (state: Bits) => if |state| == |c.xorout| then Xor(state, c.xorout) else state)
  }

  lemma CrcsAreLawful(c: C.Crc)
    requires c.Ok()
    ensures Lawful(CrcAlgorithm(c))
    ensures forall bytes :: CrcAlgorithm(c).Compute(bytes) == c.Compute(bytes)
  {
    forall s: Bits, x: seq<Byte>, y: seq<Byte> | |s| == |c.poly|
      ensures C.Fold(c.poly, c.reflect, C.Fold(c.poly, c.reflect, s, x), y) == C.Fold(c.poly, c.reflect, s, x + y)
    {
      C.FoldSplits(c.poly, c.reflect, s, x, y);
    }
  }

  /** `Sum16Neg`. */
  function Sum16Algorithm(be: bool): Algorithm<C.Sum16> {
    Algorithm(
      C.SUM16_INIT,
      (state: C.Sum16, bytes: seq<Byte>) => C.Sum16Bytes(be, state, bytes),
      (state: C.Sum16) => Of(C.Sum16Close(be, state), 16))
  }

  lemma SumsAreLawful(be: bool)
    ensures Lawful(Sum16Algorithm(be))
  {
    forall s: C.Sum16, x: seq<Byte>, y: seq<Byte>
      ensures C.Sum16Bytes(be, C.Sum16Bytes(be, s, x), y) == C.Sum16Bytes(be, s, x + y)
    {
      C.Sum16Splits(be, s, x, y);
    }
  }

  /** A message's words and its 16-bit check word add up to a multiple of 2^16. */
  lemma SumsToNothing(be: bool, bytes: seq<Byte>)
    ensures var sum := Sum16Algorithm(be).Compute(bytes);
      |sum| == 16 && (Nat(sum) + C.WordSum(be, bytes)) % 0x1_0000 == 0
  {
    var close := C.Sum16Close(be, C.Sum16Bytes(be, C.SUM16_INIT, bytes));
    C.BlockAndCheckSumToZero(be, bytes);
    CloseIsSmall(be, C.Sum16Bytes(be, C.SUM16_INIT, bytes));
    hide C.Sum16Close, C.Sum16Bytes, C.WordSum, Pow2, Nat, Of;
    SixteenBits();
    NatOf(close, 16);
    assert Sum16Algorithm(be).Compute(bytes) == Of(close, 16);
  }

  lemma CloseIsSmall(be: bool, st: C.Sum16)
    ensures C.Sum16Close(be, st) < 0x1_0000
  {
  }

  lemma SixteenBits()
    ensures Pow2(16) == 0x1_0000
  {
    assert Pow2(8) == 256;
    Pow2Adds(8, 8);
  }

  datatype Reading = Integer(signed: bool) | Flag | Plain

  datatype Stamp<!S> = Unstamped | Magic(bytes: seq<Byte>) | Checksum(algorithm: Algorithm<S>, over: Coverage)

  /** A field of `width` whole bytes. A flag is a strict `bool`; a plain field holds its bytes. */
  datatype Field<!S> = Field(name: string, width: nat, reading: Reading, range: Option<(int, int)>, stamp: Stamp<S>) {
    predicate Formed() {
      && width >= 1
      && (reading.Integer? ==> width in {1, 2, 4, 8})
      && (reading.Flag? ==> width == 1 && stamp.Unstamped?)
      && (range.Some? ==> reading.Integer?)
      && (stamp.Magic? ==> |stamp.bytes| == width)
      && (stamp.Checksum? ==> reading.Integer?)
    }
  }

  datatype RangeError = BeginsAtOwn | EndsAtOwn | NotAField(name: string) | RunsBackwards(from: nat, to: nat) | NoBytes

  /** Byte fields one after another, in declaration order. */
  datatype Record<!S> = Record(endian: Endian, fields: seq<Field<S>>) {
    predicate Formed() {
      && (forall i :: 0 <= i < |fields| ==> fields[i].Formed())
      && forall i, j :: 0 <= i < j < |fields| ==> fields[i].name != fields[j].name
    }

    /** The byte field `i` begins at. */
    function At(i: nat): nat
      requires i <= |fields|
    {
      if i == 0 then 0 else At(i - 1) + fields[i - 1].width
    }

    function Size(): nat {
      At(|fields|)
    }

    function Place(i: nat): (nat, nat)
      requires i < |fields|
    {
      (At(i), At(i + 1))
    }

    function Find(name: string, from: nat): (r: Option<nat>)
      requires from <= |fields|
      ensures r.Some? ==> from <= r.value < |fields| && fields[r.value].name == name
      decreases |fields| - from
    {
      if from == |fields| then None else if fields[from].name == name then Some(from) else Find(name, from + 1)
    }

    function PlaceOf(name: string): Option<(nat, nat)> {
      var i := Find(name, 0);
      if i.Some? then Some(Place(i.value)) else None
    }

    /** `resolve_check`: the runs of bytes a checksum covers. */
    function ResolveCheck(i: nat): (r: Result<seq<(nat, nat)>, RangeError>)
      requires i < |fields| && fields[i].stamp.Checksum?
    {
      var own, over := fields[i].name, fields[i].stamp.over;
      if over.from == FromField(own) then Err(BeginsAtOwn)
      else if !over.to.Here? && over.to.name == own then Err(EndsAtOwn)
      else if over.from.FromField? && PlaceOf(over.from.name).None? then Err(NotAField(over.from.name))
      else if !over.to.Here? && PlaceOf(over.to.name).None? then Err(NotAField(over.to.name))
      else
        var covered := over.Resolve(Place(i), n => PlaceOf(n)).value;
        if covered.to < covered.from then Err(RunsBackwards(covered.from, covered.to))
        else
          var runs := NonEmpty(covered.Runs());
          if runs == [] then Err(NoBytes) else Ok(runs)
    }

    /** Whether one of the checksum's runs holds all of field `j`. */
    predicate Reaches(i: nat, j: nat)
      requires i < |fields| && fields[i].stamp.Checksum? && ResolveCheck(i).Ok? && j < |fields|
    {
      exists r | r in ResolveCheck(i).value :: r.0 <= At(j) && At(j + 1) <= r.1
    }

    /** `resolve_assertions` accepts the record: every range resolves, and none covers a later checksum. */
    predicate Accepted() {
      && Formed()
      && forall i :: 0 <= i < |fields| && fields[i].stamp.Checksum? ==>
           ResolveCheck(i).Ok? && forall j :: i < j < |fields| && fields[j].stamp.Checksum? ==> !Reaches(i, j)
    }

    function Runs(i: nat): (runs: seq<(nat, nat)>)
      requires Accepted() && i < |fields| && fields[i].stamp.Checksum?
    {
      ResolveCheck(i).value
    }
  }

  function NonEmpty(runs: seq<(nat, nat)>): (r: seq<(nat, nat)>)
    ensures forall x :: x in r <==> x in runs && x.0 < x.1
  {
    if runs == [] then []
    else (if runs[0].0 < runs[0].1 then [runs[0]] else []) + NonEmpty(runs[1..])
  }

  // ---------------------------------------------------------------- fields of a buffer

  lemma {:induction false} AtGrows<S>(r: Record<S>, i: nat, j: nat)
    requires r.Formed() && i <= j <= |r.fields|
    ensures r.At(i) <= r.At(j)
    ensures i < j ==> r.At(i) < r.At(j)
    decreases j
  {
    if i == j {
    } else {
      assert r.fields[j - 1].Formed();
      AtGrows(r, i, j - 1);
    }
  }

  /** The bytes of field `i`. */
  function Bytes<S>(r: Record<S>, buf: seq<Byte>, i: nat): (bytes: seq<Byte>)
    requires r.Formed() && |buf| == r.Size() && i < |r.fields|
    ensures |bytes| == r.fields[i].width
  {
    AtGrows(r, i, i + 1);
    AtGrows(r, i + 1, |r.fields|);
    buf[r.At(i)..r.At(i + 1)]
  }

  /** `buf` with field `i` overwritten. */
  function PutField<S>(r: Record<S>, buf: seq<Byte>, i: nat, bytes: seq<Byte>): (after: seq<Byte>)
    requires r.Formed() && |buf| == r.Size() && i < |r.fields| && |bytes| == r.fields[i].width
    ensures |after| == |buf|
  {
    AtGrows(r, i + 1, |r.fields|);
    Replaced(buf, r.At(i), bytes)
  }

  lemma PutHolds<S>(r: Record<S>, buf: seq<Byte>, i: nat, bytes: seq<Byte>, j: nat)
    requires r.Formed() && |buf| == r.Size() && i < |r.fields| && |bytes| == r.fields[i].width && j < |r.fields|
    ensures Bytes(r, PutField(r, buf, i, bytes), j) == if i == j then bytes else Bytes(r, buf, j)
  {
    hide Replaced, Record.Formed, Record.At;
    AtGrows(r, i + 1, |r.fields|);
    AtGrows(r, j, j + 1);
    AtGrows(r, j + 1, |r.fields|);
    NextAt(r, i);
    if i < j {
      AtGrows(r, i + 1, j);
    } else if j < i {
      AtGrows(r, j + 1, i);
    }
    PutSlices(buf, r.At(i), bytes, r.At(j), r.At(j + 1));
  }

  lemma NextAt<S>(r: Record<S>, i: nat)
    requires i < |r.fields|
    ensures r.At(i + 1) == r.At(i) + r.fields[i].width
  {
  }

  lemma PutSlices(buf: seq<Byte>, at: nat, bytes: seq<Byte>, from: nat, to: nat)
    requires at + |bytes| <= |buf| && from <= to <= |buf|
    ensures from == at && to == at + |bytes| ==> Replaced(buf, at, bytes)[from..to] == bytes
    ensures to <= at || at + |bytes| <= from ==> Replaced(buf, at, bytes)[from..to] == buf[from..to]
  {
  }

  /** Two buffers that agree on fields `p` up to `q` agree on the bytes those fill. */
  lemma {:induction false} SameBetween<S>(r: Record<S>, a: seq<Byte>, b: seq<Byte>, p: nat, q: nat)
    requires r.Formed() && |a| == |b| == r.Size() && p <= q <= |r.fields|
    requires forall i :: p <= i < q ==> Bytes(r, a, i) == Bytes(r, b, i)
    ensures r.At(p) <= r.At(q) <= |a| && a[r.At(p)..r.At(q)] == b[r.At(p)..r.At(q)]
    decreases q
  {
    AtGrows(r, p, q);
    AtGrows(r, q, |r.fields|);
    if p == q {
    } else {
      hide Bytes;
      SameBetween(r, a, b, p, q - 1);
      AtGrows(r, q - 1, q);
      OneFieldMore(r, a, p, q);
      OneFieldMore(r, b, p, q);
    }
  }

  lemma OneFieldMore<S>(r: Record<S>, a: seq<Byte>, p: nat, q: nat)
    requires r.Formed() && |a| == r.Size() && p < q <= |r.fields| && r.At(p) <= r.At(q - 1) <= r.At(q) <= |a|
    ensures a[r.At(p)..r.At(q)] == a[r.At(p)..r.At(q - 1)] + Bytes(r, a, q - 1)
  {
    hide Record.At;
  }

  lemma SameBuffers<S>(r: Record<S>, a: seq<Byte>, b: seq<Byte>)
    requires r.Formed() && |a| == |b| == r.Size()
    requires forall i :: 0 <= i < |r.fields| ==> Bytes(r, a, i) == Bytes(r, b, i)
    ensures a == b
  {
    SameBetween(r, a, b, 0, |r.fields|);
    assert a[0..|a|] == a && b[0..|b|] == b;
  }

  // ---------------------------------------------------------------- what a run covers

  /** The run begins where field `p` does and ends where field `q - 1` does. */
  predicate Spans<S>(r: Record<S>, run: (nat, nat), p: nat, q: nat) {
    p < q <= |r.fields| && run.0 == r.At(p) && run.1 == r.At(q)
  }

  lemma PlacesAreFields<S>(r: Record<S>, name: string) returns (i: nat)
    requires r.PlaceOf(name).Some?
    ensures i < |r.fields| && r.fields[i].name == name && r.PlaceOf(name).value == (r.At(i), r.At(i + 1))
  {
    i := r.Find(name, 0).value;
  }

  /** Every run of a resolved checksum is whole fields, and none of them is the checksum. */
  lemma RunsAreFields<S>(r: Record<S>, i: nat, run: (nat, nat)) returns (p: nat, q: nat)
    requires r.Formed() && i < |r.fields| && r.fields[i].stamp.Checksum? && r.ResolveCheck(i).Ok?
    requires run in r.ResolveCheck(i).value
    ensures Spans(r, run, p, q) && !(p <= i < q)
  {
    hide Record.Find, Record.PlaceOf, Record.At, NonEmpty;
    var over := r.fields[i].stamp.over;
    var from, to := 0, i;
    ZeroAt(r);
    if over.from.FromField? {
      from := PlacesAreFields(r, over.from.name);
    }
    if !over.to.Here? {
      to := PlacesAreFields(r, over.to.name);
      if over.to.After? {
        to := to + 1;
      }
    }
    var covered := over.Resolve(r.Place(i), n => r.PlaceOf(n)).value;
    assert covered == Covered(r.At(from), r.At(to), r.Place(i));
    assert run in covered.Runs() && run.0 < run.1;
    if covered.Excises() {
      if run == (covered.from, covered.own.0) {
        p, q := from, i;
      } else {
        p, q := i + 1, to;
      }
    } else {
      p, q := from, to;
    }
    InOrder(r, p, q);
    if p <= i < q {
      AtGrows(r, from, i);
      AtGrows(r, i, to);
    }
  }

  lemma ZeroAt<S>(r: Record<S>)
    ensures r.At(0) == 0
  {
  }

  lemma InOrder<S>(r: Record<S>, p: nat, q: nat)
    requires r.Formed() && p <= |r.fields| && q <= |r.fields| && r.At(p) < r.At(q)
    ensures p < q
  {
    if q <= p {
      AtGrows(r, q, p);
    }
  }

  /** In an accepted record no run of a checksum has a byte of that checksum or of a later one. */
  lemma RunsAvoidLaterChecksums<S>(r: Record<S>, i: nat, run: (nat, nat)) returns (p: nat, q: nat)
    requires r.Accepted() && i < |r.fields| && r.fields[i].stamp.Checksum? && run in r.Runs(i)
    ensures Spans(r, run, p, q)
    ensures forall j :: p <= j < q && r.fields[j].stamp.Checksum? ==> j < i
  {
    hide Record.ResolveCheck, Record.Find, Record.PlaceOf, Record.At, Record.Reaches;
    p, q := RunsAreFields(r, i, run);
    forall j | p <= j < q && r.fields[j].stamp.Checksum? ensures j < i {
      SpannedIsReached(r, i, run, p, q, j);
    }
  }

  lemma SpannedIsReached<S>(r: Record<S>, i: nat, run: (nat, nat), p: nat, q: nat, j: nat)
    requires r.Formed() && i < |r.fields| && r.fields[i].stamp.Checksum? && r.ResolveCheck(i).Ok?
    requires run in r.ResolveCheck(i).value && Spans(r, run, p, q) && p <= j < q
    ensures r.Reaches(i, j)
  {
    hide Record.ResolveCheck, Record.At;
    AtGrows(r, p, j);
    AtGrows(r, j + 1, q);
  }

  // ---------------------------------------------------------------- no later checksum

  /** Checksum `i` resolves, and its runs hold no checksum after it. */
  predicate Settled<S>(r: Record<S>, i: nat)
    requires i < |r.fields|
  {
    r.fields[i].stamp.Checksum? ==>
      r.ResolveCheck(i).Ok? && forall j :: i < j < |r.fields| && r.fields[j].stamp.Checksum? ==> !r.Reaches(i, j)
  }

  lemma SettledIsAccepted<S>(r: Record<S>)
    requires r.Formed() && forall i :: 0 <= i < |r.fields| ==> Settled(r, i)
    ensures r.Accepted()
  {
    hide Record.ResolveCheck, Record.Reaches, Record.Formed;
    forall i | 0 <= i < |r.fields| && r.fields[i].stamp.Checksum?
      ensures r.ResolveCheck(i).Ok?
      ensures forall j :: i < j < |r.fields| && r.fields[j].stamp.Checksum? ==> !r.Reaches(i, j)
    {
      assert Settled(r, i);
    }
  }

  /** Finds a checksum that covers one declared after it, when every range has resolved. */
  method FindLaterCovered<S>(r: Record<S>) returns (late: Option<(nat, nat)>)
    requires r.Formed()
    requires forall i :: 0 <= i < |r.fields| && r.fields[i].stamp.Checksum? ==> r.ResolveCheck(i).Ok?
    ensures late.None? <==> r.Accepted()
    ensures late.Some? ==> var (i, j) := late.value;
      && i < j < |r.fields| && r.fields[i].stamp.Checksum? && r.fields[j].stamp.Checksum?
      && r.ResolveCheck(i).Ok? && r.Reaches(i, j)
  {
    hide Record.ResolveCheck, Record.Reaches;
    var n := |r.fields|;
    for i := 0 to n
      invariant forall k :: 0 <= k < i ==> Settled(r, k)
    {
      for j := 0 to n
        invariant r.fields[i].stamp.Checksum? ==>
          forall k :: i < k < j && r.fields[k].stamp.Checksum? ==> !r.Reaches(i, k)
      {
        if r.fields[i].stamp.Checksum? && r.fields[j].stamp.Checksum? && j != i {
          if r.Reaches(i, j) && j > i {
            return Some((i, j));
          }
        }
      }
    }
    SettledIsAccepted(r);
    return None;
  }
}
