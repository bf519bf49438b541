/** What a stamped checksum is a checksum of: the fields its declaration names, in order, without itself. */
module Sums {
  import opened Words
  import opened Access
  import opened Containers
  import opened Coverage
  import opened Records
  import opened Stamping
  import C = Checksum

  /** The first field a checksum's range names, if it is one. */
  function FirstField<S>(r: Record<S>, i: nat): Option<nat>
    requires i < |r.fields| && r.fields[i].stamp.Checksum?
  {
    match r.fields[i].stamp.over.from
    case Start => Some(0)
    case FromField(name) => r.Find(name, 0)
  }

  /** The field before which the range ends: the checksum, or the field named, which `..=` takes in. */
  function EndField<S>(r: Record<S>, i: nat): Option<nat>
    requires i < |r.fields| && r.fields[i].stamp.Checksum?
  {
    match r.fields[i].stamp.over.to
    case Here => Some(i)
    case Before(name) => r.Find(name, 0)
    case After(name) =>
      var j := r.Find(name, 0);
      if j.Some? then Some(j.value + 1) else None
  }

  function First<S>(r: Record<S>, i: nat): (p: nat)
    requires i < |r.fields| && r.fields[i].stamp.Checksum? && r.ResolveCheck(i).Ok?
    ensures p <= |r.fields|
  {
    FirstField(r, i).value
  }

  function End<S>(r: Record<S>, i: nat): (q: nat)
    requires i < |r.fields| && r.fields[i].stamp.Checksum? && r.ResolveCheck(i).Ok?
    ensures q <= |r.fields|
  {
    EndField(r, i).value
  }

  /** A range names no field that is not there, and not the checksum. */
  predicate NamesOthers<S>(r: Record<S>, i: nat)
    requires i < |r.fields| && r.fields[i].stamp.Checksum?
  {
    var own, over := r.fields[i].name, r.fields[i].stamp.over;
    && over.from != FromField(own) && (!over.to.Here? ==> over.to.name != own)
    && FirstField(r, i).Some? && EndField(r, i).Some?
  }

  /** The runs between two fields, without the checksum between them. */
  function RunsBetween<S>(r: Record<S>, i: nat, p: nat, q: nat): seq<(nat, nat)>
    requires i < |r.fields| && p <= |r.fields| && q <= |r.fields|
  {
    if r.At(p) <= r.At(i) < r.At(q) then [(r.At(p), r.At(i)), (r.At(i + 1), r.At(q))] else [(r.At(p), r.At(q))]
  }

  lemma ResolvedAs<S>(r: Record<S>, i: nat)
    requires r.Formed() && i < |r.fields| && r.fields[i].stamp.Checksum?
    ensures !NamesOthers(r, i) ==> r.ResolveCheck(i).Err?
    ensures NamesOthers(r, i) ==> var p, q := FirstField(r, i).value, EndField(r, i).value;
      && p <= |r.fields| && q <= |r.fields|
      && var runs := NonEmpty(RunsBetween(r, i, p, q));
         r.ResolveCheck(i) ==
           if r.At(q) < r.At(p) then Err(RunsBackwards(r.At(p), r.At(q)))
           else if runs == [] then Err(NoBytes)
           else Ok(runs)
  {
    hide Record.Find, Record.At, NonEmpty;
    ZeroAt(r);
  }

  /** A checksum's range resolves exactly when it names fields other than the checksum, and has one other in it. */
  lemma ResolvesExactly<S>(r: Record<S>, i: nat)
    requires r.Formed() && i < |r.fields| && r.fields[i].stamp.Checksum?
    ensures r.ResolveCheck(i).Ok? <==>
      NamesOthers(r, i) &&
      var p, q := FirstField(r, i).value, EndField(r, i).value;
      p < q && !(p == i && q == i + 1)
  {
    hide Record.ResolveCheck, Record.At, NonEmpty, FirstField, EndField;
    ResolvedAs(r, i);
    if NamesOthers(r, i) {
      var p, q := FirstField(r, i).value, EndField(r, i).value;
      AtOrder(r, p, q);
      AtOrder(r, q, p);
      AtOrder(r, p, i);
      AtOrder(r, i, p);
      AtOrder(r, q, i);
      AtOrder(r, i + 1, q);
      AtOrder(r, q, i + 1);
      SomeLeft((r.At(p), r.At(q)));
      BothLeft((r.At(p), r.At(i)), (r.At(i + 1), r.At(q)));
    }
  }

  lemma SomeLeft(a: (nat, nat))
    ensures NonEmpty([a]) == [] <==> a.0 >= a.1
  {
    assert NonEmpty([a]) == if a.0 < a.1 then [a] else [];
  }

  lemma BothLeft(a: (nat, nat), b: (nat, nat))
    ensures NonEmpty([a, b]) == [] <==> a.0 >= a.1 && b.0 >= b.1
  {
    assert [a, b][1..] == [b];
    assert NonEmpty([a, b]) == (if a.0 < a.1 then [a] else []) + NonEmpty([b]);
    SomeLeft(b);
  }

  /** The bytes of fields `p` up to `q`, one after another, without field `i`. */
  function Joined<S>(r: Record<S>, buf: seq<Byte>, i: nat, p: nat, q: nat): (bytes: seq<Byte>)
    requires r.Formed() && |buf| == r.Size() && q <= |r.fields|
  {
    if q <= p then []
    else Joined(r, buf, i, p, q - 1) + if q - 1 == i then [] else Bytes(r, buf, q - 1)
  }

  /** What a checksum covers. */
  function CoveredBytes<S>(r: Record<S>, buf: seq<Byte>, i: nat): seq<Byte>
    requires r.Accepted() && |buf| == r.Size() && i < |r.fields| && r.fields[i].stamp.Checksum?
  {
    Joined(r, buf, i, First(r, i), End(r, i))
  }

  lemma {:induction false} JoinedIsASlice<S>(r: Record<S>, buf: seq<Byte>, i: nat, p: nat, q: nat)
    requires r.Formed() && |buf| == r.Size() && p <= q <= |r.fields| && !(p <= i < q)
    ensures r.At(p) <= r.At(q) <= |buf| && Joined(r, buf, i, p, q) == buf[r.At(p)..r.At(q)]
    decreases q
  {
    AtGrows(r, p, q);
    AtGrows(r, q, |r.fields|);
    if p == q {
    } else {
      hide Bytes, Record.At;
      JoinedIsASlice(r, buf, i, p, q - 1);
      AtGrows(r, q - 1, q);
      OneFieldMore(r, buf, p, q);
    }
  }

  lemma {:induction false} JoinedSkips<S>(r: Record<S>, buf: seq<Byte>, i: nat, p: nat, q: nat)
    requires r.Formed() && |buf| == r.Size() && p <= i < q <= |r.fields|
    ensures Joined(r, buf, i, p, q) == Joined(r, buf, i, p, i) + Joined(r, buf, i, i + 1, q)
    decreases q
  {
    hide Bytes;
    if q - 1 == i {
    } else {
      JoinedSkips(r, buf, i, p, q - 1);
    }
  }

  predicate InBuffer(buf: seq<Byte>, runs: seq<(nat, nat)>) {
    forall run :: run in runs ==> run.0 <= run.1 <= |buf|
  }

  lemma FlatOne(buf: seq<Byte>, run: (nat, nat))
    requires run.0 <= run.1 <= |buf|
    ensures C.Flat(Stamping.Covered(buf, NonEmpty([run]))) == buf[run.0..run.1]
  {
    assert NonEmpty([run]) == if run.0 < run.1 then [run] else [];
    FlatOfOne(buf[run.0..run.1]);
    assert run.0 < run.1 ==> Stamping.Covered(buf, [run]) == [buf[run.0..run.1]];
  }

  lemma FlatOfOne(bytes: seq<Byte>)
    ensures C.Flat([bytes]) == bytes && C.Flat([]) == []
  {
    assert C.Flat([bytes]) == bytes + C.Flat([]);
  }

  lemma FlatTwo(buf: seq<Byte>, a: (nat, nat), b: (nat, nat))
    requires a.0 <= a.1 <= |buf| && b.0 <= b.1 <= |buf|
    ensures C.Flat(Stamping.Covered(buf, NonEmpty([a, b]))) == buf[a.0..a.1] + buf[b.0..b.1]
  {
    FlatOne(buf, b);
    assert [a, b][1..] == [b];
    var rest := NonEmpty([b]);
    if a.0 < a.1 {
      assert NonEmpty([a, b]) == [a] + rest;
      assert Stamping.Covered(buf, [a] + rest) == [buf[a.0..a.1]] + Stamping.Covered(buf, rest);
    } else {
      assert NonEmpty([a, b]) == rest;
    }
  }

  /** The runs of a resolved checksum carry exactly those bytes. */
  lemma RunsCarryTheFields<S>(r: Record<S>, buf: seq<Byte>, i: nat)
    requires r.Accepted() && |buf| == r.Size() && i < |r.fields| && r.fields[i].stamp.Checksum?
    ensures InBuffer(buf, r.Runs(i))
    ensures C.Flat(Stamping.Covered(buf, r.Runs(i))) == CoveredBytes(r, buf, i)
  {
    hide Record.Find, Record.At, NonEmpty, Bytes, Joined;
    RunsInside(r, i);
    var p, q := First(r, i), End(r, i);
    RunsFromTo(r, i);
    AtOrder(r, p, q);
    AtOrder(r, p, i);
    AtOrder(r, q, i);
    AtOrder(r, i, i + 1);
    if p <= i < q {
      AtOrder(r, i + 1, q);
      JoinedSkips(r, buf, i, p, q);
      JoinedIsASlice(r, buf, i, p, i);
      JoinedIsASlice(r, buf, i, i + 1, q);
      FlatTwo(buf, (r.At(p), r.At(i)), (r.At(i + 1), r.At(q)));
    } else {
      JoinedIsASlice(r, buf, i, p, q);
      FlatOne(buf, (r.At(p), r.At(q)));
    }
  }

  /** Byte positions are in the order of their fields. */
  lemma AtOrder<S>(r: Record<S>, p: nat, q: nat)
    requires r.Formed() && p <= |r.fields| && q <= |r.fields|
    ensures r.At(p) <= r.At(q) <==> p <= q
  {
    if p <= q {
      AtGrows(r, p, q);
    } else {
      AtGrows(r, q, p);
    }
  }

  lemma RunsFromTo<S>(r: Record<S>, i: nat)
    requires r.Accepted() && i < |r.fields| && r.fields[i].stamp.Checksum?
    ensures var p, q := First(r, i), End(r, i);
      r.At(p) <= r.At(q) && r.Runs(i) == NonEmpty(RunsBetween(r, i, p, q))
  {
    hide Record.ResolveCheck, Record.At, NonEmpty, Record.Reaches, FirstField, EndField;
    ResolvedAs(r, i);
  }

  /** A lawful checksum is its algorithm's value over the covered fields' bytes in one piece. */
  lemma SumIsOfTheFields<S(!new)>(r: Record<S>, buf: seq<Byte>, i: nat)
    requires r.Accepted() && |buf| == r.Size() && i < |r.fields| && r.fields[i].stamp.Checksum?
    ensures Lawful(r.fields[i].stamp.algorithm) ==>
      Sum(r, buf, i) == Resize(r.fields[i].stamp.algorithm.Compute(CoveredBytes(r, buf, i)), 8 * r.fields[i].width)
  {
    hide Lawful, Resize, CoveredBytes, Record.ResolveCheck, Record.At, Algorithm.FoldOver, Algorithm.Compute;
    RunsInside(r, i);
    RunsCarryTheFields(r, buf, i);
    if Lawful(r.fields[i].stamp.algorithm) {
      FoldOverIsCompute(r.fields[i].stamp.algorithm, Stamping.Covered(buf, r.Runs(i)));
    }
  }

  /** So after a seal a CRC field holds the CRC of the fields it names, cut to its width. */
  lemma SealedCrcIsOfTheFields(r: Record<Bits>, buf: seq<Byte>, i: nat, c: C.Crc)
    requires r.Accepted() && |buf| == r.Size() && i < |r.fields| && r.fields[i].stamp.Checksum?
    requires c.Ok() && r.fields[i].stamp.algorithm == CrcAlgorithm(c)
    ensures var sealed := Sealed(r, buf);
      Whole(Bytes(r, sealed, i), r.endian) == Resize(c.Compute(CoveredBytes(r, sealed, i)), 8 * r.fields[i].width)
  {
    hide CrcAlgorithm, Lawful, Resize, CoveredBytes, Sealed, Record.Accepted, Record.At, Whole, WireBytes, Sum, Bytes;
    var sealed := Sealed(r, buf);
    CrcsAreLawful(c);
    SumIsOfTheFields(r, sealed, i);
    SealedHolds(r, buf, i);
    WireBytesLoad(Sum(r, sealed, i), r.endian);
  }

  /** A resolved checksum's runs hold a field whole exactly when its range takes the field in. */
  lemma ReachesMeans<S>(r: Record<S>, i: nat, j: nat)
    requires r.Formed() && i < |r.fields| && r.fields[i].stamp.Checksum? && r.ResolveCheck(i).Ok? && j < |r.fields|
    ensures r.Reaches(i, j) <==> First(r, i) <= j < End(r, i) && j != i
  {
    hide Record.ResolveCheck, Record.At, NonEmpty, FirstField, EndField;
    ResolvedAs(r, i);
    var p, q := First(r, i), End(r, i);
    AtOrder(r, p, i);
    AtOrder(r, q, i);
    AtOrder(r, p, j);
    AtOrder(r, j + 1, q);
    AtOrder(r, j + 1, i);
    AtOrder(r, i + 1, j);
    AtOrder(r, j + 1, j);
    HoldsWhole(RunsBetween(r, i, p, q), r.At(j), r.At(j + 1));
  }

  lemma HoldsWhole(runs: seq<(nat, nat)>, from: nat, to: nat)
    requires from < to
    ensures (exists run :: run in NonEmpty(runs) && run.0 <= from && to <= run.1) <==>
      exists k :: 0 <= k < |runs| && runs[k].0 <= from && to <= runs[k].1
  {
    if k :| 0 <= k < |runs| && runs[k].0 <= from && to <= runs[k].1 {
      assert runs[k] in NonEmpty(runs);
    }
    if run :| run in NonEmpty(runs) && run.0 <= from && to <= run.1 {
      assert run in runs;
    }
  }

  /** A record is accepted exactly when every checksum's range resolves and takes in no later checksum. */
  lemma AcceptsExactly<S>(r: Record<S>)
    requires r.Formed()
    ensures r.Accepted() <==>
      forall i :: 0 <= i < |r.fields| && r.fields[i].stamp.Checksum? ==>
        && r.ResolveCheck(i).Ok?
        && forall j :: First(r, i) <= j < End(r, i) && r.fields[j].stamp.Checksum? ==> j <= i
  {
    hide Record.ResolveCheck, Record.Reaches, Record.Formed, FirstField, EndField;
    forall i, j | 0 <= i < |r.fields| && r.fields[i].stamp.Checksum? && r.ResolveCheck(i).Ok? && 0 <= j < |r.fields|
      ensures r.Reaches(i, j) <==> First(r, i) <= j < End(r, i) && j != i
    {
      ReachesMeans(r, i, j);
    }
  }
}
