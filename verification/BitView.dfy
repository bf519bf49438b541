/** The view of a `bits = N` layout: its getters and setters are byte windows, and it seals and verifies the prefix. */
module BitView {
  import opened Words
  import opened Access
  import opened Containers
  import opened Emit
  import opened Compiled

  /** What a layout with a view may not have: a range. */
  predicate Viewable<V>(p: Plan<V>) {
    forall i :: 0 <= i < |p.fields| ==> p.fields[i].range.None?
  }

  /** The bytes after a seal: the prefix's value stored through its window. */
  function Sealed<V>(p: Plan<V>, wire: seq<Byte>): (sealed: seq<Byte>)
    requires p.Ok() && p.prefixValue.Some? && |wire| == p.bytes
    ensures |sealed| == p.bytes
  {
    var w := PrefixWindow(p);
    WindowsAreSound(p.bytes, p.endian, p.prefixAt, p.prefix, false);
    Store(w, wire, p.endian, Resize(p.prefixValue.value, 8 * w.reg))
  }

  /** What a view's `verify` finds. */
  function PrefixError<V>(p: Plan<V>, wire: seq<Byte>): Option<DecodeError>
    requires p.Ok() && |wire| == p.bytes
  {
    var c := Whole(wire, p.endian);
    if PrefixPasses(p, c) then None else Some(Prefix(Expected(p), Got(p, c)))
  }

  /** A seal replaces the prefix's bits of the container and no other. */
  lemma SealedIsReplaced<V>(p: Plan<V>, wire: seq<Byte>)
    requires p.Ok() && p.prefixValue.Some? && |wire| == p.bytes
    ensures Whole(Sealed(p, wire), p.endian) == Replaced(Whole(wire, p.endian), p.prefixAt, p.prefixValue.value)
    ensures Sealed(p, wire) == RestoredBytes(p, wire)
  {
    hide MakeWindow, Whole, Store, Replaced, Resize, WireBytes, Sealed;
    SealedStores(p, wire);
    LoadedWireBytes(Sealed(p, wire), p.endian);
  }

  lemma SealedStores<V>(p: Plan<V>, wire: seq<Byte>)
    requires p.Ok() && p.prefixValue.Some? && |wire| == p.bytes
    ensures Whole(Sealed(p, wire), p.endian) == Replaced(Whole(wire, p.endian), p.prefixAt, p.prefixValue.value)
  {
    hide MakeWindow, Whole, Store, Replaced, Resize;
    PrefixIsSet(p, wire);
  }

  /** From any bytes, a seal makes `verify` succeed, if the prefix is readable, and leaves every field as it was. */
  lemma SealedVerifies<V>(p: Plan<V>, wire: seq<Byte>)
    requires p.Ok() && p.prefixValue.Some? && |wire| == p.bytes
    ensures PrefixError(p, Sealed(p, wire)).None? <==> Readable(p)
    ensures Meanings(p, Whole(Sealed(p, wire), p.endian)) == Meanings(p, Whole(wire, p.endian))
  {
    hide Whole, Replaced, Sealed, Meaning, Field.Ok, Readable, PrefixPasses;
    var c := Whole(wire, p.endian);
    SealedIsReplaced(p, wire);
    ReplacedSlice(c, p.prefixAt, p.prefixValue.value);
    PrefixPassesWhen(p, Whole(Sealed(p, wire), p.endian));
    forall i | 0 <= i < |p.fields| ensures p.Slice(Whole(Sealed(p, wire), p.endian), i) == p.Slice(c, i) {
      assert p.Inside(p.fields[i]);
      BesideReplaced(c, p.prefixAt, p.prefixValue.value, p.fields[i].start, p.fields[i].End());
    }
  }

  /** A seal leaves exactly the wires whose prefix it would write as they are: so sealing twice is sealing once. */
  lemma SealFixesExactlyTheWritten<V>(p: Plan<V>, wire: seq<Byte>)
    requires p.Ok() && p.prefixValue.Some? && |wire| == p.bytes
    ensures Sealed(p, wire) == wire <==> PrefixHolds(p, Whole(wire, p.endian))
    ensures Sealed(p, Sealed(p, wire)) == Sealed(p, wire)
  {
    hide Whole, Replaced, Sealed, RestoredBytes;
    SealedIsReplaced(p, wire);
    SealedIsReplaced(p, Sealed(p, wire));
    ReplacedSlice(Whole(wire, p.endian), p.prefixAt, p.prefixValue.value);
    RestoredIsTheWire(p, wire);
    RestoredIsTheWire(p, Sealed(p, wire));
  }

  ghost predicate SealFixesTheVerified<V>(p: Plan<V>)
    requires p.Ok() && p.prefixValue.Some?
  {
    forall wire: seq<Byte> | |wire| == p.bytes :: Sealed(p, wire) == wire <==> PrefixError(p, wire).None?
  }

  /** Those are the wires `verify` passes exactly when the prefix is below 64 bits. */
  lemma SealFixesExactlyTheVerified<V>(p: Plan<V>)
    requires p.Ok() && p.prefixValue.Some?
    ensures SealFixesTheVerified(p) <==> p.prefix < 64
  {
    hide Sealed, Whole, PrefixHolds, PrefixPasses, Readable;
    if p.prefix < 64 {
      forall wire: seq<Byte> | |wire| == p.bytes ensures Sealed(p, wire) == wire <==> PrefixError(p, wire).None? {
        SealFixesExactlyTheWritten(p, wire);
        PrefixPassesWhen(p, Whole(wire, p.endian));
      }
    } else {
      var wire := VerifiedOrWritten(p);
      SealFixesExactlyTheWritten(p, wire);
    }
  }

  /** With a wider prefix some wire is what a seal writes and does not verify, or verifies and is not. */
  lemma VerifiedOrWritten<V>(p: Plan<V>) returns (wire: seq<Byte>)
    requires p.Ok() && p.prefixValue.Some? && p.prefix >= 64
    ensures |wire| == p.bytes
    ensures PrefixHolds(p, Whole(wire, p.endian)) != PrefixPasses(p, Whole(wire, p.endian))
  {
    hide Sealed, Whole, PrefixPasses, Readable, WireBytes;
    var sealed, v := Sealed(p, ZeroBytes(p.bytes)), p.prefixValue.value;
    SealFixesExactlyTheWritten(p, ZeroBytes(p.bytes));
    SealFixesExactlyTheWritten(p, sealed);
    var c := Whole(sealed, p.endian);
    PrefixPassesWhen(p, c);
    wire := sealed;
    if Readable(p) {
      var other := c[p.prefixAt + 63 := !v[63]];
      wire := WireBytes(other, p.endian);
      WireBytesLoad(other, p.endian);
      PrefixPassesWhen(p, other);
      assert PrefixBits(p, other)[63] != v[63];
      assert PrefixBits(p, other)[..p.prefix % 64] == v[..p.prefix % 64];
    }
  }

  /** For a layout that may have a view, `verify` finds what `decode` on the owned type would. */
  lemma VerifyIsDecode<V>(p: Plan<V>, wire: seq<Byte>)
    requires p.Ok() && |wire| == p.bytes && Viewable(p)
    ensures Decoded(p, wire) ==
      if PrefixError(p, wire).Some? then Err(PrefixError(p, wire).value) else Ok(Meanings(p, Whole(wire, p.endian)))
  {
    hide Whole, Meaning;
  }

  // ---------------------------------------------------------------- a run of setters

  /** The bytes after one setter: a value cut to its field and stored through the field's window. */
  function SetField<V>(p: Plan<V>, wire: seq<Byte>, i: nat, value: Value<V>): (after: seq<Byte>)
    requires p.Ok() && |wire| == p.bytes && i < |p.fields| && p.fields[i].Typed(value)
    ensures |after| == p.bytes
  {
    FieldIsSet(p, i, value, wire);
    var w := FieldWindow(p, p.fields[i]);
    Store(w, wire, p.endian, EncodeRaw(p.fields[i], value, 8 * w.reg))
  }

  predicate Settable<V>(p: Plan<V>, sets: seq<(nat, Value<V>)>) {
    forall k :: 0 <= k < |sets| ==> sets[k].0 < |p.fields| && p.fields[sets[k].0].Typed(sets[k].1)
  }

  /** The bytes after calls of setters, the last of `sets` the latest. */
  function AfterSets<V>(p: Plan<V>, wire: seq<Byte>, sets: seq<(nat, Value<V>)>): (after: seq<Byte>)
    requires p.Ok() && |wire| == p.bytes && Settable(p, sets)
    ensures |after| == p.bytes
  {
    if sets == [] then wire
    else
      var n := |sets| - 1;
      SetField(p, AfterSets(p, wire, sets[..n]), sets[n].0, sets[n].1)
  }

  /** After any setters a field holds the value last set on it, or what it held. */
  lemma {:induction false} SetsHold<V>(p: Plan<V>, wire: seq<Byte>, sets: seq<(nat, Value<V>)>, i: nat)
    requires p.Ok() && |wire| == p.bytes && Settable(p, sets) && i < |p.fields|
    ensures LastWrite(sets, i).Some? ==> p.fields[i].Typed(LastWrite(sets, i).value)
    ensures p.Slice(Whole(AfterSets(p, wire, sets), p.endian), i) ==
      if LastWrite(sets, i).Some? then FieldOf(p.fields[i], LastWrite(sets, i).value)
      else p.Slice(Whole(wire, p.endian), i)
  {
    hide Whole, SetField, FieldOf, Field.Ok, Field.Typed, Plan.Apart;
    if sets == [] {
    } else {
      var n := |sets| - 1;
      var (j, value) := sets[n];
      SetsHold(p, wire, sets[..n], i);
      SetHolds(p, AfterSets(p, wire, sets[..n]), j, value, i);
    }
  }

  lemma SetHolds<V>(p: Plan<V>, wire: seq<Byte>, j: nat, value: Value<V>, i: nat)
    requires p.Ok() && |wire| == p.bytes && j < |p.fields| && p.fields[j].Typed(value) && i < |p.fields|
    ensures p.Slice(Whole(SetField(p, wire, j, value), p.endian), i) ==
      if i == j then FieldOf(p.fields[j], value) else p.Slice(Whole(wire, p.endian), i)
  {
    hide Whole, FieldOf, Field.Ok, Replaced, Store, FieldWindow, EncodeRaw;
    var f, c := p.fields[j], Whole(wire, p.endian);
    FieldIsSet(p, j, value, wire);
    assert p.Inside(p.fields[i]);
    if i == j {
      ReplacedSlice(c, f.start, FieldOf(f, value));
    } else {
      assert if i < j then Beside(p.fields[i], f) else Beside(f, p.fields[i]);
      BesideReplaced(c, f.start, FieldOf(f, value), p.fields[i].start, p.fields[i].End());
    }
  }

  /** The last write to each field is its value. */
  predicate Leaves<T(==)>(sets: seq<(nat, T)>, values: seq<T>) {
    forall i :: 0 <= i < |values| ==> LastWrite(sets, i) == Some(values[i])
  }

  /** Any setters, from any bytes, that leave each field of a covered layout at its value, and then a seal, give what
      encode writes. Without a prefix there is no seal, and the setters alone do. */
  lemma SettersAndSealAreEncode<V>(p: Plan<V>, values: seq<Value<V>>, wire: seq<Byte>, sets: seq<(nat, Value<V>)>)
    requires p.Ok() && p.Full() && p.Typed(values) && |wire| == p.bytes && Settable(p, sets) && Leaves(sets, values)
    ensures var edited := AfterSets(p, wire, sets);
      && (Encoded(p, values).Ok? ==> Encoded(p, values) == Ok(RestoredBytes(p, edited)))
      && (p.prefixValue.Some? ==> RestoredBytes(p, edited) == Sealed(p, edited))
      && (p.prefix == 0 ==> RestoredBytes(p, edited) == edited)
  {
    hide Whole, Sealed, WireBytes, Composed, FieldOf, Base, AfterSets, Plan.Slice, Plan.Full, Field.Ok;
    var edited := AfterSets(p, wire, sets);
    forall i | 0 <= i < |p.fields| ensures FieldOf(p.fields[i], values[i]) == p.Slice(Whole(edited, p.endian), i) {
      SetsHold(p, wire, sets, i);
    }
    SlicesMakeTheContainer(p, values, Whole(edited, p.endian));
    if p.prefixValue.Some? {
      SealedIsReplaced(p, edited);
    }
    RestoredIsTheWire(p, edited);
  }

  /** `<Name>View` of a `bits = N` layout. */
  class LayoutView<V> {
    const plan: Plan<V>
    const wire: array<Byte>

    ghost predicate Valid() {
      plan.Ok() && Viewable(plan) && wire.Length == plan.bytes
    }

    constructor (plan: Plan<V>, wire: array<Byte>)
      requires plan.Ok() && Viewable(plan) && wire.Length == plan.bytes
      ensures Valid() && this.plan == plan && this.wire == wire
    {
      this.plan := plan;
      this.wire := wire;
    }

    method Decode() returns (values: seq<Value<V>>)
      requires Valid()
      ensures values == Meanings(plan, Whole(wire[..], plan.endian))
    {
      WindowValuesMean(plan, wire[..]);
      values := WindowValues(plan, wire[..]);
    }

    /** Cuts a value to its field, stores it there, and touches nothing else. */
    method Set(i: nat, value: Value<V>)
      requires Valid() && i < |plan.fields| && plan.fields[i].Typed(value)
      modifies wire
      ensures plan.fields[i].Ok() && plan.Inside(plan.fields[i])
      ensures Whole(wire[..], plan.endian)
           == Replaced(Whole(old(wire[..]), plan.endian), plan.fields[i].start, FieldOf(plan.fields[i], value))
      ensures wire[..] == SetField(plan, old(wire[..]), i, value)
    {
      hide MakeWindow, EncodeRaw, FieldOf, Whole, Store, Replaced, Sound;
      FieldIsSet(plan, i, value, wire[..]);
      var w := FieldWindow(plan, plan.fields[i]);
      StoreInPlace(w, wire, plan.endian, EncodeRaw(plan.fields[i], value, 8 * w.reg));
    }

    /** Reads the prefix through its window, whatever the layout's size. */
    method Verify() returns (e: Option<DecodeError>)
      requires Valid()
      ensures e == PrefixError(plan, wire[..])
      ensures e.None? <==> Decoded(plan, wire[..]).Ok?
    {
      hide Whole, Resize, Shr, WindowBytes, PrefixOf, Got, Meanings, MakeWindow, Sound;
      VerifyIsDecode(plan, wire[..]);
      if plan.prefixValue.Some? {
        PrefixLoaded(plan, wire[..]);
        var w := PrefixWindow(plan);
        var got := PrefixOf(Shr(WindowBytes(w, wire[..], plan.endian), w.shift), plan.prefix);
        if got != Expected(plan) {
          return Some(Prefix(Expected(plan), got));
        }
      }
      return None;
    }

    /** Stores the prefix's value. Only a layout with one has this. */
    method Seal()
      requires Valid() && plan.prefixValue.Some?
      modifies wire
      ensures wire[..] == Sealed(plan, old(wire[..]))
      ensures PrefixError(plan, wire[..]).None? <==> Readable(plan)
      ensures Meanings(plan, Whole(wire[..], plan.endian)) == Meanings(plan, Whole(old(wire[..]), plan.endian))
    {
      hide MakeWindow, Whole, Store, Meanings, PrefixError, Sound;
      SealedVerifies(plan, wire[..]);
      WindowsAreSound(plan.bytes, plan.endian, plan.prefixAt, plan.prefix, false);
      var w := PrefixWindow(plan);
      StoreInPlace(w, wire, plan.endian, Resize(plan.prefixValue.value, 8 * w.reg));
    }
  }
}
