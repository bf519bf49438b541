/** The forms generated code takes for a `bits = N` layout: a register, a `u128` container, or byte windows. Each
    computes what Emit says `encode` and `decode` mean. */
module Compiled {
  import opened Words
  import opened Access
  import opened Containers
  import opened Emit

  /** The whole wire as one window into a register. */
  function RegisterWindow(n: nat): (w: Window)
    requires 1 <= n <= 16
  {
    Window(0, n, NextPowerOfTwo(n), 0, 8 * n, None)
  }

  /** `range_guards` and `range_checks`: the first field outside its range. */
  method CheckRanges<V>(p: Plan<V>, values: seq<Value<V>>) returns (outside: Option<nat>)
    requires p.Ok() && p.Typed(values)
    ensures outside == FirstOutside(p, values, 0)
  {
    hide Ranged;
    for i := 0 to |p.fields|
      invariant FirstOutside(p, values, 0) == FirstOutside(p, values, i)
    {
      if !Ranged(p.fields[i], values[i]) {
        return Some(i);
      }
    }
    return None;
  }

  method CheckValues<V>(p: Plan<V>, values: seq<Value<V>>) returns (r: Result<seq<Value<V>>, DecodeError>)
    requires p.Ok() && p.Typed(values)
    ensures r == Checked(p, values)
  {
    var outside := CheckRanges(p, values);
    if outside.Some? {
      return Err(OutOfRange(outside.value, Carried(p.fields[outside.value], values[outside.value])));
    }
    return Ok(values);
  }

  // ---------------------------------------------------------------- the register form, up to 64 bits

  method EncodeRegister<V>(p: Plan<V>, values: seq<Value<V>>) returns (r: Result<seq<Byte>, Panic>)
    requires p.Ok() && p.Typed(values) && p.bytes <= 8
    ensures r == Encoded(p, values)
  {
    hide Ranged, Composed, Fitting, EncodeRaw, Base, WireBytes, WindowOf, Or, And, Shl, Resize, LowMask;
    var outside := CheckRanges(p, values);
    if outside.Some? {
      return Err(Outside(outside.value));
    }
    var size := 8 * NextPowerOfTwo(p.bytes);
    var bits := Zeros(size);
    if p.prefixValue.Some? {
      bits := Or(bits, Shl(Resize(p.prefixValue.value, size), p.prefixAt));
    }
    PrefixOred(p, size);
    for i := 0 to |p.fields|
      invariant bits == Resize(Composed(p, values, Base(p), i), size)
      invariant FirstStopped(p, values, 0) == FirstStopped(p, values, i)
    {
      var f := p.fields[i];
      if !p.truncate && !Fitting(f, values[i]) {
        return Err(TooWide(i));
      }
      var raw := EncodeRaw(f, values[i], size);
      var value := if f.width < size then And(raw, LowMask(f.width, size)) else raw;
      FieldOred(p, values, i, size);
      bits := Or(bits, if f.start == 0 then value else Shl(value, f.start));
    }
    RegisterBytes(Composed(p, values, Base(p), |p.fields|), p.bytes, p.endian);
    return Ok(WindowOf(RegisterWindow(p.bytes), bits, p.endian));
  }

  lemma PrefixOred<V>(p: Plan<V>, size: nat)
    requires p.Ok() && 8 * p.bytes <= size
    ensures Resize(Base(p), size) ==
      if p.prefixValue.Some? then Or(Zeros(size), Shl(Resize(p.prefixValue.value, size), p.prefixAt)) else Zeros(size)
    ensures forall values: seq<Value<V>> :: p.Typed(values) ==> Composed(p, values, Base(p), 0) == Base(p)
  {
  }

  /** Or-ing a masked field into a register that has nothing there yet puts it in its place. */
  lemma FieldOred<V>(p: Plan<V>, values: seq<Value<V>>, i: nat, size: nat)
    requires p.Ok() && p.Typed(values) && i < |p.fields| && 8 * p.bytes <= size
    ensures var f, raw := p.fields[i], EncodeRaw(p.fields[i], values[i], size);
      var value := if f.width < size then And(raw, LowMask(f.width, size)) else raw;
      Or(Resize(Composed(p, values, Base(p), i), size), if f.start == 0 then value else Shl(value, f.start))
      == Resize(Composed(p, values, Base(p), i + 1), size)
  {
    hide EncodeRaw, Base, FieldOf, Or, Resize, Shl, And, LowMask, Replaced;
    var f := p.fields[i];
    NothingThereYet(p, values, i);
    RawHoldsTheField(f, values[i], size);
    OrPutsIt(Composed(p, values, Base(p), i), f.start, f.width, EncodeRaw(f, values[i], size), size);
  }

  lemma OrPutsIt(c: Bits, at: nat, width: nat, raw: Bits, size: nat)
    requires |c| <= |raw| == size && at + width <= |c|
    requires forall bit :: at <= bit < at + width ==> !c[bit]
    ensures var value := if width < size then And(raw, LowMask(width, size)) else raw;
      Or(Resize(c, size), if at == 0 then value else Shl(value, at)) == Resize(Replaced(c, at, raw[..width]), size)
  {
  }

  /** The register's bytes that are sent are the container's. */
  lemma RegisterBytes(c: Bits, n: nat, endian: Endian)
    requires 1 <= n <= 16 && |c| == 8 * n
    ensures WindowOf(RegisterWindow(n), Resize(c, 8 * NextPowerOfTwo(n)), endian) == WireBytes(c, endian)
  {
    var w, register := RegisterWindow(n), Resize(c, 8 * NextPowerOfTwo(n));
    WindowOfIsLow(w, register, endian);
    assert register == c + Zeros(|register| - |c|);
    LowBytes(c, register);
    hide LeBytes;
    ReverseTwice(WindowOf(w, register, endian));
    ReverseTwice(LeBytes(c));
  }

  lemma LowBytes(c: Bits, register: Bits)
    requires |c| % 8 == 0 && |register| % 8 == 0 && |c| <= |register| && register[..|c|] == c
    ensures LeBytes(register)[..|c| / 8] == LeBytes(c)
  {
    forall i | 0 <= i < |c| / 8 ensures LeBytes(register)[i] == LeBytes(c)[i] {
      assert register[8 * i..8 * i + 8] == register[..|c|][8 * i..8 * i + 8];
    }
  }

  /** The load of `Access::Register`. */
  function FromRegister(raw: Bits, start: nat, width: nat): (r: Bits)
    ensures |r| == |raw|
  {
    var read := if start != 0 then Shr(raw, start) else raw;
    if start + width < |raw| then And(read, LowMask(width, |raw|)) else read
  }

  lemma FromRegisterIsSlice(c: Bits, start: nat, width: nat, size: nat)
    requires start + width <= |c| <= size
    ensures FromRegister(Resize(c, size), start, width) == Resize(c[start..start + width], size)
  {
  }

  /** `prefix_check`, from bits that are shifted down. */
  function PrefixOf(shifted: Bits, prefix: nat): (got: U64) {
    And(Resize(shifted, 64), PrefixMask(prefix))
  }

  /** The bits above the prefix are masked off. */
  lemma PrefixOfGets<V>(p: Plan<V>, c: Bits, shifted: Bits)
    requires p.Ok() && |c| == 8 * p.bytes && p.prefix <= |shifted|
    requires forall i :: 0 <= i < p.prefix ==> shifted[i] == PrefixBits(p, c)[i]
    ensures PrefixOf(shifted, p.prefix) == Got(p, c)
  {
    hide PrefixBits;
  }

  method DecodeRegister<V>(p: Plan<V>, wire: seq<Byte>) returns (r: Result<seq<Value<V>>, DecodeError>)
    requires p.Ok() && |wire| == p.bytes <= 8
    ensures r == Decoded(p, wire)
  {
    hide WindowBytes, Whole, Resize, Shr, PrefixOf, Got, Checked, Meanings, RegisterValues;
    var raw := WindowBytes(RegisterWindow(p.bytes), wire, p.endian);
    RegisterLoads(wire, p.endian);
    if p.prefixValue.Some? {
      var got := PrefixOf(Shr(raw, p.prefixAt), p.prefix);
      ShiftedPrefix(p, Whole(wire, p.endian), |raw|);
      if got != Expected(p) {
        return Err(Prefix(Expected(p), got));
      }
    }
    RegisterValuesMean(p, Whole(wire, p.endian), |raw|);
    r := CheckValues(p, RegisterValues(p, raw));
  }

  function RegisterValues<V>(p: Plan<V>, raw: Bits): (values: seq<Value<V>>)
    requires p.Ok() && 8 * p.bytes <= |raw|
    ensures p.Typed(values)
  {
    seq(|p.fields|, i requires 0 <= i < |p.fields| =>
      DecodeValue(p.fields[i], FromRegister(raw, p.fields[i].start, p.fields[i].width)))
  }

  lemma RegisterValuesMean<V>(p: Plan<V>, c: Bits, size: nat)
    requires p.Ok() && |c| == 8 * p.bytes <= size
    ensures RegisterValues(p, Resize(c, size)) == Meanings(p, c)
  {
    hide Meaning, DecodeValue, FromRegister, Resize;
    forall i | 0 <= i < |p.fields|
      ensures DecodeValue(p.fields[i], FromRegister(Resize(c, size), p.fields[i].start, p.fields[i].width))
           == Meaning(p.fields[i], p.Slice(c, i))
    {
      FromRegisterIsSlice(c, p.fields[i].start, p.fields[i].width, size);
      DecodeValueMeans(p.fields[i], p.Slice(c, i), size);
    }
  }

  /** The prefix read from a loaded container. */
  lemma ShiftedPrefix<V>(p: Plan<V>, c: Bits, size: nat)
    requires p.Ok() && |c| == 8 * p.bytes <= size
    ensures PrefixOf(Shr(Resize(c, size), p.prefixAt), p.prefix) == Got(p, c)
  {
    PrefixOfGets(p, c, Shr(Resize(c, size), p.prefixAt));
  }

  lemma RegisterLoads(wire: seq<Byte>, endian: Endian)
    requires 1 <= |wire| <= 16
    ensures WindowBytes(RegisterWindow(|wire|), wire, endian)
         == Resize(Whole(wire, endian), 8 * NextPowerOfTwo(|wire|))
  {
    hide WindowBytes, Whole;
    WindowBytesAreTheContainers(RegisterWindow(|wire|), wire, endian, 0);
  }

  // ---------------------------------------------------------------- the container form, up to 128 bits

  /** The width of the word a field passes through: `u64`, or `u128` for a `u128` field. */
  function Passing<V>(f: Field<V>): nat {
    if f.Wide() then 128 else 64
  }

  method EncodeContainer<V>(p: Plan<V>, values: seq<Value<V>>) returns (r: Result<seq<Byte>, Panic>)
    requires p.Ok() && p.Typed(values) && p.bytes <= 16
    ensures r == Encoded(p, values)
  {
    hide Ranged, Composed, Fitting, EncodeRaw, Base, WireBytes, InsertWide;
    var outside := CheckRanges(p, values);
    if outside.Some? {
      return Err(Outside(outside.value));
    }
    var bits: U128 := Zeros(128);
    if p.prefixValue.Some? {
      bits := Or(bits, Shl(Resize(p.prefixValue.value, 128), p.prefixAt));
    }
    PrefixOred(p, 128);
    for i := 0 to |p.fields|
      invariant bits == Resize(Composed(p, values, Base(p), i), 128)
      invariant FirstStopped(p, values, 0) == FirstStopped(p, values, i)
    {
      var f := p.fields[i];
      if !p.truncate && !Fitting(f, values[i]) {
        return Err(TooWide(i));
      }
      var raw := EncodeRaw(f, values[i], Passing(f));
      FieldInserted(p, values, i);
      bits := InsertWide(f.start, f.width, bits, Resize(raw, 128));
    }
    ghost var c := Composed(p, values, Base(p), |p.fields|);
    var word := new BitWord.Zeroed(p.bytes);
    word.SetRaw(bits);
    MaskedIsWhole(c);
    var bytes := word.ToWire(p.endian);
    LoadedWireBytes(bytes, p.endian);
    return Ok(bytes);
  }

  lemma MaskedIsWhole(c: Bits)
    requires |c| <= 128
    ensures And(Resize(c, 128), LowMask(|c|, 128))[..|c|] == c
  {
    forall i | 0 <= i < |c| ensures And(Resize(c, 128), LowMask(|c|, 128))[i] == c[i] {
    }
  }

  lemma SliceOfResized(c: Bits, from: nat, to: nat, size: nat)
    requires from <= to <= |c| <= 128 && to - from <= size
    ensures Resize(c, 128)[from..to] == c[from..to]
    ensures Resize(Resize(c[from..to], 128), size) == Resize(c[from..to], size)
  {
    forall i | 0 <= i < to - from ensures Resize(c, 128)[from..to][i] == c[from..to][i] {
    }
  }

  lemma FieldInserted<V>(p: Plan<V>, values: seq<Value<V>>, i: nat)
    requires p.Ok() && p.Typed(values) && i < |p.fields| && p.bytes <= 16
    ensures var f := p.fields[i];
      InsertWide(f.start, f.width, Resize(Composed(p, values, Base(p), i), 128),
                 Resize(EncodeRaw(f, values[i], Passing(f)), 128))
      == Resize(Composed(p, values, Base(p), i + 1), 128)
  {
    hide EncodeRaw, Base, FieldOf, InsertWide;
    var f := p.fields[i];
    assert p.Inside(f);
    var c, raw := Composed(p, values, Base(p), i), EncodeRaw(f, values[i], Passing(f));
    RawHoldsTheField(f, values[i], Passing(f));
    assert Resize(raw, 128)[..f.width] == raw[..f.width];
    InsertIsReplaced(f.start, f.width, Resize(c, 128), Resize(raw, 128));
    ReplacedResized(c, f.start, raw[..f.width], 128);
  }

  lemma ReplacedResized(c: Bits, at: nat, field: Bits, size: nat)
    requires at + |field| <= |c| <= size
    ensures Replaced(Resize(c, size), at, field) == Resize(Replaced(c, at, field), size)
  {
  }

  method DecodeContainer<V>(p: Plan<V>, wire: seq<Byte>) returns (r: Result<seq<Value<V>>, DecodeError>)
    requires p.Ok() && |wire| == p.bytes <= 16
    ensures r == Decoded(p, wire)
  {
    hide Whole, Resize, Shr, PrefixOf, Got, Checked, Meanings, ContainerValues;
    var word := new BitWord.FromWire(wire, p.endian);
    var raw := word.bits;
    if p.prefixValue.Some? {
      var got := PrefixOf(Shr(raw, p.prefixAt), p.prefix);
      ShiftedPrefix(p, Whole(wire, p.endian), 128);
      if got != Expected(p) {
        return Err(Prefix(Expected(p), got));
      }
    }
    ContainerValuesMean(p, Whole(wire, p.endian));
    r := CheckValues(p, ContainerValues(p, raw));
  }

  function ContainerValues<V>(p: Plan<V>, raw: U128): (values: seq<Value<V>>)
    requires p.Ok() && p.bytes <= 16
    ensures p.Typed(values)
  {
    seq(|p.fields|, i requires 0 <= i < |p.fields| =>
      DecodeValue(p.fields[i], Resize(ExtractWide(p.fields[i].start, p.fields[i].width, raw), Passing(p.fields[i]))))
  }

  lemma ContainerValuesMean<V>(p: Plan<V>, c: Bits)
    requires p.Ok() && |c| == 8 * p.bytes <= 128
    ensures ContainerValues(p, Resize(c, 128)) == Meanings(p, c)
  {
    hide Meaning, DecodeValue, ExtractWide, Resize;
    forall i | 0 <= i < |p.fields|
      ensures DecodeValue(
                p.fields[i],
                Resize(ExtractWide(p.fields[i].start, p.fields[i].width, Resize(c, 128)), Passing(p.fields[i])))
           == Meaning(p.fields[i], p.Slice(c, i))
    {
      var f := p.fields[i];
      assert p.Inside(f);
      ExtractIsSlice(f.start, f.width, Resize(c, 128));
      SliceOfResized(c, f.start, f.End(), Passing(f));
      DecodeValueMeans(f, p.Slice(c, i), Passing(f));
    }
  }

  // ---------------------------------------------------------------- the window form, of any size

  function FieldWindow<V>(p: Plan<V>, f: Field<V>): (w: Window)
    requires p.Ok() && f in p.fields
  {
    assert f.Ok() && p.Inside(f);
    MakeWindow(p.bytes, p.endian, f.start, f.width, f.Wide())
  }

  /** `prefix_window`. */
  function PrefixWindow<V>(p: Plan<V>): (w: Window)
    requires p.Ok() && p.prefixValue.Some?
  {
    MakeWindow(p.bytes, p.endian, p.prefixAt, p.prefix, false)
  }

  method EncodeWindows<V>(p: Plan<V>, values: seq<Value<V>>) returns (r: Result<seq<Byte>, Panic>)
    requires p.Ok() && p.Typed(values)
    ensures r == Encoded(p, values)
  {
    hide Ranged, Composed, Fitting, EncodeRaw, Whole, WireBytes, Store, MakeWindow, Replaced;
    var outside := CheckRanges(p, values);
    if outside.Some? {
      return Err(Outside(outside.value));
    }
    var out := new Byte[p.bytes](_ => Zeros(8));
    ghost var zeros := Zeros(8 * p.bytes);
    ZeroedWhole(out[..], p.endian);
    ComposedNothing(p, values, zeros);
    for i := 0 to |p.fields|
      invariant Whole(out[..], p.endian) == Composed(p, values, zeros, i)
      invariant FirstStopped(p, values, 0) == FirstStopped(p, values, i)
    {
      var f := p.fields[i];
      if !p.truncate && !Fitting(f, values[i]) {
        return Err(TooWide(i));
      }
      var w := FieldWindow(p, f);
      FieldStored(p, values, zeros, i, out[..]);
      StoreInPlace(w, out, p.endian, EncodeRaw(f, values[i], 8 * w.reg));
    }
    if p.prefixValue.Some? {
      var w := PrefixWindow(p);
      PrefixStored(p, values, out[..]);
      StoreInPlace(w, out, p.endian, Resize(p.prefixValue.value, 8 * w.reg));
    }
    LoadedWireBytes(out[..], p.endian);
    return Ok(out[..]);
  }

  lemma ComposedNothing<V>(p: Plan<V>, values: seq<Value<V>>, c: Bits)
    requires p.Ok() && p.Typed(values) && |c| == 8 * p.bytes
    ensures Composed(p, values, c, 0) == c
  {
  }

  lemma ZeroedWhole(bytes: seq<Byte>, endian: Endian)
    requires forall i :: 0 <= i < |bytes| ==> bytes[i] == Zeros(8)
    ensures Whole(bytes, endian) == Zeros(8 * |bytes|)
  {
    assert bytes == ZeroBytes(|bytes|) && Reverse(bytes) == ZeroBytes(|bytes|);
    LeWordZeros(|bytes|);
  }

  /** Storing a value through its field's window puts it there. */
  lemma FieldIsSet<V>(p: Plan<V>, i: nat, value: Value<V>, wire: seq<Byte>)
    requires p.Ok() && i < |p.fields| && p.fields[i].Typed(value) && |wire| == p.bytes
    ensures var f, w := p.fields[i], FieldWindow(p, p.fields[i]);
      && f.Ok() && p.Inside(f) && Sound(w, |wire|)
      && Whole(Store(w, wire, p.endian, EncodeRaw(f, value, 8 * w.reg)), p.endian)
         == Replaced(Whole(wire, p.endian), f.start, FieldOf(f, value))
  {
    hide MakeWindow, EncodeRaw, FieldOf, Whole, Store, Replaced;
    var f := p.fields[i];
    assert f.Ok() && p.Inside(f);
    var w := FieldWindow(p, f);
    WindowsAreSound(p.bytes, p.endian, f.start, f.width, f.Wide());
    StoreSetsTheField(wire, p.endian, f.start, f.width, f.Wide(), EncodeRaw(f, value, 8 * w.reg));
    RawHoldsTheField(f, value, 8 * w.reg);
  }

  lemma FieldStored<V>(p: Plan<V>, values: seq<Value<V>>, c: Bits, i: nat, buf: seq<Byte>)
    requires p.Ok() && p.Typed(values) && i < |p.fields| && |buf| == p.bytes && |c| == 8 * p.bytes
    requires Whole(buf, p.endian) == Composed(p, values, c, i)
    ensures var f, w := p.fields[i], FieldWindow(p, p.fields[i]);
      && Sound(w, |buf|)
      && Whole(Store(w, buf, p.endian, EncodeRaw(f, values[i], 8 * w.reg)), p.endian) == Composed(p, values, c, i + 1)
  {
    hide MakeWindow, EncodeRaw, FieldOf, Whole, Store, Replaced, Sound;
    FieldIsSet(p, i, values[i], buf);
  }

  /** Storing the prefix's value through its window puts it there. */
  lemma PrefixIsSet<V>(p: Plan<V>, buf: seq<Byte>)
    requires p.Ok() && |buf| == p.bytes && p.prefixValue.Some?
    ensures var w := PrefixWindow(p);
      && Sound(w, |buf|)
      && Whole(Store(w, buf, p.endian, Resize(p.prefixValue.value, 8 * w.reg)), p.endian)
         == Replaced(Whole(buf, p.endian), p.prefixAt, p.prefixValue.value)
  {
    hide MakeWindow, Whole, Store, Replaced, Resize;
    var w, v := PrefixWindow(p), p.prefixValue.value;
    WindowsAreSound(p.bytes, p.endian, p.prefixAt, p.prefix, false);
    StoreSetsTheField(buf, p.endian, p.prefixAt, p.prefix, false, Resize(v, 8 * w.reg));
    LowOfResized(v, 8 * w.reg);
  }

  lemma LowOfResized(v: Bits, size: nat)
    requires |v| <= size
    ensures Resize(v, size)[..|v|] == v
  {
  }

  lemma PrefixStored<V>(p: Plan<V>, values: seq<Value<V>>, buf: seq<Byte>)
    requires p.Ok() && p.Typed(values) && |buf| == p.bytes && p.prefixValue.Some?
    requires Whole(buf, p.endian) == Composed(p, values, Zeros(8 * p.bytes), |p.fields|)
    ensures var w := PrefixWindow(p);
      && Sound(w, |buf|)
      && Whole(Store(w, buf, p.endian, Resize(p.prefixValue.value, 8 * w.reg)), p.endian)
         == Composed(p, values, Base(p), |p.fields|)
  {
    hide MakeWindow, Composed, Whole, Store, Replaced, Resize, Sound;
    PrefixIsSet(p, buf);
    PrefixLast(p, values, Zeros(8 * p.bytes), p.prefixValue.value, |p.fields|);
  }

  method DecodeWindows<V>(p: Plan<V>, wire: seq<Byte>) returns (r: Result<seq<Value<V>>, DecodeError>)
    requires p.Ok() && |wire| == p.bytes
    ensures r == Decoded(p, wire)
  {
    hide Whole, Resize, Shr, WindowBytes, PrefixOf, Got, Checked, Meanings, WindowValues, MakeWindow, Sound;
    if p.prefixValue.Some? {
      PrefixLoaded(p, wire);
      var w := PrefixWindow(p);
      var got := PrefixOf(Shr(WindowBytes(w, wire, p.endian), w.shift), p.prefix);
      if got != Expected(p) {
        return Err(Prefix(Expected(p), got));
      }
    }
    WindowValuesMean(p, wire);
    r := CheckValues(p, WindowValues(p, wire));
  }

  function WindowValues<V>(p: Plan<V>, wire: seq<Byte>): (values: seq<Value<V>>)
    requires p.Ok() && |wire| == p.bytes
    ensures p.Typed(values)
  {
    seq(|p.fields|, i requires 0 <= i < |p.fields| =>
      FieldIsSound(p, p.fields[i]);
      DecodeValue(p.fields[i], Load(FieldWindow(p, p.fields[i]), wire, p.endian)))
  }

  lemma FieldIsSound<V>(p: Plan<V>, f: Field<V>)
    requires p.Ok() && f in p.fields
    ensures f.Ok() && p.Inside(f) && Sound(FieldWindow(p, f), p.bytes)
  {
    hide MakeWindow, Sound;
    assert f.Ok() && p.Inside(f);
    WindowsAreSound(p.bytes, p.endian, f.start, f.width, f.Wide());
  }

  lemma WindowValuesMean<V>(p: Plan<V>, wire: seq<Byte>)
    requires p.Ok() && |wire| == p.bytes
    ensures WindowValues(p, wire) == Meanings(p, Whole(wire, p.endian))
  {
    hide Meaning, DecodeValue, Load, Whole, FieldWindow, Sound;
    forall i | 0 <= i < |p.fields|
      ensures Sound(FieldWindow(p, p.fields[i]), |wire|)
      ensures DecodeValue(p.fields[i], Load(FieldWindow(p, p.fields[i]), wire, p.endian))
           == Meaning(p.fields[i], p.Slice(Whole(wire, p.endian), i))
    {
      FieldLoaded(p, wire, i);
    }
  }

  lemma FieldLoaded<V>(p: Plan<V>, wire: seq<Byte>, i: nat)
    requires p.Ok() && |wire| == p.bytes && i < |p.fields|
    ensures Sound(FieldWindow(p, p.fields[i]), |wire|)
    ensures DecodeValue(p.fields[i], Load(FieldWindow(p, p.fields[i]), wire, p.endian))
         == Meaning(p.fields[i], p.Slice(Whole(wire, p.endian), i))
  {
    hide Whole, Meaning, DecodeValue, Ranged, MakeWindow, Load;
    var f := p.fields[i];
    assert f.Ok() && p.Inside(f);
    LoadIsTheField(wire, p.endian, f.start, f.width, f.Wide());
    DecodeValueMeans(f, p.Slice(Whole(wire, p.endian), i), 8 * FieldWindow(p, f).reg);
  }

  lemma PrefixLoaded<V>(p: Plan<V>, wire: seq<Byte>)
    requires p.Ok() && |wire| == p.bytes && p.prefixValue.Some?
    ensures var w := PrefixWindow(p);
      && Sound(w, |wire|)
      && PrefixOf(Shr(WindowBytes(w, wire, p.endian), w.shift), p.prefix) == Got(p, Whole(wire, p.endian))
  {
    hide Whole, MakeWindow, WindowBytes, PrefixOf;
    var w, c, c0 := PrefixWindow(p), Whole(wire, p.endian), p.prefixAt / 8;
    WindowsAreSound(p.bytes, p.endian, p.prefixAt, p.prefix, false);
    WindowBytesAreTheContainers(w, wire, p.endian, c0);
    var read := WindowBytes(w, wire, p.endian);
    forall i | 0 <= i < p.prefix ensures Shr(read, w.shift)[i] == PrefixBits(p, c)[i] {
      assert read[i + w.shift] == c[8 * c0..8 * (c0 + w.len)][i + w.shift];
    }
    PrefixOfGets(p, c, Shr(read, w.shift));
  }
}
