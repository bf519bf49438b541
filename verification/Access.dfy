/** Reading and writing one field of a wire too wide to load whole: a window of the bytes it touches. */
module Access {
  import opened Words

  /** The wire's bytes, the container's lowest first. */
  function InOrder(wire: seq<Byte>, endian: Endian): (bytes: seq<Byte>)
    ensures |bytes| == |wire|
  {
    if endian.Le? then wire else Reverse(wire)
  }

  /** The wire as one integer, in the layout's byte order. */
  function Whole(wire: seq<Byte>, endian: Endian): (c: Bits)
    ensures |c| == 8 * |wire|
  {
    if endian.Le? then LeWord(wire) else BeWord(wire)
  }

  lemma WholeIsInOrder(wire: seq<Byte>, endian: Endian)
    ensures Whole(wire, endian) == LeWord(InOrder(wire, endian))
  {
  }

  /** `Access::Window`. The mask is `width` ones; the tail is a 17th byte, and the field's bits in it. */
  datatype Window = Window(offset: nat, len: nat, reg: nat, shift: nat, width: nat, tail: Option<(nat, nat)>)

  function NextPowerOfTwo(n: nat): (p: nat)
    requires 1 <= n <= 16
    ensures p in {1, 2, 4, 8, 16} && n <= p < 2 * n
  {
    if n == 1 then 1 else if n == 2 then 2 else if n <= 4 then 4 else if n <= 8 then 8 else 16
  }

  /** The first byte of the container a field touches, and how many it touches. */
  function ContainerWindow(at: nat, width: nat): (nat, nat)
    requires width >= 1
  {
    (at / 8, (at + width - 1) / 8 - at / 8 + 1)
  }

  function WireOffset(n: nat, c0: nat, len: nat, endian: Endian): nat
    requires c0 + len <= n
  {
    if endian.Le? then c0 else n - c0 - len
  }

  /** Bits of a wire of `n` bytes, at most 128 of them. Only a `wide` field may reach into a 17th byte. */
  predicate Fits(n: nat, at: nat, width: nat, wide: bool) {
    1 <= width <= 128 && at + width <= 8 * n && (at % 8 + width > 128 ==> wide)
  }

  function MakeWindow(n: nat, endian: Endian, at: nat, width: nat, wide: bool): Window
    requires Fits(n, at, width, wide)
  {
    var (c0, span) := ContainerWindow(at, width);
    var shift := at % 8;
    if span <= 16 then
      Window(WireOffset(n, c0, span, endian), span, if wide then 16 else NextPowerOfTwo(span), shift, width, None)
    else
      assert span == 17 && wide;
      Window(WireOffset(n, c0, 16, endian), 16, 16, shift, width,
             Some((WireOffset(n, c0 + 16, 1, endian), width - (128 - shift))))
  }

  /** What the generated code relies on. */
  predicate Sound(w: Window, n: nat) {
    && 1 <= w.len <= w.reg <= 16 && w.offset + w.len <= n
    && w.shift < 8 && w.width >= 1
    && (w.tail.None? ==> w.shift + w.width <= 8 * w.len)
    && (w.tail.Some? ==> w.reg == w.len == 16 && w.shift >= 1 && w.tail.value.0 < n)
    && (w.tail.Some? ==> 1 <= w.tail.value.1 <= 8 && w.width == 128 - w.shift + w.tail.value.1 <= 128)
  }

  /** The window is over the container's bytes from `c0`, wherever the byte order puts them on the wire. */
  predicate Over(w: Window, n: nat, endian: Endian, c0: nat) {
    && Sound(w, n)
    && c0 + w.len <= n && w.offset == WireOffset(n, c0, w.len, endian)
    && (w.tail.Some? ==> c0 + 17 <= n && w.tail.value.0 == WireOffset(n, c0 + 16, 1, endian))
  }

  /** Every field that fits gets a sound window over the bytes it touches. */
  lemma WindowsAreSound(n: nat, endian: Endian, at: nat, width: nat, wide: bool)
    requires Fits(n, at, width, wide)
    ensures var w := MakeWindow(n, endian, at, width, wide);
      Over(w, n, endian, at / 8) && w.width == width && at == 8 * (at / 8) + w.shift
  {
  }

  // ---------------------------------------------------------------- loading

  /** The window's bytes, and zero bytes where the register's top is. */
  function PaddedWindow(w: Window, buf: seq<Byte>, endian: Endian): (bytes: seq<Byte>)
    requires Sound(w, |buf|)
    ensures |bytes| == w.reg
  {
    var bytes, pad := buf[w.offset..w.offset + w.len], ZeroBytes(w.reg - w.len);
    if endian.Le? then bytes + pad else pad + bytes
  }

  /** The window in a register. */
  function WindowBytes(w: Window, buf: seq<Byte>, endian: Endian): (r: Bits)
    requires Sound(w, |buf|)
    ensures |r| == 8 * w.reg
  {
    Whole(PaddedWindow(w, buf, endian), endian)
  }

  /** `read`, shifted only when there is something to shift by. */
  function Shifted(read: Bits, shift: nat): (r: Bits)
    ensures |r| == |read|
  {
    if shift != 0 then Shr(read, shift) else read
  }

  /** The bits of a 17th byte, above what the shifted register still holds. */
  function Joined(shifted: Bits, byte: Byte, shift: nat): (r: Bits)
    requires |shifted| == 128 && shift <= 128
    ensures |r| == 128
  {
    Or(shifted, Shl(Resize(byte, 128), 128 - shift))
  }

  function Masked(joined: Bits, width: nat): (r: Bits)
    ensures |r| == |joined|
  {
    if width != |joined| then And(joined, LowMask(width, |joined|)) else joined
  }

  function Load(w: Window, buf: seq<Byte>, endian: Endian): (r: Bits)
    requires Sound(w, |buf|)
    ensures |r| == 8 * w.reg
  {
    var shifted := Shifted(WindowBytes(w, buf, endian), w.shift);
    Masked(if w.tail.Some? then Joined(shifted, buf[w.tail.value.0], w.shift) else shifted, w.width)
  }

  lemma ReversePadded(bytes: seq<Byte>, n: nat)
    ensures Reverse(ZeroBytes(n) + bytes) == Reverse(bytes) + ZeroBytes(n)
  {
  }

  lemma ReverseSlice(s: seq<Byte>, from: nat, to: nat)
    requires from <= to <= |s|
    ensures Reverse(s[|s| - to..|s| - from]) == Reverse(s)[from..to]
  {
    var part := s[|s| - to..|s| - from];
    forall i | 0 <= i < to - from ensures Reverse(part)[i] == Reverse(s)[from..to][i] {
      assert part[to - from - 1 - i] == s[|s| - 1 - from - i];
    }
  }

  /** The window's register holds the container's bits from byte `c0`. */
  lemma WindowBytesAreTheContainers(w: Window, buf: seq<Byte>, endian: Endian, c0: nat)
    requires Over(w, |buf|, endian, c0)
    ensures WindowBytes(w, buf, endian)
         == Whole(buf, endian)[8 * c0..8 * (c0 + w.len)] + Zeros(8 * (w.reg - w.len))
  {
    hide LeWord, BeWord, InOrder, PaddedWindow, ZeroBytes, Zeros;
    var order, pad := InOrder(buf, endian), ZeroBytes(w.reg - w.len);
    PaddedInOrder(w, buf, endian, c0);
    WholeIsInOrder(PaddedWindow(w, buf, endian), endian);
    WholeIsInOrder(buf, endian);
    LeWordAppend(order[c0..c0 + w.len], pad);
    LeWordSlice(order, c0, c0 + w.len);
    LeWordZeros(w.reg - w.len);
  }

  lemma PaddedInOrder(w: Window, buf: seq<Byte>, endian: Endian, c0: nat)
    requires Over(w, |buf|, endian, c0)
    ensures InOrder(PaddedWindow(w, buf, endian), endian)
         == InOrder(buf, endian)[c0..c0 + w.len] + ZeroBytes(w.reg - w.len)
  {
    if endian.Be? {
      hide Reverse, ZeroBytes;
      ReversePadded(buf[w.offset..w.offset + w.len], w.reg - w.len);
      ReverseSlice(buf, c0, c0 + w.len);
    } else {
      hide Reverse, ZeroBytes;
    }
  }

  lemma OneByteWord(b: Byte)
    ensures LeWord([b]) == b
  {
  }

  lemma ByteInOrder(buf: seq<Byte>, endian: Endian, c: nat)
    requires c < |buf|
    ensures WireOffset(|buf|, c, 1, endian) < |buf|
    ensures InOrder(buf, endian)[c..c + 1] == [buf[WireOffset(|buf|, c, 1, endian)]]
  {
  }

  lemma TailByteIsTheContainers(buf: seq<Byte>, endian: Endian, c: nat)
    requires c < |buf|
    ensures buf[WireOffset(|buf|, c, 1, endian)] == Whole(buf, endian)[8 * c..8 * (c + 1)]
  {
    hide LeWord, InOrder, WireOffset;
    ByteInOrder(buf, endian, c);
    var order, byte := InOrder(buf, endian), buf[WireOffset(|buf|, c, 1, endian)];
    WholeIsInOrder(buf, endian);
    LeWordSlice(order, c, c + 1);
    OneByteWord(byte);
  }

  /** A window load of any field, in either byte order, is that field's bits of the whole container. */
  lemma LoadIsTheField(buf: seq<Byte>, endian: Endian, at: nat, width: nat, wide: bool)
    requires Fits(|buf|, at, width, wide)
    ensures var w := MakeWindow(|buf|, endian, at, width, wide);
      && Sound(w, |buf|) && width <= 8 * w.reg
      && Load(w, buf, endian) == Resize(Whole(buf, endian)[at..at + width], 8 * w.reg)
  {
    hide MakeWindow, Load, WindowBytes, Whole, WireOffset, Resize, Sound;
    WindowsAreSound(|buf|, endian, at, width, wide);
    var w, c0 := MakeWindow(|buf|, endian, at, width, wide), at / 8;
    LoadReads(w, buf, endian, c0);
  }

  lemma LoadReads(w: Window, buf: seq<Byte>, endian: Endian, c0: nat)
    requires Over(w, |buf|, endian, c0) && 8 * c0 + w.shift + w.width <= 8 * |buf|
    ensures w.width <= 8 * w.reg
    ensures var at := 8 * c0 + w.shift;
      Load(w, buf, endian) == Resize(Whole(buf, endian)[at..at + w.width], 8 * w.reg)
  {
    hide Load, WindowBytes, Whole, WireOffset, Resize;
    WindowBytesAreTheContainers(w, buf, endian, c0);
    if w.tail.Some? {
      TailByteIsTheContainers(buf, endian, c0 + 16);
    }
    LoadJoins(w, buf, endian, Whole(buf, endian), c0);
  }

  /** Shifting, joining and masking the window picks the field out of the container. */
  lemma LoadJoins(w: Window, buf: seq<Byte>, endian: Endian, c: Bits, c0: nat)
    requires Sound(w, |buf|) && 8 * c0 + w.shift + w.width <= |c| && 8 * (c0 + w.len) <= |c|
    requires WindowBytes(w, buf, endian) == c[8 * c0..8 * (c0 + w.len)] + Zeros(8 * (w.reg - w.len))
    requires w.tail.Some? ==> 8 * (c0 + 17) <= |c| && buf[w.tail.value.0] == c[8 * (c0 + 16)..8 * (c0 + 17)]
    ensures var at := 8 * c0 + w.shift;
      w.width <= 8 * w.reg && Load(w, buf, endian) == Resize(c[at..at + w.width], 8 * w.reg)
  {
    hide WindowBytes, Zeros, Resize, Shifted, Joined, Masked;
    var at, read := 8 * c0 + w.shift, WindowBytes(w, buf, endian);
    var shifted := Shifted(read, w.shift);
    ShiftedWindow(w, read, c, c0);
    if w.tail.Some? {
      TailJoins(shifted, buf[w.tail.value.0], c, at, w.shift);
      MaskedIsField(Joined(shifted, buf[w.tail.value.0], w.shift), c, at, w.width);
    } else {
      MaskedIsField(shifted, c, at, w.width);
    }
  }

  lemma ShiftedWindow(w: Window, read: Bits, c: Bits, c0: nat)
    requires w.shift < 8 && 1 <= w.len <= w.reg && 8 * (c0 + w.len) <= |c|
    requires read == c[8 * c0..8 * (c0 + w.len)] + Zeros(8 * (w.reg - w.len))
    ensures forall i :: 0 <= i < 8 * w.len - w.shift ==> Shifted(read, w.shift)[i] == c[8 * c0 + w.shift + i]
    ensures forall i :: 8 * w.len - w.shift <= i < 8 * w.reg ==> !Shifted(read, w.shift)[i]
  {
    var part := c[8 * c0..8 * (c0 + w.len)];
    forall i | 0 <= i < 8 * w.len - w.shift ensures Shifted(read, w.shift)[i] == c[8 * c0 + w.shift + i] {
      assert read[i + w.shift] == part[i + w.shift];
    }
  }

  lemma TailJoins(shifted: Bits, byte: Byte, c: Bits, at: nat, shift: nat)
    requires 1 <= shift < 8 && |shifted| == 128 && at + 136 <= |c| + shift
    requires forall i :: 0 <= i < 128 - shift ==> shifted[i] == c[at + i]
    requires forall i :: 128 - shift <= i < 128 ==> !shifted[i]
    requires byte == c[at + 128 - shift..at + 136 - shift]
    ensures forall i :: 0 <= i < 128 ==> Joined(shifted, byte, shift)[i] == c[at + i]
  {
    var up := 128 - shift;
    forall i | 0 <= i < 128 ensures Joined(shifted, byte, shift)[i] == c[at + i] {
      if i >= up {
        assert Joined(shifted, byte, shift)[i] == byte[i - up];
      }
    }
  }

  lemma MaskedIsField(joined: Bits, c: Bits, at: nat, width: nat)
    requires width <= |joined| && at + width <= |c|
    requires forall i :: 0 <= i < width ==> joined[i] == c[at + i]
    ensures Masked(joined, width) == Resize(c[at..at + width], |joined|)
  {
  }

  // ---------------------------------------------------------------- storing

  /** The register after a store: the old bits the field does not own, and the field's new ones. */
  function Merged(w: Window, cur: Bits, raw: Bits): (merged: Bits)
    requires |cur| == |raw| == 8 * w.reg
    ensures |merged| == 8 * w.reg
  {
    var size := 8 * w.reg;
    var mask := LowMask(w.width, size);
    var masked := if w.width == size then raw else And(raw, mask);
    var value := if w.shift != 0 then Shl(masked, w.shift) else masked;
    var keep := Not(Shl(mask, w.shift));
    if keep == Zeros(size) then value else Or(And(cur, keep), value)
  }

  /** The bytes of a register that go back to the window. */
  function WindowOf(w: Window, register: Bits, endian: Endian): (bytes: seq<Byte>)
    requires |register| == 8 * w.reg && w.len <= w.reg
    ensures |bytes| == w.len
  {
    if endian.Le? then LeBytes(register)[..w.len] else BeBytes(register)[w.reg - w.len..]
  }

  /** The 17th byte after a store. */
  function OddByte(w: Window, was: Byte, raw: Bits): Byte
    requires w.tail.Some? && w.shift <= 128
  {
    var m := LowMask(w.tail.value.1, 8);
    Or(And(was, Not(m)), And(Resize(Shr(raw, 128 - w.shift), 8), m))
  }

  function Store(w: Window, buf: seq<Byte>, endian: Endian, raw: Bits): (r: seq<Byte>)
    requires Sound(w, |buf|) && |raw| == 8 * w.reg
    ensures |r| == |buf|
  {
    var put := Replaced(buf, w.offset, WindowOf(w, Merged(w, WindowBytes(w, buf, endian), raw), endian));
    if w.tail.None? then put else put[w.tail.value.0 := OddByte(w, put[w.tail.value.0], raw)]
  }

  method StoreInPlace(w: Window, buf: array<Byte>, endian: Endian, raw: Bits)
    requires Sound(w, buf.Length) && |raw| == 8 * w.reg
    modifies buf
    ensures buf[..] == Store(w, old(buf[..]), endian, raw)
  {
    hide Merged, WindowBytes, WindowOf, OddByte;
    ghost var before := buf[..];
    var bytes := WindowOf(w, Merged(w, WindowBytes(w, buf[..], endian), raw), endian);
    forall i | 0 <= i < w.len {
      buf[w.offset + i] := bytes[i];
    }
    assert buf[..] == Replaced(before, w.offset, bytes);
    if w.tail.Some? {
      var at := w.tail.value.0;
      buf[at] := OddByte(w, buf[at], raw);
    }
  }

  lemma ReversePut(buf: seq<Byte>, at: nat, bytes: seq<Byte>)
    requires at + |bytes| <= |buf|
    ensures Reverse(Replaced(buf, at, bytes)) == Replaced(Reverse(buf), |buf| - at - |bytes|, Reverse(bytes))
  {
  }

  lemma LeWordPut(buf: seq<Byte>, at: nat, bytes: seq<Byte>)
    requires at + |bytes| <= |buf|
    ensures LeWord(Replaced(buf, at, bytes)) == Replaced(LeWord(buf), 8 * at, LeWord(bytes))
  {
    var to := at + |bytes|;
    LeWordAppend(buf[..at] + bytes, buf[to..]);
    LeWordAppend(buf[..at], bytes);
    LeWordSlice(buf, 0, at);
    LeWordSlice(buf, to, |buf|);
    assert buf[0..at] == buf[..at] && buf[to..|buf|] == buf[to..];
    assert LeWord(buf)[0..8 * at] == LeWord(buf)[..8 * at];
    assert LeWord(buf)[8 * to..8 * |buf|] == LeWord(buf)[8 * at + |LeWord(bytes)|..];
  }

  /** In container order the bytes that go back are the register's lowest. */
  lemma WindowOfIsLow(w: Window, register: Bits, endian: Endian)
    requires |register| == 8 * w.reg && w.len <= w.reg
    ensures InOrder(WindowOf(w, register, endian), endian) == LeBytes(register)[..w.len]
  {
    var low := LeBytes(register);
    if endian.Be? {
      ReverseTwice(low);
      ReverseSlice(Reverse(low), 0, w.len);
    }
  }

  /** Putting a register's bytes back writes them over the same bits of the container. */
  lemma PutIsReplaced(w: Window, buf: seq<Byte>, endian: Endian, c0: nat, register: Bits)
    requires Over(w, |buf|, endian, c0) && |register| == 8 * w.reg
    ensures Whole(Replaced(buf, w.offset, WindowOf(w, register, endian)), endian)
         == Replaced(Whole(buf, endian), 8 * c0, register[..8 * w.len])
  {
    var bytes := WindowOf(w, register, endian);
    if endian.Be? {
      ReversePut(buf, w.offset, bytes);
    }
    hide LeWord, LeBytes, WindowOf;
    var order := InOrder(buf, endian);
    assert InOrder(Replaced(buf, w.offset, bytes), endian) == Replaced(order, c0, InOrder(bytes, endian));
    WholeIsInOrder(buf, endian);
    WholeIsInOrder(Replaced(buf, w.offset, bytes), endian);
    WindowOfIsLow(w, register, endian);
    LeWordPut(order, c0, InOrder(bytes, endian));
    LeWordSlice(LeBytes(register), 0, w.len);
    assert LeBytes(register)[0..w.len] == LeBytes(register)[..w.len];
    LeWordBytes(register);
  }

  lemma SetByteIsReplaced(buf: seq<Byte>, endian: Endian, c: nat, byte: Byte)
    requires c < |buf|
    ensures Whole(buf[WireOffset(|buf|, c, 1, endian) := byte], endian) == Replaced(Whole(buf, endian), 8 * c, byte)
  {
    var at := WireOffset(|buf|, c, 1, endian);
    var order := InOrder(buf, endian);
    SetInOrder(buf, endian, c, byte);
    hide LeWord, InOrder, WireOffset, Whole, Replaced;
    WholeIsInOrder(buf, endian);
    WholeIsInOrder(buf[at := byte], endian);
    LeWordPut(order, c, [byte]);
    OneByteWord(byte);
  }

  lemma SetInOrder(buf: seq<Byte>, endian: Endian, c: nat, byte: Byte)
    requires c < |buf|
    ensures InOrder(buf[WireOffset(|buf|, c, 1, endian) := byte], endian) == Replaced(InOrder(buf, endian), c, [byte])
  {
    var at := WireOffset(|buf|, c, 1, endian);
    assert buf[at := byte] == Replaced(buf, at, [byte]);
    ReversePut(buf, at, [byte]);
    assert Reverse([byte]) == [byte];
    hide Reverse, Replaced;
  }

  lemma MergedHolds(w: Window, cur: Bits, raw: Bits)
    requires |cur| == |raw| == 8 * w.reg && w.shift < 8 && w.width <= 128
    ensures forall i :: 0 <= i < 8 * w.reg ==>
      Merged(w, cur, raw)[i] == if w.shift <= i < w.shift + w.width then raw[i - w.shift] else cur[i]
  {
    var size := 8 * w.reg;
    var keep := Not(Shl(LowMask(w.width, size), w.shift));
    forall i | 0 <= i < size
      ensures Merged(w, cur, raw)[i] == if w.shift <= i < w.shift + w.width then raw[i - w.shift] else cur[i]
    {
      assert keep[i] == !(w.shift <= i < w.shift + w.width);
      assert keep == Zeros(size) ==> !keep[i];
    }
  }

  /** A window store sets exactly the field's bits of the container, and changes no other bit of the wire. */
  lemma StoreSetsTheField(buf: seq<Byte>, endian: Endian, at: nat, width: nat, wide: bool, raw: Bits)
    requires Fits(|buf|, at, width, wide)
    requires |raw| == 8 * MakeWindow(|buf|, endian, at, width, wide).reg
    ensures var w := MakeWindow(|buf|, endian, at, width, wide);
      && Sound(w, |buf|) && width <= |raw|
      && Whole(Store(w, buf, endian, raw), endian) == Replaced(Whole(buf, endian), at, raw[..width])
  {
    hide MakeWindow, Whole, Sound, WireOffset, Replaced, Store;
    WindowsAreSound(|buf|, endian, at, width, wide);
    var w, c0 := MakeWindow(|buf|, endian, at, width, wide), at / 8;
    StoreIsReplaced(w, buf, endian, c0, raw);
  }

  lemma StoreIsReplaced(w: Window, buf: seq<Byte>, endian: Endian, c0: nat, raw: Bits)
    requires Over(w, |buf|, endian, c0) && |raw| == 8 * w.reg && 8 * c0 + w.shift + w.width <= 8 * |buf|
    ensures w.width <= |raw|
    ensures Whole(Store(w, buf, endian, raw), endian) == Replaced(Whole(buf, endian), 8 * c0 + w.shift, raw[..w.width])
  {
    hide Merged, WindowBytes, Whole, WireOffset, WindowOf, OddByte, Replaced, Zeros;
    var c, cur := Whole(buf, endian), WindowBytes(w, buf, endian);
    var merged := Merged(w, cur, raw);
    var put := Replaced(buf, w.offset, WindowOf(w, merged, endian));
    WindowBytesAreTheContainers(w, buf, endian, c0);
    PutIsReplaced(w, buf, endian, c0, merged);
    MergedHolds(w, cur, raw);
    if w.tail.None? {
      WindowReplaced(c, c0, w, cur, merged, raw);
    } else {
      TailStored(w, put, endian, c0, c, cur, merged, raw);
    }
  }

  lemma TailStored(w: Window, put: seq<Byte>, endian: Endian, c0: nat, c: Bits, cur: Bits, merged: Bits, raw: Bits)
    requires Over(w, |put|, endian, c0) && w.tail.Some? && |c| == 8 * |put|
    requires |merged| == |raw| == |cur| == 128
    requires cur == c[8 * c0..8 * (c0 + 16)] + Zeros(0)
    requires forall i :: 0 <= i < 128 ==>
      merged[i] == if w.shift <= i < w.shift + w.width then raw[i - w.shift] else cur[i]
    requires Whole(put, endian) == Replaced(c, 8 * c0, merged[..128])
    ensures Whole(put[w.tail.value.0 := OddByte(w, put[w.tail.value.0], raw)], endian)
         == Replaced(c, 8 * c0 + w.shift, raw[..w.width])
  {
    hide Whole, WireOffset, OddByte, Replaced;
    var byte := put[w.tail.value.0];
    assert merged[..128] == merged && cur == c[8 * c0..8 * (c0 + 16)];
    TailByteIsTheContainers(put, endian, c0 + 16);
    SetByteIsReplaced(put, endian, c0 + 16, OddByte(w, byte, raw));
    TailReplaced(c, Whole(put, endian), c0, w, cur, merged, raw, byte);
  }

  lemma WindowReplaced(c: Bits, c0: nat, w: Window, cur: Bits, merged: Bits, raw: Bits)
    requires 1 <= w.len <= w.reg && w.shift + w.width <= 8 * w.len && 8 * (c0 + w.len) <= |c|
    requires |merged| == |raw| == |cur| == 8 * w.reg
    requires cur == c[8 * c0..8 * (c0 + w.len)] + Zeros(8 * (w.reg - w.len))
    requires forall i :: 0 <= i < 8 * w.reg ==>
      merged[i] == if w.shift <= i < w.shift + w.width then raw[i - w.shift] else cur[i]
    ensures Replaced(c, 8 * c0, merged[..8 * w.len]) == Replaced(c, 8 * c0 + w.shift, raw[..w.width])
  {
    var x, y := Replaced(c, 8 * c0, merged[..8 * w.len]), Replaced(c, 8 * c0 + w.shift, raw[..w.width]);
    forall i | 0 <= i < |c| ensures x[i] == y[i] {
      if 8 * c0 <= i < 8 * (c0 + w.len) {
        assert x[i] == merged[i - 8 * c0];
        assert cur[i - 8 * c0] == c[i];
      }
    }
  }

  lemma TailReplaced(c: Bits, put: Bits, c0: nat, w: Window, cur: Bits, merged: Bits, raw: Bits, byte: Byte)
    requires w.reg == w.len == 16 && 1 <= w.shift < 8 && w.tail.Some? && 8 * (c0 + 17) <= |c|
    requires 1 <= w.tail.value.1 <= 8 && w.width == 128 - w.shift + w.tail.value.1 <= 128
    requires |merged| == |raw| == |cur| == 128 && cur == c[8 * c0..8 * (c0 + 16)]
    requires forall i :: 0 <= i < 128 ==>
      merged[i] == if w.shift <= i < w.shift + w.width then raw[i - w.shift] else cur[i]
    requires put == Replaced(c, 8 * c0, merged) && byte == put[8 * (c0 + 16)..8 * (c0 + 17)]
    ensures Replaced(put, 8 * (c0 + 16), OddByte(w, byte, raw)) == Replaced(c, 8 * c0 + w.shift, raw[..w.width])
  {
    hide OddByte;
    OddByteHolds(w, byte, raw);
    var odd := OddByte(w, byte, raw);
    var x, y := Replaced(put, 8 * (c0 + 16), odd), Replaced(c, 8 * c0 + w.shift, raw[..w.width]);
    forall i | 0 <= i < |c| ensures x[i] == y[i] {
      if 8 * c0 <= i < 8 * (c0 + 16) {
        assert x[i] == put[i] == merged[i - 8 * c0];
        assert cur[i - 8 * c0] == c[i];
      } else if 8 * (c0 + 16) <= i < 8 * (c0 + 17) {
        var k := i - 8 * (c0 + 16);
        assert x[i] == odd[k] && byte[k] == put[i] == c[i];
        assert odd[k] == if k < w.tail.value.1 then raw[128 - w.shift + k] else byte[k];
      }
    }
  }

  lemma OddByteHolds(w: Window, was: Byte, raw: Bits)
    requires w.tail.Some? && w.tail.value.1 <= 8 && w.shift <= 128 && |raw| == 128
    requires w.tail.value.1 <= w.shift
    ensures forall k :: 0 <= k < 8 ==>
      OddByte(w, was, raw)[k] == if k < w.tail.value.1 then raw[128 - w.shift + k] else was[k]
  {
  }
}
