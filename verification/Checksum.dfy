/** CRCs as shifting registers, and the paired-byte sum. */
module Checksum {
  import opened Words

  // ---------------------------------------------------------------- registers

  /** One shift of a reflected register: towards bit 0. */
  function StepRight(poly: Bits, crc: Bits): (next: Bits)
    requires |crc| == |poly| >= 1
    ensures |next| == |poly|
  {
    if crc[0] then Xor(Shr(crc, 1), poly) else Shr(crc, 1)
  }

  /** One shift of an unreflected register: towards its top bit. */
  function StepLeft(poly: Bits, crc: Bits): (next: Bits)
    requires |crc| == |poly| >= 1
    ensures |next| == |poly|
  {
    if crc[|crc| - 1] then Xor(Shl(crc, 1), poly) else Shl(crc, 1)
  }

  function Step(poly: Bits, reflect: bool, crc: Bits): (next: Bits)
    requires |crc| == |poly| >= 1
    ensures |next| == |poly|
  {
    if reflect then StepRight(poly, crc) else StepLeft(poly, crc)
  }

  function Steps(poly: Bits, reflect: bool, crc: Bits, n: nat): (next: Bits)
    requires |crc| == |poly| >= 1
    ensures |next| == |poly|
    decreases n
  {
    if n == 0 then crc else Steps(poly, reflect, Step(poly, reflect, crc), n - 1)
  }

  /** A byte lined up with the end of the register it enters. */
  function Entering(b: Byte, width: nat, reflect: bool): (w: Bits)
    requires width >= 8
    ensures |w| == width
  {
    if reflect then Resize(b, width) else Shl(Resize(b, width), width - 8)
  }

  function FoldByte(poly: Bits, reflect: bool, crc: Bits, b: Byte): (next: Bits)
    requires |crc| == |poly| >= 8
    ensures |next| == |poly|
  {
    Steps(poly, reflect, Xor(crc, Entering(b, |poly|, reflect)), 8)
  }

  /** `crc_fold`. */
  function Fold(poly: Bits, reflect: bool, crc: Bits, bytes: seq<Byte>): (next: Bits)
    requires |crc| == |poly| >= 8
    ensures |next| == |poly|
    decreases |bytes|
  {
    if bytes == [] then crc else Fold(poly, reflect, FoldByte(poly, reflect, crc, bytes[0]), bytes[1..])
  }

  method CrcFold(poly: Bits, reflect: bool, register: Bits, bytes: seq<Byte>) returns (crc: Bits)
    requires |register| == |poly| >= 8
    ensures crc == Fold(poly, reflect, register, bytes)
  {
    hide Xor, Shr, Shl, Resize;
    var top := |poly| - 1;
    crc := register;
    for i := 0 to |bytes|
      invariant |crc| == |poly|
      invariant Fold(poly, reflect, register, bytes) == Fold(poly, reflect, crc, bytes[i..])
    {
      ghost var before := crc;
      assert bytes[i..][0] == bytes[i] && bytes[i..][1..] == bytes[i + 1..];
      if reflect {
        crc := Xor(crc, Resize(bytes[i], |poly|));
        for k := 0 to 8
          invariant |crc| == |poly|
          invariant Steps(poly, reflect, crc, 8 - k) == FoldByte(poly, reflect, before, bytes[i])
        {
          crc := if crc[0] then Xor(Shr(crc, 1), poly) else Shr(crc, 1);
        }
      } else {
        crc := Xor(crc, Shl(Resize(bytes[i], |poly|), |poly| - 8));
        for k := 0 to 8
          invariant |crc| == |poly|
          invariant Steps(poly, reflect, crc, 8 - k) == FoldByte(poly, reflect, before, bytes[i])
        {
          crc := if crc[top] then Xor(Shl(crc, 1), poly) else Shl(crc, 1);
        }
      }
    }
  }

  /** `Crc`, by its catalogue parameters. The words all have the register's width. */
  datatype Crc = Crc(poly: Bits, init: Bits, xorout: Bits, reflect: bool) {
    predicate Ok() {
      |poly| == |init| == |xorout| && |poly| >= 8 && |poly| % 8 == 0
    }

    function Compute(bytes: seq<Byte>): (crc: Bits)
      requires Ok()
      ensures |crc| == |poly|
    {
      Xor(Fold(poly, reflect, init, bytes), xorout)
    }

    /** The byte order a CRC's own bytes are sent in, so that a receiver can fold them too. */
    function Send(crc: Bits): seq<Byte>
      requires |crc| % 8 == 0
    {
      if reflect then LeBytes(crc) else BeBytes(crc)
    }

    /** The bit of the polynomial that makes a shift lose nothing. */
    predicate Lossless()
      requires Ok()
    {
      if reflect then poly[|poly| - 1] else poly[0]
    }
  }

  // ---------------------------------------------------------------- runs

  lemma {:induction false} FoldSplits(poly: Bits, reflect: bool, crc: Bits, a: seq<Byte>, b: seq<Byte>)
    requires |crc| == |poly| >= 8
    ensures Fold(poly, reflect, crc, a + b) == Fold(poly, reflect, Fold(poly, reflect, crc, a), b)
    decreases |a|
  {
    if a == [] {
      assert a + b == b;
    } else {
      assert (a + b)[0] == a[0] && (a + b)[1..] == a[1..] + b;
      FoldSplits(poly, reflect, FoldByte(poly, reflect, crc, a[0]), a[1..], b);
    }
  }

  lemma {:induction false} StepsSplit(poly: Bits, reflect: bool, crc: Bits, m: nat, n: nat)
    requires |crc| == |poly| >= 1
    ensures Steps(poly, reflect, crc, m + n) == Steps(poly, reflect, Steps(poly, reflect, crc, m), n)
    decreases m
  {
    if m == 0 {
    } else {
      StepsSplit(poly, reflect, Step(poly, reflect, crc), m - 1, n);
    }
  }

  // ---------------------------------------------------------------- reflection

  function RevByte(b: Byte): Byte {
    Reverse(b)
  }

  function RevBytes(bytes: seq<Byte>): (r: seq<Byte>)
    ensures |r| == |bytes|
  {
    seq(|bytes|, i requires 0 <= i < |bytes| => RevByte(bytes[i]))
  }

  lemma StepMirrors(poly: Bits, crc: Bits)
    requires |crc| == |poly| >= 1
    ensures Reverse(StepLeft(poly, crc)) == StepRight(Reverse(poly), Reverse(crc))
    ensures Reverse(Reverse(crc)) == crc
  {
    assert Reverse(crc)[0] == crc[|crc| - 1];
    assert Reverse(Shl(crc, 1)) == Shr(Reverse(crc), 1);
    assert Reverse(Xor(Shl(crc, 1), poly)) == Xor(Reverse(Shl(crc, 1)), Reverse(poly));
  }

  lemma {:induction false} StepsMirror(poly: Bits, crc: Bits, n: nat)
    requires |crc| == |poly| >= 1
    ensures Reverse(Steps(poly, false, crc, n)) == Steps(Reverse(poly), true, Reverse(crc), n)
    decreases n
  {
    if n == 0 {
    } else {
      StepMirrors(poly, crc);
      StepsMirror(poly, StepLeft(poly, crc), n - 1);
    }
  }

  lemma FoldByteMirrors(poly: Bits, crc: Bits, b: Byte)
    requires |crc| == |poly| >= 8
    ensures Reverse(FoldByte(poly, false, crc, b)) == FoldByte(Reverse(poly), true, Reverse(crc), RevByte(b))
  {
    hide Steps;
    var entering := Entering(b, |poly|, false);
    EnteringMirrors(b, |poly|);
    XorMirrors(crc, entering);
    StepsMirror(poly, Xor(crc, entering), 8);
  }

  lemma EnteringMirrors(b: Byte, width: nat)
    requires width >= 8
    ensures Reverse(Entering(b, width, false)) == Entering(RevByte(b), width, true)
  {
  }

  lemma XorMirrors(a: Bits, b: Bits)
    requires |a| == |b|
    ensures Reverse(Xor(a, b)) == Xor(Reverse(a), Reverse(b))
  {
  }

  lemma RevBytesCons(bytes: seq<Byte>)
    requires bytes != []
    ensures RevBytes(bytes)[0] == RevByte(bytes[0]) && RevBytes(bytes)[1..] == RevBytes(bytes[1..])
  {
  }

  lemma {:induction false} FoldMirrors(poly: Bits, crc: Bits, bytes: seq<Byte>)
    requires |crc| == |poly| >= 8
    ensures Reverse(Fold(poly, false, crc, bytes)) == Fold(Reverse(poly), true, Reverse(crc), RevBytes(bytes))
    decreases |bytes|
  {
    if bytes == [] {
    } else {
      hide FoldByte, Reverse, RevBytes, RevByte;
      RevBytesCons(bytes);
      FoldByteMirrors(poly, crc, bytes[0]);
      FoldMirrors(poly, FoldByte(poly, false, crc, bytes[0]), bytes[1..]);
    }
  }

  /** A reflected CRC is the bit reversal of the unreflected CRC with every parameter and every byte reversed. */
  lemma ReflectionReverses(c: Crc, bytes: seq<Byte>)
    requires c.Ok() && c.reflect
    ensures c.Compute(bytes) ==
      Reverse(Crc(Reverse(c.poly), Reverse(c.init), Reverse(c.xorout), false).Compute(RevBytes(bytes)))
  {
    hide Fold, Reverse, RevBytes, Xor;
    FoldMirrors(Reverse(c.poly), Reverse(c.init), RevBytes(bytes));
    ReverseTwice(c.poly);
    ReverseTwice(c.init);
    ReverseTwice(c.xorout);
    RevBytesTwice(bytes);
    XorMirrors(Fold(Reverse(c.poly), false, Reverse(c.init), RevBytes(bytes)), Reverse(c.xorout));
  }

  lemma RevBytesTwice(bytes: seq<Byte>)
    ensures RevBytes(RevBytes(bytes)) == bytes
  {
    forall i | 0 <= i < |bytes| ensures RevByte(RevByte(bytes[i])) == bytes[i] {
      ReverseTwice(bytes[i]);
    }
  }

  // ---------------------------------------------------------------- whole words

  /** Shifting is linear. */
  lemma {:induction false} StepsXor(poly: Bits, a: Bits, b: Bits, n: nat)
    requires |a| == |b| == |poly| >= 1
    ensures Steps(poly, true, Xor(a, b), n) == Xor(Steps(poly, true, a, n), Steps(poly, true, b, n))
    decreases n
  {
    if n == 0 {
    } else {
      assert StepRight(poly, Xor(a, b)) == Xor(StepRight(poly, a), StepRight(poly, b));
      StepsXor(poly, StepRight(poly, a), StepRight(poly, b), n - 1);
    }
  }

  /** Shifting out zeros only shifts. */
  lemma {:induction false} StepsOfZeros(poly: Bits, a: Bits, n: nat)
    requires |a| == |poly| && n <= |a| && |a| >= 1
    requires forall i :: 0 <= i < n ==> !a[i]
    ensures Steps(poly, true, a, n) == Shr(a, n)
    decreases n
  {
    if n > 0 {
      StepsOfZeros(poly, Shr(a, 1), n - 1);
      assert Shr(Shr(a, 1), n - 1) == Shr(a, n);
    } else {
      assert Shr(a, 0) == a;
    }
  }

  lemma LeWordCons(b: Byte, rest: seq<Byte>, width: nat)
    requires 8 + 8 * |rest| <= width
    ensures var high := Shl(Resize(LeWord(rest), width), 8);
      && Resize(LeWord([b] + rest), width) == Xor(Resize(b, width), high)
      && Shr(high, 8) == Resize(LeWord(rest), width)
  {
    var high := Shl(Resize(LeWord(rest), width), 8);
    forall i | 0 <= i < width
      ensures Resize(LeWord([b] + rest), width)[i] == Xor(Resize(b, width), high)[i]
    {
      if 8 <= i < 8 + 8 * |rest| {
        assert i / 8 == (i - 8) / 8 + 1 && i % 8 == (i - 8) % 8;
      }
    }
  }

  lemma XorAssoc(a: Bits, b: Bits, c: Bits)
    requires |a| == |b| == |c|
    ensures Xor(Xor(a, b), c) == Xor(a, Xor(b, c))
  {
  }

  /** Eight shifts of the register with several bytes added in fold the first and leave the rest added in. */
  lemma FirstByteLeaves(poly: Bits, crc: Bits, b: Byte, rest: seq<Byte>)
    requires |crc| == |poly| && 8 + 8 * |rest| <= |poly|
    ensures Steps(poly, true, Xor(crc, Resize(LeWord([b] + rest), |poly|)), 8)
         == Xor(FoldByte(poly, true, crc, b), Resize(LeWord(rest), |poly|))
  {
    hide Steps;
    var low, high := Resize(b, |poly|), Shl(Resize(LeWord(rest), |poly|), 8);
    LeWordCons(b, rest, |poly|);
    XorAssoc(crc, low, high);
    StepsXor(poly, Xor(crc, low), high, 8);
    StepsOfZeros(poly, high, 8);
  }

  /** Folding up to a register's width of bytes is that many shifts of the register with those bytes added in
      at once, first byte lowest. */
  lemma {:induction false} FoldIsStepsReflected(poly: Bits, crc: Bits, bytes: seq<Byte>)
    requires |crc| == |poly| >= 8 && 8 * |bytes| <= |poly|
    ensures Fold(poly, true, crc, bytes) == Steps(poly, true, Xor(crc, Resize(LeWord(bytes), |poly|)), 8 * |bytes|)
    decreases |bytes|
  {
    var width := |poly|;
    if bytes == [] {
      assert Xor(crc, Resize(LeWord(bytes), width)) == crc;
    } else {
      hide Steps, Xor, Resize, LeWord, FoldByte;
      var b, rest := bytes[0], bytes[1..];
      assert bytes == [b] + rest;
      FirstByteLeaves(poly, crc, b, rest);
      FoldIsStepsReflected(poly, FoldByte(poly, true, crc, b), rest);
      StepsSplit(poly, true, Xor(crc, Resize(LeWord(bytes), width)), 8, 8 * |rest|);
    }
  }

  /** Up to a register's width of bytes, lined up with the end of the register they enter. */
  function Lined(bytes: seq<Byte>, width: nat, reflect: bool): (w: Bits)
    requires 8 * |bytes| <= width
    ensures |w| == width
  {
    if reflect then Resize(LeWord(bytes), width) else Shl(Resize(BeWord(bytes), width), width - 8 * |bytes|)
  }

  lemma LinedMirrors(bytes: seq<Byte>, width: nat)
    requires 8 * |bytes| <= width
    ensures Reverse(Lined(bytes, width, false)) == Lined(RevBytes(bytes), width, true)
  {
    var n := 8 * |bytes|;
    var left, right := Lined(bytes, width, false), Lined(RevBytes(bytes), width, true);
    forall i | 0 <= i < width
      ensures left[width - 1 - i] == right[i]
    {
      if i < n {
        var j := n - 1 - i;
        assert j / 8 == |bytes| - 1 - i / 8 && j % 8 == 7 - i % 8;
        assert left[width - 1 - i] == BeWord(bytes)[j] == bytes[i / 8][7 - i % 8];
        assert right[i] == LeWord(RevBytes(bytes))[i] == RevByte(bytes[i / 8])[i % 8];
      }
    }
  }

  lemma LinedIsWord(bytes: seq<Byte>, width: nat)
    requires 8 * |bytes| == width
    ensures Lined(bytes, width, true) == LeWord(bytes) && Lined(bytes, width, false) == BeWord(bytes)
  {
  }

  lemma RevInjective(a: Bits, b: Bits)
    requires Reverse(a) == Reverse(b)
    ensures a == b
  {
    forall i | 0 <= i < |a| ensures a[i] == b[i] {
      assert a[i] == Reverse(a)[|a| - 1 - i] && b[i] == Reverse(b)[|b| - 1 - i];
    }
  }

  /** Folding up to a register's width of bytes is that many shifts of the register with those bytes added in at
      once: big-endian, or little-endian when reflected. */
  lemma FoldIsSteps(c: Crc, crc: Bits, bytes: seq<Byte>)
    requires c.Ok() && |crc| == |c.poly| && 8 * |bytes| <= |c.poly|
    ensures Fold(c.poly, c.reflect, crc, bytes)
         == Steps(c.poly, c.reflect, Xor(crc, Lined(bytes, |c.poly|, c.reflect)), 8 * |bytes|)
  {
    var width := |c.poly|;
    if c.reflect {
      FoldIsStepsReflected(c.poly, crc, bytes);
    } else {
      hide Fold, Steps, Xor, Lined, Reverse;
      var lined := Lined(bytes, width, false);
      FoldMirrors(c.poly, crc, bytes);
      FoldIsStepsReflected(Reverse(c.poly), Reverse(crc), RevBytes(bytes));
      StepsMirror(c.poly, Xor(crc, lined), 8 * |bytes|);
      XorMirrors(crc, lined);
      LinedMirrors(bytes, width);
      RevInjective(Fold(c.poly, false, crc, bytes), Steps(c.poly, false, Xor(crc, lined), 8 * |bytes|));
    }
  }

  // ---------------------------------------------------------------- what a CRC detects

  lemma {:induction false} StepsOfNothing(poly: Bits, reflect: bool, zero: Bits, n: nat)
    requires |zero| == |poly| >= 1 && zero == Zeros(|poly|)
    ensures Steps(poly, reflect, zero, n) == zero
    decreases n
  {
    if n == 0 {
    } else {
      assert Shr(zero, 1) == zero && Shl(zero, 1) == zero;
      StepsOfNothing(poly, reflect, zero, n - 1);
    }
  }

  /** A message followed by its own CRC folds to a value the parameters alone decide: zero without an `XOROUT`. */
  lemma OwnCrcLeavesAConstant(c: Crc, message: seq<Byte>)
    requires c.Ok()
    ensures Fold(c.poly, c.reflect, c.init, message + c.Send(c.Compute(message)))
         == Steps(c.poly, c.reflect, c.xorout, |c.poly|)
    ensures c.xorout == Zeros(|c.poly|) ==> c.Compute(message + c.Send(c.Compute(message))) == Zeros(|c.poly|)
  {
    var state := Fold(c.poly, c.reflect, c.init, message);
    var crc := c.Compute(message);
    var sent := c.Send(crc);
    FoldSplits(c.poly, c.reflect, c.init, message, sent);
    FoldIsSteps(c, state, sent);
    LinedIsWord(sent, |c.poly|);
    WordBytes(crc);
    XorCancels(state, c.xorout);
    XorCancels(c.xorout, c.xorout);
    hide Fold, Steps, Xor, Lined;
    if c.xorout == Zeros(|c.poly|) {
      StepsOfNothing(c.poly, c.reflect, c.xorout, |c.poly|);
    }
  }

  lemma XorCancels(a: Bits, b: Bits)
    requires |a| == |b|
    ensures Xor(a, Xor(a, b)) == b && Xor(a, Xor(b, a)) == b
  {
  }

  lemma StepInjective(c: Crc, a: Bits, b: Bits)
    requires c.Ok() && c.Lossless() && |a| == |b| == |c.poly|
    requires Step(c.poly, c.reflect, a) == Step(c.poly, c.reflect, b)
    ensures a == b
  {
    var top := |a| - 1;
    var x, y := Step(c.poly, c.reflect, a), Step(c.poly, c.reflect, b);
    if c.reflect {
      assert x[top] == a[0] && y[top] == b[0];
      forall i | 1 <= i <= top ensures a[i] == b[i] {
        assert x[i - 1] == (a[i] != (a[0] && c.poly[i - 1])) && y[i - 1] == (b[i] != (b[0] && c.poly[i - 1]));
      }
    } else {
      assert x[0] == a[top] && y[0] == b[top];
      forall i | 0 <= i < top ensures a[i] == b[i] {
        assert x[i + 1] == (a[i] != (a[top] && c.poly[i + 1])) && y[i + 1] == (b[i] != (b[top] && c.poly[i + 1]));
      }
    }
  }

  lemma {:induction false} StepsInjective(c: Crc, a: Bits, b: Bits, n: nat)
    requires c.Ok() && c.Lossless() && |a| == |b| == |c.poly|
    requires Steps(c.poly, c.reflect, a, n) == Steps(c.poly, c.reflect, b, n)
    ensures a == b
    decreases n
  {
    if n == 0 {
    } else {
      StepsInjective(c, Step(c.poly, c.reflect, a), Step(c.poly, c.reflect, b), n - 1);
      StepInjective(c, a, b);
    }
  }

  lemma XorInjective(a: Bits, b: Bits, x: Bits)
    requires |a| == |b| == |x| && (Xor(a, x) == Xor(b, x) || Xor(x, a) == Xor(x, b))
    ensures a == b
  {
    forall i | 0 <= i < |a| ensures a[i] == b[i] {
      if Xor(a, x) == Xor(b, x) {
        assert Xor(a, x)[i] == Xor(b, x)[i];
      } else {
        assert Xor(x, a)[i] == Xor(x, b)[i];
      }
    }
  }

  lemma {:induction false} FoldInjective(c: Crc, a: Bits, b: Bits, bytes: seq<Byte>)
    requires c.Ok() && c.Lossless() && |a| == |b| == |c.poly|
    requires Fold(c.poly, c.reflect, a, bytes) == Fold(c.poly, c.reflect, b, bytes)
    ensures a == b
    decreases |bytes|
  {
    if bytes == [] {
    } else {
      hide Steps, Xor;
      var x := Entering(bytes[0], |c.poly|, c.reflect);
      FoldInjective(c, FoldByte(c.poly, c.reflect, a, bytes[0]), FoldByte(c.poly, c.reflect, b, bytes[0]), bytes[1..]);
      StepsInjective(c, Xor(a, x), Xor(b, x), 8);
      XorInjective(a, b, x);
    }
  }

  lemma LinedInjective(a: seq<Byte>, b: seq<Byte>, width: nat, reflect: bool)
    requires |a| == |b| && 8 * |a| <= width
    requires Lined(a, width, reflect) == Lined(b, width, reflect)
    ensures a == b
  {
    var n := 8 * |a|;
    forall i, k | 0 <= i < |a| && 0 <= k < 8
      ensures a[i][k] == b[i][k]
    {
      if reflect {
        var j := 8 * i + k;
        assert j / 8 == i && j % 8 == k;
        assert Lined(a, width, true)[j] == a[i][k] && Lined(b, width, true)[j] == b[i][k];
      } else {
        var j := 8 * (|a| - 1 - i) + k;
        assert j / 8 == |a| - 1 - i && j % 8 == k;
        assert Lined(a, width, false)[width - n + j] == a[i][k] && Lined(b, width, false)[width - n + j] == b[i][k];
      }
    }
    forall i | 0 <= i < |a| ensures a[i] == b[i] {
    }
  }

  /** Two messages that differ only within a register's width of bytes never share a lossless CRC. */
  lemma BurstsAreSeen(c: Crc, before: seq<Byte>, a: seq<Byte>, b: seq<Byte>, after: seq<Byte>)
    requires c.Ok() && c.Lossless()
    requires |a| == |b| && 8 * |a| <= |c.poly| && a != b
    ensures c.Compute(before + a + after) != c.Compute(before + b + after)
  {
    if c.Compute(before + a + after) == c.Compute(before + b + after) {
      hide Fold, Steps, Xor, Lined;
      var state := Fold(c.poly, c.reflect, c.init, before);
      var x, y := Fold(c.poly, c.reflect, state, a), Fold(c.poly, c.reflect, state, b);
      XorInjective(Fold(c.poly, c.reflect, c.init, before + a + after),
                   Fold(c.poly, c.reflect, c.init, before + b + after), c.xorout);
      FoldSplits(c.poly, c.reflect, c.init, before + a, after);
      FoldSplits(c.poly, c.reflect, c.init, before + b, after);
      FoldSplits(c.poly, c.reflect, c.init, before, a);
      FoldSplits(c.poly, c.reflect, c.init, before, b);
      FoldInjective(c, x, y, after);
      FoldIsSteps(c, state, a);
      FoldIsSteps(c, state, b);
      var p, q := Lined(a, |c.poly|, c.reflect), Lined(b, |c.poly|, c.reflect);
      StepsInjective(c, Xor(state, p), Xor(state, q), 8 * |a|);
      XorInjective(p, q, state);
      LinedInjective(a, b, |c.poly|, c.reflect);
    }
  }

  /** Two registers one shift takes to the same place. */
  lemma LossyStepsMerge(c: Crc) returns (x: Bits, y: Bits)
    requires c.Ok() && !c.Lossless()
    ensures |x| == |y| == |c.poly| && x != y && Step(c.poly, c.reflect, x) == Step(c.poly, c.reflect, y)
  {
    var width := |c.poly|;
    if c.reflect {
      x := seq(width, i => i == 0);
      y := Shl(c.poly, 1);
      assert x[0] && !y[0];
      assert Shr(y, 1) == c.poly == Xor(Shr(x, 1), c.poly);
    } else {
      x := seq(width, i => i == width - 1);
      y := Shr(c.poly, 1);
      assert x[width - 1] && !y[width - 1];
      assert Shl(y, 1) == c.poly == Xor(Shl(x, 1), c.poly);
    }
  }

  lemma LinedOfWord(w: Bits, c: Crc)
    requires c.Ok() && |w| == |c.poly|
    ensures Lined(c.Send(w), |w|, c.reflect) == w
  {
    WordBytes(w);
    LinedIsWord(c.Send(w), |w|);
  }

  /** A register's width of bytes that a lossy CRC cannot tell apart, wherever they stand. */
  lemma LossyCrcsCollide(c: Crc, before: seq<Byte>, after: seq<Byte>) returns (a: seq<Byte>, b: seq<Byte>)
    requires c.Ok() && !c.Lossless()
    ensures |a| == |b| && 8 * |a| == |c.poly| && a != b
    ensures c.Compute(before + a + after) == c.Compute(before + b + after)
  {
    var width := |c.poly|;
    var state := Fold(c.poly, c.reflect, c.init, before);
    var x, y := LossyStepsMerge(c);
    a, b := c.Send(Xor(state, x)), c.Send(Xor(state, y));
    LinedOfWord(Xor(state, x), c);
    LinedOfWord(Xor(state, y), c);
    XorCancels(state, x);
    XorCancels(state, y);
    hide Fold, Xor, Lined;
    FoldIsSteps(c, state, a);
    FoldIsSteps(c, state, b);
    FoldSplits(c.poly, c.reflect, c.init, before, a);
    FoldSplits(c.poly, c.reflect, c.init, before, b);
    FoldSplits(c.poly, c.reflect, c.init, before + a, after);
    FoldSplits(c.poly, c.reflect, c.init, before + b, after);
  }

  ghost predicate SeesBursts(c: Crc)
    requires c.Ok()
  {
    forall before: seq<Byte>, a: seq<Byte>, b: seq<Byte>, after: seq<Byte> ::
      |a| == |b| && 8 * |a| <= |c.poly| && a != b ==> c.Compute(before + a + after) != c.Compute(before + b + after)
  }

  /** A CRC tells apart every two messages that differ only within a register's width of bytes exactly when its
      polynomial has the bit that makes a shift lose nothing. */
  lemma BurstsAreSeenExactlyWhenLossless(c: Crc)
    requires c.Ok()
    ensures SeesBursts(c) <==> c.Lossless()
  {
    if c.Lossless() {
      forall before: seq<Byte>, a: seq<Byte>, b: seq<Byte>, after: seq<Byte>
        | |a| == |b| && 8 * |a| <= |c.poly| && a != b
        ensures c.Compute(before + a + after) != c.Compute(before + b + after)
      {
        BurstsAreSeen(c, before, a, b, after);
      }
    } else {
      var a, b := LossyCrcsCollide(c, [], []);
      assert c.Compute([] + a + []) == c.Compute([] + b + []);
    }
  }

  // ---------------------------------------------------------------- the paired-byte sum

  /** `Sum16State`: the running sum, and a byte waiting for its pair. */
  datatype Sum16 = Sum16(sum: nat, half: Option<Byte>)

  const SUM16_INIT := Sum16(0, None)

  function Pair(be: bool, first: Byte, second: Byte): nat {
    if be then 256 * Nat(first) + Nat(second) else Nat(first) + 256 * Nat(second)
  }

  /** A pair is one 16-bit word, in either byte order. */
  lemma PairIsAWord(be: bool, first: Byte, second: Byte)
    ensures Pair(be, first, second) == Nat(if be then BeWord([first, second]) else LeWord([first, second]))
  {
    assert Pow2(8) == 256;
    hide Nat, Pow2;
    LeWordAppend([first], [second]);
    LeWordAppend([second], [first]);
    NatAppend(first, second);
    NatAppend(second, first);
    assert LeWord([first]) == first && LeWord([second]) == second;
    assert [first] + [second] == [first, second] && Reverse([first, second]) == [second] + [first];
  }

  /** One byte into the sum. */
  function Sum16Byte(be: bool, st: Sum16, b: Byte): Sum16 {
    if st.half.None? then Sum16(st.sum, Some(b))
    else Sum16((st.sum + Pair(be, st.half.value, b)) % 0x1_0000, None)
  }

  function Sum16Bytes(be: bool, st: Sum16, bytes: seq<Byte>): Sum16
    decreases |bytes|
  {
    if bytes == [] then st else Sum16Bytes(be, Sum16Byte(be, st, bytes[0]), bytes[1..])
  }

  /** `sum16_feed`: pairs first with the byte held from the run before, then two bytes at a time. */
  method Sum16Feed(be: bool, state: Sum16, bytes: seq<Byte>) returns (st: Sum16)
    ensures st == Sum16Bytes(be, state, bytes)
  {
    st := state;
    var at := 0;
    if st.half.Some? {
      if bytes == [] {
        return;
      }
      st := Sum16((st.sum + Pair(be, st.half.value, bytes[0])) % 0x1_0000, None);
      at := 1;
    }
    while at + 2 <= |bytes|
      invariant at <= |bytes| && st.half.None?
      invariant Sum16Bytes(be, state, bytes) == Sum16Bytes(be, st, bytes[at..])
    {
      TwoBytes(be, st, bytes[at..]);
      assert bytes[at..][2..] == bytes[at + 2..];
      st := st.(sum := (st.sum + Pair(be, bytes[at], bytes[at + 1])) % 0x1_0000);
      at := at + 2;
    }
    if at < |bytes| {
      assert bytes[at..] == [bytes[at]];
      st := st.(half := Some(bytes[at]));
    }
  }

  lemma TwoBytes(be: bool, st: Sum16, bytes: seq<Byte>)
    requires |bytes| >= 2 && st.half.None?
    ensures Sum16Bytes(be, st, bytes)
         == Sum16Bytes(be, Sum16((st.sum + Pair(be, bytes[0], bytes[1])) % 0x1_0000, None), bytes[2..])
  {
    assert bytes[1..][1..] == bytes[2..];
  }

  /** `sum16_close`. */
  function Sum16Close(be: bool, st: Sum16): nat {
    var sum := if st.half.None? then st.sum else (st.sum + Pair(be, st.half.value, Zeros(8))) % 0x1_0000;
    (0x1_0000 - sum % 0x1_0000) % 0x1_0000
  }

  /** The sum of a run's 16-bit words, the last padded with a zero byte. */
  function WordSum(be: bool, bytes: seq<Byte>): nat
    decreases |bytes|
  {
    if bytes == [] then 0
    else if |bytes| == 1 then Pair(be, bytes[0], Zeros(8))
    else Pair(be, bytes[0], bytes[1]) + WordSum(be, bytes[2..])
  }

  lemma {:induction false} Sum16Splits(be: bool, st: Sum16, a: seq<Byte>, b: seq<Byte>)
    ensures Sum16Bytes(be, st, a + b) == Sum16Bytes(be, Sum16Bytes(be, st, a), b)
    decreases |a|
  {
    if a == [] {
      assert a + b == b;
    } else {
      assert (a + b)[0] == a[0] && (a + b)[1..] == a[1..] + b;
      Sum16Splits(be, Sum16Byte(be, st, a[0]), a[1..], b);
    }
  }

  /** A block's words and its check value sum to zero, whatever the sum began at. */
  lemma {:induction false} SumsToZeroFrom(be: bool, sum: nat, bytes: seq<Byte>)
    ensures (Sum16Close(be, Sum16Bytes(be, Sum16(sum, None), bytes)) + sum + WordSum(be, bytes)) % 0x1_0000 == 0
    decreases |bytes|
  {
    hide Pair, Sum16Close;
    var st := Sum16(sum, None);
    if |bytes| == 1 {
      assert bytes[1..] == [];
      assert Sum16Bytes(be, st, bytes) == Sum16(sum, Some(bytes[0]));
      CloseCancels(be, Sum16(sum, Some(bytes[0])));
    } else if |bytes| >= 2 {
      var pair := Pair(be, bytes[0], bytes[1]);
      TwoBytes(be, st, bytes);
      SumsToZeroFrom(be, (sum + pair) % 0x1_0000, bytes[2..]);
      ModShift(Sum16Close(be, Sum16Bytes(be, st, bytes)), sum + pair, WordSum(be, bytes[2..]));
    } else {
      CloseCancels(be, st);
    }
  }

  lemma CloseCancels(be: bool, st: Sum16)
    ensures (Sum16Close(be, st) + st.sum + if st.half.Some? then Pair(be, st.half.value, Zeros(8)) else 0)
      % 0x1_0000 == 0
  {
    hide Pair;
    NegCancels(st.sum + if st.half.Some? then Pair(be, st.half.value, Zeros(8)) else 0);
  }

  lemma NegCancels(x: nat)
    ensures ((0x1_0000 - x % 0x1_0000) % 0x1_0000 + x) % 0x1_0000 == 0
  {
  }

  lemma ModShift(a: nat, x: nat, b: nat)
    requires (a + x % 0x1_0000 + b) % 0x1_0000 == 0
    ensures (a + x + b) % 0x1_0000 == 0
  {
  }

  /** `Sum16Neg` undoes its block: words and check value add up to a multiple of 2^16. */
  lemma BlockAndCheckSumToZero(be: bool, bytes: seq<Byte>)
    ensures (Sum16Close(be, Sum16Bytes(be, SUM16_INIT, bytes)) + WordSum(be, bytes)) % 0x1_0000 == 0
  {
    SumsToZeroFrom(be, 0, bytes);
  }

  // ---------------------------------------------------------------- any split into runs

  function Flat(runs: seq<seq<Byte>>): seq<Byte> {
    if runs == [] then [] else runs[0] + Flat(runs[1..])
  }

  function CrcRuns(c: Crc, crc: Bits, runs: seq<seq<Byte>>): (next: Bits)
    requires c.Ok() && |crc| == |c.poly|
    ensures |next| == |c.poly|
    decreases |runs|
  {
    if runs == [] then crc else CrcRuns(c, Fold(c.poly, c.reflect, crc, runs[0]), runs[1..])
  }

  function Sum16Runs(be: bool, st: Sum16, runs: seq<seq<Byte>>): Sum16
    decreases |runs|
  {
    if runs == [] then st else Sum16Runs(be, Sum16Bytes(be, st, runs[0]), runs[1..])
  }

  /** Feeding a checksum any split of its bytes into runs is feeding it the bytes. */
  lemma {:induction false} RunsAreTheirConcatenation(c: Crc, crc: Bits, be: bool, st: Sum16, runs: seq<seq<Byte>>)
    requires c.Ok() && |crc| == |c.poly|
    ensures CrcRuns(c, crc, runs) == Fold(c.poly, c.reflect, crc, Flat(runs))
    ensures Sum16Runs(be, st, runs) == Sum16Bytes(be, st, Flat(runs))
    decreases |runs|
  {
    if runs == [] {
    } else {
      RunsAreTheirConcatenation(c, Fold(c.poly, c.reflect, crc, runs[0]), be, Sum16Bytes(be, st, runs[0]), runs[1..]);
      FoldSplits(c.poly, c.reflect, crc, runs[0], Flat(runs[1..]));
      Sum16Splits(be, st, runs[0], Flat(runs[1..]));
    }
  }
}
