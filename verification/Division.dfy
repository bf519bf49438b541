/** A CRC is a remainder: polynomials over GF(2), multiplied out by themselves, and what `crc_fold` leaves of them. */
module Division {
  import opened Words
  import opened Checksum

  // ---------------------------------------------------------------- polynomials

  /** The carry-less product of two polynomials, each a sequence of coefficients from `x^0` up: a copy of `g` added in
      for every power that `q` has. */
  function Product(q: Bits, g: Bits): (p: Bits)
    requires g != []
    ensures |p| == |q| + |g| - 1
  {
    if q == [] then Zeros(|g| - 1)
    else
      var n := |q| - 1;
      Xor(Product(q[..n], g) + [false], Zeros(n) + if q[n] then g else Zeros(|g|))
  }

  /** `x^n` times a polynomial. */
  function Raised(p: Bits, n: nat): (r: Bits)
    ensures |r| == n + |p|
  {
    Zeros(n) + p
  }

  lemma ProductNext(q: Bits, top: bool, g: Bits)
    requires g != []
    ensures Product(q + [top], g) == Xor(Product(q, g) + [false], Zeros(|q|) + if top then g else Zeros(|g|))
  {
    assert (q + [top])[..|q|] == q;
  }

  lemma AddNothing(a: Bits, n: nat)
    requires n <= |a|
    ensures Xor(a + Zeros(0), Raised(Zeros(|a| - n), n)) == a
  {
  }

  lemma {:induction false} ProductAppend(low: Bits, high: Bits, g: Bits)
    requires g != []
    ensures Product(low + high, g) == Xor(Product(low, g) + Zeros(|high|), Raised(Product(high, g), |low|))
  {
    if high == [] {
      assert low + high == low;
      AddNothing(Product(low, g), |low|);
    } else {
      hide Product, Xor, Zeros, Raised;
      var n := |high| - 1;
      assert low + high == (low + high[..n]) + [high[n]] && high == high[..n] + [high[n]];
      ProductAppend(low, high[..n], g);
      ProductNext(low + high[..n], high[n], g);
      ProductNext(high[..n], high[n], g);
      var top := if high[n] then g else Zeros(|g|);
      AppendOneMore(Product(low, g), Product(high[..n], g), top, |low|, n);
    }
  }

  lemma AppendOneMore(a: Bits, b: Bits, top: Bits, l: nat, n: nat)
    requires top != [] && |a| == l + |top| - 1 && |b| == n + |top| - 1
    ensures Xor(Xor(a + Zeros(n), Raised(b, l)) + [false], Zeros(l + n) + top)
         == Xor(a + Zeros(n + 1), Raised(Xor(b + [false], Zeros(n) + top), l))
  {
  }

  // ---------------------------------------------------------------- steps of the register

  /** One shift multiplies the register by `x` and takes away `x^W + poly` when `x^W` appears. */
  lemma StepDivides(poly: Bits, crc: Bits)
    requires |crc| == |poly| >= 1
    ensures Raised(crc, 1) ==
      Xor(StepLeft(poly, crc) + [false], if crc[|crc| - 1] then poly + [true] else Zeros(|poly| + 1))
  {
  }

  /** `n` shifts multiply the register by `x^n`, but for a multiple of `x^W + poly`. */
  lemma {:induction false} StepsDivide(poly: Bits, crc: Bits, n: nat) returns (q: Bits)
    requires |crc| == |poly| >= 1
    ensures |q| == n
    ensures Raised(crc, n) == Xor(Steps(poly, false, crc, n) + Zeros(n), Product(q, poly + [true]))
    decreases n
  {
    var g := poly + [true];
    if n == 0 {
      q := [];
      assert Product([], g) == Zeros(|poly|);
    } else {
      var top := crc[|crc| - 1];
      var rest := StepsDivide(poly, StepLeft(poly, crc), n - 1);
      q := rest + [top];
      StepDivides(poly, crc);
      ProductNext(rest, top, g);
      StepJoins(Steps(poly, false, crc, n), StepLeft(poly, crc), crc, if top then g else Zeros(|g|), Product(rest, g),
                n - 1);
    }
  }

  lemma StepJoins(last: Bits, next: Bits, crc: Bits, copy: Bits, product: Bits, n: nat)
    requires |last| == |next| == |crc| >= 1 && |copy| == |crc| + 1 && |product| == n + |crc|
    requires Raised(crc, 1) == Xor(next + [false], copy)
    requires Raised(next, n) == Xor(last + Zeros(n), product)
    ensures Raised(crc, n + 1) == Xor(last + Zeros(n + 1), Xor(product + [false], Zeros(n) + copy))
  {
    var left, right := Raised(crc, n + 1), Xor(last + Zeros(n + 1), Xor(product + [false], Zeros(n) + copy));
    forall i | 0 <= i < |left| ensures left[i] == right[i] {
      if i >= n {
        assert Raised(crc, 1)[i - n] == Xor(next + [false], copy)[i - n];
        assert left[i] == Raised(crc, 1)[i - n];
      }
      if i < n + |crc| {
        assert Raised(next, n)[i] == Xor(last + Zeros(n), product)[i];
      }
    }
  }

  // ---------------------------------------------------------------- bytes

  /** What division starts from: the register above the message, and the message raised by the register's width. */
  function Dividend(register: Bits, message: Bits): (d: Bits)
    ensures |d| == |register| + |message|
  {
    Xor(Raised(register, |message|), Raised(message, |register|))
  }

  lemma ByteDivides(poly: Bits, crc: Bits, b: Byte) returns (q: Bits)
    requires |crc| == |poly| >= 8
    ensures |q| == 8
    ensures Dividend(crc, b) == Xor(FoldByte(poly, false, crc, b) + Zeros(8), Product(q, poly + [true]))
  {
    hide Steps, Product;
    var entering := Entering(b, |poly|, false);
    q := StepsDivide(poly, Xor(crc, entering), 8);
    EnteringIsHigh(b, |poly|);
    assert Raised(Xor(crc, entering), 8) == Dividend(crc, b);
  }

  lemma EnteringIsHigh(b: Byte, width: nat)
    requires width >= 8
    ensures Entering(b, width, false) == Zeros(width - 8) + b
  {
  }

  lemma BeWordCons(b: Byte, rest: seq<Byte>)
    ensures BeWord([b] + rest) == BeWord(rest) + b
  {
    assert Reverse([b] + rest) == Reverse(rest) + [b];
    LeWordAppend(Reverse(rest), [b]);
    assert LeWord([b]) == b;
  }

  /** Folding a message leaves the remainder of its division by `x^W + poly`, the highest power first in. */
  lemma {:induction false} FoldDivides(poly: Bits, crc: Bits, bytes: seq<Byte>) returns (q: Bits)
    requires |crc| == |poly| >= 8
    ensures |q| == 8 * |bytes|
    ensures Dividend(crc, BeWord(bytes))
         == Xor(Fold(poly, false, crc, bytes) + Zeros(8 * |bytes|), Product(q, poly + [true]))
    decreases |bytes|
  {
    hide FoldByte;
    if bytes == [] {
      q := [];
      assert BeWord(bytes) == [];
    } else {
      hide Product, Fold, BeWord;
      var b, rest, n := bytes[0], bytes[1..], 8 * (|bytes| - 1);
      var next := FoldByte(poly, false, crc, b);
      var high := ByteDivides(poly, crc, b);
      var low := FoldDivides(poly, next, rest);
      q := low + high;
      assert bytes == [b] + rest;
      FoldNext(poly, crc, bytes);
      BeWordCons(b, rest);
      ProductAppend(low, high, poly + [true]);
      BytesJoin(crc, next, Fold(poly, false, next, rest), BeWord(rest), b, Product(low, poly + [true]),
                Product(high, poly + [true]), n);
    }
  }

  lemma FoldNext(poly: Bits, crc: Bits, bytes: seq<Byte>)
    requires |crc| == |poly| >= 8 && bytes != []
    ensures Fold(poly, false, crc, bytes) == Fold(poly, false, FoldByte(poly, false, crc, bytes[0]), bytes[1..])
  {
  }

  lemma BytesJoin(crc: Bits, next: Bits, last: Bits, rest: Bits, b: Byte, low: Bits, high: Bits, n: nat)
    requires |crc| == |next| == |last| && |rest| == n && |low| == n + |crc| && |high| == 8 + |crc|
    requires Dividend(crc, b) == Xor(next + Zeros(8), high)
    requires Dividend(next, rest) == Xor(last + Zeros(n), low)
    ensures Dividend(crc, rest + b) == Xor(last + Zeros(n + 8), Xor(low + Zeros(8), Raised(high, n)))
  {
    var left, right := Dividend(crc, rest + b), Xor(last + Zeros(n + 8), Xor(low + Zeros(8), Raised(high, n)));
    forall i | 0 <= i < |left| ensures left[i] == right[i] {
      if i >= n {
        assert Dividend(crc, b)[i - n] == Xor(next + Zeros(8), high)[i - n];
      }
      if i < n + |crc| {
        assert Dividend(next, rest)[i] == Xor(last + Zeros(n), low)[i];
      }
    }
  }

  // ---------------------------------------------------------------- one remainder

  lemma XorCancelsBoth(a: Bits, b: Bits, c: Bits)
    requires |a| == |b| == |c|
    ensures Xor(a, b) == Xor(a, c) ==> b == c
    ensures Xor(b, a) == Xor(c, a) ==> b == c
  {
    forall i | 0 <= i < |a|
      ensures Xor(a, b) == Xor(a, c) ==> b[i] == c[i]
      ensures Xor(b, a) == Xor(c, a) ==> b[i] == c[i]
    {
      assert Xor(a, b)[i] == (a[i] != b[i]) && Xor(a, c)[i] == (a[i] != c[i]);
      assert Xor(b, a)[i] == (a[i] != b[i]) && Xor(c, a)[i] == (a[i] != c[i]);
    }
  }

  predicate AgreeFrom(a: Bits, b: Bits, from: nat)
    requires |a| == |b|
  {
    forall i :: from <= i < |a| ==> a[i] == b[i]
  }

  /** Two multiples of a polynomial with a leading one that agree above its other powers are the same. */
  lemma {:induction false} ProductsDiffer(q: Bits, r: Bits, poly: Bits)
    requires |q| == |r|
    requires AgreeFrom(Product(q, poly + [true]), Product(r, poly + [true]), |poly|)
    ensures q == r
    decreases |q|
  {
    var g := poly + [true];
    if q == [] {
    } else {
      hide Product, Zeros, Xor, AgreeFrom;
      var n := |q| - 1;
      assert q == q[..n] + [q[n]] && r == r[..n] + [r[n]];
      ProductNext(q[..n], q[n], g);
      ProductNext(r[..n], r[n], g);
      TopsAgree(Product(q[..n], g), Product(r[..n], g), q[n], r[n], poly, n);
      ProductsDiffer(q[..n], r[..n], poly);
    }
  }

  /** Where two sums agree above `poly`, so do their highest copies of it and what those were added to. */
  lemma TopsAgree(a: Bits, b: Bits, x: bool, y: bool, poly: Bits, n: nat)
    requires |a| == |b| == n + |poly|
    requires var g := poly + [true];
      AgreeFrom(Xor(a + [false], Zeros(n) + if x then g else Zeros(|g|)),
                Xor(b + [false], Zeros(n) + if y then g else Zeros(|g|)), |poly|)
    ensures x == y && AgreeFrom(a, b, |poly|)
  {
    var g := poly + [true];
    var p, s := Zeros(n) + (if x then g else Zeros(|g|)), Zeros(n) + if y then g else Zeros(|g|);
    var u, v := Xor(a + [false], p), Xor(b + [false], s);
    assert u[n + |poly|] == x && v[n + |poly|] == y;
    forall i | |poly| <= i < |a| ensures a[i] == b[i] {
      assert u[i] == v[i] && u[i] == (a[i] != p[i]) && v[i] == (b[i] != s[i]);
    }
  }

  /** Nothing else of the register's width is a remainder. */
  lemma RemaindersAreUnique(poly: Bits, dividend: Bits, a: Bits, b: Bits, q: Bits, r: Bits)
    requires |a| == |b| == |poly| && |dividend| == |poly| + |q| && |q| == |r|
    requires dividend == Xor(a + Zeros(|q|), Product(q, poly + [true]))
    requires dividend == Xor(b + Zeros(|q|), Product(r, poly + [true]))
    ensures a == b && q == r
  {
    hide Product;
    LowPartsOnly(a, b, Product(q, poly + [true]), Product(r, poly + [true]), |q|);
    ProductsDiffer(q, r, poly);
    XorCancelsBoth(Product(q, poly + [true]), a + Zeros(|q|), b + Zeros(|q|));
    assert a == (a + Zeros(|q|))[..|a|] && b == (b + Zeros(|q|))[..|b|];
  }

  lemma LowPartsOnly(a: Bits, b: Bits, p: Bits, s: Bits, n: nat)
    requires |a| == |b| && |p| == |s| == |a| + n && Xor(a + Zeros(n), p) == Xor(b + Zeros(n), s)
    ensures AgreeFrom(p, s, |a|)
  {
    forall i | |a| <= i < |p| ensures p[i] == s[i] {
      assert Xor(a + Zeros(n), p)[i] == p[i] && Xor(b + Zeros(n), s)[i] == s[i];
    }
  }

  // ---------------------------------------------------------------- a catalogue CRC

  /** A register or polynomial with its highest power last, which a reflected CRC has first. */
  function Upright(c: Crc, w: Bits): (r: Bits)
    ensures |r| == |w|
  {
    if c.reflect then Reverse(w) else w
  }

  /** The message as a polynomial: the first bit in is the highest power. A reflected CRC takes a byte's low bit
      first. */
  function Polynomial(c: Crc, message: seq<Byte>): (p: Bits)
    ensures |p| == 8 * |message|
  {
    if c.reflect then Reverse(LeWord(message)) else BeWord(message)
  }

  /** `r` is what dividing the message, with the initial register above it, by the CRC's polynomial leaves. */
  ghost predicate IsRemainder(c: Crc, message: seq<Byte>, r: Bits)
    requires c.Ok() && |r| == |c.poly|
  {
    exists q: Bits :: |q| == 8 * |message| && DividesTo(c, message, r, q)
  }

  predicate DividesTo(c: Crc, message: seq<Byte>, r: Bits, q: Bits)
    requires c.Ok() && |r| == |c.poly| && |q| == 8 * |message|
  {
    Dividend(Upright(c, c.init), Polynomial(c, message))
      == Xor(Upright(c, r) + Zeros(|q|), Product(q, Upright(c, c.poly) + [true]))
  }

  /** A CRC is exactly the remainder, with the final word added in. */
  lemma CrcIsTheRemainder(c: Crc, message: seq<Byte>, crc: Bits)
    requires c.Ok() && |crc| == |c.poly|
    ensures crc == c.Compute(message) <==> IsRemainder(c, message, Xor(crc, c.xorout))
  {
    hide Fold, Product, Reverse, LeWord, Xor;
    var folded := Fold(c.poly, c.reflect, c.init, message);
    var q := FoldedDivides(c, message);
    XorTwice(folded, c.xorout);
    XorTwice(crc, c.xorout);
    if crc == c.Compute(message) {
      assert DividesTo(c, message, Xor(crc, c.xorout), q);
    }
    if IsRemainder(c, message, Xor(crc, c.xorout)) {
      var s :| |s| == 8 * |message| && DividesTo(c, message, Xor(crc, c.xorout), s);
      RemaindersAreUnique(Upright(c, c.poly), Dividend(Upright(c, c.init), Polynomial(c, message)),
                          Upright(c, folded), Upright(c, Xor(crc, c.xorout)), q, s);
      ReverseTwice(folded);
      ReverseTwice(Xor(crc, c.xorout));
    }
  }

  lemma XorTwice(a: Bits, b: Bits)
    requires |a| == |b|
    ensures Xor(Xor(a, b), b) == a
  {
  }

  lemma FoldedDivides(c: Crc, message: seq<Byte>) returns (q: Bits)
    requires c.Ok()
    ensures |q| == 8 * |message| && DividesTo(c, message, Fold(c.poly, c.reflect, c.init, message), q)
  {
    if c.reflect {
      hide Fold, Product, Reverse, LeWord, Xor, RevBytes;
      FoldMirrors(Reverse(c.poly), Reverse(c.init), RevBytes(message));
      ReverseTwice(c.poly);
      ReverseTwice(c.init);
      RevBytesTwice(message);
      ReverseTwice(Fold(Reverse(c.poly), false, Reverse(c.init), RevBytes(message)));
      WordOfReversed(message);
      q := FoldDivides(Reverse(c.poly), Reverse(c.init), RevBytes(message));
    } else {
      q := FoldDivides(c.poly, c.init, message);
    }
  }

  lemma WordOfReversed(bytes: seq<Byte>)
    ensures BeWord(RevBytes(bytes)) == Reverse(LeWord(bytes))
  {
    LinedIsWord(RevBytes(bytes), 8 * |bytes|);
    LinedIsWord(bytes, 8 * |bytes|);
    LinedMirrors(RevBytes(bytes), 8 * |bytes|);
    RevBytesTwice(bytes);
    ReverseTwice(BeWord(RevBytes(bytes)));
  }
}
