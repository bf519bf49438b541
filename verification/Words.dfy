/** Machine words as their bits, least significant first: a `u8` is eight booleans, a `u64` sixty-four. */
module Words {
  type Bits = seq<bool>

  type Byte = b: Bits | |b| == 8 witness [false, false, false, false, false, false, false, false]

  type U64 = w: Bits | |w| == 64 witness Zeros(64)

  datatype Option<+T> = None | Some(value: T)

  datatype Result<+T, +E> = Ok(value: T) | Err(error: E)

  datatype Endian = Le | Be

  function Zeros(n: nat): (r: Bits)
    ensures |r| == n
  {
    seq(n, _ => false)
  }

  /** The low `n` bits set in a word of `width` bits. */
  function LowMask(n: nat, width: nat): (r: Bits)
    ensures |r| == width
  {
    seq(width, i => i < n)
  }

  /** `w >> k`, keeping the word's width. */
  function Shr(w: Bits, k: nat): (r: Bits)
    ensures |r| == |w|
  {
    seq(|w|, i requires 0 <= i < |w| => i + k < |w| && w[i + k])
  }

  /** `w << k`, dropping what leaves the word. */
  function Shl(w: Bits, k: nat): (r: Bits)
    ensures |r| == |w|
  {
    seq(|w|, i requires 0 <= i < |w| => i >= k && w[i - k])
  }

  /** `w >> k` on a signed word: the sign bit fills in. */
  function Sar(w: Bits, k: nat): (r: Bits)
    requires |w| > 0
    ensures |r| == |w|
  {
    seq(|w|, i requires 0 <= i < |w| => if i + k < |w| then w[i + k] else w[|w| - 1])
  }

  function And(a: Bits, b: Bits): (r: Bits)
    requires |a| == |b|
    ensures |r| == |a|
  {
    seq(|a|, i requires 0 <= i < |a| => a[i] && b[i])
  }

  function Or(a: Bits, b: Bits): (r: Bits)
    requires |a| == |b|
    ensures |r| == |a|
  {
    seq(|a|, i requires 0 <= i < |a| => a[i] || b[i])
  }

  function Xor(a: Bits, b: Bits): (r: Bits)
    requires |a| == |b|
    ensures |r| == |a|
  {
    seq(|a|, i requires 0 <= i < |a| => a[i] != b[i])
  }

  function Not(a: Bits): (r: Bits)
    ensures |r| == |a|
  {
    seq(|a|, i requires 0 <= i < |a| => !a[i])
  }

  /** `w as` an unsigned type of `width` bits: zero-extended or truncated. */
  function Resize(w: Bits, width: nat): (r: Bits)
    ensures |r| == width
  {
    seq(width, i => 0 <= i < |w| && w[i])
  }

  /** `s` with `part` written over it from `at`. */
  function Replaced<T>(s: seq<T>, at: nat, part: seq<T>): (r: seq<T>)
    requires at + |part| <= |s|
    ensures |r| == |s|
  {
    s[..at] + part + s[at + |part|..]
  }

  /** What a run of writes, each to a numbered place, last wrote to place `i`. */
  function LastWrite<T>(writes: seq<(nat, T)>, i: nat): Option<T> {
    if writes == [] then None
    else
      var n := |writes| - 1;
      if writes[n].0 == i then Some(writes[n].1) else LastWrite(writes[..n], i)
  }

  const U64_MAX: nat := 0xFFFF_FFFF_FFFF_FFFF

  function Min(a: nat, b: nat): nat {
    if a < b then a else b
  }

  function Pow2(n: nat): (p: nat)
    ensures p >= 1
  {
    if n == 0 then 1 else 2 * Pow2(n - 1)
  }

  predicate IsU64(v: int) {
    0 <= v < Pow2(64)
  }

  /** The unsigned integer a word holds. */
  function Nat(w: Bits): nat {
    if w == [] then 0 else (if w[0] then 1 else 0) + 2 * Nat(w[1..])
  }

  /** The low `width` bits of `n`. */
  function Of(n: nat, width: nat): (w: Bits)
    ensures |w| == width
  {
    if width == 0 then [] else [n % 2 == 1] + Of(n / 2, width - 1)
  }

  /** The word whose bytes these are, first byte lowest: `from_le_bytes`. */
  function LeWord(bytes: seq<Byte>): (w: Bits)
    ensures |w| == 8 * |bytes|
  {
    seq(8 * |bytes|, i requires 0 <= i < 8 * |bytes| => bytes[i / 8][i % 8])
  }

  function Reverse<T>(s: seq<T>): (r: seq<T>)
    ensures |r| == |s|
  {
    seq(|s|, i requires 0 <= i < |s| => s[|s| - 1 - i])
  }

  /** The word whose bytes these are, last byte lowest: `from_be_bytes`. */
  function BeWord(bytes: seq<Byte>): (w: Bits)
    ensures |w| == 8 * |bytes|
  {
    LeWord(Reverse(bytes))
  }

  function LeBytes(w: Bits): (bytes: seq<Byte>)
    requires |w| % 8 == 0
    ensures |bytes| == |w| / 8
  {
    seq(|w| / 8, i requires 0 <= i < |w| / 8 => w[8 * i..8 * i + 8])
  }

  function BeBytes(w: Bits): (bytes: seq<Byte>)
    requires |w| % 8 == 0
    ensures |bytes| == |w| / 8
  {
    Reverse(LeBytes(w))
  }

  function ZeroBytes(n: nat): (z: seq<Byte>)
    ensures |z| == n
  {
    seq(n, _ => Zeros(8))
  }

  lemma LeWordAt(bytes: seq<Byte>, c: nat, b: nat)
    requires c < |bytes| && b < 8
    ensures LeWord(bytes)[8 * c + b] == bytes[c][b]
  {
  }

  lemma LeWordAppend(a: seq<Byte>, b: seq<Byte>)
    ensures LeWord(a + b) == LeWord(a) + LeWord(b)
  {
    var joined := LeWord(a) + LeWord(b);
    forall i | 0 <= i < |joined| ensures LeWord(a + b)[i] == joined[i] {
      if i >= 8 * |a| {
        assert (i - 8 * |a|) / 8 == i / 8 - |a| && (i - 8 * |a|) % 8 == i % 8;
      }
    }
  }

  lemma LeWordSlice(bytes: seq<Byte>, from: nat, to: nat)
    requires from <= to <= |bytes|
    ensures LeWord(bytes[from..to]) == LeWord(bytes)[8 * from..8 * to]
  {
    var a, b, c := bytes[..from], bytes[from..to], bytes[to..];
    assert bytes == a + (b + c);
    LeWordAppend(a, b + c);
    LeWordAppend(b, c);
  }

  lemma LeWordZeros(n: nat)
    ensures LeWord(ZeroBytes(n)) == Zeros(8 * n)
  {
  }

  lemma LeWordBytes(w: Bits)
    requires |w| % 8 == 0
    ensures LeWord(LeBytes(w)) == w
  {
    forall i | 0 <= i < |w| ensures LeWord(LeBytes(w))[i] == w[i] {
      assert i == 8 * (i / 8) + i % 8;
    }
  }

  lemma LeBytesWord(bytes: seq<Byte>)
    ensures LeBytes(LeWord(bytes)) == bytes
  {
    forall i | 0 <= i < |bytes| ensures LeBytes(LeWord(bytes))[i] == bytes[i] {
      forall k | 0 <= k < 8 ensures LeBytes(LeWord(bytes))[i][k] == bytes[i][k] {
        LeWordAt(bytes, i, k);
      }
    }
  }

  lemma ReverseTwice<T>(s: seq<T>)
    ensures Reverse(Reverse(s)) == s
  {
  }

  lemma WordBytes(w: Bits)
    requires |w| % 8 == 0
    ensures LeWord(LeBytes(w)) == w && BeWord(BeBytes(w)) == w
  {
    LeWordBytes(w);
    ReverseTwice(LeBytes(w));
  }

  lemma BytesWord(bytes: seq<Byte>)
    ensures LeBytes(LeWord(bytes)) == bytes && BeBytes(BeWord(bytes)) == bytes
  {
    LeBytesWord(bytes);
    LeBytesWord(Reverse(bytes));
    ReverseTwice(bytes);
  }

  // ---------------------------------------------------------------- words as integers

  lemma {:induction false} NatBound(w: Bits)
    ensures Nat(w) < Pow2(|w|)
  {
    if w == [] {
    } else {
      NatBound(w[1..]);
    }
  }

  lemma {:induction false} NatAppend(a: Bits, b: Bits)
    ensures Nat(a + b) == Nat(a) + Pow2(|a|) * Nat(b)
  {
    if a == [] {
      assert a + b == b;
    } else {
      assert (a + b)[1..] == a[1..] + b;
      NatAppend(a[1..], b);
      TwiceTimes(Pow2(|a| - 1), Nat(b));
    }
  }

  lemma AppendAssoc<T>(a: seq<T>, b: seq<T>, c: seq<T>)
    ensures a + (b + c) == (a + b) + c
  {
  }

  lemma MulGrows(a: nat, b: nat)
    requires b >= 1
    ensures a * b >= a
  {
  }

  lemma TwiceTimes(a: nat, b: nat)
    ensures (2 * a) * b == 2 * (a * b)
  {
  }

  lemma {:induction false} NatOfZeros(n: nat)
    ensures Nat(Zeros(n)) == 0
  {
    if n == 0 {
    } else {
      assert Zeros(n)[1..] == Zeros(n - 1);
      NatOfZeros(n - 1);
    }
  }

  lemma {:induction false} NatOf(n: nat, width: nat)
    requires n < Pow2(width)
    ensures Nat(Of(n, width)) == n
  {
    if width == 0 {
    } else {
      NatOf(n / 2, width - 1);
      assert Of(n, width)[1..] == Of(n / 2, width - 1);
    }
  }

  lemma {:induction false} OfNat(w: Bits)
    ensures Of(Nat(w), |w|) == w
  {
    if w == [] {
    } else {
      OfNat(w[1..]);
    }
  }

  lemma {:induction false} NatZeroExactly(w: Bits)
    ensures Nat(w) == 0 <==> forall j :: 0 <= j < |w| ==> !w[j]
  {
    if w == [] {
    } else {
      NatZeroExactly(w[1..]);
      if Nat(w) == 0 {
        forall j | 0 <= j < |w| ensures !w[j] {
          assert j > 0 ==> w[j] == w[1..][j - 1];
        }
      }
    }
  }

  /** A word is below `2^k` exactly when it has nothing set from bit `k` on. */
  lemma NatBelow(w: Bits, k: nat)
    ensures Nat(w) < Pow2(k) <==> forall j :: k <= j < |w| ==> !w[j]
  {
    hide Nat, Pow2;
    if |w| <= k {
      NatBound(w);
      Pow2Grows(|w|, k);
    } else {
      assert w == w[..k] + w[k..];
      NatAppend(w[..k], w[k..]);
      NatBound(w[..k]);
      NatZeroExactly(w[k..]);
      if j :| k <= j < |w| && w[j] {
        assert w[k..][j - k];
        MulGrows(Pow2(k), Nat(w[k..]));
      }
    }
  }

  lemma NatResize(w: Bits, width: nat)
    requires |w| <= width
    ensures Nat(Resize(w, width)) == Nat(w)
  {
    hide Nat, Pow2;
    assert Resize(w, width) == w + Zeros(width - |w|);
    NatAppend(w, Zeros(width - |w|));
    NatOfZeros(width - |w|);
  }

  lemma {:induction false} Pow2Adds(a: nat, b: nat)
    ensures Pow2(a + b) == Pow2(a) * Pow2(b)
  {
    if a == 0 {
    } else {
      Pow2Adds(a - 1, b);
      assert 2 * (Pow2(a - 1) * Pow2(b)) == (2 * Pow2(a - 1)) * Pow2(b);
    }
  }

  lemma {:induction false} Pow2Grows(a: nat, b: nat)
    requires a <= b
    ensures Pow2(a) <= Pow2(b)
    ensures a < b ==> 2 * Pow2(a) <= Pow2(b)
    decreases b
  {
    if a == b {
    } else {
      Pow2Grows(a, b - 1);
    }
  }

  // ---------------------------------------------------------------- signed words

  /** The two's complement integer a word holds. */
  function Int(w: Bits): int
    requires w != []
  {
    Nat(w) - if w[|w| - 1] then Pow2(|w|) else 0
  }

  /** The word of `width` bits that holds `v`, in two's complement. */
  function Signed(v: int, width: nat): (w: Bits)
    requires width >= 1 && InRange(v, width)
    ensures |w| == width
  {
    Of(if v >= 0 then v else v + Pow2(width), width)
  }

  lemma IntSigned(v: int, width: nat)
    requires width >= 1 && InRange(v, width)
    ensures Int(Signed(v, width)) == v
  {
    hide Of, Nat;
    var n := if v >= 0 then v else v + Pow2(width);
    NatOf(n, width);
    var w := Of(n, width);
    IntTop(w);
    assert w == w[..width - 1] + [w[width - 1]];
    NatAppend(w[..width - 1], [w[width - 1]]);
    NatOne(w[width - 1]);
  }

  lemma IntAppend(a: Bits, b: Bits)
    requires b != []
    ensures Int(a + b) == Nat(a) + Pow2(|a|) * Int(b)
  {
    hide Nat, Pow2;
    NatAppend(a, b);
    if b[|b| - 1] {
      Pow2Adds(|a|, |b|);
      Distributes(Pow2(|a|), Nat(b), Pow2(|b|));
    }
  }

  lemma Distributes(x: int, y: int, z: int)
    ensures x * y - x * z == x * (y - z)
  {
  }

  lemma IntTop(w: Bits)
    requires w != []
    ensures var n := |w| - 1;
      Int(w) == Nat(w[..n]) - (if w[n] then Pow2(n) else 0) && Nat(w[..n]) < Pow2(n)
  {
    var n := |w| - 1;
    assert w == w[..n] + [w[n]];
    NatAppend(w[..n], [w[n]]);
    NatBound(w[..n]);
    assert Nat([w[n]]) == if w[n] then 1 else 0;
  }

  /** A repeated top bit adds nothing. */
  lemma IntDropTop(w: Bits)
    requires |w| >= 2 && w[|w| - 1] == w[|w| - 2]
    ensures Int(w) == Int(w[..|w| - 1])
  {
    hide Nat;
    IntTop(w);
    IntTop(w[..|w| - 1]);
  }

  /** `WireInt::to_i64`: a `u64` saturates. */
  function ToI64(signed: bool, bits: Bits): int
    requires bits != []
  {
    if signed then Int(bits) else if Nat(bits) < Pow2(63) then Nat(bits) else Pow2(63) - 1
  }

  predicate InBounds(v: int, range: (int, int)) {
    range.0 <= v <= range.1
  }

  /** The number a word is. */
  function Quantity(signed: bool, bits: Bits): int
    requires bits != []
  {
    if signed then Int(bits) else Nat(bits)
  }

  /** What an `i64` holds of it: a `u64` beyond counts as the greatest. */
  function Saturated(v: int): int {
    if v < Pow2(63) then v else Pow2(63) - 1
  }

  lemma ToI64Means(signed: bool, bits: Bits)
    requires 1 <= |bits| && (signed ==> |bits| <= 64)
    ensures ToI64(signed, bits) == Saturated(Quantity(signed, bits))
  {
    if signed {
      hide Nat, Int, Pow2;
      SignedBound(bits);
      Pow2Grows(|bits| - 1, 63);
    }
  }

  lemma SignedBound(w: Bits)
    requires w != []
    ensures InRange(Int(w), |w|)
  {
    hide Int, InRange;
    FitsSigned(w, |w|);
  }

  /** What a signed word of `width` bits can hold. */
  predicate InRange(v: int, width: nat)
    requires width >= 1
  {
    v < Pow2(width - 1) && -1 - v < Pow2(width - 1)
  }

  /** A word fits `width` signed bits exactly when every bit from the top one of those repeats it, and then its
      low bits are its value. */
  lemma {:induction false} FitsSigned(w: Bits, width: nat)
    requires 1 <= width <= |w|
    ensures InRange(Int(w), width) <==> forall j :: width - 1 <= j < |w| ==> w[j] == w[width - 1]
    ensures InRange(Int(w), width) ==> Int(w[..width]) == Int(w)
    decreases |w|
  {
    hide Nat, Pow2;
    var n := |w| - 1;
    if |w| == width {
      assert w[..width] == w;
      IntTop(w);
    } else if w[n] == w[n - 1] {
      IntDropTop(w);
      FitsSigned(w[..n], width);
      assert w[..n][..width] == w[..width];
      forall j | width - 1 <= j < n ensures w[..n][j] == w[j] {
      }
    } else {
      TopsDiffer(w, width);
      assert !(w[n] == w[width - 1] && w[n - 1] == w[width - 1]);
    }
  }

  /** Two different top bits make a value too large for one bit fewer. */
  lemma TopsDiffer(w: Bits, width: nat)
    requires 1 <= width < |w| && w[|w| - 1] != w[|w| - 2]
    ensures !InRange(Int(w), width)
  {
    hide Nat, Int;
    var n := |w| - 1;
    var init := w[..n];
    IntTop(w);
    assert init == init[..n - 1] + [init[n - 1]];
    NatAppend(init[..n - 1], [init[n - 1]]);
    NatBound(init[..n - 1]);
    NatOne(init[n - 1]);
    Pow2Grows(width - 1, n - 1);
  }

  lemma NatOne(b: bool)
    ensures Nat([b]) == if b then 1 else 0
  {
  }

  /** `w` repeated from its top bit up to `width` bits. */
  function SignExtend(w: Bits, width: nat): (r: Bits)
    requires w != []
    ensures |r| == width
  {
    seq(width, i => if 0 <= i < |w| then w[i] else w[|w| - 1])
  }

  lemma {:induction false} SignExtendKeeps(w: Bits, width: nat)
    requires 1 <= |w| <= width
    ensures Int(SignExtend(w, width)) == Int(w)
    decreases width
  {
    if width == |w| {
      assert SignExtend(w, width) == w;
    } else {
      hide Nat, Pow2;
      SignExtendKeeps(w, width - 1);
      assert SignExtend(w, width)[..width - 1] == SignExtend(w, width - 1);
      IntDropTop(SignExtend(w, width));
    }
  }
}
