/** LEB128, section 7.6 of DWARF 5, and zigzag. */
module Varint {
  import opened Words
  import opened Buffer
  import opened BitCursor

  // ---------------------------------------------------------------- words on the wire

  predicate Continues(b: Byte) {
    b[7]
  }

  /** The length of the word that starts at the front, if it ends. */
  function WordLen(bytes: seq<Byte>, from: nat): (r: Option<nat>)
    requires from <= |bytes|
    ensures r.Some? ==> from < r.value <= |bytes| && !Continues(bytes[r.value - 1])
    ensures forall i :: from <= i < (if r.Some? then r.value - 1 else |bytes|) ==> Continues(bytes[i])
    decreases |bytes| - from
  {
    if from == |bytes| then None
    else if !Continues(bytes[from]) then Some(from + 1)
    else WordLen(bytes, from + 1)
  }

  function Payload(b: Byte): (p: nat)
    ensures p < 128
  {
    NatBound(b[..7]);
    assert Pow2(7) == 128;
    Nat(b[..7])
  }

  /** The unbounded unsigned value of a run of groups, lowest first. */
  function Leb(bytes: seq<Byte>): nat {
    if bytes == [] then 0 else Payload(bytes[0]) + 128 * Leb(bytes[1..])
  }

  /** The unbounded signed value: the last group's top bit is the sign. */
  function SignedLeb(bytes: seq<Byte>): int
    requires bytes != []
  {
    if |bytes| == 1 then (if Payload(bytes[0]) >= 64 then Payload(bytes[0]) - 128 else Payload(bytes[0]))
    else Payload(bytes[0]) + 128 * SignedLeb(bytes[1..])
  }

  predicate IsI64(v: int) {
    InRange(v, 64)
  }

  const MAX_WORD: nat := 10

  /** Succeeds exactly on words that end within ten bytes and whose value fits. */
  function DecodeUnsigned(bytes: seq<Byte>): Result<(nat, nat), ParseError> {
    match WordLen(bytes, 0)
    case Some(k) =>
      if k <= MAX_WORD && IsU64(Leb(bytes[..k])) then Ok((Leb(bytes[..k]), k)) else Err(Malformed("Uleb128", 0))
    case None =>
      if |bytes| <= MAX_WORD && IsU64(Leb(bytes)) then Err(Short(|bytes| + 1, |bytes|, 0))
      else Err(Malformed("Uleb128", 0))
  }

  function DecodeSigned(bytes: seq<Byte>): Result<(int, nat), ParseError> {
    match WordLen(bytes, 0)
    case Some(k) =>
      if k <= MAX_WORD && IsI64(SignedLeb(bytes[..k])) then Ok((SignedLeb(bytes[..k]), k))
      else Err(Malformed("Sleb128", 0))
    case None =>
      if |bytes| <= MAX_WORD && (bytes == [] || IsI64(SignedLeb(bytes))) then Err(Short(|bytes| + 1, |bytes|, 0))
      else Err(Malformed("Sleb128", 0))
  }

  // ---------------------------------------------------------------- groups as bits

  /** The payload bits of a run of bytes, lowest first. */
  function Groups(bytes: seq<Byte>): (g: Bits)
    ensures |g| == 7 * |bytes|
  {
    seq(7 * |bytes|, i requires 0 <= i < 7 * |bytes| => bytes[i / 7][i % 7])
  }

  lemma GroupsCons(bytes: seq<Byte>)
    requires bytes != []
    ensures Groups(bytes) == bytes[0][..7] + Groups(bytes[1..])
  {
    var g := bytes[0][..7] + Groups(bytes[1..]);
    forall i | 0 <= i < |g| ensures Groups(bytes)[i] == g[i] {
      if i >= 7 {
        assert (i - 7) / 7 == i / 7 - 1 && (i - 7) % 7 == i % 7;
      }
    }
  }

  lemma {:induction false} LebIsGroups(bytes: seq<Byte>)
    ensures Leb(bytes) == Nat(Groups(bytes))
  {
    if bytes == [] {
    } else {
      LebIsGroups(bytes[1..]);
      GroupsCons(bytes);
      NatAppend(bytes[0][..7], Groups(bytes[1..]));
      assert Pow2(7) == 128;
    }
  }

  lemma {:induction false} SignedLebIsGroups(bytes: seq<Byte>)
    requires bytes != []
    ensures SignedLeb(bytes) == Int(Groups(bytes))
  {
    GroupsCons(bytes);
    assert Pow2(7) == 128;
    if |bytes| == 1 {
      var g := bytes[0][..7];
      assert Groups(bytes[1..]) == [] && Groups(bytes) == g;
      assert g == g[..6] + [g[6]];
      NatAppend(g[..6], [g[6]]);
      NatBound(g[..6]);
      assert Pow2(6) == 64 && Nat([g[6]]) == if g[6] then 1 else 0;
    } else {
      SignedLebIsGroups(bytes[1..]);
      IntAppend(bytes[0][..7], Groups(bytes[1..]));
    }
  }

  /** A word fits `u64` exactly when nothing is set past bit 63, and then its low 64 bits are its value. */
  lemma FitsUnsigned(g: Bits)
    ensures IsU64(Nat(g)) <==> forall j :: 64 <= j < |g| ==> !g[j]
    ensures IsU64(Nat(g)) ==> Nat(Resize(g, 64)) == Nat(g)
  {
    hide Nat, Pow2;
    if |g| <= 64 {
      NatBound(g);
      Pow2Grows(|g|, 64);
      NatResize(g, 64);
    } else {
      assert g == g[..64] + g[64..];
      NatAppend(g[..64], g[64..]);
      NatBound(g[..64]);
      NatZeroExactly(g[64..]);
      assert Resize(g, 64) == g[..64];
      if j :| 64 <= j < |g| && g[j] {
        assert g[64..][j - 64];
        MulGrows(Pow2(64), Nat(g[64..]));
      } else {
        assert Nat(g[64..]) == 0;
      }
    }
  }

  // ---------------------------------------------------------------- decoding

  /** What one more byte does to the groups gathered so far in a word. */
  lemma GatherGroup(before: seq<Byte>, b: Byte, shift: nat)
    requires shift == 7 * |before| && shift < 64
    ensures var value, payload := Resize(Groups(before), 64), Resize(b[..7], 64);
      && Or(value, Shl(payload, shift)) == Resize(Groups(before + [b]), 64)
      && (Shr(Shl(payload, shift), shift) == payload <==> forall j :: 64 <= j < shift + 7 ==> !Groups(before + [b])[j])
  {
    GroupsSnoc(before, b);
    hide Groups;
    GroupJoins(Groups(before), b[..7], shift);
  }

  lemma GroupJoins(low: Bits, group: Bits, shift: nat)
    requires |low| == shift < 64 && |group| == 7
    ensures var g, payload := low + group, Resize(group, 64);
      && Or(Resize(low, 64), Shl(payload, shift)) == Resize(g, 64)
      && (Shr(Shl(payload, shift), shift) == payload <==> forall j :: 64 <= j < shift + 7 ==> !g[j])
  {
    var g, payload := low + group, Resize(group, 64);
    var back := Shr(Shl(payload, shift), shift);
    forall j | 0 <= j < 64 ensures back[j] == (j + shift < 64 && payload[j]) {
    }
    if back == payload {
      forall j | 64 <= j < shift + 7 ensures !g[j] {
        assert g[j] == payload[j - shift] == back[j - shift];
      }
    } else {
      var j :| 0 <= j < 64 && back[j] != payload[j];
      assert g[j + shift] == payload[j];
    }
    forall j | 0 <= j < 64 ensures Or(Resize(low, 64), Shl(payload, shift))[j] == Resize(g, 64)[j] {
      assert Shl(payload, shift)[j] == (j >= shift && payload[j - shift]);
      assert j < |g| ==> g[j] == if j < shift then low[j] else group[j - shift];
    }
  }

  lemma GroupsSnoc(bytes: seq<Byte>, b: Byte)
    ensures Groups(bytes + [b]) == Groups(bytes) + b[..7]
  {
    var g := Groups(bytes) + b[..7];
    forall i | 0 <= i < |g| ensures Groups(bytes + [b])[i] == g[i] {
      if i >= 7 * |bytes| {
        assert i / 7 == |bytes| && i % 7 == i - 7 * |bytes|;
      }
    }
  }

  lemma NothingPastPrefix(bytes: seq<Byte>, i: nat, k: nat)
    requires i <= k <= |bytes|
    ensures forall j :: 0 <= j < 7 * i ==> Groups(bytes[..k])[j] == Groups(bytes[..i])[j]
  {
  }

  lemma NoGroups(bytes: seq<Byte>)
    requires bytes == []
    ensures Resize(Groups(bytes), 64) == Zeros(64)
  {
  }

  /** A word with nothing set past bit 63 fits, and its low 64 bits are its value. */
  lemma ClearGroupsFit(bytes: seq<Byte>)
    ensures IsU64(Leb(bytes)) <==> forall j :: 64 <= j < 7 * |bytes| ==> !Groups(bytes)[j]
    ensures IsU64(Leb(bytes)) ==> Nat(Resize(Groups(bytes), 64)) == Leb(bytes)
  {
    LebIsGroups(bytes);
    FitsUnsigned(Groups(bytes));
  }

  method UlebDecode(bytes: seq<Byte>) returns (r: Result<(nat, nat), ParseError>)
    ensures r == DecodeUnsigned(bytes)
  {
    hide Groups, Resize, Shl, Shr, Or, Nat, Leb, IsU64, Zeros;
    var value: U64 := Zeros(64);
    var shift := 0;
    NoGroups(bytes[..0]);
    for i := 0 to |bytes|
      invariant i <= MAX_WORD && shift == 7 * i
      invariant value == Resize(Groups(bytes[..i]), 64)
      invariant forall j :: 64 <= j < 7 * i ==> !Groups(bytes[..i])[j]
      invariant WordLen(bytes, 0) == WordLen(bytes, i)
    {
      if shift >= 64 {
        return Err(Malformed("Uleb128", 0));
      }
      var b := bytes[i];
      var payload := Resize(b[..7], 64);
      assert bytes[..i + 1] == bytes[..i] + [b];
      GatherGroup(bytes[..i], b, shift);
      if Shr(Shl(payload, shift), shift) != payload {
        UnsignedTooLarge(bytes, i + 1);
        return Err(Malformed("Uleb128", 0));
      }
      value := Or(value, Shl(payload, shift));
      if !Continues(b) {
        ClearGroupsFit(bytes[..i + 1]);
        return Ok((Nat(value), i + 1));
      }
      shift := shift + 7;
    }
    assert bytes[..|bytes|] == bytes;
    ClearGroupsFit(bytes);
    return Err(Short(|bytes| + 1, |bytes|, 0));
  }

  /** A bit past the 64th, once seen, stays. */
  lemma UnsignedTooLarge(bytes: seq<Byte>, i: nat)
    requires 1 <= i <= |bytes| && WordLen(bytes, 0) == WordLen(bytes, i - 1)
    requires exists j :: 64 <= j < 7 * i && Groups(bytes[..i])[j]
    ensures DecodeUnsigned(bytes) == Err(Malformed("Uleb128", 0))
  {
    var k := if WordLen(bytes, 0).Some? then WordLen(bytes, 0).value else |bytes|;
    NothingPastPrefix(bytes, i, k);
    LebIsGroups(bytes[..k]);
    FitsUnsigned(Groups(bytes[..k]));
    assert bytes[..|bytes|] == bytes;
  }

  /** A short run of groups always fits, as its sign extension. */
  lemma FewGroupsFit(bytes: seq<Byte>)
    requires 1 <= |bytes| <= 9
    ensures IsI64(SignedLeb(bytes)) && Int(SignExtend(Groups(bytes), 64)) == SignedLeb(bytes)
  {
    hide Int, InRange;
    SignedLebIsGroups(bytes);
    SignExtendKeeps(Groups(bytes), 64);
    FitsSigned(SignExtend(Groups(bytes), 64), 64);
  }

  /** Ten groups fit exactly when the last is all zeros or all ones. */
  lemma TenGroupsFit(bytes: seq<Byte>)
    requires |bytes| == MAX_WORD
    ensures var last := bytes[9];
      && (IsI64(SignedLeb(bytes)) <==> forall j :: 1 <= j < 7 ==> last[j] == last[0])
      && (IsI64(SignedLeb(bytes)) ==> Int(Resize(Groups(bytes), 64)) == SignedLeb(bytes))
  {
    hide Int, InRange;
    var g, last := Groups(bytes), bytes[9];
    SignedLebIsGroups(bytes);
    FitsSigned(g, 64);
    assert Resize(g, 64) == g[..64];
    forall j | 0 <= j < 7 ensures g[63 + j] == last[j] {
    }
    if forall j :: 63 <= j < |g| ==> g[j] == g[63] {
      forall j | 1 <= j < 7 ensures last[j] == last[0] {
        assert g[63 + j] == g[63];
      }
    }
    if forall j :: 1 <= j < 7 ==> last[j] == last[0] {
      forall j | 63 <= j < |g| ensures g[j] == g[63] {
        assert g[j] == last[j - 63];
      }
    }
  }

  /** The ten-group test as the decoder makes it: the last payload against its sign's fill. */
  lemma LastFillFits(bytes: seq<Byte>)
    requires |bytes| == MAX_WORD
    ensures var payload := bytes[9][..7];
      && (IsI64(SignedLeb(bytes)) <==> payload == if !payload[0] then Zeros(7) else Not(Zeros(7)))
      && (IsI64(SignedLeb(bytes)) ==> Int(Resize(Groups(bytes), 64)) == SignedLeb(bytes))
  {
    hide IsI64, InRange, SignedLeb, Groups, Int, Resize, Zeros, Not;
    TenGroupsFit(bytes);
    AllFill(bytes[9][..7]);
  }

  lemma AllFill(payload: Bits)
    requires |payload| == 7
    ensures payload == (if !payload[0] then Zeros(7) else Not(Zeros(7))) <==>
      forall j :: 1 <= j < 7 ==> payload[j] == payload[0]
  {
    var fill := if !payload[0] then Zeros(7) else Not(Zeros(7));
    forall j | 0 <= j < 7 ensures fill[j] == payload[0] {
    }
  }

  method SlebDecode(bytes: seq<Byte>) returns (r: Result<(int, nat), ParseError>)
    ensures r == DecodeSigned(bytes)
  {
    hide Int, InRange, SignedLeb, Groups, Resize, Shl, Or, Not, Zeros;
    var value: U64 := Zeros(64);
    var shift := 0;
    NoGroups(bytes[..0]);
    for i := 0 to |bytes|
      invariant i <= MAX_WORD && shift == 7 * i
      invariant value == Resize(Groups(bytes[..i]), 64)
      invariant i == MAX_WORD ==> IsI64(SignedLeb(bytes[..i]))
      invariant WordLen(bytes, 0) == WordLen(bytes, i)
    {
      if shift >= 64 {
        return Err(Malformed("Sleb128", 0));
      }
      var b := bytes[i];
      var payload := b[..7];
      ghost var word := bytes[..i + 1];
      assert word == bytes[..i] + [b];
      GatherGroup(bytes[..i], b, shift);
      if shift == 63 {
        var fill := if !payload[0] then Zeros(7) else Not(Zeros(7));
        LastFillFits(word);
        if payload != fill {
          SignedTooLarge(bytes, word);
          return Err(Malformed("Sleb128", 0));
        }
      }
      value := Or(value, Shl(Resize(payload, 64), shift));
      shift := shift + 7;
      if !Continues(b) {
        var signed := value;
        if shift < 64 {
          SignFills(word, shift);
          if b[6] {
            signed := Or(signed, Shl(Not(Zeros(64)), shift));
          }
        }
        return Ok((Int(signed), i + 1));
      }
    }
    assert bytes[..|bytes|] == bytes;
    if 1 <= |bytes| <= 9 {
      FewGroupsFit(bytes);
    }
    return Err(Short(|bytes| + 1, |bytes|, 0));
  }

  /** Filling a short word's value with its sign gives the value it means. */
  lemma SignFills(word: seq<Byte>, shift: nat)
    requires 1 <= |word| <= 9 && shift == 7 * |word|
    ensures var value := Resize(Groups(word), 64);
      var signed := if word[|word| - 1][6] then Or(value, Shl(Not(Zeros(64)), shift)) else value;
      IsI64(SignedLeb(word)) && Int(signed) == SignedLeb(word)
  {
    FewGroupsFit(word);
    FillIsExtension(word, shift);
  }

  lemma FillIsExtension(word: seq<Byte>, shift: nat)
    requires 1 <= |word| <= 9 && shift == 7 * |word|
    ensures var value := Resize(Groups(word), 64);
      SignExtend(Groups(word), 64) == if word[|word| - 1][6] then Or(value, Shl(Not(Zeros(64)), shift)) else value
  {
    var g := Groups(word);
    assert g[|g| - 1] == word[|word| - 1][6];
    hide Groups;
    FilledIsExtended(g);
  }

  lemma FilledIsExtended(w: Bits)
    requires 1 <= |w| <= 64
    ensures var value := Resize(w, 64);
      SignExtend(w, 64) == if w[|w| - 1] then Or(value, Shl(Not(Zeros(64)), |w|)) else value
  {
  }

  lemma SignedTooLarge(bytes: seq<Byte>, word: seq<Byte>)
    requires |word| == MAX_WORD <= |bytes| && word == bytes[..MAX_WORD]
    requires WordLen(bytes, 0) == WordLen(bytes, MAX_WORD - 1)
    requires !IsI64(SignedLeb(word))
    ensures DecodeSigned(bytes) == Err(Malformed("Sleb128", 0))
  {
    hide Int, InRange, SignedLeb;
    if |bytes| == MAX_WORD {
      assert word == bytes;
    }
  }

  // ---------------------------------------------------------------- short or malformed

  lemma {:induction false} WordLenExtends(bytes: seq<Byte>, more: seq<Byte>, from: nat)
    requires from <= |bytes|
    ensures WordLen(bytes, from).Some? ==> WordLen(bytes + more, from) == WordLen(bytes, from)
    ensures WordLen(bytes, from).None? && WordLen(bytes + more, from).Some? ==>
      WordLen(bytes + more, from).value > |bytes|
    decreases |bytes| - from
  {
    if from == |bytes| {
    } else {
      assert (bytes + more)[from] == bytes[from];
      WordLenExtends(bytes, more, from + 1);
    }
  }

  /** Ten bytes that all continue. No word is longer. */
  predicate TenOpen(bytes: seq<Byte>) {
    |bytes| == MAX_WORD && forall i :: 0 <= i < MAX_WORD ==> Continues(bytes[i])
  }

  /** One more group, of zeros, ends a word of up to nine. */
  lemma ZeroEnds(bytes: seq<Byte>)
    requires |bytes| <= 9 && WordLen(bytes, 0).None?
    ensures var whole := bytes + [Zeros(8)];
      && WordLen(whole, 0) == Some(|whole|)
      && IsU64(Leb(whole)) && IsI64(SignedLeb(whole))
    ensures IsU64(Leb(bytes)) && (bytes != [] ==> IsI64(SignedLeb(bytes)))
  {
    hide Nat, Int, InRange, Leb, SignedLeb, Pow2, Groups;
    var whole := bytes + [Zeros(8)];
    ZeroEndsLen(bytes);
    TopGroupClear(bytes);
    ClearGroupsFit(whole);
    ClearGroupsFit(bytes);
    if bytes != [] {
      FewGroupsFit(bytes);
    }
    if |whole| == MAX_WORD {
      TenGroupsFit(whole);
    } else {
      FewGroupsFit(whole);
    }
  }

  lemma ZeroEndsLen(bytes: seq<Byte>)
    requires WordLen(bytes, 0).None?
    ensures WordLen(bytes + [Zeros(8)], 0) == Some(|bytes| + 1)
  {
    var whole := bytes + [Zeros(8)];
    WordLenExtends(bytes, [Zeros(8)], 0);
    assert !Continues(whole[|bytes|]);
  }

  lemma TopGroupClear(bytes: seq<Byte>)
    requires |bytes| <= 9
    ensures forall j :: 64 <= j < 7 * |bytes + [Zeros(8)]| ==> !Groups(bytes + [Zeros(8)])[j]
  {
    GroupsSnoc(bytes, Zeros(8));
  }

  /** A decode that fails is `Short` exactly when more bytes could make it succeed, or when ten bytes that all continue
      spell a value that fits: no more bytes help those. It asks for one more byte. */
  lemma ShortMeansMoreMayDecode(bytes: seq<Byte>)
    ensures var d := DecodeUnsigned(bytes);
      d.Err? ==> (d.error.Short? <==>
        (exists more: seq<Byte> :: DecodeUnsigned(bytes + more).Ok?) || (TenOpen(bytes) && IsU64(Leb(bytes))))
    ensures TenOpen(bytes) ==> forall more: seq<Byte> :: DecodeUnsigned(bytes + more).Err?
    ensures var d := DecodeUnsigned(bytes);
      d.Err? ==> d.error.at == 0 && (d.error.Short? ==> d.error.gotBytes == |bytes| && d.error.needBytes - 1 == |bytes|)
  {
    hide Leb, IsU64, DecodeUnsigned;
    OpenAtTen(bytes);
    if WordLen(bytes, 0).Some? {
      forall more: seq<Byte> ensures DecodeUnsigned(bytes + more) == DecodeUnsigned(bytes) {
        MoreIsIgnored(bytes, more);
      }
    } else if |bytes| <= 9 {
      ZeroFinishes(bytes);
    } else {
      forall more: seq<Byte> ensures DecodeUnsigned(bytes + more).Err? {
        NothingFinishes(bytes, more);
      }
    }
    OwnErrors(bytes);
  }

  /** Without more bytes: what has ended is malformed if it fails, and what has not is short if it can still fit. */
  lemma OwnErrors(bytes: seq<Byte>)
    ensures var d, open := DecodeUnsigned(bytes), WordLen(bytes, 0).None?;
      d.Err? ==>
        && d.error.at == 0
        && (d.error.Short? ==> d.error.gotBytes == |bytes| && d.error.needBytes - 1 == |bytes|)
        && (!open ==> !d.error.Short?)
        && (open && |bytes| == MAX_WORD ==> (d.error.Short? <==> IsU64(Leb(bytes))))
        && (open && |bytes| > MAX_WORD ==> !d.error.Short?)
    ensures WordLen(bytes, 0).None? ==> DecodeUnsigned(bytes).Err?
  {
    hide Leb, IsU64;
  }

  lemma ZeroFinishes(bytes: seq<Byte>)
    requires WordLen(bytes, 0).None? && |bytes| <= 9
    ensures DecodeUnsigned(bytes + [Zeros(8)]).Ok?
    ensures DecodeUnsigned(bytes).Err? && DecodeUnsigned(bytes).error.Short?
  {
    hide Leb, IsU64, WordLen, Continues;
    ZeroEnds(bytes);
    var whole := bytes + [Zeros(8)];
    assert whole[..|whole|] == whole;
  }

  lemma NothingFinishes(bytes: seq<Byte>, more: seq<Byte>)
    requires WordLen(bytes, 0).None? && |bytes| >= MAX_WORD
    ensures DecodeUnsigned(bytes + more).Err?
  {
    hide Leb, IsU64;
    WordLenExtends(bytes, more, 0);
  }

  lemma MoreIsIgnored(bytes: seq<Byte>, more: seq<Byte>)
    requires WordLen(bytes, 0).Some?
    ensures DecodeUnsigned(bytes + more) == DecodeUnsigned(bytes)
  {
    hide Leb, SignedLeb, IsU64, IsI64;
    WordLenExtends(bytes, more, 0);
    var k := WordLen(bytes, 0).value;
    assert (bytes + more)[..k] == bytes[..k];
  }

  lemma OpenAtTen(bytes: seq<Byte>)
    ensures WordLen(bytes, 0).None? && |bytes| == MAX_WORD <==> TenOpen(bytes)
  {
  }

  /** The same for signed words. */
  lemma SignedShortMeansMoreMayDecode(bytes: seq<Byte>)
    ensures var d := DecodeSigned(bytes);
      d.Err? ==> (d.error.Short? <==>
        (exists more: seq<Byte> :: DecodeSigned(bytes + more).Ok?) || (TenOpen(bytes) && IsI64(SignedLeb(bytes))))
    ensures TenOpen(bytes) ==> forall more: seq<Byte> :: DecodeSigned(bytes + more).Err?
    ensures var d := DecodeSigned(bytes);
      d.Err? ==> d.error.at == 0 && (d.error.Short? ==> d.error.gotBytes == |bytes| && d.error.needBytes - 1 == |bytes|)
  {
    hide SignedLeb, IsI64, DecodeSigned;
    OpenAtTen(bytes);
    if WordLen(bytes, 0).Some? {
      forall more: seq<Byte> ensures DecodeSigned(bytes + more) == DecodeSigned(bytes) {
        SignedMoreIsIgnored(bytes, more);
      }
    } else if |bytes| <= 9 {
      SignedZeroFinishes(bytes);
    } else {
      forall more: seq<Byte> ensures DecodeSigned(bytes + more).Err? {
        SignedNothingFinishes(bytes, more);
      }
    }
    SignedOwnErrors(bytes);
  }

  /** Without more bytes: what has ended is malformed if it fails, and what has not is short if it can still fit. */
  lemma SignedOwnErrors(bytes: seq<Byte>)
    ensures var d, open := DecodeSigned(bytes), WordLen(bytes, 0).None?;
      d.Err? ==>
        && d.error.at == 0
        && (d.error.Short? ==> d.error.gotBytes == |bytes| && d.error.needBytes - 1 == |bytes|)
        && (!open ==> !d.error.Short?)
        && (open && |bytes| == MAX_WORD ==> (d.error.Short? <==> IsI64(SignedLeb(bytes))))
        && (open && |bytes| > MAX_WORD ==> !d.error.Short?)
    ensures WordLen(bytes, 0).None? ==> DecodeSigned(bytes).Err?
  {
    hide SignedLeb, IsI64;
  }

  lemma SignedZeroFinishes(bytes: seq<Byte>)
    requires WordLen(bytes, 0).None? && |bytes| <= 9
    ensures DecodeSigned(bytes + [Zeros(8)]).Ok?
    ensures DecodeSigned(bytes).Err? && DecodeSigned(bytes).error.Short?
  {
    hide SignedLeb, IsI64, WordLen, Continues;
    ZeroEnds(bytes);
    var whole := bytes + [Zeros(8)];
    assert whole[..|whole|] == whole;
  }

  lemma SignedNothingFinishes(bytes: seq<Byte>, more: seq<Byte>)
    requires WordLen(bytes, 0).None? && |bytes| >= MAX_WORD
    ensures DecodeSigned(bytes + more).Err?
  {
    hide SignedLeb, IsI64;
    WordLenExtends(bytes, more, 0);
  }

  lemma SignedMoreIsIgnored(bytes: seq<Byte>, more: seq<Byte>)
    requires WordLen(bytes, 0).Some?
    ensures DecodeSigned(bytes + more) == DecodeSigned(bytes)
  {
    hide Leb, SignedLeb, IsU64, IsI64;
    WordLenExtends(bytes, more, 0);
    var k := WordLen(bytes, 0).value;
    assert (bytes + more)[..k] == bytes[..k];
  }

  // ---------------------------------------------------------------- encoding

  function GroupByte(payload: nat, more: bool): (b: Byte)
    requires payload < 128
    ensures Payload(b) == payload && (Continues(b) <==> more)
  {
    assert Pow2(7) == 128;
    NatOf(payload, 7);
    var b := Of(payload, 7) + [more];
    assert b[..7] == Of(payload, 7);
    b
  }

  function UnsignedWord(v: nat): (word: seq<Byte>)
    ensures word != []
  {
    if v < 128 then [GroupByte(v, false)] else [GroupByte(v % 128, true)] + UnsignedWord(v / 128)
  }

  /** Whether the group just taken off, `v`'s lowest, can be the last: what is left only repeats its sign. */
  predicate SignedDone(v: int) {
    (v / 128 == 0 && v % 128 < 64) || (v / 128 == -1 && v % 128 >= 64)
  }

  function SignedWord(v: int): (word: seq<Byte>)
    ensures word != []
    decreases if v < 0 then -1 - v else v
  {
    if SignedDone(v) then [GroupByte(v % 128, false)] else [GroupByte(v % 128, true)] + SignedWord(v / 128)
  }

  lemma OneGroupMore(word: seq<Byte>, n: nat)
    requires n < |word|
    ensures word[n] == word[n..][0] && word[n + 1..] == word[n..][1..] && word[..n + 1] == word[..n] + [word[n]]
  {
  }

  method UlebEncode(v: nat, out: Fixed) returns (ok: bool)
    requires IsU64(v) && out.Valid()
    modifies out, out.room
    ensures out.Valid()
    ensures ok <==> old(out.at) + |UnsignedWord(v)| <= out.room.Length
    ensures out.Written() ==
      old(out.Written()) + UnsignedWord(v)[..Min(|UnsignedWord(v)|, out.room.Length - old(out.at))]
  {
    hide GroupByte;
    var rest := v;
    ghost var word, n := UnsignedWord(v), 0;
    while true
      invariant out.Valid() && n < |word| && out.at == old(out.at) + n
      invariant word[n..] == UnsignedWord(rest)
      invariant out.Written() == old(out.Written()) + word[..n]
      decreases rest
    {
      var payload := rest % 128;
      var left := rest / 128;
      var ok' := out.Push([GroupByte(payload, left != 0)]);
      if !ok' {
        assert Min(|word|, out.room.Length - old(out.at)) == n;
        return false;
      }
      OneGroupMore(word, n);
      n := n + 1;
      if left == 0 {
        assert word[..n] == word && Min(|word|, out.room.Length - old(out.at)) == n;
        return true;
      }
      rest := left;
    }
  }

  method SlebEncode(v: int, out: Fixed) returns (ok: bool)
    requires IsI64(v) && out.Valid()
    modifies out, out.room
    ensures out.Valid()
    ensures ok <==> old(out.at) + |SignedWord(v)| <= out.room.Length
    ensures out.Written() ==
      old(out.Written()) + SignedWord(v)[..Min(|SignedWord(v)|, out.room.Length - old(out.at))]
  {
    hide GroupByte;
    var rest := v;
    ghost var word, n := SignedWord(v), 0;
    while true
      invariant out.Valid() && n < |word| && out.at == old(out.at) + n
      invariant word[n..] == SignedWord(rest)
      invariant out.Written() == old(out.Written()) + word[..n]
      decreases if rest < 0 then -1 - rest else rest
    {
      var payload := rest % 128;
      var left := rest / 128;
      var signSet := payload >= 64;
      var done := (left == 0 && !signSet) || (left == -1 && signSet);
      var ok' := out.Push([GroupByte(payload, !done)]);
      if !ok' {
        assert Min(|word|, out.room.Length - old(out.at)) == n;
        return false;
      }
      OneGroupMore(word, n);
      n := n + 1;
      if done {
        assert word[..n] == word && Min(|word|, out.room.Length - old(out.at)) == n;
        return true;
      }
      rest := left;
    }
  }

  // ---------------------------------------------------------------- round trips, and the shortest word

  predicate IsWord(w: seq<Byte>) {
    w != [] && !Continues(w[|w| - 1]) && forall i :: 0 <= i < |w| - 1 ==> Continues(w[i])
  }

  lemma WordEnds(w: seq<Byte>, rest: seq<Byte>)
    requires IsWord(w)
    ensures WordLen(w + rest, 0) == Some(|w|) && (w + rest)[..|w|] == w
  {
    var bytes := w + rest;
    var k := WordLen(bytes, 0);
    assert bytes[|w| - 1] == w[|w| - 1];
    assert forall i :: 0 <= i < |w| - 1 ==> bytes[i] == w[i];
  }

  lemma {:induction false} UnsignedWordMeans(v: nat)
    ensures IsWord(UnsignedWord(v)) && Leb(UnsignedWord(v)) == v
  {
    var word := UnsignedWord(v);
    if v < 128 {
    } else {
      UnsignedWordMeans(v / 128);
      assert word[1..] == UnsignedWord(v / 128);
      assert forall i :: 1 <= i < |word| ==> word[i] == word[1..][i - 1];
    }
  }

  lemma {:induction false} UnsignedWordLength(v: nat, n: nat)
    requires n >= 1
    ensures |UnsignedWord(v)| <= n <==> v < Pow2(7 * n)
  {
    assert Pow2(7) == 128;
    hide Pow2;
    Pow2Grows(7, 7 * n);
    if v < 128 {
    } else if n == 1 {
      assert |UnsignedWord(v / 128)| >= 1;
    } else {
      UnsignedWordLength(v / 128, n - 1);
      GroupFits(v, n);
    }
  }

  lemma GroupFits(v: nat, n: nat)
    requires n >= 1
    ensures v / 128 < Pow2(7 * (n - 1)) <==> v < Pow2(7 * n)
  {
    assert Pow2(7) == 128;
    hide Pow2;
    Pow2Adds(7, 7 * (n - 1));
  }

  lemma {:induction false} LebBound(bytes: seq<Byte>)
    ensures Leb(bytes) < Pow2(7 * |bytes|)
  {
    LebIsGroups(bytes);
    NatBound(Groups(bytes));
  }

  /** A value's encoding, whatever follows it, decodes to the value and the encoding's length. */
  lemma UnsignedRoundTrip(v: nat, rest: seq<Byte>)
    requires IsU64(v)
    ensures DecodeUnsigned(UnsignedWord(v) + rest) == Ok((v, |UnsignedWord(v)|))
  {
    hide Pow2;
    UnsignedWordMeans(v);
    WordEnds(UnsignedWord(v), rest);
    UnsignedWordLength(v, MAX_WORD);
    Pow2Grows(64, 7 * MAX_WORD);
  }

  lemma {:induction false} UnsignedWordUnique(w: seq<Byte>)
    requires IsWord(w) && |w| == |UnsignedWord(Leb(w))|
    ensures w == UnsignedWord(Leb(w))
    decreases |w|
  {
    hide Payload, Continues, GroupByte;
    ByteIsItsGroup(w[0]);
    if |w| == 1 {
    } else {
      var v := Leb(w);
      SplitsOff(Payload(w[0]), Leb(w[1..]));
      UnsignedWordUnique(w[1..]);
      assert w == [w[0]] + w[1..];
    }
  }

  lemma ByteIsItsGroup(b: Byte)
    ensures b == GroupByte(Payload(b), Continues(b))
  {
    OfNat(b[..7]);
    assert b == b[..7] + [b[7]];
  }

  /** No shorter word decodes to a value than its encoding, and no other of that length. */
  lemma UnsignedIsShortest(bytes: seq<Byte>)
    requires DecodeUnsigned(bytes).Ok?
    ensures var (v, used) := DecodeUnsigned(bytes).value;
      |UnsignedWord(v)| <= used && (|UnsignedWord(v)| == used ==> bytes[..used] == UnsignedWord(v))
  {
    hide Pow2;
    var (v, used) := DecodeUnsigned(bytes).value;
    LebBound(bytes[..used]);
    UnsignedWordLength(v, used);
    if |UnsignedWord(v)| == used {
      UnsignedWordUnique(bytes[..used]);
    }
  }

  lemma {:induction false} SignedWordMeans(v: int)
    ensures IsWord(SignedWord(v)) && SignedLeb(SignedWord(v)) == v
    decreases if v < 0 then -1 - v else v
  {
    var word := SignedWord(v);
    if SignedDone(v) {
    } else {
      SignedWordMeans(v / 128);
      assert word[1..] == SignedWord(v / 128);
      assert forall i :: 1 <= i < |word| ==> word[i] == word[1..][i - 1];
    }
  }

  /** Whether `n` groups can hold `v`. */
  predicate FitsGroups(v: int, n: nat)
    requires n >= 1
  {
    v < Pow2(7 * n - 1) && -1 - v < Pow2(7 * n - 1)
  }

  lemma {:induction false} SignedWordLength(v: int, n: nat)
    requires n >= 1
    ensures |SignedWord(v)| <= n <==> FitsGroups(v, n)
    decreases n
  {
    hide Pow2, GroupByte;
    SmallPowers();
    Pow2Grows(6, 7 * n - 1);
    if SignedDone(v) || n == 1 {
    } else {
      SignedWordLength(v / 128, n - 1);
      Pow2Adds(7, 7 * (n - 1) - 1);
    }
  }

  lemma SmallPowers()
    ensures Pow2(7) == 128 && Pow2(6) == 64
  {
  }

  lemma SignedLebBound(bytes: seq<Byte>)
    requires bytes != []
    ensures FitsGroups(SignedLeb(bytes), |bytes|)
  {
    SignedLebIsGroups(bytes);
    IntTop(Groups(bytes));
  }

  lemma SignedRoundTrip(v: int, rest: seq<Byte>)
    requires IsI64(v)
    ensures DecodeSigned(SignedWord(v) + rest) == Ok((v, |SignedWord(v)|))
  {
    hide Pow2;
    SignedWordMeans(v);
    WordEnds(SignedWord(v), rest);
    SignedWordLength(v, MAX_WORD);
    Pow2Grows(63, 7 * MAX_WORD - 1);
  }

  lemma SplitsOff(low: nat, high: int)
    requires low < 128
    ensures (low + 128 * high) % 128 == low && (low + 128 * high) / 128 == high
  {
  }

  lemma {:induction false} SignedWordUnique(w: seq<Byte>)
    requires IsWord(w) && |w| == |SignedWord(SignedLeb(w))|
    ensures w == SignedWord(SignedLeb(w))
    decreases |w|
  {
    hide Payload, Continues, GroupByte;
    ByteIsItsGroup(w[0]);
    if |w| == 1 {
    } else {
      var v := SignedLeb(w);
      SplitsOff(Payload(w[0]), SignedLeb(w[1..]));
      SignedWordUnique(w[1..]);
      assert w == [w[0]] + w[1..];
    }
  }

  lemma SignedIsShortest(bytes: seq<Byte>)
    requires DecodeSigned(bytes).Ok?
    ensures var (v, used) := DecodeSigned(bytes).value;
      |SignedWord(v)| <= used && (|SignedWord(v)| == used ==> bytes[..used] == SignedWord(v))
  {
    hide Pow2;
    var (v, used) := DecodeSigned(bytes).value;
    SignedLebBound(bytes[..used]);
    SignedWordLength(v, used);
    if |SignedWord(v)| == used {
      SignedWordUnique(bytes[..used]);
    }
  }

  // ---------------------------------------------------------------- zigzag

  /** `(value << 1) ^ (value >> 63)`, the second shift signed. */
  function Zigzag(value: U64): U64 {
    Xor(Shl(value, 1), Sar(value, 63))
  }

  /** `(raw >> 1) ^ -(raw & 1)`: the negation of a bit is that bit everywhere. */
  function Unzigzag(raw: U64): U64 {
    Xor(Shr(raw, 1), seq(64, _ => raw[0]))
  }

  /** Zigzag is a bijection that takes `v` to `2v`, and a negative `v` to `-2v - 1`. */
  lemma ZigzagFolds(value: U64)
    ensures Unzigzag(Zigzag(value)) == value && Zigzag(Unzigzag(value)) == value
    ensures Nat(Zigzag(value)) == if Int(value) >= 0 then 2 * Int(value) else -2 * Int(value) - 1
  {
    hide Nat, Pow2;
    var sign, low := value[63], value[..63];
    var z := Zigzag(value);
    IntTop(value);
    assert z == [sign] + if sign then Not(low) else low;
    NatAppend([sign], if sign then Not(low) else low);
    NatOne(sign);
    PowOne();
    NatNot(low);
  }

  lemma PowOne()
    ensures Pow2(1) == 2
  {
  }

  lemma {:induction false} NatNot(w: Bits)
    ensures Nat(Not(w)) == Pow2(|w|) - 1 - Nat(w)
  {
    if w == [] {
    } else {
      assert Not(w)[1..] == Not(w[1..]);
      NatNot(w[1..]);
    }
  }
}
