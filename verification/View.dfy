/** The generated code of a record: `encode` and `decode`, and the view that seals and verifies its bytes in place. */
module View {
  import opened Words
  import opened Records
  import opened Stamping

  /** Overwrites field `i` in place. */
  method WriteField<S>(r: Record<S>, out: array<Byte>, i: nat, bytes: seq<Byte>)
    requires r.Formed() && out.Length == r.Size() && i < |r.fields| && |bytes| == r.fields[i].width
    modifies out
    ensures out[..] == PutField(r, old(out[..]), i, bytes)
  {
    AtGrows(r, i + 1, |r.fields|);
    var at := r.At(i);
    forall k | 0 <= k < |bytes| {
      out[at + k] := bytes[k];
    }
  }

  /** `magic_writes`. */
  method MagicWrites<S>(r: Record<S>, out: array<Byte>)
    requires r.Formed() && out.Length == r.Size()
    modifies out
    ensures out[..] == Magicked(r, old(out[..]), |r.fields|)
  {
    hide PutField;
    for i := 0 to |r.fields|
      invariant out[..] == Magicked(r, old(out[..]), i)
    {
      assert r.fields[i].Formed();
      if r.fields[i].stamp.Magic? {
        WriteField(r, out, i, r.fields[i].stamp.bytes);
      }
    }
  }

  /** `checksum_writes`: every checksum cleared, then each written in declaration order. */
  method ChecksumWrites<S>(r: Record<S>, out: array<Byte>)
    requires r.Accepted() && out.Length == r.Size()
    modifies out
    ensures out[..] == Stamped(r, Cleared(r, old(out[..]), |r.fields|), |r.fields|)
  {
    hide PutField, SumBytes, ZeroBytes, Record.ResolveCheck, Record.At;
    for i := 0 to |r.fields|
      invariant out[..] == Cleared(r, old(out[..]), i)
    {
      if r.fields[i].stamp.Checksum? {
        WriteField(r, out, i, ZeroBytes(r.fields[i].width));
      }
    }
    ghost var cleared := out[..];
    for i := 0 to |r.fields|
      invariant out[..] == Stamped(r, cleared, i)
    {
      if r.fields[i].stamp.Checksum? {
        WriteField(r, out, i, SumBytes(r, out[..], i));
      }
    }
  }

  method Encode<S>(r: Record<S>, values: seq<Value>) returns (wire: Result<seq<Byte>, nat>)
    requires r.Accepted() && AllTyped(r, values)
    ensures wire == Encoded(r, values)
  {
    hide PutField, Guarded, Wired, Magicked, Cleared, Stamped, Record.ResolveCheck, Record.At;
    var n := |r.fields|;
    var out := new Byte[r.Size()](_ => Zeros(8));
    assert out[..] == ZeroBytes(r.Size());
    for i := 0 to n
      invariant out[..] == ZeroBytes(r.Size())
      invariant FirstUnguarded(r, values, 0) == FirstUnguarded(r, values, i)
    {
      if !Guarded(r, values, i) {
        return Err(i);
      }
    }
    for i := 0 to n
      invariant out[..] == Written(r, values, i)
    {
      assert r.fields[i].Formed();
      WriteField(r, out, i, Wired(r, r.fields[i], values[i]));
    }
    MagicWrites(r, out);
    ChecksumWrites(r, out);
    return Ok(out[..]);
  }

  /** One kind of check, made on each field it concerns. */
  method Check<S>(r: Record<S>, wire: seq<Byte>, pass: Pass) returns (e: Option<ParseError>)
    requires r.Accepted() && |wire| == r.Size()
    ensures e == FirstError(r, wire, pass, 0)
  {
    hide ErrorAt, Record.Accepted;
    for i := 0 to |r.fields|
      invariant FirstError(r, wire, pass, 0) == FirstError(r, wire, pass, i)
    {
      var found := ErrorAt(r, wire, pass, i);
      if found.Some? {
        return found;
      }
    }
    return None;
  }

  method Decode<S>(r: Record<S>, wire: seq<Byte>) returns (values: Result<seq<Value>, ParseError>)
    requires r.Accepted() && |wire| == r.Size()
    ensures values == Decoded(r, wire)
  {
    hide FirstError, FirstOf, Fields, Record.ResolveCheck, Record.At;
    ChecksInTurn(r, wire);
    var magic := Check(r, wire, Magics);
    if magic.Some? {
      return Err(magic.value);
    }
    var flag := Check(r, wire, Flags);
    if flag.Some? {
      return Err(flag.value);
    }
    var range := Check(r, wire, Ranges);
    if range.Some? {
      return Err(range.value);
    }
    var sum := Check(r, wire, Sums);
    if sum.Some? {
      return Err(sum.value);
    }
    return Ok(Fields(r, wire));
  }

  /** `<Name>View`. */
  class RecordView<S> {
    const record: Record<S>
    const wire: array<Byte>

    ghost predicate Valid() {
      record.Accepted() && Viewable(record) && wire.Length == record.Size()
    }

    constructor (record: Record<S>, wire: array<Byte>)
      requires record.Accepted() && Viewable(record) && wire.Length == record.Size()
      ensures Valid() && this.record == record && this.wire == wire
    {
      this.record := record;
      this.wire := wire;
    }

    /** Every field, without the record's checks. */
    method Decode() returns (values: seq<Value>)
      requires Valid()
      ensures values == Fields(record, wire[..])
    {
      values := Fields(record, wire[..]);
    }

    /** Writes one field in place. The rest of the bytes stay, and so may a stamp that no longer holds. */
    method Set(i: nat, value: Value)
      requires Valid() && i < |record.fields| && Typed(record.fields[i], value)
      modifies wire
      ensures record.fields[i].Formed()
      ensures Bytes(record, wire[..], i) == Wired(record, record.fields[i], value)
      ensures forall j :: 0 <= j < |record.fields| && j != i ==>
        Bytes(record, wire[..], j) == Bytes(record, old(wire[..]), j)
      ensures wire[..] == SetField(record, old(wire[..]), i, value)
    {
      hide PutField, Bytes, Wired, Record.ResolveCheck, Record.At;
      assert record.fields[i].Formed();
      var bytes := Wired(record, record.fields[i], value);
      WriteField(record, wire, i, bytes);
      forall j | 0 <= j < |record.fields|
        ensures Bytes(record, wire[..], j) == if i == j then bytes else Bytes(record, old(wire[..]), j)
      {
        PutHolds(record, old(wire[..]), i, bytes, j);
      }
    }

    /** Magics, then checksums. A record with a view has nothing else to check. */
    method Verify() returns (e: Option<ParseError>)
      requires Valid()
      ensures e == FirstOf(record, wire[..], VERIFY_CHECKS)
      ensures e.None? <==> Decoded(record, wire[..]).Ok?
    {
      hide FirstError, FirstOf, Fields, Record.ResolveCheck, Record.At;
      VerifyIsDecode(record, wire[..]);
      ChecksInTurn(record, wire[..]);
      e := Check(record, wire[..], Magics);
      if e.None? {
        e := Check(record, wire[..], Sums);
      }
    }

    /** Restamps the record in place: every magic, then every checksum. */
    method Seal()
      requires Valid()
      modifies wire
      ensures wire[..] == Sealed(record, old(wire[..]))
      ensures FirstOf(record, wire[..], VERIFY_CHECKS).None?
    {
      hide Magicked, Cleared, Stamped, Record.ResolveCheck, Record.At, FirstOf, FirstError;
      SealedVerifies(record, wire[..]);
      MagicWrites(record, wire);
      ChecksumWrites(record, wire);
    }
  }
}
