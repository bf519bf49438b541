/** Output buffers: a caller's byte array filled from the front. */
module Buffer {
  import opened Words

  /** `Fixed`. */
  class Fixed {
    const room: array<Byte>
    var at: nat

    ghost predicate Valid()
      reads this
    {
      at <= room.Length
    }

    function Written(): (bytes: seq<Byte>)
      requires Valid()
      reads this, room
      ensures |bytes| == at
    {
      room[..at]
    }

    constructor (room: array<Byte>)
      ensures Valid() && this.room == room && Written() == []
    {
      this.room := room;
      at := 0;
    }

    /** All or nothing. */
    method Push(bytes: seq<Byte>) returns (ok: bool)
      requires Valid()
      modifies this, room
      ensures Valid()
      ensures ok <==> old(at) + |bytes| <= room.Length
      ensures Written() == if ok then old(Written()) + bytes else old(Written())
    {
      var end := at + |bytes|;
      if end > room.Length {
        return false;
      }
      forall i | 0 <= i < |bytes| {
        room[at + i] := bytes[i];
      }
      assert room[..end] == old(room[..at]) + bytes;
      at := end;
      return true;
    }

    /** Does nothing at or past the end. */
    method Rewind(to: nat)
      requires Valid()
      modifies this
      ensures Valid()
      ensures Written() == old(Written())[..Min(old(at), to)]
    {
      at := Min(at, to);
    }

    /** Appends zeros, 64 at a time. One that does not fit leaves the whole runs of 64 that did. */
    method Pad(n: nat) returns (ok: bool)
      requires Valid()
      modifies this, room
      ensures Valid()
      ensures ok <==> old(at) + n <= room.Length
      ensures ok ==> Written() == old(Written()) + ZeroBytes(n)
      ensures !ok ==> Written() == old(Written()) + ZeroBytes((room.Length - old(at)) / 64 * 64)
    {
      var left: nat := n;
      while left > 0
        invariant Valid() && left <= n
        invariant left == 0 || (n - left) % 64 == 0
        invariant Written() == old(Written()) + ZeroBytes(n - left)
      {
        var take := Min(left, 64);
        ghost var before := Written();
        var pushed := Push(ZeroBytes(take));
        if !pushed {
          return false;
        }
        assert ZeroBytes(n - left) + ZeroBytes(take) == ZeroBytes(n - left + take);
        assert before + ZeroBytes(take) == old(Written()) + ZeroBytes(n - left + take);
        left := left - take;
      }
      return true;
    }
  }
}
