/** The single-producer, single-consumer ring buffer (common/src/ringbuf.c), called sequentially:
    a bounded queue of 32-bit items over caller-provided storage. */
module RingBuf {
  import opened Words

  /** `rb_inc`. */
  function Inc(idx: nat, capacity: nat): (next: nat)
    requires idx < capacity
    ensures next < capacity
  {
    if idx + 1 >= capacity then 0 else idx + 1
  }

  /** `ringbuf_u32_count`, from the two indices it has read. */
  function CountOf(head: nat, tail: nat, capacity: nat): nat
    requires tail <= capacity
  {
    if head >= tail then head - tail else capacity - tail + head
  }

  /** The items from `tail` up to `head`, wrapping at the end of the storage. */
  function Stored(buf: seq<U32>, head: nat, tail: nat): seq<U32>
    requires head < |buf| && tail < |buf|
  {
    if head >= tail then buf[tail..head] else buf[tail..] + buf[..head]
  }

  lemma StoredHead(buf: seq<U32>, head: nat, tail: nat)
    requires head < |buf| && tail < |buf| && head != tail
    ensures Stored(buf, head, tail) == [buf[tail]] + Stored(buf, head, Inc(tail, |buf|))
  {
    if head < tail && tail + 1 < |buf| {
      assert buf[tail..] == [buf[tail]] + buf[tail + 1..];
    } else if head < tail {
      assert buf[tail..] == [buf[tail]];
      assert buf[0..head] == buf[..head];
    } else {
      assert buf[tail..head] == [buf[tail]] + buf[tail + 1..head];
    }
  }

  lemma StoredGrows(buf: seq<U32>, head: nat, tail: nat, v: U32)
    requires head < |buf| && tail < |buf| && Inc(head, |buf|) != tail
    ensures Stored(buf[head := v], Inc(head, |buf|), tail) == Stored(buf, head, tail) + [v]
  {
    var b := buf[head := v];
    if head < tail {
      assert b[tail..] == buf[tail..] && b[..head + 1] == buf[..head] + [v];
    } else if head + 1 < |buf| {
      assert b[tail..head + 1] == buf[tail..head] + [v];
    } else {
      assert b[tail..] == buf[tail..head] + [v];
      assert b[..0] == [];
    }
  }

  class RingBuf {
    var buf: array?<U32>
    var capacity: U32
    var head: U32
    var tail: U32

    ghost predicate Valid()
      reads this
    {
      buf != null && 2 <= capacity <= buf.Length && head < capacity && tail < capacity
    }

    ghost function Contents(): seq<U32>
      requires Valid()
      reads this, buf
    {
      Stored(buf[..capacity], head, tail)
    }

    /** The struct before `Init`. */
    constructor ()
      ensures buf == null
    {
      buf, capacity, head, tail := null, 0, 0, 0;
    }

    method Init(storage: array?<U32>, capacity: U32) returns (ok: bool)
      requires storage != null ==> capacity <= storage.Length
      modifies this
      ensures ok <==> storage != null && capacity >= 2
      ensures ok ==> Valid() && buf == storage && this.capacity == capacity && Contents() == []
      ensures !ok ==> unchanged(this)
    {
      if storage == null {
        return false;
      }
      if capacity < 2 {
        return false;
      }
      buf := storage;
      this.capacity := capacity;
      head, tail := 0, 0;
      return true;
    }

    method Clear()
      requires Valid()
      modifies this`head, this`tail
      ensures Valid() && Contents() == []
    {
      head, tail := 0, 0;
    }

    method IsEmpty() returns (empty: bool)
      requires Valid()
      ensures empty <==> Contents() == []
    {
      return head == tail;
    }

    method IsFull() returns (full: bool)
      requires Valid()
      ensures full <==> |Contents()| == capacity - 1
    {
      var next := Inc(head, capacity);
      return next == tail;
    }

    method Count() returns (n: U32)
      requires Valid()
      ensures n == |Contents()|
    {
      return CountOf(head, tail, capacity);
    }

    method Free() returns (n: U32)
      requires Valid()
      ensures n == capacity - 1 - |Contents()|
    {
      var count := Count();
      return capacity - 1 - count;
    }

    method Push(v: U32) returns (ok: bool)
      requires Valid()
      modifies this`head, buf
      ensures Valid()
      ensures ok <==> old(|Contents()|) < capacity - 1
      ensures Contents() == if ok then old(Contents()) + [v] else old(Contents())
    {
      var h := head;
      var next := Inc(h, capacity);
      if next == tail {
        return false;
      }
      ghost var before := buf[..capacity];
      buf[h] := v;
      assert buf[..capacity] == before[h := v];
      StoredGrows(before, h, tail, v);
      head := next;
      return true;
    }

    method Pop() returns (ok: bool, out: U32)
      requires Valid()
      modifies this`tail
      ensures Valid()
      ensures ok <==> old(Contents()) != []
      ensures ok ==> old(Contents()) == [out] + Contents()
      ensures !ok ==> Contents() == []
    {
      var t := tail;
      if t == head {
        return false, 0;
      }
      out := buf[t];
      StoredHead(buf[..capacity], head, t);
      tail := Inc(t, capacity);
      return true, out;
    }

    method Peek() returns (ok: bool, out: U32)
      requires Valid()
      ensures ok <==> Contents() != []
      ensures ok ==> out == Contents()[0]
    {
      var t := tail;
      if t == head {
        return false, 0;
      }
      out := buf[t];
      return true, out;
    }
  }
}
