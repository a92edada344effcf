/** The FIFO over a ring of buffers: the elements sit at (head + i) % len(buf). */
module BBQueue {
  import opened Arithmetic
  import opened Wrappers
  import opened Fifo

  /** The receiver once n items were put into it: a nil item leaves what the slot had. */
  ghost function Received(items: seq<Item>, was: seq<Item>, n: nat): seq<Item>
    requires n <= |items| && n <= |was|
  {
    seq(|was|, i requires 0 <= i < |was| => if i < n && items[i].Some? then items[i] else was[i])
  }

  /** Without nil items the receiver ends exactly as the linked queue leaves it. */
  lemma ReceivedIsPrefix(items: seq<Item>, was: seq<Item>, n: nat)
    requires n <= |items| && n <= |was| && forall i :: 0 <= i < |items| ==> items[i].Some?
    ensures Received(items, was, n) == items[..n] + was[n..]
  {
  }

  class BBQueue {
    var buf: array<Item>
    var head: nat
    var tail: nat
    var count: nat
    const isStrict: bool
    ghost var items: seq<Item>

    constructor (size: int, isStrict: bool)
      ensures Valid() && items == [] && fresh(buf) && this.isStrict == isStrict
      ensures buf.Length == if size <= 0 then DEFAULT_SIZE else size
    {
      var n := if size <= 0 then DEFAULT_SIZE else size;
      this.buf := new Item[n](_ => None);
      this.head, this.tail, this.count, this.items := 0, 0, 0, [];
      this.isStrict := isStrict;
    }

    ghost predicate Valid()
      reads this, buf
    {
      && buf.Length > 0
      && head < buf.Length && count <= buf.Length
      && tail == Wrap(head + count, buf.Length)
      && |items| == count
      && forall i :: 0 <= i < count ==> items[i] == buf[Wrap(head + i, buf.Length)]
    }

    /** A full strict queue refuses; a full lenient queue grows. */
    method Push(bb: Item) returns (ok: bool)
      requires Valid()
      modifies this, buf
      ensures Valid() && (buf == old(buf) || fresh(buf))
      ensures ok == !(isStrict && |old(items)| == old(buf.Length))
      ensures buf.Length == if ok && |old(items)| == old(buf.Length) then 2 * old(buf.Length) else old(buf.Length)
      ensures items == if ok then old(items) + [bb] else old(items)
    {
      if count == buf.Length {
        if isStrict {
          return false;
        }
        Grow();
      }
      Append(bb);
      return true;
    }

    method Append(bb: Item)
      requires Valid() && count < buf.Length
      modifies buf, `tail, `count, `items
      ensures Valid() && items == old(items) + [bb]
    {
      WrapIsMod(tail + 1, buf.Length);
      buf[tail] := bb;
      tail := (tail + 1) % buf.Length;
      count := count + 1;
      items := items + [bb];
    }

    method Pop() returns (bb: Item)
      requires Valid()
      modifies this, buf
      ensures Valid() && buf == old(buf)
      ensures old(items) == [] ==> bb == None && items == []
      ensures old(items) != [] ==> bb == old(items)[0] && items == old(items)[1..]
    {
      if count == 0 {
        return None;
      }
      bb := buf[head];
      WrapIsMod(head + 1, buf.Length);
      buf[head] := None;
      head := (head + 1) % buf.Length;
      count := count - 1;
      items := items[1..];
      if count == 0 {
        head := 0;
        tail := 0;
      }
    }

    /** At least one, and no more than fit or are there. */
    method Wanted(cnt: int, room: nat) returns (n: int)
      requires Valid()
      ensures n == Clamp(cnt, room, |items|)
    {
      n := cnt;
      if n < 1 {
        n := 1;
      }
      if n > room {
        n := room;
      }
      if n > count {
        n := count;
      }
    }

    /** Takes Taken(...) items. The receiver's slot of a nil item keeps what it had. */
    method PopMany(cnt: int, recv: array<Item>, limitBytes: int) returns (written: nat)
      requires Valid() && recv.Length > 0 && recv != buf
      modifies this, buf, recv
      ensures Valid() && buf == old(buf)
      ensures written == Taken(old(items), cnt, recv.Length, limitBytes) <= |old(items)|
      ensures written <= recv.Length
      ensures items == old(items)[written..]
      ensures recv[..] == Received(old(items), old(recv[..]), written)
    {
      if count == 0 {
        return 0;
      }
      var n := Wanted(cnt, recv.Length);
      ghost var all, was := items, recv[..];
      written := 0;
      var totalBytes: nat := 0;
      var stop := false;
      ghost var goal := Taken(all, cnt, recv.Length, limitBytes);
      while written < n && count > 0 && !stop
        invariant Valid() && buf == old(buf)
        invariant written <= n && items == all[written..]
        invariant OnTrack(all, n, limitBytes, goal, written, totalBytes, stop)
        invariant recv[..] == Received(all, was, written)
        decreases n - written, !stop
      {
        stop := NextTooBig(written, limitBytes, totalBytes);
        if stop {
          TrackStop(all, n, limitBytes, goal, written, totalBytes);
        } else {
          TrackTake(all, n, limitBytes, goal, written, totalBytes);
          var bb := PopInto(recv, all, was, written);
          if bb.Some? {
            totalBytes := totalBytes + bb.value.len;
            stop := limitBytes > 0 && totalBytes >= limitBytes;
          }
          written := written + 1;
        }
      }
    }

    method NextTooBig(written: nat, limitBytes: int, totalBytes: nat) returns (b: bool)
      requires Valid() && count > 0
      ensures b == TooBig(items[0], written, limitBytes, totalBytes)
    {
      assert items[0] == buf[head];
      return limitBytes > 0 && written > 0 && buf[head].Some? && totalBytes + buf[head].value.len > limitBytes;
    }

    /** One more item into the receiver. */
    method PopInto(recv: array<Item>, ghost all: seq<Item>, ghost was: seq<Item>, written: nat)
      returns (bb: Item)
      requires Valid() && recv != buf && written < |all| && items == all[written..]
      requires written < |was| && recv[..] == Received(all, was, written)
      modifies this, buf, recv
      ensures Valid() && buf == old(buf) && items == all[written + 1..] && bb == all[written]
      ensures recv[..] == Received(all, was, written + 1)
    {
      bb := Pop();
      if bb.Some? {
        recv[written] := bb;
      }
    }

    /** Doubles the ring and unrolls it to the front. */
    method Grow()
      requires Valid()
      modifies this
      ensures Valid() && items == old(items) && fresh(buf) && count == old(count)
      ensures buf.Length == 2 * old(buf.Length)
    {
      var newBuf := new Item[buf.Length * 2](_ => None);
      Unroll(newBuf);
      buf := newBuf;
      head := 0;
      tail := count;
    }

    method Unroll(newBuf: array<Item>)
      requires Valid() && newBuf != buf && newBuf.Length == 2 * buf.Length
      modifies newBuf
      ensures forall i :: 0 <= i < count ==> newBuf[i] == items[i]
    {
      if count > 0 {
        if head < tail {
          forall i | 0 <= i < tail - head { newBuf[i] := buf[head + i]; }
          assert tail - head == count;
        } else {
          var n := buf.Length - head;
          forall i | 0 <= i < n { newBuf[i] := buf[head + i]; }
          forall i | 0 <= i < tail { newBuf[n + i] := buf[i]; }
        }
      }
    }
  }
}
