/** Sending a batch of buffers over a connection that may fail, compacting what is left and
    retrying: what reaches the wire, what is released and what stays in the batch. */
module WriteBatch {
  import opened Wrappers
  import opened Bytes

  /** A pooled buffer: its identity and its bytes. */
  datatype Buf = Buf(id: nat, bytes: seq<Byte>)

  type Slots = seq<Option<Buf>>

  /** The buffers still in the slots, in order. */
  function Pending(s: Slots): seq<Buf> {
    if s == [] then [] else (if s[0].Some? then [s[0].value] else []) + Pending(s[1..])
  }

  function BytesOf(bs: seq<Buf>): seq<Byte> {
    if bs == [] then [] else bs[0].bytes + BytesOf(bs[1..])
  }

  lemma {:induction false} PendingAppend(s: Slots, t: Slots)
    ensures Pending(s + t) == Pending(s) + Pending(t)
  {
    if s == [] {
      assert [] + t == t;
    } else {
      PendingAppend(s[1..], t);
      assert (s + t)[1..] == s[1..] + t;
      Associative(if s[0].Some? then [s[0].value] else [], Pending(s[1..]), Pending(t));
    }
  }

  lemma {:induction false} BytesAppend(a: seq<Buf>, b: seq<Buf>)
    ensures BytesOf(a + b) == BytesOf(a) + BytesOf(b)
  {
    if a == [] {
      assert a + b == b;
    } else {
      var rest := a[1..];
      assert (a + b)[1..] == rest + b;
      BytesAppend(rest, b);
      Associative(a[0].bytes, BytesOf(rest), BytesOf(b));
    }
  }

  lemma {:induction false} PendingNil(s: Slots)
    requires forall i :: 0 <= i < |s| ==> s[i] == None
    ensures Pending(s) == []
  {
    if s != [] {
      PendingNil(s[1..]);
    }
  }

  /** One more slot at the end. */
  lemma PendingSnoc(s: Slots, lo: nat, i: nat)
    requires lo <= i < |s|
    ensures s[i].Some? ==> Pending(s[lo..i + 1]) == Pending(s[lo..i]) + [s[i].value]
    ensures s[i].Some? ==>
      BytesOf(Pending(s[lo..i + 1])) == BytesOf(Pending(s[lo..i])) + s[i].value.bytes
    ensures s[i].None? ==> Pending(s[lo..i + 1]) == Pending(s[lo..i])
  {
    assert s[lo..i + 1] == s[lo..i] + [s[i]];
    PendingAppend(s[lo..i], [s[i]]);
    assert [s[i]][1..] == [];
    if s[i].Some? {
      BytesAppend(Pending(s[lo..i]), [s[i].value]);
      assert [s[i].value][1..] == [];
    } else {
      assert Pending(s[lo..i]) + [] == Pending(s[lo..i]);
    }
  }

  /** One more stretch of slots at the end, after what was already sent and released. */
  lemma PendingStretch(s: Slots, wire: seq<Byte>, given: seq<Buf>, start: nat, end: nat)
    requires start <= end <= |s|
    ensures wire + BytesOf(Pending(s[..end]))
         == wire + BytesOf(Pending(s[..start])) + BytesOf(Pending(s[start..end]))
    ensures given + Pending(s[..end])
         == given + Pending(s[..start]) + Pending(s[start..end])
  {
    assert s[..end] == s[..start] + s[start..end];
    var x, y := Pending(s[..start]), Pending(s[start..end]);
    PendingAppend(s[..start], s[start..end]);
    BytesAppend(x, y);
    Associative(wire, BytesOf(x), BytesOf(y));
    Associative(given, x, y);
  }

  lemma Associative<T>(a: seq<T>, b: seq<T>, c: seq<T>)
    ensures a + (b + c) == a + b + c
  {
  }

  lemma PendingSplit(s: Slots, i: nat)
    requires i <= |s|
    ensures Pending(s) == Pending(s[..i]) + Pending(s[i..])
  {
    assert s == s[..i] + s[i..];
    PendingAppend(s[..i], s[i..]);
  }

  /** What a write can fail with. */
  datatype Fault = ConnectionClosed | InvalidPacket | QueueFull | NetClosed | PipeClosed | Other(code: int)

  /** defaultIsWriteFnRetryable: all but the five faults that are final. */
  predicate DefaultRetryable(f: Fault): (b: bool)
    ensures b <==> f.Other?
  {
    f !in {ConnectionClosed, InvalidPacket, QueueFull, NetClosed, PipeClosed}
  }

  /** One message as it goes out. */
  datatype Frame = Frame(data: seq<Byte>)

  class Conn {
    var wire: seq<Byte>
    var messages: seq<Frame>      // as they were written, one after the other
    ghost var faults: seq<Fault>      // every failure, in the order of the calls

    constructor ()
      ensures wire == [] && messages == [] && faults == []
    {
      wire, messages, faults := [], [], [];
    }

    /** What a call leaves of the faults so far. */
    static ghost predicate Recorded(before: seq<Fault>, after: seq<Fault>, err: Option<Fault>) {
      after == if err.Some? then before + [err.value] else before
    }

    /** sendBytes: all or nothing; nothing to send never fails. */
    method SendBytes(data: seq<Byte>) returns (err: Option<Fault>)
      modifies this
      ensures wire == if err.Some? then old(wire) else old(wire) + data
      ensures messages == if err.Some? || data == [] then old(messages) else old(messages) + [Frame(data)]
      ensures Recorded(old(faults), faults, err)
      ensures data == [] ==> err.None?
    {
      if |data| == 0 {
        return None;
      }
      var fails: bool := *;
      if fails {
        err := Fail();
      } else {
        wire, messages := wire + data, messages + [Frame(data)];
        err := None;
      }
    }

    method Fail() returns (err: Option<Fault>)
      modifies `faults
      ensures err.Some? && faults == old(faults) + [err.value]
    {
      var f: Fault := *;
      faults := faults + [f];
      err := Some(f);
    }

    method SetWriteDeadline() returns (err: Option<Fault>)
      modifies `faults
      ensures Recorded(old(faults), faults, err)
    {
      var fails: bool := *;
      if fails {
        err := Fail();
      } else {
        err := None;
      }
    }
  }

  /** How held buffers are put into messages: one is closed as soon as it has reached the limit; `acc`
      is what is in the open one. */
  function Windows(bs: seq<Buf>, limit: int, acc: seq<Byte>): seq<Frame> {
    if bs == [] then Message(acc)
    else if |acc + bs[0].bytes| >= limit then
      Message(acc + bs[0].bytes) + Windows(bs[1..], limit, [])
    else Windows(bs[1..], limit, acc + bs[0].bytes)
  }

  /** An empty message is not written. */
  function Message(data: seq<Byte>): seq<Frame> {
    if data == [] then [] else [Frame(data)]
  }

  function Flat(ms: seq<Frame>): seq<Byte> {
    if ms == [] then [] else ms[0].data + Flat(ms[1..])
  }

  /** The messages carry the buffers' bytes; all but the last have reached the limit. */
  lemma {:induction false} WindowsCarry(bs: seq<Buf>, limit: int, acc: seq<Byte>)
    ensures Flat(Windows(bs, limit, acc)) == acc + BytesOf(bs)
    ensures forall i :: 0 <= i < |Windows(bs, limit, acc)| - 1 ==> |Windows(bs, limit, acc)[i].data| >= limit
    decreases |bs|
  {
    if bs == [] {
      assert Flat(Message(acc)) == acc;
    } else {
      var data := acc + bs[0].bytes;
      Associative(acc, bs[0].bytes, BytesOf(bs[1..]));
      if |data| >= limit {
        WindowsCarry(bs[1..], limit, []);
        var rest := Windows(bs[1..], limit, []);
        assert [] + BytesOf(bs[1..]) == BytesOf(bs[1..]);
        if data == [] {
          assert Message(data) + rest == rest;
        } else {
          assert ([Frame(data)] + rest)[1..] == rest;
        }
      } else {
        WindowsCarry(bs[1..], limit, data);
      }
    }
  }

  /** With the first j + 1 buffers the open message is still below the limit. */
  predicate Below(bs: seq<Buf>, j: nat, limit: int, acc: seq<Byte>)
    requires j < |bs|
  {
    |acc| + |BytesOf(bs[..j + 1])| < limit
  }

  /** The open message is closed by the first buffer with which it reaches the limit, */
  lemma {:induction false} ClosedByFirst(bs: seq<Buf>, limit: int, acc: seq<Byte>, k: nat)
    requires k < |bs| && !Below(bs, k, limit, acc) && forall j: nat :: j < k ==> Below(bs, j, limit, acc)
    ensures Windows(bs, limit, acc) == Message(acc + BytesOf(bs[..k + 1])) + Windows(bs[k + 1..], limit, [])
    decreases k
  {
    assert bs[..1][1..] == [] && bs[..1] == [bs[0]];
    assert BytesOf(bs[..1]) == bs[0].bytes;
    if k > 0 {
      assert Below(bs, 0, limit, acc);
      forall j: nat | j < |bs| - 1 ensures Below(bs[1..], j, limit, acc + bs[0].bytes) == Below(bs, j + 1, limit, acc) {
        BytesOfFront(bs, j + 1);
      }
      BytesOfFront(bs, k);
      ClosedByFirst(bs[1..], limit, acc + bs[0].bytes, k - 1);
      Associative(acc, bs[0].bytes, BytesOf(bs[1..][..k]));
      assert bs[1..][k..] == bs[k + 1..];
    }
  }

  /** and left open when there is none. */
  lemma {:induction false} LeftOpen(bs: seq<Buf>, limit: int, acc: seq<Byte>)
    requires forall j: nat :: j < |bs| ==> Below(bs, j, limit, acc)
    ensures Windows(bs, limit, acc) == Message(acc + BytesOf(bs))
    decreases |bs|
  {
    if bs == [] {
      assert acc + [] == acc;
    } else {
      assert bs[..1][1..] == [] && bs[..1] == [bs[0]];
      assert Below(bs, 0, limit, acc);
      forall j: nat | j < |bs| - 1 ensures Below(bs[1..], j, limit, acc + bs[0].bytes) {
        BytesOfFront(bs, j + 1);
        assert Below(bs, j + 1, limit, acc);
      }
      LeftOpen(bs[1..], limit, acc + bs[0].bytes);
      Associative(acc, bs[0].bytes, BytesOf(bs[1..]));
    }
  }

  lemma BytesOfFront(bs: seq<Buf>, n: nat)
    requires n < |bs|
    ensures BytesOf(bs[..n + 1]) == bs[0].bytes + BytesOf(bs[1..][..n])
  {
    assert bs[..n + 1][1..] == bs[1..][..n];
  }

  /** What can be observed of a write: the wire, the buffers given back, the buffers still held. */
  datatype Log = Log(wire: seq<Byte>, released: seq<Buf>, left: seq<Buf>) {
    /** The first k held buffers have gone out, one after the other, and each was given back once. */
    function Sent(k: nat): (l: Log)
      requires k <= |left|
      ensures |l.left| == |left| - k
      decreases k
    {
      if k == 0 then
        this
      else
        Log(wire + left[0].bytes, released + [left[0]], left[1..]).Sent(k - 1)
    }
  }

  lemma {:induction false} SentTwice(l: Log, a: nat, b: nat)
    requires a + b <= |l.left|
    ensures l.Sent(a).Sent(b) == l.Sent(a + b)
    decreases a
  {
    if a > 0 {
      SentTwice(Log(l.wire + l.left[0].bytes, l.released + [l.left[0]], l.left[1..]), a - 1, b);
    }
  }

  /** Sending k buffers appends their bytes, and only those, in order. */
  lemma {:induction false} SentIs(l: Log, k: nat)
    requires k <= |l.left|
    ensures l.Sent(k) == Log(l.wire + BytesOf(l.left[..k]), l.released + l.left[..k], l.left[k..])
    decreases k
  {
    if k == 0 {
      assert l.left[..0] == [];
    } else {
      var m := Log(l.wire + l.left[0].bytes, l.released + [l.left[0]], l.left[1..]);
      SentIs(m, k - 1);
      assert l.left[..k] == [l.left[0]] + l.left[1..][..k - 1];
      assert l.left[..k][1..] == l.left[1..][..k - 1];
      Associative(l.wire, l.left[0].bytes, BytesOf(l.left[1..][..k - 1]));
      Associative(l.released, [l.left[0]], l.left[1..][..k - 1]);
    }
  }

  /** Once the slots below start are nil, what is left is what was pending from there on. */
  lemma Window(before: Slots, after: Slots, start: nat)
    requires start <= |before| == |after|
    requires forall k :: 0 <= k < start ==> after[k] == None
    requires after[start..] == before[start..]
    ensures |Pending(before[..start])| <= |Pending(before)|
    ensures Pending(before)[..|Pending(before[..start])|] == Pending(before[..start])
    ensures Pending(before)[|Pending(before[..start])|..] == Pending(after)
  {
    PendingSplit(before, start);
    PendingSplit(after, start);
    PendingNil(after[..start]);
    assert [] + Pending(after[start..]) == Pending(after[start..]);
  }

  lemma {:induction false} NothingPending(s: Slots)
    requires Pending(s) == []
    ensures forall i :: 0 <= i < |s| ==> s[i] == None
  {
    if s != [] {
      NothingPending(s[1..]);
      assert forall i :: 0 < i < |s| ==> s[i] == s[1..][i - 1];
    }
  }

  /** Empty slots at the end hold nothing. */
  lemma PendingPadded(s: Slots, j: nat)
    requires j <= |s|
    requires forall k :: j <= k < |s| ==> s[k] == None
    ensures Pending(s) == Pending(s[..j])
  {
    PendingSplit(s, j);
    PendingNil(s[j..]);
  }

  /** The books after `popped` left the queue and its first `out` buffers went out. */
  lemma Account(accepted: seq<Buf>, sent: nat, popped: seq<Buf>, out: nat)
    requires sent + |popped| <= |accepted| && out <= |popped|
    requires popped == accepted[sent..sent + |popped|]
    ensures BytesOf(accepted[..sent]) + BytesOf(popped[..out]) == BytesOf(accepted[..sent + out])
    ensures accepted[..sent] + popped == accepted[..sent + |popped|]
  {
    assert accepted[..sent + out] == accepted[..sent] + popped[..out];
    BytesAppend(accepted[..sent], popped[..out]);
  }

  /** The front of what is left of a sequence, and the rest. */
  lemma FrontOf<T>(all: seq<T>, at: nat, rest: seq<T>, n: nat)
    requires at + n <= |all| && rest == all[at..]
    ensures rest[..n] == all[at..at + n] && rest[n..] == all[at + n..]
  {
  }

  datatype Pass = Again | Idle | Drained | Failed
  datatype Admission = Accepted | Full | Closed | Trying

  /** What a flush started from, and all the messages it is to write. */
  datatype Plan = Plan(was: Slots, wire: seq<Byte>, given: seq<Buf>, messages: seq<Frame>,
                       faults: seq<Fault>, total: seq<Frame>)

  class Sender {
    const batch: array<Option<Buf>>   // sendBatchBuffer
    const conn: Conn
    const limitBytes: int             // BatchWriteLimitBytes
    const maxRetry: int               // WriteFnRetryMaxCount
    const maxCount: int               // SendQueueSize
    const isStrict: bool              // SendQueueStrict
    const retryable: Option<Fault -> bool>   // WriteFnIsRetryable, when configured
    var released: seq<Buf>            // the accepted buffers given back to the pool, in order
    var refused: seq<Buf>             // the buffers given back without having been accepted
    var queue: seq<Buf>               // sendQueue
    var closing: bool
    ghost var accepted: seq<Buf>      // every buffer the queue ever took
    ghost var sent: nat               // how many of them went out
    ghost var asked: nat              // the attempts sendBufferRetry has made
    var failed: bool                  // a fatal write error ended the loop
    var aborted: bool                 // the loop left through closeCh

    constructor (conn: Conn, limitBytes: int, maxRetry: int, maxCount: int, isStrict: bool,
                 retryable: Option<Fault -> bool>)
      requires conn.wire == []
      ensures Valid() && accepted == queue == refused == [] && !closing && !failed && !aborted
      ensures this.conn == conn && fresh(batch)
      ensures this.limitBytes == limitBytes && this.maxRetry == maxRetry
      ensures this.maxCount == maxCount && this.isStrict == isStrict && this.retryable == retryable
    {
      this.batch := new Option<Buf>[32](_ => None);
      this.conn, this.limitBytes, this.maxRetry := conn, limitBytes, maxRetry;
      this.maxCount, this.isStrict, this.retryable := maxCount, isStrict, retryable;
      this.released, this.refused, this.queue, this.closing := [], [], [], false;
      this.accepted, this.sent, this.asked, this.failed, this.aborted := [], 0, 0, false, false;
    }

    /** isWriteFnRetryable. */
    predicate Retryable(f: Fault) {
      if retryable.Some? then retryable.value(f) else DefaultRetryable(f)
    }

    ghost function Held(n: int): seq<Buf>
      requires 0 <= n <= batch.Length
      reads this, batch
    {
      Pending(batch[..n])
    }

    ghost function State(n: int): Log
      requires 0 <= n <= batch.Length
      reads this, batch, conn
    {
      Log(conn.wire, released, Held(n))
    }

    /** Nils and releases the slots lo..hi. */
    method Release(lo: int, hi: int)
      requires 0 <= lo <= hi <= batch.Length
      modifies batch, `released
      ensures forall k :: lo <= k < hi ==> batch[k] == None
      ensures forall k :: 0 <= k < lo || hi <= k < batch.Length ==> batch[k] == old(batch[k])
      ensures released == old(released) + Pending(old(batch[lo..hi]))
    {
      for j := lo to hi
        invariant forall k :: lo <= k < j ==> batch[k] == None
        invariant forall k :: 0 <= k < lo || j <= k < batch.Length ==> batch[k] == old(batch[k])
        invariant released == old(released) + Pending(old(batch[..])[lo..j])
      {
        var bb := batch[j];
        batch[j] := None;
        PendingSnoc(old(batch[..]), lo, j);
        if bb.Some? {
          released := released + [bb.value];
        }
      }
      assert old(batch[..])[lo..hi] == old(batch[lo..hi]);
    }

    /** What a window flushed up to `start` amounts to. */
    twostate lemma WindowSent(n: int, new start: int)
      requires 0 <= start <= n <= batch.Length
      requires forall k :: 0 <= k < start ==> batch[k] == None
      requires forall k :: start <= k < batch.Length ==> batch[k] == old(batch[k])
      requires conn.wire == old(conn.wire) + BytesOf(Pending(old(batch[..start])))
      requires released == old(released) + Pending(old(batch[..start]))
      ensures |Pending(old(batch[..start]))| <= |old(State(n)).left|
      ensures State(n) == old(State(n)).Sent(|Pending(old(batch[..start]))|)
    {
      var before, after := old(batch[..n]), batch[..n];
      assert before[..start] == old(batch[..start]);
      Window(before, after, start);
      SentIs(old(State(n)), |Pending(before[..start])|);
    }

    /** How far a flush of the slots `was` has come: everything before `start` is on the wire and
        released, everything from there on is untouched. */
    ghost predicate OutUpTo(was: Slots, wire: seq<Byte>, given: seq<Buf>, start: int)
      reads this, batch, conn
    {
      && 0 <= start <= batch.Length == |was|
      && conn.wire == wire + BytesOf(Pending(was[..start]))
      && released == given + Pending(was[..start])
      && (forall k :: 0 <= k < start ==> batch[k] == None)
      && (forall k :: start <= k < batch.Length ==> batch[k] == was[k])
    }

    /** Sends slots start..end as one message and releases them. */
    method Flush(ghost was: Slots, ghost wire: seq<Byte>, ghost given: seq<Buf>,
                 start: int, end: int, data: seq<Byte>)
      returns (err: Option<Fault>)
      requires OutUpTo(was, wire, given, start) && start <= end <= batch.Length
      requires data == BytesOf(Pending(was[start..end]))
      modifies batch, conn, `released
      ensures OutUpTo(was, wire, given, if err.Some? then start else end)
      ensures Conn.Recorded(old(conn.faults), conn.faults, err)
      ensures conn.messages == if err.Some? then old(conn.messages) else old(conn.messages) + Message(data)
    {
      err := conn.SendBytes(data);
      if err.Some? {
        return;
      }
      assert batch[start..end] == was[start..end];
      Release(start, end);
      PendingStretch(was, wire, given, start, end);
    }

    /** What writeBatch leaves: `done` was written, the first of the windows, and all of them if
        nothing failed. */
    twostate predicate Written(held: seq<Buf>, new err: Option<Fault>, new done: seq<Frame>)
      reads conn
    {
      && Conn.Recorded(old(conn.faults), conn.faults, err)
      && conn.messages == old(conn.messages) + done && done <= Windows(held, limitBytes, [])
      && (err.None? ==> done == Windows(held, limitBytes, []))
    }

    /** writeBatch: whatever fails, the buffers that went out are the first of those held, they
        went out in order, and they alone were released; without an error none is left. It fails
        exactly when the connection does, with its error. */
    method WriteBatch(n: int) returns (err: Option<Fault>, ghost out: nat, ghost done: seq<Frame>)
      requires n <= batch.Length
      modifies batch, conn, `released
      ensures n <= 0 ==> err.None? && State(0) == old(State(0)) && conn.faults == old(conn.faults)
      ensures n > 0 ==> out <= |old(Held(n))| && State(n) == old(State(n)).Sent(out)
      ensures n > 0 && err.None? ==> out == |old(Held(n))|
      ensures n > 0 ==> Written(old(Held(n)), err, done)
      ensures forall k :: 0 <= k < batch.Length && n <= k ==> batch[k] == old(batch[k])
    {
      out, done := 0, [];
      if n <= 0 {
        return None, 0, [];
      }
      err := conn.SetWriteDeadline();
      if err.Some? {
        assert State(n) == old(State(n)).Sent(0);
        return;
      }
      if n > 1 {
        err, out, done := WriteWindows(n);
      } else {
        err, out, done := WriteSingle();
      }
    }

    /** The buffer of a batch of one. */
    method WriteSingle() returns (err: Option<Fault>, ghost out: nat, ghost done: seq<Frame>)
      requires batch.Length >= 1
      modifies batch, conn, `released
      ensures out <= |old(Held(1))| && State(1) == old(State(1)).Sent(out)
      ensures err.None? ==> out == |old(Held(1))|
      ensures Written(old(Held(1)), err, done)
      ensures forall k :: 1 <= k < batch.Length ==> batch[k] == old(batch[k])
    {
      ghost var was := batch[..];
      assert was[0..0] == [] && was[0..1] == was[..1] == batch[..1];
      PendingSnoc(was, 0, 0);
      if batch[0] == None {
        assert State(1) == old(State(1)).Sent(0);
        assert Windows([], limitBytes, []) == [];
        return None, 0, [];
      }
      var b := batch[0].value;
      assert Pending(was[..1]) == [b] && [b][1..] == [];
      SingleWindow(b, limitBytes);
      err := Flush(was, conn.wire, released, 0, 1, b.bytes);
      out := if err.Some? then 0 else 1;
      done := if err.Some? then [] else Message(b.bytes);
      assert old(batch[..out]) == was[..out];
      WindowSent(1, out);
    }

    static lemma SingleWindow(b: Buf, limit: int)
      ensures Windows([b], limit, []) == Message(b.bytes)
      ensures BytesOf([b]) == b.bytes
    {
      assert [b][1..] == [] && [] + b.bytes == b.bytes;
      assert Message(b.bytes) + [] == Message(b.bytes);
    }

    /** The windowed part of writeBatch, for more than one buffer. */
    method WriteWindows(n: int) returns (err: Option<Fault>, ghost out: nat, ghost done: seq<Frame>)
      requires 1 < n <= batch.Length
      modifies batch, conn, `released
      ensures out <= |old(Held(n))| && State(n) == old(State(n)).Sent(out)
      ensures err.None? ==> out == |old(Held(n))|
      ensures Written(old(Held(n)), err, done)
      ensures forall k :: n <= k < batch.Length ==> batch[k] == old(batch[k])
    {
      ghost var plan := Plan(batch[..], conn.wire, released, conn.messages, conn.faults,
                             Windows(Held(n), limitBytes, []));
      var start, batchBytes;
      NothingYet(plan, n);
      err, start, batchBytes, done := TakeSlots(plan, n);
      if err.None? {
        err, start, done := LastWindow(plan, start, n, batchBytes, done);
      }
      out := |Pending(plan.was[..start])|;
      assert plan.was[..start] == old(batch[..start]);
      WindowSent(n, start);
    }

    /** The loop over the slots. */
    method TakeSlots(ghost p: Plan, n: int)
      returns (err: Option<Fault>, start: int, batchBytes: seq<Byte>, ghost done: seq<Frame>)
      requires Going(p, 0, 0, n, [], [])
      modifies batch, conn, `released
      ensures if err.None? then Going(p, start, n, n, batchBytes, done) else Over(p, n, err, start, done)
    {
      err, start, batchBytes, done := None, 0, [], [];
      for i := 0 to n
        invariant Going(p, start, i, n, batchBytes, done) && err.None?
      {
        if batch[i].Some? {
          err, start, batchBytes, done := TakeSlot(p, start, i, n, batchBytes, done);
          if err.Some? {
            return;
          }
        } else {
          EmptySlot(p, start, i, n, batchBytes, done);
        }
      }
    }

    /** A flush of n slots is over: up to `start` they are out, and that is all of them unless the
        connection failed. */
    ghost predicate Over(p: Plan, n: int, err: Option<Fault>, start: int, done: seq<Frame>)
      reads this, batch, conn
    {
      && 0 <= start <= n <= batch.Length && OutUpTo(p.was, p.wire, p.given, start)
      && conn.messages == p.messages + done && done <= p.total
      && Conn.Recorded(p.faults, conn.faults, err)
      && (err.None? ==> start == n && done == p.total)
    }

    /** The open message, when all slots have been looked at. */
    method LastWindow(ghost p: Plan, start: int, n: int, batchBytes: seq<Byte>, ghost done: seq<Frame>)
      returns (err: Option<Fault>, start': int, ghost done': seq<Frame>)
      requires Going(p, start, n, n, batchBytes, done)
      modifies batch, conn, `released
      ensures Over(p, n, err, start', done')
    {
      err := Flush(p.was, p.wire, p.given, start, n, batchBytes);
      Associative(p.messages, done, Message(batchBytes));
      start', done' := start, done;
      if err.None? {
        start', done' := n, p.total;
      }
    }

    lemma NothingYet(p: Plan, n: nat)
      requires n <= batch.Length
      requires p == Plan(batch[..], conn.wire, released, conn.messages, conn.faults, Windows(Held(n), limitBytes, []))
      ensures Going(p, 0, 0, n, [], [])
    {
      assert batch[..][..0] == batch[..][0..0] == [] && batch[..][0..n] == batch[..n];
    }

    lemma EmptySlot(p: Plan, start: int, i: int, n: int, batchBytes: seq<Byte>, done: seq<Frame>)
      requires Going(p, start, i, n, batchBytes, done) && i < n && batch[i].None?
      ensures Going(p, start, i + 1, n, batchBytes, done)
    {
      PendingSnoc(p.was, start, i);
      ProgressNext(p.was, i, n, batchBytes, done, p.total);
    }

    /** A flush of n slots has looked at i of them: up to `start` they are out, `batchBytes` holds the
        others, and `done` are the messages written. */
    ghost predicate Going(p: Plan, start: int, i: int, n: int, batchBytes: seq<Byte>, done: seq<Frame>)
      reads this, batch, conn
    {
      && 0 <= start <= i <= n <= batch.Length
      && OutUpTo(p.was, p.wire, p.given, start)
      && batchBytes == BytesOf(Pending(p.was[start..i]))
      && Progress(p.was, i, n, batchBytes, done, p.total) && done <= p.total
      && conn.messages == p.messages + done && conn.faults == p.faults
    }

    /** The next held buffer joins the open message, which is sent when it has reached the limit. */
    method TakeSlot(ghost p: Plan, start: int, i: int, ghost n: int, batchBytes: seq<Byte>, ghost done: seq<Frame>)
      returns (err: Option<Fault>, start': int, batchBytes': seq<Byte>, ghost done': seq<Frame>)
      requires Going(p, start, i, n, batchBytes, done) && i < n && batch[i].Some?
      modifies batch, conn, `released
      ensures err.None? ==> Going(p, start', i + 1, n, batchBytes', done')
      ensures err.Some? ==> Over(p, n, err, start', done')
    {
      Joined(p, start, i, n, batchBytes, done);
      err, start', batchBytes', done' := None, start, batchBytes + batch[i].value.bytes, done;
      if |batchBytes'| >= limitBytes {
        err, done' := SendWindow(p, start, i + 1, n, batchBytes', done);
        if err.None? {
          start', batchBytes' := i + 1, [];
        }
      }
    }

    /** The open message is complete, up to `end`. */
    ghost predicate Ready(p: Plan, start: int, end: int, n: int, data: seq<Byte>, done: seq<Frame>)
      reads this, batch, conn
    {
      && 0 <= start <= end <= n <= batch.Length
      && OutUpTo(p.was, p.wire, p.given, start)
      && data == BytesOf(Pending(p.was[start..end]))
      && Progress(p.was, end, n, [], done + Message(data), p.total)
      && done <= p.total && done + Message(data) <= p.total
      && conn.messages == p.messages + done && conn.faults == p.faults
    }

    lemma Joined(p: Plan, start: int, i: int, n: int, batchBytes: seq<Byte>, done: seq<Frame>)
      requires Going(p, start, i, n, batchBytes, done) && i < n && batch[i].Some?
      ensures var data := batchBytes + batch[i].value.bytes;
        if |data| >= limitBytes then Ready(p, start, i + 1, n, data, done)
        else Going(p, start, i + 1, n, data, done)
    {
      PendingSnoc(p.was, start, i);
      ProgressNext(p.was, i, n, batchBytes, done, p.total);
    }

    method SendWindow(ghost p: Plan, start: int, end: int, ghost n: int, data: seq<Byte>, ghost done: seq<Frame>)
      returns (err: Option<Fault>, ghost done': seq<Frame>)
      requires Ready(p, start, end, n, data, done)
      modifies batch, conn, `released
      ensures err.None? ==> Going(p, end, end, n, [], done')
      ensures err.Some? ==> Over(p, n, err, start, done')
    {
      err := Flush(p.was, p.wire, p.given, start, end, data);
      if err.Some? {
        return err, done;
      }
      Associative(p.messages, done, Message(data));
      done' := done + Message(data);
      assert p.was[end..end] == [];
    }

    /** What is still to be written, behind what has been, makes up all the windows. */
    ghost predicate Progress(was: Slots, i: int, n: int, acc: seq<Byte>, done: seq<Frame>, total: seq<Frame>)
      requires 0 <= i <= n <= |was|
    {
      && done + Windows(Pending(was[i..n]), limitBytes, acc) == total
      && (i == n ==> done + Message(acc) == total)
    }

    /** One more slot looked at. */
    lemma ProgressNext(was: Slots, i: nat, n: nat, acc: seq<Byte>, done: seq<Frame>, total: seq<Frame>)
      requires i < n <= |was| && Progress(was, i, n, acc, done, total)
      ensures was[i].None? ==> Progress(was, i + 1, n, acc, done, total)
      ensures was[i].Some? ==>
        var data := acc + was[i].value.bytes;
        if |data| >= limitBytes then
          Progress(was, i + 1, n, [], done + Message(data), total) && done + Message(data) <= total
        else Progress(was, i + 1, n, data, done, total)
    {
      assert was[i..n][1..] == was[i + 1..n];
      var rest := Pending(was[i + 1..n]);
      assert i + 1 == n ==> rest == [];
      if was[i].Some? {
        assert Pending(was[i..n]) == [was[i].value] + rest;
        assert ([was[i].value] + rest)[1..] == rest;
        Associative(done, Message(acc + was[i].value.bytes), Windows(rest, limitBytes, []));
      } else {
        assert [] + rest == rest;
      }
    }

    /** compactBatch: the held buffers move to the front and keep their order. */
    method CompactBatch(n: int) returns (j: int)
      requires 0 <= n <= batch.Length
      modifies batch
      ensures 0 <= j <= n
      ensures forall k :: 0 <= k < j ==> batch[k].Some?
      ensures forall k :: j <= k < n ==> batch[k] == None
      ensures forall k :: n <= k < batch.Length ==> batch[k] == old(batch[k])
      ensures Held(n) == Held(j) == old(Held(n)) && j == |Held(j)|
    {
      ghost var was := batch[..];
      j := 0;
      assert batch[..0] == was[..0];
      for i := 0 to n
        invariant 0 <= j <= i
        invariant forall k :: 0 <= k < j ==> batch[k].Some?
        invariant forall k :: j <= k < i ==> batch[k] == None
        invariant forall k :: i <= k < batch.Length ==> batch[k] == was[k]
        invariant Pending(batch[..j]) == Pending(was[..i]) && |Pending(was[..i])| == j
      {
        PendingSnoc(was, 0, i);
        assert was[0..i] == was[..i] && was[0..i + 1] == was[..i + 1];
        if batch[i] != None {
          MoveSlot(i, j);
          j := j + 1;
        }
      }
      assert was[..n] == old(batch[..n]);
      PendingPadded(batch[..n], j);
      assert batch[..n][..j] == batch[..j];
    }

    /** The buffer in slot i moves down to slot j, the first empty one. */
    method MoveSlot(i: int, j: int)
      requires 0 <= j <= i < batch.Length && batch[i].Some?
      requires forall k :: j <= k < i ==> batch[k] == None
      modifies batch
      ensures batch[j].Some? && forall k :: j < k <= i ==> batch[k] == None
      ensures forall k :: 0 <= k < j || i < k < batch.Length ==> batch[k] == old(batch[k])
      ensures Pending(batch[..j + 1]) == old(Pending(batch[..j])) + [old(batch[i].value)]
    {
      ghost var front := batch[..j];
      if j != i {
        batch[j] := batch[i];
        batch[i] := None;
      }
      assert batch[..j] == front;
      PendingSnoc(batch[..], 0, j);
      assert batch[..][0..j] == batch[..j] && batch[..][0..j + 1] == batch[..j + 1];
    }

    /** One attempt of retryWriteFn: compact what is left and write it. */
    method RetryOnce(n: int) returns (none: bool, err: Option<Fault>, ghost out: nat)
      requires 0 <= n <= batch.Length
      modifies batch, conn, `released
      ensures out <= |old(Held(n))| && State(n) == old(State(n)).Sent(out)
      ensures none ==> err.None? && old(Held(n)) == []
      ensures err.None? ==> out == |old(Held(n))|
      ensures Conn.Recorded(old(conn.faults), conn.faults, err)
      ensures forall k :: n <= k < batch.Length ==> batch[k] == old(batch[k])
    {
      var remaining := CompactBatch(n);
      if remaining <= 0 {
        assert old(State(n)) == old(State(n)).Sent(0);
        return true, None, 0;
      }
      none := false;
      ghost var done;
      err, out, done := WriteBatch(remaining);
      PendingPadded(batch[..n], remaining);
      assert batch[..n][..remaining] == batch[..remaining];
    }

    /** What the other goroutines do to the closing flag while this one sleeps. */
    method Sleep()
      modifies `closing
      ensures old(closing) ==> closing
    {
      var stopped: bool := *;
      closing := closing || stopped;
    }

    ghost predicate EachRetryable(faults: seq<Fault>) {
      forall i :: 0 <= i < |faults| ==> Retryable(faults[i])
    }

    /** Every failure but the last was worth another attempt. */
    ghost predicate AllRetried(faults: seq<Fault>) {
      faults == [] || EachRetryable(faults[..|faults| - 1])
    }

    /** Why the retries end without success after these failures: no retry is configured, the
        processor is closing, the last failure is final, or all attempts have failed. */
    ghost predicate GivesUp(faults: seq<Fault>)
      reads this
    {
      || maxRetry <= 0 || closing
      || (faults != [] && !Retryable(faults[|faults| - 1]))
      || |faults| == maxRetry
    }

    /** After these failures of retries that began with `all` held and `before` on record, the first
        `out` buffers are gone. */
    ghost predicate Retried(n: int, all: Log, before: seq<Fault>, out: nat, faults: seq<Fault>)
      reads this, batch, conn
    {
      && 0 <= n <= batch.Length
      && out <= |all.left| && State(n) == all.Sent(out)
      && conn.faults == before + faults
    }

    /** retryWriteFn: each attempt carries on from where the last one stopped. It fails only for a
        reason, and never sends anything once the processor is seen closing. */
    method RetryWriteFn(n: int) returns (ok: bool, ghost out: nat, ghost faults: seq<Fault>)
      requires 0 <= n <= batch.Length
      modifies batch, conn, `released, `closing
      ensures old(closing) ==> closing
      ensures out <= |old(Held(n))| && State(n) == old(State(n)).Sent(out)
      ensures ok ==> out == |old(Held(n))|
      ensures conn.faults == old(conn.faults) + faults && AllRetried(faults)
      ensures !ok ==> GivesUp(faults)
      ensures ok ==> |faults| < maxRetry && EachRetryable(faults)
      ensures maxRetry <= 0 || old(closing) ==> !ok && out == 0 && faults == []
      ensures forall k :: n <= k < batch.Length ==> batch[k] == old(batch[k])
    {
      ghost var all, before := State(n), conn.faults;
      ok, out, faults := false, 0, [];
      assert before + [] == before;
      assert Retried(n, all, before, 0, []);
      if maxRetry <= 0 {
        return;
      }
      for attempt := 1 to maxRetry + 1
        invariant Retried(n, all, before, out, faults) && EachRetryable(faults) && |faults| == attempt - 1
        invariant !ok && (old(closing) ==> closing && attempt == 1 && out == 0)
        invariant forall k :: n <= k < batch.Length ==> batch[k] == old(batch[k])
      {
        assert AllRetried(faults);
        if closing {
          return;
        }
        Sleep();
        var final: bool;
        ok, final, out, faults := Attempt(n, all, before, out, faults);
        if ok || final {
          return;
        }
      }
    }

    /** One more attempt: it succeeds, or adds a failure, which may be final. */
    method Attempt(n: int, ghost all: Log, ghost before: seq<Fault>, ghost out: nat, ghost faults: seq<Fault>)
      returns (ok: bool, final: bool, ghost out': nat, ghost faults': seq<Fault>)
      requires Retried(n, all, before, out, faults) && EachRetryable(faults)
      modifies batch, conn, `released
      ensures Retried(n, all, before, out', faults')
      ensures ok ==> out' == |all.left| && faults' == faults
      ensures !ok ==> |faults'| == |faults| + 1 && AllRetried(faults')
      ensures !ok ==> final == !Retryable(faults'[|faults|]) && (!final ==> EachRetryable(faults'))
      ensures forall k :: n <= k < batch.Length ==> batch[k] == old(batch[k])
    {
      var _, err, more := RetryOnce(n);
      SentOn(all, old(State(n)), out, more);
      ok, out' := err.None?, out + more;
      if ok {
        return true, false, out', faults;
      }
      OneMoreFault(before, faults, err.value);
      faults' := faults + [err.value];
      final := !Retryable(err.value);
    }

    static lemma SentOn(all: Log, mid: Log, out: nat, more: nat)
      requires out <= |all.left| && mid == all.Sent(out) && more <= |mid.left|
      ensures out + more <= |all.left| && mid.Sent(more) == all.Sent(out + more)
      ensures more == |mid.left| ==> out + more == |all.left|
    {
      SentTwice(all, out, more);
    }

    lemma OneMoreFault(before: seq<Fault>, faults: seq<Fault>, f: Fault)
      requires EachRetryable(faults)
      ensures before + faults + [f] == before + (faults + [f])
      ensures AllRetried(faults + [f]) && (Retryable(f) ==> EachRetryable(faults + [f]))
    {
      assert (faults + [f])[..|faults|] == faults;
    }

    /** The wire carries exactly the first `sent` accepted buffers, in the order they were
        accepted; every buffer taken off the queue was released once, every other one is queued. */
    ghost predicate Valid()
      reads this, batch, conn
    {
      && batch.Length == 32
      && (forall k :: 0 <= k < 32 ==> batch[k] == None)
      && |queue| <= |accepted| && sent <= Taken()
      && queue == accepted[Taken()..]
      && conn.wire == BytesOf(accepted[..sent])
      && released == accepted[..Taken()]
      && (!failed && !aborted ==> sent == Taken())
    }

    /** How many buffers have left the queue. */
    ghost function Taken(): nat
      requires |queue| <= |accepted|
      reads this
    {
      |accepted| - |queue|
    }

    /** Push fails: the queue is strict and has as many buffers as it may. */
    predicate NoRoom()
      reads this
    {
      isStrict && |queue| >= maxCount
    }

    /** The critical section of sendBufferDrop and sendBufferRetry; `wake` tells the caller to wake
        the write loop. */
    method Accept(b: Buf) returns (r: Admission, wake: bool)
      requires Valid()
      modifies `queue, `accepted
      ensures Valid() && r == if closing then Closed else if old(NoRoom()) then Full else Accepted
      ensures accepted == if r.Accepted? then old(accepted) + [b] else old(accepted)
      ensures queue == if r.Accepted? then old(queue) + [b] else old(queue)
      ensures wake <==> r.Accepted? && old(queue) == []
    {
      if closing {
        return Closed, false;
      }
      if isStrict && |queue| >= maxCount {
        return Full, false;
      }
      wake := |queue| == 0;
      queue := queue + [b];
      accepted := accepted + [b];
      assert accepted[..sent] == old(accepted[..sent]);
      assert accepted[..Taken()] == old(accepted[..Taken()]);
      r := Accepted;
    }

    /** sendBufferDrop: a buffer that is not accepted goes back to the pool, whether the caller is
        told (closed) or not (full). */
    method SendBufferDrop(b: Buf) returns (r: Admission, wake: bool)
      requires Valid()
      modifies `queue, `accepted, `refused
      ensures Valid() && r == if closing then Closed else if old(NoRoom()) then Full else Accepted
      ensures accepted == if r.Accepted? then old(accepted) + [b] else old(accepted)
      ensures queue == if r.Accepted? then old(queue) + [b] else old(queue)
      ensures refused == if r.Accepted? then old(refused) else old(refused) + [b]
      ensures wake <==> r.Accepted? && old(queue) == []
    {
      r, wake := Accept(b);
      if !r.Accepted? {
        refused := refused + [b];
      }
    }

    /** The list goes on from `was`, and b is its last entry. */
    static ghost predicate EndsWith(list: seq<Buf>, was: seq<Buf>, b: Buf) {
      list != [] && was <= list[..|list| - 1] && list[|list| - 1] == b
    }

    /** One attempt: a full queue means another one, unless this was the last. */
    method Ask(b: Buf, last: bool) returns (r: Admission, wake: bool)
      requires Valid()
      modifies `queue, `accepted, `refused, `asked
      ensures Valid() && asked == old(asked) + 1
      ensures r == if closing then Closed else if !old(NoRoom()) then Accepted else if last then Full else Trying
      ensures accepted == if r.Accepted? then old(accepted) + [b] else old(accepted)
      ensures queue == if r.Accepted? then old(queue) + [b] else old(queue)
      ensures refused == if r.Closed? || r.Full? then old(refused) + [b] else old(refused)
      ensures wake <==> r.Accepted? && old(queue) == []
    {
      asked := asked + 1;
      r, wake := Accept(b);
      if r.Full? && !last {
        return Trying, false;
      }
      if !r.Accepted? {
        refused := refused + [b];
      }
    }

    /** sendBufferRetry, over its first `rounds` attempts: asks up to maxTries times, or for ever when
        that is not positive, and between two attempts the other goroutines go on. When it returns,
        the buffer is the last one accepted or the last one given back. */
    method SendBufferRetry(b: Buf, maxTries: int, rounds: nat)
      returns (r: Admission, wake: bool, ghost tries: nat)
      requires Valid()
      modifies this, batch, conn
      ensures Valid() && old(accepted) <= accepted && old(refused) <= refused
      ensures r.Accepted? ==> !closing && EndsWith(accepted, old(accepted), b)
      ensures r.Accepted? ==> queue != [] && (wake <==> |queue| == 1)
      ensures r.Full? || r.Closed? ==> EndsWith(refused, old(refused), b)
      ensures !r.Accepted? ==> !wake
      ensures r.Closed? ==> closing
      ensures asked == old(asked) + tries && tries <= rounds && (0 < maxTries ==> tries <= maxTries)
      ensures r.Full? ==> !closing && NoRoom() && tries == maxTries > 0
      ensures r.Trying? ==> tries == rounds && (maxTries <= 0 || rounds < maxTries || rounds == 0)
      ensures rounds > 0 && old(closing) ==> r.Closed? && accepted == old(accepted)
      ensures rounds > 0 && !old(closing) && !old(NoRoom()) ==>
        && r.Accepted? && accepted == old(accepted) + [b] && queue == old(queue) + [b]
        && refused == old(refused) && tries == 1
    {
      for i := 0 to rounds
        invariant Valid() && old(accepted) <= accepted && old(refused) <= refused
        invariant asked == old(asked) + i
        invariant i == 0 ==> accepted == old(accepted) && queue == old(queue) && refused == old(refused)
        invariant i == 0 ==> closing == old(closing)
        invariant i > 0 ==> !old(closing) && old(NoRoom()) && (maxTries <= 0 || i < maxTries)
      {
        r, wake := Ask(b, maxTries > 0 && i >= maxTries - 1);
        tries := i + 1;
        if !r.Trying? {
          return;
        }
        Interlude();
      }
      return Trying, false, rounds;
    }

    /** What other goroutines do meanwhile: close, send buffers of their own, run the write loop. */
    method Interlude()
      requires Valid()
      modifies this, batch, conn
      ensures Valid() && old(accepted) <= accepted && old(refused) <= refused && asked == old(asked)
    {
      var steps: int := *;
      while steps > 0
        invariant Valid() && old(accepted) <= accepted && old(refused) <= refused && asked == old(asked)
      {
        steps := steps - 1;
        var act: int := *;
        if act == 0 {
          Close();
        } else if act == 1 && !failed && !aborted {
          var _, _ := Turn();
        } else {
          var other: Buf := *;
          var _, _ := SendBufferDrop(other);
        }
      }
    }

    /** Stop: from here on nothing is accepted. */
    method Close()
      requires Valid()
      modifies `closing
      ensures Valid() && closing
    {
      closing := true;
    }

    /** The queue's PopMany: the first n buffers move into the batch. */
    method PopInto(n: int)
      requires 0 <= n <= |queue| && n <= batch.Length
      modifies batch, `queue
      ensures queue == old(queue)[n..]
      ensures Held(n) == old(queue)[..n]
      ensures forall k :: n <= k < batch.Length ==> batch[k] == old(batch[k])
    {
      assert Pending(batch[..0]) == [];
      for i := 0 to n
        invariant queue == old(queue)[i..]
        invariant Pending(batch[..i]) == old(queue)[..i]
        invariant forall k :: n <= k < batch.Length ==> batch[k] == old(batch[k])
      {
        ghost var front := batch[..i];
        batch[i] := Some(queue[0]);
        queue := queue[1..];
        assert batch[..i] == front;
        PendingSnoc(batch[..], 0, i);
        assert batch[..][0..i] == batch[..i] && batch[..][0..i + 1] == batch[..i + 1];
      }
    }

    /** What a write that failed for good was up against: at least one failure, and after the first
        one a reason not to go on. */
    ghost predicate Defeated(faults: seq<Fault>)
      reads this
    {
      && faults != [] && AllRetried(faults)
      && (!Retryable(faults[|faults| - 1]) || maxRetry <= 0 || closing || |faults| == maxRetry + 1)
    }

    /** writeFn and, when its error allows it, retryWriteFn. */
    method Write(n: int) returns (err: Option<Fault>, ghost out: nat, ghost faults: seq<Fault>)
      requires 0 < n <= batch.Length
      modifies batch, conn, `released, `closing
      ensures old(closing) ==> closing
      ensures out <= |old(Held(n))| && State(n) == old(State(n)).Sent(out)
      ensures err.None? ==> out == |old(Held(n))|
      ensures conn.faults == old(conn.faults) + faults
      ensures err.Some? ==> Defeated(faults) && err.value == faults[0]
      ensures err.None? ==> EachRetryable(faults) && (faults == [] || |faults| <= maxRetry)
      ensures forall k :: n <= k < batch.Length ==> batch[k] == old(batch[k])
    {
      ghost var all := State(n);
      faults := [];
      ghost var done;
      err, out, done := WriteBatch(n);
      if err.None? {
        assert conn.faults == old(conn.faults) + [];
        return;
      }
      faults := [err.value];
      if Retryable(err.value) {
        err, out, faults := Recover(n, all, old(conn.faults), out, err.value);
      }
    }

    /** retryWriteFn after a first failure. */
    method Recover(n: int, ghost all: Log, ghost before: seq<Fault>, ghost out: nat, first: Fault)
      returns (err: Option<Fault>, ghost out': nat, ghost faults: seq<Fault>)
      requires Retried(n, all, before, out, [first]) && Retryable(first)
      modifies batch, conn, `released, `closing
      ensures old(closing) ==> closing
      ensures Retried(n, all, before, out', faults)
      ensures err.None? ==> out' == |all.left| && EachRetryable(faults) && |faults| <= maxRetry
      ensures err.Some? ==> Defeated(faults) && err.value == first == faults[0]
      ensures forall k :: n <= k < batch.Length ==> batch[k] == old(batch[k])
    {
      var ok, more, further := RetryWriteFn(n);
      SentTwice(all, out, more);
      FirstAndFurther(before, first, further);
      out', faults := out + more, [first] + further;
      err := if ok then None else Some(first);
    }

    lemma FirstAndFurther(before: seq<Fault>, first: Fault, further: seq<Fault>)
      requires Retryable(first) && AllRetried(further)
      ensures before + [first] + further == before + ([first] + further)
      ensures AllRetried([first] + further)
      ensures EachRetryable(further) ==> EachRetryable([first] + further)
      ensures ([first] + further)[|further|] == if further == [] then first else further[|further| - 1]
    {
      var all := [first] + further;
      if further == [] {
        assert all[..0] == [];
      } else {
        assert all[..|further|] == [first] + further[..|further| - 1];
      }
    }

    /** Takes n buffers off the queue and writes them: all of them, or a prefix and the rest is
        released unsent. */
    method PopAndWrite(n: int) returns (err: Option<Fault>, ghost faults: seq<Fault>)
      requires Valid() && !failed && !aborted && 0 < n <= |queue| && n <= batch.Length
      modifies batch, conn, `queue, `released, `sent, `failed, `closing
      ensures Valid() && queue == old(queue)[n..]
      ensures old(closing) ==> closing
      ensures old(sent) <= sent <= old(sent) + n
      ensures failed == err.Some?
      ensures err.None? ==> sent == old(sent) + n
      ensures conn.faults == old(conn.faults) + faults
      ensures err.Some? ==> Defeated(faults)
    {
      ghost var popped := queue[..n];
      ghost var out;
      FrontOf(accepted, sent, queue, n);
      err, out, faults := SendFront(n);
      Account(accepted, sent, popped, out);
      sent, failed := sent + out, err.Some?;
    }

    /** What that does to the wire, the pool and the queue. */
    method SendFront(n: int) returns (err: Option<Fault>, ghost out: nat, ghost faults: seq<Fault>)
      requires 0 < n <= |queue| && n <= batch.Length && forall k :: 0 <= k < batch.Length ==> batch[k] == None
      modifies batch, conn, `queue, `released, `closing
      ensures out <= n && (err.None? ==> out == n) && (old(closing) ==> closing)
      ensures conn.faults == old(conn.faults) + faults && (err.Some? ==> Defeated(faults))
      ensures queue == old(queue)[n..] && conn.wire == old(conn.wire) + BytesOf(old(queue)[..n][..out])
      ensures released == old(released) + old(queue)[..n]
      ensures forall k :: 0 <= k < batch.Length ==> batch[k] == None
    {
      ghost var popped := queue[..n];
      PopInto(n);
      err, out, faults := WritePopped(n, popped);
    }

    /** Writes the first n slots; what does not go out is released unsent. */
    method WritePopped(n: int, ghost popped: seq<Buf>)
      returns (err: Option<Fault>, ghost out: nat, ghost faults: seq<Fault>)
      requires 0 < n <= batch.Length && Held(n) == popped && |popped| == n
      modifies batch, conn, `released, `closing
      ensures out <= n && (err.None? ==> out == n)
      ensures old(closing) ==> closing
      ensures conn.faults == old(conn.faults) + faults
      ensures err.Some? ==> Defeated(faults)
      ensures conn.wire == old(conn.wire) + BytesOf(popped[..out])
      ensures released == old(released) + popped
      ensures forall k :: 0 <= k < n ==> batch[k] == None
      ensures forall k :: n <= k < batch.Length ==> batch[k] == old(batch[k])
    {
      ghost var before := State(n);
      err, out, faults := Write(n);
      SentIs(before, out);
      if err.Some? {
        assert batch[0..n] == batch[..n];
        Release(0, n);
        Associative(before.released, popped[..out], popped[out..]);
        assert popped[..out] + popped[out..] == popped;
      } else {
        NothingPending(batch[..n]);
        assert forall k :: 0 <= k < n ==> batch[k] == batch[..n][k];
      }
    }

    /** One turn of writeLoop's inner loop. It fails only after failed sends it could not make good. */
    method Turn() returns (r: Pass, ghost faults: seq<Fault>)
      requires Valid() && !failed && !aborted
      modifies batch, conn, `queue, `released, `sent, `failed, `closing
      ensures Valid() && sent >= old(sent)
      ensures old(closing) ==> closing
      ensures conn.faults == old(conn.faults) + faults
      ensures r.Again? ==> |queue| < |old(queue)| && sent == Taken()
      ensures r.Failed? <==> failed
      ensures r.Failed? ==> Defeated(faults)
      ensures old(queue) == [] ==> r == (if closing then Drained else Idle) && closing == old(closing)
      ensures r.Idle? || r.Drained? ==> old(queue) == [] && sent == |accepted| && released == accepted
    {
      if |queue| == 0 {
        assert accepted[..|accepted|] == accepted;
        return if closing then Drained else Idle, [];
      }
      var n: int :| 1 <= n <= |queue| && n <= 32;   // how many PopMany returns
      var err;
      err, faults := PopAndWrite(n);
      r := if err.Some? then Failed else Again;
    }

    /** The release loop run when closeCh is closed: nothing more is sent, everything is released. */
    method Abort()
      requires Valid() && !failed && !aborted && closing
      modifies batch, `queue, `released, `aborted
      ensures Valid() && aborted && queue == [] && released == accepted
    {
      aborted := true;
      while |queue| > 0
        invariant Valid() && aborted
      {
        var n: int :| 1 <= n <= |queue| && n <= 32;
        ghost var popped := queue[..n];
        ghost var before := Taken();
        PopInto(n);
        Release(0, n);
        assert accepted[..before + n] == accepted[..before] + popped;
      }
      assert accepted[..|accepted|] == accepted;
    }
  }
}
