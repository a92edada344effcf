/** What the buffer queues promise whichever implementation is chosen: a sequence of buffers, and how
    many of them one PopMany takes. */
module Fifo {
  import opened Wrappers

  /** A queued buffer; only its length matters here. */
  datatype Buf = Buf(id: nat, len: nat)

  /** A queue slot: None is the nil buffer, which both queues accept. */
  type Item = Option<Buf>

  const DEFAULT_SIZE := 128

  function Len(b: Item): nat {
    if b.Some? then b.value.len else 0
  }

  function Total(s: seq<Item>): nat {
    if s == [] then 0 else Len(s[0]) + Total(s[1..])
  }

  /** The count PopMany works with: at least one, and no more than fit or are there. */
  function Clamp(count: int, room: nat, queued: nat): int {
    var c := if count < 1 then 1 else count;
    var d := if c > room then room else c;
    if d > queued then queued else d
  }

  /** How many more items are taken once the first i, of `total` bytes, are. */
  function More(s: seq<Item>, i: nat, count: int, limit: int, total: nat): nat
    requires i <= |s|
    decreases |s| - i
  {
    if i == |s| || i >= count then 0
    else if limit > 0 && i > 0 && s[i].Some? && total + Len(s[i]) > limit then 0
    else if limit > 0 && total + Len(s[i]) >= limit then 1
    else 1 + More(s, i + 1, count, limit, total + Len(s[i]))
  }

  /** How many items PopMany takes off a queue. */
  function Taken(s: seq<Item>, count: int, room: nat, limit: int): nat {
    More(s, 0, Clamp(count, room, |s|), limit, 0)
  }

  lemma {:induction false} TotalSnoc(s: seq<Item>, n: nat)
    requires n < |s|
    ensures Total(s[..n + 1]) == Total(s[..n]) + Len(s[n])
    decreases n
  {
    if n == 0 {
      assert s[..1][1..] == [] && s[..0] == [];
    } else {
      TotalSnoc(s[1..], n - 1);
      assert s[..n + 1][1..] == s[1..][..n] && s[..n][1..] == s[1..][..n - 1];
    }
  }

  /** Not a byte of room is left for the next item. */
  predicate TooBig(b: Item, i: nat, limit: int, total: nat) {
    limit > 0 && i > 0 && b.Some? && total + Len(b) > limit
  }

  /** One item more; a nil item never reaches a limit that was not reached before it. */
  lemma MoreStep(s: seq<Item>, i: nat, count: int, limit: int, total: nat)
    requires i < |s| && i < count
    requires limit > 0 ==> total < limit
    ensures TooBig(s[i], i, limit, total) ==> More(s, i, count, limit, total) == 0
    ensures !TooBig(s[i], i, limit, total) ==>
      More(s, i, count, limit, total) == 1 +
        if s[i].Some? && limit > 0 && total + Len(s[i]) >= limit then 0
        else More(s, i + 1, count, limit, total + Len(s[i]))
  {
  }

  /** A PopMany that took `written` items of `total` bytes is on its way to taking `goal`. */
  predicate OnTrack(s: seq<Item>, count: int, limit: int, goal: nat, written: nat, total: nat, stop: bool) {
    && written <= |s| && written <= count
    && (limit > 0 && !stop ==> total < limit)
    && goal == written + if stop then 0 else More(s, written, count, limit, total)
  }

  lemma TrackStop(s: seq<Item>, count: int, limit: int, goal: nat, written: nat, total: nat)
    requires OnTrack(s, count, limit, goal, written, total, false) && written < |s|
    requires TooBig(s[written], written, limit, total)
    ensures OnTrack(s, count, limit, goal, written, total, true)
  {
  }

  lemma TrackTake(s: seq<Item>, count: int, limit: int, goal: nat, written: nat, total: nat)
    requires OnTrack(s, count, limit, goal, written, total, false) && written < |s| && written < count
    requires !TooBig(s[written], written, limit, total)
    ensures OnTrack(s, count, limit, goal, written + 1, total + Len(s[written]),
                    s[written].Some? && limit > 0 && total + Len(s[written]) >= limit)
  {
    MoreStep(s, written, count, limit, total);
  }

  /** What one turn of the loop does to the account. */
  predicate Turned(b: Item, limit: int, i: nat, total: nat, i': nat, total': nat, stop: bool) {
    if TooBig(b, i, limit, total) then i' == i && total' == total && stop
    else i' == i + 1 && total' == total + Len(b) && stop == (b.Some? && limit > 0 && total' >= limit)
  }

  lemma Track(s: seq<Item>, count: int, limit: int, goal: nat, i: nat, total: nat,
              i': nat, total': nat, stop: bool)
    requires OnTrack(s, count, limit, goal, i, total, false) && i < |s| && i < count
    requires Turned(s[i], limit, i, total, i', total', stop)
    ensures OnTrack(s, count, limit, goal, i', total', stop)
  {
    if TooBig(s[i], i, limit, total) {
      TrackStop(s, count, limit, goal, i, total);
    } else {
      TrackTake(s, count, limit, goal, i, total);
    }
  }

  /** Why a PopMany stops after n items. */
  predicate Stops(s: seq<Item>, count: int, limit: int, n: nat)
    requires n <= |s|
  {
    || n == |s|
    || n >= count
    || (limit > 0 && Total(s[..n]) >= limit)
    || (limit > 0 && s[n].Some? && Total(s[..n]) + Len(s[n]) > limit)
  }

  lemma {:induction false} MoreStops(s: seq<Item>, i: nat, count: int, limit: int)
    requires i <= |s| && (i > 0 ==> i <= count)
    requires limit > 0 && i > 0 ==> Total(s[..i]) < limit
    ensures var n := i + More(s, i, count, limit, Total(s[..i]));
      && n <= |s|
      && (n > 0 ==> n <= count)
      && (limit > 0 ==> Total(s[..n]) <= limit || n <= 1)
      && Stops(s, count, limit, n)
    decreases |s| - i
  {
    if i < |s| {
      TotalSnoc(s, i);
      if i < count && !(limit > 0 && Total(s[..i + 1]) >= limit) {
        MoreStops(s, i + 1, count, limit);
      }
    }
  }

  /** It stops at the first of these points. */
  lemma {:induction false} MoreIsLeast(s: seq<Item>, i: nat, count: int, limit: int, m: nat)
    requires i <= |s| && (i > 0 ==> i <= count)
    requires limit > 0 && i > 0 ==> Total(s[..i]) < limit
    requires i < m < i + More(s, i, count, limit, Total(s[..i])) && m <= |s|
    ensures !Stops(s, count, limit, m)
    decreases |s| - i
  {
    TotalSnoc(s, i);
    if i + 1 < m {
      MoreIsLeast(s, i + 1, count, limit, m);
    } else {
      TotalSnoc(s, m);
    }
  }

  /** Exactly: a PopMany on a non-empty queue takes the least positive number of items at which it has
      a reason to stop, when a count below 1 stands for 1 and no more are asked for than fit. */
  lemma TakenIsLeast(s: seq<Item>, count: int, room: nat, limit: int)
    requires s != [] && room > 0
    ensures var n, c := Taken(s, count, room, limit), Clamp(count, room, |s|);
      && c == (if count < 1 then 1 else if count <= room && count <= |s| then count
               else if room <= |s| then room else |s|)
      && 0 < n <= |s| && Stops(s, c, limit, n)
      && forall m :: 0 < m < n ==> !Stops(s, c, limit, m)
  {
    assert s[..0] == [];
    var c := Clamp(count, room, |s|);
    MoreStops(s, 0, c, limit);
    forall m | 0 < m < Taken(s, count, room, limit) ensures !Stops(s, c, limit, m) {
      MoreIsLeast(s, 0, c, limit, m);
    }
  }

  /** A PopMany on a non-empty queue takes at least one item and no more than asked for or fit; it
      stays within the byte limit unless it takes a single item; and it stops only because the count
      is reached, the limit is reached, or the next item would exceed it. */
  lemma TakenBounds(s: seq<Item>, count: int, room: nat, limit: int)
    requires s != [] && room > 0
    ensures var n := Taken(s, count, room, limit);
      && 1 <= n <= |s| && n <= room && (count >= 1 ==> n <= count)
      && (limit > 0 ==> Total(s[..n]) <= limit || n == 1)
      && (n == |s| || n == room || n >= count
          || (limit > 0 && Total(s[..n]) >= limit)
          || (limit > 0 && s[n].Some? && Total(s[..n]) + Len(s[n]) > limit))
  {
    assert s[..0] == [];
    MoreStops(s, 0, Clamp(count, room, |s|), limit);
  }
}
