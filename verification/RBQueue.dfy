/** The growing ring queue with one wasted slot: tail is the slot of the last element, head the slot
    before the first, and head == tail would mean full. */
module RBQueue {
  import opened Arithmetic
  import opened Wrappers

  class Queue<T(0)> {
    var len: nat
    var buffer: array<T>
    var head: nat
    var tail: nat
    var mod: nat
    const zero: T
    ghost var items: seq<T>

    constructor (initialSize: nat, zero: T)
      requires initialSize > 0
      ensures Valid() && items == [] && fresh(buffer)
    {
      this.buffer := new T[initialSize](_ => zero);
      this.zero := zero;
      this.len, this.head, this.tail, this.mod, this.items := 0, 0, 0, initialSize, [];
    }

    ghost predicate Valid()
      reads this, buffer
    {
      && buffer.Length == mod && mod > 0 && head < mod
      && len == |items| < mod
      && tail == Wrap(head + len, mod)
      && forall i :: 0 <= i < len ==> items[i] == buffer[Wrap(head + 1 + i, mod)]
    }

    method Push(item: T)
      requires Valid()
      modifies this, buffer
      ensures Valid() && (buffer == old(buffer) || fresh(buffer))
      ensures items == old(items) + [item]
    {
      WrapIsMod(tail + 1, mod);
      tail := (tail + 1) % mod;
      if tail == head {
        Grow();
      }
      len := len + 1;
      buffer[tail] := item;
      items := items + [item];
    }

    /** The ring is full but for the wasted slot, which tail has just reached: everything is copied
        to the front of a ring twice the size, the wasted slot first. */
    method Grow()
      requires buffer.Length == mod && mod > 0 && head < mod && tail == head
      requires len == |items| == mod - 1
      requires forall i :: 0 <= i < len ==> items[i] == buffer[Wrap(head + 1 + i, mod)]
      modifies this
      ensures fresh(buffer) && buffer.Length == mod == 2 * old(mod)
      ensures head == 0 && tail == old(mod) == len + 1 && len == old(len) && items == old(items)
      ensures forall i :: 0 <= i < len ==> items[i] == buffer[1 + i]
    {
      var oldBuff, at, oldLen := buffer, tail, mod;
      var newBuff := new T[oldLen * 2](_ => zero);
      for i := 0 to oldLen
        invariant oldBuff[..] == old(buffer[..]) && len == old(len) && items == old(items)
        invariant forall k :: 0 <= k < i ==> newBuff[k] == oldBuff[Wrap(at + k, oldLen)]
      {
        WrapIsMod(at + i, oldLen);
        newBuff[i] := oldBuff[(at + i) % oldLen];
      }
      buffer, head, tail, mod := newBuff, 0, oldLen, oldLen * 2;
    }

    method Pop() returns (r: Option<T>)
      requires Valid()
      modifies this, buffer
      ensures Valid() && buffer == old(buffer)
      ensures old(items) == [] ==> r == None && items == []
      ensures old(items) != [] ==> r == Some(old(items)[0]) && items == old(items)[1..]
    {
      if len == 0 {
        return None;
      }
      WrapIsMod(head + 1, mod);
      head := (head + 1) % mod;
      r := Some(buffer[head]);
      buffer[head] := zero;
      len := len - 1;
      items := items[1..];
    }

    /** Takes up to count elements into the front of the given buffer, or of a new one when that is
        too small. */
    method PopMany(count: int, given: array<T>) returns (out: array<T>, n: nat, ok: bool)
      requires Valid() && given != buffer
      modifies this, buffer, given
      ensures Valid() && buffer == old(buffer)
      ensures ok == (old(items) != [] && count > 0)
      ensures n == if !ok then 0 else if count > |old(items)| then |old(items)| else count
      ensures n <= out.Length && out[..n] == old(items)[..n]
      ensures items == old(items)[n..]
      ensures if n <= given.Length then out == given else fresh(out)
    {
      if len == 0 || count <= 0 {
        return given, 0, false;
      }
      n := if count > len then len else count;
      out := Room(n, given);
      TakeOut(n, out);
      Advance(n);
      ok := true;
    }

    method Room(n: nat, given: array<T>) returns (out: array<T>)
      ensures n <= out.Length
      ensures if n <= given.Length then out == given else fresh(out)
    {
      out := given;
      if n > given.Length {
        out := new T[n](_ => zero);
      }
    }

    /** Moves the head over the first n elements, which are gone already. */
    method Advance(n: nat)
      requires buffer.Length == mod && head < mod && n <= len == |items| < mod && tail == Wrap(head + len, mod)
      requires forall k :: n <= k < len ==> items[k] == buffer[Wrap(head + 1 + k, mod)]
      modifies `len, `head, `items
      ensures Valid() && items == old(items)[n..]
    {
      len := len - n;
      WrapIsMod(head + n, mod);
      head := (head + n) % mod;
      items := items[n..];
    }

    /** The copying loop of PopMany. */
    method TakeOut(n: nat, out: array<T>)
      requires buffer.Length == mod && head < mod && n <= |items| < mod && n <= out.Length && out != buffer
      requires forall k :: 0 <= k < |items| ==> items[k] == buffer[Wrap(head + 1 + k, mod)]
      modifies buffer, out
      ensures out[..n] == items[..n]
      ensures forall k :: n <= k < |items| ==> items[k] == buffer[Wrap(head + 1 + k, mod)]
    {
      for i := 0 to n
        invariant out[..i] == items[..i]
        invariant forall k :: i <= k < |items| ==> items[k] == buffer[Wrap(head + 1 + k, mod)]
      {
        WrapIsMod(head + 1 + i, mod);
        var pos := (head + 1 + i) % mod;
        out[i] := buffer[pos];
        buffer[pos] := zero;
      }
    }
  }
}
