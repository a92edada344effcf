/** The growing byte ring: r is the next byte to read, w the next slot to write; r == w is told
    apart by isEmpty. */
module ByteRing {
  import opened Arithmetic
  import opened Bytes
  import opened Wrappers

  const DEFAULT_BUFFER_SIZE := 1024
  const BUFFER_GROW_THRESHOLD := 4096

  /** The least power of two that is at least n. */
  function CeilToPowerOfTwo(n: nat, p: nat := 1): (r: nat)
    requires p > 0
    ensures r >= n && r >= p
    decreases if n > p then n - p else 0
  {
    if p >= n then p else CeilToPowerOfTwo(n, 2 * p)
  }

  function PowerOfTwo(k: nat): (r: nat)
    ensures r > 0
  {
    if k == 0 then 1 else 2 * PowerOfTwo(k - 1)
  }

  /** It is a power of two, and the next smaller one does not do. */
  lemma {:induction false} CeilIsLeast(n: nat, p: nat, k: nat)
    requires p == PowerOfTwo(k) && (k > 0 ==> n > PowerOfTwo(k - 1))
    ensures exists j: nat :: j >= k && CeilToPowerOfTwo(n, p) == PowerOfTwo(j) && (j > 0 ==> n > PowerOfTwo(j - 1))
    decreases if n > p then n - p else 0
  {
    if p < n {
      CeilIsLeast(n, 2 * p, k + 1);
    }
  }

  /** Growth by quarters until newCap fits. */
  function ByQuarters(n: nat, newCap: nat): (c: nat)
    requires n >= 4
    ensures c >= newCap && c >= n
    decreases if newCap > n then newCap - n else 0
  {
    if n >= newCap then n else ByQuarters(n + n / 4, newCap)
  }

  /** The size that grow arrives at. */
  function Grown(size: nat, newCap: nat): nat {
    if size == 0 then
      if newCap <= DEFAULT_BUFFER_SIZE then DEFAULT_BUFFER_SIZE else CeilToPowerOfTwo(newCap)
    else if newCap <= 2 * size then
      if size < BUFFER_GROW_THRESHOLD then 2 * size else ByQuarters(size, newCap)
    else newCap
  }

  lemma {:induction false} QuartersFit(n: nat, newCap: nat)
    requires n >= 4
    ensures ByQuarters(n, newCap) <= if n >= newCap then n else newCap + newCap / 4
    decreases if newCap > n then newCap - n else 0
  {
    if n < newCap {
      QuartersFit(n + n / 4, newCap);
    }
  }

  /** Growing wastes little: a new ring has 1024 bytes or, when that is too few, the least power of two
      that is enough; a request beyond twice the size is met exactly; below the threshold the size
      doubles; above it a ring that is large enough stays, and another grows to at most a quarter more
      than asked for. */
  lemma GrownIsTight(size: nat, newCap: nat)
    ensures Grown(size, newCap) >= newCap
    ensures size == 0 && newCap <= 1024 ==> Grown(size, newCap) == 1024
    ensures size == 0 && newCap > 1024 ==>
      exists j: nat :: Grown(size, newCap) == PowerOfTwo(j) && (j > 0 ==> newCap > PowerOfTwo(j - 1))
    ensures size != 0 && newCap > 2 * size ==> Grown(size, newCap) == newCap
    ensures 0 < size < 4096 && newCap <= 2 * size ==> Grown(size, newCap) == 2 * size
    ensures size >= 4096 && newCap <= size ==> Grown(size, newCap) == size
    ensures size >= 4096 && size < newCap <= 2 * size ==> Grown(size, newCap) <= newCap + newCap / 4
  {
    if size == 0 {
      CeilIsLeast(newCap, 1, 0);
    } else if size >= 4096 {
      QuartersFit(size, newCap);
    }
  }

  /** Write asks for enough: the grown ring takes the new bytes. */
  lemma GrownTakesWrite(size: nat, buffered: nat, n: nat)
    requires buffered <= size && n > size - buffered
    ensures Grown(size, size + n - (size - buffered)) >= buffered + n
  {
  }

  /** The size WriteByte works with. */
  function SizeForByte(size: nat, buffered: nat): nat {
    if size - buffered < 1 then Grown(size, 1) else size
  }

  /** WriteByte has room exactly when the ring is not full or is below the growth threshold: grow(1)
      does not enlarge a full ring of 4096 bytes or more, and the source then indexes out of bounds. */
  lemma WriteByteHasRoom(size: nat, buffered: nat)
    requires buffered <= size
    ensures SizeForByte(size, buffered) > buffered <==> buffered < size || size < BUFFER_GROW_THRESHOLD
  {
    if size >= BUFFER_GROW_THRESHOLD {
      assert ByQuarters(size, 1) == size;
    }
  }

  class Buffer {
    var buf: array<Byte>
    var size: nat
    var r: nat
    var w: nat
    var isEmpty: bool
    ghost var items: seq<Byte>        // the buffered bytes, oldest first

    constructor (size: nat)
      ensures Valid() && items == [] && fresh(buf)
      ensures this.size == if size == 0 then 0 else CeilToPowerOfTwo(size)
    {
      var n := if size == 0 then 0 else CeilToPowerOfTwo(size);
      this.buf := new Byte[n](_ => 0);
      this.size, this.r, this.w, this.isEmpty, this.items := n, 0, 0, true, [];
    }

    ghost predicate Valid()
      reads this, buf
    {
      && buf.Length == size
      && (isEmpty ==> r == w == 0 && items == [])
      && (!isEmpty ==>
           && r < size && w < size
           && |items| == (if w > r then w - r else size - r + w)
           && forall i :: 0 <= i < |items| ==> items[i] == buf[Wrap(r + i, size)])
    }

    method Buffered() returns (n: nat)
      requires Valid()
      ensures n == |items|
    {
      if r == w {
        return if isEmpty then 0 else size;
      }
      return if w > r then w - r else size - r + w;
    }

    method Available() returns (n: nat)
      requires Valid()
      ensures n == size - |items|
    {
      if r == w {
        return if isEmpty then size else 0;
      }
      return if w < r then r - w else size - w + r;
    }

    method Reset()
      modifies `isEmpty, `r, `w, `items
      ensures isEmpty && r == w == 0 && items == []
    {
      isEmpty, r, w := true, 0, 0;
      items := [];
    }

    /** The next n bytes, all of them for n <= 0, in one or two pieces, left in place. */
    method Peek(n: int) returns (head: seq<Byte>, tail: seq<Byte>)
      requires Valid()
      ensures head + tail == if 0 < n < |items| then items[..n] else items
    {
      head, tail := [], [];
      if isEmpty {
        return;
      }
      if n <= 0 {
        head, tail := PeekAll();
        return;
      }
      if w > r {
        var m := w - r;
        if m > n {
          m := n;
        }
        head := buf[r..r + m];
        return;
      }
      var m := size - r + w;
      if m > n {
        m := n;
      }
      if r + m <= size {
        head := buf[r..r + m];
      } else {
        head := buf[r..];
        tail := buf[..m - (size - r)];
      }
    }

    method PeekAll() returns (head: seq<Byte>, tail: seq<Byte>)
      requires Valid()
      ensures head + tail == items
    {
      head, tail := [], [];
      if isEmpty {
        return;
      }
      if w > r {
        head := buf[r..w];
        return;
      }
      head := buf[r..];
      if w != 0 {
        tail := buf[..w];
      }
    }

    /** A copy of everything buffered. */
    method Bytes() returns (bb: seq<Byte>)
      requires Valid()
      ensures bb == items
    {
      if isEmpty {
        return [];
      } else if w == r {
        return buf[r..] + buf[..w];
      }
      if w > r {
        return buf[r..w];
      }
      bb := buf[r..];
      if w != 0 {
        bb := bb + buf[..w];
      }
    }

    /** Skips n bytes, or all of them. */
    method Discard(n: int) returns (discarded: nat)
      requires Valid()
      modifies `isEmpty, `r, `w, `items
      ensures Valid()
      ensures discarded == if n <= 0 then 0 else if n < |old(items)| then n else |old(items)|
      ensures items == old(items)[discarded..]
    {
      if n <= 0 {
        return 0;
      }
      discarded := Buffered();
      if n < discarded {
        WrapIsMod(r + n, size);
        r := (r + n) % size;
        items := items[n..];
        return n;
      }
      Reset();
    }

    /** Up to p.Length bytes move to the front of p; None stands for ErrIsEmpty. */
    method Read(p: array<Byte>) returns (n: Option<nat>)
      requires Valid() && p != buf
      modifies `isEmpty, `r, `w, `items, p
      ensures Valid()
      ensures n == None <==> p.Length > 0 && old(items) == []
      ensures n.Some? ==> n.value == if p.Length < |old(items)| then p.Length else |old(items)|
      ensures items == old(items)[if n.Some? then n.value else 0..]
      ensures n.Some? ==> p[..n.value] == old(items)[..n.value] && p[n.value..] == old(p[n.value..])
      ensures n.None? ==> p[..] == old(p[..])
    {
      if p.Length == 0 {
        return Some(0);
      }
      if isEmpty {
        return None;
      }
      var k := if w > r then w - r else size - r + w;
      if k > p.Length {
        k := p.Length;
      }
      if r + k <= size {
        forall i | 0 <= i < k { p[i] := buf[r + i]; }
      } else {
        var c1 := size - r;
        forall i | 0 <= i < c1 { p[i] := buf[r + i]; }
        forall i | 0 <= i < k - c1 { p[c1 + i] := buf[i]; }
      }
      Consume(k);
      n := Some(k);
    }

    /** Moves r past the k oldest bytes. */
    method Consume(k: nat)
      requires Valid() && 0 < k <= |items|
      modifies `isEmpty, `r, `w, `items
      ensures Valid() && items == old(items)[k..]
    {
      WrapIsMod(r + k, size);
      r := if w > r then r + k else (r + k) % size;
      items := items[k..];
      if r == w {
        Reset();
      }
    }

    method ReadByte() returns (b: Option<Byte>)
      requires Valid()
      modifies `isEmpty, `r, `w, `items
      ensures Valid()
      ensures old(items) == [] ==> b == None && items == []
      ensures old(items) != [] ==> b == Some(old(items)[0]) && items == old(items)[1..]
    {
      if isEmpty {
        return None;
      }
      b := Some(buf[r]);
      r := r + 1;
      if r == size {
        r := 0;
      }
      items := items[1..];
      if r == w {
        Reset();
      }
    }

    /** Appends all of p, growing the ring when it does not fit. */
    method Write(p: seq<Byte>) returns (n: nat)
      requires Valid()
      modifies this, buf
      ensures Valid() && (buf == old(buf) || fresh(buf))
      ensures n == |p| && items == old(items) + p
    {
      n := |p|;
      if n == 0 {
        return;
      }
      var free := Available();
      if n > free {
        GrownTakesWrite(size, |items|, n);
        Grow(size + n - free);
      }
      Put(p);
    }

    /** The copying half of Write: there is room. */
    method Put(p: seq<Byte>)
      requires Valid() && 0 < |p| <= size - |items|
      modifies `w, `isEmpty, `items, buf
      ensures Valid() && items == old(items) + p
    {
      var n := |p|;
      CopyIn(p);
      w := if w >= r && size - w < n then n - (size - w) else w + n;
      if w == size {
        w := 0;
      }
      isEmpty := false;
      items := items + p;
    }

    /** The copies of Write: p goes to the free slots from w on, round the end if need be. */
    method CopyIn(p: seq<Byte>)
      requires Valid() && |p| <= size - |items|
      modifies buf
      ensures Valid()
      ensures forall i :: 0 <= i < |p| ==> buf[Wrap(w + i, size)] == p[i]
    {
      var n := |p|;
      if w >= r {
        var c1 := size - w;
        if c1 >= n {
          forall i | 0 <= i < n { buf[w + i] := p[i]; }
        } else {
          forall i | 0 <= i < c1 { buf[w + i] := p[i]; }
          forall i | 0 <= i < n - c1 { buf[i] := p[c1 + i]; }
        }
      } else {
        forall i | 0 <= i < n { buf[w + i] := p[i]; }
      }
    }

    /** Moves everything to the front of a ring of the grown size. */
    method Grow(newCap: nat)
      requires Valid()
      requires Grown(size, newCap) > |items|
      modifies this
      ensures Valid() && fresh(buf) && size == Grown(old(size), newCap)
      ensures items == old(items)
    {
      var c := Grown(size, newCap);
      var newBuf := new Byte[c](_ => 0);
      var oldLen := Buffered();
      ghost var all := items;
      var _ := Read(newBuf);
      items := all;
      buf := newBuf;
      r, w, size := 0, oldLen, c;
      if w > 0 {
        isEmpty := false;
      }
    }

    /** Appends one byte. On a full ring at or above the threshold grow(1) does not enlarge it, and
        the source then writes out of bounds; everywhere else the byte is appended. */
    method WriteByte(b: Byte)
      requires Valid()
      requires |items| < size || size < BUFFER_GROW_THRESHOLD
      modifies this, buf
      ensures Valid() && (buf == old(buf) || fresh(buf))
      ensures items == old(items) + [b]
    {
      var free := Available();
      if free < 1 {
        WriteByteHasRoom(size, |items|);
        Grow(1);
      }
      PutByte(b);
    }

    method PutByte(b: Byte)
      requires Valid() && |items| < size
      modifies `w, `isEmpty, `items, buf
      ensures Valid() && items == old(items) + [b]
    {
      buf[w] := b;
      w := w + 1;
      if w == size {
        w := 0;
      }
      isEmpty := false;
      items := items + [b];
    }
  }
}
