/** Fixed-width unsigned integers in a byte order fixed at start-up. Writing truncates to the
    width, as Go's conversions to uint16, uint32 and uint64 do. */
module Bytes {
  import opened Arithmetic

  type Byte = b: int | 0 <= b < 256

  datatype Order = Little | Big

  function Pow256(w: nat): (p: nat)
    ensures p > 0
  {
    if w == 0 then 1 else 256 * Pow256(w - 1)
  }

  function WriteLittle(n: int, w: nat): (bs: seq<Byte>)
    ensures |bs| == w
    decreases w
  {
    if w == 0 then [] else [n % 256] + WriteLittle(n / 256, w - 1)
  }

  function ReadLittle(bs: seq<Byte>): nat {
    if bs == [] then 0 else bs[0] + 256 * ReadLittle(bs[1..])
  }

  function Reversed<T>(s: seq<T>): (r: seq<T>)
    ensures |r| == |s|
  {
    seq(|s|, i requires 0 <= i < |s| => s[|s| - 1 - i])
  }

  function Write(order: Order, n: int, w: nat): (bs: seq<Byte>)
    ensures |bs| == w
  {
    if order.Little? then WriteLittle(n, w) else Reversed(WriteLittle(n, w))
  }

  function Read(order: Order, bs: seq<Byte>): nat {
    if order.Little? then ReadLittle(bs) else ReadLittle(Reversed(bs))
  }

  lemma ModSplit(n: int, p: int)
    requires p > 0
    ensures n % (256 * p) == n % 256 + 256 * (n / 256 % p)
  {
    var hi, lo := n / 256, n % 256;
    var q, r := hi / p, hi % p;
    assert n == 256 * hi + lo && hi == q * p + r;
    assert n == q * (256 * p) + (lo + 256 * r) by {
      assert 256 * (q * p) == q * (256 * p);
    }
    DivModUnique(n, 256 * p, q, lo + 256 * r);
  }

  lemma {:induction false} LittleRoundTrip(n: int, w: nat)
    ensures ReadLittle(WriteLittle(n, w)) == n % Pow256(w)
    decreases w
  {
    if w > 0 {
      LittleRoundTrip(n / 256, w - 1);
      ModSplit(n, Pow256(w - 1));
      assert WriteLittle(n, w)[1..] == WriteLittle(n / 256, w - 1);
    }
  }

  /** Reading what was written gives the value back, truncated to the width. */
  lemma RoundTrip(order: Order, n: int, w: nat)
    ensures Read(order, Write(order, n, w)) == n % Pow256(w)
  {
    LittleRoundTrip(n, w);
    ReversedTwice(WriteLittle(n, w));
  }

  lemma {:induction false} ReadLittleBound(bs: seq<Byte>)
    ensures ReadLittle(bs) < Pow256(|bs|)
  {
    if bs != [] {
      ReadLittleBound(bs[1..]);
    }
  }

  lemma {:induction false} LittleInverse(bs: seq<Byte>)
    ensures WriteLittle(ReadLittle(bs), |bs|) == bs
  {
    if bs != [] {
      LittleInverse(bs[1..]);
      DivModUnique(ReadLittle(bs), 256, ReadLittle(bs[1..]), bs[0]);
    }
  }

  // ---------------------------------------------------------------- where each byte stands

  /** The power of 256 that byte i of w stands for: rising in little-endian order, falling in
      big-endian order. */
  function Place(order: Order, w: nat, i: nat): nat
    requires i < w
  {
    Pow256(if order.Little? then i else w - 1 - i)
  }

  lemma DivTwice(n: int, p: int)
    requires p > 0
    ensures n / 256 / p == n / (256 * p)
  {
    var hi, lo := n / 256, n % 256;
    var q, r := hi / p, hi % p;
    assert n == 256 * hi + lo && hi == q * p + r;
    assert n == q * (256 * p) + (lo + 256 * r) by {
      assert 256 * (q * p) == q * (256 * p);
    }
    DivModUnique(n, 256 * p, q, lo + 256 * r);
  }

  lemma {:induction false} LittleAt(n: int, w: nat, i: nat)
    requires i < w
    ensures WriteLittle(n, w)[i] == n / Pow256(i) % 256
    decreases w
  {
    if i > 0 {
      LittleAt(n / 256, w - 1, i - 1);
      DivTwice(n, Pow256(i - 1));
      assert WriteLittle(n, w)[i] == WriteLittle(n / 256, w - 1)[i - 1];
    }
  }

  /** Byte i of a written number is its digit for that place, in either order. */
  lemma WrittenAt(order: Order, n: int, w: nat, i: nat)
    requires i < w
    ensures Write(order, n, w)[i] == n / Place(order, w, i) % 256
  {
    LittleAt(n, w, if order.Little? then i else w - 1 - i);
  }

  /** The bytes from place i on, each times what it stands for. */
  function Weighted(order: Order, bs: seq<Byte>, i: nat): nat
    requires i <= |bs|
    decreases |bs| - i
  {
    if i == |bs| then 0 else bs[i] * Place(order, |bs|, i) + Weighted(order, bs, i + 1)
  }

  lemma {:induction false} WeightedLittle(bs: seq<Byte>, i: nat)
    requires i <= |bs|
    ensures Weighted(Little, bs, i) == Pow256(i) * ReadLittle(bs[i..])
    decreases |bs| - i
  {
    if i < |bs| {
      WeightedLittle(bs, i + 1);
      assert bs[i..][1..] == bs[i + 1..];
      Distribute(Pow256(i), bs[i], ReadLittle(bs[i + 1..]));
    }
  }

  lemma Distribute(p: int, b: int, rest: int)
    ensures p * (b + 256 * rest) == b * p + 256 * p * rest
  {
  }

  lemma {:induction false} WeightedBig(bs: seq<Byte>, i: nat)
    requires i <= |bs|
    ensures Weighted(Big, bs, i) == ReadLittle(Reversed(bs[i..]))
    decreases |bs| - i
  {
    if i < |bs| {
      WeightedBig(bs, i + 1);
      var tail := Reversed(bs[i + 1..]);
      assert Reversed(bs[i..]) == tail + [bs[i]];
      ReadLittleSnoc(tail, bs[i]);
    }
  }

  lemma {:induction false} ReadLittleSnoc(bs: seq<Byte>, b: Byte)
    ensures ReadLittle(bs + [b]) == ReadLittle(bs) + b * Pow256(|bs|)
  {
    if bs == [] {
      assert ([] + [b])[1..] == [];
    } else {
      ReadLittleSnoc(bs[1..], b);
      assert (bs + [b])[1..] == bs[1..] + [b];
      assert 256 * (b * Pow256(|bs| - 1)) == b * Pow256(|bs|);
    }
  }

  /** A number read is the sum of its bytes, each times what it stands for, in either order. */
  lemma ReadIsSum(order: Order, bs: seq<Byte>)
    ensures Read(order, bs) == Weighted(order, bs, 0)
  {
    assert bs[0..] == bs;
    if order.Little? {
      WeightedLittle(bs, 0);
    } else {
      WeightedBig(bs, 0);
    }
  }

  /** Every byte string of a width is the writing of exactly one value of that width. */
  lemma Inverse(order: Order, bs: seq<Byte>)
    ensures Read(order, bs) < Pow256(|bs|)
    ensures Write(order, Read(order, bs), |bs|) == bs
  {
    if order.Little? {
      ReadLittleBound(bs);
      LittleInverse(bs);
    } else {
      var l := Reversed(bs);
      ReadLittleBound(l);
      LittleInverse(l);
      assert Write(order, ReadLittle(l), |l|) == Reversed(l);
      ReversedTwice(bs);
    }
  }

  lemma ReversedTwice(bs: seq<Byte>)
    ensures Reversed(Reversed(bs)) == bs
  {
  }
}
