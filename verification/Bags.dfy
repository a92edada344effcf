/** The multiset of what a function says of the elements of a sequence, whatever their order. */
module Bags {

  ghost function Bag<X, V>(s: seq<X>, f: X -> V): multiset<V> {
    if s == [] then multiset{} else multiset{f(s[0])} + Bag(s[1..], f)
  }

  lemma {:induction false} Append<X, V>(s: seq<X>, x: X, f: X -> V)
    ensures Bag(s + [x], f) == Bag(s, f) + multiset{f(x)}
  {
    if s != [] {
      assert (s + [x])[1..] == s[1..] + [x];
      Append(s[1..], x, f);
    }
  }

  lemma {:induction false} Cut<X, V>(s: seq<X>, i: nat, f: X -> V)
    requires i < |s|
    ensures Bag(s, f) == multiset{f(s[i])} + Bag(s[..i] + s[i + 1..], f)
  {
    if i > 0 {
      Cut(s[1..], i - 1, f);
      assert (s[..i] + s[i + 1..])[1..] == s[1..][..i - 1] + s[1..][i..];
    } else {
      assert s[..0] + s[1..] == s[1..];
    }
  }

  /** The bag depends on the contents only, not on their order. */
  lemma {:induction false} SameContents<X, V>(s: seq<X>, t: seq<X>, f: X -> V)
    requires multiset(s) == multiset(t)
    ensures Bag(s, f) == Bag(t, f)
    decreases |s|
  {
    if s == [] {
      assert multiset(t) == multiset{};
      assert t == [];
    } else {
      assert s[0] in multiset(t);
      var i :| 0 <= i < |t| && t[i] == s[0];
      assert t == t[..i] + [t[i]] + t[i + 1..];
      assert s == [s[0]] + s[1..];
      assert multiset(s[1..]) == multiset(s) - multiset{s[0]};
      assert multiset(t[..i] + t[i + 1..]) == multiset(t) - multiset{s[0]};
      Cut(t, i, f);
      SameContents(s[1..], t[..i] + t[i + 1..], f);
    }
  }

  lemma {:induction false} Elements<X, V>(s: seq<X>, f: X -> V)
    ensures forall x :: x in s ==> f(x) in Bag(s, f)
    ensures forall v :: v in Bag(s, f) ==> exists x :: x in s && f(x) == v
  {
    if s != [] {
      Elements(s[1..], f);
    }
  }

  lemma Added<X, V>(s: seq<X>, t: seq<X>, x: X, f: X -> V)
    requires multiset(t) == multiset(s) + multiset{x}
    ensures Bag(t, f) == Bag(s, f) + multiset{f(x)}
  {
    SameContents(s + [x], t, f);
    Append(s, x, f);
  }

  lemma Removed<X, V>(s: seq<X>, t: seq<X>, x: X, f: X -> V)
    requires x in s && multiset(t) == multiset(s) - multiset{x}
    ensures Bag(t, f) == Bag(s, f) - multiset{f(x)}
  {
    assert multiset(t + [x]) == multiset(s);
    SameContents(t + [x], s, f);
    Append(t, x, f);
  }
}
