/** The index-linked double-ended queue: elements live in a slice, link to each other by address,
    and freed addresses wait on a stack. Address 0 is nil. */
module Deque {

  datatype Element<T> = Element(prev: nat, addr: nat, next: nat, value: T)

  const NIL := 0

  // ---------------------------------------------------------------- the linked order

  /** The address at position i of the list, nil outside it. */
  function At(order: seq<nat>, i: int): nat {
    if 0 <= i < |order| then order[i] else NIL
  }

  ghost predicate Differ(s: seq<nat>, i: int, j: int) {
    0 <= i < j < |s| ==> s[i] != s[j]
  }

  ghost predicate Distinct(s: seq<nat>) {
    forall i, j {:trigger Differ(s, i, j)} :: Differ(s, i, j)
  }

  lemma AllDiffer(s: seq<nat>, i: nat)
    requires Distinct(s) && i < |s|
    ensures forall j :: 0 <= j < |s| && j != i ==> s[j] != s[i]
  {
    forall j | 0 <= j < |s| && j != i
      ensures s[j] != s[i]
    {
      assert Differ(s, i, j) && Differ(s, j, i);
    }
  }

  lemma ButLast(s: seq<nat>)
    requires Distinct(s) && s != []
    ensures Distinct(s[..|s| - 1]) && s[|s| - 1] !in s[..|s| - 1]
  {
    AllDiffer(s, |s| - 1);
    var front := s[..|s| - 1];
    forall i, j | 0 <= i < j < |front|
      ensures Differ(front, i, j)
    {
      assert Differ(s, i, j);
    }
  }

  lemma OneMore(s: seq<nat>, a: nat)
    requires Distinct(s) && a !in s
    ensures Distinct(s + [a])
  {
    forall i, j | 0 <= i < j <= |s|
      ensures Differ(s + [a], i, j)
    {
      assert s[i] in s && Differ(s, i, j);
    }
  }

  ghost predicate InRange<T>(es: seq<Element<T>>, order: seq<nat>) {
    forall k :: 0 <= k < |order| ==> 0 < order[k] < |es|
  }

  ghost predicate LinkedAt<T>(es: seq<Element<T>>, order: seq<nat>, k: nat) {
    && k < |order| && 0 < order[k] < |es|
    && es[order[k]].addr == order[k]
    && es[order[k]].prev == At(order, k - 1)
    && es[order[k]].next == At(order, k + 1)
  }

  /** Forward and backward links agree with `order`. */
  ghost predicate Chain<T>(es: seq<Element<T>>, order: seq<nat>) {
    Distinct(order) && InRange(es, order) && forall k :: 0 <= k < |order| ==> LinkedAt(es, order, k)
  }

  /** Live slots and the free stack partition the slots 1..|es|-1; free slots are blank. */
  ghost predicate Partition<T>(es: seq<Element<T>>, order: seq<nat>, stack: seq<nat>, blank: Element<T>) {
    && Distinct(stack)
    && (forall a :: a in stack ==> 0 < a < |es| && a !in order && es[a] == blank)
    && (forall a :: 0 < a < |es| ==> a in order || a in stack)
  }

  ghost function Values<T>(es: seq<Element<T>>, order: seq<nat>): (vs: seq<T>)
    requires InRange(es, order)
    ensures |vs| == |order| && forall i :: 0 <= i < |order| ==> vs[i] == es[order[i]].value
  {
    seq(|order|, i requires 0 <= i < |order| => es[order[i]].value)
  }

  function Without(order: seq<nat>, i: nat): seq<nat>
    requires i < |order|
  {
    order[..i] + order[i + 1..]
  }

  /** es after the element at position i is bridged over by its neighbours. */
  function Unlinked<T>(es: seq<Element<T>>, order: seq<nat>, i: nat): (r: seq<Element<T>>)
    requires i < |order| && InRange(es, order)
    ensures |r| == |es|
    ensures forall a :: 0 <= a < |es| ==> r[a].value == es[a].value && r[a].addr == es[a].addr
    ensures forall a :: 0 <= a < |es| && a != At(order, i - 1) && a != At(order, i + 1) ==> r[a] == es[a]
  {
    var p, n := At(order, i - 1), At(order, i + 1);
    var es1 := if p == NIL then es else es[p := es[p].(next := n)];
    if n == NIL then es1 else es1[n := es1[n].(prev := p)]
  }

  lemma WithoutOrder(order: seq<nat>, i: nat)
    requires Distinct(order) && i < |order|
    ensures Distinct(Without(order, i)) && order[i] !in Without(order, i)
    ensures forall a :: a in order <==> a in Without(order, i) || a == order[i]
    ensures forall k :: 0 <= k < |order| - 1 ==> Without(order, i)[k] == order[if k < i then k else k + 1]
  {
    assert order == order[..i] + [order[i]] + order[i + 1..];
    AllDiffer(order, i);
    forall j, k | 0 <= j < k < |order| - 1
      ensures Differ(Without(order, i), j, k)
    {
      assert Differ(order, if j < i then j else j + 1, if k < i then k else k + 1);
    }
  }

  lemma UnlinkedChain<T>(es: seq<Element<T>>, order: seq<nat>, i: nat)
    requires Chain(es, order) && i < |order|
    ensures Chain(Unlinked(es, order, i), Without(order, i))
  {
    WithoutOrder(order, i);
    forall k | 0 <= k < |Without(order, i)|
      ensures LinkedAt(Unlinked(es, order, i), Without(order, i), k)
    {
      UnlinkedAt(es, order, i, k);
    }
  }

  lemma UnlinkedAt<T>(es: seq<Element<T>>, order: seq<nat>, i: nat, k: nat)
    requires i < |order| && k < |order| - 1 && Distinct(order)
    requires InRange(es, order)
    requires LinkedAt(es, order, if k < i then k else k + 1)
    ensures LinkedAt(Unlinked(es, order, i), Without(order, i), k)
  {
    var order' := Without(order, i);
    var k0 := if k < i then k else k + 1;
    var x := order[k0];
    assert order'[k] == x;
    AllDiffer(order, k0);
    UnlinkedFields(es, order, i, x);
    assert x == At(order, i - 1) <==> k0 == i - 1;
    assert x == At(order, i + 1) <==> k0 == i + 1;
    assert At(order', k - 1) == if k0 == i + 1 then At(order, i - 1) else At(order, k0 - 1);
    assert At(order', k + 1) == if k0 == i - 1 then At(order, i + 1) else At(order, k0 + 1);
  }

  /** Bridging over position i touches its neighbours' facing links only. */
  lemma UnlinkedFields<T>(es: seq<Element<T>>, order: seq<nat>, i: nat, x: nat)
    requires i < |order| && InRange(es, order) && 0 < x < |es|
    ensures var e := Unlinked(es, order, i)[x];
      && e.addr == es[x].addr && e.value == es[x].value
      && e.prev == (if x == At(order, i + 1) then At(order, i - 1) else es[x].prev)
      && e.next == (if x == At(order, i - 1) then At(order, i + 1) else es[x].next)
  {
  }

  /** es after the blank, detached element a is linked in at position i. */
  function Linked<T>(es: seq<Element<T>>, order: seq<nat>, i: nat, a: nat): (r: seq<Element<T>>)
    requires i <= |order| && 0 < a < |es|
    requires InRange(es, order)
    ensures |r| == |es|
    ensures forall x :: 0 <= x < |es| ==> r[x].value == es[x].value && r[x].addr == es[x].addr
    ensures forall x :: 0 <= x < |es| && x != a && x != At(order, i - 1) && x != At(order, i) ==> r[x] == es[x]
  {
    var p, n := At(order, i - 1), At(order, i);
    var es1 := es[a := es[a].(prev := p, next := n)];
    var es2 := if p == NIL then es1 else es1[p := es1[p].(next := a)];
    if n == NIL then es2 else es2[n := es2[n].(prev := a)]
  }

  function Inserted(order: seq<nat>, i: nat, a: nat): seq<nat>
    requires i <= |order|
  {
    order[..i] + [a] + order[i..]
  }

  lemma InsertedOrder(order: seq<nat>, i: nat, a: nat)
    requires Distinct(order) && i <= |order| && a !in order
    ensures Distinct(Inserted(order, i, a))
    ensures forall x :: x in Inserted(order, i, a) <==> x in order || x == a
    ensures forall k :: 0 <= k <= |order| && k != i ==>
      Inserted(order, i, a)[k] == order[if k < i then k else k - 1]
  {
    assert order == order[..i] + order[i..];
    var o := Inserted(order, i, a);
    forall j, k | 0 <= j < k < |o|
      ensures Differ(o, j, k)
    {
      if j != i && k != i {
        assert Differ(order, if j < i then j else j - 1, if k < i then k else k - 1);
        assert o[j] == order[if j < i then j else j - 1] && o[k] == order[if k < i then k else k - 1];
      } else if j == i {
        assert o[k] in order;
      } else {
        assert o[j] in order;
      }
    }
  }

  lemma LinkedChain<T>(es: seq<Element<T>>, order: seq<nat>, i: nat, a: nat)
    requires Chain(es, order) && i <= |order|
    requires 0 < a < |es| && a !in order && es[a].addr == a
    ensures Chain(Linked(es, order, i, a), Inserted(order, i, a))
  {
    InsertedOrder(order, i, a);
    forall k | 0 <= k < |Inserted(order, i, a)|
      ensures LinkedAt(Linked(es, order, i, a), Inserted(order, i, a), k)
    {
      LinkedInAt(es, order, i, a, k);
    }
  }

  lemma LinkedInAt<T>(es: seq<Element<T>>, order: seq<nat>, i: nat, a: nat, k: nat)
    requires i <= |order| && k <= |order| && Distinct(order)
    requires 0 < a < |es| && a !in order && es[a].addr == a
    requires InRange(es, order)
    requires k != i ==> LinkedAt(es, order, if k < i then k else k - 1)
    ensures LinkedAt(Linked(es, order, i, a), Inserted(order, i, a), k)
  {
    var order' := Inserted(order, i, a);
    if k == i {
      assert order'[k] == a;
      assert At(order', k - 1) == At(order, i - 1) && At(order', k + 1) == At(order, i);
    } else {
      LinkedInBeside(es, order, i, a, k);
    }
  }

  lemma LinkedInBeside<T>(es: seq<Element<T>>, order: seq<nat>, i: nat, a: nat, k: nat)
    requires i <= |order| && k <= |order| && k != i && Distinct(order)
    requires 0 < a < |es| && a !in order
    requires InRange(es, order) && LinkedAt(es, order, if k < i then k else k - 1)
    ensures LinkedAt(Linked(es, order, i, a), Inserted(order, i, a), k)
  {
    var order' := Inserted(order, i, a);
    var k0 := if k < i then k else k - 1;
    var x := order[k0];
    assert order'[k] == x && x != a;
    AllDiffer(order, k0);
    LinkedFields(es, order, i, a, x);
    assert x == At(order, i - 1) <==> k0 == i - 1;
    assert x == At(order, i) <==> k0 == i;
    assert At(order', k - 1) == if k0 == i then a else At(order, k0 - 1);
    assert At(order', k + 1) == if k0 == i - 1 then a else At(order, k0 + 1);
  }

  /** Linking a in touches its neighbours' facing links only. */
  lemma LinkedFields<T>(es: seq<Element<T>>, order: seq<nat>, i: nat, a: nat, x: nat)
    requires i <= |order| && 0 < a < |es| && a !in order && InRange(es, order)
    requires x in order && x < |es|
    ensures var e := Linked(es, order, i, a)[x];
      && e.addr == es[x].addr && e.value == es[x].value
      && e.prev == (if x == At(order, i) then a else es[x].prev)
      && e.next == (if x == At(order, i - 1) then a else es[x].next)
  {
    assert x > 0;
  }

  /** The chain depends on its own elements only. */
  lemma ChainFrame<T>(es: seq<Element<T>>, es': seq<Element<T>>, order: seq<nat>)
    requires Chain(es, order)
    requires forall k :: 0 <= k < |order| ==> order[k] < |es'| && es'[order[k]] == es[order[k]]
    ensures Chain(es', order)
  {
    forall k | 0 <= k < |order|
      ensures LinkedAt(es', order, k)
    {
      assert LinkedAt(es, order, k);
    }
  }

  /** Writing a slot outside the chain. */
  lemma OtherSlot<T>(es: seq<Element<T>>, order: seq<nat>, a: nat, e: Element<T>)
    requires Chain(es, order) && a < |es| && a !in order
    ensures Chain(es[a := e], order)
  {
    assert forall k :: 0 <= k < |order| ==> order[k] in order;
    ChainFrame(es, es[a := e], order);
  }

  /** Bridging over position i leaves the free slots blank and accounts for all others. */
  lemma StackKept<T>(es: seq<Element<T>>, o: seq<nat>, st: seq<nat>, blank: Element<T>, i: nat)
    requires InRange(es, o) && Distinct(o) && i < |o| && Partition(es, o, st, blank)
    ensures o[i] !in Without(o, i) && o[i] !in st
    ensures forall x :: x in st ==> x !in Without(o, i) && Unlinked(es, o, i)[x] == blank
    ensures forall x :: 0 < x < |es| ==> x in Without(o, i) || x in st || x == o[i]
  {
    WithoutOrder(o, i);
    assert forall x :: x in st ==> x != At(o, i - 1) && x != At(o, i + 1);
  }

  /** The writes of InsertAfter at position i, in their order, link a in at position i + 1. */
  lemma AfterWrites<T>(es: seq<Element<T>>, order: seq<nat>, i: nat, a: nat, value: T)
    requires Chain(es, order) && i < |order| && 0 < a < |es| && a !in order && es[a].addr == a
    ensures var e0 := es[order[i]];
      && e0.next == At(order, i + 1) && (e0.next != NIL ==> e0.next < |es|)
      && var es1 := es[a := Element(e0.addr, es[a].addr, e0.next, value)];
      var es2 := if e0.next == NIL then es1 else es1[e0.next := es1[e0.next].(prev := a)];
      es2[order[i] := es2[order[i]].(next := a)] == Linked(es[a := es[a].(value := value)], order, i + 1, a)
  {
    assert LinkedAt(es, order, i);
    var e0 := es[order[i]];
    var es1 := es[a := Element(e0.addr, es[a].addr, e0.next, value)];
    var es2 := if e0.next == NIL then es1 else es1[e0.next := es1[e0.next].(prev := a)];
    var r := Linked(es[a := es[a].(value := value)], order, i + 1, a);
    assert forall x :: 0 <= x < |es| ==> es2[order[i] := es2[order[i]].(next := a)][x] == r[x];
  }

  /** The writes of InsertBefore at position i, in their order, link a in at position i. */
  lemma BeforeWrites<T>(es: seq<Element<T>>, order: seq<nat>, i: nat, a: nat, value: T)
    requires Chain(es, order) && i < |order| && 0 < a < |es| && a !in order && es[a].addr == a
    ensures var e2 := es[order[i]];
      && e2.prev == At(order, i - 1) && (e2.prev != NIL ==> e2.prev < |es|)
      && var es1 := es[a := Element(e2.prev, es[a].addr, e2.addr, value)];
      var es2 := if e2.prev == NIL then es1 else es1[e2.prev := es1[e2.prev].(next := a)];
      es2[order[i] := es2[order[i]].(prev := a)] == Linked(es[a := es[a].(value := value)], order, i, a)
  {
    assert LinkedAt(es, order, i);
    var e2 := es[order[i]];
    var es1 := es[a := Element(e2.prev, es[a].addr, e2.addr, value)];
    var es2 := if e2.prev == NIL then es1 else es1[e2.prev := es1[e2.prev].(next := a)];
    var r := Linked(es[a := es[a].(value := value)], order, i, a);
    assert forall x :: 0 <= x < |es| ==> es2[order[i] := es2[order[i]].(prev := a)][x] == r[x];
  }

  // ---------------------------------------------------------------- the deque

  class Deque<T> {
    var head: nat
    var tail: nat
    var length: nat
    var stack: seq<nat>
    var elements: seq<Element<T>>
    const template: Element<T>
    ghost var order: seq<nat>   // the live addresses, front to back

    ghost predicate Valid()
      reads this
    {
      && template.prev == template.addr == template.next == NIL
      && head == At(order, 0) && tail == At(order, |order| - 1) && length == |order|
      && Chain(elements, order)
      && Partition(elements, order, stack, template)
    }

    ghost function Contents(): seq<T>
      requires InRange(elements, order)
      reads this
    {
      Values(elements, order)
    }

    /** A deque declared without New: not even the unused slot 0 is there yet. */
    constructor Zero(zero: T)
      ensures Valid() && order == [] && template.value == zero && elements == []
    {
      template := Element(NIL, NIL, NIL, zero);
      head, tail, length, stack, order := NIL, NIL, 0, [], [];
      elements := [];
    }

    /** New; the zero value of T is the template's. */
    constructor (zero: T)
      ensures Valid() && order == [] && template.value == zero && |elements| == 1
    {
      template := Element(NIL, NIL, NIL, zero);
      head, tail, length, stack, order := NIL, NIL, 0, [], [];
      elements := [Element(NIL, NIL, NIL, zero)];
    }

    /** A detached slot: linked nowhere, not free, everything else accounted for. */
    ghost predicate Detached(a: nat)
      reads this
    {
      && template.prev == template.addr == template.next == NIL
      && head == At(order, 0) && tail == At(order, |order| - 1) && length == |order|
      && Chain(elements, order)
      && 0 < a < |elements| && a !in order && a !in stack && elements[a].addr == a
      && Distinct(stack)
      && (forall x :: x in stack ==> 0 < x < |elements| && x !in order && elements[x] == template)
      && (forall x :: 0 < x < |elements| ==> x in order || x in stack || x == a)
    }

    /** getElement: a blank slot, from the free stack or a new one. The slot is in no list yet. */
    method GetElement() returns (a: nat)
      requires Valid()
      modifies `elements, `stack
      ensures Detached(a) && elements[a] == template.(addr := a)
      ensures forall x :: x in order ==> x < |elements| && x < |old(elements)| && elements[x] == old(elements)[x]
    {
      if |elements| == 0 {
        elements := elements + [template];
      }
      if |stack| > 0 {
        var n := |stack|;
        a := stack[n - 1];
        assert a in stack && forall k :: 0 <= k < n - 1 ==> stack[k] in stack;
        ButLast(stack);
        stack := stack[..n - 1];
      } else {
        a := |elements|;
        elements := elements + [template];
      }
      elements := elements[a := elements[a].(addr := a)];
      assert forall k :: 0 <= k < |order| ==> order[k] in order;
      ChainFrame(old(elements), elements, order);
    }

    /** putElement: blanks a detached slot and frees it. */
    method PutElement(a: nat)
      requires 0 < a < |elements| && elements[a].addr == a
      modifies `elements, `stack
      ensures elements == old(elements)[a := template] && stack == old(stack) + [a]
    {
      stack := stack + [elements[a].addr];
      elements := elements[a := template];
    }

    /** doRemove: bridges over the element at address a, which stays linked nowhere. */
    method DoRemove(a: nat, ghost i: nat)
      requires Valid() && i < |order| && order[i] == a
      modifies `head, `tail, `length, `elements, `order
      ensures elements == Unlinked(old(elements), old(order), i) && order == Without(old(order), i)
      ensures head == At(order, 0) && tail == At(order, |order| - 1) && length == |order|
    {
      assert LinkedAt(elements, order, i);
      var prev, next := elements[a].prev, elements[a].next;
      length := length - 1;
      if prev != NIL && next != NIL {
        elements := elements[prev := elements[prev].(next := next)];
        elements := elements[next := elements[next].(prev := prev)];
      } else if next != NIL {
        elements := elements[next := elements[next].(prev := NIL)];
        head := next;
      } else if prev != NIL {
        elements := elements[prev := elements[prev].(next := NIL)];
        tail := prev;
      } else {
        head, tail := NIL, NIL;
      }
      order := Without(order, i);
    }

    method DoPushFront(a: nat)
      requires Detached(a) && elements[a].prev == elements[a].next == NIL
      modifies `head, `tail, `length, `elements, `order
      ensures Valid() && order == [a] + old(order)
      ensures forall x :: 0 <= x < |elements| ==> elements[x].value == old(elements)[x].value
      ensures |elements| == |old(elements)|
    {
      ghost var es := elements;
      length := length + 1;
      assert head == NIL <==> order == [];
      if head == NIL {
        head, tail := a, a;
      } else {
        var h := head;
        assert LinkedAt(es, order, 0);
        elements := elements[h := elements[h].(prev := a)];
        elements := elements[a := elements[a].(next := elements[h].addr)];
        head := a;
      }
      assert forall x :: 0 <= x < |es| ==> elements[x] == Linked(es, order, 0, a)[x];
      LinkIn(es, 0, a);
    }

    method DoPushBack(a: nat)
      requires Detached(a) && elements[a].prev == elements[a].next == NIL
      modifies `head, `tail, `length, `elements, `order
      ensures Valid() && order == old(order) + [a]
      ensures forall x :: 0 <= x < |elements| ==> elements[x].value == old(elements)[x].value
      ensures |elements| == |old(elements)|
    {
      ghost var es := elements;
      length := length + 1;
      assert tail == NIL <==> order == [];
      if tail == NIL {
        head, tail := a, a;
      } else {
        var t := tail;
        assert LinkedAt(es, order, |order| - 1);
        elements := elements[t := elements[t].(next := a)];
        elements := elements[a := elements[a].(prev := elements[t].addr)];
        tail := a;
      }
      assert forall x :: 0 <= x < |es| ==> elements[x] == Linked(es, order, |order|, a)[x];
      LinkIn(es, |order|, a);
    }

    /** Ghost step: the links now say that a is at position i. */
    ghost method LinkIn(es: seq<Element<T>>, i: nat, a: nat)
      requires template.prev == template.addr == template.next == NIL
      requires i <= |order| && Chain(es, order) && 0 < a < |es| && a !in order && es[a].addr == a
      requires elements == Linked(es, order, i, a)
      requires Distinct(stack) && a !in stack
      requires forall x :: x in stack ==> 0 < x < |es| && x !in order && es[x] == template
      requires forall x :: 0 < x < |es| ==> x in order || x in stack || x == a
      requires length == |order| + 1
      requires head == At(Inserted(order, i, a), 0) && tail == At(Inserted(order, i, a), |order|)
      modifies `order
      ensures Valid() && order == Inserted(old(order), i, a)
    {
      LinkedChain(es, order, i, a);
      InsertedOrder(order, i, a);
      assert forall x :: x in stack ==> x != At(order, i - 1) && x != At(order, i);
      order := Inserted(order, i, a);
    }

    // -------------------------------------------------------------- public operations

    ghost predicate Live(a: nat)
      reads this
    {
      a in order
    }

    /** The addresses in `kept` still hold what they held, and the slots are not given up. */
    twostate predicate Keeps(kept: seq<nat>)
      reads this
    {
      && (old(|elements|) >= 1 ==> |elements| >= 1)
      && forall a :: a in kept ==>
           a < |elements| && a < |old(elements)| && elements[a].value == old(elements)[a].value
    }

    method PushFront(value: T) returns (a: nat)
      requires Valid()
      modifies this
      ensures Valid() && a !in old(order) && order == [a] + old(order)
      ensures elements[a].value == value && Keeps(old(order))
    {
      a := GetElement();
      SetValue(a, value);
      DoPushFront(a);
    }

    method PushBack(value: T) returns (a: nat)
      requires Valid()
      modifies this
      ensures Valid() && a !in old(order) && order == old(order) + [a]
      ensures elements[a].value == value && Keeps(old(order))
    {
      a := GetElement();
      SetValue(a, value);
      DoPushBack(a);
    }

    method SetValue(a: nat, value: T)
      requires Detached(a)
      modifies `elements
      ensures Detached(a) && elements == old(elements)[a := old(elements)[a].(value := value)]
    {
      OtherSlot(elements, order, a, elements[a].(value := value));
      elements := elements[a := elements[a].(value := value)];
    }

    /** PopFront; the zero value when the deque is empty. */
    method PopFront() returns (value: T)
      requires Valid()
      modifies this
      ensures Valid() && Keeps(order)
      ensures old(order) == [] ==> value == template.value && order == []
      ensures old(order) != [] ==> value == old(Contents())[0] && order == old(order)[1..]
    {
      value := template.value;
      if head != NIL {
        assert head == order[0];
        value := elements[head].value;
        Drop(head, 0);
      }
    }

    method PopBack() returns (value: T)
      requires Valid()
      modifies this
      ensures Valid() && Keeps(order)
      ensures old(order) == [] ==> value == template.value && order == []
      ensures old(order) != [] ==> value == old(Contents())[|old(order)| - 1] && order == old(order)[..|old(order)| - 1]
    {
      value := template.value;
      if tail != NIL {
        assert tail == order[|order| - 1];
        value := elements[tail].value;
        Drop(tail, |order| - 1);
      }
    }

    /** Remove at a live address; the nil address is ignored. */
    method Remove(a: nat)
      requires Valid() && (a == NIL || Live(a))
      modifies this
      ensures Valid() && Keeps(order)
      ensures a == NIL ==> order == old(order)
      ensures forall i :: 0 <= i < |old(order)| && old(order)[i] == a ==> order == Without(old(order), i)
    {
      if a != NIL {
        ghost var i :| 0 <= i < |order| && order[i] == a;
        AllDiffer(order, i);
        Drop(a, i);
      }
    }

    /** doRemove, putElement and, when nothing is left, autoReset. */
    method Drop(a: nat, ghost i: nat)
      requires Valid() && i < |order| && order[i] == a
      modifies this
      ensures Valid() && order == Without(old(order), i) && Keeps(order)
    {
      ghost var es, o := elements, order;
      assert LinkedAt(es, o, i);
      UnlinkedChain(es, o, i);
      StackKept(es, o, stack, template, i);
      DoRemove(a, i);
      OtherSlot(elements, order, a, template);
      OneMore(stack, a);
      PutElement(a);
      if length == 0 {
        AutoReset();
      }
    }

    method AutoReset()
      requires |elements| >= 1 && template.prev == template.addr == template.next == NIL
      modifies this
      ensures Valid() && order == [] && |elements| == 1
    {
      head, tail, length := NIL, NIL, 0;
      stack := [];
      elements := elements[..1];
      order := [];
    }

    /** Reset; a deque that has no slot yet cannot be resliced to one. */
    method Reset()
      requires Valid() && |elements| >= 1
      modifies this
      ensures Valid() && order == [] && |elements| == 1
    {
      AutoReset();
    }

    /** InsertAfter a live mark; the nil mark inserts nothing. */
    method InsertAfter(value: T, mark: nat) returns (a: nat)
      requires Valid() && (mark == NIL || Live(mark))
      modifies this
      ensures Valid() && Keeps(old(order))
      ensures mark == NIL ==> a == NIL && order == old(order)
      ensures mark != NIL ==> a !in old(order) && a in order && elements[a].value == value
      ensures forall i :: 0 <= i < |old(order)| && old(order)[i] == mark ==> order == Inserted(old(order), i + 1, a)
    {
      if mark == NIL {
        return NIL;
      }
      ghost var i :| 0 <= i < |order| && order[i] == mark;
      AllDiffer(order, i);
      a := GetElement();
      LinkAfter(a, mark, value, i);
    }

    method LinkAfter(a: nat, mark: nat, value: T, ghost i: nat)
      requires Detached(a) && elements[a].prev == elements[a].next == NIL && i < |order| && order[i] == mark
      modifies `elements, `length, `tail, `order
      ensures Valid() && order == Inserted(old(order), i + 1, a)
      ensures a < |elements| && elements[a].value == value && Keeps(old(order))
    {
      ghost var es := elements[a := elements[a].(value := value)];
      OtherSlot(elements, order, a, elements[a].(value := value));
      WriteAfter(a, mark, value, i);
      LinkIn(es, i + 1, a);
    }

    method WriteAfter(a: nat, mark: nat, value: T, ghost i: nat)
      requires Detached(a) && i < |order| && order[i] == mark
      modifies `elements, `length, `tail
      ensures elements == Linked(old(elements)[a := old(elements)[a].(value := value)], order, i + 1, a)
      ensures length == old(length) + 1 && tail == if i == |order| - 1 then a else old(tail)
    {
      AfterWrites(elements, order, i, a, value);
      length := length + 1;
      var e0 := elements[mark];
      elements := elements[a := Element(e0.addr, elements[a].addr, e0.next, value)];
      if e0.next != NIL {
        elements := elements[e0.next := elements[e0.next].(prev := a)];
      }
      elements := elements[mark := elements[mark].(next := a)];
      if elements[a].next == NIL {
        tail := a;
      }
    }

    /** InsertBefore a live mark; the nil mark inserts nothing. */
    method InsertBefore(value: T, mark: nat) returns (a: nat)
      requires Valid() && (mark == NIL || Live(mark))
      modifies this
      ensures Valid() && Keeps(old(order))
      ensures mark == NIL ==> a == NIL && order == old(order)
      ensures mark != NIL ==> a !in old(order) && a in order && elements[a].value == value
      ensures forall i :: 0 <= i < |old(order)| && old(order)[i] == mark ==> order == Inserted(old(order), i, a)
    {
      if mark == NIL {
        return NIL;
      }
      ghost var i :| 0 <= i < |order| && order[i] == mark;
      AllDiffer(order, i);
      a := GetElement();
      LinkBefore(a, mark, value, i);
    }

    method LinkBefore(a: nat, mark: nat, value: T, ghost i: nat)
      requires Detached(a) && elements[a].prev == elements[a].next == NIL && i < |order| && order[i] == mark
      modifies `elements, `length, `head, `order
      ensures Valid() && order == Inserted(old(order), i, a)
      ensures a < |elements| && elements[a].value == value && Keeps(old(order))
    {
      ghost var es := elements[a := elements[a].(value := value)];
      OtherSlot(elements, order, a, elements[a].(value := value));
      WriteBefore(a, mark, value, i);
      LinkIn(es, i, a);
    }

    method WriteBefore(a: nat, mark: nat, value: T, ghost i: nat)
      requires Detached(a) && i < |order| && order[i] == mark
      modifies `elements, `length, `head
      ensures elements == Linked(old(elements)[a := old(elements)[a].(value := value)], order, i, a)
      ensures length == old(length) + 1 && head == if i == 0 then a else old(head)
    {
      BeforeWrites(elements, order, i, a, value);
      length := length + 1;
      var e2 := elements[mark];
      elements := elements[a := Element(e2.prev, elements[a].addr, e2.addr, value)];
      if e2.prev != NIL {
        elements := elements[e2.prev := elements[e2.prev].(next := a)];
      }
      elements := elements[mark := elements[mark].(prev := a)];
      if elements[a].prev == NIL {
        head := a;
      }
    }

    method MoveToBack(a: nat)
      requires Valid() && (a == NIL || Live(a))
      modifies this
      ensures Valid() && Keeps(old(order))
      ensures a == NIL ==> order == old(order)
      ensures forall i :: 0 <= i < |old(order)| && old(order)[i] == a ==> order == Without(old(order), i) + [a]
    {
      if a != NIL {
        ghost var i :| 0 <= i < |order| && order[i] == a;
        AllDiffer(order, i);
        TakeOut(a, i);
        DoPushBack(a);
      }
    }

    method MoveToFront(a: nat)
      requires Valid() && (a == NIL || Live(a))
      modifies this
      ensures Valid() && Keeps(old(order))
      ensures a == NIL ==> order == old(order)
      ensures forall i :: 0 <= i < |old(order)| && old(order)[i] == a ==> order == [a] + Without(old(order), i)
    {
      if a != NIL {
        ghost var i :| 0 <= i < |order| && order[i] == a;
        AllDiffer(order, i);
        TakeOut(a, i);
        DoPushFront(a);
      }
    }

    /** doRemove, then clear the element's own links. */
    method TakeOut(a: nat, ghost i: nat)
      requires Valid() && i < |order| && order[i] == a
      modifies `head, `tail, `length, `elements, `order
      ensures Detached(a) && elements[a].prev == elements[a].next == NIL
      ensures order == Without(old(order), i) && |elements| == |old(elements)|
      ensures forall x :: 0 <= x < |elements| ==> elements[x].value == old(elements)[x].value
    {
      ghost var es, o := elements, order;
      assert LinkedAt(es, o, i);
      UnlinkedChain(es, o, i);
      StackKept(es, o, stack, template, i);
      DoRemove(a, i);
      OtherSlot(elements, order, a, elements[a].(prev := NIL, next := NIL));
      elements := elements[a := elements[a].(prev := NIL, next := NIL)];
    }

    method Update(a: nat, value: T)
      requires Valid() && (a == NIL || Live(a))
      modifies `elements
      ensures Valid()
      ensures a != NIL ==> elements[a].value == value
      ensures forall x :: x in order && x != a ==> elements[x].value == old(elements)[x].value
    {
      if a != NIL {
        elements := elements[a := elements[a].(value := value)];
        forall k | 0 <= k < |order|
          ensures LinkedAt(elements, order, k)
        {
          assert LinkedAt(old(elements), order, k);
        }
      }
    }

    /** Range: visits the values front to back until f says stop. */
    method Range(f: T -> bool) returns (seen: seq<T>)
      requires Valid()
      ensures |seen| <= |order| && seen == Contents()[..|seen|]
      ensures forall k :: 0 <= k < |seen| - 1 ==> f(seen[k])
      ensures |seen| < |order| ==> seen != [] && !f(seen[|seen| - 1])
    {
      seen := [];
      var i := head;
      while i != NIL
        invariant |seen| <= |order| && i == At(order, |seen|)
        invariant seen == Contents()[..|seen|]
        invariant forall k :: 0 <= k < |seen| ==> f(seen[k])
        decreases |order| - |seen|
      {
        assert LinkedAt(elements, order, |seen|);
        var v := elements[i].value;
        seen := seen + [v];
        if !f(v) {
          return;
        }
        i := elements[i].next;
      }
    }
  }
}
