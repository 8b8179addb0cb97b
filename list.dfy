/**
 * The intrusive circular doubly-linked list of list.h.
 *
 * A `Node` is a `struct list_head`: two pointer fields and nothing else.  A
 * list is a ring of nodes reached from a distinguished head node; the head
 * carries no payload and an empty list is a head whose links point to itself.
 *
 * The ring is abstracted by a ghost sequence: `Cycle(r)` says that the nodes
 * of `r` are pairwise distinct and that following `next` from `r[i]` reaches
 * the node after it (wrapping round to `r[0]`), with `prev` the exact inverse
 * of `next`.  `Ring(head, s)` is the cycle `[head] + s`, so `s` is the list's
 * contents in `next` order.
 */
module List {

  /** `struct list_head`. */
  class Node {
    var next: Node?
    var prev: Node?

    /** A zero-initialised element: both links are NULL. */
    constructor ()
      ensures Unlinked(this)
    {
      next := null;
      prev := null;
    }

    /** `LIST_INIT(list)`: a head whose links point to itself, the empty list. */
    constructor Head()
      ensures Ring(this, [])
    {
      next := this;
      prev := this;
    }
  }

  /** Both links set: the guard of `list_del`. */
  predicate Linked(n: Node)
    reads n
  {
    n.next != null && n.prev != null
  }

  /** Both links NULL: the guard of `list_add` and `list_add_tail`. */
  predicate Unlinked(n: Node)
    reads n
  {
    n.next == null && n.prev == null
  }

  ghost predicate Distinct(r: seq<Node>)
  {
    forall i, j :: 0 <= i < j < |r| ==> r[i] != r[j]
  }

  /** The position after `i` in a ring of `n` positions. */
  function Succ(i: nat, n: nat): nat
    requires i < n
  {
    if i + 1 < n then i + 1 else 0
  }

  /**
   * The link from position `i` of `r` to the position after it: `next` of
   * `r[i]` leads forward to it and its `prev` leads back to `r[i]`.
   */
  ghost predicate Joined(r: seq<Node>, i: nat)
    requires i < |r|
    reads r
  {
    r[i].next == r[Succ(i, |r|)] && r[Succ(i, |r|)].prev == r[i]
  }

  /** The nodes of `r`, in this order, form one closed ring. */
  ghost predicate Cycle(r: seq<Node>)
    reads r
  {
    && |r| > 0
    && Distinct(r)
    && forall i :: 0 <= i < |r| ==> Joined(r, i)
  }

  /** `head` is a list head whose elements, in `next` order, are `s`. */
  ghost predicate Ring(head: Node, s: seq<Node>)
    reads head, s
  {
    Cycle([head] + s)
  }

  /** Position of the first occurrence of `x` in `r`. */
  function IndexOf(r: seq<Node>, x: Node): (k: nat)
    requires x in r
    ensures k < |r| && r[k] == x && x !in r[..k]
  {
    if r[0] == x then 0 else 1 + IndexOf(r[1..], x)
  }

  /** `r` with the element at position `k` taken out. */
  function RemoveAt(r: seq<Node>, k: nat): (t: seq<Node>)
    requires k < |r|
    ensures |t| == |r| - 1
    ensures forall i :: 0 <= i < k ==> t[i] == r[i]
    ensures forall i :: k <= i < |t| ==> t[i] == r[i + 1]
  {
    r[..k] + r[k + 1..]
  }

  /** `LIST_EMPTY(list)`. */
  predicate IsEmpty(head: Node)
    reads head
  {
    head.next == head
  }

  /** `LIST_EMPTY` holds of a list head exactly when the list has no elements. */
  lemma EmptyIff(head: Node, s: seq<Node>)
    requires Ring(head, s)
    ensures IsEmpty(head) <==> s == []
  {
    assert Joined([head] + s, 0);
  }

  /**
   * Reading a list through its links: after the element at position `i`
   * comes the next one, or the head after the last; before it comes the
   * previous one, or the head before the first.
   */
  lemma Neighbours(head: Node, s: seq<Node>, i: nat)
    requires Ring(head, s) && i < |s|
    ensures s[i].next == (if i + 1 < |s| then s[i + 1] else head)
    ensures s[i].prev == (if i == 0 then head else s[i - 1])
  {
    var r := [head] + s;
    assert Joined(r, i) && Joined(r, i + 1);
  }

  /**
   * Every node of a ring has both links set; so the guarded inserts leave a
   * node that already sits in some list alone, and `list_del` acts on it.
   */
  lemma RingNodesLinked(r: seq<Node>, n: Node)
    requires Cycle(r) && n in r
    ensures Linked(n)
  {
    var k := IndexOf(r, n);
    assert Joined(r, k);
    assert Joined(r, if 0 < k then k - 1 else |r| - 1);
  }

  /** A node with both links NULL sits in no ring. */
  lemma UnlinkedOutside(r: seq<Node>, n: Node)
    requires Cycle(r) && Unlinked(n)
    ensures n !in r
  {
    forall k | 0 <= k < |r|
      ensures r[k] != n
    {
      assert Joined(r, k);
    }
  }

  /**
   * The links of the head determine the list: two abstractions of the same
   * ring read from the same head are equal.
   */
  lemma {:induction false} RingUnique(head: Node, s: seq<Node>, t: seq<Node>)
    requires Ring(head, s) && Ring(head, t)
    ensures s == t
  {
    var r, q := [head] + s, [head] + t;
    var i := 0;
    while i < |r| - 1 && i < |q| - 1
      invariant 0 <= i < |r| && i < |q|
      invariant r[..i + 1] == q[..i + 1]
    {
      assert Joined(r, i) && Joined(q, i);
      assert r[..i + 2] == r[..i + 1] + [r[i + 1]];
      assert q[..i + 2] == q[..i + 1] + [q[i + 1]];
      i := i + 1;
    }
    // If one abstraction were longer, the node at position `i` would link
    // back to the head in one and on to a node other than the head in the
    // other.
    assert Joined(r, i) && Joined(q, i);
    assert r[i] == q[i];
    assert r == r[..i + 1] && q == q[..i + 1];
  }

  /** `list_init(list)`: make `list` an empty list head. */
  method ListInit(list: Node)
    modifies list
    ensures Ring(list, [])
  {
    list.next := list;
    list.prev := list;
  }

  /**
   * `list_add(element, head)`: when both links of `element` are NULL it
   * becomes the first element; otherwise nothing is written, so an element
   * that already sits in a list stays where it is.
   */
  method ListAdd(element: Node, head: Node, ghost s: seq<Node>)
    requires Unlinked(element) ==> Ring(head, s)
    modifies if Unlinked(element) then {element, head, head.next} else {}
    ensures old(Unlinked(element)) ==> Ring(head, [element] + s)
  {
    if element.next == null && element.prev == null {
      var after := head.next;
      assert Joined([head] + s, 0);
      assert [] + [head] + s == [head] + s;
      LinkBetween(element, head, after, [], s);
      assert [] + [head, element] + s == [head] + ([element] + s);
    }
  }

  /**
   * `list_add_tail(element, head)`: when both links of `element` are NULL it
   * becomes the last element; otherwise nothing is written.
   */
  method ListAddTail(element: Node, head: Node, ghost s: seq<Node>)
    requires Unlinked(element) ==> Ring(head, s)
    modifies if Unlinked(element) then {element, head, head.prev} else {}
    ensures old(Unlinked(element)) ==> Ring(head, s + [element])
  {
    if element.next == null && element.prev == null {
      var before := head.prev;
      ghost var r := [head] + s;
      ghost var xs := r[..|s|];
      assert Joined(r, |s|);
      assert r == xs + [before] + [];
      assert head == (xs + [before])[0];
      LinkBetween(element, before, head, xs, []);
      assert xs + [before, element] + [] == [head] + (s + [element]);
    }
  }

  /**
   * `LIST_ADD(element, before, after)`: splice `element` in between two
   * neighbours of a ring, given as the part up to and including `before`
   * and the rest, which starts with `after` unless `after` wraps round to
   * the first node.
   */
  method LinkBetween(element: Node, before: Node, after: Node?, ghost xs: seq<Node>, ghost ys: seq<Node>)
    requires Cycle(xs + [before] + ys)
    requires after == (if ys == [] then (xs + [before])[0] else ys[0])
    requires Unlinked(element)
    modifies element, before, after
    ensures Cycle(xs + [before, element] + ys)
  {
    ghost var r, p := xs + [before] + ys, |xs|;
    ghost var r' := xs + [before, element] + ys;
    assert r[p] == before && r[Succ(p, |r|)] == after;
    forall i | 0 <= i < |r|
      ensures r[i] != element
    {
      assert Joined(r, i);
    }
    element.prev := before;
    element.next := after;
    before.next := element;
    after.prev := element;
    assert forall i :: 0 <= i <= p ==> r'[i] == r[i];
    assert forall i :: p + 1 < i < |r'| ==> r'[i] == r[i - 1];
    forall i | 0 <= i < |r'|
      ensures Joined(r', i)
    {
      if i < p {
        assert old(Joined(r, i));
        assert r[i] != before && r[i + 1] != after;
      } else if p + 1 < i {
        assert old(Joined(r, i - 1));
        assert r[i - 1] != before && r[Succ(i - 1, |r|)] != after;
      }
    }
  }

  /**
   * `list_del(element)`: when both links of `element` are set, its two
   * neighbours are joined (`LIST_DEL`) and both of its links become NULL;
   * otherwise nothing is written.  `list_del` names no head: `r` is the ring
   * the element sits in, whichever node of it is the list head.
   */
  method ListDel(element: Node, ghost r: seq<Node>)
    requires Linked(element) ==> Cycle(r) && element in r
    modifies if Linked(element) then {element, element.prev, element.next} else {}
    ensures old(Linked(element)) ==> Unlinked(element)
    ensures old(Linked(element)) && |r| > 1 ==> Cycle(RemoveAt(r, IndexOf(r, element)))
  {
    if element.next != null && element.prev != null {
      ghost var n, k := |r|, IndexOf(r, element);
      ghost var pk := if 0 < k then k - 1 else n - 1;
      ghost var t := RemoveAt(r, k);
      assert Joined(r, k) && Joined(r, pk);
      var before := element.prev;
      var after := element.next;
      assert before == r[pk] && after == r[Succ(k, n)];
      before.next := after;
      after.prev := before;
      element.next, element.prev := null, null;
      if n > 1 {
        forall i | 0 <= i < |t|
          ensures Joined(t, i)
        {
          var m := if i < k then i else i + 1;
          if m != pk {
            assert old(Joined(r, m));
            assert Succ(m, n) != k && r[Succ(m, n)] == t[Succ(i, |t|)];
            assert r[m] != before && r[m] != element;
            assert r[Succ(m, n)] != after && r[Succ(m, n)] != element;
          }
        }
      }
    }
  }

  /**
   * `list_del_init(element)`: `list_del` followed by `list_init`, so the
   * element ends as a self-looped empty head whatever it was before.
   */
  method ListDelInit(element: Node, ghost r: seq<Node>)
    requires Linked(element) ==> Cycle(r) && element in r
    modifies {element} + if Linked(element) then {element.prev, element.next} else {}
    ensures Ring(element, []) && IsEmpty(element)
    ensures old(Linked(element)) && |r| > 1 ==> Cycle(RemoveAt(r, IndexOf(r, element)))
  {
    ghost var linked := Linked(element);
    ListDel(element, r);
    if linked && |r| > 1 {
      ghost var k := IndexOf(r, element);
      assert forall i :: 0 <= i < |r| - 1 ==> RemoveAt(r, k)[i] != r[k];
    }
    ListInit(element);
    EmptyIff(element, []);
  }

  /**
   * `list_del` twice on the same element: the second call finds both links
   * NULL and writes nothing, so the list is as after the first.
   */
  method ListDelTwice(element: Node, ghost r: seq<Node>)
    requires Cycle(r) && element in r
    modifies element, element.prev, element.next
    ensures Unlinked(element)
    ensures |r| > 1 ==> Cycle(RemoveAt(r, IndexOf(r, element)))
  {
    RingNodesLinked(r, element);
    ListDel(element, r);
    ListDel(element, r);
  }

  /**
   * `list_for_each(iter, list)`: the nodes the loop visits, in order.  They
   * are the list's elements in `next` order, each once, and none for an
   * empty list.
   */
  method ForEach(head: Node, ghost s: seq<Node>) returns (visited: seq<Node>)
    requires Ring(head, s)
    ensures visited == s
  {
    ghost var r := [head] + s;
    visited := [];
    var iter := head.next;
    assert Joined(r, 0);
    while iter != head
      invariant |visited| <= |s| && visited == s[..|visited|]
      invariant iter == r[Succ(|visited|, |r|)]
      decreases |s| - |visited|
    {
      assert Joined(r, |visited| + 1);
      visited := visited + [iter];
      iter := iter.next;
    }
  }
}
