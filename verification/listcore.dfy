/** The circular doubly linked list underneath the queue, modelled as an
    arena: a heap maps pointers to `list_head` links and, for element
    nodes, to their string payload. Pointer 0 is NULL and never allocated.

    `Valid(h, head, ord)` ties the heap to `ord`, the traversal order of the
    element nodes: following `next` from the sentinel `head` visits
    `ord[0], ..., ord[|ord|-1]` and returns to `head`, and `prev` walks the
    same cycle backwards. Every operation is stated as an effect on `ord`. */
module ListCore {
  import opened CString

  type Ptr = nat

  const NULL: Ptr := 0

  /** A `struct list_head`. */
  datatype Link = Link(next: Ptr, prev: Ptr)

  /** The arena. A node that is freed leaves both maps; the sentinel has
      links but no payload. */
  datatype Heap = Heap(links: map<Ptr, Link>, values: map<Ptr, Str>)

  /** The node after position `i` in the cycle `head, o[0], ..., o[|o|-1]`. */
  function Succ(head: Ptr, o: seq<Ptr>, i: int): Ptr
    requires 0 <= i < |o|
  {
    if i + 1 < |o| then o[i + 1] else head
  }

  /** The node before position `i` in the cycle. */
  function Pred(head: Ptr, o: seq<Ptr>, i: int): Ptr
    requires 0 <= i < |o|
  {
    if i > 0 then o[i - 1] else head
  }

  /** The node at position `j` counted from the first element, the
      sentinel standing at position `|o|`. */
  function At(head: Ptr, o: seq<Ptr>, j: int): Ptr
    requires 0 <= j <= |o|
  {
    if j < |o| then o[j] else head
  }

  /** Only past the last element does the walk reach the sentinel. */
  lemma AtSentinel(h: Heap, head: Ptr, o: seq<Ptr>, j: int)
    requires Valid(h, head, o) && 0 <= j <= |o| && At(head, o, j) == head
    ensures j == |o|
  {
  }

  /** The node just before position `j`, the sentinel standing before position 0. */
  function Before(head: Ptr, o: seq<Ptr>, j: int): Ptr
    requires 0 <= j <= |o|
  {
    if j > 0 then o[j - 1] else head
  }

  predicate Distinct(o: seq<Ptr>)
  {
    forall a, b :: 0 <= a < b < |o| ==> o[a] != o[b]
  }

  /** The list invariant of the queue. */
  ghost predicate Valid(h: Heap, head: Ptr, o: seq<Ptr>)
  {
    && NULL !in h.links
    && head in h.links && head !in h.values
    && (forall i :: 0 <= i < |o| ==> o[i] in h.links && o[i] in h.values && o[i] != head)
    && Distinct(o)
    && h.links[head] == Link(At(head, o, 0), Before(head, o, |o|))
    && (forall i {:trigger h.links[o[i]]} :: 0 <= i < |o| ==>
          h.links[o[i]] == Link(Succ(head, o, i), Pred(head, o, i)))
  }

  /** The payload of node `p`; the empty string for a node without one. */
  function Payload(vals: map<Ptr, Str>, p: Ptr): Str
  {
    if p in vals then vals[p] else []
  }

  /** The strings stored along `o`, in order. */
  function Values(vals: map<Ptr, Str>, o: seq<Ptr>): (vs: seq<Str>)
  {
    seq(|o|, i requires 0 <= i < |o| => Payload(vals, o[i]))
  }

  /** Following `next` `k` times from `p`. */
  function Walk(h: Heap, p: Ptr, k: nat): Ptr
    decreases k
  {
    if k == 0 || p !in h.links then p else Walk(h, h.links[p].next, k - 1)
  }

  /** `p->next = q` */
  function SetNext(h: Heap, p: Ptr, q: Ptr): (h': Heap)
    requires p in h.links
  {
    h.(links := h.links[p := h.links[p].(next := q)])
  }

  /** `p->prev = q` */
  function SetPrev(h: Heap, p: Ptr, q: Ptr): (h': Heap)
    requires p in h.links
  {
    h.(links := h.links[p := h.links[p].(prev := q)])
  }

  /** `list_del(x)` from `list.h`: the neighbours of `x` are linked to each
      other. The links of `x` itself are left as they were. */
  function ListDel(h: Heap, x: Ptr): (h': Heap)
    requires x in h.links && h.links[x].next in h.links && h.links[x].prev in h.links
  {
    var next := h.links[x].next;
    var prev := h.links[x].prev;
    var h1 := SetPrev(h, next, prev);
    SetNext(h1, prev, next)
  }

  /** `myInsert(pt, x)`: link `x` in immediately before `pt`, statement by
      statement. `list_add(x, head)` is the same as inserting before
      `head->next`, and `list_add_tail(x, head)` as inserting before `head`. */
  function InsertBefore(h: Heap, pt: Ptr, x: Ptr): (h': Heap)
    requires pt in h.links && x in h.links && h.links[pt].prev in h.links
  {
    var h1 := SetNext(h, x, pt);
    var h2 := SetPrev(h1, x, h1.links[pt].prev);
    var h3 := SetNext(h2, h2.links[x].prev, x);
    SetPrev(h3, pt, x)
  }

  /** Freeing an element node and its payload (`q_release_element`): the
      node leaves the arena. */
  function Release(h: Heap, x: Ptr): (h': Heap)
  {
    Heap(h.links - {x}, h.values - {x})
  }

  /** Removing the node at position `j` from an order. */
  function RemoveAt<T>(o: seq<T>, j: int): (r: seq<T>)
    requires 0 <= j < |o|
  {
    o[..j] + o[j + 1..]
  }

  /** Inserting `x` at position `j` of an order. */
  function InsertAt<T>(o: seq<T>, j: int, x: T): (r: seq<T>)
    requires 0 <= j <= |o|
  {
    o[..j] + [x] + o[j..]
  }

  /** Inserting at either end of an order. */
  lemma InsertAtEnds<T>(o: seq<T>, x: T)
    ensures InsertAt(o, 0, x) == [x] + o
    ensures InsertAt(o, |o|, x) == o + [x]
  {
  }

  /** Removing either end of a non-empty order. */
  lemma RemoveAtEnds<T>(o: seq<T>)
    requires |o| > 0
    ensures RemoveAt(o, 0) == o[1..]
    ensures RemoveAt(o, |o| - 1) == o[..|o| - 1]
  {
  }

  /** Every node of a valid list points back at its neighbours:
      `next->prev == n` and `prev->next == n`, the sentinel included. */
  lemma ValidIsDoublyLinked(h: Heap, head: Ptr, o: seq<Ptr>)
    requires Valid(h, head, o)
    ensures h.links[head].next in h.links && h.links[h.links[head].next].prev == head
    ensures h.links[head].prev in h.links && h.links[h.links[head].prev].next == head
    ensures forall i :: 0 <= i < |o| ==>
              && h.links[o[i]].next in h.links && h.links[h.links[o[i]].next].prev == o[i]
              && h.links[o[i]].prev in h.links && h.links[h.links[o[i]].prev].next == o[i]
  {
  }

  /** Following `next` from the sentinel visits the elements in order,
      never meets the sentinel on the way, and is back at the sentinel
      after `|o| + 1` steps. */
  lemma {:induction false} WalkVisitsOrder(h: Heap, head: Ptr, o: seq<Ptr>, k: nat)
    requires Valid(h, head, o)
    requires k <= |o|
    ensures Walk(h, head, k + 1) == At(head, o, k)
    ensures k < |o| ==> Walk(h, head, k + 1) != head
  {
    if k > 0 {
      WalkVisitsOrder(h, head, o, k - 1);
      WalkStep(h, head, k);
    }
  }

  /** One more step of `Walk`. */
  lemma {:induction false} WalkStep(h: Heap, p: Ptr, k: nat)
    requires Walk(h, p, k) in h.links
    ensures Walk(h, p, k + 1) == h.links[Walk(h, p, k)].next
    decreases k
  {
    if k > 0 && p in h.links {
      WalkStep(h, h.links[p].next, k - 1);
    }
  }

  /** One `next` step from the node before position `t` reaches position `t`. */
  lemma NextOfBefore(h: Heap, head: Ptr, o: seq<Ptr>, t: int)
    requires Valid(h, head, o)
    requires 0 <= t <= |o|
    ensures Before(head, o, t) in h.links
    ensures h.links[Before(head, o, t)].next == At(head, o, t)
    ensures t < |o| ==> h.links[Before(head, o, t)].next == Before(head, o, t + 1)
  {
    if t > 0 {
      assert h.links[o[t - 1]].next == Succ(head, o, t - 1);
    }
  }

  /** A heap holds at most one valid list through a given sentinel: the
      traversal order is a function of the links. */
  lemma OrderIsDetermined(h: Heap, head: Ptr, o1: seq<Ptr>, o2: seq<Ptr>)
    requires Valid(h, head, o1) && Valid(h, head, o2)
    ensures o1 == o2
  {
    forall k | 0 <= k < |o1| && k < |o2|
      ensures o1[k] == o2[k]
    {
      WalkVisitsOrder(h, head, o1, k);
      WalkVisitsOrder(h, head, o2, k);
    }
    if |o1| < |o2| {
      WalkVisitsOrder(h, head, o1, |o1|);
      WalkVisitsOrder(h, head, o2, |o1|);
    } else if |o2| < |o1| {
      WalkVisitsOrder(h, head, o1, |o2|);
      WalkVisitsOrder(h, head, o2, |o2|);
    }
  }

  /** The links after `list_del(x)`, node by node. */
  lemma ListDelLinks(h: Heap, x: Ptr)
    requires x in h.links && h.links[x].next in h.links && h.links[x].prev in h.links
    ensures ListDel(h, x).links.Keys == h.links.Keys
    ensures ListDel(h, x).values == h.values
    ensures var n, p := h.links[x].next, h.links[x].prev;
            n == p ==> ListDel(h, x).links[n] == Link(n, n)
    ensures var n, p := h.links[x].next, h.links[x].prev;
            n != p ==>
              && ListDel(h, x).links[p] == Link(n, h.links[p].prev)
              && ListDel(h, x).links[n] == Link(h.links[n].next, p)
    ensures forall q {:trigger ListDel(h, x).links[q]} ::
              q in h.links && q != h.links[x].next && q != h.links[x].prev ==>
              ListDel(h, x).links[q] == h.links[q]
  {
  }

  /** `list_del(x)` leaves the links of every node but the two
      neighbours of `x` as they were. */
  lemma ListDelElsewhere(h: Heap, x: Ptr, q: Ptr)
    requires x in h.links && h.links[x].next in h.links && h.links[x].prev in h.links
    requires q != h.links[x].next && q != h.links[x].prev
    ensures ListDel(h, x).links.Keys == h.links.Keys
    ensures q in h.links ==> ListDel(h, x).links[q] == h.links[q]
  {
  }

  /** The links after `myInsert(pt, x)`, node by node, when `x` is neither
      `pt` nor its predecessor. */
  lemma InsertBeforeLinks(h: Heap, pt: Ptr, x: Ptr)
    requires pt in h.links && x in h.links && h.links[pt].prev in h.links
    requires x != pt && x != h.links[pt].prev
    ensures InsertBefore(h, pt, x).links.Keys == h.links.Keys
    ensures InsertBefore(h, pt, x).values == h.values
    ensures InsertBefore(h, pt, x).links[x] == Link(pt, h.links[pt].prev)
    ensures var p := h.links[pt].prev;
            p == pt ==> InsertBefore(h, pt, x).links[pt] == Link(x, x)
    ensures var p := h.links[pt].prev;
            p != pt ==>
              && InsertBefore(h, pt, x).links[p] == Link(x, h.links[p].prev)
              && InsertBefore(h, pt, x).links[pt] == Link(h.links[pt].next, x)
    ensures forall q {:trigger InsertBefore(h, pt, x).links[q]} ::
              q in h.links && q != x && q != pt && q != h.links[pt].prev ==>
              InsertBefore(h, pt, x).links[q] == h.links[q]
  {
  }

  /** Removing a position from an order of distinct nodes keeps the
      others distinct. */
  lemma RemoveAtDistinct(o: seq<Ptr>, j: int)
    requires Distinct(o) && 0 <= j < |o|
    ensures Distinct(RemoveAt(o, j))
  {
    var o' := RemoveAt(o, j);
    assert forall i :: 0 <= i < |o'| ==> o'[i] == if i < j then o[i] else o[i + 1];
  }

  /** Inserting a node not yet in an order of distinct nodes keeps them distinct. */
  lemma InsertAtDistinct(o: seq<Ptr>, j: int, x: Ptr)
    requires Distinct(o) && 0 <= j <= |o| && x !in o
    ensures Distinct(InsertAt(o, j, x))
  {
    var o' := InsertAt(o, j, x);
    assert forall i :: 0 <= i < |o'| ==> o'[i] == if i < j then o[i] else if i == j then x else o[i - 1];
  }

  /** An element of a valid list can be unlinked: both its neighbours are nodes. */
  lemma CanDel(h: Heap, head: Ptr, o: seq<Ptr>, j: int)
    requires Valid(h, head, o)
    requires 0 <= j < |o|
    ensures o[j] in h.links && h.links[o[j]].next in h.links && h.links[o[j]].prev in h.links
  {
    assert h.links[o[j]] == Link(Succ(head, o, j), Pred(head, o, j));
  }

  /** `DelRelinks` at a position before the removed node's predecessor:
      the links are the old ones. */
  lemma DelRelinksBefore(h: Heap, head: Ptr, o: seq<Ptr>, j: int, i: int)
    requires Valid(h, head, o)
    requires 0 <= i < j - 1 && j < |o|
    ensures h.links[o[j]].next in h.links && h.links[o[j]].prev in h.links
    ensures ListDel(h, o[j]).links[RemoveAt(o, j)[i]] == Link(Succ(head, RemoveAt(o, j), i), Pred(head, RemoveAt(o, j), i))
  {
    var x := o[j];
    var next := Succ(head, o, j);
    var prev := o[j - 1];
    assert h.links[x] == Link(next, prev);
    ListDelLinks(h, x);
    var o' := RemoveAt(o, j);
    assert o'[i] == o[i] && o'[i + 1] == o[i + 1];
    assert Succ(head, o', i) == o[i + 1];
    assert Pred(head, o', i) == Pred(head, o, i) by {
      if i > 0 { assert o'[i - 1] == o[i - 1]; }
    }
    assert o[i] != prev && o[i] != next;
    assert h.links[o[i]] == Link(o[i + 1], Pred(head, o, i));
  }

  /** `DelRelinks` at a position after the removed node's successor:
      the links are the old ones. */
  lemma DelRelinksAfter(h: Heap, head: Ptr, o: seq<Ptr>, j: int, i: int)
    requires Valid(h, head, o)
    requires 0 <= j < i < |o| - 1
    ensures h.links[o[j]].next in h.links && h.links[o[j]].prev in h.links
    ensures ListDel(h, o[j]).links[RemoveAt(o, j)[i]] == Link(Succ(head, RemoveAt(o, j), i), Pred(head, RemoveAt(o, j), i))
  {
    var x := o[j];
    var next := o[j + 1];
    var prev := Pred(head, o, j);
    assert h.links[x] == Link(next, prev);
    ListDelLinks(h, x);
    var o' := RemoveAt(o, j);
    assert o'[i] == o[i + 1] && o'[i - 1] == o[i];
    assert Pred(head, o', i) == o[i];
    assert Succ(head, o', i) == Succ(head, o, i + 1) by {
      if i + 1 < |o'| { assert o'[i + 1] == o[i + 2]; }
    }
    assert o[i + 1] != prev && o[i + 1] != next;
    assert h.links[o[i + 1]] == Link(Succ(head, o, i + 1), o[i]);
  }

  /** `DelRelinks` at the removed node's predecessor, which now leads to
      the removed node's successor. */
  lemma DelRelinksPrev(h: Heap, head: Ptr, o: seq<Ptr>, j: int)
    requires Valid(h, head, o)
    requires 0 < j < |o|
    ensures h.links[o[j]].next in h.links && h.links[o[j]].prev in h.links
    ensures ListDel(h, o[j]).links[RemoveAt(o, j)[j - 1]]
              == Link(Succ(head, RemoveAt(o, j), j - 1), Pred(head, RemoveAt(o, j), j - 1))
  {
    var x := o[j];
    var next := Succ(head, o, j);
    var prev := o[j - 1];
    assert h.links[x] == Link(next, prev);
    assert h.links[prev] == Link(x, Pred(head, o, j - 1));
    assert prev != next;
    ListDelLinks(h, x);
    var o' := RemoveAt(o, j);
    assert o'[j - 1] == prev;
    assert Succ(head, o', j - 1) == next by {
      if j < |o'| { assert o'[j] == o[j + 1]; }
    }
    assert Pred(head, o', j - 1) == Pred(head, o, j - 1) by {
      if j > 1 { assert o'[j - 2] == o[j - 2]; }
    }
  }

  /** `DelRelinks` at the removed node's successor, which now leads back
      to the removed node's predecessor. */
  lemma DelRelinksNext(h: Heap, head: Ptr, o: seq<Ptr>, j: int)
    requires Valid(h, head, o)
    requires 0 <= j < |o| - 1
    ensures h.links[o[j]].next in h.links && h.links[o[j]].prev in h.links
    ensures ListDel(h, o[j]).links[RemoveAt(o, j)[j]]
              == Link(Succ(head, RemoveAt(o, j), j), Pred(head, RemoveAt(o, j), j))
  {
    var x := o[j];
    var next := o[j + 1];
    var prev := Pred(head, o, j);
    assert h.links[x] == Link(next, prev);
    assert h.links[next] == Link(Succ(head, o, j + 1), x);
    assert prev != next;
    ListDelLinks(h, x);
    var o' := RemoveAt(o, j);
    assert o'[j] == next;
    assert Pred(head, o', j) == prev by {
      if j > 0 { assert o'[j - 1] == o[j - 1]; }
    }
    assert Succ(head, o', j) == Succ(head, o, j + 1) by {
      if j + 1 < |o'| { assert o'[j + 1] == o[j + 2]; }
    }
  }

  /** After `list_del` of the element at position `j`, every remaining
      element is linked to its new neighbours. */
  lemma DelRelinks(h: Heap, head: Ptr, o: seq<Ptr>, j: int)
    requires Valid(h, head, o)
    requires 0 <= j < |o|
    ensures h.links[o[j]].next in h.links && h.links[o[j]].prev in h.links
    ensures forall i {:trigger RemoveAt(o, j)[i]} :: 0 <= i < |o| - 1 ==>
              ListDel(h, o[j]).links[RemoveAt(o, j)[i]] == Link(Succ(head, RemoveAt(o, j), i), Pred(head, RemoveAt(o, j), i))
  {
    DelRelinksLow(h, head, o, j);
    DelRelinksHigh(h, head, o, j);
  }

  /** `DelRelinks` for the elements before the deleted one. */
  lemma DelRelinksLow(h: Heap, head: Ptr, o: seq<Ptr>, j: int)
    requires Valid(h, head, o)
    requires 0 <= j < |o|
    ensures h.links[o[j]].next in h.links && h.links[o[j]].prev in h.links
    ensures forall i {:trigger RemoveAt(o, j)[i]} :: 0 <= i < j ==>
              ListDel(h, o[j]).links[RemoveAt(o, j)[i]] == Link(Succ(head, RemoveAt(o, j), i), Pred(head, RemoveAt(o, j), i))
  {
    CanDel(h, head, o, j);
    forall i | 0 <= i < j
      ensures ListDel(h, o[j]).links[RemoveAt(o, j)[i]] == Link(Succ(head, RemoveAt(o, j), i), Pred(head, RemoveAt(o, j), i))
    {
      if i < j - 1 {
        DelRelinksBefore(h, head, o, j, i);
      } else {
        DelRelinksPrev(h, head, o, j);
      }
    }
  }

  /** `DelRelinks` for the elements after the deleted one. */
  lemma DelRelinksHigh(h: Heap, head: Ptr, o: seq<Ptr>, j: int)
    requires Valid(h, head, o)
    requires 0 <= j < |o|
    ensures h.links[o[j]].next in h.links && h.links[o[j]].prev in h.links
    ensures forall i {:trigger RemoveAt(o, j)[i]} :: j <= i < |o| - 1 ==>
              ListDel(h, o[j]).links[RemoveAt(o, j)[i]] == Link(Succ(head, RemoveAt(o, j), i), Pred(head, RemoveAt(o, j), i))
  {
    CanDel(h, head, o, j);
    forall i | j <= i < |o| - 1
      ensures ListDel(h, o[j]).links[RemoveAt(o, j)[i]] == Link(Succ(head, RemoveAt(o, j), i), Pred(head, RemoveAt(o, j), i))
    {
      if i > j {
        DelRelinksAfter(h, head, o, j, i);
      } else {
        DelRelinksNext(h, head, o, j);
      }
    }
  }

  /** `DelRelinksHead` for the first element. */
  lemma DelRelinksHeadFront(h: Heap, head: Ptr, o: seq<Ptr>)
    requires Valid(h, head, o)
    requires 0 < |o|
    ensures h.links[o[0]].next in h.links && h.links[o[0]].prev in h.links
    ensures ListDel(h, o[0]).links[head] == Link(At(head, RemoveAt(o, 0), 0), Before(head, RemoveAt(o, 0), |o| - 1))
  {
    var x := o[0];
    var next := Succ(head, o, 0);
    assert h.links[x] == Link(next, head);
    ListDelLinks(h, x);
    var o' := RemoveAt(o, 0);
    if |o| > 1 {
      assert o'[0] == o[1];
      assert o'[|o'| - 1] == o[|o| - 1];
    }
  }

  /** `DelRelinksHead` for the last element of a list of two or more. */
  lemma DelRelinksHeadBack(h: Heap, head: Ptr, o: seq<Ptr>)
    requires Valid(h, head, o)
    requires 1 < |o|
    ensures h.links[o[|o| - 1]].next in h.links && h.links[o[|o| - 1]].prev in h.links
    ensures ListDel(h, o[|o| - 1]).links[head]
              == Link(At(head, RemoveAt(o, |o| - 1), 0), Before(head, RemoveAt(o, |o| - 1), |o| - 1))
  {
    var j := |o| - 1;
    var x := o[j];
    var prev := o[j - 1];
    assert h.links[x] == Link(head, prev);
    ListDelLinks(h, x);
    var o' := RemoveAt(o, j);
    assert o'[0] == o[0];
    assert o'[|o'| - 1] == o[|o| - 2];
  }

  /** `DelRelinksHead` for an element strictly inside the list. */
  lemma DelRelinksHeadMiddle(h: Heap, head: Ptr, o: seq<Ptr>, j: int)
    requires Valid(h, head, o)
    requires 0 < j < |o| - 1
    ensures h.links[o[j]].next in h.links && h.links[o[j]].prev in h.links
    ensures ListDel(h, o[j]).links[head] == Link(At(head, RemoveAt(o, j), 0), Before(head, RemoveAt(o, j), |o| - 1))
  {
    var x := o[j];
    assert h.links[x] == Link(o[j + 1], o[j - 1]);
    ListDelElsewhere(h, x, head);
    RemoveAtInner(o, j);
  }

  /** Removing an inner position keeps both ends of an order. */
  lemma RemoveAtInner<T>(o: seq<T>, j: int)
    requires 0 < j < |o| - 1
    ensures |RemoveAt(o, j)| == |o| - 1
    ensures RemoveAt(o, j)[0] == o[0] && RemoveAt(o, j)[|o| - 2] == o[|o| - 1]
  {
  }

  /** After `list_del` of the element at position `j`, the sentinel is
      linked to the new first and last elements. */
  lemma DelRelinksHead(h: Heap, head: Ptr, o: seq<Ptr>, j: int)
    requires Valid(h, head, o)
    requires 0 <= j < |o|
    ensures h.links[o[j]].next in h.links && h.links[o[j]].prev in h.links
    ensures ListDel(h, o[j]).links[head] == Link(At(head, RemoveAt(o, j), 0), Before(head, RemoveAt(o, j), |o| - 1))
  {
    if j == 0 {
      DelRelinksHeadFront(h, head, o);
    } else if j == |o| - 1 {
      DelRelinksHeadBack(h, head, o);
    } else {
      DelRelinksHeadMiddle(h, head, o, j);
    }
  }

  /** `list_del` of the element at position `j` removes exactly that
      element from the order and touches no payload. */
  lemma DelValid(h: Heap, head: Ptr, o: seq<Ptr>, j: int)
    requires Valid(h, head, o)
    requires 0 <= j < |o|
    ensures h.links[o[j]].next in h.links && h.links[o[j]].prev in h.links
    ensures Valid(ListDel(h, o[j]), head, RemoveAt(o, j))
    ensures ListDel(h, o[j]).values == h.values
    ensures ListDel(h, o[j]).links.Keys == h.links.Keys
  {
    DelRelinks(h, head, o, j);
    DelRelinksHead(h, head, o, j);
    DelMembers(h, head, o, j);
  }

  /** After `list_del` of the element at position `j`, the remaining
      elements are still distinct nodes of the arena with payloads. */
  lemma DelMembers(h: Heap, head: Ptr, o: seq<Ptr>, j: int)
    requires Valid(h, head, o)
    requires 0 <= j < |o|
    ensures h.links[o[j]].next in h.links && h.links[o[j]].prev in h.links
    ensures ListDel(h, o[j]).values == h.values
    ensures ListDel(h, o[j]).links.Keys == h.links.Keys
    ensures forall i :: 0 <= i < |o| - 1 ==>
              RemoveAt(o, j)[i] in h.links && RemoveAt(o, j)[i] in h.values && RemoveAt(o, j)[i] != head
    ensures Distinct(RemoveAt(o, j))
  {
    assert h.links[o[j]] == Link(Succ(head, o, j), Pred(head, o, j));
    ListDelLinks(h, o[j]);
    var o' := RemoveAt(o, j);
    forall i | 0 <= i < |o'|
      ensures o'[i] in h.links && o'[i] in h.values && o'[i] != head
    {
      if i < j { assert o'[i] == o[i]; } else { assert o'[i] == o[i + 1]; }
    }
    RemoveAtDistinct(o, j);
  }


  /** `InsertRelinks` at a position before the inserted node's
      predecessor: the links are the old ones. */
  lemma InsertRelinksBefore(h: Heap, head: Ptr, o: seq<Ptr>, j: int, x: Ptr, i: int)
    requires Valid(h, head, o)
    requires 0 <= i < j - 1 && j <= |o|
    requires x in h.links && x in h.values && x != head && x !in o
    ensures h.links[At(head, o, j)].prev in h.links
    ensures InsertBefore(h, At(head, o, j), x).links[InsertAt(o, j, x)[i]]
              == Link(Succ(head, InsertAt(o, j, x), i), Pred(head, InsertAt(o, j, x), i))
  {
    var pt := At(head, o, j);
    var prev := o[j - 1];
    assert h.links[pt].prev == prev;
    InsertBeforeLinks(h, pt, x);
    var o' := InsertAt(o, j, x);
    assert o'[i] == o[i] && o'[i + 1] == o[i + 1];
    assert Succ(head, o', i) == o[i + 1];
    assert Pred(head, o', i) == Pred(head, o, i) by {
      if i > 0 { assert o'[i - 1] == o[i - 1]; }
    }
    assert o[i] != prev && o[i] != pt && o[i] != x;
    assert h.links[o[i]] == Link(o[i + 1], Pred(head, o, i));
  }

  /** `InsertRelinks` at a position after the inserted node's successor:
      the links are the old ones. */
  lemma InsertRelinksAfter(h: Heap, head: Ptr, o: seq<Ptr>, j: int, x: Ptr, i: int)
    requires Valid(h, head, o)
    requires 0 <= j && j + 1 < i <= |o|
    requires x in h.links && x in h.values && x != head && x !in o
    ensures h.links[At(head, o, j)].prev in h.links
    ensures InsertBefore(h, At(head, o, j), x).links[InsertAt(o, j, x)[i]]
              == Link(Succ(head, InsertAt(o, j, x), i), Pred(head, InsertAt(o, j, x), i))
  {
    var pt := o[j];
    var prev := Before(head, o, j);
    assert h.links[pt].prev == prev;
    InsertBeforeLinks(h, pt, x);
    var o' := InsertAt(o, j, x);
    assert o'[i] == o[i - 1] && o'[i - 1] == o[i - 2];
    assert Pred(head, o', i) == o[i - 2];
    assert Succ(head, o', i) == Succ(head, o, i - 1) by {
      if i + 1 < |o'| { assert o'[i + 1] == o[i]; }
    }
    assert o[i - 1] != prev && o[i - 1] != pt && o[i - 1] != x;
    assert h.links[o[i - 1]] == Link(Succ(head, o, i - 1), o[i - 2]);
  }

  /** `InsertRelinks` at the inserted node's predecessor, which now leads
      to the inserted node. */
  lemma InsertRelinksPrev(h: Heap, head: Ptr, o: seq<Ptr>, j: int, x: Ptr)
    requires Valid(h, head, o)
    requires 0 < j <= |o|
    requires x in h.links && x in h.values && x != head && x !in o
    ensures h.links[At(head, o, j)].prev in h.links
    ensures InsertBefore(h, At(head, o, j), x).links[InsertAt(o, j, x)[j - 1]]
              == Link(Succ(head, InsertAt(o, j, x), j - 1), Pred(head, InsertAt(o, j, x), j - 1))
  {
    var pt := At(head, o, j);
    var prev := o[j - 1];
    assert h.links[pt].prev == prev;
    assert h.links[prev] == Link(pt, Pred(head, o, j - 1));
    assert prev != pt;
    InsertBeforeLinks(h, pt, x);
    var o' := InsertAt(o, j, x);
    assert o'[j - 1] == prev && o'[j] == x;
    assert Succ(head, o', j - 1) == x;
    assert Pred(head, o', j - 1) == Pred(head, o, j - 1) by {
      if j > 1 { assert o'[j - 2] == o[j - 2]; }
    }
  }

  /** `InsertRelinks` at the inserted node itself. */
  lemma InsertRelinksSelf(h: Heap, head: Ptr, o: seq<Ptr>, j: int, x: Ptr)
    requires Valid(h, head, o)
    requires 0 <= j <= |o|
    requires x in h.links && x in h.values && x != head && x !in o
    ensures h.links[At(head, o, j)].prev in h.links
    ensures InsertBefore(h, At(head, o, j), x).links[InsertAt(o, j, x)[j]]
              == Link(Succ(head, InsertAt(o, j, x), j), Pred(head, InsertAt(o, j, x), j))
  {
    var pt := At(head, o, j);
    var prev := Before(head, o, j);
    assert h.links[pt].prev == prev;
    InsertBeforeLinks(h, pt, x);
    var o' := InsertAt(o, j, x);
    assert o'[j] == x;
    assert Pred(head, o', j) == prev by {
      if j > 0 { assert o'[j - 1] == o[j - 1]; }
    }
    assert Succ(head, o', j) == pt by {
      if j < |o| { assert o'[j + 1] == o[j]; }
    }
  }

  /** `InsertRelinks` at the inserted node's successor, which now leads
      back to the inserted node. */
  lemma InsertRelinksNext(h: Heap, head: Ptr, o: seq<Ptr>, j: int, x: Ptr)
    requires Valid(h, head, o)
    requires 0 <= j < |o|
    requires x in h.links && x in h.values && x != head && x !in o
    ensures h.links[At(head, o, j)].prev in h.links
    ensures InsertBefore(h, At(head, o, j), x).links[InsertAt(o, j, x)[j + 1]]
              == Link(Succ(head, InsertAt(o, j, x), j + 1), Pred(head, InsertAt(o, j, x), j + 1))
  {
    var pt := o[j];
    var prev := Before(head, o, j);
    assert h.links[pt] == Link(Succ(head, o, j), prev);
    assert prev != pt;
    InsertBeforeLinks(h, pt, x);
    var o' := InsertAt(o, j, x);
    assert o'[j + 1] == pt && o'[j] == x;
    assert Pred(head, o', j + 1) == x;
    assert Succ(head, o', j + 1) == Succ(head, o, j) by {
      if j + 2 < |o'| { assert o'[j + 2] == o[j + 1]; }
    }
  }

  /** After `myInsert` of a detached `x` before position `j`, every
      element of the new order is linked to its neighbours. */
  lemma InsertRelinks(h: Heap, head: Ptr, o: seq<Ptr>, j: int, x: Ptr)
    requires Valid(h, head, o)
    requires 0 <= j <= |o|
    requires x in h.links && x in h.values && x != head && x !in o
    ensures h.links[At(head, o, j)].prev in h.links
    ensures forall i {:trigger InsertAt(o, j, x)[i]} :: 0 <= i <= |o| ==>
              InsertBefore(h, At(head, o, j), x).links[InsertAt(o, j, x)[i]]
                == Link(Succ(head, InsertAt(o, j, x), i), Pred(head, InsertAt(o, j, x), i))
  {
    InsertRelinksSelf(h, head, o, j, x);
    forall i | 0 <= i <= |o|
      ensures InsertBefore(h, At(head, o, j), x).links[InsertAt(o, j, x)[i]]
                == Link(Succ(head, InsertAt(o, j, x), i), Pred(head, InsertAt(o, j, x), i))
    {
      if i < j - 1 {
        InsertRelinksBefore(h, head, o, j, x, i);
      } else if i > j + 1 {
        InsertRelinksAfter(h, head, o, j, x, i);
      } else if i == j - 1 {
        InsertRelinksPrev(h, head, o, j, x);
      } else if i == j {
        InsertRelinksSelf(h, head, o, j, x);
      } else {
        InsertRelinksNext(h, head, o, j, x);
      }
    }
  }

  /** `InsertRelinksHead` when `x` becomes the first element. */
  lemma InsertRelinksHeadFront(h: Heap, head: Ptr, o: seq<Ptr>, x: Ptr)
    requires Valid(h, head, o)
    requires x in h.links && x in h.values && x != head && x !in o
    ensures h.links[At(head, o, 0)].prev in h.links
    ensures InsertBefore(h, At(head, o, 0), x).links[head]
              == Link(At(head, InsertAt(o, 0, x), 0), Before(head, InsertAt(o, 0, x), |o| + 1))
  {
    var pt := At(head, o, 0);
    assert h.links[pt].prev == head;
    InsertBeforeLinks(h, pt, x);
    var o' := InsertAt(o, 0, x);
    assert o'[0] == x;
    if |o| == 0 {
      assert |o'| == 1;
    } else {
      assert o'[|o'| - 1] == o[|o| - 1];
    }
  }

  /** `InsertRelinksHead` when `x` becomes the last element of a non-empty list. */
  lemma InsertRelinksHeadBack(h: Heap, head: Ptr, o: seq<Ptr>, x: Ptr)
    requires Valid(h, head, o)
    requires |o| > 0
    requires x in h.links && x in h.values && x != head && x !in o
    ensures h.links[At(head, o, |o|)].prev in h.links
    ensures InsertBefore(h, At(head, o, |o|), x).links[head]
              == Link(At(head, InsertAt(o, |o|, x), 0), Before(head, InsertAt(o, |o|, x), |o| + 1))
  {
    var prev := o[|o| - 1];
    assert h.links[head].prev == prev;
    InsertBeforeLinks(h, head, x);
    var o' := InsertAt(o, |o|, x);
    assert o'[0] == o[0] && o'[|o'| - 1] == x;
  }

  /** `InsertRelinksHead` when `x` lands strictly inside the list. */
  lemma InsertRelinksHeadMiddle(h: Heap, head: Ptr, o: seq<Ptr>, j: int, x: Ptr)
    requires Valid(h, head, o)
    requires 0 < j < |o|
    requires x in h.links && x in h.values && x != head && x !in o
    ensures h.links[At(head, o, j)].prev in h.links
    ensures InsertBefore(h, At(head, o, j), x).links[head]
              == Link(At(head, InsertAt(o, j, x), 0), Before(head, InsertAt(o, j, x), |o| + 1))
  {
    var pt := o[j];
    var prev := o[j - 1];
    assert h.links[pt].prev == prev;
    InsertBeforeLinks(h, pt, x);
    var o' := InsertAt(o, j, x);
    assert o'[0] == o[0] && o'[|o'| - 1] == o[|o| - 1];
    assert head != pt && head != prev;
  }

  /** After `myInsert` of a detached `x` before position `j`, the sentinel
      is linked to the new first and last elements. */
  lemma InsertRelinksHead(h: Heap, head: Ptr, o: seq<Ptr>, j: int, x: Ptr)
    requires Valid(h, head, o)
    requires 0 <= j <= |o|
    requires x in h.links && x in h.values && x != head && x !in o
    ensures h.links[At(head, o, j)].prev in h.links
    ensures InsertBefore(h, At(head, o, j), x).links[head]
              == Link(At(head, InsertAt(o, j, x), 0), Before(head, InsertAt(o, j, x), |o| + 1))
  {
    if j == 0 {
      InsertRelinksHeadFront(h, head, o, x);
    } else if j == |o| {
      InsertRelinksHeadBack(h, head, o, x);
    } else {
      InsertRelinksHeadMiddle(h, head, o, j, x);
    }
  }

  /** Inserting a detached node before the node at position `j` puts it
      at position `j` of the order and touches no payload. */
  lemma InsertValid(h: Heap, head: Ptr, o: seq<Ptr>, j: int, x: Ptr)
    requires Valid(h, head, o)
    requires 0 <= j <= |o|
    requires x in h.links && x in h.values && x != head && x !in o
    ensures h.links[At(head, o, j)].prev in h.links
    ensures Valid(InsertBefore(h, At(head, o, j), x), head, InsertAt(o, j, x))
    ensures InsertBefore(h, At(head, o, j), x).values == h.values
    ensures InsertBefore(h, At(head, o, j), x).links.Keys == h.links.Keys
  {
    InsertRelinks(h, head, o, j, x);
    InsertRelinksHead(h, head, o, j, x);
    var pt := At(head, o, j);
    InsertBeforeLinks(h, pt, x);
    var h' := InsertBefore(h, pt, x);
    var o' := InsertAt(o, j, x);
    InsertAtMembers(o, j, x);
    InsertAtDistinct(o, j, x);
  }

  /** Every element after an insertion is the new one or an old one. */
  lemma InsertAtMembers(o: seq<Ptr>, j: int, x: Ptr)
    requires 0 <= j <= |o|
    ensures forall i :: 0 <= i < |InsertAt(o, j, x)| ==> InsertAt(o, j, x)[i] == x || InsertAt(o, j, x)[i] in o
  {
    var o' := InsertAt(o, j, x);
    forall i | 0 <= i < |o'|
      ensures o'[i] == x || o'[i] in o
    {
      if i < j { assert o'[i] == o[i]; } else if i > j { assert o'[i] == o[i - 1]; }
    }
  }

  /** No node outside the list through `head` changes its links, and none
      leaves the arena. */
  ghost predicate Untouched(h: Heap, h': Heap, head: Ptr, o: seq<Ptr>)
  {
    forall q {:trigger h.links[q]} :: q in h.links && q != head && q !in o ==> q in h'.links && h'.links[q] == h.links[q]
  }

  /** Two steps that each touch only their list touch only the first list,
      when the list between them holds no new node. */
  lemma UntouchedTrans(h: Heap, h1: Heap, h2: Heap, head: Ptr, o: seq<Ptr>, o1: seq<Ptr>)
    requires Untouched(h, h1, head, o) && Untouched(h1, h2, head, o1)
    requires forall q :: q in o1 ==> q in o
    ensures Untouched(h, h2, head, o)
  {
  }

  /** `list_del` of an element only touches the list it is on. */
  lemma DelFrame(h: Heap, head: Ptr, o: seq<Ptr>, j: int)
    requires Valid(h, head, o)
    requires 0 <= j < |o|
    ensures h.links[o[j]].next in h.links && h.links[o[j]].prev in h.links
    ensures Untouched(h, ListDel(h, o[j]), head, o)
  {
    assert h.links[o[j]] == Link(Succ(head, o, j), Pred(head, o, j));
    ListDelLinks(h, o[j]);
  }

  /** `myInsert` of a detached node only touches that node and the list. */
  lemma InsertFrame(h: Heap, head: Ptr, o: seq<Ptr>, j: int, x: Ptr)
    requires Valid(h, head, o)
    requires 0 <= j <= |o|
    requires x in h.links && x != head && x !in o
    ensures h.links[At(head, o, j)].prev in h.links
    ensures Untouched(h, InsertBefore(h, At(head, o, j), x), head, o + [x])
  {
    var pt := At(head, o, j);
    assert h.links[pt].prev == Before(head, o, j);
    InsertBeforeLinks(h, pt, x);
  }

  /** Releasing a node that is not on the list leaves the list valid. */
  lemma ReleaseValid(h: Heap, head: Ptr, o: seq<Ptr>, x: Ptr)
    requires Valid(h, head, o)
    requires x != head && x !in o
    ensures Valid(Release(h, x), head, o)
    ensures Values(Release(h, x).values, o) == Values(h.values, o)
  {
  }

  /** The elements of an order, as a set. */
  function Elems(o: seq<Ptr>): set<Ptr>
  {
    set p | p in o
  }

  /** One more element of the prefix. */
  lemma ElemsExtend(o: seq<Ptr>, k: int)
    requires 0 <= k < |o|
    ensures Elems(o[..k + 1]) == Elems(o[..k]) + {o[k]}
  {
    assert o[..k + 1] == o[..k] + [o[k]];
  }

  /** Reading out the values along two orders one after the other. */
  lemma ValuesAppend(vals: map<Ptr, Str>, a: seq<Ptr>, b: seq<Ptr>)
    ensures Values(vals, a + b) == Values(vals, a) + Values(vals, b)
  {
  }

  /** The values along an order only depend on the payloads of its nodes. */
  lemma ValuesFrame(vals: map<Ptr, Str>, vals': map<Ptr, Str>, o: seq<Ptr>)
    requires forall i :: 0 <= i < |o| ==> Payload(vals, o[i]) == Payload(vals', o[i])
    ensures Values(vals, o) == Values(vals', o)
  {
  }

  /** Dropping a position of the order drops the same position of the values. */
  lemma ValuesRemoveAt(vals: map<Ptr, Str>, o: seq<Ptr>, j: int)
    requires 0 <= j < |o|
    ensures Values(vals, RemoveAt(o, j)) == RemoveAt(Values(vals, o), j)
  {
  }
  /** Dropping a node off the order from the payloads changes no value along it. */
  lemma ValuesDropOther(vals: map<Ptr, Str>, o: seq<Ptr>, x: Ptr)
    requires x !in o
    ensures Values(vals - {x}, o) == Values(vals, o)
  {
  }

  /** Storing the payload of a node off the order and then inserting it at
      position `j` inserts its string at position `j` of the values. */
  lemma ValuesInsertAt(vals: map<Ptr, Str>, o: seq<Ptr>, j: int, x: Ptr, s: Str)
    requires 0 <= j <= |o| && x !in o
    ensures Values(vals[x := s], InsertAt(o, j, x)) == InsertAt(Values(vals, o), j, s)
  {
    var o' := InsertAt(o, j, x);
    var vs := Values(vals[x := s], o');
    var ws := InsertAt(Values(vals, o), j, s);
    assert |vs| == |ws|;
    forall i | 0 <= i < |o'|
      ensures vs[i] == ws[i]
    {
      if i < j {
        assert o'[i] == o[i];
      } else if i > j {
        assert o'[i] == o[i - 1];
      }
    }
  }

  /** The node removed from an order of distinct nodes is no longer in it. */
  lemma RemoveAtDrops(o: seq<Ptr>, j: int)
    requires Distinct(o) && 0 <= j < |o|
    ensures o[j] !in RemoveAt(o, j)
  {
    var o' := RemoveAt(o, j);
    forall i | 0 <= i < |o'|
      ensures o'[i] != o[j]
    {
      if i < j { assert o'[i] == o[i]; } else { assert o'[i] == o[i + 1]; }
    }
  }


  /** Unlinking the element at position `j` and releasing it keeps the
      rest of the list valid. */
  lemma DeleteAtValid(h: Heap, head: Ptr, o: seq<Ptr>, j: int)
    requires Valid(h, head, o)
    requires 0 <= j < |o|
    ensures h.links[o[j]].next in h.links && h.links[o[j]].prev in h.links
    ensures Valid(Release(ListDel(h, o[j]), o[j]), head, RemoveAt(o, j))
  {
    DelValid(h, head, o, j);
    var x := o[j];
    assert x !in RemoveAt(o, j);
    ReleaseValid(ListDel(h, x), head, RemoveAt(o, j), x);
  }

  /** Unlinking and releasing the element at position `j` frees exactly
      that node and drops its string from the values along the order. */
  lemma DeleteAtValues(h: Heap, head: Ptr, o: seq<Ptr>, j: int)
    requires Valid(h, head, o)
    requires 0 <= j < |o|
    ensures h.links[o[j]].next in h.links && h.links[o[j]].prev in h.links
    ensures Release(ListDel(h, o[j]), o[j]).values == h.values - {o[j]}
    ensures Release(ListDel(h, o[j]), o[j]).links.Keys == h.links.Keys - {o[j]}
    ensures Values(Release(ListDel(h, o[j]), o[j]).values, RemoveAt(o, j)) == RemoveAt(Values(h.values, o), j)
  {
    assert h.links[o[j]] == Link(Succ(head, o, j), Pred(head, o, j));
    ListDelLinks(h, o[j]);
    RemoveAtDrops(o, j);
    ValuesDropOther(h.values, RemoveAt(o, j), o[j]);
    ValuesRemoveAt(h.values, o, j);
  }


  /** Unlinking the element at position `j` and releasing it, as
      `q_delete_mid`, `q_delete_dup` and `q_free` do. */
  lemma DeleteAt(h: Heap, head: Ptr, o: seq<Ptr>, j: int)
    requires Valid(h, head, o)
    requires 0 <= j < |o|
    ensures h.links[o[j]].next in h.links && h.links[o[j]].prev in h.links
    ensures Valid(Release(ListDel(h, o[j]), o[j]), head, RemoveAt(o, j))
    ensures Release(ListDel(h, o[j]), o[j]).values == h.values - {o[j]}
    ensures Release(ListDel(h, o[j]), o[j]).links.Keys == h.links.Keys - {o[j]}
    ensures Values(Release(ListDel(h, o[j]), o[j]).values, RemoveAt(o, j)) == RemoveAt(Values(h.values, o), j)
    ensures Untouched(h, Release(ListDel(h, o[j]), o[j]), head, o)
  {
    DeleteAtValid(h, head, o, j);
    DeleteAtValues(h, head, o, j);
    DeleteAtFrame(h, head, o, j);
  }

  /** Unlinking and releasing an element touches no other list. */
  lemma DeleteAtFrame(h: Heap, head: Ptr, o: seq<Ptr>, j: int)
    requires Valid(h, head, o)
    requires 0 <= j < |o|
    ensures h.links[o[j]].next in h.links && h.links[o[j]].prev in h.links
    ensures Untouched(h, Release(ListDel(h, o[j]), o[j]), head, o)
  {
    DelFrame(h, head, o, j);
  }

  /** Taking the element at position `from` out of an order and putting it
      back at position `to`: what `list_del` followed by `myInsert` does. */
  function Move<T>(s: seq<T>, from: int, to: int): (r: seq<T>)
    requires 0 <= to <= from < |s|
  {
    InsertAt(RemoveAt(s, from), to, s[from])
  }

  /** A moved element lands at `to`; the elements between shift up by one
      and those after `from` stay where they were. */
  lemma MoveAt<T>(s: seq<T>, from: int, to: int)
    requires 0 <= to <= from < |s|
    ensures |Move(s, from, to)| == |s|
    ensures Move(s, from, to)[to] == s[from]
    ensures forall i :: 0 <= i < to ==> Move(s, from, to)[i] == s[i]
    ensures forall i :: to < i <= from ==> Move(s, from, to)[i] == s[i - 1]
    ensures forall i :: from < i < |s| ==> Move(s, from, to)[i] == s[i]
  {
  }

  /** Moving brings in no element from elsewhere. */
  lemma MoveWithin(s: seq<Ptr>, from: int, to: int)
    requires 0 <= to <= from < |s|
    ensures forall q :: q in Move(s, from, to) ==> q in s
  {
    var m := Move(s, from, to);
    MoveAt(s, from, to);
    forall q | q in m
      ensures q in s
    {
      var i :| 0 <= i < |m| && m[i] == q;
      if i < to || from < i {
        assert s[i] == q;
      } else if i == to {
        assert s[from] == q;
      } else {
        assert s[i - 1] == q;
      }
    }
  }

  /** `list_del` of the element at position `from` and `myInsert` of it
      before the element at position `to`: the list stays valid in the
      moved order, and nothing else changes. */
  lemma MoveValid(h: Heap, head: Ptr, s: seq<Ptr>, from: int, to: int)
    requires Valid(h, head, s)
    requires 0 <= to < from < |s|
    ensures s[from] in h.links && h.links[s[from]].next in h.links && h.links[s[from]].prev in h.links
    ensures s[to] in ListDel(h, s[from]).links && s[from] in ListDel(h, s[from]).links
    ensures ListDel(h, s[from]).links[s[to]].prev in ListDel(h, s[from]).links
    ensures Valid(InsertBefore(ListDel(h, s[from]), s[to], s[from]), head, Move(s, from, to))
    ensures InsertBefore(ListDel(h, s[from]), s[to], s[from]).values == h.values
    ensures InsertBefore(ListDel(h, s[from]), s[to], s[from]).links.Keys == h.links.Keys
    ensures Untouched(h, InsertBefore(ListDel(h, s[from]), s[to], s[from]), head, s)
  {
    DelValid(h, head, s, from);
    DelFrame(h, head, s, from);
    var h1 := ListDel(h, s[from]);
    var s1 := RemoveAt(s, from);
    RemoveAtDrops(s, from);
    assert At(head, s1, to) == s[to];
    InsertValid(h1, head, s1, to, s[from]);
    InsertFrame(h1, head, s1, to, s[from]);
    MoveIsAppendWithin(s, from);
    UntouchedTrans(h, h1, InsertBefore(h1, s[to], s[from]), head, s, s1 + [s[from]]);
  }

  /** The order after `list_del` of position `from`, with the removed
      element appended, holds only elements of the original. */
  lemma MoveIsAppendWithin(s: seq<Ptr>, from: int)
    requires 0 <= from < |s|
    ensures forall q :: q in RemoveAt(s, from) + [s[from]] ==> q in s
  {
    forall q | q in RemoveAt(s, from) + [s[from]]
      ensures q in s
    {
      var i :| 0 <= i < |s| && (RemoveAt(s, from) + [s[from]])[i] == q;
      if i < from {
        assert s[i] == q;
      } else if i < |s| - 1 {
        assert s[i + 1] == q;
      }
    }
  }
}
