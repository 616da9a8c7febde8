/** `q_reverse`: every node of the cycle, the sentinel included, has its
    `next` and `prev` exchanged. Walking the flipped cycle forwards is
    walking the old one backwards, so the traversal order is reversed. */
module QueueReverse {
  import opened CString
  import opened ListCore
  import SeqSpec

  /** A `list_head` with its two pointers exchanged. */
  function Flip(l: Link): Link
  {
    Link(l.prev, l.next)
  }

  /** `hc` is `h` with the links of exactly the nodes in `s` flipped:
      no payload changes and no node enters or leaves the arena. */
  ghost predicate FlippedOn(h: Heap, hc: Heap, s: set<Ptr>)
  {
    && hc.values == h.values
    && hc.links.Keys == h.links.Keys
    && (forall q :: q in h.links ==> hc.links[q] == if q in s then Flip(h.links[q]) else h.links[q])
  }

  /** The loop body of `q_reverse` on `node`, statement by statement:
      `tmp = node->next; node->next = node->prev; node->prev = tmp;`. */
  function FlipNode(h: Heap, node: Ptr): (h': Heap)
    requires node in h.links
    ensures h'.values == h.values && h'.links.Keys == h.links.Keys
    ensures h'.links[node] == Flip(h.links[node])
    ensures forall q :: q in h.links && q != node ==> h'.links[q] == h.links[q]
  {
    var tmp := h.links[node].next;
    var h1 := SetNext(h, node, h.links[node].prev);
    SetPrev(h1, node, tmp)
  }

  /** Flipping one more node extends the set of flipped nodes. */
  lemma FlipMore(h: Heap, hc: Heap, s: set<Ptr>, node: Ptr)
    requires FlippedOn(h, hc, s)
    requires node in h.links && node !in s
    ensures FlippedOn(h, FlipNode(hc, node), s + {node})
  {
  }

  /** Flipping the same nodes twice gives the arena back. */
  lemma FlipTwice(h: Heap, h1: Heap, h2: Heap, s: set<Ptr>)
    requires FlippedOn(h, h1, s) && FlippedOn(h1, h2, s)
    ensures h2 == h
  {
    assert h2.links == h.links;
  }

  /** Position `i` of the reversed order holds position `|o| - 1 - i` of
      the order, and its neighbours are the old ones exchanged. */
  lemma ReverseAt(head: Ptr, o: seq<Ptr>, i: int)
    requires 0 <= i < |o|
    ensures SeqSpec.Reverse(o)[i] == o[|o| - 1 - i]
    ensures Succ(head, SeqSpec.Reverse(o), i) == Pred(head, o, |o| - 1 - i)
    ensures Pred(head, SeqSpec.Reverse(o), i) == Succ(head, o, |o| - 1 - i)
  {
    var r := SeqSpec.Reverse(o);
    var m := |o| - 1 - i;
    assert |r| == |o| && r[i] == o[m];
    if i + 1 < |o| { assert r[i + 1] == o[m - 1]; }
    if i > 0 { assert r[i - 1] == o[m + 1]; }
    assert Succ(head, r, i) == Pred(head, o, m);
    assert Pred(head, r, i) == Succ(head, o, m);
  }

  /** The element at position `i` of the reversed order is linked to its
      neighbours in that order once the links are flipped. */
  lemma FlipReversesAt(h: Heap, h': Heap, head: Ptr, o: seq<Ptr>, i: int)
    requires Valid(h, head, o)
    requires FlippedOn(h, h', {head} + Elems(o))
    requires 0 <= i < |o|
    ensures SeqSpec.Reverse(o)[i] in h'.links && SeqSpec.Reverse(o)[i] in h'.values
    ensures SeqSpec.Reverse(o)[i] != head
    ensures h'.links[SeqSpec.Reverse(o)[i]]
              == Link(Succ(head, SeqSpec.Reverse(o), i), Pred(head, SeqSpec.Reverse(o), i))
  {
    var m := |o| - 1 - i;
    ReverseAt(head, o, i);
    assert h.links[o[m]] == Link(Succ(head, o, m), Pred(head, o, m));
  }

  /** Flipping the sentinel makes it point at the ends of the reversed order. */
  lemma FlipReversesHead(h: Heap, h': Heap, head: Ptr, o: seq<Ptr>)
    requires Valid(h, head, o)
    requires FlippedOn(h, h', {head} + Elems(o))
    ensures h'.links[head] == Link(At(head, SeqSpec.Reverse(o), 0), Before(head, SeqSpec.Reverse(o), |o|))
  {
    var r := SeqSpec.Reverse(o);
    var n := |o|;
    if n > 0 { assert r[0] == o[n - 1] && r[n - 1] == o[0]; }
  }

  /** Reversal keeps the nodes distinct. */
  lemma ReverseDistinct(o: seq<Ptr>)
    requires Distinct(o)
    ensures Distinct(SeqSpec.Reverse(o))
  {
    var r := SeqSpec.Reverse(o);
    var n := |o|;
    forall a, b | 0 <= a < b < n
      ensures r[a] != r[b]
    {
      assert r[a] == o[n - 1 - a] && r[b] == o[n - 1 - b];
    }
  }

  /** With the sentinel and every element flipped, the list runs through
      the same nodes in reverse order. */
  lemma FlipReverses(h: Heap, h': Heap, head: Ptr, o: seq<Ptr>)
    requires Valid(h, head, o)
    requires FlippedOn(h, h', {head} + Elems(o))
    ensures Valid(h', head, SeqSpec.Reverse(o))
  {
    var r := SeqSpec.Reverse(o);
    forall i | 0 <= i < |r|
      ensures r[i] in h'.links && r[i] in h'.values && r[i] != head
      ensures h'.links[r[i]] == Link(Succ(head, r, i), Pred(head, r, i))
    {
      FlipReversesAt(h, h', head, o, i);
    }
    FlipReversesHead(h, h', head, o);
    ReverseDistinct(o);
  }

  /** A reversed order holds the same nodes. */
  lemma ElemsReverse(o: seq<Ptr>)
    ensures Elems(SeqSpec.Reverse(o)) == Elems(o)
  {
    var r := SeqSpec.Reverse(o);
    forall p | p in o
      ensures p in r
    {
      var i :| 0 <= i < |o| && o[i] == p;
      assert r[|o| - 1 - i] == p;
    }
  }

  /** The strings along a reversed order are the reversed strings. */
  lemma ValuesReverse(vals: map<Ptr, Str>, o: seq<Ptr>)
    ensures Values(vals, SeqSpec.Reverse(o)) == SeqSpec.Reverse(Values(vals, o))
  {
  }

  /** `q_reverse(head)`: the `list_for_each_safe` loop flips every element,
      then the sentinel is flipped after the loop. */
  method Reverse(h: Heap, head: Ptr, ghost o: seq<Ptr>) returns (h': Heap)
    requires head != NULL && Valid(h, head, o)
    ensures Valid(h', head, SeqSpec.Reverse(o))
    ensures Values(h'.values, SeqSpec.Reverse(o)) == SeqSpec.Reverse(Values(h.values, o))
    ensures FlippedOn(h, h', {head} + Elems(o))
  {
    var hc := h;
    var node := h.links[head].next;
    ghost var k := 0;
    assert o[..0] == [];
    while node != head
      invariant 0 <= k <= |o| && node == At(head, o, k)
      invariant FlippedOn(h, hc, Elems(o[..k]))
      decreases |o| - k
    {
      assert h.links[o[k]] == Link(Succ(head, o, k), Pred(head, o, k));
      assert o[k] !in o[..k];
      var safe := hc.links[node].next;
      FlipMore(h, hc, Elems(o[..k]), node);
      hc := FlipNode(hc, node);
      ElemsExtend(o, k);
      node := safe;
      k := k + 1;
    }
    assert o[..k] == o;
    FlipMore(h, hc, Elems(o), head);
    hc := FlipNode(hc, node);
    FlipReverses(h, hc, head, o);
    ValuesReverse(h.values, o);
    h' := hc;
  }

  /** Reversing twice restores the arena exactly, and with it the order. */
  method ReverseTwice(h: Heap, head: Ptr, ghost o: seq<Ptr>) returns (h'': Heap)
    requires head != NULL && Valid(h, head, o)
    ensures h'' == h
  {
    var h' := Reverse(h, head, o);
    h'' := Reverse(h', head, SeqSpec.Reverse(o));
    ElemsReverse(o);
    FlipTwice(h, h', h'', {head} + Elems(o));
  }
}
