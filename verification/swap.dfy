/** `q_swap`: at every second node of the walk, six pointer writes move
    the node in front of its predecessor. The six writes have the same
    effect as `list_del` of the node followed by `myInsert` of it before its
    old predecessor, which is how the list is shown to stay valid; on the
    traversal order, the walk so far has swapped every complete pair. */
module QueueSwap {
  import opened CString
  import opened ListCore
  import SeqSpec

  /** The odd-count body of `q_swap`'s loop, statement by statement, for
      `node` with predecessor `a`, `a`'s predecessor `b`, and successor `safe`. */
  function SwapPair(h: Heap, node: Ptr, safe: Ptr): (h': Heap)
    requires node in h.links && safe in h.links && node != safe
    requires h.links[node].prev in h.links && h.links[node].prev != node && h.links[node].prev != safe
    requires h.links[h.links[node].prev].prev in h.links && h.links[h.links[node].prev].prev != node
  {
    var h1 := SetPrev(h, safe, h.links[node].prev);
    var h2 := SetPrev(h1, node, h1.links[h1.links[node].prev].prev);
    var h3 := SetPrev(h2, h2.links[safe].prev, node);
    var h4 := SetNext(h3, h3.links[node].prev, node);
    var h5 := SetNext(h4, h4.links[safe].prev, safe);
    SetNext(h5, node, h5.links[safe].prev)
  }

  /** Moving the element at position `k` one place towards the front. */
  function SwapAt<T>(s: seq<T>, k: int): (r: seq<T>)
    requires 0 < k < |s|
  {
    s[..k - 1] + [s[k], s[k - 1]] + s[k + 1..]
  }

  /** Taking an element out and putting it back one place earlier swaps it
      with its predecessor. */
  lemma MoveBackIsSwap<T>(s: seq<T>, k: int)
    requires 0 < k < |s|
    ensures |RemoveAt(s, k)| == |s| - 1
    ensures InsertAt(RemoveAt(s, k), k - 1, s[k]) == SwapAt(s, k)
  {
    assert RemoveAt(s, k)[..k - 1] == s[..k - 1];
    assert RemoveAt(s, k)[k - 1..] == [s[k - 1]] + s[k + 1..];
  }

  /** The neighbourhood of the element at position `k` in a valid list:
      the names `q_swap` uses for it are pairwise distinct where the six
      writes need them to be. */
  lemma SwapPairDefined(h: Heap, head: Ptr, s: seq<Ptr>, k: int)
    requires Valid(h, head, s)
    requires 0 < k < |s|
    ensures s[k] in h.links && Succ(head, s, k) in h.links && s[k] != Succ(head, s, k)
    ensures h.links[s[k]].prev == s[k - 1] && s[k - 1] != s[k] && s[k - 1] != Succ(head, s, k)
    ensures s[k - 1] in h.links && h.links[s[k - 1]].prev == Pred(head, s, k - 1)
    ensures Pred(head, s, k - 1) in h.links && Pred(head, s, k - 1) != s[k]
  {
    assert h.links[s[k]] == Link(Succ(head, s, k), Pred(head, s, k));
    assert h.links[s[k - 1]] == Link(Succ(head, s, k - 1), Pred(head, s, k - 1));
    if k - 1 > 0 {
      assert s[k - 2] != s[k];
    }
  }

  /** The six writes leave the arena `list_del` of `node` and then
      `myInsert` of it before its old predecessor `a` leave, whatever the
      rest of the arena holds. */
  lemma SwapPairIsMoveLinks(h: Heap, node: Ptr, safe: Ptr, a: Ptr, b: Ptr)
    requires node in h.links && safe in h.links && a in h.links && b in h.links
    requires node != safe && node != a && a != safe && b != node && b != a
    requires h.links[node] == Link(safe, a) && h.links[a].prev == b
    ensures ListDel(h, node).links[a].prev == b
    ensures SwapPair(h, node, safe) == InsertBefore(ListDel(h, node), a, node)
  {
    var h1 := ListDel(h, node);
    var l := SwapPair(h, node, safe).links;
    var r := InsertBefore(h1, a, node).links;
    assert l.Keys == r.Keys;
    forall q | q in l
      ensures l[q] == r[q]
    {
    }
    assert l == r;
  }

  /** In a valid list, the swap of the element at position `k` with its
      predecessor is that `list_del` and `myInsert`. */
  lemma SwapPairIsMove(h: Heap, head: Ptr, s: seq<Ptr>, k: int)
    requires Valid(h, head, s)
    requires 0 < k < |s|
    ensures s[k] in h.links && Succ(head, s, k) in h.links && s[k] != Succ(head, s, k)
    ensures h.links[s[k]].prev == s[k - 1] && s[k - 1] != s[k] && s[k - 1] != Succ(head, s, k)
    ensures h.links[s[k - 1]].prev in h.links && h.links[s[k - 1]].prev != s[k]
    ensures h.links[s[k]].next in h.links
    ensures s[k - 1] in ListDel(h, s[k]).links && s[k] in ListDel(h, s[k]).links
    ensures ListDel(h, s[k]).links[s[k - 1]].prev in ListDel(h, s[k]).links
    ensures SwapPair(h, s[k], Succ(head, s, k)) == InsertBefore(ListDel(h, s[k]), s[k - 1], s[k])
  {
    SwapPairDefined(h, head, s, k);
    var b := Pred(head, s, k - 1);
    assert b != s[k - 1] by {
      if k - 1 > 0 { assert s[k - 2] != s[k - 1]; }
    }
    SwapPairIsMoveLinks(h, s[k], Succ(head, s, k), s[k - 1], b);
  }

  /** One swap in a valid list: the node at position `k` and its
      predecessor change places, and nothing else changes. */
  lemma SwapStepValid(h: Heap, head: Ptr, s: seq<Ptr>, k: int)
    requires Valid(h, head, s)
    requires 0 < k < |s|
    ensures s[k] in h.links && Succ(head, s, k) in h.links && s[k] != Succ(head, s, k)
    ensures h.links[s[k]].prev == s[k - 1] && s[k - 1] != s[k] && s[k - 1] != Succ(head, s, k)
    ensures h.links[s[k - 1]].prev in h.links && h.links[s[k - 1]].prev != s[k]
    ensures Valid(SwapPair(h, s[k], Succ(head, s, k)), head, SwapAt(s, k))
    ensures SwapPair(h, s[k], Succ(head, s, k)).values == h.values
    ensures SwapPair(h, s[k], Succ(head, s, k)).links.Keys == h.links.Keys
    ensures Untouched(h, SwapPair(h, s[k], Succ(head, s, k)), head, s)
  {
    SwapPairIsMove(h, head, s, k);
    MoveValid(h, head, s, k, k - 1);
    MoveBackIsSwap(s, k);
  }

  /** The traversal order after `q_swap`'s loop has visited `k` nodes:
      every complete pair among them swapped, the rest as it was. */
  function SwapOrder<T>(o: seq<T>, k: int): (r: seq<T>)
    requires 0 <= k <= |o|
    ensures |r| == |o|
  {
    SeqSpec.SwapPairs(o[..k - k % 2]) + o[k - k % 2..]
  }

  /** The visited prefix only ever holds swapped pairs: the node about to
      be visited, and at an odd count its predecessor, are where they
      started. */
  lemma SwapOrderAt<T>(o: seq<T>, k: int)
    requires 0 <= k < |o|
    ensures |SwapOrder(o, k)| == |o| && SwapOrder(o, k)[k] == o[k]
    ensures k % 2 == 1 ==> SwapOrder(o, k)[k - 1] == o[k - 1]
  {
  }

  /** Visiting a node at an even count changes nothing. */
  lemma SwapOrderEven<T>(o: seq<T>, k: int)
    requires 0 <= k < |o| && k % 2 == 0
    ensures SwapOrder(o, k + 1) == SwapOrder(o, k)
  {
    assert (k + 1) - (k + 1) % 2 == k;
  }

  /** Visiting a node at an odd count swaps it with its predecessor,
      completing a pair. */
  lemma SwapOrderOdd<T>(o: seq<T>, k: int)
    requires 0 <= k < |o| && k % 2 == 1
    ensures |SwapOrder(o, k)| == |o|
    ensures SwapOrder(o, k + 1) == SwapAt(SwapOrder(o, k), k)
  {
    var e := k - 1;
    assert k - k % 2 == e && (k + 1) - (k + 1) % 2 == e + 2;
    SeqSpec.SwapPairsExtend(o, e);
    var p := SeqSpec.SwapPairs(o[..e]);
    var c := p + o[e..];
    assert SwapOrder(o, k) == c;
    assert SwapOrder(o, k + 1) == p + [o[e + 1], o[e]] + o[e + 2..];
    assert c[..k - 1] == p && c[k] == o[e + 1] && c[k - 1] == o[e] && c[k + 1..] == o[e + 2..];
  }

  /** Once the walk is done every pair is swapped, a trailing odd element
      staying last. */
  lemma SwapOrderDone<T>(o: seq<T>)
    ensures SwapOrder(o, |o|) == SeqSpec.SwapPairs(o)
  {
    var n := |o|;
    var e := n - n % 2;
    assert o[..n] == o;
    if n % 2 == 1 {
      var a := SeqSpec.SwapPairs(o[..e]) + o[e..];
      var b := SeqSpec.SwapPairs(o);
      forall i | 0 <= i < n
        ensures a[i] == b[i]
      {
        if i < e {
          assert SeqSpec.Partner(i, e) == SeqSpec.Partner(i, n) by {
            if i % 2 == 0 { assert i + 1 < e; }
          }
        } else {
          assert i == e && i % 2 == 0;
        }
      }
    }
  }

  /** The nodes of the order are always those of the original. */
  lemma SwapOrderPermutes<T>(o: seq<T>, k: int)
    requires 0 <= k <= |o|
    ensures multiset(SwapOrder(o, k)) == multiset(o)
  {
    var e := k - k % 2;
    SeqSpec.SwapPairsPermutes(o[..e]);
    assert o == o[..e] + o[e..];
  }

  /** The strings along the swapped order are the swapped strings. */
  lemma ValuesSwapPairs(vals: map<Ptr, Str>, o: seq<Ptr>)
    ensures Values(vals, SeqSpec.SwapPairs(o)) == SeqSpec.SwapPairs(Values(vals, o))
  {
  }

  /** What `q_swap`'s loop keeps once it has visited `k` nodes: the list
      is valid in the order with every complete pair among them swapped,
      no payload has changed, no node has come or gone, and no other list
      has been touched. */
  ghost predicate SwapInv(h: Heap, hc: Heap, head: Ptr, o: seq<Ptr>, k: int)
  {
    && 0 <= k <= |o|
    && Valid(hc, head, SwapOrder(o, k))
    && hc.values == h.values && hc.links.Keys == h.links.Keys
    && Untouched(h, hc, head, o)
  }

  /** Before the loop nothing is swapped. */
  lemma SwapStart(h: Heap, head: Ptr, o: seq<Ptr>)
    requires Valid(h, head, o)
    ensures SwapInv(h, h, head, o, 0)
    ensures h.links[head].next == At(head, SwapOrder(o, 0), 0)
  {
    assert SwapOrder(o, 0) == o;
  }

  /** The node after position `k` is the one at position `k + 1` of the
      order one round later: a swap at position `k` leaves the rest alone. */
  lemma SwapOrderNext(head: Ptr, o: seq<Ptr>, k: int)
    requires 0 <= k < |o|
    ensures Succ(head, SwapOrder(o, k), k) == At(head, SwapOrder(o, k + 1), k + 1)
  {
    if k % 2 == 1 {
      SwapOrderOdd(o, k);
    } else {
      SwapOrderEven(o, k);
    }
  }

  /** The node the walk is at, and the one `safe` holds: the next in the
      order. Past the last element the walk is back at the sentinel. */
  lemma SwapNext(h: Heap, hc: Heap, head: Ptr, o: seq<Ptr>, k: int)
    requires SwapInv(h, hc, head, o, k)
    requires At(head, SwapOrder(o, k), k) != head
    ensures k < |o|
    ensures SwapOrder(o, k)[k] in hc.links
    ensures hc.links[SwapOrder(o, k)[k]].next == At(head, SwapOrder(o, k + 1), k + 1)
  {
    var c := SwapOrder(o, k);
    assert k < |c|;
    assert hc.links[c[k]] == Link(Succ(head, c, k), Pred(head, c, k));
    SwapOrderNext(head, o, k);
  }

  /** An odd count is past the first node. */
  lemma OddIsPositive(k: int)
    requires 0 <= k && k % 2 == 1
    ensures 0 < k
  {
  }

  /** A round of `q_swap`'s loop at an odd count: the six writes are
      defined, and they complete the pair ending at position `k`. */
  lemma SwapRoundOdd(h: Heap, hc: Heap, head: Ptr, o: seq<Ptr>, k: int)
    requires SwapInv(h, hc, head, o, k)
    requires k < |o| && k % 2 == 1
    ensures var node := SwapOrder(o, k)[k];
            var safe := Succ(head, SwapOrder(o, k), k);
            && node in hc.links && safe in hc.links && node != safe
            && hc.links[node].prev in hc.links && hc.links[node].prev != node && hc.links[node].prev != safe
            && hc.links[hc.links[node].prev].prev in hc.links && hc.links[hc.links[node].prev].prev != node
            && SwapInv(h, SwapPair(hc, node, safe), head, o, k + 1)
  {
    var c := SwapOrder(o, k);
    OddIsPositive(k);
    SwapStepValid(hc, head, c, k);
    SwapOrderOdd(o, k);
    SwapInvStep(h, hc, SwapPair(hc, c[k], Succ(head, c, k)), head, o, k);
  }

  /** `SwapInv` carries over to the next count once the arena is valid in
      the next order, and the round kept every payload and node and
      touched no other list. */
  lemma SwapInvStep(h: Heap, hc: Heap, hn: Heap, head: Ptr, o: seq<Ptr>, k: int)
    requires SwapInv(h, hc, head, o, k) && k < |o|
    requires Valid(hn, head, SwapOrder(o, k + 1))
    requires hn.values == hc.values && hn.links.Keys == hc.links.Keys
    requires Untouched(hc, hn, head, SwapOrder(o, k))
    ensures SwapInv(h, hn, head, o, k + 1)
  {
    SwapOrderWithin(o, k);
    UntouchedTrans(h, hc, hn, head, o, SwapOrder(o, k));
  }

  /** The walk never brings in a node from elsewhere. */
  lemma SwapOrderWithin<T>(o: seq<T>, k: int)
    requires 0 <= k <= |o|
    ensures forall q :: q in SwapOrder(o, k) ==> q in o
  {
    SwapOrderPermutes(o, k);
    forall q | q in SwapOrder(o, k)
      ensures q in o
    {
      assert q in multiset(SwapOrder(o, k));
    }
  }

  /** A round of `q_swap`'s loop at an even count changes nothing. */
  lemma SwapRoundEven(h: Heap, hc: Heap, head: Ptr, o: seq<Ptr>, k: int)
    requires SwapInv(h, hc, head, o, k)
    requires k < |o| && k % 2 == 0
    ensures SwapInv(h, hc, head, o, k + 1)
  {
    SwapOrderEven(o, k);
  }

  /** `SwapInv` together with the node the walk is at: position `k` of
      the current order, or the sentinel once every node is visited. */
  ghost predicate SwapLoop(h: Heap, hc: Heap, head: Ptr, o: seq<Ptr>, k: int, node: Ptr)
  {
    SwapInv(h, hc, head, o, k) && node == At(head, SwapOrder(o, k), k)
  }

  /** Before the loop the walk is at the first element and nothing is swapped. */
  lemma SwapLoopStart(h: Heap, head: Ptr, o: seq<Ptr>)
    requires Valid(h, head, o)
    ensures SwapLoop(h, h, head, o, 0, h.links[head].next)
  {
    SwapStart(h, head, o);
  }

  /** Inside the loop the walk is at an element, whose `next` is a node. */
  lemma SwapLoopNext(h: Heap, hc: Heap, head: Ptr, o: seq<Ptr>, k: int, node: Ptr)
    requires SwapLoop(h, hc, head, o, k, node) && node != head
    ensures 0 <= k < |o| && node in hc.links
  {
    SwapNext(h, hc, head, o, k);
  }

  /** A round at an odd count: the six writes are defined and keep `SwapLoop`. */
  lemma SwapLoopOdd(h: Heap, hc: Heap, head: Ptr, o: seq<Ptr>, k: int, node: Ptr)
    requires SwapLoop(h, hc, head, o, k, node) && node != head
    requires k % 2 == 1
    ensures node in hc.links
    ensures var safe := hc.links[node].next;
            && safe in hc.links && node != safe
            && hc.links[node].prev in hc.links && hc.links[node].prev != node && hc.links[node].prev != safe
            && hc.links[hc.links[node].prev].prev in hc.links && hc.links[hc.links[node].prev].prev != node
            && SwapLoop(h, SwapPair(hc, node, safe), head, o, k + 1, safe)
  {
    SwapNext(h, hc, head, o, k);
    SwapRoundOdd(h, hc, head, o, k);
  }

  /** A round at an even count only moves the walk on. */
  lemma SwapLoopEven(h: Heap, hc: Heap, head: Ptr, o: seq<Ptr>, k: int, node: Ptr)
    requires SwapLoop(h, hc, head, o, k, node) && node != head
    requires k % 2 == 0
    ensures node in hc.links
    ensures SwapLoop(h, hc, head, o, k + 1, hc.links[node].next)
  {
    SwapNext(h, hc, head, o, k);
    SwapRoundEven(h, hc, head, o, k);
  }

  /** When the walk is back at the sentinel every pair is swapped. */
  lemma SwapDone(h: Heap, hc: Heap, head: Ptr, o: seq<Ptr>, k: int)
    requires Valid(h, head, o)
    requires SwapLoop(h, hc, head, o, k, head)
    ensures Valid(hc, head, SeqSpec.SwapPairs(o))
    ensures Values(hc.values, SeqSpec.SwapPairs(o)) == SeqSpec.SwapPairs(Values(h.values, o))
    ensures multiset(Values(hc.values, SeqSpec.SwapPairs(o))) == multiset(Values(h.values, o))
    ensures hc.values == h.values && hc.links.Keys == h.links.Keys
    ensures Untouched(h, hc, head, o)
  {
    AtSentinel(hc, head, SwapOrder(o, k), k);
    SwapOrderDone(o);
    ValuesSwapPairs(h.values, o);
    SeqSpec.SwapPairsPermutes(Values(h.values, o));
  }

  /** One round of `q_swap`'s loop at `node`, the `cnt`-th node visited:
      `safe` is read first, and at an odd count (`cnt++ % 2`) the node is
      swapped with its predecessor. Returns the next node to visit. */
  method SwapVisit(h: Heap, hc: Heap, head: Ptr, ghost o: seq<Ptr>, cnt: int, node: Ptr)
    returns (hn: Heap, next: Ptr)
    requires SwapLoop(h, hc, head, o, cnt, node) && node != head
    ensures cnt < |o| && SwapLoop(h, hn, head, o, cnt + 1, next)
  {
    SwapLoopNext(h, hc, head, o, cnt, node);
    var safe := hc.links[node].next;
    if cnt % 2 == 1 {
      SwapLoopOdd(h, hc, head, o, cnt, node);
      hn := SwapPair(hc, node, safe);
    } else {
      SwapLoopEven(h, hc, head, o, cnt, node);
      hn := hc;
    }
    next := safe;
  }

  /** `q_swap(head)`: the `list_for_each_safe` walk, counting the nodes it
      visits and swapping each node at an odd count with its predecessor.
      The list comes out in pairwise-swapped order with the same strings,
      and no node is allocated or freed. */
  method Swap(h: Heap, head: Ptr, ghost o: seq<Ptr>) returns (h': Heap)
    requires head != NULL && Valid(h, head, o)
    ensures Valid(h', head, SeqSpec.SwapPairs(o))
    ensures Values(h'.values, SeqSpec.SwapPairs(o)) == SeqSpec.SwapPairs(Values(h.values, o))
    ensures multiset(Values(h'.values, SeqSpec.SwapPairs(o))) == multiset(Values(h.values, o))
    ensures h'.values == h.values && h'.links.Keys == h.links.Keys
    ensures Untouched(h, h', head, o)
  {
    var hc := h;
    var cnt := 0;
    var node := h.links[head].next;
    SwapLoopStart(h, head, o);
    while node != head
      invariant 0 <= cnt <= |o|
      invariant SwapLoop(h, hc, head, o, cnt, node)
      decreases |o| - cnt
    {
      hc, node := SwapVisit(h, hc, head, o, cnt, node);
      cnt := cnt + 1;
    }
    SwapDone(h, hc, head, o, cnt);
    h' := hc;
  }
}
