/** `q_delete_dup`: one walk over the list deletes every element whose
    string equals its successor's, and, through the flag `f`, the last
    element of each such run. What stays is every element whose string
    differs from both neighbours' strings. */
module QueueDedup {
  import opened CString
  import opened ListCore
  import SeqSpec

  /** The order after `k` rounds of the loop: the lonely elements among
      the first `k`, then the elements not visited yet. */
  function DupOrder(o: seq<Ptr>, vs: seq<Str>, k: int): (r: seq<Ptr>)
    requires |o| == |vs| && 0 <= k <= |o|
  {
    SeqSpec.KeepLonely(o, vs, k) + o[k..]
  }

  /** The elements freed in the first `k` rounds. */
  function Dropped(o: seq<Ptr>, vs: seq<Str>, k: int): set<Ptr>
    requires |o| == |vs| && 0 <= k <= |o|
  {
    Elems(o[..k]) - Elems(SeqSpec.KeepLonely(o, vs, k))
  }

  /** The flag `f` after `k` rounds: set exactly when the element just
      visited was deleted for equalling its successor. */
  function Flag(vs: seq<Str>, k: int): int
    requires 0 <= k <= |vs|
  {
    if 0 < k < |vs| && vs[k - 1] == vs[k] then 1 else 0
  }

  /** What the loop keeps after `k` rounds, `vs` being the strings along
      the original order. */
  ghost predicate DupInv(h: Heap, hc: Heap, head: Ptr, o: seq<Ptr>, k: int, f: int)
  {
    var vs := Values(h.values, o);
    && 0 <= k <= |o|
    && Valid(hc, head, DupOrder(o, vs, k))
    && hc.values == h.values - Dropped(o, vs, k)
    && hc.links.Keys == h.links.Keys - Dropped(o, vs, k)
    && Untouched(h, hc, head, o)
    && f == Flag(vs, k)
  }

  /** `DupInv` together with the node the walk is at: the `k`-th of the
      original order, or the sentinel once every node is visited. */
  ghost predicate DupLoop(h: Heap, hc: Heap, head: Ptr, o: seq<Ptr>, k: int, f: int, node: Ptr)
  {
    DupInv(h, hc, head, o, k, f) && 0 <= k <= |o| && node == At(head, o, k)
  }

  /** The unvisited part of the order begins right after the kept prefix. */
  lemma DupOrderAt(head: Ptr, o: seq<Ptr>, vs: seq<Str>, k: int)
    requires |o| == |vs| && 0 <= k < |o|
    ensures var p := |SeqSpec.KeepLonely(o, vs, k)|;
            && p < |DupOrder(o, vs, k)|
            && DupOrder(o, vs, k)[p] == o[k]
            && Succ(head, DupOrder(o, vs, k), p) == At(head, o, k + 1)
  {
    var c := DupOrder(o, vs, k);
    var p := |SeqSpec.KeepLonely(o, vs, k)|;
    assert c[p] == o[k];
    if k + 1 < |o| {
      assert c[p + 1] == o[k + 1];
    }
  }

  /** Keeping a lonely element leaves the order as it is. */
  lemma DupOrderKeep(o: seq<Ptr>, vs: seq<Str>, k: int)
    requires |o| == |vs| && 0 <= k < |o|
    requires SeqSpec.Lonely(vs, k)
    ensures DupOrder(o, vs, k + 1) == DupOrder(o, vs, k)
  {
    assert o[k..] == [o[k]] + o[k + 1..];
  }

  /** Deleting an element of a run takes it out of the order. */
  lemma DupOrderDrop(o: seq<Ptr>, vs: seq<Str>, k: int)
    requires |o| == |vs| && 0 <= k < |o|
    requires !SeqSpec.Lonely(vs, k)
    ensures |SeqSpec.KeepLonely(o, vs, k)| < |DupOrder(o, vs, k)|
    ensures DupOrder(o, vs, k + 1) == RemoveAt(DupOrder(o, vs, k), |SeqSpec.KeepLonely(o, vs, k)|)
  {
    var kl := SeqSpec.KeepLonely(o, vs, k);
    var c := DupOrder(o, vs, k);
    assert c[..|kl|] == kl;
    assert c[|kl| + 1..] == o[k + 1..];
  }

  /** A kept element is not among the dropped ones. */
  lemma DroppedKeep(o: seq<Ptr>, vs: seq<Str>, k: int)
    requires |o| == |vs| && 0 <= k < |o| && Distinct(o)
    requires SeqSpec.Lonely(vs, k)
    ensures Dropped(o, vs, k + 1) == Dropped(o, vs, k)
  {
    var kl := SeqSpec.KeepLonely(o, vs, k);
    ElemsExtend(o, k);
    assert Elems(kl + [o[k]]) == Elems(kl) + {o[k]};
    assert o[k] !in o[..k];
  }

  /** A deleted element joins the dropped ones. */
  lemma DroppedDrop(o: seq<Ptr>, vs: seq<Str>, k: int)
    requires |o| == |vs| && 0 <= k < |o| && Distinct(o)
    requires !SeqSpec.Lonely(vs, k)
    ensures Dropped(o, vs, k + 1) == Dropped(o, vs, k) + {o[k]}
  {
    ElemsExtend(o, k);
    assert o[k] !in o[..k];
    assert o[k] !in SeqSpec.KeepLonely(o, vs, k);
  }

  /** Nothing among the elements not visited yet is dropped. */
  lemma DroppedBefore(o: seq<Ptr>, vs: seq<Str>, k: int, i: int)
    requires |o| == |vs| && 0 <= k <= i < |o| && Distinct(o)
    ensures o[i] !in Dropped(o, vs, k)
  {
    assert o[i] !in o[..k];
  }

  /** Before the loop nothing is deleted and the walk is at the first element. */
  lemma DupStart(h: Heap, head: Ptr, o: seq<Ptr>)
    requires Valid(h, head, o)
    ensures DupLoop(h, h, head, o, 0, 0, h.links[head].next)
  {
    var vs := Values(h.values, o);
    assert DupOrder(o, vs, 0) == o;
    assert Dropped(o, vs, 0) == {};
  }

  /** Inside the loop the walk is at the `k`-th element, its `next` is the
      `k + 1`-th (or the sentinel), and both still hold their strings. */
  lemma DupNext(h: Heap, hc: Heap, head: Ptr, o: seq<Ptr>, k: int, f: int, node: Ptr)
    requires Valid(h, head, o)
    requires DupLoop(h, hc, head, o, k, f, node) && node != head
    ensures k < |o| && node == o[k]
    ensures node in hc.links && hc.links[node].next == At(head, o, k + 1)
    ensures At(head, o, k + 1) != head <==> k + 1 < |o|
    ensures node in hc.values && hc.values[node] == Values(h.values, o)[k]
    ensures k + 1 < |o| ==> o[k + 1] in hc.values && hc.values[o[k + 1]] == Values(h.values, o)[k + 1]
    ensures f == 1 <==> 0 < k && Values(h.values, o)[k - 1] == Values(h.values, o)[k]
  {
    var vs := Values(h.values, o);
    var c := DupOrder(o, vs, k);
    var p := |SeqSpec.KeepLonely(o, vs, k)|;
    DupOrderAt(head, o, vs, k);
    assert hc.links[c[p]] == Link(Succ(head, c, p), Pred(head, c, p));
    DroppedBefore(o, vs, k, k);
    if k + 1 < |o| {
      DroppedBefore(o, vs, k, k + 1);
    }
  }

  /** A round that keeps the node: it is lonely, and `DupLoop` moves on. */
  lemma DupKeep(h: Heap, hc: Heap, head: Ptr, o: seq<Ptr>, k: int, node: Ptr)
    requires Valid(h, head, o)
    requires DupLoop(h, hc, head, o, k, 0, node) && k < |o|
    requires SeqSpec.Lonely(Values(h.values, o), k)
    ensures DupLoop(h, hc, head, o, k + 1, 0, At(head, o, k + 1))
  {
    var vs := Values(h.values, o);
    DupOrderKeep(o, vs, k);
    DroppedKeep(o, vs, k);
  }

  /** A round that deletes the node: `list_del` and `q_release_element`
      are defined on it, and `DupLoop` moves on with the flag `g`. */
  lemma DupDrop(h: Heap, hc: Heap, head: Ptr, o: seq<Ptr>, k: int, f: int, g: int, node: Ptr)
    requires Valid(h, head, o)
    requires DupLoop(h, hc, head, o, k, f, node) && k < |o|
    requires !SeqSpec.Lonely(Values(h.values, o), k)
    requires g == Flag(Values(h.values, o), k + 1)
    ensures node in hc.links && hc.links[node].next in hc.links && hc.links[node].prev in hc.links
    ensures DupLoop(h, Release(ListDel(hc, node), node), head, o, k + 1, g, At(head, o, k + 1))
  {
    var vs := Values(h.values, o);
    var c := DupOrder(o, vs, k);
    var p := |SeqSpec.KeepLonely(o, vs, k)|;
    DupOrderAt(head, o, vs, k);
    DupOrderDrop(o, vs, k);
    DeleteAt(hc, head, c, p);
    DupInvDrop(h, hc, Release(ListDel(hc, node), node), head, o, k, f, g);
  }

  /** `DupInv` carries over a round that deleted the `k`-th element once
      the arena is valid in the next order, the element and its string
      are gone, and no other list was touched. */
  lemma DupInvDrop(h: Heap, hc: Heap, hn: Heap, head: Ptr, o: seq<Ptr>, k: int, f: int, g: int)
    requires Distinct(o)
    requires DupInv(h, hc, head, o, k, f) && k < |o|
    requires !SeqSpec.Lonely(Values(h.values, o), k)
    requires g == Flag(Values(h.values, o), k + 1)
    requires Valid(hn, head, DupOrder(o, Values(h.values, o), k + 1))
    requires hn.values == hc.values - {o[k]} && hn.links.Keys == hc.links.Keys - {o[k]}
    requires Untouched(hc, hn, head, DupOrder(o, Values(h.values, o), k))
    ensures DupInv(h, hn, head, o, k + 1, g)
  {
    var vs := Values(h.values, o);
    DroppedDrop(o, vs, k);
    MinusMore(h.values, Dropped(o, vs, k), o[k]);
    DupOrderWithin(o, vs, k);
    UntouchedTrans(h, hc, hn, head, o, DupOrder(o, vs, k));
  }

  /** Taking out a set of keys and then one more key. */
  lemma MinusMore<K, V>(m: map<K, V>, a: set<K>, x: K)
    ensures (m - a) - {x} == m - (a + {x})
  {
  }

  /** The walk never brings in a node from elsewhere. */
  lemma DupOrderWithin(o: seq<Ptr>, vs: seq<Str>, k: int)
    requires |o| == |vs| && 0 <= k <= |o|
    ensures forall q :: q in DupOrder(o, vs, k) ==> q in o
  {
    forall q | q in DupOrder(o, vs, k)
      ensures q in o
    {
      if q in SeqSpec.KeepLonely(o, vs, k) {
        assert q in o[..k];
      } else {
        assert q in o[k..];
      }
    }
  }

  /** The strings along the kept elements are the kept strings. */
  lemma {:induction false} ValuesKeepLonely(vals: map<Ptr, Str>, o: seq<Ptr>, vs: seq<Str>, k: int)
    requires |o| == |vs| && 0 <= k <= |o|
    ensures Values(vals, SeqSpec.KeepLonely(o, vs, k)) == SeqSpec.KeepLonely(Values(vals, o), vs, k)
  {
    if k > 0 {
      ValuesKeepLonely(vals, o, vs, k - 1);
      var tail := if SeqSpec.Lonely(vs, k - 1) then [o[k - 1]] else [];
      ValuesAppend(vals, SeqSpec.KeepLonely(o, vs, k - 1), tail);
    }
  }

  /** An element of a list without repeated nodes is kept exactly when
      it was visited and its string differs from both neighbours'. */
  lemma {:induction false} KeepLonelyMembers(o: seq<Ptr>, vs: seq<Str>, k: int, i: int)
    requires |o| == |vs| && 0 <= k <= |o| && Distinct(o)
    requires 0 <= i < |o|
    ensures o[i] in SeqSpec.KeepLonely(o, vs, k) <==> i < k && SeqSpec.Lonely(vs, i)
  {
    if k > 0 {
      KeepLonelyMembers(o, vs, k - 1, i);
      var kl := SeqSpec.KeepLonely(o, vs, k - 1);
      if i != k - 1 {
        assert o[i] != o[k - 1];
      }
      assert o[i] in kl + [o[k - 1]] <==> o[i] in kl || o[i] == o[k - 1];
    }
  }

  /** When the walk is back at the sentinel every run is gone. */
  lemma DupDone(h: Heap, hc: Heap, head: Ptr, o: seq<Ptr>, k: int, f: int)
    requires Valid(h, head, o)
    requires DupLoop(h, hc, head, o, k, f, head)
    ensures var vs := Values(h.values, o);
            var d := SeqSpec.DropRuns(o, vs);
            && Valid(hc, head, d)
            && hc.values == h.values - (Elems(o) - Elems(d))
            && hc.links.Keys == h.links.Keys - (Elems(o) - Elems(d))
            && Untouched(h, hc, head, o)
  {
    AtSentinel(h, head, o, k);
    assert o[..|o|] == o;
    assert o[|o|..] == [];
    assert DupOrder(o, Values(h.values, o), k) == SeqSpec.DropRuns(o, Values(h.values, o));
  }

  /** The strings left after every run is gone: those of the lonely
      elements, and on a sorted list those occurring once. */
  lemma DupDoneValues(h: Heap, hc: Heap, o: seq<Ptr>)
    requires var d := SeqSpec.DropRuns(o, Values(h.values, o));
             hc.values == h.values - (Elems(o) - Elems(d))
    ensures var vs := Values(h.values, o);
            var d := SeqSpec.DropRuns(o, vs);
            && Values(hc.values, d) == SeqSpec.DropRuns(vs, vs)
            && (SeqSpec.SortedValues(vs) ==> Values(hc.values, d) == SeqSpec.Singletons(vs, |vs|))
  {
    var vs := Values(h.values, o);
    var d := SeqSpec.DropRuns(o, vs);
    forall i | 0 <= i < |d|
      ensures Payload(hc.values, d[i]) == Payload(h.values, d[i])
    {
      assert d[i] in Elems(d);
    }
    ValuesFrame(hc.values, h.values, d);
    ValuesKeepLonely(h.values, o, vs, |o|);
    if SeqSpec.SortedValues(vs) {
      SeqSpec.DropRunsOnSortedKeepsSingletons(vs, |vs|);
    }
  }

  /** A node of the list survives exactly when it is lonely. */
  lemma DupDoneMembers(h: Heap, hc: Heap, head: Ptr, o: seq<Ptr>)
    requires Valid(h, head, o)
    requires var d := SeqSpec.DropRuns(o, Values(h.values, o));
             hc.links.Keys == h.links.Keys - (Elems(o) - Elems(d))
    ensures forall i :: 0 <= i < |o| ==> (o[i] in hc.links <==> SeqSpec.Lonely(Values(h.values, o), i))
  {
    var vs := Values(h.values, o);
    forall i | 0 <= i < |o|
      ensures o[i] in hc.links <==> SeqSpec.Lonely(vs, i)
    {
      KeepLonelyMembers(o, vs, |o|, i);
      assert o[i] in Elems(o);
    }
  }

  /** One round of `q_delete_dup`'s loop at `node`, the `k`-th element:
      `safe` is read first; the node is deleted when its string equals
      `safe`'s (setting `f`) or when `f` is set (clearing it). Returns the
      next node to visit. */
  method DupVisit(h: Heap, hc: Heap, head: Ptr, ghost o: seq<Ptr>, ghost k: int, f: int, node: Ptr)
    returns (hn: Heap, g: int, next: Ptr)
    requires Valid(h, head, o)
    requires DupLoop(h, hc, head, o, k, f, node) && node != head
    ensures k < |o| && DupLoop(h, hn, head, o, k + 1, g, next)
  {
    DupNext(h, hc, head, o, k, f, node);
    var safe := hc.links[node].next;
    if safe != head && Strcmp(hc.values[node], hc.values[safe]) == 0 {
      DupDrop(h, hc, head, o, k, f, 1, node);
      g := 1;
      hn := Release(ListDel(hc, node), node);
    } else if f != 0 {
      DupDrop(h, hc, head, o, k, f, 0, node);
      g := 0;
      hn := Release(ListDel(hc, node), node);
    } else {
      DupKeep(h, hc, head, o, k, node);
      g := f;
      hn := hc;
    }
    next := safe;
  }

  /** `q_delete_dup(head)`: false for a NULL queue; otherwise every element
      whose string equals a neighbour's is unlinked and freed, the others
      stay in order, and on a sorted queue what stays are the strings that
      occurred once. */
  method DeleteDup(h: Heap, head: Ptr, ghost o: seq<Ptr>) returns (ok: bool, h': Heap)
    requires head == NULL || Valid(h, head, o)
    ensures ok <==> head != NULL
    ensures !ok ==> h' == h
    ensures ok ==> Valid(h', head, SeqSpec.DropRuns(o, Values(h.values, o)))
    ensures ok ==> forall i :: 0 <= i < |o| ==> (o[i] in h'.links <==> SeqSpec.Lonely(Values(h.values, o), i))
    ensures ok ==> h'.values == h.values - (Elems(o) - Elems(SeqSpec.DropRuns(o, Values(h.values, o))))
    ensures ok ==> h'.links.Keys == h.links.Keys - (Elems(o) - Elems(SeqSpec.DropRuns(o, Values(h.values, o))))
    ensures ok ==> Values(h'.values, SeqSpec.DropRuns(o, Values(h.values, o)))
                   == SeqSpec.DropRuns(Values(h.values, o), Values(h.values, o))
    ensures ok && SeqSpec.SortedValues(Values(h.values, o)) ==>
              Values(h'.values, SeqSpec.DropRuns(o, Values(h.values, o))) == SeqSpec.Singletons(Values(h.values, o), |o|)
    ensures ok ==> Untouched(h, h', head, o)
  {
    if head == NULL {
      return false, h;
    }
    var hc := h;
    var f := 0;
    var node := h.links[head].next;
    ghost var k := 0;
    DupStart(h, head, o);
    while node != head
      invariant 0 <= k <= |o|
      invariant DupLoop(h, hc, head, o, k, f, node)
      decreases |o| - k
    {
      hc, f, node := DupVisit(h, hc, head, o, k, f, node);
      k := k + 1;
    }
    DupDone(h, hc, head, o, k, f);
    DupDoneValues(h, hc, o);
    DupDoneMembers(h, hc, head, o);
    return true, hc;
  }
}
