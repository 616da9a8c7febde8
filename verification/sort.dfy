/** `q_sort`, `merge` and `myInsert`: a bottom-up merge sort done in place
    on the list. `merge` walks two adjacent runs and moves each node of the
    right run that must go first in front of the current node of the left
    run (`list_del`, then `myInsert`). On the traversal order each call
    performs `SortSpec.Merge` on the two runs, each pass of `q_sort`'s outer
    loop performs `SortSpec.Pass`, and the whole sort `SortSpec.MergeSort`,
    which is proved to be a stable sort. */
module QueueSort {
  import opened CString
  import opened ListCore
  import SeqSpec
  import SortSpec
  import Queue

  /** Where the right run of a `merge` at position `a` with runs of width
      `w` ends, in an order of `n` nodes. */
  function RunEnd(n: int, a: int, w: int): int
  {
    if a + 2 * w < n then a + 2 * w else n
  }

  /** The order `merge` leaves: the run of `w` nodes at position `a` and the
      run of at most `w` nodes after it merged, everything else in place. */
  function MergeAt(vals: map<Ptr, Str>, s: seq<Ptr>, a: int, w: int): seq<Ptr>
    requires 1 <= w && 0 <= a && a + w < |s|
  {
    var e := RunEnd(|s|, a, w);
    s[..a] + SortSpec.Merge(vals, s[a..a + w], s[a + w..e]) + s[e..]
  }

  /** `merge` holds the nodes it started with. */
  lemma MergeAtPermutes(vals: map<Ptr, Str>, s: seq<Ptr>, a: int, w: int)
    requires 1 <= w && 0 <= a && a + w < |s|
    ensures |MergeAt(vals, s, a, w)| == |s|
    ensures multiset(MergeAt(vals, s, a, w)) == multiset(s)
  {
    var e := RunEnd(|s|, a, w);
    var x, y, z, u := s[..a], s[a..a + w], s[a + w..e], s[e..];
    var m := SortSpec.Merge(vals, y, z);
    SortSpec.MergePermutes(vals, y, z);
    SplitRuns(s, a, a + w, e);
    MultisetOfParts(s, x, y + z, u);
    MultisetOfParts(MergeAt(vals, s, a, w), x, m, u);
  }

  /** The multiset of a concatenation of three parts. */
  lemma MultisetOfParts(s: seq<Ptr>, x: seq<Ptr>, y: seq<Ptr>, z: seq<Ptr>)
    requires s == x + y + z
    ensures multiset(s) == multiset(x) + multiset(y) + multiset(z)
  {
  }

  /** An order cut into the part before two adjacent runs, the runs, and the
      part after them. */
  lemma SplitRuns(s: seq<Ptr>, i: int, j: int, k: int)
    requires 0 <= i <= j <= k <= |s|
    ensures s == s[..i] + (s[i..j] + s[j..k]) + s[k..]
  {
    assert s[i..k] == s[i..j] + s[j..k];
    assert s == s[..i] + s[i..k] + s[k..];
  }

  /** A reordering brings in no node from elsewhere. */
  lemma PermutationWithin(m: seq<Ptr>, s: seq<Ptr>)
    requires multiset(m) == multiset(s)
    ensures forall q :: q in m ==> q in s
  {
    forall q | q in m
      ensures q in s
    {
      assert q in multiset(m);
    }
  }

  /** The node at position `i` in the middle of `merge`, after `lcnt` nodes
      of the left run and `rcnt` of the right run went into the merged
      prefix `e`: first the nodes before the runs, then `e`, then what is
      left of the left run, then what is left of the right run and the
      nodes after it. */
  function MidNode(cur: seq<Ptr>, a: int, w: int, e: seq<Ptr>, lcnt: int, rcnt: int, i: int): Ptr
    requires 0 <= a && 0 <= lcnt <= w && 0 <= rcnt && a + w + rcnt <= |cur|
    requires |e| == lcnt + rcnt && 0 <= i < |cur|
  {
    if i < a then cur[i]
    else if i < a + lcnt + rcnt then e[i - a]
    else if i < a + w + rcnt then cur[i - rcnt]
    else cur[i]
  }

  /** `ord` is the order in the middle of `merge`. */
  ghost predicate MidOrder(cur: seq<Ptr>, a: int, w: int, e: seq<Ptr>, lcnt: int, rcnt: int, ord: seq<Ptr>)
    requires 0 <= a && 0 <= lcnt <= w && 0 <= rcnt && a + w + rcnt <= |cur| && |e| == lcnt + rcnt
  {
    && |ord| == |cur|
    && forall i :: 0 <= i < |ord| ==> ord[i] == MidNode(cur, a, w, e, lcnt, rcnt, i)
  }

  /** Before the first round the middle order is the order. */
  lemma MidOrderStart(cur: seq<Ptr>, a: int, w: int)
    requires 0 <= a && 0 <= w && a + w <= |cur|
    ensures MidOrder(cur, a, w, [], 0, 0, cur)
  {
  }

  /** A left node going into the merged prefix does not move. */
  lemma MidOrderLeft(cur: seq<Ptr>, a: int, w: int, e: seq<Ptr>, lcnt: int, rcnt: int, ord: seq<Ptr>)
    requires 0 <= a && 0 <= lcnt < w && 0 <= rcnt && a + w + rcnt <= |cur| && |e| == lcnt + rcnt
    requires MidOrder(cur, a, w, e, lcnt, rcnt, ord)
    ensures MidOrder(cur, a, w, e + [cur[a + lcnt]], lcnt + 1, rcnt, ord)
  {
    var e' := e + [cur[a + lcnt]];
    forall i | 0 <= i < |ord|
      ensures ord[i] == MidNode(cur, a, w, e', lcnt + 1, rcnt, i)
    {
      if a <= i < a + lcnt + rcnt {
        assert e'[i - a] == e[i - a];
      }
    }
  }

  /** A right node going into the merged prefix is moved in front of the
      next left node. */
  lemma MidOrderRight(cur: seq<Ptr>, a: int, w: int, e: seq<Ptr>, lcnt: int, rcnt: int, ord: seq<Ptr>, x: Ptr)
    requires 0 <= a && 0 <= lcnt < w && 0 <= rcnt && a + w + rcnt < |cur| && |e| == lcnt + rcnt
    requires MidOrder(cur, a, w, e, lcnt, rcnt, ord)
    requires x == cur[a + w + rcnt]
    ensures ord[a + w + rcnt] == cur[a + w + rcnt] && ord[a + lcnt + rcnt] == cur[a + lcnt]
    ensures MidOrder(cur, a, w, e + [x], lcnt, rcnt + 1, Move(ord, a + w + rcnt, a + lcnt + rcnt))
  {
    var from, to := a + w + rcnt, a + lcnt + rcnt;
    var e' := e + [x];
    var m := Move(ord, from, to);
    MoveAt(ord, from, to);
    forall i | 0 <= i < |m|
      ensures m[i] == MidNode(cur, a, w, e', lcnt, rcnt + 1, i)
    {
      if a <= i < to {
        assert e'[i - a] == e[i - a];
      } else if i == to {
        assert e'[i - a] == cur[from];
      }
    }
  }

  /** When one run is used up the rest of the merge is the rest of the
      other run, and the middle order is the merged order. */
  lemma MidOrderDone(vals: map<Ptr, Str>, cur: seq<Ptr>, a: int, w: int, e: seq<Ptr>, lcnt: int, rcnt: int, ord: seq<Ptr>)
    requires 1 <= w && 0 <= a && a + w < |cur|
    requires 0 <= lcnt <= w && 0 <= rcnt && a + w + rcnt <= RunEnd(|cur|, a, w) && |e| == lcnt + rcnt
    requires SortSpec.Merge(vals, cur[a..a + w], cur[a + w..RunEnd(|cur|, a, w)])
               == e + SortSpec.Merge(vals, cur[a + lcnt..a + w], cur[a + w + rcnt..RunEnd(|cur|, a, w)])
    requires lcnt == w || a + w + rcnt == RunEnd(|cur|, a, w)
    requires MidOrder(cur, a, w, e, lcnt, rcnt, ord)
    ensures ord == MergeAt(vals, cur, a, w)
  {
    var p := a + w + rcnt;
    var n := RunEnd(|cur|, a, w);
    var x := cur[a + lcnt..a + w];
    var y := cur[p..n];
    var rest := SortSpec.Merge(vals, x, y);
    if lcnt == w {
      assert x == [];
      assert rest == y;
    } else {
      assert y == [];
      assert rest == x;
    }
    var r := MergeAt(vals, cur, a, w);
    assert r == cur[..a] + (e + rest) + cur[n..];
    assert |r| == |ord|;
    forall i | 0 <= i < |ord|
      ensures ord[i] == r[i]
    {
      if i < a {
      } else if i < a + |e| {
        assert r[i] == (e + rest)[i - a];
      } else if i < n {
        assert r[i] == rest[i - a - |e|];
      } else {
        assert r[i] == cur[n..][i - n];
      }
    }
  }

  /** One step of `SortSpec.Merge` on two runs given by their bounds. */
  lemma MergeFront(vals: map<Ptr, Str>, s: seq<Ptr>, x: int, y: int, u: int, z: int)
    requires 0 <= x < y <= u < z <= |s|
    ensures Strcmp(Payload(vals, s[x]), Payload(vals, s[u])) > 0 ==>
              SortSpec.Merge(vals, s[x..y], s[u..z]) == [s[u]] + SortSpec.Merge(vals, s[x..y], s[u + 1..z])
    ensures Strcmp(Payload(vals, s[x]), Payload(vals, s[u])) <= 0 ==>
              SortSpec.Merge(vals, s[x..y], s[u..z]) == [s[x]] + SortSpec.Merge(vals, s[x + 1..y], s[u..z])
  {
    assert s[x..y][0] == s[x] && s[x..y][1..] == s[x + 1..y];
    assert s[u..z][0] == s[u] && s[u..z][1..] == s[u + 1..z];
  }

  /** Nothing merged yet. */
  lemma AppendNil<T>(x: seq<T>)
    ensures x == [] + x
  {
  }

  /** Moving the front of the rest onto the end of the prefix. */
  lemma AppendShift<T>(x: seq<T>, e: seq<T>, m: seq<T>, y: T, m': seq<T>)
    requires x == e + m && m == [y] + m'
    ensures x == (e + [y]) + m'
  {
  }

  /** The merge done so far: `e` followed by the merge of what is left of
      the two runs is the merge of the two runs. */
  ghost predicate MergedSoFar(vals: map<Ptr, Str>, cur: seq<Ptr>, a: int, w: int, lcnt: int, rcnt: int, e: seq<Ptr>)
    requires 1 <= w && 0 <= a && a + w < |cur|
    requires 0 <= lcnt <= w && 0 <= rcnt && a + w + rcnt <= RunEnd(|cur|, a, w)
  {
    SortSpec.Merge(vals, cur[a..a + w], cur[a + w..RunEnd(|cur|, a, w)])
      == e + SortSpec.Merge(vals, cur[a + lcnt..a + w], cur[a + w + rcnt..RunEnd(|cur|, a, w)])
  }

  /** The merge after a round where the left node goes first. */
  lemma MergedLeft(vals: map<Ptr, Str>, cur: seq<Ptr>, a: int, w: int, lcnt: int, rcnt: int, e: seq<Ptr>)
    requires 1 <= w && 0 <= a && a + w < |cur|
    requires 0 <= lcnt < w && 0 <= rcnt && a + w + rcnt < RunEnd(|cur|, a, w)
    requires MergedSoFar(vals, cur, a, w, lcnt, rcnt, e)
    requires Strcmp(Payload(vals, cur[a + lcnt]), Payload(vals, cur[a + w + rcnt])) <= 0
    ensures MergedSoFar(vals, cur, a, w, lcnt + 1, rcnt, e + [cur[a + lcnt]])
  {
    var n := RunEnd(|cur|, a, w);
    MergeFront(vals, cur, a + lcnt, a + w, a + w + rcnt, n);
    AppendShift(SortSpec.Merge(vals, cur[a..a + w], cur[a + w..n]), e,
                SortSpec.Merge(vals, cur[a + lcnt..a + w], cur[a + w + rcnt..n]), cur[a + lcnt],
                SortSpec.Merge(vals, cur[a + lcnt + 1..a + w], cur[a + w + rcnt..n]));
  }

  /** The merge after a round where the right node goes first. */
  lemma MergedRight(vals: map<Ptr, Str>, cur: seq<Ptr>, a: int, w: int, lcnt: int, rcnt: int, e: seq<Ptr>, x: Ptr)
    requires 1 <= w && 0 <= a && a + w < |cur|
    requires 0 <= lcnt < w && 0 <= rcnt && a + w + rcnt < RunEnd(|cur|, a, w)
    requires x == cur[a + w + rcnt]
    requires MergedSoFar(vals, cur, a, w, lcnt, rcnt, e)
    requires Strcmp(Payload(vals, cur[a + lcnt]), Payload(vals, cur[a + w + rcnt])) > 0
    ensures MergedSoFar(vals, cur, a, w, lcnt, rcnt + 1, e + [x])
  {
    var n := RunEnd(|cur|, a, w);
    MergeFront(vals, cur, a + lcnt, a + w, a + w + rcnt, n);
    AppendShift(SortSpec.Merge(vals, cur[a..a + w], cur[a + w..n]), e,
                SortSpec.Merge(vals, cur[a + lcnt..a + w], cur[a + w + rcnt..n]), x,
                SortSpec.Merge(vals, cur[a + lcnt..a + w], cur[a + w + rcnt + 1..n]));
  }

  /** What `merge`'s loop keeps: the list is valid in the middle order `ord`;
      no node and no payload has changed, and no other list has been
      touched. */
  ghost predicate MergeInv(hc: Heap, hm: Heap, head: Ptr, cur: seq<Ptr>, a: int, w: int,
                           lcnt: int, rcnt: int, e: seq<Ptr>, ord: seq<Ptr>)
  {
    && 1 <= w && 0 <= a && a + w < |cur|
    && 0 <= lcnt <= w && 0 <= rcnt && a + w + rcnt <= RunEnd(|cur|, a, w)
    && |e| == lcnt + rcnt
    && MergedSoFar(hc.values, cur, a, w, lcnt, rcnt, e)
    && MidOrder(cur, a, w, e, lcnt, rcnt, ord)
    && (forall q :: q in ord ==> q in cur)
    && Valid(hm, head, ord)
    && hm.values == hc.values && hm.links.Keys == hc.links.Keys
    && Untouched(hc, hm, head, cur)
  }

  /** `MergeInv` together with `lptr` and `rptr`: the next node of each run,
      or, once a run is used up, the node after it. */
  ghost predicate MergeLoop(hc: Heap, hm: Heap, head: Ptr, cur: seq<Ptr>, a: int, w: int,
                            lcnt: int, rcnt: int, e: seq<Ptr>, ord: seq<Ptr>, lptr: Ptr, rptr: Ptr)
  {
    && MergeInv(hc, hm, head, cur, a, w, lcnt, rcnt, e, ord)
    && lptr == At(head, ord, a + lcnt + rcnt)
    && rptr == At(head, ord, a + w + rcnt)
  }

  /** Before the loop nothing is merged and the pointers are at the fronts
      of the two runs. */
  lemma MergeStart(hc: Heap, head: Ptr, cur: seq<Ptr>, a: int, w: int)
    requires Valid(hc, head, cur)
    requires 1 <= w && 0 <= a && a + w < |cur|
    ensures MergeLoop(hc, hc, head, cur, a, w, 0, 0, [], cur, cur[a], cur[a + w])
  {
    MidOrderStart(cur, a, w);
    AppendNil(SortSpec.Merge(hc.values, cur[a..a + w], cur[a + w..RunEnd(|cur|, a, w)]));
    assert MergeInv(hc, hc, head, cur, a, w, 0, 0, [], cur);
  }

  /** Inside the loop both pointers are at nodes of their runs. */
  lemma MergeNext(hc: Heap, hm: Heap, head: Ptr, cur: seq<Ptr>, a: int, w: int,
                  lcnt: int, rcnt: int, e: seq<Ptr>, ord: seq<Ptr>, lptr: Ptr, rptr: Ptr)
    requires 1 <= w && 0 <= a && a + w < |cur|
    requires 0 <= lcnt < w && 0 <= rcnt < w && a + w + rcnt <= RunEnd(|cur|, a, w)
    requires |e| == lcnt + rcnt
    requires MidOrder(cur, a, w, e, lcnt, rcnt, ord)
    requires Valid(hm, head, ord) && hm.values == hc.values
    requires lptr == At(head, ord, a + lcnt + rcnt) && rptr == At(head, ord, a + w + rcnt) && rptr != head
    ensures a + w + rcnt < RunEnd(|cur|, a, w)
    ensures lptr == ord[a + lcnt + rcnt] == cur[a + lcnt]
    ensures rptr == ord[a + w + rcnt] == cur[a + w + rcnt]
    ensures lptr in hm.values && rptr in hm.values
    ensures hm.values[lptr] == Payload(hc.values, cur[a + lcnt])
    ensures hm.values[rptr] == Payload(hc.values, cur[a + w + rcnt])
  {
    var p := a + w + rcnt;
    assert p < |ord|;
    assert ord[p] == MidNode(cur, a, w, e, lcnt, rcnt, p);
    assert ord[a + lcnt + rcnt] == MidNode(cur, a, w, e, lcnt, rcnt, a + lcnt + rcnt);
  }

  /** A round where the left node goes first: `lptr = lptr->next`. */
  lemma MergeLeftStep(hc: Heap, hm: Heap, head: Ptr, cur: seq<Ptr>, a: int, w: int,
                      lcnt: int, rcnt: int, e: seq<Ptr>, ord: seq<Ptr>, lptr: Ptr, rptr: Ptr)
    requires MergeLoop(hc, hm, head, cur, a, w, lcnt, rcnt, e, ord, lptr, rptr)
    requires lcnt < w && a + w + rcnt < RunEnd(|cur|, a, w)
    requires lptr == ord[a + lcnt + rcnt] == cur[a + lcnt]
    requires Strcmp(Payload(hc.values, cur[a + lcnt]), Payload(hc.values, cur[a + w + rcnt])) <= 0
    ensures lptr in hm.links
    ensures MergeLoop(hc, hm, head, cur, a, w, lcnt + 1, rcnt, e + [cur[a + lcnt]], ord, hm.links[lptr].next, rptr)
  {
    var to := a + lcnt + rcnt;
    MidOrderLeft(cur, a, w, e, lcnt, rcnt, ord);
    MergedLeft(hc.values, cur, a, w, lcnt, rcnt, e);
    assert hm.links[ord[to]] == Link(Succ(head, ord, to), Pred(head, ord, to));
    assert MergeInv(hc, hm, head, cur, a, w, lcnt + 1, rcnt, e + [cur[a + lcnt]], ord);
  }

  /** Moving a node of the list in front of another keeps the list valid in
      the moved order, and keeps every other list as it was. */
  lemma MoveFrame(hc: Heap, hm: Heap, head: Ptr, cur: seq<Ptr>, m: seq<Ptr>, from: int, to: int, x: Ptr, y: Ptr)
    requires Valid(hm, head, m) && 0 <= to < from < |m|
    requires x == m[from] && y == m[to]
    requires hm.values == hc.values && hm.links.Keys == hc.links.Keys
    requires Untouched(hc, hm, head, cur)
    requires forall q :: q in m ==> q in cur
    ensures x in hm.links && hm.links[x].next in hm.links && hm.links[x].prev in hm.links
    ensures hm.links[x].next == At(head, m, from + 1)
    ensures y in ListDel(hm, x).links && x in ListDel(hm, x).links
    ensures ListDel(hm, x).links[y].prev in ListDel(hm, x).links
    ensures Valid(InsertBefore(ListDel(hm, x), y, x), head, Move(m, from, to))
    ensures InsertBefore(ListDel(hm, x), y, x).values == hc.values
    ensures InsertBefore(ListDel(hm, x), y, x).links.Keys == hc.links.Keys
    ensures Untouched(hc, InsertBefore(ListDel(hm, x), y, x), head, cur)
    ensures forall q :: q in Move(m, from, to) ==> q in cur
  {
    MoveValid(hm, head, m, from, to);
    MoveWithin(m, from, to);
    UntouchedTrans(hc, hm, InsertBefore(ListDel(hm, x), y, x), head, cur, m);
    assert hm.links[x] == Link(Succ(head, m, from), Pred(head, m, from));
  }

  /** The pointers after a round that moved a node of the right run. */
  lemma MergePointersRight(head: Ptr, cur: seq<Ptr>, a: int, w: int, lcnt: int, rcnt: int, e: seq<Ptr>, ord: seq<Ptr>,
                            x: Ptr, y: Ptr)
    requires 0 <= a && 0 <= lcnt < w && 0 <= rcnt && a + w + rcnt < |cur| && |e| == lcnt + rcnt
    requires x == cur[a + w + rcnt] && y == cur[a + lcnt]
    requires MidOrder(cur, a, w, e, lcnt, rcnt, ord)
    requires MidOrder(cur, a, w, e + [x], lcnt, rcnt + 1, Move(ord, a + w + rcnt, a + lcnt + rcnt))
    ensures y == At(head, Move(ord, a + w + rcnt, a + lcnt + rcnt), a + lcnt + rcnt + 1)
    ensures At(head, Move(ord, a + w + rcnt, a + lcnt + rcnt), a + w + rcnt + 1) == At(head, ord, a + w + rcnt + 1)
  {
    var m := Move(ord, a + w + rcnt, a + lcnt + rcnt);
    var e' := e + [x];
    assert m[a + lcnt + rcnt + 1] == MidNode(cur, a, w, e', lcnt, rcnt + 1, a + lcnt + rcnt + 1);
    var p := a + w + rcnt + 1;
    if p < |cur| {
      assert m[p] == MidNode(cur, a, w, e', lcnt, rcnt + 1, p);
      assert ord[p] == MidNode(cur, a, w, e, lcnt, rcnt, p);
    }
  }

  /** The links that `list_del` and the re-insertion read exist. */
  lemma MoveLinks(hm: Heap, head: Ptr, m: seq<Ptr>, from: int, to: int, x: Ptr, y: Ptr)
    requires Valid(hm, head, m) && 0 <= to < from < |m|
    requires x == m[from] && y == m[to]
    ensures x in hm.links && hm.links[x].next in hm.links && hm.links[x].prev in hm.links
    ensures y in ListDel(hm, x).links && x in ListDel(hm, x).links
    ensures ListDel(hm, x).links[y].prev in ListDel(hm, x).links
  {
    MoveValid(hm, head, m, from, to);
  }

  /** The loop's invariant after a round where the right node went first:
      `tmp = rptr->next; list_del(rptr); myInsert(lptr, rptr);` moves the
      node at `a + w + rcnt` of `ord` in front of the one at
      `a + lcnt + rcnt`, and `tmp` is the node that followed it. */
  lemma MergeRightFacts(hc: Heap, hm: Heap, hn: Heap, head: Ptr, cur: seq<Ptr>, a: int, w: int,
                        lcnt: int, rcnt: int, e: seq<Ptr>, ord: seq<Ptr>, lptr: Ptr, rptr: Ptr, tmp: Ptr,
                        lcnt': int, rcnt': int, e': seq<Ptr>, ord': seq<Ptr>, lptr': Ptr)
    requires MergeLoop(hc, hm, head, cur, a, w, lcnt, rcnt, e, ord, lptr, rptr)
    requires lcnt < w && a + w + rcnt < RunEnd(|cur|, a, w)
    requires lptr == cur[a + lcnt] && rptr == cur[a + w + rcnt]
    requires Strcmp(Payload(hc.values, cur[a + lcnt]), Payload(hc.values, cur[a + w + rcnt])) > 0
    requires rptr in hm.links && hm.links[rptr].next in hm.links && hm.links[rptr].prev in hm.links
    requires lptr in ListDel(hm, rptr).links && rptr in ListDel(hm, rptr).links
    requires ListDel(hm, rptr).links[lptr].prev in ListDel(hm, rptr).links
    requires tmp == hm.links[rptr].next && hn == InsertBefore(ListDel(hm, rptr), lptr, rptr)
    requires ord' == Move(ord, a + w + rcnt, a + lcnt + rcnt)
    requires lcnt' == lcnt && rcnt' == rcnt + 1 && e' == e + [rptr] && lptr' == lptr
    ensures MergeLoop(hc, hn, head, cur, a, w, lcnt', rcnt', e', ord', lptr', tmp)
  {
    MoveFrame(hc, hm, head, cur, ord, a + w + rcnt, a + lcnt + rcnt, rptr, lptr);
    MidOrderRight(cur, a, w, e, lcnt, rcnt, ord, rptr);
    MergedRight(hc.values, cur, a, w, lcnt, rcnt, e, rptr);
    MergePointersRight(head, cur, a, w, lcnt, rcnt, e, ord, rptr, lptr);
  }

  /** When the loop stops one run is used up, and the list is valid in the
      order with the two runs merged. */
  lemma MergeDone(hc: Heap, hm: Heap, head: Ptr, cur: seq<Ptr>, a: int, w: int,
                  lcnt: int, rcnt: int, e: seq<Ptr>, ord: seq<Ptr>, lptr: Ptr, rptr: Ptr)
    requires MergeLoop(hc, hm, head, cur, a, w, lcnt, rcnt, e, ord, lptr, rptr)
    requires !(lcnt < w && rcnt < w && rptr != head)
    ensures Valid(hm, head, MergeAt(hc.values, cur, a, w))
    ensures hm.values == hc.values && hm.links.Keys == hc.links.Keys
    ensures Untouched(hc, hm, head, cur)
  {
    var p := a + w + rcnt;
    assert p < |cur| ==> ord[p] != head;
    MidOrderDone(hc.values, cur, a, w, e, lcnt, rcnt, ord);
  }

  /** `tmp = rptr->next; list_del(rptr); myInsert(lptr, rptr); rptr = tmp;` */
  method MergeRight(hc: Heap, hm: Heap, head: Ptr, ghost cur: seq<Ptr>, ghost a: int, size: int,
                    lcnt: int, rcnt: int, ghost e: seq<Ptr>, ghost ord: seq<Ptr>, lptr: Ptr, rptr: Ptr)
    returns (hn: Heap, lcnt': int, rcnt': int, ghost e': seq<Ptr>, ghost ord': seq<Ptr>, lptr': Ptr, rptr': Ptr)
    requires MergeLoop(hc, hm, head, cur, a, size, lcnt, rcnt, e, ord, lptr, rptr)
    requires lcnt < size && a + size + rcnt < RunEnd(|cur|, a, size)
    requires lptr == ord[a + lcnt + rcnt] == cur[a + lcnt]
    requires rptr == ord[a + size + rcnt] == cur[a + size + rcnt]
    requires Strcmp(Payload(hc.values, cur[a + lcnt]), Payload(hc.values, cur[a + size + rcnt])) > 0
    ensures MergeLoop(hc, hn, head, cur, a, size, lcnt', rcnt', e', ord', lptr', rptr')
    ensures lcnt' + rcnt' == lcnt + rcnt + 1
  {
    MoveLinks(hm, head, ord, a + size + rcnt, a + lcnt + rcnt, rptr, lptr);
    rptr' := hm.links[rptr].next;
    hn := InsertBefore(ListDel(hm, rptr), lptr, rptr);
    ord' := Move(ord, a + size + rcnt, a + lcnt + rcnt);
    lcnt', rcnt', e', lptr' := lcnt, rcnt + 1, e + [rptr], lptr;
    MergeRightFacts(hc, hm, hn, head, cur, a, size, lcnt, rcnt, e, ord, lptr, rptr, rptr', lcnt', rcnt', e', ord', lptr');
  }

  /** `lptr = lptr->next; lcnt++;` */
  method MergeLeft(hc: Heap, hm: Heap, head: Ptr, ghost cur: seq<Ptr>, ghost a: int, size: int,
                   lcnt: int, rcnt: int, ghost e: seq<Ptr>, ghost ord: seq<Ptr>, lptr: Ptr, rptr: Ptr)
    returns (hn: Heap, lcnt': int, rcnt': int, ghost e': seq<Ptr>, ghost ord': seq<Ptr>, lptr': Ptr, rptr': Ptr)
    requires MergeLoop(hc, hm, head, cur, a, size, lcnt, rcnt, e, ord, lptr, rptr)
    requires lcnt < size && a + size + rcnt < RunEnd(|cur|, a, size)
    requires lptr == ord[a + lcnt + rcnt] == cur[a + lcnt]
    requires rptr == ord[a + size + rcnt] == cur[a + size + rcnt]
    requires Strcmp(Payload(hc.values, cur[a + lcnt]), Payload(hc.values, cur[a + size + rcnt])) <= 0
    ensures MergeLoop(hc, hn, head, cur, a, size, lcnt', rcnt', e', ord', lptr', rptr')
    ensures lcnt' + rcnt' == lcnt + rcnt + 1
  {
    MergeLeftStep(hc, hm, head, cur, a, size, lcnt, rcnt, e, ord, lptr, rptr);
    lptr' := hm.links[lptr].next;
    hn, ord' := hm, ord;
    lcnt', rcnt', e', rptr' := lcnt + 1, rcnt, e + [lptr], rptr;
  }

  /** One round of `merge`'s loop: the right node moves in front of the
      left one when the left string compares greater, otherwise the left
      pointer moves on. */
  method MergeVisit(hc: Heap, hm: Heap, head: Ptr, ghost cur: seq<Ptr>, ghost a: int, size: int,
                    lcnt: int, rcnt: int, ghost e: seq<Ptr>, ghost ord: seq<Ptr>, lptr: Ptr, rptr: Ptr)
    returns (hn: Heap, lcnt': int, rcnt': int, ghost e': seq<Ptr>, ghost ord': seq<Ptr>, lptr': Ptr, rptr': Ptr)
    requires MergeLoop(hc, hm, head, cur, a, size, lcnt, rcnt, e, ord, lptr, rptr)
    requires lcnt < size && rcnt < size && rptr != head
    ensures MergeLoop(hc, hn, head, cur, a, size, lcnt', rcnt', e', ord', lptr', rptr')
    ensures lcnt' + rcnt' == lcnt + rcnt + 1
  {
    MergeNext(hc, hm, head, cur, a, size, lcnt, rcnt, e, ord, lptr, rptr);
    if Strcmp(hm.values[lptr], hm.values[rptr]) > 0 {
      hn, lcnt', rcnt', e', ord', lptr', rptr' := MergeRight(hc, hm, head, cur, a, size, lcnt, rcnt, e, ord, lptr, rptr);
    } else {
      hn, lcnt', rcnt', e', ord', lptr', rptr' := MergeLeft(hc, hm, head, cur, a, size, lcnt, rcnt, e, ord, lptr, rptr);
    }
  }

  /** `merge(lptr, rptr, size, head)`: `lptr` is the node at position `a`
      and `rptr` the node `size` places after it. Afterwards the run of
      `size` nodes from `lptr` and the run of at most `size` nodes from
      `rptr` are merged in place; no node or payload changes and no other
      list is touched. */
  method Merge(hc: Heap, head: Ptr, ghost cur: seq<Ptr>, lptr: Ptr, rptr: Ptr, size: int, ghost a: int)
    returns (hm: Heap)
    requires Valid(hc, head, cur)
    requires 1 <= size && 0 <= a && a + size < |cur|
    requires lptr == cur[a] && rptr == cur[a + size]
    ensures Valid(hm, head, MergeAt(hc.values, cur, a, size))
    ensures hm.values == hc.values && hm.links.Keys == hc.links.Keys
    ensures Untouched(hc, hm, head, cur)
  {
    var lcnt, rcnt := 0, 0;
    var l, r := lptr, rptr;
    ghost var e: seq<Ptr> := [];
    ghost var ord := cur;
    hm := hc;
    MergeStart(hc, head, cur, a, size);
    while lcnt < size && rcnt < size && r != head
      invariant MergeLoop(hc, hm, head, cur, a, size, lcnt, rcnt, e, ord, l, r)
      decreases 2 * size - lcnt - rcnt
    {
      hm, lcnt, rcnt, e, ord, l, r := MergeVisit(hc, hm, head, cur, a, size, lcnt, rcnt, e, ord, l, r);
    }
    MergeDone(hc, hm, head, cur, a, size, lcnt, rcnt, e, ord, l, r);
  }

  /** Partway through a pass of width `i`: the blocks before position `b`
      are already as the pass leaves them, and the pass of the rest of the
      current order completes the pass of `o`. */
  ghost predicate PassPrefix(vals: map<Ptr, Str>, o: seq<Ptr>, i: int, b: int, cur: seq<Ptr>)
    requires 1 <= i
  {
    && 0 <= b <= |o| && |cur| == |o|
    && SortSpec.Pass(vals, o, i) == cur[..b] + SortSpec.Pass(vals, cur[b..], i)
  }

  /** Before the pass nothing is done. */
  lemma PassPrefixStart(vals: map<Ptr, Str>, o: seq<Ptr>, i: int)
    requires 1 <= i
    ensures PassPrefix(vals, o, i, 0, o)
  {
    assert o[0..] == o;
  }

  /** Merging the two runs at `b` completes the pass up to the end of the
      second run. */
  lemma PassPrefixMerge(vals: map<Ptr, Str>, o: seq<Ptr>, i: int, b: int, cur: seq<Ptr>)
    requires 1 <= i && 0 <= b && b + i < |o|
    requires PassPrefix(vals, o, i, b, cur)
    ensures PassPrefix(vals, o, i, RunEnd(|o|, b, i), MergeAt(vals, cur, b, i))
  {
    var e := RunEnd(|o|, b, i);
    var m := SortSpec.Merge(vals, cur[b..b + i], cur[b + i..e]);
    PassFrontAt(vals, cur, i, b, e);
    AppendAssoc(cur[..b], m, SortSpec.Pass(vals, cur[e..], i));
    MergeAtParts(vals, cur, b, i);
  }

  /** Regrouping a concatenation. */
  lemma AppendAssoc<T>(x: seq<T>, y: seq<T>, z: seq<T>)
    ensures x + (y + z) == (x + y) + z
  {
  }

  /** The pass from `b` on begins with the merge of the two runs at `b`,
      the second of which ends at `e`. */
  lemma PassFrontAt(vals: map<Ptr, Str>, cur: seq<Ptr>, i: int, b: int, e: int)
    requires 1 <= i && 0 <= b && b + i < |cur| && e == RunEnd(|cur|, b, i)
    ensures SortSpec.Pass(vals, cur[b..], i)
              == SortSpec.Merge(vals, cur[b..b + i], cur[b + i..e]) + SortSpec.Pass(vals, cur[e..], i)
  {
    PassUnfold(vals, cur[b..], i, e - b);
    PrefixOfSuffix(cur, b, i, b + i);
    SliceOfSuffix(cur, b, i, e - b, b + i, e);
    SuffixOfSuffix(cur, b, e - b, e);
  }

  /** One step of `SortSpec.Pass` on an order longer than one run, whose
      second run ends at `e`. */
  lemma PassUnfold(vals: map<Ptr, Str>, t: seq<Ptr>, i: int, e: int)
    requires 1 <= i < |t| && e == RunEnd(|t|, 0, i)
    ensures SortSpec.Pass(vals, t, i) == SortSpec.Merge(vals, t[..i], t[i..e]) + SortSpec.Pass(vals, t[e..], i)
  {
  }

  /** A prefix of a suffix is a slice of the whole. */
  lemma PrefixOfSuffix<T>(s: seq<T>, b: int, x: int, hi: int)
    requires 0 <= b && 0 <= x <= |s| - b && hi == b + x
    ensures s[b..][..x] == s[b..hi]
  {
  }

  /** A slice of a suffix is a slice of the whole. */
  lemma SliceOfSuffix<T>(s: seq<T>, b: int, x: int, y: int, lo: int, hi: int)
    requires 0 <= b && 0 <= x <= y <= |s| - b && lo == b + x && hi == b + y
    ensures s[b..][x..y] == s[lo..hi]
  {
  }

  /** A suffix of a suffix is a suffix of the whole. */
  lemma SuffixOfSuffix<T>(s: seq<T>, b: int, x: int, lo: int)
    requires 0 <= b && 0 <= x <= |s| - b && lo == b + x
    ensures s[b..][x..] == s[lo..]
  {
  }

  /** The merged order cut at the end of the second run. */
  lemma MergeAtParts(vals: map<Ptr, Str>, cur: seq<Ptr>, b: int, i: int)
    requires 1 <= i && 0 <= b && b + i < |cur|
    ensures MergeAt(vals, cur, b, i)[..RunEnd(|cur|, b, i)]
              == cur[..b] + SortSpec.Merge(vals, cur[b..b + i], cur[b + i..RunEnd(|cur|, b, i)])
    ensures MergeAt(vals, cur, b, i)[RunEnd(|cur|, b, i)..] == cur[RunEnd(|cur|, b, i)..]
  {
  }

  /** Once what is left is one run or less, the pass is done. */
  lemma PassPrefixLast(vals: map<Ptr, Str>, o: seq<Ptr>, i: int, b: int, cur: seq<Ptr>)
    requires 1 <= i && |o| - b <= i
    requires PassPrefix(vals, o, i, b, cur)
    ensures cur == SortSpec.Pass(vals, o, i)
  {
    assert cur == cur[..b] + cur[b..];
  }

  /** Once the whole order is done, the pass is done. */
  lemma PassPrefixEnd(vals: map<Ptr, Str>, o: seq<Ptr>, i: int, cur: seq<Ptr>)
    requires 1 <= i
    requires PassPrefix(vals, o, i, |o|, cur)
    ensures cur == SortSpec.Pass(vals, o, i)
  {
    assert cur[..|o|] == cur;
    assert cur[|o|..] == [];
  }

  /** What a pass of `q_sort` keeps: the order is done up to block `b`, the
      list is valid in it, no node or payload has changed and no other list
      has been touched. */
  ghost predicate PassInv(h0: Heap, hc: Heap, head: Ptr, o: seq<Ptr>, i: int, b: int, cur: seq<Ptr>)
  {
    && 1 <= i
    && PassPrefix(h0.values, o, i, b, cur)
    && (forall q :: q in cur ==> q in o)
    && Valid(hc, head, cur)
    && hc.values == h0.values && hc.links.Keys == h0.links.Keys
    && Untouched(h0, hc, head, o)
  }

  /** `PassInv` together with the variables of the `list_for_each` loop:
      `node` at position `cnt`, the left run starting at `b == l - 2i` with
      `lptr` on it, and `rptr` on the right run once `cnt` has passed
      `r == l - i`. */
  ghost predicate PassLoop(h0: Heap, hc: Heap, head: Ptr, o: seq<Ptr>, i: int, b: int, cur: seq<Ptr>,
                           cnt: int, l: int, r: int, node: Ptr, lptr: Ptr, rptr: Ptr)
  {
    && PassInv(h0, hc, head, o, i, b, cur)
    && l == b + 2 * i && r == b + i
    && b <= cnt <= l && b < |o| && cnt <= |o|
    && node == At(head, cur, cnt)
    && lptr == cur[b]
    && rptr == (if r < cnt then cur[r] else NULL)
  }

  /** The merge at `cnt == l`, inside the loop: the two runs before `node`
      are merged and the pass is done up to `node`. */
  method PassMerge(h0: Heap, hc: Heap, head: Ptr, ghost o: seq<Ptr>, i: int, ghost b: int, ghost cur: seq<Ptr>,
                   lptr: Ptr, rptr: Ptr)
    returns (hm: Heap, ghost cur': seq<Ptr>)
    requires PassInv(h0, hc, head, o, i, b, cur)
    requires 0 <= b && b + i < |o|
    requires lptr == cur[b] && rptr == cur[b + i]
    ensures PassInv(h0, hm, head, o, i, RunEnd(|o|, b, i), cur')
    ensures forall p :: RunEnd(|o|, b, i) <= p <= |o| ==> At(head, cur', p) == At(head, cur, p)
  {
    hm := Merge(hc, head, cur, lptr, rptr, i, b);
    cur' := MergeAt(hc.values, cur, b, i);
    PassMergeFacts(h0, hc, hm, head, o, i, b, cur);
  }

  /** The invariant after the merge of `PassMerge`. */
  lemma PassMergeFacts(h0: Heap, hc: Heap, hm: Heap, head: Ptr, o: seq<Ptr>, i: int, b: int, cur: seq<Ptr>)
    requires PassInv(h0, hc, head, o, i, b, cur)
    requires 0 <= b && b + i < |o|
    requires Valid(hm, head, MergeAt(hc.values, cur, b, i))
    requires hm.values == hc.values && hm.links.Keys == hc.links.Keys
    requires Untouched(hc, hm, head, cur)
    ensures PassInv(h0, hm, head, o, i, RunEnd(|o|, b, i), MergeAt(hc.values, cur, b, i))
    ensures forall p :: RunEnd(|o|, b, i) <= p <= |o| ==> At(head, MergeAt(hc.values, cur, b, i), p) == At(head, cur, p)
  {
    var cur' := MergeAt(hc.values, cur, b, i);
    PassPrefixMerge(h0.values, o, i, b, cur);
    MergeAtPermutes(hc.values, cur, b, i);
    PermutationWithin(cur', cur);
    UntouchedTrans(h0, hc, hm, head, o, cur);
    MergeAtKeepsTail(head, hc.values, cur, b, i);
  }

  /** `merge` leaves the nodes after the second run where they were. */
  lemma MergeAtKeepsTail(head: Ptr, vals: map<Ptr, Str>, cur: seq<Ptr>, b: int, i: int)
    requires 1 <= i && 0 <= b && b + i < |cur|
    ensures forall p :: RunEnd(|cur|, b, i) <= p <= |cur| ==> At(head, MergeAt(vals, cur, b, i), p) == At(head, cur, p)
  {
    var m := MergeAt(vals, cur, b, i);
    var e := RunEnd(|cur|, b, i);
    MergeAtParts(vals, cur, b, i);
    forall p | e <= p < |cur|
      ensures m[p] == cur[p]
    {
      assert m[p] == m[e..][p - e];
    }
  }

  /** One round of the `list_for_each` loop of a pass. Since `r < l`, at
      most one of the round's two tests `cnt == r` and `cnt == l` holds. */
  method PassVisit(h0: Heap, hc: Heap, head: Ptr, ghost o: seq<Ptr>, i: int, ghost b: int, ghost cur: seq<Ptr>,
                   cnt: int, l: int, r: int, node: Ptr, lptr: Ptr, rptr: Ptr)
    returns (hn: Heap, ghost b': int, ghost cur': seq<Ptr>, cnt': int, l': int, r': int, node': Ptr, lptr': Ptr, rptr': Ptr)
    requires PassLoop(h0, hc, head, o, i, b, cur, cnt, l, r, node, lptr, rptr)
    requires node != head
    ensures PassLoop(h0, hn, head, o, i, b', cur', cnt', l', r', node', lptr', rptr')
    ensures cnt' == cnt + 1
  {
    if cnt == l {
      hn, cur', l', r', node' := PassVisitMerge(h0, hc, head, o, i, b, cur, cnt, l, r, node, lptr, rptr);
      b' := cnt;
      lptr', rptr' := node, NULL;
    } else {
      rptr', node' := PassVisitPlain(h0, hc, head, o, i, b, cur, cnt, l, r, node, lptr, rptr);
      hn, b', cur', l', r', lptr' := hc, b, cur, l, r, lptr;
    }
    cnt' := cnt + 1;
  }

  /** The round that reaches `l`: the two runs before `node` are merged and
      the next pair of runs starts at `node`. */
  method PassVisitMerge(h0: Heap, hc: Heap, head: Ptr, ghost o: seq<Ptr>, i: int, ghost b: int, ghost cur: seq<Ptr>,
                        cnt: int, l: int, r: int, node: Ptr, lptr: Ptr, rptr: Ptr)
    returns (hn: Heap, ghost cur': seq<Ptr>, l': int, r': int, node': Ptr)
    requires PassLoop(h0, hc, head, o, i, b, cur, cnt, l, r, node, lptr, rptr)
    requires node != head && cnt == l
    ensures PassLoop(h0, hn, head, o, i, cnt, cur', cnt + 1, l', r', node', node, NULL)
  {
    PassNext(hc, head, o, i, b, cur, cnt, l, r, node, rptr);
    l', r' := l + 2 * i, r + 2 * i;
    hn, cur' := PassMerge(h0, hc, head, o, i, b, cur, lptr, rptr);
    assert At(head, cur', cnt) == At(head, cur, cnt);
    PassAdvance(h0, hn, head, o, i, cnt, cur', cnt, l', r', node, node, NULL);
    node' := hn.links[node].next;
  }

  /** Any other round: `rptr` is set when `node` starts the right run. */
  method PassVisitPlain(h0: Heap, hc: Heap, head: Ptr, ghost o: seq<Ptr>, i: int, ghost b: int, ghost cur: seq<Ptr>,
                        cnt: int, l: int, r: int, node: Ptr, lptr: Ptr, rptr: Ptr)
    returns (rptr': Ptr, node': Ptr)
    requires PassLoop(h0, hc, head, o, i, b, cur, cnt, l, r, node, lptr, rptr)
    requires node != head && cnt != l
    ensures PassLoop(h0, hc, head, o, i, b, cur, cnt + 1, l, r, node', lptr, rptr')
  {
    PassNext(hc, head, o, i, b, cur, cnt, l, r, node, rptr);
    rptr' := rptr;
    if cnt == r {
      rptr' := node;
    }
    PassAdvance(h0, hc, head, o, i, b, cur, cnt, l, r, node, lptr, rptr');
    node' := hc.links[node].next;
  }

  /** Inside the loop `node` is the node at position `cnt`, and when
      `cnt == l` the right run has started. */
  lemma PassNext(hc: Heap, head: Ptr, o: seq<Ptr>, i: int, b: int, cur: seq<Ptr>,
                 cnt: int, l: int, r: int, node: Ptr, rptr: Ptr)
    requires Valid(hc, head, cur) && |cur| == |o|
    requires 1 <= i && l == b + 2 * i && r == b + i && 0 <= b <= cnt <= l && cnt <= |o|
    requires node == At(head, cur, cnt) && node != head
    requires rptr == (if r < cnt then cur[r] else NULL)
    ensures cnt < |o| && node == cur[cnt]
    ensures cnt == l ==> rptr == cur[b + i] && b + i < |o|
    ensures cnt == l ==> RunEnd(|o|, b, i) == cnt
  {
  }

  /** After the round's bookkeeping `node` still sits at position `cnt`,
      and moving it on keeps the loop's invariant for `cnt + 1`. */
  lemma PassAdvance(h0: Heap, hc: Heap, head: Ptr, o: seq<Ptr>, i: int, b: int, cur: seq<Ptr>,
                    cnt: int, l: int, r: int, node: Ptr, lptr: Ptr, rptr: Ptr)
    requires PassInv(h0, hc, head, o, i, b, cur)
    requires l == b + 2 * i && r == b + i && b <= cnt < l && b < |o| && cnt < |o|
    requires node == cur[cnt] && lptr == cur[b]
    requires rptr == (if r < cnt + 1 then cur[r] else NULL)
    ensures node in hc.links
    ensures PassLoop(h0, hc, head, o, i, b, cur, cnt + 1, l, r, hc.links[node].next, lptr, rptr)
  {
    assert hc.links[cur[cnt]] == Link(Succ(head, cur, cnt), Pred(head, cur, cnt));
  }

  /** When `list_for_each` has come back to the sentinel every position
      has been visited; `lptr` is on the last left run and `rptr` is set
      exactly when a right run follows it. */
  lemma PassLoopDone(h0: Heap, hc: Heap, head: Ptr, o: seq<Ptr>, i: int, b: int, cur: seq<Ptr>,
                     cnt: int, l: int, r: int, node: Ptr, lptr: Ptr, rptr: Ptr)
    requires PassLoop(h0, hc, head, o, i, b, cur, cnt, l, r, node, lptr, rptr)
    requires node == head
    ensures cnt == |o| && |o| <= b + 2 * i
    ensures lptr != NULL && lptr == cur[b]
    ensures rptr != NULL <==> b + i < |o|
    ensures rptr != NULL ==> rptr == cur[b + i]
  {
    AtSentinel(hc, head, cur, cnt);
    if b + i < |o| {
      assert cur[b + i] in hc.links;
    }
  }

  /** The loop's state before the first round of a pass. */
  lemma PassLoopStart(h0: Heap, head: Ptr, o: seq<Ptr>, i: int)
    requires Valid(h0, head, o)
    requires 1 <= i < |o|
    ensures PassLoop(h0, h0, head, o, i, 0, o, 0, 2 * i, i, h0.links[head].next, h0.links[head].next, NULL)
  {
    PassPrefixStart(h0.values, o, i);
  }

  /** One pass of `q_sort` with run width `i`: the `list_for_each` loop,
      then the merge of a last pair of runs that the loop did not reach. The
      list ends up in the order of `SortSpec.Pass`. */
  method SortPass(h0: Heap, head: Ptr, ghost o: seq<Ptr>, i: int) returns (h': Heap)
    requires Valid(h0, head, o)
    requires 1 <= i < |o|
    ensures Valid(h', head, SortSpec.Pass(h0.values, o, i))
    ensures h'.values == h0.values && h'.links.Keys == h0.links.Keys
    ensures Untouched(h0, h', head, o)
  {
    var l, r, cnt := 2 * i, i, 0;
    var lptr, rptr, node := h0.links[head].next, NULL, h0.links[head].next;
    ghost var b, cur := 0, o;
    var hc := h0;
    PassLoopStart(h0, head, o, i);
    while node != head
      invariant PassLoop(h0, hc, head, o, i, b, cur, cnt, l, r, node, lptr, rptr)
      decreases |o| - cnt
    {
      hc, b, cur, cnt, l, r, node, lptr, rptr := PassVisit(h0, hc, head, o, i, b, cur, cnt, l, r, node, lptr, rptr);
    }
    PassLoopDone(h0, hc, head, o, i, b, cur, cnt, l, r, node, lptr, rptr);
    if lptr != NULL && rptr != NULL {
      hc, cur := PassMerge(h0, hc, head, o, i, b, cur, lptr, rptr);
      PassPrefixEnd(h0.values, o, i, cur);
    } else {
      PassPrefixLast(h0.values, o, i, b, cur);
    }
    h' := hc;
  }

  /** `q_sort`: passes of run width 1, 2, 4, ... while the width is below
      the queue's size. The queue ends up sorted by payload, holding the
      same nodes, with equal payloads in their original relative order; a
      NULL queue is left alone. */
  method Sort(h: Heap, head: Ptr, ghost o: seq<Ptr>) returns (h': Heap)
    requires head == NULL || Valid(h, head, o)
    ensures head == NULL ==> h' == h
    ensures head != NULL ==> Valid(h', head, SortSpec.MergeSort(h.values, o))
    ensures head != NULL ==> SeqSpec.SortedValues(Values(h'.values, SortSpec.MergeSort(h.values, o)))
    ensures multiset(SortSpec.MergeSort(h.values, o)) == multiset(o)
    ensures forall t :: SortSpec.Filter(h.values, SortSpec.MergeSort(h.values, o), t) == SortSpec.Filter(h.values, o, t)
    ensures h'.values == h.values && h'.links.Keys == h.links.Keys
    ensures head != NULL ==> Untouched(h, h', head, o)
  {
    SortSpec.MergeSortIsStableSort(h.values, o);
    if head == NULL {
      return h;
    }
    var size := Queue.Size(h, head, o);
    var i := 1;
    var hc := h;
    ghost var cur := o;
    assert SortInv(h, hc, head, o, cur, i, size);
    while i < size
      invariant SortInv(h, hc, head, o, cur, i, size)
      decreases size - i
    {
      hc, cur := SortRound(h, hc, head, o, cur, i, size);
      i := i * 2;
    }
    h' := hc;
  }

  /** What the passes of `q_sort` keep: what is left to do from the current
      order `cur` with width `i` yields the merge sort of the original. */
  ghost predicate SortInv(h: Heap, hc: Heap, head: Ptr, o: seq<Ptr>, cur: seq<Ptr>, i: int, size: int)
  {
    && 1 <= i
    && Valid(hc, head, cur) && |cur| == size
    && SortSpec.SortFrom(h.values, cur, i, size) == SortSpec.MergeSort(h.values, o)
    && (forall q :: q in cur ==> q in o)
    && hc.values == h.values && hc.links.Keys == h.links.Keys
    && Untouched(h, hc, head, o)
  }

  /** One round of the `for` loop of `q_sort`: a pass of width `i`. */
  method SortRound(h: Heap, hc: Heap, head: Ptr, ghost o: seq<Ptr>, ghost cur: seq<Ptr>, i: int, size: int)
    returns (hn: Heap, ghost next: seq<Ptr>)
    requires SortInv(h, hc, head, o, cur, i, size) && i < size
    ensures SortInv(h, hn, head, o, next, i * 2, size)
  {
    hn := SortPass(hc, head, cur, i);
    next := SortSpec.Pass(h.values, cur, i);
    SortFromStep(h.values, cur, i, size);
    SortSpec.PassPermutes(h.values, cur, i);
    PermutationWithin(next, cur);
    UntouchedTrans(h, hc, hn, head, o, cur);
  }

  /** One pass of the sort, unfolded. */
  lemma SortFromStep(vals: map<Ptr, Str>, s: seq<Ptr>, w: int, n: int)
    requires 1 <= w < n
    ensures SortSpec.SortFrom(vals, s, w, n) == SortSpec.SortFrom(vals, SortSpec.Pass(vals, s, w), 2 * w, n)
  {
  }
}
