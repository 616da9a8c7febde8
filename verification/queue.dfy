/** The operations of `queue.c` that do not rearrange the whole list:
    creation, insertion and removal at either end, counting, deleting the
    middle element and freeing the queue. Each one takes the arena and the
    ghost traversal order of the queue and yields the new arena; success and
    the result are stated on the order and on the strings along it. */
module Queue {
  import opened CString
  import opened ListCore

  /** A pointer `malloc` may hand out: NULL for failure, or a node the arena
      does not hold yet. */
  predicate Fresh(h: Heap, p: Ptr)
  {
    p == NULL || (p !in h.links && p !in h.values)
  }

  /** The arena after `malloc` of an element holding `s`. The list links
      of a fresh node are not initialised by `queue.c`; they are set to NULL. */
  function Alloc(h: Heap, node: Ptr, s: Str): (h': Heap)
  {
    Heap(h.links[node := Link(NULL, NULL)], h.values[node := s])
  }

  /** Allocating a node off the list keeps the list valid. */
  lemma AllocValid(h: Heap, head: Ptr, o: seq<Ptr>, node: Ptr, s: Str)
    requires Valid(h, head, o)
    requires node != NULL && Fresh(h, node)
    ensures Valid(Alloc(h, node, s), head, o)
    ensures node !in o && node != head
    ensures Values(Alloc(h, node, s).values, o) == Values(h.values, o)
  {
  }

  /** The outcome of `q_new`: the sentinel, NULL on allocation failure. */
  datatype Created = Created(head: Ptr, heap: Heap)

  /** `q_new`, `node` being what `malloc` returned. */
  function New(h: Heap, node: Ptr): (r: Created)
    requires NULL !in h.links
    requires Fresh(h, node)
  {
    if node == NULL then Created(NULL, h)
    else Created(node, h.(links := h.links[node := Link(node, node)]))
  }

  /** A new queue is empty, and a failed allocation changes nothing. */
  lemma NewIsEmpty(h: Heap, node: Ptr)
    requires NULL !in h.links
    requires Fresh(h, node)
    ensures New(h, node).head == node
    ensures node == NULL ==> New(h, node).heap == h
    ensures node != NULL ==> Valid(New(h, node).heap, node, [])
    ensures New(h, node).heap.values == h.values
    ensures node != NULL ==> New(h, node).heap.links.Keys == h.links.Keys + {node}
    ensures Untouched(h, New(h, node).heap, node, [])
  {
  }

  /** The outcome of `q_insert_head` and `q_insert_tail`. */
  datatype Inserted = Inserted(ok: bool, heap: Heap)

  /** Allocating an element holding `s` and linking it in before the
      node at position `j` puts it at position `j` of the order. */
  lemma AddAtValid(h: Heap, head: Ptr, o: seq<Ptr>, j: int, node: Ptr, s: Str)
    requires Valid(h, head, o)
    requires node != NULL && Fresh(h, node)
    requires 0 <= j <= |o|
    ensures Alloc(h, node, s).links[At(head, o, j)].prev in Alloc(h, node, s).links
    ensures Valid(InsertBefore(Alloc(h, node, s), At(head, o, j), node), head, InsertAt(o, j, node))
  {
    AllocValid(h, head, o, node, s);
    InsertValid(Alloc(h, node, s), head, o, j, node);
  }

  /** The allocated element adds its string at position `j` of the values. */
  lemma AddAtValues(h: Heap, head: Ptr, o: seq<Ptr>, j: int, node: Ptr, s: Str)
    requires Valid(h, head, o)
    requires node != NULL && Fresh(h, node)
    requires 0 <= j <= |o|
    ensures Alloc(h, node, s).links[At(head, o, j)].prev in Alloc(h, node, s).links
    ensures InsertBefore(Alloc(h, node, s), At(head, o, j), node).values == h.values[node := s]
    ensures Values(h.values[node := s], InsertAt(o, j, node)) == InsertAt(Values(h.values, o), j, s)
  {
    AllocValid(h, head, o, node, s);
    var h1 := Alloc(h, node, s);
    assert h1.links[At(head, o, j)].prev == Before(head, o, j);
    InsertBeforeLinks(h1, At(head, o, j), node);
    ValuesInsertAt(h.values, o, j, node, s);
  }


  /** Allocating and linking in an element touches no other list. */
  lemma AddAtFrame(h: Heap, head: Ptr, o: seq<Ptr>, j: int, node: Ptr, s: Str)
    requires Valid(h, head, o)
    requires node != NULL && Fresh(h, node)
    requires 0 <= j <= |o|
    ensures Alloc(h, node, s).links[At(head, o, j)].prev in Alloc(h, node, s).links
    ensures Alloc(h, node, s).links[head].next == At(head, o, 0)
    ensures Untouched(h, InsertBefore(Alloc(h, node, s), At(head, o, j), node), head, o)
  {
    AllocValid(h, head, o, node, s);
    InsertFrame(Alloc(h, node, s), head, o, j, node);
  }

  /** `q_insert_head(head, s)`. `node` is what the `malloc` of the element
      returned and `valueOk` whether the `malloc` of its string succeeded. */
  function InsertHead(h: Heap, head: Ptr, ghost o: seq<Ptr>, s: Str, node: Ptr, valueOk: bool): (r: Inserted)
    requires head == NULL || Valid(h, head, o)
    requires Fresh(h, node)
    ensures r.ok <==> head != NULL && node != NULL && valueOk
    ensures !r.ok ==> r.heap == h
    ensures r.ok ==> Valid(r.heap, head, [node] + o)
    ensures r.ok ==> r.heap.values == h.values[node := s]
    ensures r.ok ==> r.heap.links.Keys == h.links.Keys + {node}
    ensures r.ok ==> Values(r.heap.values, [node] + o) == [s] + Values(h.values, o)
    ensures r.ok ==> Untouched(h, r.heap, head, o)
  {
    if head == NULL || node == NULL || !valueOk then Inserted(false, h)
    else
      var h1 := Alloc(h, node, s);
      AddAtValid(h, head, o, 0, node, s);
      AddAtValues(h, head, o, 0, node, s);
      AddAtFrame(h, head, o, 0, node, s);
      InsertAtEnds(o, node);
      InsertAtEnds(Values(h.values, o), s);
      Inserted(true, InsertBefore(h1, h1.links[head].next, node))
  }

  /** `q_insert_tail(head, s)`, with allocation as for `InsertHead`. */
  function InsertTail(h: Heap, head: Ptr, ghost o: seq<Ptr>, s: Str, node: Ptr, valueOk: bool): (r: Inserted)
    requires head == NULL || Valid(h, head, o)
    requires Fresh(h, node)
    ensures r.ok <==> head != NULL && node != NULL && valueOk
    ensures !r.ok ==> r.heap == h
    ensures r.ok ==> Valid(r.heap, head, o + [node])
    ensures r.ok ==> r.heap.values == h.values[node := s]
    ensures r.ok ==> r.heap.links.Keys == h.links.Keys + {node}
    ensures r.ok ==> Values(r.heap.values, o + [node]) == Values(h.values, o) + [s]
    ensures r.ok ==> Untouched(h, r.heap, head, o)
  {
    if head == NULL || node == NULL || !valueOk then Inserted(false, h)
    else
      AddAtValid(h, head, o, |o|, node, s);
      AddAtValues(h, head, o, |o|, node, s);
      AddAtFrame(h, head, o, |o|, node, s);
      InsertAtEnds(o, node);
      InsertAtEnds(Values(h.values, o), s);
      Inserted(true, InsertBefore(Alloc(h, node, s), head, node))
  }

  /** The outcome of `q_remove_head` and `q_remove_tail`: the element
      unlinked (NULL if none), the arena, and the caller's buffer. */
  datatype Removed = Removed(elem: Ptr, heap: Heap, buf: seq<Byte>)

  /** The buffer holds the first `|buf| - 1` bytes of `v` at most and
      zeros everywhere else. */
  predicate HoldsCopy(buf: seq<Byte>, v: Str)
  {
    forall k :: 0 <= k < |buf| ==> buf[k] == if k < |buf| - 1 then ByteAt(v, k) else 0
  }

  /** Unlinking the element at position `j` and copying its string into
      the caller's buffer: the common tail of both removals. */
  function Unlink(h: Heap, head: Ptr, ghost o: seq<Ptr>, ghost j: int, tgt: Ptr, buf: seq<Byte>): (r: Removed)
    requires Valid(h, head, o)
    requires 0 <= j < |o| && tgt == o[j]
    requires |buf| >= 1
    ensures r.elem == tgt
    ensures Valid(r.heap, head, RemoveAt(o, j))
    ensures r.heap.values == h.values
    ensures r.heap.links.Keys == h.links.Keys
    ensures Untouched(h, r.heap, head, o)
    ensures |r.buf| == |buf| && HoldsCopy(r.buf, h.values[tgt])
  {
    DelValid(h, head, o, j);
    DelFrame(h, head, o, j);
    Removed(tgt, ListDel(h, tgt), CopyOut(h.values[tgt], |buf|))
  }

  /** `q_remove_head(head, sp, bufsize)`, the buffer standing for `sp`
      and its length for `bufsize`. */
  function RemoveHead(h: Heap, head: Ptr, ghost o: seq<Ptr>, buf: seq<Byte>): (r: Removed)
    requires head == NULL || Valid(h, head, o)
    requires head != NULL && |o| > 0 ==> |buf| >= 1
    ensures r.elem == NULL <==> head == NULL || |o| == 0
    ensures r.elem == NULL ==> r.heap == h && r.buf == buf
    ensures r.elem != NULL ==> r.elem == o[0] && Valid(r.heap, head, o[1..])
    ensures r.elem != NULL ==> r.heap.values == h.values && r.heap.links.Keys == h.links.Keys
    ensures r.elem != NULL ==> Untouched(h, r.heap, head, o)
    ensures r.elem != NULL ==> |r.buf| == |buf| && HoldsCopy(r.buf, h.values[o[0]])
  {
    if head == NULL || h.links[head].next == head then Removed(NULL, h, buf)
    else
      RemoveAtEnds(o);
      Unlink(h, head, o, 0, h.links[head].next, buf)
  }

  /** `q_remove_tail(head, sp, bufsize)`. */
  function RemoveTail(h: Heap, head: Ptr, ghost o: seq<Ptr>, buf: seq<Byte>): (r: Removed)
    requires head == NULL || Valid(h, head, o)
    requires head != NULL && |o| > 0 ==> |buf| >= 1
    ensures r.elem == NULL <==> head == NULL || |o| == 0
    ensures r.elem == NULL ==> r.heap == h && r.buf == buf
    ensures r.elem != NULL ==> r.elem == o[|o| - 1] && Valid(r.heap, head, o[..|o| - 1])
    ensures r.elem != NULL ==> r.heap.values == h.values && r.heap.links.Keys == h.links.Keys
    ensures r.elem != NULL ==> Untouched(h, r.heap, head, o)
    ensures r.elem != NULL ==> |r.buf| == |buf| && HoldsCopy(r.buf, h.values[o[|o| - 1]])
  {
    if head == NULL || h.links[head].next == head then Removed(NULL, h, buf)
    else
      RemoveAtEnds(o);
      Unlink(h, head, o, |o| - 1, h.links[head].prev, buf)
  }

  /** What a removal leaves in the caller's buffer reads back as the
      removed string, cut to `bufsize - 1` bytes. */
  lemma RemovedStringReadsBack(buf: seq<Byte>, v: Str)
    requires |buf| >= 1 && HoldsCopy(buf, v)
    ensures ReadCString(buf) == v[..if |v| < |buf| - 1 then |v| else |buf| - 1]
  {
    assert buf == CopyOut(v, |buf|);
    CopyOutReadsBack(v, |buf|);
  }

  /** Inserting at the head and removing from the head hands back the
      inserted node and string and restores the order. */
  lemma InsertHeadRemoveHead(h: Heap, head: Ptr, o: seq<Ptr>, s: Str, node: Ptr, buf: seq<Byte>)
    requires Valid(h, head, o)
    requires node != NULL && Fresh(h, node)
    requires |buf| >= 1
    ensures var ins := InsertHead(h, head, o, s, node, true);
            var rem := RemoveHead(ins.heap, head, [node] + o, buf);
            && rem.elem == node
            && Valid(rem.heap, head, o)
            && Values(rem.heap.values, o) == Values(h.values, o)
            && ReadCString(rem.buf) == s[..if |s| < |buf| - 1 then |s| else |buf| - 1]
  {
    var ins := InsertHead(h, head, o, s, node, true);
    var rem := RemoveHead(ins.heap, head, [node] + o, buf);
    assert ([node] + o)[1..] == o;
    RemovedStringReadsBack(rem.buf, s);
    AllocValid(h, head, o, node, s);
  }

  /** Removing the head and inserting its string at the head again puts a
      node holding the same string in front: the strings along the queue,
      and with them its size, are as before. */
  lemma RemoveHeadInsertHead(h: Heap, head: Ptr, o: seq<Ptr>, buf: seq<Byte>, node: Ptr,
                             rem: Removed, ins: Inserted)
    requires Valid(h, head, o)
    requires |o| > 0 && |buf| >= 1
    requires rem == RemoveHead(h, head, o, buf)
    requires node != NULL && Fresh(rem.heap, node)
    requires ins == InsertHead(rem.heap, head, o[1..], h.values[o[0]], node, true)
    ensures ins.ok && Valid(ins.heap, head, [node] + o[1..])
    ensures |[node] + o[1..]| == |o|
    ensures Values(ins.heap.values, [node] + o[1..]) == Values(h.values, o)
  {
    assert rem.elem != NULL;
    assert rem.heap.values == h.values;
    assert Values(h.values, o) == [h.values[o[0]]] + Values(h.values, o[1..]);
  }

  /** Removing the tail and inserting its string at the tail again is the
      same round trip at the other end. */
  lemma RemoveTailInsertTail(h: Heap, head: Ptr, o: seq<Ptr>, buf: seq<Byte>, node: Ptr,
                             rem: Removed, ins: Inserted)
    requires Valid(h, head, o)
    requires |o| > 0 && |buf| >= 1
    requires rem == RemoveTail(h, head, o, buf)
    requires node != NULL && Fresh(rem.heap, node)
    requires ins == InsertTail(rem.heap, head, o[..|o| - 1], h.values[o[|o| - 1]], node, true)
    ensures ins.ok && Valid(ins.heap, head, o[..|o| - 1] + [node])
    ensures |o[..|o| - 1] + [node]| == |o|
    ensures Values(ins.heap.values, o[..|o| - 1] + [node]) == Values(h.values, o)
  {
    var init, last := o[..|o| - 1], o[|o| - 1];
    assert rem.elem != NULL;
    assert rem.heap.values == h.values;
    assert Values(ins.heap.values, init + [node]) == Values(h.values, init) + [h.values[last]];
    assert Values(h.values, o) == Values(h.values, init) + [h.values[last]];
  }

  /** Inserting at the tail and removing from the tail is the same round trip. */
  lemma InsertTailRemoveTail(h: Heap, head: Ptr, o: seq<Ptr>, s: Str, node: Ptr, buf: seq<Byte>)
    requires Valid(h, head, o)
    requires node != NULL && Fresh(h, node)
    requires |buf| >= 1
    ensures var ins := InsertTail(h, head, o, s, node, true);
            var rem := RemoveTail(ins.heap, head, o + [node], buf);
            && rem.elem == node
            && Valid(rem.heap, head, o)
            && Values(rem.heap.values, o) == Values(h.values, o)
            && ReadCString(rem.buf) == s[..if |s| < |buf| - 1 then |s| else |buf| - 1]
  {
    var ins := InsertTail(h, head, o, s, node, true);
    var rem := RemoveTail(ins.heap, head, o + [node], buf);
    assert (o + [node])[..|o|] == o;
    RemovedStringReadsBack(rem.buf, s);
    AllocValid(h, head, o, node, s);
  }

  /** `q_size(head)`: counting the nodes met following `next` from the sentinel. */
  method Size(h: Heap, head: Ptr, ghost o: seq<Ptr>) returns (n: int)
    requires head == NULL || Valid(h, head, o)
    ensures head == NULL ==> n == 0
    ensures head != NULL ==> n == |o|
  {
    if head == NULL || h.links[head].next == head {
      return 0;
    }
    var cnt := 0;
    var pos := h.links[head].next;
    while pos != head
      invariant 0 <= cnt <= |o|
      invariant pos == At(head, o, cnt)
      decreases |o| - cnt
    {
      cnt := cnt + 1;
      pos := h.links[pos].next;
    }
    return cnt;
  }

  /** The loop of `q_delete_mid`: `for (i = steps; !(i < 0); --i)
      cur = cur->next;` from the sentinel, that is `steps + 1` moves,
      which lands on the element at position `steps`. */
  method Advance(h: Heap, head: Ptr, ghost o: seq<Ptr>, steps: int) returns (cur: Ptr)
    requires Valid(h, head, o)
    requires 0 <= steps < |o|
    ensures cur == o[steps]
  {
    var i := steps;
    ghost var t := 0;
    cur := head;
    while !(i < 0)
      invariant 0 <= t <= steps + 1 && i == steps - t
      invariant cur == Before(head, o, t)
      decreases i + 1
    {
      NextOfBefore(h, head, o, t);
      cur := h.links[cur].next;
      i := i - 1;
      t := t + 1;
    }
  }

  /** `q_delete_mid(head)`: walk to the element at position `⌊n/2⌋`
      (`q_size(head) >> 1`, the size being non-negative), then unlink and
      free it. */
  method DeleteMid(h: Heap, head: Ptr, ghost o: seq<Ptr>) returns (ok: bool, h': Heap)
    requires head == NULL || Valid(h, head, o)
    ensures ok <==> head != NULL && |o| > 0
    ensures !ok ==> h' == h
    ensures ok ==> Valid(h', head, RemoveAt(o, |o| / 2))
    ensures ok ==> h'.values == h.values - {o[|o| / 2]}
    ensures ok ==> h'.links.Keys == h.links.Keys - {o[|o| / 2]}
    ensures ok ==> Values(h'.values, RemoveAt(o, |o| / 2)) == RemoveAt(Values(h.values, o), |o| / 2)
    ensures ok ==> Untouched(h, h', head, o)
  {
    if head == NULL || h.links[head].next == head {
      return false, h;
    }
    var n := Size(h, head, o);
    assert n == |o|;
    var cur := Advance(h, head, o, n / 2);
    DeleteAt(h, head, o, n / 2);
    h' := Release(ListDel(h, cur), cur);
    return true, h';
  }

  /** One round of `q_free`'s loop: `l->next = l->next->next`, release
      the entry before the new first node, and point that node back at
      the sentinel. It has the effect of unlinking and releasing the first
      element. */
  function FreeStep(h: Heap, head: Ptr, ghost o: seq<Ptr>): (h': Heap)
    requires Valid(h, head, o)
    requires |o| > 0
    ensures h.links[o[0]].next in h.links && h.links[o[0]].prev in h.links
    ensures h' == Release(ListDel(h, o[0]), o[0])
  {
    var x := h.links[head].next;
    var n := h.links[x].next;
    assert x == o[0] && n == Succ(head, o, 0) && n != x;
    var h1 := SetNext(h, head, n);
    assert h1.links[n].prev == x;
    var e := h1.links[h1.links[head].next].prev;
    var h2 := Release(h1, e);
    var h3 := SetPrev(h2, h2.links[head].next, head);
    FreeStepIsDelete(h, head, o, h3);
    h3
  }

  /** The heap `q_free`'s loop body leaves is the one `list_del` and
      `q_release_element` of the first element leave. */
  lemma FreeStepIsDelete(h: Heap, head: Ptr, o: seq<Ptr>, h3: Heap)
    requires Valid(h, head, o)
    requires |o| > 0
    requires var x := o[0];
             var n := Succ(head, o, 0);
             h3 == SetPrev(Release(SetNext(h, head, n), x), n, head)
    ensures h.links[o[0]].next in h.links && h.links[o[0]].prev in h.links
    ensures h3 == Release(ListDel(h, o[0]), o[0])
  {
    var x := o[0];
    var n := Succ(head, o, 0);
    assert h.links[x] == Link(n, head);
    assert h.links[n].prev == x;
    ListDelLinks(h, x);
    var b := Release(ListDel(h, x), x);
    assert h3.links.Keys == b.links.Keys;
    forall q | q in h3.links
      ensures h3.links[q] == b.links[q]
    {
    }
    assert h3.links == b.links;
  }

  /** What `q_free`'s loop keeps: the first `k` elements and their strings
      have left the arena, the rest still form the list, and no node off
      the list has changed. */
  ghost predicate FreeInv(h: Heap, hc: Heap, head: Ptr, o: seq<Ptr>, k: int)
  {
    && 0 <= k <= |o|
    && Valid(hc, head, o[k..])
    && hc.values == h.values - Elems(o[..k])
    && hc.links.Keys == h.links.Keys - Elems(o[..k])
    && Untouched(h, hc, head, o)
  }

  /** A round of `q_free`'s loop unlinks and releases the first element
      left: the rest is still a valid list. */
  lemma FreeRoundValid(hc: Heap, head: Ptr, o: seq<Ptr>, k: int)
    requires 0 <= k < |o|
    requires Valid(hc, head, o[k..])
    ensures Valid(FreeStep(hc, head, o[k..]), head, o[k + 1..])
  {
    DeleteAtValid(hc, head, o[k..], 0);
    assert RemoveAt(o[k..], 0) == o[k + 1..];
  }

  /** A round of `q_free`'s loop takes exactly that element and its string
      out of the arena. */
  lemma FreeRoundArena(h: Heap, hc: Heap, head: Ptr, o: seq<Ptr>, k: int)
    requires 0 <= k < |o|
    requires Valid(hc, head, o[k..])
    requires hc.values == h.values - Elems(o[..k])
    requires hc.links.Keys == h.links.Keys - Elems(o[..k])
    ensures FreeStep(hc, head, o[k..]).values == h.values - Elems(o[..k + 1])
    ensures FreeStep(hc, head, o[k..]).links.Keys == h.links.Keys - Elems(o[..k + 1])
  {
    DeleteAtValues(hc, head, o[k..], 0);
    ElemsExtend(o, k);
  }

  /** A round of `q_free`'s loop touches no node off the list. */
  lemma FreeRoundFrame(h: Heap, hc: Heap, head: Ptr, o: seq<Ptr>, k: int)
    requires 0 <= k < |o|
    requires Valid(hc, head, o[k..])
    requires Untouched(h, hc, head, o)
    ensures Untouched(h, FreeStep(hc, head, o[k..]), head, o)
  {
    var hn := FreeStep(hc, head, o[k..]);
    DeleteAtFrame(hc, head, o[k..], 0);
    forall q | q in h.links && q != head && q !in o
      ensures q in hn.links && hn.links[q] == h.links[q]
    {
      assert q !in o[k..];
    }
  }

  /** A round of `q_free`'s loop keeps `FreeInv` with one more element gone. */
  lemma FreeRound(h: Heap, hc: Heap, head: Ptr, o: seq<Ptr>, k: int)
    requires FreeInv(h, hc, head, o, k)
    requires k < |o|
    ensures FreeInv(h, FreeStep(hc, head, o[k..]), head, o, k + 1)
  {
    FreeRoundValid(hc, head, o, k);
    FreeRoundArena(h, hc, head, o, k);
    FreeRoundFrame(h, hc, head, o, k);
  }

  /** When the list is empty `FreeInv` says every element is gone. */
  lemma FreeDone(h: Heap, hc: Heap, head: Ptr, o: seq<Ptr>, k: int)
    requires Valid(h, head, o)
    requires FreeInv(h, hc, head, o, k)
    requires hc.links[head].next == head
    ensures k == |o|
    ensures Release(hc, head).links == h.links - ({head} + Elems(o))
    ensures Release(hc, head).values == h.values - Elems(o)
  {
    assert o[..|o|] == o;
    var a := Release(hc, head).links;
    var b := h.links - ({head} + Elems(o));
    assert a.Keys == b.Keys;
    forall q | q in a
      ensures a[q] == b[q]
    {
      assert q != head && q !in o;
    }
    assert a == b;
  }

  /** `q_free(l)`: every element and its string leave the arena, then the
      sentinel does; nothing else in the arena changes. */
  method Free(h: Heap, head: Ptr, ghost o: seq<Ptr>) returns (h': Heap)
    requires head == NULL || Valid(h, head, o)
    ensures head == NULL ==> h' == h
    ensures head != NULL ==> h'.links == h.links - ({head} + Elems(o))
    ensures head != NULL ==> h'.values == h.values - Elems(o)
  {
    if head == NULL {
      return h;
    }
    var hc := h;
    ghost var k := 0;
    assert o[..0] == [] && o[0..] == o;
    while hc.links[head].next != head
      invariant FreeInv(h, hc, head, o, k)
      decreases |o| - k
    {
      FreeRound(h, hc, head, o, k);
      hc := FreeStep(hc, head, o[k..]);
      k := k + 1;
    }
    FreeDone(h, hc, head, o, k);
    h' := Release(hc, head);
  }
}
