/** Reference definitions for `q_sort` on traversal orders: the merge of two
    adjacent runs as `merge` performs it, one pass of the bottom-up merge
    sort over runs of a given width, and the doubling of the width until it
    covers the queue. The properties that make it a sort are proved here:
    the result is ordered by `strcmp`, holds the same nodes, and keeps the
    original relative order of nodes with equal strings. */
module SortSpec {
  import opened CString
  import opened ListCore
  import SeqSpec

  /** `merge` on orders: the front of the right run goes first exactly when
      the front of the left run compares greater under `strcmp`; once a
      run is used up the rest of the other stays where it is. */
  function Merge(vals: map<Ptr, Str>, l: seq<Ptr>, r: seq<Ptr>): (m: seq<Ptr>)
    ensures |m| == |l| + |r|
    decreases |l| + |r|
  {
    if |l| == 0 then r
    else if |r| == 0 then l
    else if Strcmp(Payload(vals, l[0]), Payload(vals, r[0])) > 0 then [r[0]] + Merge(vals, l, r[1..])
    else [l[0]] + Merge(vals, l[1..], r)
  }

  /** The nodes of `s` holding the string `t`, in order. A sort is stable
      when it leaves this subsequence the same for every `t`. */
  function Filter(vals: map<Ptr, Str>, s: seq<Ptr>, t: Str): seq<Ptr>
  {
    if |s| == 0 then []
    else (if Payload(vals, s[0]) == t then [s[0]] else []) + Filter(vals, s[1..], t)
  }

  /** Filtering distributes over concatenation. */
  lemma {:induction false} FilterAppend(vals: map<Ptr, Str>, a: seq<Ptr>, b: seq<Ptr>, t: Str)
    ensures Filter(vals, a + b, t) == Filter(vals, a, t) + Filter(vals, b, t)
  {
    if |a| > 0 {
      assert (a + b)[0] == a[0] && (a + b)[1..] == a[1..] + b;
      FilterAppend(vals, a[1..], b, t);
    } else {
      assert a + b == b;
    }
  }

  /** A suffix of a sorted order is sorted. */
  lemma SortedTail(vals: map<Ptr, Str>, s: seq<Ptr>)
    requires SeqSpec.SortedValues(Values(vals, s)) && |s| > 0
    ensures SeqSpec.SortedValues(Values(vals, s[1..]))
  {
    var vs := Values(vals, s);
    var ws := Values(vals, s[1..]);
    forall i | 0 < i < |ws|
      ensures Leq(ws[i - 1], ws[i])
    {
      assert ws[i - 1] == vs[i] && ws[i] == vs[i + 1];
    }
  }

  /** Putting a node in front of a sorted order keeps it sorted when its
      string is at most the first one. */
  lemma SortedCons(vals: map<Ptr, Str>, x: Ptr, s: seq<Ptr>)
    requires SeqSpec.SortedValues(Values(vals, s))
    requires |s| > 0 ==> Leq(Payload(vals, x), Payload(vals, s[0]))
    ensures SeqSpec.SortedValues(Values(vals, [x] + s))
  {
    var vs := Values(vals, s);
    var ws := Values(vals, [x] + s);
    forall i | 0 < i < |ws|
      ensures Leq(ws[i - 1], ws[i])
    {
      if i > 1 {
        assert ws[i - 1] == vs[i - 2] && ws[i] == vs[i - 1];
      }
    }
  }

  /** Merging two sorted runs gives a sorted run, which starts with the
      front of one of them. */
  lemma {:induction false} MergeSorted(vals: map<Ptr, Str>, l: seq<Ptr>, r: seq<Ptr>)
    requires SeqSpec.SortedValues(Values(vals, l)) && SeqSpec.SortedValues(Values(vals, r))
    ensures SeqSpec.SortedValues(Values(vals, Merge(vals, l, r)))
    ensures |l| > 0 && |r| > 0 ==>
              Merge(vals, l, r)[0] == l[0] || Merge(vals, l, r)[0] == r[0]
    decreases |l| + |r|
  {
    if |l| > 0 && |r| > 0 {
      var a := Payload(vals, l[0]);
      var b := Payload(vals, r[0]);
      if Strcmp(a, b) > 0 {
        SortedTail(vals, r);
        MergeSorted(vals, l, r[1..]);
        GreaterIsStrict(a, b);
        if |r| > 1 {
          assert Leq(b, Payload(vals, r[1])) by {
            assert Values(vals, r)[0] == b && Values(vals, r)[1] == Payload(vals, r[1]);
          }
        }
        SortedCons(vals, r[0], Merge(vals, l, r[1..]));
      } else {
        SortedTail(vals, l);
        MergeSorted(vals, l[1..], r);
        if |l| > 1 {
          assert Leq(a, Payload(vals, l[1])) by {
            assert Values(vals, l)[0] == a && Values(vals, l)[1] == Payload(vals, l[1]);
          }
        }
        SortedCons(vals, l[0], Merge(vals, l[1..], r));
      }
    }
  }

  /** Merging holds exactly the nodes of both runs. */
  lemma {:induction false} MergePermutes(vals: map<Ptr, Str>, l: seq<Ptr>, r: seq<Ptr>)
    ensures multiset(Merge(vals, l, r)) == multiset(l) + multiset(r)
    decreases |l| + |r|
  {
    if |l| > 0 && |r| > 0 {
      if Strcmp(Payload(vals, l[0]), Payload(vals, r[0])) > 0 {
        var m := Merge(vals, l, r[1..]);
        MergePermutes(vals, l, r[1..]);
        assert Merge(vals, l, r) == [r[0]] + m;
        assert r == [r[0]] + r[1..];
      } else {
        var m := Merge(vals, l[1..], r);
        MergePermutes(vals, l[1..], r);
        assert Merge(vals, l, r) == [l[0]] + m;
        assert l == [l[0]] + l[1..];
      }
    }
  }

  /** No node of a sorted run whose front is greater than `t` holds `t`. */
  lemma {:induction false} FilterAboveEmpty(vals: map<Ptr, Str>, l: seq<Ptr>, t: Str)
    requires SeqSpec.SortedValues(Values(vals, l)) && |l| > 0
    requires Strcmp(Payload(vals, l[0]), t) > 0
    ensures Filter(vals, l, t) == []
    decreases |l|
  {
    if |l| > 1 {
      var a := Payload(vals, l[0]);
      var b := Payload(vals, l[1]);
      assert Leq(a, b) by {
        assert Values(vals, l)[0] == a && Values(vals, l)[1] == b;
      }
      if Leq(b, t) {
        LeqTransitive(a, b, t);
        assert false;
      }
      SortedTail(vals, l);
      FilterAboveEmpty(vals, l[1..], t);
    }
  }

  /** Merging keeps nodes with equal strings in their order, those of the
      left run first: the right run only overtakes strictly greater ones. */
  lemma {:induction false} MergeStable(vals: map<Ptr, Str>, l: seq<Ptr>, r: seq<Ptr>, t: Str)
    requires SeqSpec.SortedValues(Values(vals, l))
    ensures Filter(vals, Merge(vals, l, r), t) == Filter(vals, l, t) + Filter(vals, r, t)
    decreases |l| + |r|
  {
    if |l| == 0 {
      assert Filter(vals, l, t) == [];
    } else if |r| == 0 {
      assert Filter(vals, r, t) == [];
    } else if Strcmp(Payload(vals, l[0]), Payload(vals, r[0])) > 0 {
      MergeStable(vals, l, r[1..], t);
      if Payload(vals, r[0]) == t {
        FilterAboveEmpty(vals, l, t);
      }
      StableRightStep(vals, l, Merge(vals, l, r[1..]), r, t);
    } else {
      SortedTail(vals, l);
      MergeStable(vals, l[1..], r, t);
      StableLeftStep(vals, l, Merge(vals, l[1..], r), r, t);
    }
  }

  /** The filter after the front of the right run went first: the left
      run holds no node with that node's string when it holds `t`. */
  lemma {:induction false} StableRightStep(vals: map<Ptr, Str>, l: seq<Ptr>, m: seq<Ptr>, r: seq<Ptr>, t: Str)
    requires |r| > 0
    requires Payload(vals, r[0]) == t ==> Filter(vals, l, t) == []
    requires Filter(vals, m, t) == Filter(vals, l, t) + Filter(vals, r[1..], t)
    ensures Filter(vals, [r[0]] + m, t) == Filter(vals, l, t) + Filter(vals, r, t)
  {
    FilterCons(vals, r[0], m, t);
  }

  /** The filter after the front of the left run went first. */
  lemma {:induction false} StableLeftStep(vals: map<Ptr, Str>, l: seq<Ptr>, m: seq<Ptr>, r: seq<Ptr>, t: Str)
    requires |l| > 0
    requires Filter(vals, m, t) == Filter(vals, l[1..], t) + Filter(vals, r, t)
    ensures Filter(vals, [l[0]] + m, t) == Filter(vals, l, t) + Filter(vals, r, t)
  {
    FilterCons(vals, l[0], m, t);
  }

  /** Filtering a node put in front. */
  lemma FilterCons(vals: map<Ptr, Str>, x: Ptr, s: seq<Ptr>, t: Str)
    ensures Filter(vals, [x] + s, t) == (if Payload(vals, x) == t then [x] else []) + Filter(vals, s, t)
  {
    assert ([x] + s)[0] == x && ([x] + s)[1..] == s;
  }

  /** Every run of width `w` of `s`, the last possibly shorter, is sorted. */
  predicate RunsSorted(vals: map<Ptr, Str>, s: seq<Ptr>, w: int)
    requires w >= 1
    decreases |s|
  {
    if |s| <= w then SeqSpec.SortedValues(Values(vals, s))
    else SeqSpec.SortedValues(Values(vals, s[..w])) && RunsSorted(vals, s[w..], w)
  }

  /** Runs of width one are always sorted. */
  lemma {:induction false} RunsSortedOne(vals: map<Ptr, Str>, s: seq<Ptr>)
    ensures RunsSorted(vals, s, 1)
    decreases |s|
  {
    if |s| > 1 {
      RunsSortedOne(vals, s[1..]);
    }
  }

  /** One pass of `q_sort`'s outer loop at width `w`: every two adjacent
      runs of width `w` merged, from the front; a last run of `w` nodes or
      fewer has no partner and stays as it is. */
  function Pass(vals: map<Ptr, Str>, s: seq<Ptr>, w: int): (r: seq<Ptr>)
    requires w >= 1
    ensures |r| == |s|
    decreases |s|
  {
    if |s| <= w then s
    else
      var e := if 2 * w < |s| then 2 * w else |s|;
      Merge(vals, s[..w], s[w..e]) + Pass(vals, s[e..], w)
  }

  /** A pass holds exactly the nodes it started with. */
  lemma {:induction false} PassPermutes(vals: map<Ptr, Str>, s: seq<Ptr>, w: int)
    requires w >= 1
    ensures multiset(Pass(vals, s, w)) == multiset(s)
    decreases |s|
  {
    if |s| > w {
      var e := if 2 * w < |s| then 2 * w else |s|;
      MergePermutes(vals, s[..w], s[w..e]);
      PassPermutes(vals, s[e..], w);
      var x, y, z := s[..w], s[w..e], s[e..];
      assert Pass(vals, s, w) == Merge(vals, x, y) + Pass(vals, z, w);
      assert s == x + y + z;
      assert multiset(s) == multiset(x) + multiset(y) + multiset(z);
    }
  }

  /** The first two runs of width `w` are sorted, and so are the runs
      after them. */
  lemma RunsSortedFront(vals: map<Ptr, Str>, s: seq<Ptr>, w: int)
    requires w >= 1 && |s| > w && RunsSorted(vals, s, w)
    ensures var e := if 2 * w < |s| then 2 * w else |s|;
            && SeqSpec.SortedValues(Values(vals, s[..w]))
            && SeqSpec.SortedValues(Values(vals, s[w..e]))
            && RunsSorted(vals, s[e..], w)
  {
    var e := if 2 * w < |s| then 2 * w else |s|;
    var t := s[w..];
    assert RunsSorted(vals, t, w);
    if e < |s| {
      assert t[..w] == s[w..e] && t[w..] == s[e..];
    } else {
      assert t == s[w..e];
      assert |s[e..]| == 0;
    }
  }

  /** A pass over sorted runs of width `w` gives sorted runs of width `2w`. */
  lemma {:induction false} PassSorted(vals: map<Ptr, Str>, s: seq<Ptr>, w: int)
    requires w >= 1 && RunsSorted(vals, s, w)
    ensures RunsSorted(vals, Pass(vals, s, w), 2 * w)
    decreases |s|
  {
    if |s| > w {
      var e := if 2 * w < |s| then 2 * w else |s|;
      var m := Merge(vals, s[..w], s[w..e]);
      var rest := Pass(vals, s[e..], w);
      RunsSortedFront(vals, s, w);
      MergeSorted(vals, s[..w], s[w..e]);
      if e < |s| {
        PassSorted(vals, s[e..], w);
        assert (m + rest)[..2 * w] == m && (m + rest)[2 * w..] == rest;
      } else {
        assert m + rest == m;
      }
    }
  }

  /** A pass over sorted runs keeps nodes with equal strings in order. */
  lemma {:induction false} PassStable(vals: map<Ptr, Str>, s: seq<Ptr>, w: int, t: Str)
    requires w >= 1 && RunsSorted(vals, s, w)
    ensures Filter(vals, Pass(vals, s, w), t) == Filter(vals, s, t)
    decreases |s|
  {
    if |s| > w {
      var e := if 2 * w < |s| then 2 * w else |s|;
      RunsSortedFront(vals, s, w);
      MergeStable(vals, s[..w], s[w..e], t);
      PassStable(vals, s[e..], w, t);
      PassStableStep(vals, s, w, t);
    }
  }

  /** `PassStable` for the first two runs, given it for the rest. */
  lemma {:induction false} PassStableStep(vals: map<Ptr, Str>, s: seq<Ptr>, w: int, t: Str)
    requires w >= 1 && |s| > w
    requires var e := if 2 * w < |s| then 2 * w else |s|;
             && Filter(vals, Merge(vals, s[..w], s[w..e]), t) == Filter(vals, s[..w], t) + Filter(vals, s[w..e], t)
             && Filter(vals, Pass(vals, s[e..], w), t) == Filter(vals, s[e..], t)
    ensures Filter(vals, Pass(vals, s, w), t) == Filter(vals, s, t)
  {
    var e := if 2 * w < |s| then 2 * w else |s|;
    var x, y, z := s[..w], s[w..e], s[e..];
    var m := Merge(vals, x, y);
    assert Pass(vals, s, w) == m + Pass(vals, z, w);
    FilterAppend(vals, m, Pass(vals, z, w), t);
    FilterAppend(vals, x, y, t);
    FilterAppend(vals, x + y, z, t);
    assert s == x + y + z;
  }

  /** `q_sort`'s outer loop from width `w` on, for a queue of `n` nodes:
      a pass at each width below `n`, doubling the width each time. */
  function SortFrom(vals: map<Ptr, Str>, s: seq<Ptr>, w: int, n: int): (r: seq<Ptr>)
    requires w >= 1
    ensures |r| == |s|
    decreases n - w
  {
    if w >= n then s else SortFrom(vals, Pass(vals, s, w), 2 * w, n)
  }

  /** The order `q_sort` leaves. */
  function MergeSort(vals: map<Ptr, Str>, s: seq<Ptr>): (r: seq<Ptr>)
  {
    SortFrom(vals, s, 1, |s|)
  }

  /** Passes from sorted runs of width `w` on end in a sorted order. */
  lemma {:induction false} SortFromSorted(vals: map<Ptr, Str>, s: seq<Ptr>, w: int, n: int)
    requires w >= 1 && |s| <= n && RunsSorted(vals, s, w)
    ensures SeqSpec.SortedValues(Values(vals, SortFrom(vals, s, w, n)))
    decreases n - w
  {
    if w < n {
      PassSorted(vals, s, w);
      SortFromSorted(vals, Pass(vals, s, w), 2 * w, n);
    }
  }

  /** Passes hold exactly the nodes they started with. */
  lemma {:induction false} SortFromPermutes(vals: map<Ptr, Str>, s: seq<Ptr>, w: int, n: int)
    requires w >= 1
    ensures multiset(SortFrom(vals, s, w, n)) == multiset(s)
    decreases n - w
  {
    if w < n {
      PassPermutes(vals, s, w);
      SortFromPermutes(vals, Pass(vals, s, w), 2 * w, n);
    }
  }

  /** Passes from sorted runs of width `w` on keep equal strings in order. */
  lemma {:induction false} SortFromStable(vals: map<Ptr, Str>, s: seq<Ptr>, w: int, n: int, t: Str)
    requires w >= 1 && RunsSorted(vals, s, w)
    ensures Filter(vals, SortFrom(vals, s, w, n), t) == Filter(vals, s, t)
    decreases n - w
  {
    if w < n {
      PassStable(vals, s, w, t);
      PassSorted(vals, s, w);
      SortFromStable(vals, Pass(vals, s, w), 2 * w, n, t);
    }
  }

  /** `q_sort` is a stable sort: the strings come out ascending under
      `strcmp`, the nodes are those of the queue, and nodes holding equal
      strings keep their relative order. */
  lemma MergeSortIsStableSort(vals: map<Ptr, Str>, s: seq<Ptr>)
    ensures SeqSpec.SortedValues(Values(vals, MergeSort(vals, s)))
    ensures multiset(MergeSort(vals, s)) == multiset(s)
    ensures forall t :: Filter(vals, MergeSort(vals, s), t) == Filter(vals, s, t)
  {
    RunsSortedOne(vals, s);
    SortFromSorted(vals, s, 1, |s|);
    SortFromPermutes(vals, s, 1, |s|);
    forall t
      ensures Filter(vals, MergeSort(vals, s), t) == Filter(vals, s, t)
    {
      SortFromStable(vals, s, 1, |s|, t);
    }
  }
}
