/** Reference definitions, on plain sequences, of the reorderings the queue
    performs in place: reversal, pairwise swap, and the removal of runs of
    equal neighbours. The list operations are proved to act on their
    traversal order exactly as these functions do. */
module SeqSpec {
  import opened CString

  /** The order `q_reverse` produces. */
  function Reverse<T>(s: seq<T>): (r: seq<T>)
  {
    seq(|s|, i requires 0 <= i < |s| => s[|s| - 1 - i])
  }

  /** Reversing twice gives the original order back. */
  lemma ReverseInvolutive<T>(s: seq<T>)
    ensures Reverse(Reverse(s)) == s
  {
    var r := Reverse(Reverse(s));
    assert forall i :: 0 <= i < |s| ==> r[i] == s[i];
  }

  /** The position whose element lands at position `i` when adjacent
      pairs of a sequence of length `n` are swapped. */
  function Partner(i: int, n: int): int
  {
    if i % 2 == 1 then i - 1 else if i + 1 < n then i + 1 else i
  }

  /** The order `q_swap` produces: `[b, a, d, c, ...]` from
      `[a, b, c, d, ...]`, a trailing odd element staying last. */
  function SwapPairs<T>(s: seq<T>): (r: seq<T>)
  {
    seq(|s|, i requires 0 <= i < |s| => s[Partner(i, |s|)])
  }

  /** Swapping pairs works pair by pair from the front. */
  lemma SwapPairsUnfold<T>(s: seq<T>)
    requires |s| >= 2
    ensures SwapPairs(s) == [s[1], s[0]] + SwapPairs(s[2..])
  {
    var a := SwapPairs(s);
    var b := [s[1], s[0]] + SwapPairs(s[2..]);
    forall i | 2 <= i < |s|
      ensures a[i] == b[i]
    {
      PartnerShift(i, |s|);
    }
  }

  /** Partners repeat with period two. */
  lemma PartnerShift(i: int, n: int)
    requires 2 <= i
    ensures Partner(i, n) == Partner(i - 2, n - 2) + 2
  {
    assert (i - 2) % 2 == i % 2;
  }

  /** A partner's partner is the position itself. */
  lemma PartnerTwice(i: int, n: int)
    requires 0 <= i < n
    ensures 0 <= Partner(i, n) < n && Partner(Partner(i, n), n) == i
  {
    if i % 2 == 1 {
      assert (i - 1) % 2 == 0;
    } else if i + 1 < n {
      assert (i + 1) % 2 == 1;
    }
  }

  /** Swapping pairs twice gives the original order back. */
  lemma SwapPairsInvolutive<T>(s: seq<T>)
    ensures SwapPairs(SwapPairs(s)) == s
  {
    var r := SwapPairs(SwapPairs(s));
    forall i | 0 <= i < |s|
      ensures r[i] == s[i]
    {
      PartnerTwice(i, |s|);
    }
  }

  /** Swapping pairs keeps the multiset of elements. */
  lemma {:induction false} SwapPairsPermutes<T>(s: seq<T>)
    ensures multiset(SwapPairs(s)) == multiset(s)
  {
    if |s| >= 2 {
      SwapPairsPermutes(s[2..]);
      SwapPairsUnfold(s);
      assert s == [s[0], s[1]] + s[2..];
    }
  }

  /** Swapping a prefix of even length one more pair at a time: the shape
      of `q_swap`'s loop. */
  lemma SwapPairsExtend<T>(s: seq<T>, e: int)
    requires 0 <= e && e % 2 == 0 && e + 2 <= |s|
    ensures SwapPairs(s[..e + 2]) == SwapPairs(s[..e]) + [s[e + 1], s[e]]
  {
    var a := SwapPairs(s[..e + 2]);
    var b := SwapPairs(s[..e]) + [s[e + 1], s[e]];
    assert |a| == |b|;
    forall i | 0 <= i < |a|
      ensures a[i] == b[i]
    {
      if i < e {
        assert Partner(i, e + 2) == Partner(i, e) by {
          if i % 2 == 0 {
            assert i + 1 < e;
          }
        }
      } else if i == e {
        assert Partner(i, e + 2) == e + 1;
      } else {
        assert i % 2 == 1;
      }
    }
  }

  /** Position `i` of `vs` differs from both of its neighbours. This is the
      test `q_delete_dup` applies: an element equal to its successor is
      deleted, and so is the last element of a run of equal ones. */
  predicate Lonely(vs: seq<Str>, i: int)
    requires 0 <= i < |vs|
  {
    && (i == 0 || vs[i - 1] != vs[i])
    && (i + 1 == |vs| || vs[i] != vs[i + 1])
  }

  /** The elements among the first `k` of `s` whose value in `vs` is lonely. */
  function KeepLonely<T>(s: seq<T>, vs: seq<Str>, k: int): (r: seq<T>)
    requires |s| == |vs| && 0 <= k <= |s|
    ensures |r| <= k
    ensures forall x :: x in r ==> x in s[..k]
  {
    if k == 0 then []
    else KeepLonely(s, vs, k - 1) + (if Lonely(vs, k - 1) then [s[k - 1]] else [])
  }

  /** The order `q_delete_dup` leaves: every maximal run of two or more
      equal neighbours removed entirely. */
  function DropRuns<T>(s: seq<T>, vs: seq<Str>): (r: seq<T>)
    requires |s| == |vs|
  {
    KeepLonely(s, vs, |s|)
  }

  /** The values ascend (non-strictly) under `strcmp`. */
  predicate SortedValues(vs: seq<Str>)
  {
    forall i :: 0 < i < |vs| ==> Leq(vs[i - 1], vs[i])
  }

  /** A sorted sequence is ordered between any two positions. */
  lemma {:induction false} SortedValuesBetween(vs: seq<Str>, a: int, b: int)
    requires SortedValues(vs)
    requires 0 <= a <= b < |vs|
    ensures Leq(vs[a], vs[b])
    decreases b - a
  {
    if a == b {
      StrcmpFlip(vs[a], vs[a]);
    } else {
      SortedValuesBetween(vs, a + 1, b);
      LeqTransitive(vs[a], vs[a + 1], vs[b]);
    }
  }

  /** Value `vs[i]` occurs nowhere else in `vs`. */
  predicate OccursOnce(vs: seq<Str>, i: int)
    requires 0 <= i < |vs|
  {
    forall j :: 0 <= j < |vs| && j != i ==> vs[j] != vs[i]
  }

  /** On sorted values, an element differs from its neighbours exactly
      when its value occurs once: so `q_delete_dup` on a sorted queue
      keeps precisely the values that were unique. */
  lemma SortedLonelyIffOnce(vs: seq<Str>, i: int)
    requires SortedValues(vs)
    requires 0 <= i < |vs|
    ensures Lonely(vs, i) <==> OccursOnce(vs, i)
  {
    if Lonely(vs, i) {
      forall j | 0 <= j < |vs| && j != i
        ensures vs[j] != vs[i]
      {
        if j < i {
          SortedValuesBetween(vs, j, i - 1);
          SortedValuesBetween(vs, i - 1, i);
          if vs[j] == vs[i] {
            LeqAntisymmetric(vs[i - 1], vs[i]);
          }
        } else {
          SortedValuesBetween(vs, i + 1, j);
          SortedValuesBetween(vs, i, i + 1);
          if vs[j] == vs[i] {
            LeqAntisymmetric(vs[i], vs[i + 1]);
          }
        }
      }
    }
  }

  /** The values that occur exactly once among the first `k`, in order. */
  function Singletons(vs: seq<Str>, k: int): (r: seq<Str>)
    requires 0 <= k <= |vs|
  {
    if k == 0 then []
    else Singletons(vs, k - 1) + (if OccursOnce(vs, k - 1) then [vs[k - 1]] else [])
  }

  /** On sorted input, dropping the runs leaves exactly the values that
      occur once, in their original order. */
  lemma {:induction false} DropRunsOnSortedKeepsSingletons(vs: seq<Str>, k: int)
    requires SortedValues(vs)
    requires 0 <= k <= |vs|
    ensures KeepLonely(vs, vs, k) == Singletons(vs, k)
  {
    if k > 0 {
      DropRunsOnSortedKeepsSingletons(vs, k - 1);
      SortedLonelyIffOnce(vs, k - 1);
    }
  }
}
