/** Python's `sorted(...)` on a list of frame indices
    (scripts/kmeans_frame_selection.py, line 109), as an insertion sort:
    the result is ascending and holds exactly the same values, each as
    often as the input does. */
module Sorting {
  import opened Common

  /** Puts `x` into its place in the ascending sequence `s`, after any
      entries equal to it. */
  function Insert(x: nat, s: seq<nat>): (r: seq<nat>)
    requires Sorted(s)
    ensures Sorted(r)
    ensures multiset(r) == multiset(s) + multiset{x}
    ensures |r| == |s| + 1
    ensures r[0] == x || (s != [] && r[0] == s[0])
  {
    if s == [] then [x]
    else if x < s[0] then
      ConsSorted(x, s);
      [x] + s
    else
      assert s == [s[0]] + s[1..];
      SortedTail(s);
      var rest := Insert(x, s[1..]);
      ConsSorted(s[0], rest);
      [s[0]] + rest
  }

  /** An ascending list stays ascending without its first entry. */
  lemma SortedTail(s: seq<nat>)
    requires Sorted(s) && s != []
    ensures Sorted(s[1..])
  {
    forall i, j | 0 <= i < j < |s| - 1 ensures s[1..][i] <= s[1..][j] {
      assert s[1..][i] == s[i + 1] && s[1..][j] == s[j + 1];
    }
  }

  /** A value no larger than the head of an ascending list can go in
      front of it. */
  lemma ConsSorted(a: nat, s: seq<nat>)
    requires Sorted(s) && (s == [] || a <= s[0])
    ensures Sorted([a] + s)
  {
    var r := [a] + s;
    forall i, j | 0 <= i < j < |r| ensures r[i] <= r[j] {
      if i == 0 {
        assert r[j] == s[j - 1] && s[0] <= s[j - 1];
      } else {
        assert r[i] == s[i - 1] && r[j] == s[j - 1];
      }
    }
  }

  function SortAscending(s: seq<nat>): (r: seq<nat>)
    ensures Sorted(r)
    ensures multiset(r) == multiset(s)
    ensures |r| == |s|
  {
    if s == [] then []
    else
      assert s == s[..|s| - 1] + [s[|s| - 1]];
      Insert(s[|s| - 1], SortAscending(s[..|s| - 1]))
  }

  /** Sorting keeps how many entries belong to any given set. */
  lemma SortKeepsCounts(s: seq<nat>, keys: set<nat>)
    ensures CountIn(SortAscending(s), keys) == CountIn(s, keys)
  {
    CountInPermutation(SortAscending(s), s, keys);
  }

  /** Sorting keeps every entry below any bound the input respects. */
  lemma SortKeepsBound(s: seq<nat>, bound: nat)
    requires forall k :: 0 <= k < |s| ==> s[k] < bound
    ensures forall k :: 0 <= k < |SortAscending(s)| ==> SortAscending(s)[k] < bound
  {
    var r := SortAscending(s);
    forall k | 0 <= k < |r|
      ensures r[k] < bound
    {
      assert r[k] in multiset(s);
    }
  }

  /** A value found at two positions is counted at least twice. */
  lemma RepeatCountsTwice<T>(s: seq<T>, i: nat, j: nat)
    requires i < j < |s| && s[i] == s[j]
    ensures multiset(s)[s[i]] >= 2
  {
    assert s == s[..i] + [s[i]] + s[i + 1..j] + [s[j]] + s[j + 1..];
  }

  lemma {:induction false} DistinctCountsOnce<T>(s: seq<T>, v: T)
    requires Distinct(s)
    ensures multiset(s)[v] <= 1
  {
    if s != [] {
      var init := s[..|s| - 1];
      assert s == init + [s[|s| - 1]];
      DistinctCountsOnce(init, v);
      if v == s[|s| - 1] {
        assert v !in init;
      }
    }
  }

  /** Sorting a list without repeats gives a strictly ascending list;
      sorting never removes a repeat that is there. */
  lemma SortedDistinctIsStrict(s: seq<nat>)
    ensures Distinct(s) <==> StrictlyIncreasing(SortAscending(s))
  {
    var r := SortAscending(s);
    if Distinct(s) {
      forall i, j | 0 <= i < j < |r|
        ensures r[i] < r[j]
      {
        if r[i] == r[j] {
          RepeatCountsTwice(r, i, j);
          DistinctCountsOnce(s, r[i]);
          assert false;
        }
      }
    }
    if StrictlyIncreasing(r) {
      forall i, j | 0 <= i < j < |s|
        ensures s[i] != s[j]
      {
        if s[i] == s[j] {
          RepeatCountsTwice(s, i, j);
          DistinctCountsOnce(r, s[i]);
          assert false;
        }
      }
    }
  }

  /** An ascending list is left as it is. */
  lemma {:induction false} SortKeepsSorted(s: seq<nat>)
    requires Sorted(s)
    ensures SortAscending(s) == s
  {
    if s != [] {
      var init, last := s[..|s| - 1], s[|s| - 1];
      assert s == init + [last];
      assert SortAscending(init) == init by {
        SortedSplit(init, last);
        SortKeepsSorted(init);
      }
      assert Insert(last, init) == s by {
        SortedSplit(init, last);
        InsertAtEnd(last, init);
      }
      assert SortAscending(s) == Insert(last, SortAscending(init));
    }
  }

  /** Without its last entry an ascending list is still ascending, and
      that entry is at least every other one. */
  lemma SortedSplit(init: seq<nat>, last: nat)
    requires Sorted(init + [last])
    ensures Sorted(init)
    ensures forall k :: 0 <= k < |init| ==> init[k] <= last
  {
    var s := init + [last];
    forall i, j | 0 <= i < j < |init| ensures init[i] <= init[j] {
      assert init[i] == s[i] && init[j] == s[j];
    }
    forall k | 0 <= k < |init| ensures init[k] <= last {
      assert init[k] == s[k] && last == s[|init|];
    }
  }

  lemma {:induction false} InsertAtEnd(x: nat, s: seq<nat>)
    requires Sorted(s) && forall k :: 0 <= k < |s| ==> s[k] <= x
    ensures Insert(x, s) == s + [x]
  {
    if s != [] {
      var rest := s[1..];
      SortedTail(s);
      assert forall k :: 0 <= k < |rest| ==> rest[k] <= x by {
        forall k | 0 <= k < |rest| ensures rest[k] <= x {
          assert rest[k] == s[k + 1];
        }
      }
      InsertAtEnd(x, rest);
      assert Insert(x, s) == [s[0]] + Insert(x, rest);
      assert [s[0]] + (rest + [x]) == s + [x];
    }
  }
}
