/** Shared vocabulary of the frame-selection model: optional values,
    results with an error side, and the ordering predicates on index
    sequences that the properties of the pipeline are stated with. */
module Common {

  datatype Option<T> = None | Some(value: T)

  datatype Result<T, E> = Ok(value: T) | Err(error: E)

  /** Ascending, repeats allowed (what Python's `sorted` promises). */
  predicate Sorted(s: seq<int>)
  {
    forall i, j :: 0 <= i < j < |s| ==> s[i] <= s[j]
  }

  /** Ascending without repeats. */
  predicate StrictlyIncreasing(s: seq<int>)
  {
    forall i, j :: 0 <= i < j < |s| ==> s[i] < s[j]
  }

  /** No value occurs twice. */
  predicate Distinct<T(==)>(s: seq<T>)
  {
    forall i, j :: 0 <= i < j < |s| ==> s[i] != s[j]
  }

  /** The indices 0, 1, ..., n - 1 in order. */
  function Range(n: nat): (r: seq<nat>)
    ensures |r| == n
    ensures forall k :: 0 <= k < n ==> r[k] == k
  {
    seq(n, k requires 0 <= k => k)
  }

  /** How many entries of `s` (with repeats) belong to `keys`. */
  function CountIn<K>(s: seq<K>, keys: set<K>): (n: nat)
    ensures n <= |s|
  {
    if s == [] then 0
    else CountIn(s[..|s| - 1], keys) + (if s[|s| - 1] in keys then 1 else 0)
  }

  lemma {:induction false} CountInAppend<K>(a: seq<K>, b: seq<K>, keys: set<K>)
    ensures CountIn(a + b, keys) == CountIn(a, keys) + CountIn(b, keys)
    decreases |b|
  {
    if b != [] {
      var b' := b[..|b| - 1];
      CountInAppend(a, b', keys);
      assert (a + b)[..|a + b| - 1] == a + b';
      assert (a + b)[|a + b| - 1] == b[|b| - 1];
      assert CountIn(a + b, keys) == CountIn(a + b', keys) + (if b[|b| - 1] in keys then 1 else 0);
    } else {
      assert a + b == a;
    }
  }

  lemma {:induction false} CountInAllOrNone<K>(s: seq<K>, keys: set<K>)
    ensures (forall k :: 0 <= k < |s| ==> s[k] in keys) ==> CountIn(s, keys) == |s|
    ensures (forall k :: 0 <= k < |s| ==> s[k] !in keys) ==> CountIn(s, keys) == 0
  {
    if s != [] {
      CountInAllOrNone(s[..|s| - 1], keys);
    }
  }

  /** Taking out entry `i` takes its contribution out of the count. */
  lemma CountInRemove<K>(b: seq<K>, i: nat, keys: set<K>)
    requires i < |b|
    ensures CountIn(b, keys) == CountIn(b[..i] + b[i + 1..], keys) + (if b[i] in keys then 1 else 0)
    ensures multiset(b) == multiset(b[..i] + b[i + 1..]) + multiset{b[i]}
  {
    assert b == b[..i] + [b[i]] + b[i + 1..];
    CountInAppend(b[..i], [b[i]], keys);
    CountInAppend(b[..i] + [b[i]], b[i + 1..], keys);
    CountInAppend(b[..i], b[i + 1..], keys);
    assert [b[i]][..0] == [];
  }

  /** Counting does not depend on the order of the entries. */
  lemma {:induction false} CountInPermutation<K>(a: seq<K>, b: seq<K>, keys: set<K>)
    requires multiset(a) == multiset(b)
    ensures CountIn(a, keys) == CountIn(b, keys)
    decreases |a|
  {
    if a != [] {
      var a', x := a[..|a| - 1], a[|a| - 1];
      assert a == a' + [x];
      assert x in multiset(b);
      var i :| 0 <= i < |b| && b[i] == x;
      var b' := b[..i] + b[i + 1..];
      CountInRemove(b, i, keys);
      assert multiset(a) == multiset(a') + multiset{x};
      assert multiset(a') == multiset(b') by {
        forall y ensures multiset(a')[y] == multiset(b')[y] {
          assert multiset(a)[y] == multiset(b)[y];
        }
      }
      CountInPermutation(a', b', keys);
    }
  }

  /** A concatenation repeats nothing exactly when neither part does and
      the parts share no value. */
  lemma DistinctConcat<T>(a: seq<T>, b: seq<T>)
    ensures Distinct(a + b) <==>
              Distinct(a) && Distinct(b) &&
              forall i, j :: 0 <= i < |a| && 0 <= j < |b| ==> a[i] != b[j]
  {
    var s := a + b;
    if Distinct(s) {
      forall i, j | 0 <= i < |a| && 0 <= j < |b| ensures a[i] != b[j] {
        assert s[i] == a[i] && s[|a| + j] == b[j];
      }
      forall i, j | 0 <= i < j < |b| ensures b[i] != b[j] {
        assert s[|a| + i] == b[i] && s[|a| + j] == b[j];
      }
      forall i, j | 0 <= i < j < |a| ensures a[i] != a[j] {
        assert s[i] == a[i] && s[j] == a[j];
      }
    }
  }
}
