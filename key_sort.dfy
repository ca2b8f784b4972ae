/**
 * Sorting a sequence by a string key, in the order of LexOrder.
 *
 * `SortBy` is a stable insertion sort. It serves as the reference for
 * Python's `sorted`: `SortedPermutationUnique` shows that there is only one
 * sorted permutation of a sequence whose equal keys belong to equal
 * elements, so whatever algorithm `sorted` runs, its result is `SortBy`'s.
 */
module KeySort {
  import opened LexOrder

  /** The key of a string is the string itself (sorting a list of `str`). */
  function Id(k: string): string { k }

  predicate SortedBy<T>(s: seq<T>, key: T -> string)
  {
    forall i, j | 0 <= i < j < |s| :: LexLeq(key(s[i]), key(s[j]))
  }

  predicate DistinctBy<T>(s: seq<T>, key: T -> string)
  {
    forall i, j | 0 <= i < j < |s| :: key(s[i]) != key(s[j])
  }

  /** Elements with equal keys are equal elements. */
  ghost predicate KeyDeterminesElement<T>(s: seq<T>, key: T -> string)
  {
    forall i, j | 0 <= i < j < |s| :: key(s[i]) == key(s[j]) ==> s[i] == s[j]
  }

  /** The keys of `s`, in order. */
  function Project<T>(s: seq<T>, key: T -> string): (r: seq<string>)
    ensures |r| == |s|
    ensures forall i | 0 <= i < |s| :: r[i] == key(s[i])
  {
    if s == [] then [] else [key(s[0])] + Project(s[1..], key)
  }

  /** Puts `x` in front of the first element whose key is not below `x`'s. */
  function Insert<T>(x: T, s: seq<T>, key: T -> string): seq<T>
  {
    if s == [] || LexLeq(key(x), key(s[0])) then [x] + s
    else [s[0]] + Insert(x, s[1..], key)
  }

  lemma {:induction false} InsertPermutes<T>(x: T, s: seq<T>, key: T -> string)
    ensures multiset(Insert(x, s, key)) == multiset(s) + multiset{x}
  {
    if s != [] && !LexLeq(key(x), key(s[0])) {
      InsertPermutes(x, s[1..], key);
      assert s == [s[0]] + s[1..];
    }
  }

  lemma {:induction false} InsertSorted<T>(x: T, s: seq<T>, key: T -> string)
    requires SortedBy(s, key)
    ensures SortedBy(Insert(x, s, key), key)
  {
    if s == [] {
    } else if LexLeq(key(x), key(s[0])) {
      forall j | 0 <= j < |s| ensures LexLeq(key(x), key(s[j])) {
        if j > 0 {
          LexLeqTransitive(key(x), key(s[0]), key(s[j]));
        }
      }
    } else {
      var t := Insert(x, s[1..], key);
      InsertSorted(x, s[1..], key);
      InsertPermutes(x, s[1..], key);
      LexLeqTotal(key(x), key(s[0]));
      forall k | 0 <= k < |t| ensures LexLeq(key(s[0]), key(t[k])) {
        assert t[k] in multiset(t);
        if t[k] != x {
          assert t[k] in s[1..];
          var j :| 0 <= j < |s[1..]| && s[1..][j] == t[k];
          assert s[j + 1] == t[k];
        }
      }
    }
  }

  lemma {:induction false} InsertDistinct<T>(x: T, s: seq<T>, key: T -> string)
    requires DistinctBy(s, key)
    requires forall j | 0 <= j < |s| :: key(s[j]) != key(x)
    ensures DistinctBy(Insert(x, s, key), key)
  {
    if s != [] && !LexLeq(key(x), key(s[0])) {
      var t := Insert(x, s[1..], key);
      InsertDistinct(x, s[1..], key);
      InsertPermutes(x, s[1..], key);
      forall k | 0 <= k < |t| ensures key(s[0]) != key(t[k]) {
        assert t[k] in multiset(t);
        if t[k] != x {
          assert t[k] in s[1..];
          var j :| 0 <= j < |s[1..]| && s[1..][j] == t[k];
          assert s[j + 1] == t[k];
        }
      }
    }
  }

  /** Stable insertion sort: the reference for Python's `sorted(..., key=key)`. */
  function SortBy<T>(s: seq<T>, key: T -> string): (r: seq<T>)
    ensures SortedBy(r, key)
    ensures multiset(r) == multiset(s)
  {
    if s == [] then []
    else
      var t := SortBy(s[1..], key);
      InsertSorted(s[0], t, key);
      InsertPermutes(s[0], t, key);
      assert s == [s[0]] + s[1..];
      Insert(s[0], t, key)
  }

  /** Sorting keeps keys distinct. */
  lemma {:induction false} SortDistinct<T>(s: seq<T>, key: T -> string)
    requires DistinctBy(s, key)
    ensures DistinctBy(SortBy(s, key), key)
  {
    if s != [] {
      var t := SortBy(s[1..], key);
      SortDistinct(s[1..], key);
      forall k | 0 <= k < |t| ensures key(t[k]) != key(s[0]) {
        assert t[k] in multiset(t);
        assert t[k] in s[1..];
        var j :| 0 <= j < |s[1..]| && s[1..][j] == t[k];
        assert s[j + 1] == t[k];
      }
      InsertDistinct(s[0], t, key);
    }
  }

  /** Sorting what is already sorted changes nothing. */
  lemma {:induction false} SortedIsFixpoint<T>(s: seq<T>, key: T -> string)
    requires SortedBy(s, key)
    ensures SortBy(s, key) == s
  {
    if s != [] {
      SortedIsFixpoint(s[1..], key);
      assert s == [s[0]] + s[1..];
    }
  }

  /**
   * There is only one sorted permutation: two sorted sequences with the
   * same elements are equal, provided equal keys only belong to equal
   * elements.
   */
  lemma TailMultiset<T>(s: seq<T>)
    requires s != []
    ensures multiset(s[1..]) == multiset(s) - multiset{s[0]}
  {
    assert s == [s[0]] + s[1..];
  }

  /** Sorted permutations of each other start with the same element. */
  lemma SortedPermutationsSameHead<T>(a: seq<T>, b: seq<T>, key: T -> string)
    requires a != [] && b != []
    requires SortedBy(a, key) && SortedBy(b, key)
    requires multiset(a) == multiset(b)
    requires KeyDeterminesElement(a, key)
    ensures a[0] == b[0]
  {
    assert a[0] in multiset(b);
    var i :| 0 <= i < |b| && b[i] == a[0];
    assert b[0] in multiset(a);
    var j :| 0 <= j < |a| && a[j] == b[0];
    LexLeqReflexive(key(a[0]));
    LexLeqAntisymmetric(key(a[0]), key(b[0]));
  }

  /**
   * There is only one sorted permutation: two sorted sequences with the
   * same elements are equal, provided equal keys only belong to equal
   * elements.
   */
  lemma {:induction false} SortedPermutationUnique<T>(a: seq<T>, b: seq<T>, key: T -> string)
    requires SortedBy(a, key) && SortedBy(b, key)
    requires multiset(a) == multiset(b)
    requires KeyDeterminesElement(a, key)
    ensures a == b
  {
    assert |a| == |multiset(a)| == |multiset(b)| == |b|;
    if a != [] {
      SortedPermutationsSameHead(a, b, key);
      TailMultiset(a);
      TailMultiset(b);
      SortedPermutationUnique(a[1..], b[1..], key);
      assert a == [a[0]] + a[1..];
      assert b == [b[0]] + b[1..];
    }
  }

  lemma {:induction false} InsertCommutes<T>(x: T, s: seq<T>, key: T -> string)
    ensures Project(Insert(x, s, key), key) == Insert(key(x), Project(s, key), Id)
  {
    if s != [] && !LexLeq(key(x), key(s[0])) {
      InsertCommutes(x, s[1..], key);
      assert Project(s, key)[1..] == Project(s[1..], key);
    }
  }

  /** Sorting by key and then taking the keys = taking the keys and sorting them. */
  lemma {:induction false} SortCommutes<T>(s: seq<T>, key: T -> string)
    ensures Project(SortBy(s, key), key) == SortBy(Project(s, key), Id)
  {
    if s != [] {
      SortCommutes(s[1..], key);
      InsertCommutes(s[0], SortBy(s[1..], key), key);
      assert Project(s, key)[1..] == Project(s[1..], key);
    }
  }

  /** A sequence is sorted by key exactly when its list of keys is sorted. */
  lemma ProjectSorted<T>(s: seq<T>, key: T -> string)
    ensures SortedBy(Project(s, key), Id) <==> SortedBy(s, key)
  {
  }
}
