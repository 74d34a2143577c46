/** Python's list sort, used both by sorted(...) and by list.sort(key=...):
    a stable sort. It is modelled as insertion sort over a relation le, where
    le(a, b) means "a does not sort after b". */
module Sorting {

  ghost predicate TotalPreorder<T(!new)>(le: (T, T) -> bool) {
    && (forall a, b :: le(a, b) || le(b, a))
    && (forall a, b, c :: le(a, b) && le(b, c) ==> le(a, c))
  }

  /** A total preorder in which only identical values tie. */
  ghost predicate TotalOrder<T(!new)>(le: (T, T) -> bool) {
    && TotalPreorder(le)
    && Antisymmetric(le)
  }

  ghost predicate Antisymmetric<T(!new)>(le: (T, T) -> bool) {
    forall a, b :: le(a, b) && le(b, a) ==> a == b
  }

  ghost predicate SortedBy<T>(le: (T, T) -> bool, s: seq<T>) {
    forall i, j :: 0 <= i < j < |s| ==> le(s[i], s[j])
  }

  /** Puts x in front of the first element it does not sort after, so x stays
      ahead of every element that ties with it. */
  function Insert<T(!new)>(le: (T, T) -> bool, x: T, s: seq<T>): (r: seq<T>)
    requires TotalPreorder(le) && SortedBy(le, s)
    ensures SortedBy(le, r)
    ensures multiset(r) == multiset(s) + multiset{x}
  {
    if s == [] then [x]
    else if le(x, s[0]) then [x] + s
    else
      var t := Insert(le, x, s[1..]);
      assert s == [s[0]] + s[1..];
      assert forall k :: 0 <= k < |t| ==> le(s[0], t[k]) by {
        forall k | 0 <= k < |t| ensures le(s[0], t[k]) {
          assert t[k] in multiset(t);
          if t[k] != x {
            assert t[k] in multiset(s[1..]);
            var m :| 0 <= m < |s[1..]| && s[1..][m] == t[k];
            assert s[m + 1] == t[k];
          }
        }
      }
      [s[0]] + t
  }

  /** Stable insertion sort: the result is ordered by le and is a permutation
      of the input. */
  function Sort<T(!new)>(le: (T, T) -> bool, s: seq<T>): (r: seq<T>)
    requires TotalPreorder(le)
    ensures SortedBy(le, r)
    ensures multiset(r) == multiset(s)
  {
    if s == [] then []
    else
      assert s == [s[0]] + s[1..];
      Insert(le, s[0], Sort(le, s[1..]))
  }

  /** Where Insert puts x: after exactly the elements that sort strictly
      before it and ahead of the rest, so x precedes every element it ties
      with. When x comes earlier in the input than those elements, as in Sort,
      their order among ties is kept: the sort is stable. */
  lemma {:induction false} InsertPlaces<T(!new)>(le: (T, T) -> bool, x: T, s: seq<T>) returns (i: nat)
    requires TotalPreorder(le) && SortedBy(le, s)
    ensures i <= |s|
    ensures Insert(le, x, s) == s[..i] + [x] + s[i..]
    ensures forall k :: 0 <= k < i ==> !le(x, s[k])
    ensures i < |s| ==> le(x, s[i])
  {
    if s == [] || le(x, s[0]) {
      i := 0;
    } else {
      TailSorted(le, s);
      var j := InsertPlaces(le, x, s[1..]);
      i := j + 1;
      InsertPlacesStep(le, x, s, j);
    }
  }

  /** The step of InsertPlaces: x passes s[0] and lands at position j of s[1..]. */
  lemma InsertPlacesStep<T(!new)>(le: (T, T) -> bool, x: T, s: seq<T>, j: nat)
    requires TotalPreorder(le) && SortedBy(le, s) && s != [] && !le(x, s[0])
    requires SortedBy(le, s[1..]) && j <= |s| - 1
    requires Insert(le, x, s[1..]) == s[1..][..j] + [x] + s[1..][j..]
    requires forall k :: 0 <= k < j ==> !le(x, s[1..][k])
    requires j < |s| - 1 ==> le(x, s[1..][j])
    ensures Insert(le, x, s) == s[..j + 1] + [x] + s[j + 1..]
    ensures forall k :: 0 <= k < j + 1 ==> !le(x, s[k])
    ensures j + 1 < |s| ==> le(x, s[j + 1])
  {
    var t := s[1..];
    SplitAfterHead(s, j);
    assert Insert(le, x, s) == [s[0]] + Insert(le, x, t);
    ConsAssociates(s[0], t[..j], x, t[j..]);
    forall k | 0 < k < j + 1 ensures !le(x, s[k]) {
      assert s[k] == t[k - 1];
    }
  }

  lemma SplitAfterHead<T>(s: seq<T>, j: nat)
    requires s != [] && j <= |s| - 1
    ensures s[..j + 1] == [s[0]] + s[1..][..j]
    ensures s[j + 1..] == s[1..][j..]
  {
  }

  lemma ConsAssociates<T>(a: T, p: seq<T>, x: T, q: seq<T>)
    ensures [a] + (p + [x] + q) == ([a] + p) + [x] + q
  {
  }

  lemma TailSorted<T>(le: (T, T) -> bool, s: seq<T>)
    requires SortedBy(le, s) && s != []
    ensures SortedBy(le, s[1..])
  {
    forall i, j | 0 <= i < j < |s| - 1 ensures le(s[1..][i], s[1..][j]) {
      assert s[1..][i] == s[i + 1] && s[1..][j] == s[j + 1];
    }
  }

  /** Under an antisymmetric relation (in particular a total order) a sorted
      permutation is unique: the result is determined by the input's
      elements, whatever algorithm produced it. */
  lemma {:induction false} SortedUnique<T(!new)>(le: (T, T) -> bool, a: seq<T>, b: seq<T>)
    requires Antisymmetric(le)
    requires SortedBy(le, a) && SortedBy(le, b)
    requires multiset(a) == multiset(b)
    ensures a == b
  {
    if a == [] {
      assert |b| == |multiset(b)| == 0;
    } else {
      assert |b| == |multiset(a)| == |a|;
      HeadsEqual(le, a, b);
      assert a == [a[0]] + a[1..] && b == [b[0]] + b[1..];
      assert multiset(a) == multiset{a[0]} + multiset(a[1..]);
      assert multiset(b) == multiset{b[0]} + multiset(b[1..]);
      assert multiset(a[1..]) == multiset(a) - multiset{a[0]} == multiset(b[1..]);
      TailSorted(le, a);
      TailSorted(le, b);
      SortedUnique(le, a[1..], b[1..]);
    }
  }

  /** Two non-empty sorted permutations start with the same element. */
  lemma HeadsEqual<T(!new)>(le: (T, T) -> bool, a: seq<T>, b: seq<T>)
    requires Antisymmetric(le)
    requires SortedBy(le, a) && SortedBy(le, b)
    requires multiset(a) == multiset(b) && a != [] && b != []
    ensures a[0] == b[0]
  {
    assert a[0] in multiset(b) && b[0] in multiset(a);
  }
}
