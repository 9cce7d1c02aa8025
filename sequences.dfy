/**
 * The JavaScript array built-ins the graph code relies on, as functions on
 * sequences: `filter`, `indexOf` and the stable `sort` with a numeric
 * comparator, plus the duplicate-free predicate and first-occurrence
 * de-duplication used by the serialised form.
 */
module Sequences {

  /** `Array.prototype.filter`: the elements satisfying `p`, in their original order. */
  function Filter<T>(s: seq<T>, p: T -> bool): (r: seq<T>)
    ensures |r| <= |s|
    ensures forall i :: 0 <= i < |r| ==> r[i] in s && p(r[i])
    ensures forall i :: 0 <= i < |s| && p(s[i]) ==> s[i] in r
  {
    if s == [] then [] else (if p(s[0]) then [s[0]] else []) + Filter(s[1..], p)
  }

  /** Filtering distributes over concatenation, so it keeps relative order. */
  lemma {:induction false} FilterAppend<T>(a: seq<T>, b: seq<T>, p: T -> bool)
    ensures Filter(a + b, p) == Filter(a, p) + Filter(b, p)
  {
    if a == [] {
      assert a + b == b;
    } else {
      assert (a + b)[0] == a[0];
      assert (a + b)[1..] == a[1..] + b;
      FilterAppend(a[1..], b, p);
    }
  }

  /** A filter that keeps every element is the identity. */
  lemma {:induction false} FilterKeepsAll<T>(s: seq<T>, p: T -> bool)
    requires forall x :: x in s ==> p(x)
    ensures Filter(s, p) == s
  {
    if s != [] {
      FilterKeepsAll(s[1..], p);
    }
  }

  /** Two predicates that agree on the elements of `s` filter it alike. */
  lemma {:induction false} FilterExt<T>(s: seq<T>, p: T -> bool, q: T -> bool)
    requires forall x :: x in s ==> p(x) == q(x)
    ensures Filter(s, p) == Filter(s, q)
  {
    if s != [] {
      FilterExt(s[1..], p, q);
    }
  }

  /** Filtering twice is filtering once by the conjunction. */
  lemma {:induction false} FilterFilter<T>(s: seq<T>, p: T -> bool, q: T -> bool, pq: T -> bool)
    requires forall x :: pq(x) == (p(x) && q(x))
    ensures Filter(Filter(s, p), q) == Filter(s, pq)
  {
    if s != [] {
      FilterFilter(s[1..], p, q, pq);
      var head := if p(s[0]) then [s[0]] else [];
      FilterAppend(head, Filter(s[1..], p), q);
    }
  }

  ghost predicate Distinct<T>(s: seq<T>) {
    forall i, j :: 0 <= i < j < |s| ==> s[i] != s[j]
  }

  /** A filtered duplicate-free sequence stays duplicate-free. */
  lemma {:induction false} FilterDistinct<T>(s: seq<T>, p: T -> bool)
    requires Distinct(s)
    ensures Distinct(Filter(s, p))
  {
    if s != [] {
      FilterDistinct(s[1..], p);
      var r := Filter(s, p);
      var t := Filter(s[1..], p);
      if p(s[0]) {
        assert s[0] !in s[1..];
        assert s[0] !in t;
        assert r == [s[0]] + t;
        forall i, j | 0 <= i < j < |r| ensures r[i] != r[j] {
          if i == 0 {
            assert r[j] == t[j - 1];
          } else {
            assert r[i] == t[i - 1] && r[j] == t[j - 1];
          }
        }
      } else {
        assert r == t;
      }
    }
  }

  /** `Array.prototype.indexOf`: the first position of `x`, or -1 when absent. */
  function IndexOf<T(==)>(s: seq<T>, x: T): (i: int)
    ensures -1 <= i < |s|
    ensures i == -1 <==> x !in s
    ensures 0 <= i ==> s[i] == x && x !in s[..i]
  {
    if s == [] then -1
    else if s[0] == x then 0
    else
      var j := IndexOf(s[1..], x);
      assert s[1..][..if j < 0 then 0 else j] == s[1..if j < 0 then 1 else j + 1];
      if j == -1 then -1 else j + 1
  }

  /** In a duplicate-free sequence, `indexOf` inverts indexing. */
  lemma IndexOfDistinct<T>(s: seq<T>, i: int)
    requires Distinct(s) && 0 <= i < |s|
    ensures IndexOf(s, s[i]) == i
  {
  }

  /** Keeps the first occurrence of every element, scanning left to right. */
  function Dedup<T(==)>(s: seq<T>): (r: seq<T>)
    ensures Distinct(r)
    ensures forall i :: 0 <= i < |r| ==> r[i] in s
    ensures forall i :: 0 <= i < |s| ==> s[i] in r
  {
    if s == [] then []
    else
      var d := Dedup(s[..|s| - 1]);
      assert forall i :: 0 <= i < |s| - 1 ==> s[i] == s[..|s| - 1][i];
      if s[|s| - 1] in d then d else d + [s[|s| - 1]]
  }

  /** Elements are kept in order of first occurrence: a new last element is appended only when unseen. */
  lemma DedupSnoc<T>(s: seq<T>, x: T)
    ensures Dedup(s + [x]) == if x in Dedup(s) then Dedup(s) else Dedup(s) + [x]
  {
    assert (s + [x])[..|s + [x]| - 1] == s;
  }

  /** `DedupSnoc` for a prefix of a sequence one element longer. */
  lemma DedupPrefix<T>(s: seq<T>, i: int)
    requires 0 <= i < |s|
    ensures Dedup(s[..i + 1]) == if s[i] in Dedup(s[..i]) then Dedup(s[..i]) else Dedup(s[..i]) + [s[i]]
  {
    assert s[..i + 1] == s[..i] + [s[i]];
    DedupSnoc(s[..i], s[i]);
  }

  /** De-duplicating a duplicate-free sequence changes nothing. */
  lemma {:induction false} DedupDistinct<T>(s: seq<T>)
    requires Distinct(s)
    ensures Dedup(s) == s
  {
    if s != [] {
      var init := s[..|s| - 1];
      assert Distinct(init);
      DedupDistinct(init);
      assert s[|s| - 1] !in init;
      assert s == init + [s[|s| - 1]];
    }
  }

  ghost predicate SortedBy<T>(s: seq<T>, key: T -> real) {
    forall i, j :: 0 <= i < j < |s| ==> key(s[i]) <= key(s[j])
  }

  /** Inserts `x` in front of the first element whose key is not smaller than its own. */
  function InsertBy<T>(x: T, s: seq<T>, key: T -> real): (r: seq<T>)
    ensures |r| == |s| + 1
    ensures multiset(r) == multiset(s) + multiset{x}
  {
    if s == [] || key(x) <= key(s[0]) then [x] + s
    else
      assert s == [s[0]] + s[1..];
      [s[0]] + InsertBy(x, s[1..], key)
  }

  /** Inserting into a sorted sequence keeps it sorted. */
  lemma {:induction false} InsertBySorted<T>(x: T, s: seq<T>, key: T -> real)
    requires SortedBy(s, key)
    ensures SortedBy(InsertBy(x, s, key), key)
  {
    if s == [] || key(x) <= key(s[0]) {
    } else {
      var t := InsertBy(x, s[1..], key);
      InsertBySorted(x, s[1..], key);
      forall i | 0 <= i < |t| ensures key(s[0]) <= key(t[i]) {
        InsertedFrom(x, s[1..], key, i);
      }
      ConsSorted(s[0], t, key);
    }
  }

  /** Every element of an insertion is the inserted one or comes from the sequence inserted into. */
  lemma InsertedFrom<T>(x: T, s: seq<T>, key: T -> real, i: int)
    requires 0 <= i < |s| + 1
    ensures var t := InsertBy(x, s, key); t[i] == x || exists m :: 0 <= m < |s| && s[m] == t[i]
  {
    var t := InsertBy(x, s, key);
    assert t[i] in multiset(t);
  }

  /** A sorted sequence stays sorted behind an element no larger than its members. */
  lemma ConsSorted<T>(a: T, t: seq<T>, key: T -> real)
    requires SortedBy(t, key)
    requires forall i :: 0 <= i < |t| ==> key(a) <= key(t[i])
    ensures SortedBy([a] + t, key)
  {
    var r := [a] + t;
    forall i, j | 0 <= i < j < |r| ensures key(r[i]) <= key(r[j]) {
      if i > 0 {
        assert r[i] == t[i - 1] && r[j] == t[j - 1];
      }
    }
  }

  /**
   * `Array.prototype.sort` with the comparator `(a, b) => key(a) - key(b)`.
   * The sort is stable (ECMAScript 2019 onwards); here it is an insertion sort.
   */
  function SortBy<T>(s: seq<T>, key: T -> real): (r: seq<T>)
    ensures |r| == |s|
    ensures multiset(r) == multiset(s)
    ensures SortedBy(r, key)
  {
    if s == [] then []
    else
      assert s == [s[0]] + s[1..];
      InsertBySorted(s[0], SortBy(s[1..], key), key);
      InsertBy(s[0], SortBy(s[1..], key), key)
  }

  function KeyIs<T>(key: T -> real, k: real): T -> bool {
    x => key(x) == k
  }

  lemma {:induction false} FilterSingleton<T>(x: T, p: T -> bool)
    ensures Filter([x], p) == if p(x) then [x] else []
  {
    assert [x][1..] == [];
  }

  lemma SortedTail<T>(s: seq<T>, key: T -> real)
    requires SortedBy(s, key) && s != []
    ensures SortedBy(s[1..], key)
  {
    forall i, j | 0 <= i < j < |s| - 1 ensures key(s[1..][i]) <= key(s[1..][j]) {
      assert s[1..][i] == s[i + 1] && s[1..][j] == s[j + 1];
    }
  }

  lemma InsertByUnfold<T>(x: T, s: seq<T>, key: T -> real)
    requires s != [] && key(s[0]) < key(x)
    ensures InsertBy(x, s, key) == [s[0]] + InsertBy(x, s[1..], key)
  {
  }

  lemma FilterPastHead<T>(s0: T, x: T, t: seq<T>, rest: seq<T>, p: T -> bool)
    requires p(x) ==> !p(s0)
    requires Filter(t, p) == (if p(x) then [x] else []) + Filter(rest, p)
    ensures Filter([s0] + t, p) == (if p(x) then [x] else []) + Filter([s0] + rest, p)
  {
    FilterSingleton(s0, p);
    FilterAppend([s0], t, p);
    FilterAppend([s0], rest, p);
    if p(x) {
      assert Filter([s0], p) == [];
      assert Filter([s0] + t, p) == Filter(t, p);
      assert Filter([s0] + rest, p) == Filter(rest, p);
    } else {
      assert Filter(t, p) == Filter(rest, p);
    }
  }

  lemma {:induction false} InsertByStable<T>(x: T, s: seq<T>, key: T -> real, k: real)
    requires SortedBy(s, key)
    ensures Filter(InsertBy(x, s, key), KeyIs(key, k))
         == (if key(x) == k then [x] else []) + Filter(s, KeyIs(key, k))
  {
    var p := KeyIs(key, k);
    FilterSingleton(x, p);
    if s == [] || key(x) <= key(s[0]) {
      FilterAppend([x], s, p);
    } else {
      InsertByUnfold(x, s, key);
      SortedTail(s, key);
      InsertByStable(x, s[1..], key, k);
      FilterPastHead(s[0], x, InsertBy(x, s[1..], key), s[1..], p);
      assert [s[0]] + s[1..] == s;
    }
  }

  /**
   * Stability: among the elements of any one key, the sorted sequence keeps
   * their original order.
   */
  lemma {:induction false} SortByStable<T>(s: seq<T>, key: T -> real, k: real)
    ensures Filter(SortBy(s, key), KeyIs(key, k)) == Filter(s, KeyIs(key, k))
  {
    if s != [] {
      SortByStable(s[1..], key, k);
      InsertByStable(s[0], SortBy(s[1..], key), key, k);
    }
  }

  /** `i` is the first position holding a minimal key. */
  ghost predicate IsFirstMin<T>(s: seq<T>, key: T -> real, i: int) {
    && 0 <= i < |s|
    && (forall j :: 0 <= j < |s| ==> key(s[i]) <= key(s[j]))
    && (forall j :: 0 <= j < i ==> key(s[i]) < key(s[j]))
  }

  lemma SortByUnfold<T>(s: seq<T>, key: T -> real)
    requires s != []
    ensures SortBy(s, key) == InsertBy(s[0], SortBy(s[1..], key), key)
  {
  }

  lemma InsertByHead<T>(x: T, s: seq<T>, key: T -> real)
    ensures InsertBy(x, s, key)[0] == if s == [] || key(x) <= key(s[0]) then x else s[0]
  {
  }

  /** Dropping the head of a sequence whose earliest minimum lies further on keeps that minimum. */
  lemma FirstMinTail<T>(s: seq<T>, key: T -> real, i: int)
    requires IsFirstMin(s, key, i) && i > 0
    ensures IsFirstMin(s[1..], key, i - 1)
  {
    var rest := s[1..];
    forall j | 0 <= j < |rest| ensures key(rest[i - 1]) <= key(rest[j]) {
      assert rest[j] == s[j + 1];
    }
    forall j | 0 <= j < i - 1 ensures key(rest[i - 1]) < key(rest[j]) {
      assert rest[j] == s[j + 1];
    }
  }

  /** When the head is a minimum, nothing in the sorted rest has a smaller key. */
  lemma HeadBelowSortedRest<T>(s: seq<T>, key: T -> real)
    requires IsFirstMin(s, key, 0) && |s| > 1
    ensures key(s[0]) <= key(SortBy(s[1..], key)[0])
  {
    var rest := s[1..];
    var t := SortBy(rest, key);
    assert t[0] in multiset(rest);
    var m :| 0 <= m < |rest| && rest[m] == t[0];
    assert s[m + 1] == t[0];
  }

  /** A minimal head stays in front: inserting it into the sorted rest puts it first. */
  lemma SortByHeadFirst<T>(s: seq<T>, key: T -> real)
    requires IsFirstMin(s, key, 0)
    ensures SortBy(s, key)[0] == s[0]
  {
    SortByUnfold(s, key);
    InsertByHead(s[0], SortBy(s[1..], key), key);
    if |s| > 1 {
      HeadBelowSortedRest(s, key);
    }
  }

  /** A head strictly above the sorted rest's head is inserted behind it. */
  lemma SortByHeadBehind<T>(s: seq<T>, key: T -> real, i: int)
    requires IsFirstMin(s, key, i) && i > 0
    requires SortBy(s[1..], key)[0] == s[i]
    ensures SortBy(s, key)[0] == s[i]
  {
    SortByUnfold(s, key);
    InsertByHead(s[0], SortBy(s[1..], key), key);
    assert key(s[i]) < key(s[0]);
  }

  /** The head of the stably sorted sequence is the earliest element of minimal key. */
  lemma {:induction false} SortByHead<T>(s: seq<T>, key: T -> real, i: int)
    requires IsFirstMin(s, key, i)
    ensures SortBy(s, key)[0] == s[i]
  {
    if i == 0 {
      SortByHeadFirst(s, key);
    } else {
      FirstMinTail(s, key, i);
      SortByHead(s[1..], key, i - 1);
      assert s[1..][i - 1] == s[i];
      SortByHeadBehind(s, key, i);
    }
  }
}
