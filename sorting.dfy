/** What the schema loader needs of Python's `sorted()`: a stable sort by a key,
    written here as an insertion sort, with Python's ordering of strings. */
module Sorting {
  import opened Dicts

  /** Python's `<=` on `str`: code point by code point, a proper prefix first. */
  predicate LexLe(a: string, b: string) {
    if a == [] then true
    else if b == [] then false
    else if a[0] != b[0] then a[0] < b[0]
    else LexLe(a[1..], b[1..])
  }

  lemma {:induction false} LexLeTotal(a: string, b: string)
    ensures LexLe(a, b) || LexLe(b, a)
  {
    if a != [] && b != [] && a[0] == b[0] {
      LexLeTotal(a[1..], b[1..]);
    }
  }

  lemma {:induction false} LexLeAntisymmetric(a: string, b: string)
    requires LexLe(a, b) && LexLe(b, a)
    ensures a == b
  {
    if a != [] && b != [] {
      LexLeAntisymmetric(a[1..], b[1..]);
      assert a == [a[0]] + a[1..] && b == [b[0]] + b[1..];
    }
  }

  lemma {:induction false} LexLeTransitive(a: string, b: string, c: string)
    requires LexLe(a, b) && LexLe(b, c)
    ensures LexLe(a, c)
  {
    if a != [] && b != [] && c != [] && a[0] == b[0] == c[0] {
      LexLeTransitive(a[1..], b[1..], c[1..]);
    }
  }

  ghost predicate Total<T(!new)>(le: (T, T) -> bool) {
    forall a, b :: le(a, b) || le(b, a)
  }

  /** Every element is `le` its successor. */
  predicate Sorted<T>(s: seq<T>, le: (T, T) -> bool) {
    forall i :: 0 <= i < |s| - 1 ==> le(s[i], s[i + 1])
  }

  /** `[f(x) for x in s]`. */
  function Project<T, U>(s: seq<T>, f: T -> U): (r: seq<U>)
    ensures |r| == |s|
    ensures forall i :: 0 <= i < |s| ==> r[i] == f(s[i])
  {
    if s == [] then [] else [f(s[0])] + Project(s[1..], f)
  }

  /** Places `x` before the first element it is `le`; so an element inserted
      later in the recursion of `Sort` (an earlier one of the input) stays in
      front of equal ones, which is what makes the sort stable. */
  function Insert<T>(x: T, s: seq<T>, le: (T, T) -> bool): (r: seq<T>)
    ensures |r| == |s| + 1
  {
    if s == [] || le(x, s[0]) then [x] + s else [s[0]] + Insert(x, s[1..], le)
  }

  function Sort<T>(s: seq<T>, le: (T, T) -> bool): (r: seq<T>)
    ensures |r| == |s|
  {
    if s == [] then [] else Insert(s[0], Sort(s[1..], le), le)
  }

  lemma {:induction false} InsertSorted<T(!new)>(x: T, s: seq<T>, le: (T, T) -> bool)
    requires Total(le) && Sorted(s, le)
    ensures Sorted(Insert(x, s, le), le)
    ensures s != [] ==> Insert(x, s, le)[0] == x || Insert(x, s, le)[0] == s[0]
  {
    if s != [] && !le(x, s[0]) {
      var rest := Insert(x, s[1..], le);
      assert Sorted(s[1..], le);
      InsertSorted(x, s[1..], le);
      assert le(s[0], x);
      assert s[1..] != [] ==> le(s[0], s[1]);
      assert le(s[0], rest[0]);
      var r := [s[0]] + rest;
      forall i | 0 <= i < |r| - 1 ensures le(r[i], r[i + 1]) {
        if i > 0 { assert r[i] == rest[i - 1] && r[i + 1] == rest[i]; }
      }
    }
  }

  lemma {:induction false} SortSorted<T(!new)>(s: seq<T>, le: (T, T) -> bool)
    requires Total(le)
    ensures Sorted(Sort(s, le), le)
  {
    if s != [] {
      SortSorted(s[1..], le);
      InsertSorted(s[0], Sort(s[1..], le), le);
    }
  }

  lemma {:induction false} InsertPermutes<T, U>(x: T, s: seq<T>, le: (T, T) -> bool, f: T -> U)
    ensures multiset(Project(Insert(x, s, le), f)) == multiset{f(x)} + multiset(Project(s, f))
  {
    if s != [] && !le(x, s[0]) {
      InsertPermutes(x, s[1..], le, f);
      assert Project(s, f) == [f(s[0])] + Project(s[1..], f);
      assert Project(Insert(x, s, le), f) == [f(s[0])] + Project(Insert(x, s[1..], le), f);
    } else {
      assert Project(Insert(x, s, le), f) == [f(x)] + Project(s, f);
    }
  }

  /** The sort is a permutation, seen through any projection `f`. */
  lemma {:induction false} SortPermutes<T, U>(s: seq<T>, le: (T, T) -> bool, f: T -> U)
    ensures multiset(Project(Sort(s, le), f)) == multiset(Project(s, f))
  {
    if s != [] {
      SortPermutes(s[1..], le, f);
      InsertPermutes(s[0], Sort(s[1..], le), le, f);
      assert Project(s, f) == [f(s[0])] + Project(s[1..], f);
    }
  }

  /** The sort rearranges the elements themselves. */
  lemma SortElements<T>(s: seq<T>, le: (T, T) -> bool)
    ensures multiset(Sort(s, le)) == multiset(s)
  {
    SortPermutes(s, le, x => x);
    assert Project(Sort(s, le), x => x) == Sort(s, le);
    assert Project(s, x => x) == s;
  }

  predicate NonDecreasing(s: seq<int>) {
    forall i, j :: 0 <= i < j < |s| ==> s[i] <= s[j]
  }

  lemma {:induction false} AdjacentNonDecreasing(s: seq<int>)
    requires forall i :: 0 <= i < |s| - 1 ==> s[i] <= s[i + 1]
    ensures NonDecreasing(s)
  {
    if |s| > 1 {
      AdjacentNonDecreasing(s[1..]);
      forall j | 0 < j < |s| ensures s[0] <= s[j] {
        assert s[1..][0] <= s[1..][j - 1];
      }
    }
  }

  lemma HeadIsLeast(s: seq<int>, x: int)
    requires NonDecreasing(s) && x in s
    ensures s[0] <= x
  {
    var j :| 0 <= j < |s| && s[j] == x;
    assert j == 0 || s[0] <= s[j];
  }

  lemma TailMultiset(s: seq<int>)
    requires s != []
    ensures multiset(s[1..]) == multiset(s) - multiset{s[0]}
  {
    assert s == [s[0]] + s[1..];
  }

  lemma TailNonDecreasing(s: seq<int>)
    requires NonDecreasing(s) && s != []
    ensures NonDecreasing(s[1..])
  {
    forall i, j | 0 <= i < j < |s| - 1 ensures s[1..][i] <= s[1..][j] {
      assert s[1..][i] == s[i + 1] && s[1..][j] == s[j + 1];
    }
  }

  /** Two sorted sequences with the same elements are the same sequence. */
  lemma {:induction false} SortedUnique(s: seq<int>, t: seq<int>)
    requires NonDecreasing(s) && NonDecreasing(t)
    requires multiset(s) == multiset(t)
    ensures s == t
    decreases |s|
  {
    assert |s| == |multiset(s)| == |multiset(t)| == |t|;
    if s != [] {
      var a, b := s[0], t[0];
      assert a in multiset(t) && b in multiset(s);
      HeadIsLeast(t, a);
      HeadIsLeast(s, b);
      assert a == b;
      TailMultiset(s);
      TailMultiset(t);
      TailNonDecreasing(s);
      TailNonDecreasing(t);
      SortedUnique(s[1..], t[1..]);
      assert s == [a] + s[1..] && t == [b] + t[1..];
    }
  }

  /** `[lo, lo + 1, ..., lo + n - 1]`. */
  function Range(lo: int, n: nat): (r: seq<int>)
    ensures |r| == n
    ensures forall i :: 0 <= i < n ==> r[i] == lo + i
    decreases n
  {
    if n == 0 then [] else [lo] + Range(lo + 1, n - 1)
  }

  lemma {:induction false} DistinctCounts<T>(s: seq<T>)
    ensures Distinct(s) <==> forall x :: multiset(s)[x] <= 1
  {
    if s != [] {
      DistinctCounts(s[1..]);
      assert s == [s[0]] + s[1..];
      if Distinct(s) {
        assert s[0] !in s[1..];
      } else {
        var i, j :| 0 <= i < j < |s| && s[i] == s[j];
        if i == 0 {
          assert s[j] in s[1..];
          assert multiset(s)[s[0]] >= 2;
        } else {
          assert !Distinct(s[1..]) by { assert s[1..][i - 1] == s[1..][j - 1]; }
          var x :| multiset(s[1..])[x] > 1;
          assert multiset(s)[x] > 1;
        }
      }
    }
  }

  /** Distinctness survives any permutation. */
  lemma DistinctPermutation<T>(s: seq<T>, t: seq<T>)
    requires multiset(s) == multiset(t) && Distinct(s)
    ensures Distinct(t)
  {
    DistinctCounts(s);
    DistinctCounts(t);
  }
}
