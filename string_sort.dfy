/**
 * Python's `sorted` on a list of strings: the lexicographic order on code
 * points, and insertion sort as a reference for the unique sorted
 * permutation.
 */
module StringSort {

  /** Python's `a <= b` on strings. */
  predicate LexLe(a: string, b: string)
    decreases |a|
  {
    a == [] || (b != [] && (a[0] < b[0] || (a[0] == b[0] && LexLe(a[1..], b[1..]))))
  }

  lemma {:induction false} LexLeTotal(a: string, b: string)
    ensures LexLe(a, b) || LexLe(b, a)
    decreases |a|
  {
    if a != [] && b != [] && a[0] == b[0] {
      LexLeTotal(a[1..], b[1..]);
    }
  }

  lemma {:induction false} LexLeAntisymmetric(a: string, b: string)
    requires LexLe(a, b) && LexLe(b, a)
    ensures a == b
    decreases |a|
  {
    if a != [] {
      LexLeAntisymmetric(a[1..], b[1..]);
      assert a == [a[0]] + a[1..] && b == [b[0]] + b[1..];
    }
  }

  lemma {:induction false} LexLeTransitive(a: string, b: string, c: string)
    requires LexLe(a, b) && LexLe(b, c)
    ensures LexLe(a, c)
    decreases |a|
  {
    if a != [] && a[0] == b[0] && b[0] == c[0] {
      LexLeTransitive(a[1..], b[1..], c[1..]);
    }
  }

  /** Each string is at most the next one. */
  predicate Sorted(s: seq<string>) {
    |s| <= 1 || (LexLe(s[0], s[1]) && Sorted(s[1..]))
  }

  lemma {:induction false} SortedHeadLeast(s: seq<string>, k: nat)
    requires Sorted(s) && k < |s|
    ensures LexLe(s[0], s[k])
    decreases k
  {
    if k == 0 {
      LexLeTotal(s[0], s[0]);
    } else {
      SortedHeadLeast(s[1..], k - 1);
      if k > 1 {
        LexLeTransitive(s[0], s[1], s[k]);
      }
    }
  }

  function Insert(x: string, s: seq<string>): (r: seq<string>)
    ensures |r| == |s| + 1
    ensures multiset(r) == multiset(s) + multiset{x}
    ensures r[0] == x || (s != [] && r[0] == s[0])
  {
    if s == [] then [x]
    else if LexLe(x, s[0]) then [x] + s
    else
      assert s == [s[0]] + s[1..];
      [s[0]] + Insert(x, s[1..])
  }

  /** `sorted(xs)`. */
  function Sort(xs: seq<string>): (r: seq<string>)
    ensures multiset(r) == multiset(xs)
  {
    if xs == [] then []
    else
      assert xs == [xs[0]] + xs[1..];
      Insert(xs[0], Sort(xs[1..]))
  }

  lemma {:induction false} InsertSorted(x: string, s: seq<string>)
    requires Sorted(s)
    ensures Sorted(Insert(x, s))
    decreases |s|
  {
    if s != [] {
      if LexLe(x, s[0]) {
        assert ([x] + s)[1..] == s;
      } else {
        LexLeTotal(x, s[0]);
        InsertSorted(x, s[1..]);
        var r := [s[0]] + Insert(x, s[1..]);
        assert r[1..] == Insert(x, s[1..]);
      }
    }
  }

  /** `sorted` returns a sorted permutation. */
  lemma {:induction false} SortSorted(xs: seq<string>)
    ensures Sorted(Sort(xs))
    decreases |xs|
  {
    if xs != [] {
      SortSorted(xs[1..]);
      InsertSorted(xs[0], Sort(xs[1..]));
    }
  }

  /** Two sorted permutations of the same strings are equal. */
  lemma {:induction false} SortedTail(s: seq<string>)
    requires Sorted(s) && s != []
    ensures Sorted(s[1..])
  {
  }

  /** A member of a sequence's multiset sits at some index. */
  lemma {:induction false} IndexOf(x: string, s: seq<string>) returns (k: nat)
    requires x in multiset(s)
    ensures k < |s| && s[k] == x
  {
    k :| 0 <= k < |s| && s[k] == x;
  }

  lemma {:induction false} MultisetTail(a: seq<string>, b: seq<string>)
    requires a != [] && b != [] && a[0] == b[0] && multiset(a) == multiset(b)
    ensures multiset(a[1..]) == multiset(b[1..])
  {
    assert a == [a[0]] + a[1..] && b == [b[0]] + b[1..];
    assert multiset(a) == multiset{a[0]} + multiset(a[1..]);
    assert multiset(b) == multiset{b[0]} + multiset(b[1..]);
    forall x ensures multiset(a[1..])[x] == multiset(b[1..])[x] {
      assert multiset(a)[x] == multiset{a[0]}[x] + multiset(a[1..])[x];
      assert multiset(b)[x] == multiset{b[0]}[x] + multiset(b[1..])[x];
    }
  }

  lemma {:induction false} SortedUnique(a: seq<string>, b: seq<string>)
    requires Sorted(a) && Sorted(b) && multiset(a) == multiset(b)
    ensures a == b
    decreases |a|
  {
    assert |a| == |multiset(a)| == |multiset(b)| == |b|;
    if a != [] {
      assert a[0] in multiset(a);
      var k := IndexOf(a[0], b);
      assert b[0] in multiset(b);
      var m := IndexOf(b[0], a);
      SortedHeadLeast(a, m);
      SortedHeadLeast(b, k);
      LexLeAntisymmetric(a[0], b[0]);
      MultisetTail(a, b);
      SortedTail(a);
      SortedTail(b);
      SortedUnique(a[1..], b[1..]);
    }
  }

  /** `sorted` depends only on which strings there are, not on their order. */
  lemma {:induction false} SortPermutationInvariant(xs: seq<string>, ys: seq<string>)
    requires multiset(xs) == multiset(ys)
    ensures Sort(xs) == Sort(ys)
  {
    SortSorted(xs);
    SortSorted(ys);
    SortedUnique(Sort(xs), Sort(ys));
  }

  /** `"".join(xs)`. */
  function Concat(xs: seq<string>): string {
    if xs == [] then "" else xs[0] + Concat(xs[1..])
  }
}
