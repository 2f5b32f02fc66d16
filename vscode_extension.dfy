/**
 * The two pieces of logic in the VS Code extension
 * (vscode/kleenexp/src/extension.ts): the most-recently-used list of
 * patterns the user typed, and the escaper that turns selected text into a
 * kleenexp matching that text.
 */
module VsCode {
  import opened Errors

  const MAX_HISTORY_LENGTH: nat := 20

  /** The list the extension starts with. */
  const INITIAL_HISTORY: seq<string> := ["My [\"1st\"|\"2nd\"|\"3rd\"|[1+ #d]\"th\"] KleenExp"]

  // -----------------------------------------------------------------------
  // The history list (vscode/kleenexp/src/extension.ts:3-4, 31-43)

  /** The first position of k in h. */
  function IndexOf(h: seq<string>, k: string): (r: Option<nat>)
    ensures r.Some? ==> r.value < |h| && h[r.value] == k && forall l :: 0 <= l < r.value ==> h[l] != k
    ensures r.None? <==> k !in h
  {
    if h == [] then None
    else if h[0] == k then Some(0)
    else
      var rest := IndexOf(h[1..], k);
      if rest.Some? then Some(rest.value + 1) else None
  }

  /** h without its first copy of k. */
  function WithoutFirst(h: seq<string>, k: string): seq<string> {
    var i := IndexOf(h, k);
    if i.Some? then h[..i.value] + h[i.value + 1..] else h
  }

  /** The list after `updateHistory(k)`: k in front, its first earlier copy
      gone, and the last entry dropped once the list is too long. */
  function Updated(h: seq<string>, k: string): seq<string> {
    var moved := [k] + WithoutFirst(h, k);
    if |moved| > MAX_HISTORY_LENGTH then moved[..|moved| - 1] else moved
  }

  class InputHistory {
    var entries: seq<string>

    predicate Valid()
      reads this
    {
      |entries| <= MAX_HISTORY_LENGTH
    }

    constructor()
      ensures entries == INITIAL_HISTORY && Valid()
    {
      entries := INITIAL_HISTORY;
    }

    /** `updateHistory`: unshift, then splice out the first later copy,
        then pop when the list has grown past the bound. */
    method UpdateHistory(k: string)
      modifies this
      ensures entries == Updated(old(entries), k)
      ensures old(Valid()) ==> Valid()
    {
      ghost var h := entries;
      ghost var spliced := false;
      entries := [k] + entries;
      var i := 1;
      while i < |entries|
        invariant 1 <= i <= |entries|
        invariant entries == [k] + h
        invariant forall j :: 1 <= j < i ==> entries[j] != k
      {
        if entries[i] == k {
          forall l | 0 <= l < i - 1
            ensures h[l] != k
          {
            assert h[l] == entries[l + 1];
          }
          SpliceFound(h, k, i - 1, entries);
          entries := entries[..i] + entries[i + 1..];
          spliced := true;
          break;
        }
        i := i + 1;
      }
      if !spliced {
        AbsentAfterScan(h, k, entries);
      }
      if |entries| > MAX_HISTORY_LENGTH {
        entries := entries[..|entries| - 1];
      }
    }
  }

  /** Splicing out the first later copy of k leaves k in front of h
      without its first copy of k. */
  lemma SpliceFound(h: seq<string>, k: string, i: nat, e: seq<string>)
    requires i < |h| && h[i] == k && (forall l :: 0 <= l < i ==> h[l] != k) && e == [k] + h
    ensures e[..i + 1] + e[i + 2..] == [k] + WithoutFirst(h, k)
  {
    FirstIndex(h, k, i);
    ConsSplice(k, h, i);
  }

  lemma FirstIndex(h: seq<string>, k: string, i: nat)
    requires i < |h| && h[i] == k && forall l :: 0 <= l < i ==> h[l] != k
    ensures IndexOf(h, k) == Some(i) && WithoutFirst(h, k) == h[..i] + h[i + 1..]
  {
  }

  lemma ConsSplice<T>(x: T, h: seq<T>, i: nat)
    requires i < |h|
    ensures ([x] + h)[..i + 1] + ([x] + h)[i + 2..] == [x] + (h[..i] + h[i + 1..])
  {
    assert ([x] + h)[..i + 1] == [x] + h[..i];
    assert ([x] + h)[i + 2..] == h[i + 1..];
  }

  /** A scan that found no later copy of k means k is not in h. */
  lemma AbsentAfterScan(h: seq<string>, k: string, e: seq<string>)
    requires e == [k] + h && forall j :: 1 <= j < |e| ==> e[j] != k
    ensures k !in h && WithoutFirst(h, k) == h
  {
    assert forall j :: 0 <= j < |h| ==> h[j] == e[j + 1];
  }

  lemma MultisetCons<T>(x: T, s: seq<T>)
    ensures multiset([x] + s) == multiset{x} + multiset(s)
  {
  }

  /** Removing the element at j leaves the rest of the multiset. */
  lemma MultisetWithout<T>(h: seq<T>, j: nat)
    requires j < |h|
    ensures multiset(h[..j] + h[j + 1..]) + multiset{h[j]} == multiset(h)
  {
    assert h == h[..j] + [h[j]] + h[j + 1..];
  }

  // -----------------------------------------------------------------------
  // What an update promises

  /** The entry just used is first. */
  lemma UpdatedFront(h: seq<string>, k: string)
    ensures |Updated(h, k)| >= 1 && Updated(h, k)[0] == k
  {
  }

  /** A list within the bound stays within it. */
  lemma UpdatedBounded(h: seq<string>, k: string)
    requires |h| <= MAX_HISTORY_LENGTH
    ensures |Updated(h, k)| <= MAX_HISTORY_LENGTH
    ensures |Updated(h, k)| == if k in h || |h| == MAX_HISTORY_LENGTH then |h| else |h| + 1
  {
  }

  /** Using the entry that is already first changes nothing. */
  lemma UpdatedOfFront(h: seq<string>, k: string)
    requires h != [] && h[0] == k && |h| <= MAX_HISTORY_LENGTH
    ensures Updated(h, k) == h
  {
    assert IndexOf(h, k) == Some(0);
    assert WithoutFirst(h, k) == h[1..] by {
      assert h[..0] + h[1..] == h[1..];
    }
    assert [h[0]] + h[1..] == h;
  }

  /** Only one copy of k is removed: below the bound, the entries are the
      old ones, plus k when it was not there yet. */
  lemma UpdatedMultiset(h: seq<string>, k: string)
    requires |h| < MAX_HISTORY_LENGTH
    ensures multiset(Updated(h, k)) == if k in h then multiset(h) else multiset(h) + multiset{k}
  {
    var i := IndexOf(h, k);
    var rest := WithoutFirst(h, k);
    if i.Some? {
      FirstIndex(h, k, i.value);
      MultisetWithout(h, i.value);
    }
    assert |rest| <= |h|;
    assert Updated(h, k) == [k] + rest;
    MultisetCons(k, rest);
  }

  predicate NoDuplicates(h: seq<string>) {
    forall i, j :: 0 <= i < j < |h| ==> h[i] != h[j]
  }

  /** h with every copy of k removed. */
  function Filter(h: seq<string>, k: string): (r: seq<string>)
    ensures k !in r
    ensures forall x :: x in r ==> x in h
  {
    if h == [] then [] else if h[0] == k then Filter(h[1..], k) else [h[0]] + Filter(h[1..], k)
  }

  lemma {:induction false} FilterAbsent(h: seq<string>, k: string)
    requires k !in h
    ensures Filter(h, k) == h
  {
    if h != [] {
      FilterAbsent(h[1..], k);
    }
  }

  lemma {:induction false} FilterNoDuplicates(h: seq<string>, k: string)
    requires NoDuplicates(h)
    ensures NoDuplicates(Filter(h, k))
  {
    if h != [] {
      FilterNoDuplicates(h[1..], k);
      if h[0] != k {
        assert h[0] !in h[1..];
        assert h[0] !in Filter(h[1..], k);
      }
    }
  }

  /** In a list without duplicates, removing the first copy of k removes
      every copy. */
  lemma {:induction false} WithoutFirstIsFilter(h: seq<string>, k: string)
    requires NoDuplicates(h)
    ensures WithoutFirst(h, k) == Filter(h, k)
  {
    if h != [] {
      if h[0] == k {
        assert k !in h[1..];
        FilterAbsent(h[1..], k);
        assert IndexOf(h, k) == Some(0);
      } else {
        WithoutFirstIsFilter(h[1..], k);
        WithoutFirstCons(h[0], h[1..], k);
        assert [h[0]] + h[1..] == h;
      }
    }
  }

  /** Removing the first k skips an entry in front that is not k. */
  lemma WithoutFirstCons(x: string, t: seq<string>, k: string)
    requires x != k
    ensures WithoutFirst([x] + t, k) == [x] + WithoutFirst(t, k)
  {
    var h := [x] + t;
    assert h[1..] == t;
    var i := IndexOf(t, k);
    if i.Some? {
      assert IndexOf(h, k) == Some(i.value + 1);
      ConsSplice(x, t, i.value);
    } else {
      assert IndexOf(h, k).None?;
    }
  }

  /** On a list without duplicates within the bound, an update moves k to
      the front, keeps every other entry in order, and keeps no more than
      the bound allows. */
  lemma UpdatedMovesToFront(h: seq<string>, k: string)
    requires NoDuplicates(h) && |h| <= MAX_HISTORY_LENGTH
    ensures var moved := [k] + Filter(h, k);
      Updated(h, k) == if |moved| > MAX_HISTORY_LENGTH then moved[..MAX_HISTORY_LENGTH] else moved
  {
    WithoutFirstIsFilter(h, k);
  }

  /** Updates keep the list free of duplicates. */
  lemma UpdatedNoDuplicates(h: seq<string>, k: string)
    requires NoDuplicates(h)
    ensures NoDuplicates(Updated(h, k))
  {
    WithoutFirstIsFilter(h, k);
    FilterNoDuplicates(h, k);
    var moved := [k] + Filter(h, k);
    assert NoDuplicates(moved) by {
      forall i, j | 0 <= i < j < |moved|
        ensures moved[i] != moved[j]
      {
        if i == 0 {
          assert moved[j] in Filter(h, k);
        } else {
          assert moved[i] == Filter(h, k)[i - 1] && moved[j] == Filter(h, k)[j - 1];
        }
      }
    }
  }

  // -----------------------------------------------------------------------
  // The escaper (vscode/kleenexp/src/extension.ts:27-29)

  predicate IsBracket(c: char) {
    c == '[' || c == ']'
  }

  /** The length of the run of s[0]'s kind (brackets or not) at its start. */
  function RunLength(s: string): (n: nat)
    requires s != []
    ensures 1 <= n <= |s|
    ensures forall i :: 0 <= i < n ==> IsBracket(s[i]) == IsBracket(s[0])
    ensures n < |s| ==> IsBracket(s[n]) != IsBracket(s[0])
  {
    if |s| == 1 || IsBracket(s[1]) != IsBracket(s[0]) then 1 else 1 + RunLength(s[1..])
  }

  /** The maximal runs of brackets and of other characters, in order. */
  function Runs(s: string): (r: seq<string>)
    ensures forall i :: 0 <= i < |r| ==> r[i] != []
    decreases |s|
  {
    if s == [] then [] else [s[..RunLength(s)]] + Runs(s[RunLength(s)..])
  }

  /** How escapeKleenExpLiteral writes one run. */
  function Render(run: string): string {
    if run != [] && IsBracket(run[0]) then "[\"" + run + "\"]" else run
  }

  /** `escapeKleenExpLiteral`: every maximal run of brackets becomes a
      double-quoted literal in braces; all other text stays as it is. */
  function EscapeKleenExpLiteral(value: string): (r: string)
    ensures (forall i :: 0 <= i < |value| ==> !IsBracket(value[i])) ==> r == value
    decreases |value|
  {
    if value == [] then []
    else Render(value[..RunLength(value)]) + EscapeKleenExpLiteral(value[RunLength(value)..])
  }

  /** Concatenation of strings. */
  function Join(parts: seq<string>): string {
    if parts == [] then [] else parts[0] + Join(parts[1..])
  }

  /** The runs are the text cut into pieces. */
  lemma {:induction false} JoinRuns(s: string)
    ensures Join(Runs(s)) == s
    decreases |s|
  {
    if s != [] {
      var n := RunLength(s);
      JoinRuns(s[n..]);
      JoinCons(s[..n], Runs(s[n..]));
      TakeDrop(s, n);
    }
  }

  lemma JoinCons(part: string, rest: seq<string>)
    ensures Join([part] + rest) == part + Join(rest)
  {
    assert ([part] + rest)[1..] == rest;
  }

  lemma TakeDrop<T>(s: seq<T>, n: nat)
    requires n <= |s|
    ensures s[..n] + s[n..] == s
  {
  }
}
