/**
 * `number_range_to_regex(a, b)`: the regex for a whole range [a, b] as the
 * `|`-join of single ranges, the first one as large as the search allows.
 */
module NumRangeRegex {
  import opened Decimal
  import opened NumRange

  // ---------------------------------------------------------------------
  // The single ranges of [a, b]

  /** The single ranges `number_range_to_regex(a, b)` emits, in order. */
  function Ranges(a: nat, b: nat): (rs: seq<(nat, nat)>)
    requires a <= b
    ensures |rs| >= 1
    decreases b - a, 2
  {
    if a == b then [(a, b)] else RangesAfterFirst(a, b)
  }

  /** For a < b the first single range ends where `max_single_range_below` says. */
  function RangesAfterFirst(a: nat, b: nat): (rs: seq<(nat, nat)>)
    requires a < b
    ensures |rs| >= 1
    decreases b - a, 1
  {
    RangesFrom(a, MaxSingleRangeBelow(a, b), b)
  }

  /** The single ranges of [a, b] once the first one is known to be [a, m]. */
  function RangesFrom(a: nat, m: nat, b: nat): (rs: seq<(nat, nat)>)
    requires a <= m <= b
    ensures |rs| >= 1
    decreases b - a, 0
  {
    if m == b then [(a, b)] else [(a, m)] + Ranges(m + 1, b)
  }

  /** The atoms of each single range, in order. */
  function Alternatives(rs: seq<(nat, nat)>): (alts: seq<seq<Atom>>)
    ensures |alts| == |rs|
  {
    if rs == [] then [] else [SingleRangeAtoms(rs[0].0, rs[0].1)] + Alternatives(rs[1..])
  }

  /** `"|".join` of the rendered alternatives. */
  function JoinAlternatives(alts: seq<seq<Atom>>): string
    requires |alts| >= 1
  {
    if |alts| == 1 then RenderAll(alts[0])
    else RenderAll(alts[0]) + "|" + JoinAlternatives(alts[1..])
  }

  /** Some alternative matches the whole of w. */
  predicate MatchesSome(alts: seq<seq<Atom>>, w: string) {
    |alts| > 0 && (Matches(alts[0], w) || MatchesSome(alts[1..], w))
  }

  // ---------------------------------------------------------------------
  // The ranges tile [a, b]

  /**
   * rs cuts [a, b] into consecutive single ranges; ks[i] is the digit
   * position at which the i-th range is aligned.
   */
  ghost predicate Tiles(rs: seq<(nat, nat)>, ks: seq<nat>, a: nat, b: nat)
    decreases |rs|
  {
    |rs| >= 1 && |ks| == |rs| && rs[0].0 == a && AlignedAt(a, rs[0].1, ks[0]) && rs[0].1 <= b
    && (if |rs| == 1 then rs[0].1 == b else rs[0].1 < b && Tiles(rs[1..], ks[1..], rs[0].1 + 1, b))
  }

  lemma {:induction false} TilesSingle(a: nat, b: nat, k: nat)
    requires AlignedAt(a, b, k)
    ensures Tiles([(a, b)], [k], a, b)
  {
  }

  lemma {:induction false} TilesCons(a: nat, m: nat, k: nat, b: nat, rest: seq<(nat, nat)>, ks: seq<nat>)
    requires AlignedAt(a, m, k) && m < b && Tiles(rest, ks, m + 1, b)
    ensures Tiles([(a, m)] + rest, [k] + ks, a, b)
  {
    assert ([(a, m)] + rest)[1..] == rest;
    assert ([k] + ks)[1..] == ks;
  }

  /** The ranges of [a, b] tile it with single ranges. */
  lemma {:induction false} RangesTile(a: nat, b: nat) returns (ks: seq<nat>)
    requires a <= b
    ensures Tiles(Ranges(a, b), ks, a, b)
    decreases b - a, 1
  {
    if a == b {
      TilesSingle(a, b, 0);
      ks := [0];
    } else {
      MaxSingleRangeBelowAligned(a, b);
      ks := RangesFromTile(a, MaxSingleRangeBelow(a, b), ReplaceAllZeroDigits(a, b).0, b);
    }
  }

  /** Once the first range [a, m] is a single range, the rest follows by induction. */
  lemma {:induction false} RangesFromTile(a: nat, m: nat, k: nat, b: nat) returns (ks: seq<nat>)
    requires AlignedAt(a, m, k) && m <= b
    ensures Tiles(RangesFrom(a, m, b), ks, a, b)
    decreases b - a, 0
  {
    if m == b {
      TilesSingle(a, b, k);
      ks := [k];
    } else {
      var rest := RangesTile(m + 1, b);
      TilesCons(a, m, k, b, Ranges(m + 1, b), rest);
      ks := [k] + rest;
    }
  }

  // ---------------------------------------------------------------------
  // The language of the regex

  /** One step of the induction: the first alternative, then the rest. */
  lemma {:induction false} ChainStep(x: seq<Atom>, rest: seq<seq<Atom>>, a: nat, m: nat, b: nat, w: string)
    requires a <= m < b
    requires Matches(x, w) <==> InRange(w, a, m)
    requires MatchesSome(rest, w) <==> InRange(w, m + 1, b)
    ensures MatchesSome([x] + rest, w) <==> InRange(w, a, b)
  {
    MatchesSomeCons(x, rest, w);
    InRangeSplit(w, a, m, b);
  }

  lemma {:induction false} InRangeSplit(w: string, a: nat, m: nat, b: nat)
    requires a <= m < b
    ensures InRange(w, a, b) <==> InRange(w, a, m) || InRange(w, m + 1, b)
  {
  }

  lemma {:induction false} MatchesSomeSingle(x: seq<Atom>, w: string)
    ensures MatchesSome([x], w) <==> Matches(x, w)
  {
    assert [x][1..] == [];
  }

  lemma {:induction false} MatchesSomeCons(x: seq<Atom>, rest: seq<seq<Atom>>, w: string)
    ensures MatchesSome([x] + rest, w) <==> Matches(x, w) || MatchesSome(rest, w)
  {
    assert ([x] + rest)[1..] == rest;
  }

  /** Alternatives built from a tiling match exactly the numbers of [a, b]. */
  lemma {:induction false} TilesLanguage(rs: seq<(nat, nat)>, ks: seq<nat>, a: nat, b: nat, w: string)
    requires Tiles(rs, ks, a, b)
    ensures MatchesSome(Alternatives(rs), w) <==> InRange(w, a, b)
    decreases |rs|
  {
    var m := rs[0].1;
    SingleRangeLanguage(a, m, ks[0], w);
    assert Alternatives(rs) == [SingleRangeAtoms(a, m)] + Alternatives(rs[1..]);
    if |rs| == 1 {
      MatchesSomeSingle(SingleRangeAtoms(a, m), w);
    } else {
      TilesLanguage(rs[1..], ks[1..], m + 1, b, w);
      ChainStep(SingleRangeAtoms(a, m), Alternatives(rs[1..]), a, m, b, w);
    }
  }

  /**
   * The alternatives for [a, b] match exactly the decimal representations of
   * the numbers a..b.
   */
  lemma NumberRangeLanguage(a: nat, b: nat, w: string)
    requires a <= b
    ensures MatchesSome(Alternatives(Ranges(a, b)), w) <==> InRange(w, a, b)
  {
    var ks := RangesTile(a, b);
    TilesLanguage(Ranges(a, b), ks, a, b, w);
  }

  // ---------------------------------------------------------------------
  // Producing the regex text

  /** The regex text of a single range standing alone. */
  lemma {:induction false} JoinSingle(a: nat, m: nat)
    ensures JoinAlternatives(Alternatives([(a, m)])) == RenderAll(SingleRangeAtoms(a, m))
  {
    assert [(a, m)][1..] == [];
  }

  /** The regex text of a single range followed by more. */
  lemma {:induction false} JoinCons(a: nat, m: nat, first: string, rest: string, rs: seq<(nat, nat)>)
    requires |rs| >= 1
    requires first == RenderAll(SingleRangeAtoms(a, m))
    requires rest == JoinAlternatives(Alternatives(rs))
    ensures first + "|" + rest == JoinAlternatives(Alternatives([(a, m)] + rs))
  {
    assert ([(a, m)] + rs)[1..] == rs;
    var alts := Alternatives([(a, m)] + rs);
    assert alts[1..] == Alternatives(rs);
  }

  /** `number_range_to_regex(a, b)` (with the corrected search). */
  method NumberRangeToRegex(a: nat, b: nat) returns (r: string)
    requires a <= b
    ensures r == JoinAlternatives(Alternatives(Ranges(a, b)))
    decreases b - a, 1
  {
    if a == b {
      RenderLits(Str(a));
      JoinSingle(a, a);
      return Str(a);
    }
    var maxA := ComputeMaxSingleRangeBelow(a, b);
    r := NumberRangeFrom(a, maxA, b);
  }

  /** The rest of `number_range_to_regex(a, b)` once the first range ends at m. */
  method NumberRangeFrom(a: nat, m: nat, b: nat) returns (r: string)
    requires a <= m <= b
    ensures r == JoinAlternatives(Alternatives(RangesFrom(a, m, b)))
    decreases b - a, 0
  {
    if m == b {
      r := SingleRangeToRegex(a, b);
      JoinSingle(a, b);
      return;
    }
    var first := SingleRangeToRegex(a, m);
    var rest := NumberRangeToRegex(m + 1, b);
    r := first + "|" + rest;
    JoinCons(a, m, first, rest, Ranges(m + 1, b));
  }
}
