/** String utilities shared by every pass of the calculator: character counts,
    parenthesis depth, JavaScript's `indexOf`, and the global literal
    `replace(/p/g, r)` used by the normaliser. Strings are `seq<char>`; every
    character the calculator handles lies in the Basic Multilingual Plane, so
    one `char` is one UTF-16 code unit, as in JavaScript. */
module Strings {

  /** Number of occurrences of `c` in `s`. */
  function Count(c: char, s: seq<char>): nat {
    multiset(s)[c]
  }

  /** Opening minus closing parentheses of `s`. */
  function Depth(s: seq<char>): int {
    Count('(', s) - Count(')', s)
  }

  /** `p` occurs in `s` starting at index `k`. */
  predicate OccursAt(s: seq<char>, p: seq<char>, k: int) {
    0 <= k && k + |p| <= |s| && s[k..k + |p|] == p
  }

  /** `String.prototype.indexOf(p, from)` for a non-empty `p`: the first
      index at or after `from` where `p` occurs, or -1. */
  function IndexOf(s: seq<char>, p: seq<char>, from: nat): (r: int)
    requires |p| > 0
    ensures r == -1 || (from <= r && r + |p| <= |s|)
    decreases |s| - from
  {
    if from + |p| > |s| then -1
    else if s[from..from + |p|] == p then from
    else IndexOf(s, p, from + 1)
  }

  /** `IndexOf` finds the first occurrence at or after `from`, and returns -1
      only when there is none. */
  lemma {:induction false} IndexOfSpec(s: seq<char>, p: seq<char>, from: nat)
    requires |p| > 0
    ensures var r := IndexOf(s, p, from);
      r == -1 || OccursAt(s, p, r)
    ensures var r := IndexOf(s, p, from);
      r != -1 ==> forall k :: from <= k < r ==> !OccursAt(s, p, k)
    ensures IndexOf(s, p, from) == -1 ==> forall k :: from <= k ==> !OccursAt(s, p, k)
    decreases |s| - from
  {
    if from + |p| <= |s| && s[from..from + |p|] != p {
      IndexOfSpec(s, p, from + 1);
    }
  }

  /** `p` occurs nowhere in `s`. */
  predicate Absent(s: seq<char>, p: seq<char>) {
    forall k :: 0 <= k < |s| ==> !OccursAt(s, p, k)
  }

  /** `s.replace(/p/g, r)` for a literal pattern `p`: scans left to right and
      replaces every non-overlapping occurrence, resuming after each match. */
  function ReplaceAll(s: seq<char>, p: seq<char>, r: seq<char>): seq<char>
    requires |p| > 0
    decreases |s|
  {
    if |s| < |p| then s
    else if s[..|p|] == p then r + ReplaceAll(s[|p|..], p, r)
    else [s[0]] + ReplaceAll(s[1..], p, r)
  }

  /** Number of occurrences `ReplaceAll(s, p, _)` rewrites. */
  function Matches(s: seq<char>, p: seq<char>): nat
    requires |p| > 0
    decreases |s|
  {
    if |s| < |p| then 0
    else if s[..|p|] == p then 1 + Matches(s[|p|..], p)
    else Matches(s[1..], p)
  }

  /** Each rewrite removes one copy of `p` and adds one copy of `r`, so the
      count of every character moves by the difference per match. */
  lemma {:induction false} ReplaceAllCount(c: char, s: seq<char>, p: seq<char>, r: seq<char>)
    requires |p| > 0
    ensures Count(c, ReplaceAll(s, p, r)) + Matches(s, p) * Count(c, p)
         == Count(c, s) + Matches(s, p) * Count(c, r)
    decreases |s|
  {
    if |s| < |p| {
    } else if s[..|p|] == p {
      ReplaceAllCount(c, s[|p|..], p, r);
      CountHit(c, s, p, r);
    } else {
      ReplaceAllCount(c, s[1..], p, r);
      CountMiss(c, s, p, r);
    }
  }

  /** The step of `ReplaceAllCount` at an occurrence heading `s`. */
  lemma CountHit(c: char, s: seq<char>, p: seq<char>, r: seq<char>)
    requires 0 < |p| <= |s| && s[..|p|] == p
    requires var t := s[|p|..];
      Count(c, ReplaceAll(t, p, r)) + Matches(t, p) * Count(c, p)
      == Count(c, t) + Matches(t, p) * Count(c, r)
    ensures Count(c, ReplaceAll(s, p, r)) + Matches(s, p) * Count(c, p)
         == Count(c, s) + Matches(s, p) * Count(c, r)
  {
    var t := s[|p|..];
    var m := Matches(t, p);
    assert s == p + t;
    CountConcat(c, p, t);
    CountConcat(c, r, ReplaceAll(t, p, r));
    assert Matches(s, p) == 1 + m;
    MulSucc(m, Count(c, p));
    MulSucc(m, Count(c, r));
  }

  /** The step of `ReplaceAllCount` where `s` does not start with `p`. */
  lemma CountMiss(c: char, s: seq<char>, p: seq<char>, r: seq<char>)
    requires 0 < |p| <= |s| && s[..|p|] != p
    requires var t := s[1..];
      Count(c, ReplaceAll(t, p, r)) + Matches(t, p) * Count(c, p)
      == Count(c, t) + Matches(t, p) * Count(c, r)
    ensures Count(c, ReplaceAll(s, p, r)) + Matches(s, p) * Count(c, p)
         == Count(c, s) + Matches(s, p) * Count(c, r)
  {
    var t := s[1..];
    assert s == [s[0]] + t;
    CountConcat(c, [s[0]], t);
    CountConcat(c, [s[0]], ReplaceAll(t, p, r));
    assert Matches(s, p) == Matches(t, p);
  }

  lemma MulSucc(m: nat, a: int)
    ensures (1 + m) * a == a + m * a
  {
  }

  /** Depth changes by `Depth(r) - Depth(p)` per rewritten occurrence. */
  lemma ReplaceAllDepth(s: seq<char>, p: seq<char>, r: seq<char>)
    requires |p| > 0
    ensures Depth(ReplaceAll(s, p, r)) == Depth(s) + Matches(s, p) * (Depth(r) - Depth(p))
  {
    ReplaceAllCount('(', s, p, r);
    ReplaceAllCount(')', s, p, r);
    MulDiff(Matches(s, p), Count('(', r), Count(')', r), Count('(', p), Count(')', p));
  }

  lemma MulDiff(m: nat, a: int, b: int, c: int, d: int)
    ensures m * ((a - b) - (c - d)) == m * a - m * b - m * c + m * d
  {
  }

  /** When `p` does not occur, nothing is replaced. */
  lemma {:induction false} ReplaceAllAbsent(s: seq<char>, p: seq<char>, r: seq<char>)
    requires |p| > 0 && Absent(s, p)
    ensures ReplaceAll(s, p, r) == s
    ensures Matches(s, p) == 0
    decreases |s|
  {
    if |s| < |p| {
    } else {
      assert !OccursAt(s, p, 0);
      forall k | 0 <= k < |s[1..]|
        ensures !OccursAt(s[1..], p, k)
      {
        assert !OccursAt(s, p, k + 1);
      }
      ReplaceAllAbsent(s[1..], p, r);
      assert s == [s[0]] + s[1..];
    }
  }

  /** A character absent from both the input and the replacement is absent
      from the output. */
  lemma {:induction false} ReplaceAllKeepsOut(c: char, s: seq<char>, p: seq<char>, r: seq<char>)
    requires |p| > 0
    requires c !in s && c !in r
    ensures c !in ReplaceAll(s, p, r)
    decreases |s|
  {
    if |s| < |p| {
    } else if s[..|p|] == p {
      ReplaceAllKeepsOut(c, s[|p|..], p, r);
    } else {
      ReplaceAllKeepsOut(c, s[1..], p, r);
    }
  }

  /** Replacing a single character `g` removes every `g`, provided the
      replacement does not reintroduce it. */
  lemma {:induction false} ReplaceAllRemovesGlyph(g: char, s: seq<char>, r: seq<char>)
    requires g !in r
    ensures g !in ReplaceAll(s, [g], r)
    decreases |s|
  {
    if |s| < 1 {
    } else if s[..1] == [g] {
      ReplaceAllRemovesGlyph(g, s[1..], r);
    } else {
      assert s[0] != g;
      ReplaceAllRemovesGlyph(g, s[1..], r);
    }
  }

  /** Replacement of a single character `g`, one character at a time: an
      independent definition of what `replace(/g/g, r)` computes. */
  function Substitute(g: char, s: seq<char>, r: seq<char>): seq<char>
    decreases |s|
  {
    if |s| == 0 then []
    else (if s[0] == g then r else [s[0]]) + Substitute(g, s[1..], r)
  }

  /** For a one-character pattern the global replace is exactly a
      per-character substitution: every `g` becomes `r`, all else is kept. */
  lemma {:induction false} ReplaceAllGlyphIsSubstitute(g: char, s: seq<char>, r: seq<char>)
    ensures ReplaceAll(s, [g], r) == Substitute(g, s, r)
    decreases |s|
  {
    if |s| == 0 {
    } else {
      ReplaceAllGlyphIsSubstitute(g, s[1..], r);
      if s[0] == g {
        assert s[..1] == [g];
      } else {
        assert s[..1] != [g];
      }
    }
  }

  /** A pattern that is the whole input is replaced exactly once. */
  lemma ReplaceAllWhole(p: seq<char>, r: seq<char>)
    requires |p| > 0
    ensures ReplaceAll(p, p, r) == r
    ensures Matches(p, p) == 1
  {
    assert p[..|p|] == p;
    assert p[|p|..] == [];
  }

  /** If the first character of `p` is nowhere in `x`, `p` does not occur. */
  lemma AbsentHead(x: seq<char>, p: seq<char>)
    requires |p| > 0 && p[0] !in x
    ensures Absent(x, p)
  {
    forall k | 0 <= k < |x|
      ensures !OccursAt(x, p, k)
    {
      assert x[k] in x;
    }
  }

  /** No match of `p` can start inside `x` and run past its end: cutting a
      string after `x` does not cut through an occurrence of `p`. */
  predicate Sealed(x: seq<char>, p: seq<char>) {
    forall j :: 0 <= j < |x| && |x| < j + |p| ==> !(x[j..] <= p)
  }

  /** `Sealed`, checked position by position from `j`. */
  function SealedFrom(x: seq<char>, p: seq<char>, j: nat): (ok: bool)
    ensures ok ==> forall k :: j <= k < |x| && |x| < k + |p| ==> !(x[k..] <= p)
    decreases |x| - j
  {
    j >= |x| || ((|x| >= j + |p| || !(x[j..] <= p)) && SealedFrom(x, p, j + 1))
  }

  lemma SealedHead(x: seq<char>, p: seq<char>)
    requires |p| > 0 && p[0] !in x
    ensures Sealed(x, p)
  {
    forall j | 0 <= j < |x| && |x| < j + |p|
      ensures !(x[j..] <= p)
    {
      assert x[j..][0] == x[j];
    }
  }

  /** Dropping a prefix keeps a string sealed. */
  lemma SealedSuffix(x: seq<char>, p: seq<char>, k: nat)
    requires Sealed(x, p) && k <= |x|
    ensures Sealed(x[k..], p)
  {
    forall j | 0 <= j < |x[k..]| && |x[k..]| < j + |p|
      ensures !(x[k..][j..] <= p)
    {
      assert x[k..][j..] == x[j + k..];
    }
  }

  /** The global replace distributes over a cut that no occurrence straddles. */
  lemma {:induction false} ReplaceAllSplit(x: seq<char>, y: seq<char>, p: seq<char>, r: seq<char>)
    requires |p| > 0 && Sealed(x, p)
    ensures ReplaceAll(x + y, p, r) == ReplaceAll(x, p, r) + ReplaceAll(y, p, r)
    decreases |x|
  {
    if |x| == 0 {
      assert x + y == y;
    } else if |x| < |p| {
      SplitShort(x, y, p, r);
    } else if x[..|p|] == p {
      SealedSuffix(x, p, |p|);
      ReplaceAllSplit(x[|p|..], y, p, r);
      SplitHit(x, y, p, r);
    } else {
      SealedSuffix(x, p, 1);
      ReplaceAllSplit(x[1..], y, p, r);
      SplitMiss(x, y, p, r);
    }
  }

  /** The step of `ReplaceAllSplit` at an occurrence heading `x`. */
  lemma SplitHit(x: seq<char>, y: seq<char>, p: seq<char>, r: seq<char>)
    requires 0 < |p| <= |x| && x[..|p|] == p
    requires ReplaceAll(x[|p|..] + y, p, r) == ReplaceAll(x[|p|..], p, r) + ReplaceAll(y, p, r)
    ensures ReplaceAll(x + y, p, r) == ReplaceAll(x, p, r) + ReplaceAll(y, p, r)
  {
    var t := x[|p|..];
    assert (x + y)[..|p|] == p;
    assert (x + y)[|p|..] == t + y;
    assert ReplaceAll(x + y, p, r) == r + ReplaceAll(t + y, p, r);
    assert ReplaceAll(x, p, r) == r + ReplaceAll(t, p, r);
  }

  /** The step of `ReplaceAllSplit` where `x` does not start with `p`. */
  lemma SplitMiss(x: seq<char>, y: seq<char>, p: seq<char>, r: seq<char>)
    requires 0 < |p| <= |x| && x[..|p|] != p
    requires ReplaceAll(x[1..] + y, p, r) == ReplaceAll(x[1..], p, r) + ReplaceAll(y, p, r)
    ensures ReplaceAll(x + y, p, r) == ReplaceAll(x, p, r) + ReplaceAll(y, p, r)
  {
    var t := x[1..];
    assert (x + y)[..|p|] == x[..|p|];
    assert (x + y)[1..] == t + y by {
      assert forall k :: 0 <= k < |t| + |y| ==> (x + y)[1..][k] == (t + y)[k];
    }
    assert ReplaceAll(x + y, p, r) == [x[0]] + ReplaceAll(t + y, p, r);
    assert ReplaceAll(x, p, r) == [x[0]] + ReplaceAll(t, p, r);
  }

  /** The case of `ReplaceAllSplit` where `x` is shorter than the pattern:
      `x` is copied through because no occurrence starts inside it. */
  lemma {:induction false} SplitShort(x: seq<char>, y: seq<char>, p: seq<char>, r: seq<char>)
    requires 0 < |x| < |p| && Sealed(x, p)
    ensures ReplaceAll(x + y, p, r) == x + ReplaceAll(y, p, r)
    decreases |x|
  {
    var xy := x + y;
    assert x[0..] == x;
    assert !(x <= p);
    if |xy| < |p| {
      assert ReplaceAll(y, p, r) == y;
    } else {
      assert xy[..|p|][..|x|] == x;
      assert xy[..|p|] != p;
      assert xy[1..] == x[1..] + y;
      if |x| > 1 {
        SealedSuffix(x, p, 1);
        SplitShort(x[1..], y, p, r);
      } else {
        assert x[1..] + y == y;
      }
      assert x == [x[0]] + x[1..];
    }
  }

  /** A pass of literal rewriting: pattern and replacement. */
  datatype Pass = Pass(pattern: seq<char>, replacement: seq<char>)

  predicate WellFormed(ps: seq<Pass>) {
    forall i :: 0 <= i < |ps| ==> |ps[i].pattern| > 0
  }

  /** Applies the passes in order, each one a global replace. */
  function ApplyPasses(s: seq<char>, ps: seq<Pass>): seq<char>
    requires WellFormed(ps)
    decreases |ps|
  {
    if |ps| == 0 then s
    else ApplyPasses(ReplaceAll(s, ps[0].pattern, ps[0].replacement), ps[1..])
  }

  /** Every intermediate image of piece `x` is sealed for the next pass. */
  function SealedThrough(x: seq<char>, ps: seq<Pass>): bool
    requires WellFormed(ps)
    decreases |ps|
  {
    |ps| == 0
    || (SealedFrom(x, ps[0].pattern, 0)
        && SealedThrough(ReplaceAll(x, ps[0].pattern, ps[0].replacement), ps[1..]))
  }

  /** Applying the passes to `x + y` acts on the two parts separately when
      no intermediate image of `x` ends inside an occurrence of the next
      pattern. */
  lemma {:induction false} ApplyPassesSplit(x: seq<char>, y: seq<char>, ps: seq<Pass>)
    requires WellFormed(ps) && SealedThrough(x, ps)
    ensures ApplyPasses(x + y, ps) == ApplyPasses(x, ps) + ApplyPasses(y, ps)
    decreases |ps|
  {
    if |ps| > 0 {
      var p, r := ps[0].pattern, ps[0].replacement;
      SealedFromIsSealed(x, p);
      ReplaceAllSplit(x, y, p, r);
      assert WellFormed(ps[1..]);
      ApplyPassesSplit(ReplaceAll(x, p, r), ReplaceAll(y, p, r), ps[1..]);
    }
  }

  lemma SealedFromIsSealed(x: seq<char>, p: seq<char>)
    requires SealedFrom(x, p, 0)
    ensures Sealed(x, p)
  {
  }

  /** A character outside the input and outside every replacement never
      appears. */
  lemma {:induction false} ApplyPassesKeepsOut(c: char, s: seq<char>, ps: seq<Pass>)
    requires WellFormed(ps) && c !in s
    requires forall i :: 0 <= i < |ps| ==> c !in ps[i].replacement
    ensures c !in ApplyPasses(s, ps)
    decreases |ps|
  {
    if |ps| > 0 {
      ReplaceAllKeepsOut(c, s, ps[0].pattern, ps[0].replacement);
      ApplyPassesKeepsOut(c, ReplaceAll(s, ps[0].pattern, ps[0].replacement), ps[1..]);
    }
  }

  /** Counts add up over a concatenation. */
  lemma CountConcat(c: char, a: seq<char>, b: seq<char>)
    ensures Count(c, a + b) == Count(c, a) + Count(c, b)
  {
    assert multiset(a + b) == multiset(a) + multiset(b);
  }

  /** Depths add up over a concatenation. */
  lemma DepthConcat(a: seq<char>, b: seq<char>)
    ensures Depth(a + b) == Depth(a) + Depth(b)
  {
    CountConcat('(', a, b);
    CountConcat(')', a, b);
  }

  /** A piece containing no pattern's first character goes through every pass
      unchanged and sealed. */
  lemma {:induction false} ApplyPassesInert(x: seq<char>, ps: seq<Pass>)
    requires WellFormed(ps)
    requires forall i :: 0 <= i < |ps| ==> ps[i].pattern[0] !in x
    ensures ApplyPasses(x, ps) == x
    ensures SealedThrough(x, ps)
    decreases |ps|
  {
    if |ps| > 0 {
      AbsentHead(x, ps[0].pattern);
      ReplaceAllAbsent(x, ps[0].pattern, ps[0].replacement);
      SealedFromHead(x, ps[0].pattern, 0);
      ApplyPassesInert(x, ps[1..]);
    }
  }

  lemma {:induction false} SealedFromHead(x: seq<char>, p: seq<char>, j: nat)
    requires |p| > 0 && p[0] !in x
    ensures SealedFrom(x, p, j)
    decreases |x| - j
  {
    if j < |x| {
      if |x| < j + |p| {
        assert x[j..][0] == x[j];
        assert x[j] in x;
      }
      SealedFromHead(x, p, j + 1);
    }
  }

  /** A word whose first character occurs nowhere else in it ends inside no
      occurrence of itself. */
  lemma {:induction false} SelfSealed(x: seq<char>, j: nat)
    requires 0 < j && 0 < |x| && x[0] !in x[1..]
    ensures SealedFrom(x, x, j)
    decreases |x| - j
  {
    if j < |x| {
      assert x[j] == x[1..][j - 1];
      assert x[j..][0] == x[j];
      SelfSealed(x, j + 1);
    }
  }

  /** A piece without the pattern's first character is copied through and
      the rest of the text is rewritten on its own. */
  lemma MissSplit(x: seq<char>, y: seq<char>, p: seq<char>, r: seq<char>)
    requires |p| > 0 && p[0] !in x
    ensures ReplaceAll(x + y, p, r) == x + ReplaceAll(y, p, r)
  {
    AbsentHead(x, p);
    SealedHead(x, p);
    ReplaceAllAbsent(x, p, r);
    ReplaceAllSplit(x, y, p, r);
  }

  /** As `MissSplit`, when the pattern's first character occurs in `x` only
      at `i` and the character `m` places later rules a match out there. */
  lemma MismatchSplit(x: seq<char>, y: seq<char>, p: seq<char>, r: seq<char>, i: nat, m: nat)
    requires |p| > 0 && i < |x|
    requires forall k :: 0 <= k < |x| && k != i ==> x[k] != p[0]
    requires 0 < m < |p| && i + m < |x| && x[i + m] != p[m]
    ensures ReplaceAll(x + y, p, r) == x + ReplaceAll(y, p, r)
  {
    forall k | 0 <= k < |x|
      ensures !OccursAt(x, p, k)
    {
      if k != i {
        assert k + |p| <= |x| ==> x[k..k + |p|][0] == x[k];
      } else {
        assert k + |p| <= |x| ==> x[k..k + |p|][m] == x[i + m];
      }
    }
    forall j | 0 <= j < |x| && |x| < j + |p|
      ensures !(x[j..] <= p)
    {
      if j != i {
        assert x[j..][0] == x[j];
      } else {
        assert x[j..][m] == x[i + m];
      }
    }
    ReplaceAllAbsent(x, p, r);
    ReplaceAllSplit(x, y, p, r);
  }

  /** A piece that is exactly the pattern, whose first character occurs
      nowhere else in it, becomes the replacement. */
  lemma HitSplit(x: seq<char>, y: seq<char>, r: seq<char>)
    requires |x| > 0 && x[0] !in x[1..]
    ensures ReplaceAll(x + y, x, r) == r + ReplaceAll(y, x, r)
  {
    SelfSealed(x, 1);
    SealedFromIsSealed(x, x);
    ReplaceAllWhole(x, r);
    ReplaceAllSplit(x, y, x, r);
  }

  /** Running `ps + qs` is running `ps` and then `qs`, and a piece sealed
      through both stays sealed through their concatenation. */
  lemma {:induction false} ApplyPassesAppend(s: seq<char>, ps: seq<Pass>, qs: seq<Pass>)
    requires WellFormed(ps) && WellFormed(qs)
    ensures WellFormed(ps + qs)
    ensures ApplyPasses(s, ps + qs) == ApplyPasses(ApplyPasses(s, ps), qs)
    ensures SealedThrough(s, ps) && SealedThrough(ApplyPasses(s, ps), qs) ==> SealedThrough(s, ps + qs)
    decreases |ps|
  {
    if |ps| > 0 {
      assert (ps + qs)[1..] == ps[1..] + qs;
      ApplyPassesAppend(ReplaceAll(s, ps[0].pattern, ps[0].replacement), ps[1..], qs);
    } else {
      assert ps + qs == qs;
    }
  }
}
