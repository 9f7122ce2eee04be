/** The degree-conversion rewriter `insertDegreeConversion` (script.js): for
    every occurrence of a call prefix such as `Math.sin(` that is followed by
    `(`, the parenthesised argument `(ARG)` becomes `(ARG*Math.PI/180)`. */
module DegreeConversion {
  import opened Strings
  import opened Parens

  /** The text inserted before each matched closing parenthesis. */
  const Radians: seq<char> := "*Math.PI/180"

  /** What one iteration of the rewriter's loop does at scan position `i`. */
  datatype Step =
    | Finish                          // copy the rest and stop
    | Skip(next: nat)                 // copy up to `next` and go on from there
    | Wrap(at: nat, open: nat, close: nat)  // rewrite the argument `open..close`

  /** One iteration of the loop of `insertDegreeConversion` from `i`: find the
      next occurrence of `f`; with none, copy the rest; when it is not followed
      by `(`, skip past it; when its argument is never closed, copy the rest;
      otherwise rewrite the argument. */
  function NextStep(src: seq<char>, f: seq<char>, i: nat): (st: Step)
    requires |f| > 0 && i < |src|
    ensures st.Skip? ==> i < st.next <= |src|
    ensures st.Wrap? ==> i <= st.at && st.open == st.at + |f| && st.open < st.close < |src|
  {
    var idx := IndexOf(src, f, i);
    if idx == -1 then Finish
    else
      var j := idx + |f|;
      if j >= |src| || src[j] != '(' then Skip(j)
      else
        var m := MatchingParen(src, j);
        if m == -1 then Finish
        else
          MatchingParenSpec(src, j);
          assert OpenStart(src, j) == j;
          Wrap(idx, j, m)
  }

  /** A rewritten site is an occurrence of `f` whose `(` is closed by the
      `)` that `findMatchingParen` finds. */
  lemma NextStepWrap(src: seq<char>, f: seq<char>, i: nat)
    requires |f| > 0 && i < |src| && NextStep(src, f, i).Wrap?
    ensures var st := NextStep(src, f, i);
      && OccursAt(src, f, st.at) && src[st.open] == '(' && src[st.close] == ')'
      && st.close == MatchingParen(src, st.open)
  {
    var st := NextStep(src, f, i);
    IndexOfSpec(src, f, i);
    MatchingParenSpec(src, st.open);
    assert OpenStart(src, st.open) == st.open;
  }

  /** The step the rewriter takes at every scan position, `Finish` past the
      end of the input. */
  function Steps(src: seq<char>, f: seq<char>): nat -> Step
    requires |f| > 0
  {
    (i: nat) => if i < |src| then NextStep(src, f, i) else Finish
  }

  /** `st`, taken at position `i` of `src`, moves the scan forward, stays
      inside the text, and wraps only a parenthesised argument. */
  predicate Fits(st: Step, i: nat, src: seq<char>) {
    && (st.Skip? ==> i < st.next <= |src|)
    && (st.Wrap? ==> i <= st.at < st.open < st.close < |src|
                     && src[st.open] == '(' && src[st.close] == ')')
  }

  /** Every step of `next` fits `src`: the sweep below terminates. */
  ghost predicate Advancing(next: nat -> Step, src: seq<char>) {
    forall i: nat :: i < |src| ==> Fits(next(i), i, src)
  }

  lemma StepsAdvance(src: seq<char>, f: seq<char>)
    requires |f| > 0
    ensures Advancing(Steps(src, f), src)
  {
    forall i: nat | i < |src|
      ensures Fits(Steps(src, f)(i), i, src)
    {
      if NextStep(src, f, i).Wrap? {
        NextStepWrap(src, f, i);
      }
    }
  }

  /** A rewritten argument: `(ARG` followed by `ins` and the closing `)`. */
  function Wrapped(arg: seq<char>, ins: seq<char>): seq<char> {
    "(" + arg + ins + ")"
  }

  /** The loop of `insertDegreeConversion` from scan position `i`, written as
      a recursion on `i`, for any choice `next` of the step at each position:
      copy what a step passes over, and wrap each argument it rewrites with
      `ins` (which the source fixes to `Radians`) before its `)`. */
  function Sweep(src: seq<char>, next: nat -> Step, i: nat, ins: seq<char>): seq<char>
    requires Advancing(next, src) && i <= |src|
    decreases |src| - i
  {
    if i >= |src| then []
    else match next(i)
      case Finish => src[i..]
      case Skip(j) => src[i..j] + Sweep(src, next, j, ins)
      case Wrap(_, j, m) => src[i..j] + Wrapped(src[j + 1..m], ins) + Sweep(src, next, m + 1, ins)
  }

  /** The rewriter's output from scan position `i` on. */
  function Rewrite(src: seq<char>, f: seq<char>, i: nat, ins: seq<char>): seq<char>
    requires |f| > 0 && i <= |src|
  {
    StepsAdvance(src, f);
    Sweep(src, Steps(src, f), i, ins)
  }

  /** One rewritten occurrence: `f` starts at `at`, its argument opens at
      `open` and is closed at `close`. */
  datatype Site = Site(at: nat, open: nat, close: nat)

  /** `site` is an occurrence of `f` followed by `(` whose matching `)` is
      `close`, as `findMatchingParen` finds it. */
  ghost predicate ValidSite(src: seq<char>, f: seq<char>, site: Site) {
    && OccursAt(src, f, site.at)
    && site.open == site.at + |f|
    && site.open < |src|
    && src[site.open] == '('
    && site.close == MatchingParen(src, site.open)
  }

  /** The occurrences a sweep rewrites, from position `i` on, in order. */
  function SweepSites(src: seq<char>, next: nat -> Step, i: nat): seq<Site>
    requires Advancing(next, src) && i <= |src|
    decreases |src| - i
  {
    if i >= |src| then []
    else match next(i)
      case Finish => []
      case Skip(j) => SweepSites(src, next, j)
      case Wrap(a, j, m) => [Site(a, j, m)] + SweepSites(src, next, m + 1)
  }

  /** The occurrences the rewriter rewrites, scanning from `i`. */
  function Sites(src: seq<char>, f: seq<char>, i: nat): seq<Site>
    requires |f| > 0 && i <= |src|
  {
    StepsAdvance(src, f);
    SweepSites(src, Steps(src, f), i)
  }

  /** Sites within `[lo, n)`, each inside its own occurrence, and each one
      starting after the previous one's closing parenthesis. */
  ghost predicate Ordered(ss: seq<Site>, lo: nat, n: nat) {
    && (forall k :: 0 <= k < |ss| ==> lo <= ss[k].at < ss[k].open < ss[k].close < n)
    && (forall k, l :: 0 <= k < l < |ss| ==> ss[k].close < ss[l].at)
  }

  lemma ConsOrdered(site: Site, rest: seq<Site>, lo: nat, n: nat)
    requires lo <= site.at < site.open < site.close < n
    requires Ordered(rest, site.close + 1, n)
    ensures Ordered([site] + rest, lo, n)
  {
    var ss := [site] + rest;
    assert forall k :: 0 < k < |ss| ==> ss[k] == rest[k - 1];
  }

  /** The sites after the first lie beyond its closing parenthesis. */
  lemma OrderedTail(ss: seq<Site>, lo: nat, n: nat)
    requires |ss| > 0 && Ordered(ss, lo, n)
    ensures Ordered(ss[1..], ss[0].close, n)
  {
    assert forall k :: 0 <= k < |ss| - 1 ==> ss[1..][k] == ss[k + 1];
  }

  /** Moving the lower bound down keeps a list ordered. */
  lemma OrderedLater(ss: seq<Site>, lo: nat, j: nat, n: nat)
    requires lo <= j && Ordered(ss, j, n)
    ensures Ordered(ss, lo, n)
  {
  }

  lemma {:induction false} SweepSitesOrdered(src: seq<char>, next: nat -> Step, i: nat)
    requires Advancing(next, src) && i <= |src|
    ensures Ordered(SweepSites(src, next, i), i, |src|)
    decreases |src| - i
  {
    if i < |src| {
      var st := next(i);
      assert Fits(st, i, src);
      if st.Skip? {
        SweepSitesOrdered(src, next, st.next);
        OrderedLater(SweepSites(src, next, st.next), i, st.next, |src|);
      } else if st.Wrap? {
        SweepSitesOrdered(src, next, st.close + 1);
        ConsOrdered(Site(st.at, st.open, st.close), SweepSites(src, next, st.close + 1), i, |src|);
      }
    }
  }

  /** The rewriter's sites are ordered: each lies in the text after `i`, and
      each starts after the previous one's closing parenthesis, so no
      rewritten argument contains another rewritten site. */
  lemma SitesOrdered(src: seq<char>, f: seq<char>, i: nat)
    requires |f| > 0 && i <= |src|
    ensures Ordered(Sites(src, f, i), i, |src|)
  {
    StepsAdvance(src, f);
    SweepSitesOrdered(src, Steps(src, f), i);
  }

  /** Every site `next` wraps is a valid site for `f`. */
  ghost predicate WrapsValid(src: seq<char>, f: seq<char>, next: nat -> Step) {
    forall i: nat :: i < |src| && next(i).Wrap? ==>
      ValidSite(src, f, Site(next(i).at, next(i).open, next(i).close))
  }

  lemma StepsWrapValid(src: seq<char>, f: seq<char>)
    requires |f| > 0
    ensures WrapsValid(src, f, Steps(src, f))
  {
    forall i: nat | i < |src| && Steps(src, f)(i).Wrap?
      ensures ValidSite(src, f, Site(Steps(src, f)(i).at, Steps(src, f)(i).open, Steps(src, f)(i).close))
    {
      NextStepWrap(src, f, i);
    }
  }

  lemma {:induction false} SweepSitesValid(src: seq<char>, f: seq<char>, next: nat -> Step, i: nat)
    requires Advancing(next, src) && i <= |src| && WrapsValid(src, f, next)
    ensures forall site :: site in SweepSites(src, next, i) ==> ValidSite(src, f, site)
    decreases |src| - i
  {
    if i < |src| {
      var st := next(i);
      assert Fits(st, i, src);
      if st.Skip? {
        SweepSitesValid(src, f, next, st.next);
      } else if st.Wrap? {
        SweepSitesValid(src, f, next, st.close + 1);
        assert SweepSites(src, next, i) == [Site(st.at, st.open, st.close)] + SweepSites(src, next, st.close + 1);
      }
    }
  }

  /** Every site the rewriter rewrites is an occurrence of `f` followed by
      `(` and closed where `findMatchingParen` says. */
  lemma SitesValid(src: seq<char>, f: seq<char>, i: nat)
    requires |f| > 0 && i <= |src|
    ensures forall site :: site in Sites(src, f, i) ==> ValidSite(src, f, site)
  {
    StepsAdvance(src, f);
    StepsWrapValid(src, f);
    SweepSitesValid(src, f, Steps(src, f), i);
  }

  /** `f` occurs at `k` followed by `(`, and `findMatchingParen` finds the
      matching `)`: an occurrence the rewriter wraps once its scan reaches it. */
  ghost predicate Closable(src: seq<char>, f: seq<char>, k: nat) {
    && OccursAt(src, f, k)
    && k + |f| < |src|
    && src[k + |f|] == '('
    && MatchingParen(src, k + |f|) >= 0
  }

  /** `f` occurs at `k` followed by `(`, but that `(` is never closed: the
      scan copies the rest of the text and stops there. */
  ghost predicate Unclosed(src: seq<char>, f: seq<char>, k: nat) {
    && OccursAt(src, f, k)
    && k + |f| < |src|
    && src[k + |f|] == '('
    && MatchingParen(src, k + |f|) == -1
  }

  /** Unfolds `Sites` at a skipped occurrence. */
  lemma SitesSkipStep(src: seq<char>, f: seq<char>, i: nat, j: nat)
    requires |f| > 0 && i < |src| && NextStep(src, f, i) == Skip(j)
    ensures j <= |src| && Sites(src, f, i) == Sites(src, f, j)
  {
    assert Steps(src, f)(i) == NextStep(src, f, i);
  }

  /** Unfolds `Sites` at a rewritten site. */
  lemma SitesWrapStep(src: seq<char>, f: seq<char>, i: nat, a: nat, j: nat, m: nat)
    requires |f| > 0 && i < |src| && NextStep(src, f, i) == Wrap(a, j, m)
    ensures m < |src| && Sites(src, f, i) == [Site(a, j, m)] + Sites(src, f, m + 1)
  {
    assert Steps(src, f)(i) == NextStep(src, f, i);
  }

  /** The converse of `SitesValid`: every occurrence of `f` at or after `i`
      whose `(` is closed is rewritten, unless it lies inside the argument of
      an earlier rewritten site, overlaps an earlier occurrence (the scan
      resumes after that occurrence's end), or comes after an occurrence
      whose argument is never closed (the scan stops there). */
  lemma {:induction false} SitesComplete(src: seq<char>, f: seq<char>, i: nat, k: nat)
    requires |f| > 0 && i <= k && Closable(src, f, k)
    requires forall site :: site in Sites(src, f, i) ==> !(site.at < k <= site.close)
    requires forall q :: i <= q < k && OccursAt(src, f, q) ==> q + |f| <= k
    requires forall q :: i <= q < k ==> !Unclosed(src, f, q)
    ensures Site(k, k + |f|, MatchingParen(src, k + |f|)) in Sites(src, f, i)
    decreases |src| - i
  {
    IndexOfSpec(src, f, i);
    NextStepCases(src, f, i);
    var idx := IndexOf(src, f, i);
    assert idx != -1 && idx <= k;
    var j := idx + |f|;
    if idx == k {
      SitesWrapStep(src, f, i, k, j, MatchingParen(src, j));
    } else if j >= |src| || src[j] != '(' {
      SitesSkipStep(src, f, i, j);
      SitesComplete(src, f, j, k);
    } else {
      assert !Unclosed(src, f, idx);
      var m := MatchingParen(src, j);
      SitesWrapStep(src, f, i, idx, j, m);
      assert Site(idx, j, m) in Sites(src, f, i);
      SitesComplete(src, f, m + 1, k);
    }
  }

  /** `s[lo..]` with `ins` inserted immediately before each closing position
      of `ss`: an independent description of the rewriter's output. */
  function Splice(s: seq<char>, lo: nat, ss: seq<Site>, ins: seq<char>): seq<char>
    requires lo <= |s| && Ordered(ss, lo, |s|)
    decreases |ss|
  {
    if |ss| == 0 then s[lo..]
    else
      OrderedTail(ss, lo, |s|);
      s[lo..ss[0].close] + ins + Splice(s, ss[0].close, ss[1..], ins)
  }

  /** A sweep's output is its input with `ins` inserted immediately before
      the closing parenthesis of each site it rewrites. */
  lemma {:induction false} SweepIsSplice(src: seq<char>, next: nat -> Step, i: nat, ins: seq<char>)
    requires Advancing(next, src) && i <= |src|
    ensures Ordered(SweepSites(src, next, i), i, |src|)
    ensures Sweep(src, next, i, ins) == Splice(src, i, SweepSites(src, next, i), ins)
    decreases |src| - i
  {
    SweepSitesOrdered(src, next, i);
    if i < |src| {
      var st := next(i);
      if st.Finish? {
        assert Splice(src, i, [], ins) == src[i..];
      } else if st.Skip? {
        SweepIsSplice(src, next, st.next, ins);
        SweepSpliceSkip(src, next, i, ins);
      } else {
        SweepIsSplice(src, next, st.close + 1, ins);
        SweepSpliceWrap(src, next, i, st.at, st.open, st.close, ins);
      }
    }
  }

  /** The step of `SweepIsSplice` at a skipped occurrence. */
  lemma SweepSpliceSkip(src: seq<char>, next: nat -> Step, i: nat, ins: seq<char>)
    requires Advancing(next, src) && i < |src| && next(i).Skip?
    requires var j := next(i).next;
      j <= |src| && Ordered(SweepSites(src, next, j), j, |src|)
      && Sweep(src, next, j, ins) == Splice(src, j, SweepSites(src, next, j), ins)
    ensures Ordered(SweepSites(src, next, i), i, |src|)
    ensures Sweep(src, next, i, ins) == Splice(src, i, SweepSites(src, next, i), ins)
  {
    var j := next(i).next;
    assert Fits(next(i), i, src);
    SpliceLater(src, i, j, SweepSites(src, next, j), ins);
  }

  /** The step of `SweepIsSplice` at a rewritten site. */
  lemma SweepSpliceWrap(src: seq<char>, next: nat -> Step, i: nat, a: nat, j: nat, m: nat, ins: seq<char>)
    requires Advancing(next, src) && i < |src| && next(i) == Wrap(a, j, m)
    requires m < |src| && Ordered(SweepSites(src, next, m + 1), m + 1, |src|)
    requires Sweep(src, next, m + 1, ins) == Splice(src, m + 1, SweepSites(src, next, m + 1), ins)
    ensures Ordered(SweepSites(src, next, i), i, |src|)
    ensures Sweep(src, next, i, ins) == Splice(src, i, SweepSites(src, next, i), ins)
  {
    assert Fits(next(i), i, src);
    SpliceWrapStep(src, i, a, j, m, ins, SweepSites(src, next, m + 1),
                   Sweep(src, next, m + 1, ins), SweepSites(src, next, i), Sweep(src, next, i, ins));
  }

  /** The rewriter's output is its input with `ins` inserted immediately
      before the closing parenthesis of each rewritten site. */
  lemma RewriteIsSplice(src: seq<char>, f: seq<char>, i: nat, ins: seq<char>)
    requires |f| > 0 && i <= |src|
    ensures Ordered(Sites(src, f, i), i, |src|)
    ensures Rewrite(src, f, i, ins) == Splice(src, i, Sites(src, f, i), ins)
  {
    StepsAdvance(src, f);
    SweepIsSplice(src, Steps(src, f), i, ins);
  }

  /** The inductive step of `SweepIsSplice` for a rewritten site, stated
      over plain sequences. */
  lemma SpliceWrapStep(src: seq<char>, i: nat, a: nat, j: nat, m: nat, ins: seq<char>,
                       rest: seq<Site>, tail: seq<char>, ss: seq<Site>, out: seq<char>)
    requires i <= a < j < m < |src| && src[j] == '(' && src[m] == ')'
    requires Ordered(rest, m + 1, |src|)
    requires tail == Splice(src, m + 1, rest, ins)
    requires ss == [Site(a, j, m)] + rest
    requires out == src[i..j] + Wrapped(src[j + 1..m], ins) + tail
    ensures Ordered(ss, i, |src|)
    ensures out == Splice(src, i, ss, ins)
  {
    ConsOrdered(Site(a, j, m), rest, i, |src|);
    assert ss[1..] == rest;
    SpliceLater(src, m, m + 1, rest, ins);
    JoinWrap(src, i, j, m, ins, tail);
  }

  /** Reassembles one rewritten site: `(ARG` + `ins` + `)` is the source text
      up to the closing parenthesis, then `ins`, then the parenthesis. */
  lemma JoinWrap(s: seq<char>, i: nat, j: nat, m: nat, ins: seq<char>, tail: seq<char>)
    requires i <= j < m < |s| && s[j] == '(' && s[m] == ')'
    ensures s[i..j] + Wrapped(s[j + 1..m], ins) + tail == s[i..m] + ins + (s[m..m + 1] + tail)
  {
    assert s[i..m] == s[i..j] + [s[j]] + s[j + 1..m];
    assert s[m..m + 1] == [')'];
  }

  /** Starting the splice earlier only copies the extra text in front. */
  lemma SpliceLater(s: seq<char>, i: nat, j: nat, ss: seq<Site>, ins: seq<char>)
    requires i <= j <= |s| && Ordered(ss, j, |s|)
    ensures Ordered(ss, i, |s|)
    ensures Splice(s, i, ss, ins) == s[i..j] + Splice(s, j, ss, ins)
  {
    if |ss| > 0 {
      assert s[i..ss[0].close] == s[i..j] + s[j..ss[0].close];
    } else {
      assert s[i..] == s[i..j] + s[j..];
    }
  }

  /** Inserting `ins` changes the count of no character outside it. */
  lemma {:induction false} SpliceCount(c: char, s: seq<char>, lo: nat, ss: seq<Site>, ins: seq<char>)
    requires lo <= |s| && Ordered(ss, lo, |s|)
    requires c !in ins
    ensures Count(c, Splice(s, lo, ss, ins)) == Count(c, s[lo..])
    decreases |ss|
  {
    if |ss| > 0 {
      var p := ss[0].close;
      OrderedTail(ss, lo, |s|);
      SpliceCount(c, s, p, ss[1..], ins);
      assert s[lo..] == s[lo..p] + s[p..];
      assert multiset(ins)[c] == 0;
    }
  }

  /** `insertDegreeConversion(src, f)`. */
  function InsertDegreeConversion(src: seq<char>, f: seq<char>): seq<char>
    requires |f| > 0
  {
    Rewrite(src, f, 0, Radians)
  }

  /** The rewriter never adds or removes a parenthesis, nor any character
      that does not occur in `*Math.PI/180`. */
  lemma RewriteKeepsCount(c: char, src: seq<char>, f: seq<char>)
    requires |f| > 0 && c !in Radians
    ensures Count(c, InsertDegreeConversion(src, f)) == Count(c, src)
  {
    RewriteIsSplice(src, f, 0, Radians);
    SpliceCount(c, src, 0, Sites(src, f, 0), Radians);
    assert src[0..] == src;
  }

  /** The counts of `(` and of `)` are unchanged, hence so is the depth. */
  lemma RewriteKeepsParens(src: seq<char>, f: seq<char>)
    requires |f| > 0
    ensures Count('(', InsertDegreeConversion(src, f)) == Count('(', src)
    ensures Count(')', InsertDegreeConversion(src, f)) == Count(')', src)
    ensures Depth(InsertDegreeConversion(src, f)) == Depth(src)
  {
    RewriteKeepsCount('(', src, f);
    RewriteKeepsCount(')', src, f);
  }

  /** When `f` does not occur the input comes back unchanged. */
  lemma RewriteAbsent(src: seq<char>, f: seq<char>)
    requires |f| > 0 && IndexOf(src, f, 0) == -1
    ensures InsertDegreeConversion(src, f) == src
  {
    if |src| > 0 {
      RewriteNotFound(src, f, 0, Radians);
    }
    assert src[0..] == src;
  }

  /** Unfolds `Rewrite` where the scan stops. */
  lemma RewriteFinishStep(src: seq<char>, f: seq<char>, i: nat, ins: seq<char>)
    requires |f| > 0 && i < |src| && NextStep(src, f, i).Finish?
    ensures Rewrite(src, f, i, ins) == src[i..]
  {
    assert Steps(src, f)(i) == NextStep(src, f, i);
  }

  /** Unfolds `Rewrite` at a skipped occurrence. */
  lemma RewriteSkipStep(src: seq<char>, f: seq<char>, i: nat, ins: seq<char>)
    requires |f| > 0 && i < |src| && NextStep(src, f, i).Skip?
    ensures Rewrite(src, f, i, ins)
         == src[i..NextStep(src, f, i).next] + Rewrite(src, f, NextStep(src, f, i).next, ins)
  {
    assert Steps(src, f)(i) == NextStep(src, f, i);
  }

  /** Unfolds `Rewrite` at a rewritten site. */
  lemma RewriteWrapStep(src: seq<char>, f: seq<char>, i: nat, ins: seq<char>)
    requires |f| > 0 && i < |src| && NextStep(src, f, i).Wrap?
    ensures var st := NextStep(src, f, i);
      Rewrite(src, f, i, ins)
      == src[i..st.open] + Wrapped(src[st.open + 1..st.close], ins) + Rewrite(src, f, st.close + 1, ins)
  {
    assert Steps(src, f)(i) == NextStep(src, f, i);
  }

  /** The cases of one iteration, in terms of the loop's own variables. */
  lemma NextStepCases(src: seq<char>, f: seq<char>, i: nat)
    requires |f| > 0 && i < |src|
    ensures IndexOf(src, f, i) == -1 ==> NextStep(src, f, i).Finish?
    ensures var j := IndexOf(src, f, i) + |f|;
      IndexOf(src, f, i) != -1 && (j >= |src| || src[j] != '(') ==> NextStep(src, f, i) == Skip(j)
    ensures var j := IndexOf(src, f, i) + |f|;
      IndexOf(src, f, i) != -1 && j < |src| && src[j] == '(' && MatchingParen(src, j) == -1
      ==> NextStep(src, f, i).Finish?
    ensures var j := IndexOf(src, f, i) + |f|;
      IndexOf(src, f, i) != -1 && j < |src| && src[j] == '(' && MatchingParen(src, j) != -1
      ==> NextStep(src, f, i) == Wrap(IndexOf(src, f, i), j, MatchingParen(src, j))
  {
  }

  /** With no further occurrence of `f`, the rest is copied verbatim. */
  lemma RewriteNotFound(src: seq<char>, f: seq<char>, i: nat, ins: seq<char>)
    requires |f| > 0 && i < |src| && IndexOf(src, f, i) == -1
    ensures Rewrite(src, f, i, ins) == src[i..]
  {
    NextStepCases(src, f, i);
    RewriteFinishStep(src, f, i, ins);
  }

  /** An occurrence not followed by `(` is copied and the scan resumes right
      after it. */
  lemma RewriteSkips(src: seq<char>, f: seq<char>, i: nat, ins: seq<char>)
    requires |f| > 0 && i < |src|
    requires IndexOf(src, f, i) != -1
    requires var j := IndexOf(src, f, i) + |f|; j >= |src| || src[j] != '('
    ensures var j := IndexOf(src, f, i) + |f|;
      j <= |src| && Rewrite(src, f, i, ins) == src[i..j] + Rewrite(src, f, j, ins)
  {
    NextStepCases(src, f, i);
    RewriteSkipStep(src, f, i, ins);
  }

  /** When `findMatchingParen` finds no closing parenthesis, the rest is
      copied verbatim. */
  lemma RewriteGivesUp(src: seq<char>, f: seq<char>, i: nat, ins: seq<char>)
    requires |f| > 0 && i < |src|
    requires IndexOf(src, f, i) != -1
    requires var j := IndexOf(src, f, i) + |f|;
      j < |src| && src[j] == '(' && MatchingParen(src, j) == -1
    ensures Rewrite(src, f, i, ins) == src[i..]
  {
    NextStepCases(src, f, i);
    RewriteFinishStep(src, f, i, ins);
  }

  /** When the argument of an occurrence is never closed, the rest of the
      input is copied verbatim and nothing after it is rewritten. */
  lemma RewriteUnclosed(src: seq<char>, f: seq<char>, i: nat, ins: seq<char>)
    requires |f| > 0 && i < |src|
    requires IndexOf(src, f, i) != -1
    requires var j := IndexOf(src, f, i) + |f|;
      j < |src| && src[j] == '(' && OpenThrough(src, j, |src|)
    ensures Rewrite(src, f, i, ins) == src[i..]
  {
    MatchingParenSpec(src, IndexOf(src, f, i) + |f|);
    RewriteGivesUp(src, f, i, ins);
  }

  /** An occurrence followed by a closed argument `(ARG)` is copied up to the
      argument, which becomes `(ARG` + `ins` + `)`, and the scan resumes after
      the argument's closing parenthesis. */
  lemma RewriteWraps(src: seq<char>, f: seq<char>, i: nat, ins: seq<char>)
    requires |f| > 0 && i < |src|
    requires IndexOf(src, f, i) != -1
    requires var j := IndexOf(src, f, i) + |f|;
      j < |src| && src[j] == '(' && MatchingParen(src, j) != -1
    ensures var j := IndexOf(src, f, i) + |f|;
      var m := MatchingParen(src, j);
      && j < m < |src|
      && Rewrite(src, f, i, ins) == src[i..j] + Wrapped(src[j + 1..m], ins) + Rewrite(src, f, m + 1, ins)
  {
    NextStepCases(src, f, i);
    RewriteWrapStep(src, f, i, ins);
  }

  /** The loop of `insertDegreeConversion` written out over any step
      function: each iteration takes the step at `i` and copies the rest and
      stops, copies up to the next scan position, or copies up to the
      argument and wraps it. */
  method SweepLoop(src: seq<char>, next: nat -> Step, ins: seq<char>) returns (out: seq<char>)
    requires Advancing(next, src)
    ensures out == Sweep(src, next, 0, ins)
  {
    ghost var whole := Sweep(src, next, 0, ins);
    out := [];
    var i := 0;
    while i < |src|
      invariant i <= |src|
      invariant out + Sweep(src, next, i, ins) == whole
      decreases |src| - i
    {
      match next(i)
      case Finish =>
        SweepFinishes(src, next, i, ins, out, whole);
        out, i := out + src[i..], |src|;
      case Skip(j) =>
        SweepSkips(src, next, i, j, ins, out, whole);
        out, i := out + src[i..j], j;
      case Wrap(a, j, m) =>
        SweepWraps(src, next, i, a, j, m, ins, out, whole);
        out, i := out + (src[i..j] + Wrapped(src[j + 1..m], ins)), m + 1;
    }
  }

  /** The iteration that stops keeps the loop's invariant: the rest is
      copied and nothing is left to sweep. */
  lemma SweepFinishes(src: seq<char>, next: nat -> Step, i: nat, ins: seq<char>, out: seq<char>, whole: seq<char>)
    requires Advancing(next, src) && i < |src| && next(i) == Finish
    requires out + Sweep(src, next, i, ins) == whole
    ensures (out + src[i..]) + Sweep(src, next, |src|, ins) == whole
  {
    Regroup(out, src[i..], [], whole);
  }

  /** The iteration that skips to `j` keeps the loop's invariant. */
  lemma SweepSkips(src: seq<char>, next: nat -> Step, i: nat, j: nat, ins: seq<char>, out: seq<char>, whole: seq<char>)
    requires Advancing(next, src) && i < |src| && next(i) == Skip(j)
    requires out + Sweep(src, next, i, ins) == whole
    ensures i < j <= |src|
    ensures (out + src[i..j]) + Sweep(src, next, j, ins) == whole
  {
    assert Fits(next(i), i, src);
    Regroup(out, src[i..j], Sweep(src, next, j, ins), whole);
  }

  /** The iteration that wraps the argument `j..m` keeps the loop's
      invariant. */
  lemma SweepWraps(src: seq<char>, next: nat -> Step, i: nat, a: nat, j: nat, m: nat, ins: seq<char>,
                   out: seq<char>, whole: seq<char>)
    requires Advancing(next, src) && i < |src| && next(i) == Wrap(a, j, m)
    requires out + Sweep(src, next, i, ins) == whole
    ensures i < j < m < |src|
    ensures (out + (src[i..j] + Wrapped(src[j + 1..m], ins))) + Sweep(src, next, m + 1, ins) == whole
  {
    assert Fits(next(i), i, src);
    Regroup(out, src[i..j] + Wrapped(src[j + 1..m], ins), Sweep(src, next, m + 1, ins), whole);
  }

  /** Moving a finished piece from the part still to rewrite to the output. */
  lemma Regroup(out: seq<char>, piece: seq<char>, rest: seq<char>, whole: seq<char>)
    requires out + (piece + rest) == whole
    ensures (out + piece) + rest == whole
  {
  }

  /** `insertDegreeConversion` with its loop, each iteration taking the
      occurrence `indexOf` finds and the parenthesis `findMatchingParen`
      finds. */
  method InsertDegreeConversionLoop(src: seq<char>, f: seq<char>) returns (out: seq<char>)
    requires |f| > 0
    ensures out == InsertDegreeConversion(src, f)
  {
    StepsAdvance(src, f);
    out := SweepLoop(src, Steps(src, f), Radians);
  }
}
