/** The `%` key (`applyPercent`, script.js): the number at the end of the
    expression is rewritten as that number over 100. */
module Percent {
  import opened Strings

  datatype Option<T> = None | Some(value: T)

  predicate IsDigit(c: char) {
    '0' <= c <= '9'
  }

  /** Every character is a digit (the empty text included). */
  predicate AllDigits(t: seq<char>) {
    forall k :: 0 <= k < |t| ==> IsDigit(t[k])
  }

  /** `\d+`. */
  predicate DigitRun(t: seq<char>) {
    |t| > 0 && AllDigits(t)
  }

  /** `\d+(\.\d+)?|\.\d+`, matched against the whole of `t`: digits, or a
      dot with digits after it and, optionally, digits before it. */
  predicate MatchesNumber(t: seq<char>) {
    DigitRun(t)
    || exists k :: 0 <= k < |t| && t[k] == '.' && AllDigits(t[..k]) && DigitRun(t[k + 1..])
  }

  /** The same language described by its characters: only digits and dots,
      at most one dot, and a digit at the end. */
  predicate NumberShaped(t: seq<char>) {
    && |t| > 0
    && IsDigit(t[|t| - 1])
    && (forall k :: 0 <= k < |t| ==> IsDigit(t[k]) || t[k] == '.')
    && (forall a, b :: 0 <= a < b < |t| ==> !(t[a] == '.' && t[b] == '.'))
  }

  /** The pattern's two descriptions agree. */
  lemma MatchesNumberIsShaped(t: seq<char>)
    ensures MatchesNumber(t) <==> NumberShaped(t)
  {
    if MatchesNumber(t) && !DigitRun(t) {
      var k :| 0 <= k < |t| && t[k] == '.' && AllDigits(t[..k]) && DigitRun(t[k + 1..]);
      forall j | 0 <= j < |t| && j != k
        ensures IsDigit(t[j])
      {
        if j < k {
          assert t[j] == t[..k][j];
        } else {
          assert t[j] == t[k + 1..][j - k - 1];
        }
      }
      assert t[|t| - 1] == t[k + 1..][|t| - k - 2];
    }
    if NumberShaped(t) && !DigitRun(t) {
      var k :| 0 <= k < |t| && !IsDigit(t[k]);
      assert t[k] == '.';
      assert k != |t| - 1;
      forall j | 0 <= j < |t[..k]|
        ensures IsDigit(t[..k][j])
      {
        assert t[..k][j] == t[j];
        assert t[j] != '.';
      }
      var u := t[k + 1..];
      forall j | 0 <= j < |u|
        ensures IsDigit(u[j])
      {
        assert u[j] == t[k + 1 + j];
        assert t[k + 1 + j] != '.';
      }
    }
  }

  /** The start of the run of digits that ends at `j`. */
  function RunStart(e: seq<char>, j: nat): (i: nat)
    requires j <= |e|
    ensures i <= j
    decreases j
  {
    if j > 0 && IsDigit(e[j - 1]) then RunStart(e, j - 1) else j
  }

  lemma {:induction false} RunStartSpec(e: seq<char>, j: nat)
    requires j <= |e|
    ensures AllDigits(e[RunStart(e, j)..j])
    ensures RunStart(e, j) == 0 || !IsDigit(e[RunStart(e, j) - 1])
    decreases j
  {
    if j > 0 && IsDigit(e[j - 1]) {
      RunStartSpec(e, j - 1);
      var i := RunStart(e, j - 1);
      assert e[i..j] == e[i..j - 1] + [e[j - 1]];
    }
  }

  /** Where the regular expression's match begins: the last run of digits,
      reaching back over one dot and the digits before it; `None` when the
      expression does not end in a digit. */
  function NumberStart(e: seq<char>): Option<nat> {
    var i := RunStart(e, |e|);
    if i == |e| then None
    else if i > 0 && e[i - 1] == '.' then Some(RunStart(e, i - 1))
    else Some(i)
  }

  /** `NumberStart` finds the match of `(\d+(\.\d+)?|\.\d+)$`: there is none
      exactly when the expression does not end in a digit, and otherwise it
      is the longest suffix that matches, which is where a left-to-right
      regular-expression search first succeeds. */
  lemma NumberStartSpec(e: seq<char>)
    ensures NumberStart(e) == None <==> |e| == 0 || !IsDigit(e[|e| - 1])
    ensures NumberStart(e) == None ==> forall q :: 0 <= q <= |e| ==> !MatchesNumber(e[q..])
    ensures NumberStart(e).Some? ==>
      NumberStart(e).value < |e| && MatchesNumber(e[NumberStart(e).value..])
    ensures NumberStart(e).Some? ==>
      forall q :: 0 <= q < NumberStart(e).value ==> !MatchesNumber(e[q..])
  {
    var n := |e|;
    var i := RunStart(e, n);
    RunStartSpec(e, n);
    if i == n {
      NoNumber(e);
    } else if i > 0 && e[i - 1] == '.' {
      DotNumber(e, i);
    } else {
      assert e[i..n] == e[i..];
      ShapedRun(e, i);
      MatchesNumberIsShaped(e[i..]);
      NoEarlierRun(e, i);
    }
  }

  /** Without a trailing digit no suffix matches. */
  lemma NoNumber(e: seq<char>)
    requires |e| == 0 || !IsDigit(e[|e| - 1])
    ensures forall q :: 0 <= q <= |e| ==> !MatchesNumber(e[q..])
  {
    forall q | 0 <= q <= |e|
      ensures !MatchesNumber(e[q..])
    {
      MatchesNumberIsShaped(e[q..]);
      if q < |e| {
        assert e[q..][|e[q..]| - 1] == e[|e| - 1];
      }
    }
  }

  /** A final run of digits after a dot: the match starts at the run of
      digits before that dot. */
  lemma DotNumber(e: seq<char>, i: nat)
    requires 0 < i < |e| && e[i - 1] == '.' && i == RunStart(e, |e|)
    ensures MatchesNumber(e[RunStart(e, i - 1)..])
    ensures forall q :: 0 <= q < RunStart(e, i - 1) ==> !MatchesNumber(e[q..])
  {
    RunStartSpec(e, |e|);
    assert e[i..|e|] == e[i..];
    var s := RunStart(e, i - 1);
    RunStartSpec(e, i - 1);
    ShapedAfterDot(e, s, i);
    MatchesNumberIsShaped(e[s..]);
    NoEarlierDot(e, s, i - 1);
  }

  /** No suffix reaching back before `s` matches when the character before
      `s` is neither a digit nor a dot. */
  lemma NoEarlierRun(e: seq<char>, s: nat)
    requires s < |e|
    requires s == 0 || (!IsDigit(e[s - 1]) && e[s - 1] != '.')
    ensures forall q :: 0 <= q < s ==> !MatchesNumber(e[q..])
  {
    forall q | 0 <= q < s
      ensures !MatchesNumber(e[q..])
    {
      MatchesNumberIsShaped(e[q..]);
      assert e[q..][s - 1 - q] == e[s - 1];
    }
  }

  /** No suffix reaching back before `s` matches when a dot at `d` follows
      and the character before `s` is not a digit: it is either some other
      character or a second dot. */
  lemma NoEarlierDot(e: seq<char>, s: nat, d: nat)
    requires s <= d < |e| && e[d] == '.'
    requires s == 0 || !IsDigit(e[s - 1])
    ensures forall q :: 0 <= q < s ==> !MatchesNumber(e[q..])
  {
    forall q | 0 <= q < s
      ensures !MatchesNumber(e[q..])
    {
      MatchesNumberIsShaped(e[q..]);
      var t := e[q..];
      assert t[s - 1 - q] == e[s - 1] && t[d - q] == e[d];
    }
  }

  lemma ShapedRun(e: seq<char>, i: nat)
    requires i < |e| && AllDigits(e[i..])
    ensures NumberShaped(e[i..])
  {
  }

  lemma ShapedAfterDot(e: seq<char>, s: nat, i: nat)
    requires 0 <= s < i < |e| && e[i - 1] == '.'
    requires AllDigits(e[s..i - 1]) && AllDigits(e[i..])
    ensures NumberShaped(e[s..])
  {
    var t := e[s..];
    forall k | 0 <= k < |t|
      ensures IsDigit(t[k]) || t[k] == '.'
      ensures t[k] == '.' ==> k == i - 1 - s
    {
      if k < i - 1 - s {
        assert t[k] == e[s..i - 1][k];
      } else if k > i - 1 - s {
        assert t[k] == e[i..][k - (i - s)];
      }
    }
    assert t[|t| - 1] == e[i..][|e| - 1 - i];
  }

  /** `applyPercent`: the matched number becomes `(number/100)`; without a
      match the expression is unchanged. */
  function ApplyPercent(e: seq<char>): (r: seq<char>)
    ensures NumberStart(e) == None ==> r == e
  {
    match NumberStart(e)
    case None => e
    case Some(p) => e[..p] + "(" + e[p..] + "/100)"
  }

  /** What `%` does, stated against the pattern: an expression not ending in
      a digit is unchanged; otherwise the text before the longest numeric
      suffix is kept and that suffix `x` becomes `(x/100)`. */
  lemma ApplyPercentSpec(e: seq<char>)
    ensures |e| == 0 || !IsDigit(e[|e| - 1]) ==> ApplyPercent(e) == e
    ensures |e| > 0 && IsDigit(e[|e| - 1]) ==>
      exists p :: 0 <= p < |e| && MatchesNumber(e[p..])
        && (forall q :: 0 <= q < p ==> !MatchesNumber(e[q..]))
        && ApplyPercent(e) == e[..p] + "(" + e[p..] + "/100)"
  {
    NumberStartSpec(e);
  }

  /** `%` adds one `(` and one `)`: the parenthesis balance is unchanged. */
  lemma ApplyPercentDepth(e: seq<char>)
    ensures Depth(ApplyPercent(e)) == Depth(e)
  {
    match NumberStart(e)
    case None =>
    case Some(p) =>
      NumberStartSpec(e);
      assert e == e[..p] + e[p..];
      DepthConcat(e[..p], e[p..]);
      DepthConcat(e[..p], "(");
      DepthConcat(e[..p] + "(", e[p..]);
      DepthConcat(e[..p] + "(" + e[p..], "/100)");
      assert Depth("/100)") == -1;
  }

  /** The backward scan of the pattern match, with the loops written out. */
  method FindNumberStart(e: seq<char>) returns (r: Option<nat>)
    ensures r == NumberStart(e)
  {
    var i := |e|;
    while i > 0 && IsDigit(e[i - 1])
      invariant 0 <= i <= |e|
      invariant RunStart(e, i) == RunStart(e, |e|)
      decreases i
    {
      i := i - 1;
    }
    if i == |e| {
      return None;
    }
    if i > 0 && e[i - 1] == '.' {
      var s := i - 1;
      while s > 0 && IsDigit(e[s - 1])
        invariant 0 <= s <= i - 1
        invariant RunStart(e, s) == RunStart(e, i - 1)
        decreases s
      {
        s := s - 1;
      }
      return Some(s);
    }
    return Some(i);
  }

  /** `100+50%` gives `100+(50/100)`. */
  lemma PercentExample()
    ensures ApplyPercent("100+50") == "100+(50/100)"
  {
    var e := "100+50";
    assert RunStart(e, 6) == 4;
    assert e[..4] == "100+" && e[4..] == "50";
  }
}
