/** The matching-parenthesis search of `findMatchingParen` (script.js). */
module Parens {
  import opened Strings

  /** Where the search begins: `openIndex` itself when it holds `(`, otherwise
      the first `(` at or after it, found with `indexOf` (which treats a
      negative start as 0); -1 when there is none. */
  function OpenStart(s: seq<char>, openIndex: int): (st: int)
    ensures st == -1 || (0 <= st < |s| && openIndex <= st)
    ensures 0 <= openIndex < |s| && s[openIndex] == '(' ==> st == openIndex
  {
    if 0 <= openIndex < |s| && s[openIndex] == '(' then openIndex
    else IndexOf(s, "(", if openIndex < 0 then 0 else openIndex)
  }

  /** The search begins at the first `(` at or after `openIndex`, and there is
      none when `OpenStart` is -1. */
  lemma OpenStartSpec(s: seq<char>, openIndex: int)
    ensures var st := OpenStart(s, openIndex);
      st != -1 ==> s[st] == '(' && forall k :: openIndex <= k < st && 0 <= k ==> s[k] != '('
    ensures OpenStart(s, openIndex) == -1 ==> forall k :: openIndex <= k < |s| && 0 <= k ==> s[k] != '('
  {
    var from := if openIndex < 0 then 0 else openIndex;
    IndexOfSpec(s, "(", from);
    forall k | 0 <= k < |s|
      ensures OccursAt(s, "(", k) <==> s[k] == '('
    {
      assert s[k..k + 1] == [s[k]];
    }
  }

  /** The scanning loop of `findMatchingParen`, from index `k` with running
      depth `depth`: it returns at the first `)` that brings the depth to 0. */
  function Scan(s: seq<char>, k: nat, depth: int): int
    decreases |s| - k
  {
    if k >= |s| then -1
    else if s[k] == '(' then Scan(s, k + 1, depth + 1)
    else if s[k] == ')' then (if depth - 1 == 0 then k else Scan(s, k + 1, depth - 1))
    else Scan(s, k + 1, depth)
  }

  /** Depth of the slice `s[st..e]`. */
  function SpanDepth(s: seq<char>, st: nat, e: nat): int
    requires st <= e <= |s|
  {
    Depth(s[st..e])
  }

  /** The parenthesis opened at `st` is still open after each of `s[st..k]`. */
  ghost predicate OpenThrough(s: seq<char>, st: nat, k: nat)
    requires st <= k <= |s|
  {
    forall e :: st < e <= k ==> SpanDepth(s, st, e) > 0
  }

  /** `r` closes the parenthesis opened at `st`: the depth of `s[st..r+1]` is 0
      and no shorter prefix reaches 0. */
  ghost predicate Closes(s: seq<char>, st: nat, r: int)
    requires st <= |s|
  {
    st < r < |s| && s[r] == ')' && SpanDepth(s, st, r + 1) == 0 && OpenThrough(s, st, r)
  }

  lemma DepthStep(s: seq<char>, st: nat, k: nat)
    requires st <= k < |s|
    ensures Depth(s[st..k + 1])
         == Depth(s[st..k]) + (if s[k] == '(' then 1 else if s[k] == ')' then -1 else 0)
  {
    assert s[st..k + 1] == s[st..k] + [s[k]];
  }

  /** The scan from `k`, entered with the depth of `s[st..k]`, finds exactly
      the first index at which that depth returns to zero. */
  lemma {:induction false} ScanFindsClose(s: seq<char>, st: nat, k: nat, depth: int)
    requires st < k <= |s|
    requires depth == Depth(s[st..k]) && OpenThrough(s, st, k)
    ensures Scan(s, k, depth) == -1 <==> OpenThrough(s, st, |s|)
    ensures Scan(s, k, depth) != -1 ==> Closes(s, st, Scan(s, k, depth))
    decreases |s| - k
  {
    if k < |s| {
      DepthStep(s, st, k);
      assert depth > 0 by {
        assert SpanDepth(s, st, k) > 0;
      }
      if s[k] == ')' && depth - 1 == 0 {
        assert SpanDepth(s, st, k + 1) == 0;
      } else {
        ScanFindsClose(s, st, k + 1, Depth(s[st..k + 1]));
      }
    }
  }

  /** `findMatchingParen(str, openIndex)`: the scan from where the search
      begins, or -1 when there is no `(` to start from. */
  function MatchingParen(s: seq<char>, openIndex: int): int {
    var st := OpenStart(s, openIndex);
    if st == -1 then -1 else Scan(s, st, 0)
  }

  /** `findMatchingParen` returns the index of the `)` that closes the `(`
      where the search begins, and -1 exactly when there is no such `(` or the
      string ends while it is still open. */
  lemma MatchingParenSpec(s: seq<char>, openIndex: int)
    ensures var r := MatchingParen(s, openIndex);
      r == -1 <==> OpenStart(s, openIndex) == -1 || OpenThrough(s, OpenStart(s, openIndex), |s|)
    ensures var r := MatchingParen(s, openIndex);
      r != -1 ==> Closes(s, OpenStart(s, openIndex), r)
  {
    var st := OpenStart(s, openIndex);
    OpenStartSpec(s, openIndex);
    if st != -1 {
      assert s[st..st + 1] == ['('];
      ScanFindsClose(s, st, st + 1, 1);
    }
  }

  /** The loop of `findMatchingParen`, with a running depth counter. */
  method FindMatchingParen(s: seq<char>, openIndex: int) returns (r: int)
    ensures r == MatchingParen(s, openIndex)
  {
    var st := openIndex;
    if !(0 <= st < |s| && s[st] == '(') {
      st := IndexOf(s, "(", if openIndex < 0 then 0 else openIndex);
      if st == -1 {
        return -1;
      }
    }
    var depth := 0;
    var k := st;
    while k < |s|
      invariant st <= k <= |s|
      invariant Scan(s, k, depth) == Scan(s, st, 0)
      decreases |s| - k
    {
      if s[k] == '(' {
        depth := depth + 1;
      } else if s[k] == ')' {
        depth := depth - 1;
        if depth == 0 {
          return k;
        }
      }
      k := k + 1;
    }
    return -1;
  }
}
