/** The string step of `formatNumber` (script.js): a `toFixed(10)` text
    loses its trailing zeros, and its dot when nothing else is left after
    it, through `replace(/\.?0+$/, '')`. */
module Format {

  /** `0+`: a non-empty run of zeros. */
  predicate Zeros(t: seq<char>) {
    |t| > 0 && forall k :: 0 <= k < |t| ==> t[k] == '0'
  }

  /** `\.?0+`, matched against the whole of `t`. */
  predicate TrimMatches(t: seq<char>) {
    Zeros(t) || (|t| > 0 && t[0] == '.' && Zeros(t[1..]))
  }

  /** The start of the run of zeros that ends at `j`. */
  function ZeroStart(s: seq<char>, j: nat): (z: nat)
    requires j <= |s|
    ensures z <= j
    decreases j
  {
    if j > 0 && s[j - 1] == '0' then ZeroStart(s, j - 1) else j
  }

  lemma {:induction false} ZeroStartSpec(s: seq<char>, j: nat)
    requires j <= |s|
    ensures forall k :: ZeroStart(s, j) <= k < j ==> s[k] == '0'
    ensures ZeroStart(s, j) == 0 || s[ZeroStart(s, j) - 1] != '0'
    decreases j
  {
    if j > 0 && s[j - 1] == '0' {
      ZeroStartSpec(s, j - 1);
    }
  }

  /** Where the pattern's match begins, or `|s|` when there is none: the
      trailing zeros, together with a dot just before them. */
  function TrimStart(s: seq<char>): (q: nat)
    ensures q <= |s|
  {
    var z := ZeroStart(s, |s|);
    if z < |s| && z > 0 && s[z - 1] == '.' then z - 1 else z
  }

  /** `s.replace(/\.?0+$/, '')`. */
  function TrimZeros(s: seq<char>): (r: seq<char>)
    ensures r <= s
  {
    s[..TrimStart(s)]
  }

  /** `TrimStart` is where a left-to-right search for `\.?0+$` first
      succeeds: no suffix starting earlier matches, and the suffix starting
      there matches unless the text does not end in `0` (then there is no
      match and nothing is removed). */
  lemma TrimStartSpec(s: seq<char>)
    ensures TrimStart(s) == |s| <==> |s| == 0 || s[|s| - 1] != '0'
    ensures TrimStart(s) < |s| ==> TrimMatches(s[TrimStart(s)..])
    ensures forall q :: 0 <= q < TrimStart(s) ==> !TrimMatches(s[q..])
  {
    var z := ZeroStart(s, |s|);
    ZeroStartSpec(s, |s|);
    if z < |s| {
      assert s[|s| - 1] == '0';
    }
    forall q | 0 <= q < TrimStart(s)
      ensures !TrimMatches(s[q..])
    {
      var t := s[q..];
      if q < z - 1 || (q == z - 1 && s[z - 1] != '.') {
        assert t[z - 1 - q] == s[z - 1];
      }
    }
  }

  /** The trailing-zero cut of a digit text: `F` with its trailing zeros
      removed. */
  function DropZeros(f: seq<char>): (r: seq<char>)
    ensures r <= f
  {
    f[..ZeroStart(f, |f|)]
  }

  /** On a `toFixed` text `I.F` the trim never touches the integer part:
      it removes the fraction's trailing zeros, and the dot as well when the
      fraction was all zeros. */
  lemma FixedTrim(i: seq<char>, f: seq<char>)
    requires '.' !in i && '.' !in f && |f| > 0
    ensures TrimZeros(i + "." + f) ==
      if Zeros(f) then i else i + "." + DropZeros(f)
  {
    var s := i + "." + f;
    var n := |i| + 1;
    assert s[..n] == i + "." && s[n..] == f;
    ZeroStartsAfter(s, n);
    ZeroStartSpec(f, |f|);
    if Zeros(f) {
      assert ZeroStart(f, |f|) == 0;
      assert s[n - 1] == '.';
      assert s[..n - 1] == i;
    } else {
      var k :| 0 <= k < |f| && f[k] != '0';
      assert ZeroStart(f, |f|) > k;
      assert s[..n + ZeroStart(f, |f|)] == i + "." + DropZeros(f);
    }
  }

  /** A run of zeros inside the tail `s[n..]` starts at the same place as
      the run measured on the tail alone. */
  lemma {:induction false} ZeroStartsAfter(s: seq<char>, n: nat)
    requires n <= |s|
    ensures ZeroStart(s, |s|) == if ZeroStart(s[n..], |s| - n) == 0
      then ZeroStart(s, n) else n + ZeroStart(s[n..], |s| - n)
  {
    ZeroStartShift(s, n, |s|);
  }

  lemma {:induction false} ZeroStartShift(s: seq<char>, n: nat, j: nat)
    requires n <= j <= |s|
    ensures ZeroStart(s, j) == if ZeroStart(s[n..], j - n) == 0
      then ZeroStart(s, n) else n + ZeroStart(s[n..], j - n)
    decreases j
  {
    if j > n {
      assert s[n..][j - n - 1] == s[j - 1];
      if s[j - 1] == '0' {
        ZeroStartShift(s, n, j - 1);
      }
    }
  }

  /** The backward scan of the pattern match, with the loop written out. */
  method TrimFixed(s: seq<char>) returns (r: seq<char>)
    ensures r == TrimZeros(s)
  {
    var q := |s|;
    while q > 0 && s[q - 1] == '0'
      invariant 0 <= q <= |s|
      invariant ZeroStart(s, q) == ZeroStart(s, |s|)
      decreases q
    {
      q := q - 1;
    }
    if q < |s| && q > 0 && s[q - 1] == '.' {
      q := q - 1;
    }
    r := s[..q];
  }

  /** `2.5000000000` becomes `2.5`. */
  lemma TrimExampleFraction()
    ensures TrimZeros("2.5000000000") == "2.5"
  {
    var f := "5000000000";
    FixedTrim("2", f);
    assert "2" + "." + f == "2.5000000000";
    assert f[0] != '0';
    assert ZeroStart(f, 10) == 1;
  }

  /** `3.0000000000` becomes `3`. */
  lemma TrimExampleWhole()
    ensures TrimZeros("3.0000000000") == "3"
  {
    var f := "0000000000";
    FixedTrim("3", f);
    assert "3" + "." + f == "3.0000000000";
  }

  /** A fraction whose digits all show is left alone. */
  lemma TrimExampleFull()
    ensures TrimZeros("0.1234567891") == "0.1234567891"
  {
    var f := "1234567891";
    FixedTrim("0", f);
    assert "0" + "." + f == "0.1234567891";
    assert f[0] != '0';
    assert ZeroStart(f, 10) == 10;
  }
}
