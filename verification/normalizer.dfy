/** The string stage of `safeEval` (script.js): the literal replace-all
    passes that turn the displayed expression into JavaScript source, followed
    by the three degree-conversion rewrites. */
module Normalizer {
  import opened Strings
  import opened DegreeConversion

  /** `Math.PI` printed as a JavaScript number. */
  const PiDigits: seq<char> := "3.141592653589793"

  /** `(${Math.PI})`: the text that replaces each `π`. */
  const PiText: seq<char> := "(" + PiDigits + ")"

  /** The display glyphs the first passes translate. */
  const Glyphs: seq<char> := "×÷−π^"

  /** Lines 76-81: one single-character pass per display glyph. */
  const GlyphPasses: seq<Pass> :=
    [Pass("×", "*"), Pass("÷", "/"), Pass("−", "-"), Pass("π", PiText), Pass("^", "**")]

  lemma PassesWellFormed()
    ensures WellFormed(GlyphPasses)
  {
  }

  /** Lines 76-81. */
  function GlyphStage(s: seq<char>): seq<char> {
    PassesWellFormed();
    ApplyPasses(s, GlyphPasses)
  }

  /** Line 85: function names to upper-case placeholders. */
  function Lower(s: seq<char>): seq<char> {
    var s1 := ReplaceAll(s, "sin(", "SIN(");
    var s2 := ReplaceAll(s1, "cos(", "COS(");
    var s3 := ReplaceAll(s2, "tan(", "TAN(");
    ReplaceAll(s3, "sqrt(", "SQRT(")
  }

  /** Line 88: placeholders to `Math` calls, the trigonometric ones with an
      extra parenthesis. */
  function Raise(s: seq<char>): seq<char> {
    var s1 := ReplaceAll(s, "SIN(", "Math.sin((");
    var s2 := ReplaceAll(s1, "COS(", "Math.cos((");
    var s3 := ReplaceAll(s2, "TAN(", "Math.tan((");
    ReplaceAll(s3, "SQRT(", "Math.sqrt(")
  }

  /** Line 92: one more parenthesis after every `Math.sin((`. */
  function Mark(s: seq<char>): seq<char> {
    ReplaceAll(s, "Math.sin((", "Math.sin(((")
  }

  /** Lines 85-92. */
  function NameStage(s: seq<char>): seq<char> {
    Mark(Raise(Lower(s)))
  }

  /** Lines 94-96: the three degree-conversion rewrites. */
  function Convert(s: seq<char>): seq<char> {
    InsertDegreeConversion(
      InsertDegreeConversion(InsertDegreeConversion(s, "Math.sin("), "Math.cos("), "Math.tan(")
  }

  /** For a non-empty input, the source text `safeEval` hands to
      `new Function` (after `return `): every replace-all pass followed by the
      three rewrites. For an empty input `safeEval` returns `""` at line 74
      and builds no function; the model gives the empty text there. */
  function Normalize(input: seq<char>): seq<char> {
    if |input| == 0 then "" else Convert(NameStage(GlyphStage(input)))
  }

  // ---------------------------------------------------------------------
  // The glyph passes as a character-by-character translation

  /** What one character becomes under the glyph passes. */
  function GlyphImage(c: char): seq<char> {
    if c == '×' then "*"
    else if c == '÷' then "/"
    else if c == '−' then "-"
    else if c == 'π' then PiText
    else if c == '^' then "**"
    else [c]
  }

  /** Each character replaced by its `GlyphImage`: an independent definition
      of the glyph passes. */
  function Transliterate(s: seq<char>): seq<char>
    decreases |s|
  {
    if |s| == 0 then [] else GlyphImage(s[0]) + Transliterate(s[1..])
  }

  lemma {:induction false} SealedFromSingle(x: seq<char>, p: seq<char>, j: nat)
    requires |p| == 1
    ensures SealedFrom(x, p, j)
    decreases |x| - j
  {
    if j < |x| {
      SealedFromSingle(x, p, j + 1);
    }
  }

  /** A glyph pass's pattern is one character, so no cut is ever straddled. */
  lemma {:induction false} GlyphPassesSealed(x: seq<char>, ps: seq<Pass>)
    requires forall i :: 0 <= i < |ps| ==> |ps[i].pattern| == 1
    ensures WellFormed(ps) && SealedThrough(x, ps)
    decreases |ps|
  {
    if |ps| > 0 {
      SealedFromSingle(x, ps[0].pattern, 0);
      GlyphPassesSealed(ReplaceAll(x, ps[0].pattern, ps[0].replacement), ps[1..]);
    }
  }

  lemma ReplaceAllSingle(c: char, p: seq<char>, r: seq<char>)
    requires |p| == 1
    ensures ReplaceAll([c], p, r) == if p[0] == c then r else [c]
  {
    assert [c][..1] == [c];
    assert [c][1..] == [];
  }

  /** A one-character text meets the single-character pass `ps[i]` that
      matches it, after passes that leave it alone, and none of the later
      passes matches anything in the replacement. */
  lemma {:induction false} ApplyPassesOnChar(c: char, ps: seq<Pass>, i: nat)
    requires WellFormed(ps) && i < |ps| && ps[i].pattern == [c]
    requires forall j :: 0 <= j < i ==> |ps[j].pattern| == 1 && ps[j].pattern[0] != c
    requires forall j :: i < j < |ps| ==> ps[j].pattern[0] !in ps[i].replacement
    ensures ApplyPasses([c], ps) == ps[i].replacement
    decreases i
  {
    ReplaceAllSingle(c, ps[0].pattern, ps[0].replacement);
    if i == 0 {
      ApplyPassesInert(ps[0].replacement, ps[1..]);
    } else {
      ApplyPassesOnChar(c, ps[1..], i - 1);
    }
  }

  /** The glyph passes, one per glyph in order. */
  lemma GlyphPassesShape()
    ensures |GlyphPasses| == |Glyphs|
    ensures forall i :: 0 <= i < |Glyphs| ==>
      GlyphPasses[i] == Pass([Glyphs[i]], GlyphImage(Glyphs[i]))
  {
  }

  lemma GlyphsDistinct()
    ensures forall i, j :: 0 <= i < j < |Glyphs| ==> Glyphs[i] != Glyphs[j]
  {
  }

  /** A glyph's image holds no glyph. */
  lemma GlyphImageGlyphFree(c: char)
    requires c in Glyphs
    ensures GlyphFree(GlyphImage(c))
  {
  }

  /** One character through the glyph passes gives its `GlyphImage`. */
  lemma GlyphStageChar(c: char)
    ensures GlyphStage([c]) == GlyphImage(c)
  {
    PassesWellFormed();
    if c in Glyphs {
      GlyphPassesShape();
      GlyphsDistinct();
      var i :| 0 <= i < |Glyphs| && Glyphs[i] == c;
      GlyphImageGlyphFree(c);
      forall j | i < j < |GlyphPasses|
        ensures GlyphPasses[j].pattern[0] !in GlyphPasses[i].replacement
      {
        GlyphFreeHasNoGlyphs(Glyphs[j], GlyphImage(c));
      }
      ApplyPassesOnChar(c, GlyphPasses, i);
    } else {
      GlyphStageOther(c);
    }
  }

  /** A character that is not a display glyph passes through unchanged. */
  lemma GlyphStageOther(c: char)
    requires c !in Glyphs
    ensures GlyphStage([c]) == [c]
  {
    PassesWellFormed();
    forall i | 0 <= i < |GlyphPasses|
      ensures GlyphPasses[i].pattern[0] !in [c]
    {
    }
    ApplyPassesInert([c], GlyphPasses);
  }

  /** The glyph passes translate the input character by character: each `×`,
      `÷`, `−` becomes `*`, `/`, `-`, each `π` becomes `(3.141592653589793)`,
      each `^` becomes `**`, and every other character is kept in place. */
  lemma {:induction false} GlyphStageIsTransliterate(s: seq<char>)
    ensures GlyphStage(s) == Transliterate(s)
    decreases |s|
  {
    if |s| > 0 {
      GlyphPassesSealed([s[0]], GlyphPasses);
      assert s == [s[0]] + s[1..];
      ApplyPassesSplit([s[0]], s[1..], GlyphPasses);
      GlyphStageChar(s[0]);
      GlyphStageIsTransliterate(s[1..]);
    } else {
      PassesWellFormed();
      ApplyPassesInert(s, GlyphPasses);
    }
  }

  /** No glyph survives the translation. */
  lemma {:induction false} TransliterateHasNoGlyphs(s: seq<char>)
    ensures forall g :: g in Glyphs ==> g !in Transliterate(s)
    decreases |s|
  {
    if |s| > 0 {
      TransliterateHasNoGlyphs(s[1..]);
    }
  }

  /** After lines 76-81 the text contains none of `×`, `÷`, `−`, `π`, `^`. */
  lemma GlyphStageHasNoGlyphs(s: seq<char>)
    ensures forall g :: g in Glyphs ==> g !in GlyphStage(s)
  {
    GlyphStageIsTransliterate(s);
    TransliterateHasNoGlyphs(s);
  }

  /** Running the glyph passes a second time changes nothing. */
  lemma GlyphStageIdempotent(s: seq<char>)
    ensures GlyphStage(GlyphStage(s)) == GlyphStage(s)
  {
    var t := GlyphStage(s);
    GlyphStageHasNoGlyphs(s);
    PassesWellFormed();
    forall i | 0 <= i < |GlyphPasses|
      ensures GlyphPasses[i].pattern[0] !in t
    {
      assert GlyphPasses[i].pattern[0] in Glyphs;
    }
    ApplyPassesInert(t, GlyphPasses);
  }

  /** Text written only with ASCII characters other than `^`; no display
      glyph can occur in it. */
  predicate GlyphFree(s: seq<char>) {
    forall k :: 0 <= k < |s| ==> s[k] as int < 128 && s[k] != '^'
  }

  lemma GlyphFreeHasNoGlyphs(g: char, s: seq<char>)
    requires g in Glyphs && GlyphFree(s)
    ensures g !in s
  {
    assert g == '^' || g as int > 127;
  }

  /** The rewriter's insertion holds no glyph. */
  lemma RadiansGlyphFree()
    ensures GlyphFree(Radians)
  {
  }

  /** The three rewrites keep the count of every character that does not
      occur in `*Math.PI/180`, parentheses included. */
  lemma ConvertKeepsCount(c: char, u: seq<char>)
    requires c !in Radians
    ensures Count(c, Convert(u)) == Count(c, u)
  {
    var u1 := InsertDegreeConversion(u, "Math.sin(");
    var u2 := InsertDegreeConversion(u1, "Math.cos(");
    RewriteKeepsCount(c, u, "Math.sin(");
    RewriteKeepsCount(c, u1, "Math.cos(");
    RewriteKeepsCount(c, u2, "Math.tan(");
  }

  /** The rewrites keep the parenthesis balance. */
  lemma ConvertKeepsDepth(u: seq<char>)
    ensures Depth(Convert(u)) == Depth(u)
  {
    assert '(' !in Radians && ')' !in Radians;
    ConvertKeepsCount('(', u);
    ConvertKeepsCount(')', u);
  }

  /** A pass whose replacement holds no glyph lets none in. */
  lemma PassKeepsGlyphOut(g: char, s: seq<char>, p: seq<char>, r: seq<char>)
    requires |p| > 0 && g in Glyphs && g !in s && GlyphFree(r)
    ensures g !in ReplaceAll(s, p, r)
  {
    GlyphFreeHasNoGlyphs(g, r);
    ReplaceAllKeepsOut(g, s, p, r);
  }

  lemma LowerKeepsGlyphOut(g: char, s: seq<char>)
    requires g in Glyphs && g !in s
    ensures g !in Lower(s)
  {
    var s1 := ReplaceAll(s, "sin(", "SIN(");
    var s2 := ReplaceAll(s1, "cos(", "COS(");
    var s3 := ReplaceAll(s2, "tan(", "TAN(");
    PassKeepsGlyphOut(g, s, "sin(", "SIN(");
    PassKeepsGlyphOut(g, s1, "cos(", "COS(");
    PassKeepsGlyphOut(g, s2, "tan(", "TAN(");
    PassKeepsGlyphOut(g, s3, "sqrt(", "SQRT(");
  }

  lemma RaiseKeepsGlyphOut(g: char, s: seq<char>)
    requires g in Glyphs && g !in s
    ensures g !in Raise(s)
  {
    var s1 := ReplaceAll(s, "SIN(", "Math.sin((");
    var s2 := ReplaceAll(s1, "COS(", "Math.cos((");
    var s3 := ReplaceAll(s2, "TAN(", "Math.tan((");
    PassKeepsGlyphOut(g, s, "SIN(", "Math.sin((");
    PassKeepsGlyphOut(g, s1, "COS(", "Math.cos((");
    PassKeepsGlyphOut(g, s2, "TAN(", "Math.tan((");
    PassKeepsGlyphOut(g, s3, "SQRT(", "Math.sqrt(");
  }

  /** For a non-empty input, the text handed to `new Function` contains none
      of the display glyphs: the later passes and the rewriter never put one
      back. */
  lemma NormalizeHasNoGlyphs(input: seq<char>)
    ensures forall g :: g in Glyphs ==> g !in Normalize(input)
  {
    if |input| > 0 {
      GlyphStageHasNoGlyphs(input);
      forall g | g in Glyphs
        ensures g !in Normalize(input)
      {
        var t := GlyphStage(input);
        LowerKeepsGlyphOut(g, t);
        RaiseKeepsGlyphOut(g, Lower(t));
        PassKeepsGlyphOut(g, Raise(Lower(t)), "Math.sin((", "Math.sin(((");
        RadiansGlyphFree();
        GlyphFreeHasNoGlyphs(g, Radians);
        ConvertKeepsCount(g, NameStage(t));
      }
    }
  }

  // ---------------------------------------------------------------------
  // Parentheses

  lemma SinTextDepth()
    ensures Depth("Math.sin(((") == 3
  {
  }

  lemma CosTextDepth()
    ensures Depth("Math.cos((") == 2
  {
  }

  lemma TanTextDepth()
    ensures Depth("Math.tan((") == 2
  {
  }

  lemma SqrtTextDepth()
    ensures Depth("Math.sqrt(") == 1
  {
  }

  lemma PiTextDepth()
    ensures Depth(PiText) == 0
  {
    assert '(' !in PiDigits && ')' !in PiDigits;
    DepthConcat("(", PiDigits);
    DepthConcat("(" + PiDigits, ")");
  }

  /** A text with no parenthesis has depth 0. */
  lemma NoParensDepth(s: seq<char>)
    requires '(' !in s && ')' !in s
    ensures Depth(s) == 0
  {
    assert multiset(s)['('] == 0 && multiset(s)[')'] == 0;
  }

  /** Each glyph's image has the parenthesis depth of the glyph itself. */
  lemma GlyphImageDepth(c: char)
    ensures Depth(GlyphImage(c)) == Depth([c])
  {
    if c == 'π' {
      PiTextDepth();
      NoParensDepth([c]);
    } else if c == '×' || c == '÷' || c == '−' || c == '^' {
      NoParensDepth([c]);
      OperatorImageDepth(c);
    }
  }

  lemma OperatorImageDepth(c: char)
    requires c == '×' || c == '÷' || c == '−' || c == '^'
    ensures Depth(GlyphImage(c)) == 0
  {
    var img := GlyphImage(c);
    assert img == "*" || img == "/" || img == "-" || img == "**";
    NoParensDepth(img);
  }

  /** The translation keeps the parenthesis depth. */
  lemma {:induction false} TransliterateDepth(s: seq<char>)
    ensures Depth(Transliterate(s)) == Depth(s)
    decreases |s|
  {
    if |s| > 0 {
      TransliterateDepth(s[1..]);
      GlyphImageDepth(s[0]);
      DepthConcat(GlyphImage(s[0]), Transliterate(s[1..]));
      assert s == [s[0]] + s[1..];
      DepthConcat([s[0]], s[1..]);
    }
  }

  /** Lines 76-81 keep the parenthesis depth: `π` becomes a parenthesised
      number, and no other glyph image holds a parenthesis. */
  lemma GlyphStageKeepsDepth(s: seq<char>)
    ensures Depth(GlyphStage(s)) == Depth(s)
  {
    GlyphStageIsTransliterate(s);
    TransliterateDepth(s);
  }

  lemma MulNonNegative(m: nat, d: int)
    requires d >= 0
    ensures m * d >= 0
  {
  }

  /** A pass whose replacement opens at least as many parentheses as its
      pattern never lowers the depth. */
  lemma PassNeverCloses(s: seq<char>, p: seq<char>, r: seq<char>, dp: int, dr: int)
    requires |p| > 0 && Depth(p) == dp && Depth(r) == dr && dp <= dr
    ensures Depth(ReplaceAll(s, p, r)) >= Depth(s)
    ensures dp == dr ==> Depth(ReplaceAll(s, p, r)) == Depth(s)
  {
    ReplaceAllDepth(s, p, r);
    MulNonNegative(Matches(s, p), dr - dp);
  }

  lemma SinNameDepths()
    ensures Depth("sin(") == 1 && Depth("SIN(") == 1
  {
  }

  lemma CosNameDepths()
    ensures Depth("cos(") == 1 && Depth("COS(") == 1
  {
  }

  lemma TanNameDepths()
    ensures Depth("tan(") == 1 && Depth("TAN(") == 1
  {
  }

  lemma SqrtNameDepths()
    ensures Depth("sqrt(") == 1 && Depth("SQRT(") == 1
  {
  }

  lemma MathDepths()
    ensures Depth("Math.sin((") == 2
  {
  }

  /** Line 85 keeps the parenthesis depth. */
  lemma LowerKeepsDepth(s: seq<char>)
    ensures Depth(Lower(s)) == Depth(s)
  {
    SinNameDepths();
    CosNameDepths();
    TanNameDepths();
    SqrtNameDepths();
    var s1 := ReplaceAll(s, "sin(", "SIN(");
    var s2 := ReplaceAll(s1, "cos(", "COS(");
    var s3 := ReplaceAll(s2, "tan(", "TAN(");
    PassNeverCloses(s, "sin(", "SIN(", 1, 1);
    PassNeverCloses(s1, "cos(", "COS(", 1, 1);
    PassNeverCloses(s2, "tan(", "TAN(", 1, 1);
    PassNeverCloses(s3, "sqrt(", "SQRT(", 1, 1);
  }

  /** Line 88 never lowers the depth. */
  lemma RaiseNeverCloses(s: seq<char>)
    ensures Depth(Raise(s)) >= Depth(s)
  {
    SinNameDepths();
    CosNameDepths();
    TanNameDepths();
    SqrtNameDepths();
    MathDepths();
    CosTextDepth();
    TanTextDepth();
    SqrtTextDepth();
    var s1 := ReplaceAll(s, "SIN(", "Math.sin((");
    var s2 := ReplaceAll(s1, "COS(", "Math.cos((");
    var s3 := ReplaceAll(s2, "TAN(", "Math.tan((");
    PassNeverCloses(s, "SIN(", "Math.sin((", 1, 2);
    PassNeverCloses(s1, "COS(", "Math.cos((", 1, 2);
    PassNeverCloses(s2, "TAN(", "Math.tan((", 1, 2);
    PassNeverCloses(s3, "SQRT(", "Math.sqrt(", 1, 1);
  }

  /** For every input text, however it was built (keys, backspace, `%` or a
      recalled history entry), the text `safeEval` evaluates has at least as
      many open parentheses as the input: no pass and no rewrite closes one. */
  lemma NormalizeNeverCloses(input: seq<char>)
    ensures Depth(Normalize(input)) >= Depth(input)
  {
    if |input| > 0 {
      var g := GlyphStage(input);
      GlyphStageKeepsDepth(input);
      LowerKeepsDepth(g);
      RaiseNeverCloses(Lower(g));
      MathDepths();
      SinTextDepth();
      PassNeverCloses(Raise(Lower(g)), "Math.sin((", "Math.sin(((", 2, 3);
      ConvertKeepsDepth(NameStage(g));
    }
  }
}
