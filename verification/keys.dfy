/** Expressions built with the calculator's keys, and what `safeEval`
    (script.js) makes of their parentheses. */
module Keypad {
  import opened Strings
  import opened DegreeConversion
  import opened Normalizer

  /** A keypad or keyboard key that appends text to the expression. */
  datatype Key = Char(c: char) | Pi | Sin | Cos | Tan | Sqrt | Divide | Multiply | Minus

  /** Characters typed as themselves: digits, `.`, parentheses, `+` and the
      ASCII `-` of the physical keyboard. */
  const PlainChars: seq<char> := "0123456789.()+-"

  predicate ValidKey(k: Key) {
    k.Char? ==> k.c in PlainChars
  }

  predicate ValidKeys(ks: seq<Key>) {
    forall i :: 0 <= i < |ks| ==> ValidKey(ks[i])
  }

  /** The text a key appends (lines 209, 214-225 and 280-284). */
  function KeyText(k: Key): seq<char> {
    match k
    case Char(c) => [c]
    case Pi => "π"
    case Sin => "sin("
    case Cos => "cos("
    case Tan => "tan("
    case Sqrt => "sqrt("
    case Divide => "÷"
    case Multiply => "×"
    case Minus => "−"
  }

  /** What a key's text is after the glyph passes. */
  function GlyphText(k: Key): seq<char> {
    match k
    case Pi => PiText
    case Divide => "/"
    case Multiply => "*"
    case Minus => "-"
    case _ => KeyText(k)
  }

  /** What a key's text is after every replace-all pass. */
  function NormalText(k: Key): seq<char> {
    match k
    case Sin => "Math.sin((("
    case Cos => "Math.cos(("
    case Tan => "Math.tan(("
    case Sqrt => "Math.sqrt("
    case _ => GlyphText(k)
  }

  /** The texts of the keys, one after another. */
  function Spell(ks: seq<Key>, text: Key -> seq<char>): seq<char>
    decreases |ks|
  {
    if |ks| == 0 then [] else text(ks[0]) + Spell(ks[1..], text)
  }

  /** The expression a sequence of key presses builds. */
  function Typed(ks: seq<Key>): seq<char> {
    Spell(ks, KeyText)
  }

  /** The parentheses `safeEval` adds and never closes: two for each `sin(`
      (lines 88 and 92), one for each `cos(` and `tan(` (line 88). */
  function Boost(ks: seq<Key>): nat
    decreases |ks|
  {
    if |ks| == 0 then 0 else KeyBoost(ks[0]) + Boost(ks[1..])
  }

  function KeyBoost(k: Key): nat {
    match k
    case Sin => 2
    case Cos => 1
    case Tan => 1
    case _ => 0
  }

  predicate IsTrig(k: Key) {
    k == Sin || k == Cos || k == Tan
  }

  // ---------------------------------------------------------------------
  // The glyph passes, key by key

  lemma GlyphPassesSingle()
    ensures forall i :: 0 <= i < |GlyphPasses| ==> |GlyphPasses[i].pattern| == 1
  {
  }

  /** A function key's text holds no glyph. */
  lemma NameKeyInert(k: Key)
    requires k == Sin || k == Cos || k == Tan || k == Sqrt
    ensures forall i :: 0 <= i < |GlyphPasses| ==> GlyphPasses[i].pattern[0] !in KeyText(k)
  {
  }

  /** A key whose text is a single character. */
  predicate OneChar(k: Key) {
    !(k == Sin || k == Cos || k == Tan || k == Sqrt)
  }

  lemma OneCharImage(k: Key)
    requires ValidKey(k) && OneChar(k)
    ensures KeyText(k) == [KeyText(k)[0]]
    ensures GlyphImage(KeyText(k)[0]) == GlyphText(k)
  {
    if k.Char? {
      assert k.c !in Glyphs;
    }
  }

  lemma GlyphStageKey(k: Key)
    requires ValidKey(k)
    ensures WellFormed(GlyphPasses) && SealedThrough(KeyText(k), GlyphPasses)
    ensures GlyphStage(KeyText(k)) == GlyphText(k)
  {
    GlyphPassesSingle();
    GlyphPassesSealed(KeyText(k), GlyphPasses);
    if OneChar(k) {
      OneCharImage(k);
      GlyphStageChar(KeyText(k)[0]);
    } else {
      NameKeyInert(k);
      ApplyPassesInert(KeyText(k), GlyphPasses);
    }
  }

  /** The glyph passes act on a typed expression key by key. */
  lemma {:induction false} GlyphStageSpell(ks: seq<Key>)
    requires ValidKeys(ks)
    ensures GlyphStage(Typed(ks)) == Spell(ks, GlyphText)
    decreases |ks|
  {
    PassesWellFormed();
    if |ks| == 0 {
      ApplyPassesInert([], GlyphPasses);
    } else {
      GlyphStageKey(ks[0]);
      ApplyPassesSplit(KeyText(ks[0]), Typed(ks[1..]), GlyphPasses);
      GlyphStageSpell(ks[1..]);
    }
  }

  // ---------------------------------------------------------------------
  // The name passes, key by key

  /** Text with no letter (every character sorts below `A`): digits, `.`,
      operators and parentheses. */
  predicate Unlettered(x: seq<char>) {
    forall k :: 0 <= k < |x| ==> x[k] < 'A'
  }

  /** Text without letters is copied through lines 85-92 unchanged, since
      every name pattern begins with a letter. */
  lemma NameStageInert(x: seq<char>, y: seq<char>)
    requires Unlettered(x)
    ensures NameStage(x + y) == x + NameStage(y)
  {
    var y1 := ReplaceAll(y, "sin(", "SIN(");
    var y2 := ReplaceAll(y1, "cos(", "COS(");
    var y3 := ReplaceAll(y2, "tan(", "TAN(");
    MissSplit(x, y, "sin(", "SIN(");
    MissSplit(x, y1, "cos(", "COS(");
    MissSplit(x, y2, "tan(", "TAN(");
    MissSplit(x, y3, "sqrt(", "SQRT(");
    var z := Lower(y);
    var z1 := ReplaceAll(z, "SIN(", "Math.sin((");
    var z2 := ReplaceAll(z1, "COS(", "Math.cos((");
    var z3 := ReplaceAll(z2, "TAN(", "Math.tan((");
    MissSplit(x, z, "SIN(", "Math.sin((");
    MissSplit(x, z1, "COS(", "Math.cos((");
    MissSplit(x, z2, "TAN(", "Math.tan((");
    MissSplit(x, z3, "SQRT(", "Math.sqrt(");
    MissSplit(x, Raise(z), "Math.sin((", "Math.sin(((");
  }

  lemma SinLower(y: seq<char>)
    ensures Lower("sin(" + y) == "SIN(" + Lower(y)
  {
    var y1 := ReplaceAll(y, "sin(", "SIN(");
    var y2 := ReplaceAll(y1, "cos(", "COS(");
    var y3 := ReplaceAll(y2, "tan(", "TAN(");
    HitSplit("sin(", y, "SIN(");
    MissSplit("SIN(", y1, "cos(", "COS(");
    MissSplit("SIN(", y2, "tan(", "TAN(");
    MissSplit("SIN(", y3, "sqrt(", "SQRT(");
  }

  lemma SinRaise(z: seq<char>)
    ensures Raise("SIN(" + z) == "Math.sin((" + Raise(z)
  {
    var z1 := ReplaceAll(z, "SIN(", "Math.sin((");
    var z2 := ReplaceAll(z1, "COS(", "Math.cos((");
    var z3 := ReplaceAll(z2, "TAN(", "Math.tan((");
    HitSplit("SIN(", z, "Math.sin((");
    MissSplit("Math.sin((", z1, "COS(", "Math.cos((");
    MissSplit("Math.sin((", z2, "TAN(", "Math.tan((");
    MissSplit("Math.sin((", z3, "SQRT(", "Math.sqrt(");
  }

  lemma CosLower(y: seq<char>)
    ensures Lower("cos(" + y) == "COS(" + Lower(y)
  {
    var y1 := ReplaceAll(y, "sin(", "SIN(");
    var y2 := ReplaceAll(y1, "cos(", "COS(");
    var y3 := ReplaceAll(y2, "tan(", "TAN(");
    MismatchSplit("cos(", y, "sin(", "SIN(", 2, 1);
    HitSplit("cos(", y1, "COS(");
    MissSplit("COS(", y2, "tan(", "TAN(");
    MissSplit("COS(", y3, "sqrt(", "SQRT(");
  }

  lemma CosRaise(z: seq<char>)
    ensures Raise("COS(" + z) == "Math.cos((" + Raise(z)
  {
    var z1 := ReplaceAll(z, "SIN(", "Math.sin((");
    var z2 := ReplaceAll(z1, "COS(", "Math.cos((");
    var z3 := ReplaceAll(z2, "TAN(", "Math.tan((");
    MismatchSplit("COS(", z, "SIN(", "Math.sin((", 2, 1);
    HitSplit("COS(", z1, "Math.cos((");
    MissSplit("Math.cos((", z2, "TAN(", "Math.tan((");
    MissSplit("Math.cos((", z3, "SQRT(", "Math.sqrt(");
  }

  lemma TanLower(y: seq<char>)
    ensures Lower("tan(" + y) == "TAN(" + Lower(y)
  {
    var y1 := ReplaceAll(y, "sin(", "SIN(");
    var y2 := ReplaceAll(y1, "cos(", "COS(");
    var y3 := ReplaceAll(y2, "tan(", "TAN(");
    MissSplit("tan(", y, "sin(", "SIN(");
    MissSplit("tan(", y1, "cos(", "COS(");
    HitSplit("tan(", y2, "TAN(");
    MissSplit("TAN(", y3, "sqrt(", "SQRT(");
  }

  lemma TanRaise(z: seq<char>)
    ensures Raise("TAN(" + z) == "Math.tan((" + Raise(z)
  {
    var z1 := ReplaceAll(z, "SIN(", "Math.sin((");
    var z2 := ReplaceAll(z1, "COS(", "Math.cos((");
    var z3 := ReplaceAll(z2, "TAN(", "Math.tan((");
    MissSplit("TAN(", z, "SIN(", "Math.sin((");
    MissSplit("TAN(", z1, "COS(", "Math.cos((");
    HitSplit("TAN(", z2, "Math.tan((");
    MissSplit("Math.tan((", z3, "SQRT(", "Math.sqrt(");
  }

  lemma SqrtLower(y: seq<char>)
    ensures Lower("sqrt(" + y) == "SQRT(" + Lower(y)
  {
    var y1 := ReplaceAll(y, "sin(", "SIN(");
    var y2 := ReplaceAll(y1, "cos(", "COS(");
    var y3 := ReplaceAll(y2, "tan(", "TAN(");
    MismatchSplit("sqrt(", y, "sin(", "SIN(", 0, 1);
    MissSplit("sqrt(", y1, "cos(", "COS(");
    MismatchSplit("sqrt(", y2, "tan(", "TAN(", 3, 1);
    HitSplit("sqrt(", y3, "SQRT(");
  }

  lemma SqrtRaise(z: seq<char>)
    ensures Raise("SQRT(" + z) == "Math.sqrt(" + Raise(z)
  {
    var z1 := ReplaceAll(z, "SIN(", "Math.sin((");
    var z2 := ReplaceAll(z1, "COS(", "Math.cos((");
    var z3 := ReplaceAll(z2, "TAN(", "Math.tan((");
    MismatchSplit("SQRT(", z, "SIN(", "Math.sin((", 0, 1);
    MissSplit("SQRT(", z1, "COS(", "Math.cos((");
    MismatchSplit("SQRT(", z2, "TAN(", "Math.tan((", 3, 1);
    HitSplit("SQRT(", z3, "Math.sqrt(");
  }

  lemma SinNames(y: seq<char>)
    ensures NameStage("sin(" + y) == "Math.sin(((" + NameStage(y)
  {
    SinLower(y);
    SinRaise(Lower(y));
    HitSplit("Math.sin((", Raise(Lower(y)), "Math.sin(((");
  }

  lemma CosNames(y: seq<char>)
    ensures NameStage("cos(" + y) == "Math.cos((" + NameStage(y)
  {
    CosLower(y);
    CosRaise(Lower(y));
    MismatchSplit("Math.cos((", Raise(Lower(y)), "Math.sin((", "Math.sin(((", 0, 5);
  }

  lemma TanNames(y: seq<char>)
    ensures NameStage("tan(" + y) == "Math.tan((" + NameStage(y)
  {
    TanLower(y);
    TanRaise(Lower(y));
    MismatchSplit("Math.tan((", Raise(Lower(y)), "Math.sin((", "Math.sin(((", 0, 5);
  }

  lemma SqrtNames(y: seq<char>)
    ensures NameStage("sqrt(" + y) == "Math.sqrt(" + NameStage(y)
  {
    SqrtLower(y);
    SqrtRaise(Lower(y));
    MismatchSplit("Math.sqrt(", Raise(Lower(y)), "Math.sin((", "Math.sin(((", 0, 6);
  }

  /** Lines 85-92 turn each key's text into its `NormalText`, whatever
      follows it. */
  lemma NameStageKey(k: Key, y: seq<char>)
    requires ValidKey(k)
    ensures NameStage(GlyphText(k) + y) == NormalText(k) + NameStage(y)
  {
    match k
    case Sin => SinNames(y);
    case Cos => CosNames(y);
    case Tan => TanNames(y);
    case Sqrt => SqrtNames(y);
    case _ =>
      NameInertKey(k);
      NameStageInert(GlyphText(k), y);
  }

  /** A one-character key's glyph text holds no name pattern's first
      character. */
  lemma NameInertKey(k: Key)
    requires ValidKey(k) && OneChar(k)
    ensures Unlettered(GlyphText(k))
  {
    if k.Char? {
      assert GlyphText(k) == [k.c];
    }
  }

  lemma {:induction false} NameStageSpell(ks: seq<Key>)
    requires ValidKeys(ks)
    ensures NameStage(Spell(ks, GlyphText)) == Spell(ks, NormalText)
    decreases |ks|
  {
    if |ks| > 0 {
      NameStageKey(ks[0], Spell(ks[1..], GlyphText));
      NameStageSpell(ks[1..]);
    }
  }

  // ---------------------------------------------------------------------
  // Parentheses

  lemma SinDepth()
    ensures Depth(NormalText(Sin)) == Depth(KeyText(Sin)) + 2
  {
    SinTextDepth();
  }

  lemma CosDepth()
    ensures Depth(NormalText(Cos)) == Depth(KeyText(Cos)) + 1
  {
    CosTextDepth();
  }

  lemma TanDepth()
    ensures Depth(NormalText(Tan)) == Depth(KeyText(Tan)) + 1
  {
    TanTextDepth();
  }

  lemma SqrtDepth()
    ensures Depth(NormalText(Sqrt)) == Depth(KeyText(Sqrt))
  {
    SqrtTextDepth();
  }

  lemma PiDepth()
    ensures Depth(NormalText(Pi)) == Depth(KeyText(Pi))
  {
    PiTextDepth();
  }

  /** Each key's normal text has `KeyBoost` more open parentheses than the
      key's own text. */
  lemma KeyDepth(k: Key)
    requires ValidKey(k)
    ensures Depth(NormalText(k)) == Depth(KeyText(k)) + KeyBoost(k)
  {
    match k
    case Sin => SinDepth();
    case Cos => CosDepth();
    case Tan => TanDepth();
    case Sqrt => SqrtDepth();
    case Pi => PiDepth();
    case Char(_) => assert NormalText(k) == KeyText(k);
    case _ => OperatorDepth(k);
  }

  lemma OperatorDepth(k: Key)
    requires k == Divide || k == Multiply || k == Minus
    ensures Depth(NormalText(k)) == 0 && Depth(KeyText(k)) == 0
  {
  }

  lemma {:induction false} SpellDepth(ks: seq<Key>)
    requires ValidKeys(ks)
    ensures Depth(Spell(ks, NormalText)) == Depth(Typed(ks)) + Boost(ks)
    decreases |ks|
  {
    if |ks| > 0 {
      KeyDepth(ks[0]);
      DepthConcat(NormalText(ks[0]), Spell(ks[1..], NormalText));
      DepthConcat(KeyText(ks[0]), Typed(ks[1..]));
      SpellDepth(ks[1..]);
    }
  }

  lemma {:induction false} TypedEmpty(ks: seq<Key>)
    ensures |Typed(ks)| == 0 <==> |ks| == 0
    decreases |ks|
  {
    if |ks| > 0 {
      assert |KeyText(ks[0])| > 0;
    }
  }

  /** For an expression typed with the keys, the text `safeEval` evaluates is
      every key's normal text, one after another, put through the three
      degree-conversion rewrites; the empty expression gives the empty text. */
  lemma NormalizeTyped(ks: seq<Key>)
    requires ValidKeys(ks)
    ensures Normalize(Typed(ks)) == if |ks| == 0 then "" else Convert(Spell(ks, NormalText))
  {
    TypedEmpty(ks);
    GlyphStageSpell(ks);
    NameStageSpell(ks);
  }

  /** The text `safeEval` evaluates has two more open parentheses than the
      typed expression for every `sin(` and one more for every `cos(` and
      `tan(`: the extra `(` of lines 88 and 92 is never closed. */
  lemma NormalizeDepth(ks: seq<Key>)
    requires ValidKeys(ks)
    ensures Depth(Normalize(Typed(ks))) == Depth(Typed(ks)) + Boost(ks)
  {
    NormalizeTyped(ks);
    SpellDepth(ks);
    if |ks| > 0 {
      ConvertKeepsDepth(Spell(ks, NormalText));
    }
  }

  /** `Boost` is positive exactly when a trigonometric key was pressed. */
  lemma {:induction false} BoostTrig(ks: seq<Key>)
    ensures Boost(ks) > 0 <==> exists i :: 0 <= i < |ks| && IsTrig(ks[i])
    decreases |ks|
  {
    if |ks| > 0 {
      BoostTrig(ks[1..]);
      if IsTrig(ks[0]) {
        assert IsTrig(ks[0]);
      } else {
        assert KeyBoost(ks[0]) == 0;
        if exists i :: 0 <= i < |ks| && IsTrig(ks[i]) {
          var i :| 0 <= i < |ks| && IsTrig(ks[i]);
          assert IsTrig(ks[1..][i - 1]);
        }
      }
    }
  }

  /** `safeEval` keeps the balance of the typed parentheses exactly when no
      trigonometric key was pressed; otherwise it leaves parentheses open,
      so a balanced `sin(90)` becomes unbalanced source text. */
  lemma TrigLeavesOpen(ks: seq<Key>)
    requires ValidKeys(ks)
    ensures Depth(Normalize(Typed(ks))) >= Depth(Typed(ks))
    ensures Depth(Normalize(Typed(ks))) == Depth(Typed(ks))
        <==> forall i :: 0 <= i < |ks| ==> !IsTrig(ks[i])
  {
    NormalizeDepth(ks);
    BoostTrig(ks);
  }

  /** `sin(90)` typed on the keypad. */
  lemma SinNinetyTyped()
    ensures ValidKeys([Sin, Char('9'), Char('0'), Char(')')])
    ensures Typed([Sin, Char('9'), Char('0'), Char(')')]) == "sin(90)"
  {
    var ks := [Sin, Char('9'), Char('0'), Char(')')];
    assert ks[1..] == [Char('9'), Char('0'), Char(')')];
    assert ks[1..][1..] == [Char('0'), Char(')')];
    assert ks[1..][1..][1..] == [Char(')')];
    assert ks[1..][1..][1..][1..] == [];
  }

  lemma SinNinetyBalanced()
    ensures Depth("sin(90)") == 0
  {
  }

  /** `sin(90)` is balanced, but the text `safeEval` evaluates for it leaves
      two parentheses open. */
  lemma SinNinety()
    ensures Depth(Normalize("sin(90)")) == 2
  {
    SinNinetyTyped();
    SinNinetyBalanced();
    NormalizeDepth([Sin, Char('9'), Char('0'), Char(')')]);
  }

  // ---------------------------------------------------------------------
  // The name passes are not idempotent

  /** `Math.` holds no name pattern, so lines 85 and 88 copy it through. */
  lemma MathPrefixNames(y: seq<char>)
    ensures Lower("Math." + y) == "Math." + Lower(y)
    ensures Raise("Math." + y) == "Math." + Raise(y)
  {
    var y1 := ReplaceAll(y, "sin(", "SIN(");
    var y2 := ReplaceAll(y1, "cos(", "COS(");
    var y3 := ReplaceAll(y2, "tan(", "TAN(");
    MissSplit("Math.", y, "sin(", "SIN(");
    MissSplit("Math.", y1, "cos(", "COS(");
    MismatchSplit("Math.", y2, "tan(", "TAN(", 2, 1);
    MissSplit("Math.", y3, "sqrt(", "SQRT(");
    var z1 := ReplaceAll(y, "SIN(", "Math.sin((");
    var z2 := ReplaceAll(z1, "COS(", "Math.cos((");
    var z3 := ReplaceAll(z2, "TAN(", "Math.tan((");
    MissSplit("Math.", y, "SIN(", "Math.sin((");
    MissSplit("Math.", z1, "COS(", "Math.cos((");
    MissSplit("Math.", z2, "TAN(", "Math.tan((");
    MissSplit("Math.", z3, "SQRT(", "Math.sqrt(");
  }

  /** Lines 85 and 88 applied to `Math.sin(((`: the `sin(` inside it is
      turned into a second call prefix. */
  lemma RenameSinCall()
    ensures Raise(Lower("Math.sin(((")) == "Math." + ("Math.sin((" + "((")
  {
    var tail: seq<char> := "((";
    assert "Math.sin(((" == "Math." + ("sin(" + tail);
    MathPrefixNames("sin(" + tail);
    SinLower(tail);
    assert Lower(tail) == tail;
    MathPrefixNames("SIN(" + tail);
    SinRaise(tail);
    assert Raise(tail) == tail;
  }

  /** Line 92 keeps the number of `M`s, since `Math.sin((` and its
      replacement hold one each. */
  lemma MarkKeepsM(v: seq<char>)
    ensures Count('M', Mark(v)) == Count('M', v)
  {
    ReplaceAllCount('M', v, "Math.sin((", "Math.sin(((");
    assert Count('M', "Math.sin((") == 1;
    assert Count('M', "Math.sin(((") == 1;
  }

  lemma TwoCalls()
    ensures Count('M', "Math." + ("Math.sin((" + "((")) == 2
  {
    CountConcat('M', "Math.", "Math.sin((" + "((");
    CountConcat('M', "Math.sin((", "((");
    assert Count('M', "Math.") == 1;
    assert Count('M', "Math.sin((") == 1;
    assert Count('M', "((") == 0;
  }

  /** Lines 85-92 are not idempotent: a second run finds `sin(` again inside
      the `Math.sin(((` the first run made of it. */
  lemma NameStageNotIdempotent()
    ensures NameStage("sin(") == "Math.sin((("
    ensures NameStage(NameStage("sin(")) != NameStage("sin(")
  {
    SinNames("");
    assert "sin(" + "" == "sin(";
    assert NameStage("") == "";
    assert "Math.sin(((" + "" == "Math.sin(((";
    RenameSinCall();
    MarkKeepsM(Raise(Lower("Math.sin(((")));
    TwoCalls();
    assert Count('M', "Math.sin(((") == 1;
  }
}
