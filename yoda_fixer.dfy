/**
 * The Yoda-condition fixer: `$v[...] OP literal` becomes
 * `literal OP $v[...]` for the four equality operators, when the left side
 * is a variable with an optional subscript chain and the literal is not the
 * start of a larger expression.
 */
module YodaFixer {
  import opened Tokens
  import opened Cursor
  import opened LeftSide

  /** `===`, `!==`, `==` or `!=`. */
  predicate IsComparisonOp(t: Token) {
    t.Named? && t.kind in {IsIdentical, IsNotIdentical, IsEqual, IsNotEqual}
  }

  /** A string, integer, float or qualified-name token, or a bare name that
      reads true, false or null in any case. */
  predicate IsSimpleLiteral(t: Token) {
    t.Named? &&
    (t.kind in {ConstantEncapsedString, LNumber, DNumber, NameFullyQualified, NameQualified, NameRelative} ||
     (t.kind == Identifier && Lower(t.text) in {"true", "false", "null"}))
  }

  /** A token after the literal that shows it starts a larger expression. */
  predicate IsComplexFollower(t: Token) {
    IsMemberAccess(t) || (t.Char? && t.s in {"[", "+", "-", "*", "/", "%", "."})
  }

  /** How the left side is scanned: inline whitespace only, `(` allowed. */
  function YodaPolicy(restore: bool): Policy {
    Policy(true, false, restore, false)
  }

  /** The literal at `l` is a simple literal and the next token past inline
      whitespace does not continue it. */
  predicate IsBareLiteral(toks: seq<Token>, l: nat)
    requires l <= |toks|
  {
    l < |toks| && IsSimpleLiteral(toks[l]) &&
    (var k := SkipBlank(toks, l + 1, true); k < |toks| ==> !IsComplexFollower(toks[k]))
  }

  /**
   * The second half of try_fix_yoda: with the left side captured and the
   * scan at `j0`, skip inline whitespace, require an equality operator, skip
   * inline whitespace, require a bare simple literal, and emit literal,
   * whitespace before the operator, operator, whitespace after it, left side.
   */
  function Compare(toks: seq<Token>, leftSide: string, j0: nat): (r: Option<Match>)
    requires j0 <= |toks|
    ensures r.Some? ==> j0 < r.value.end < |toks|
  {
    var j := SkipBlank(toks, j0, true);
    if j >= |toks| || !IsComparisonOp(toks[j]) then None
    else
      var l := SkipBlank(toks, j + 1, true);
      if !IsBareLiteral(toks, l) then None
      else Some(Match(TokenText(toks[l]) + Span(toks, j0, j) + TokenText(toks[j]) + Span(toks, j + 1, l) + leftSide, l))
  }

  /**
   * try_fix_yoda at a variable token `i`. With `restore` false this is the
   * code as written; with `restore` true the whitespace skipped before the
   * operator is given back, as the comment "restore position and break"
   * in the source intends.
   */
  function SwapWith(toks: seq<Token>, i: nat, restore: bool): (r: Option<Match>)
    requires i < |toks| && IsVariable(toks[i])
    ensures r.Some? ==> i < r.value.end < |toks|
  {
    match Chain(toks, i + 1, YodaPolicy(restore))
    case Declined => None
    case Left(suffix, j0) => Compare(toks, TokenText(toks[i]) + suffix, j0)
  }

  /** The rule as the fixer runs it. */
  function Swapped(toks: seq<Token>, i: nat): Option<Match>
    requires i < |toks| && IsVariable(toks[i])
  {
    SwapWith(toks, i, false)
  }

  /** The operator and literal checks of try_fix_yoda, as a method. */
  method TryCompare(toks: seq<Token>, leftSide: string, j0: nat) returns (r: Option<Match>)
    requires j0 <= |toks|
    ensures r == Compare(toks, leftSide, j0)
  {
    r := None;
    var j, wsAfterLeft := TakeBlank(toks, j0, true);
    if j < |toks| && IsComparisonOp(toks[j]) {
      r := TryLiteral(toks, leftSide, j0, j, wsAfterLeft);
    }
  }

  /** The literal check of try_fix_yoda, once the operator at `j` is found. */
  method TryLiteral(toks: seq<Token>, leftSide: string, j0: nat, j: nat, wsAfterLeft: string) returns (r: Option<Match>)
    requires j0 <= |toks| && j == SkipBlank(toks, j0, true) && wsAfterLeft == Span(toks, j0, j)
    requires j < |toks| && IsComparisonOp(toks[j])
    ensures r == Compare(toks, leftSide, j0)
  {
    var opStr := TokenText(toks[j]);
    var l, wsAfterOp := TakeBlank(toks, j + 1, true);
    if l < |toks| && IsSimpleLiteral(toks[l]) {
      var literalStr := TokenText(toks[l]);
      var k := SkipBlankForward(toks, l + 1, true);
      CompareAtLiteral(toks, leftSide, j0, j, l, k);
      if !(k < |toks| && IsComplexFollower(toks[k])) {
        r := Some(Match(literalStr + wsAfterLeft + opStr + wsAfterOp + leftSide, l));
      } else {
        r := None;
      }
    } else {
      CompareWithoutLiteral(toks, leftSide, j0, j, l);
      r := None;
    }
  }

  /** Compare declines when no simple literal follows the operator at `j`. */
  lemma CompareWithoutLiteral(toks: seq<Token>, leftSide: string, j0: nat, j: nat, l: nat)
    requires j0 <= |toks| && j == SkipBlank(toks, j0, true)
    requires j < |toks| && IsComparisonOp(toks[j])
    requires l == SkipBlank(toks, j + 1, true) && !(l < |toks| && IsSimpleLiteral(toks[l]))
    ensures Compare(toks, leftSide, j0).None?
  {
  }

  /** Compare at a simple literal `l` after the operator at `j`: it matches
      exactly when the token `k` after the literal does not continue it. */
  lemma CompareAtLiteral(toks: seq<Token>, leftSide: string, j0: nat, j: nat, l: nat, k: nat)
    requires j0 <= |toks| && j == SkipBlank(toks, j0, true)
    requires j < |toks| && IsComparisonOp(toks[j])
    requires l == SkipBlank(toks, j + 1, true) && l < |toks| && IsSimpleLiteral(toks[l])
    requires k == SkipBlank(toks, l + 1, true)
    ensures Compare(toks, leftSide, j0) ==
      if k < |toks| && IsComplexFollower(toks[k]) then None
      else Some(Match(TokenText(toks[l]) + Span(toks, j0, j) + TokenText(toks[j]) + Span(toks, j + 1, l) + leftSide, l))
  {
  }

  /** try_fix_yoda as a method: the subscript loop, then the comparison. */
  method TryFixYoda(toks: seq<Token>, i: nat, restore: bool) returns (r: Option<Match>)
    requires i < |toks| && IsVariable(toks[i])
    ensures r == SwapWith(toks, i, restore)
  {
    var chain := CaptureChain(toks, i + 1, YodaPolicy(restore));
    if chain.Declined? {
      return None;
    }
    r := TryCompare(toks, TokenText(toks[i]) + chain.text, chain.next);
  }

  // ---------------------------------------------------------------------
  // What a swap is

  /**
   * The layout of a swapped comparison starting at variable `i`: the left
   * side is toks[i..q], whitespace toks[q..o], the operator at `o`,
   * whitespace toks[o+1..end], the literal at `end`, and the next token
   * past inline whitespace does not continue the literal. The replacement
   * is literal, (the whitespace before the operator when `keep`), operator,
   * the whitespace after it, left side.
   */
  predicate SwapLayout(toks: seq<Token>, i: nat, q: nat, o: nat, m: Match, keep: bool)
  {
    i < q <= o < m.end < |toks| &&
    AllBlank(toks, q, o, true) && IsComparisonOp(toks[o]) &&
    AllBlank(toks, o + 1, m.end, true) && IsBareLiteral(toks, m.end) &&
    m.replacement ==
      TokenText(toks[m.end]) + (if keep then Span(toks, q, o) else "") +
      TokenText(toks[o]) + Span(toks, o + 1, m.end) + Span(toks, i, q)
  }

  /** The layout of what Compare accepts, for a left side toks[i..q] that
      ends where the blanks before the operator begin. */
  lemma CompareLayout(toks: seq<Token>, i: nat, q: nat, j0: nat, leftSide: string, keep: bool)
    requires i < q <= j0 <= |toks|
    requires AllBlank(toks, q, j0, true) && leftSide == Span(toks, i, q)
    requires keep ==> q == j0
    requires !keep ==> SkipBlank(toks, j0, true) == j0
    requires Compare(toks, leftSide, j0).Some?
    ensures SwapLayout(toks, i, q, SkipBlank(toks, j0, true), Compare(toks, leftSide, j0).value, keep)
  {
    var o := SkipBlank(toks, j0, true);
    var m := Compare(toks, leftSide, j0).value;
    var lit, op, after := TokenText(toks[m.end]), TokenText(toks[o]), Span(toks, o + 1, m.end);
    assert m.replacement == lit + Span(toks, j0, o) + op + after + leftSide;
    if !keep {
      assert Span(toks, j0, o) == "";
      assert lit + "" == lit;
    }
  }

  /**
   * Every swap has that layout: an equality operator, then a simple literal
   * that nothing continues, and a replacement made of the literal, the
   * operator, the whitespace after it and the verbatim left side. As
   * written, the whitespace between the left side and the operator is not
   * part of the replacement.
   */
  lemma SwapShape(toks: seq<Token>, i: nat, restore: bool)
    requires i < |toks| && IsVariable(toks[i])
    requires SwapWith(toks, i, restore).Some?
    ensures exists q: nat, o: nat :: SwapLayout(toks, i, q, o, SwapWith(toks, i, restore).value, restore)
  {
    var p := YodaPolicy(restore);
    var chain := Chain(toks, i + 1, p);
    assert chain.Left?;
    ChainText(toks, i + 1, p);
    ChainStop(toks, i + 1, p);
    var q1: nat :| KeptUpTo(toks, i + 1, q1, chain, p);
    var leftSide := TokenText(toks[i]) + chain.text;
    assert SwapWith(toks, i, restore) == Compare(toks, leftSide, chain.next);
    assert leftSide == Span(toks, i, q1) by { SpanCons(toks, i, q1); }
    CompareLayout(toks, i, q1, chain.next, leftSide, restore);
  }

  /** The rule declines when the variable is followed by `->` or `?->`. */
  lemma DeclinesOnMemberAccess(toks: seq<Token>, i: nat, restore: bool)
    requires i < |toks| && IsVariable(toks[i])
    requires var w := SkipBlank(toks, i + 1, true); w < |toks| && IsMemberAccess(toks[w])
    ensures SwapWith(toks, i, restore).None?
  {
  }

  /**
   * For a plain variable (no subscript) the rule matches exactly when the
   * variable, inline whitespace, an equality operator, inline whitespace and
   * a simple literal follow each other and nothing continues the literal;
   * as written the result drops the whitespace before the operator.
   */
  lemma PlainSwap(toks: seq<Token>, i: nat, o: nat, l: nat)
    requires i < o < l < |toks| && IsVariable(toks[i])
    requires AllBlank(toks, i + 1, o, true) && IsComparisonOp(toks[o])
    requires AllBlank(toks, o + 1, l, true) && !IsBlank(toks[l], true)
    ensures IsBareLiteral(toks, l) <==>
            Swapped(toks, i) == Some(Match(TokenText(toks[l]) + TokenText(toks[o]) + Span(toks, o + 1, l) + TokenText(toks[i]), l))
  {
    PlainChain(toks, i, o);
    var v := TokenText(toks[i]);
    assert Swapped(toks, i) == Compare(toks, v + "", o);
    assert v + "" == v;
    CompareAt(toks, v, o, l);
  }

  /** With only inline whitespace between the variable and `o`, and `o` not
      whitespace or `[`, the chain is empty and stops at `o`. */
  lemma PlainChain(toks: seq<Token>, i: nat, o: nat)
    requires i < o < |toks|
    requires AllBlank(toks, i + 1, o, true) && IsComparisonOp(toks[o])
    ensures Chain(toks, i + 1, YodaPolicy(false)) == Left("", o)
  {
    SkipBlankTo(toks, i + 1, o, true);
  }

  /** Compare at an operator already reached: it matches exactly at a bare
      literal, and emits literal, operator, whitespace, left side. */
  lemma CompareAt(toks: seq<Token>, leftSide: string, o: nat, l: nat)
    requires o < l < |toks| && IsComparisonOp(toks[o])
    requires AllBlank(toks, o + 1, l, true) && !IsBlank(toks[l], true)
    ensures IsBareLiteral(toks, l) <==>
            Compare(toks, leftSide, o) == Some(Match(TokenText(toks[l]) + TokenText(toks[o]) + Span(toks, o + 1, l) + leftSide, l))
  {
    SkipBlankTo(toks, o, o, true);
    SkipBlankTo(toks, o + 1, l, true);
    if IsSimpleLiteral(toks[l]) {
      CompareAtLiteral(toks, leftSide, o, o, l, SkipBlank(toks, l + 1, true));
      EmptyBlankText(toks, TokenText(toks[l]), o);
    } else {
      CompareWithoutLiteral(toks, leftSide, o, o, l);
    }
  }

  /** No blanks before the operator add no text after the literal. */
  lemma EmptyBlankText(toks: seq<Token>, lit: string, o: nat)
    requires o <= |toks|
    ensures lit + Span(toks, o, o) == lit
  {
    assert Span(toks, o, o) == "";
  }

  // ---------------------------------------------------------------------
  // The whitespace before the operator

  /** `$x === 'foo'` */
  function StrictCompare(): seq<Token> {
    [Named(Variable, "$x"), Named(Whitespace, " "), Named(IsIdentical, "==="),
     Named(Whitespace, " "), Named(ConstantEncapsedString, "'foo'")]
  }

  /** The layout of `$x === 'foo'`: a variable, a blank, the operator, a
      blank and a bare literal. */
  lemma StrictCompareLayout(t: seq<Token>)
    requires t == StrictCompare()
    ensures IsVariable(t[0]) && TokenText(t[0]) == "$x"
    ensures AllBlank(t, 1, 2, true) && IsComparisonOp(t[2]) && TokenText(t[2]) == "==="
    ensures AllBlank(t, 3, 4, true) && !IsBlank(t[4], true) && TokenText(t[4]) == "'foo'"
    ensures IsBareLiteral(t, 4)
    ensures Span(t, 1, 2) == " " && Span(t, 3, 4) == " "
  {
    assert SkipBlank(t, 5, true) == 5;
    assert Span(t, 1, 1) == "";
    assert Span(t, 3, 3) == "";
  }

  lemma DroppedSpaceText()
    ensures "'foo'" + "===" + " " + "$x" == "'foo'=== $x"
  {
  }

  lemma RestoredSpaceText()
    ensures "'foo'" + " " + "===" + " " + "$x" == "'foo' === $x"
  {
  }

  /** As written, `$x === 'foo'` becomes `'foo'=== $x`: the space before the
      operator is lost. */
  lemma SwapDropsSpaceBeforeOperator()
    ensures Swapped(StrictCompare(), 0) == Some(Match("'foo'=== $x", 4))
  {
    StrictCompareLayout(StrictCompare());
    PlainSwap(StrictCompare(), 0, 2, 4);
    DroppedSpaceText();
  }

  /**
   * With the position restored, a swap loses no text: the replacement is
   * the literal, the whitespace before and after the operator, the operator
   * and the left side, a rearrangement of the tokens it covers.
   */
  lemma RestoringSwapKeepsText(toks: seq<Token>, i: nat)
    requires i < |toks| && IsVariable(toks[i])
    requires SwapWith(toks, i, true).Some?
    ensures var m := SwapWith(toks, i, true).value;
      exists q: nat, o: nat :: SwapLayout(toks, i, q, o, m, true) &&
        Span(toks, i, m.end + 1) ==
          Span(toks, i, q) + Span(toks, q, o) + TokenText(toks[o]) + Span(toks, o + 1, m.end) + TokenText(toks[m.end])
  {
    var m := SwapWith(toks, i, true).value;
    SwapShape(toks, i, true);
    var q: nat, o: nat :| SwapLayout(toks, i, q, o, m, true);
    SpanPieces(toks, i, q, o, m.end);
  }

  /** The text of toks[a..e+1] cut at `q`, at the token `o` and before `e`. */
  lemma SpanPieces(toks: seq<Token>, a: nat, q: nat, o: nat, e: nat)
    requires a <= q <= o < e < |toks|
    ensures Span(toks, a, e + 1) ==
      Span(toks, a, q) + Span(toks, q, o) + TokenText(toks[o]) + Span(toks, o + 1, e) + TokenText(toks[e])
  {
    SpanSplit(toks, a, q, o);
    SpanSnoc(toks, a, o);
    SpanSplit(toks, a, o + 1, e);
    SpanSnoc(toks, a, e);
    assert Span(toks, a, o) + TokenText(toks[o]) == Span(toks, a, o + 1);
    assert Span(toks, a, o + 1) + Span(toks, o + 1, e) == Span(toks, a, e);
    assert Span(toks, a, e) + TokenText(toks[e]) == Span(toks, a, e + 1);
  }

  /** With the position restored, `$x === 'foo'` becomes `'foo' === $x`. */
  lemma RestoringSwapExample()
    ensures SwapWith(StrictCompare(), 0, true) == Some(Match("'foo' === $x", 4))
  {
    RestoredStrictSwap(StrictCompare());
    RestoredSpaceText();
  }

  /** The restoring swap of `$x === 'foo'`, piece by piece. */
  lemma RestoredStrictSwap(t: seq<Token>)
    requires t == StrictCompare()
    ensures SwapWith(t, 0, true) == Some(Match("'foo'" + " " + "===" + " " + "$x", 4))
  {
    StrictCompareLayout(t);
    RestoredChain(t, 0);
    CompareFrom(t, "$x", 1, 2, 4);
  }

  /** Restoring, a plain variable's chain is empty and stops right after it. */
  lemma RestoredChain(toks: seq<Token>, i: nat)
    requires i + 2 < |toks| && IsVariable(toks[i])
    requires AllBlank(toks, i + 1, i + 2, true) && IsComparisonOp(toks[i + 2])
    ensures SwapWith(toks, i, true) == Compare(toks, TokenText(toks[i]), i + 1)
  {
    SkipBlankTo(toks, i + 1, i + 2, true);
    var v := TokenText(toks[i]);
    assert v + "" == v;
  }

  /** Compare from `j0` over blanks to the operator at `o` and a bare literal
      at `l`: it keeps the blanks before the operator. */
  lemma CompareFrom(toks: seq<Token>, leftSide: string, j0: nat, o: nat, l: nat)
    requires j0 <= o < l < |toks| && IsComparisonOp(toks[o])
    requires AllBlank(toks, j0, o, true)
    requires AllBlank(toks, o + 1, l, true) && !IsBlank(toks[l], true) && IsBareLiteral(toks, l)
    ensures Compare(toks, leftSide, j0) ==
      Some(Match(TokenText(toks[l]) + Span(toks, j0, o) + TokenText(toks[o]) + Span(toks, o + 1, l) + leftSide, l))
  {
    SkipBlankTo(toks, j0, o, true);
    SkipBlankTo(toks, o + 1, l, true);
    CompareAtLiteral(toks, leftSide, j0, o, l, SkipBlank(toks, l + 1, true));
  }

  /** `$x === $y` */
  function VariableCompare(): seq<Token> {
    [Named(Variable, "$x"), Named(Whitespace, " "), Named(IsIdentical, "==="),
     Named(Whitespace, " "), Named(Variable, "$y")]
  }

  /** `$x === $y`: the right side is not a literal, so nothing is swapped. */
  lemma NonLiteralDeclines()
    ensures Swapped(VariableCompare(), 0).None?
  {
    VariableCompareLayout(VariableCompare());
    PlainSwap(VariableCompare(), 0, 2, 4);
  }

  /** The layout of `$x === $y`: the operand after the operator is not a literal. */
  lemma VariableCompareLayout(t: seq<Token>)
    requires t == VariableCompare()
    ensures IsVariable(t[0])
    ensures AllBlank(t, 1, 2, true) && IsComparisonOp(t[2])
    ensures AllBlank(t, 3, 4, true) && !IsBlank(t[4], true) && !IsBareLiteral(t, 4)
  {
  }}
