/**
 * The short-ternary fixer: `$v[...] ?: default` becomes
 * `$v[...]? $v[...] : default`, when the left side is a variable with an
 * optional subscript chain and is not continued by `->`, `?->` or `(`.
 */
module ShortTernaryFixer {
  import opened Tokens
  import opened Cursor
  import opened LeftSide

  /** How the left side is scanned: any whitespace, `(` declines. The
      corrected scan also gives back the whitespace before the token that
      ends the chain, and declines a subscript that holds a call. */
  function TernaryPolicy(corrected: bool): Policy {
    Policy(false, true, corrected, corrected)
  }

  /**
   * The second half of try_fix_short_ternary: with the left side captured
   * and the scan at `j0`, skip whitespace, require `?`, skip whitespace,
   * require `:`, skip the whitespace after it, and emit the left side, the
   * whitespace before `?`, `? `, the left side again, ` :` and the
   * whitespace after the colon. The match ends at the last token before
   * the default operand.
   */
  function Elvis(toks: seq<Token>, leftSide: string, j0: nat): (r: Option<Match>)
    requires j0 <= |toks|
    ensures r.Some? ==> j0 < r.value.end < |toks|
  {
    var j := SkipBlank(toks, j0, false);
    if j >= |toks| || toks[j] != Char("?") then None
    else
      var c := SkipBlank(toks, j + 1, false);
      if c >= |toks| || toks[c] != Char(":") then None
      else
        var e := SkipBlank(toks, c + 1, false);
        Some(Match(leftSide + Span(toks, j0, j) + "? " + leftSide + " :" + Span(toks, c + 1, e), e - 1))
  }

  /**
   * try_fix_short_ternary at a variable token `i`. With `corrected` false
   * this is the code as written. With `corrected` true the whitespace the
   * subscript loop skipped before `?` is given back, so that it reaches the
   * replacement as `ws_before_op`, and a left side with a call inside a
   * subscript is declined, so that the call is never evaluated twice.
   */
  function ExpandWith(toks: seq<Token>, i: nat, corrected: bool): (r: Option<Match>)
    requires i < |toks| && IsVariable(toks[i])
    ensures r.Some? ==> i < r.value.end < |toks|
  {
    match Chain(toks, i + 1, TernaryPolicy(corrected))
    case Declined => None
    case Left(suffix, j0) => Elvis(toks, TokenText(toks[i]) + suffix, j0)
  }

  /** The rule as the fixer runs it. */
  function Expanded(toks: seq<Token>, i: nat): Option<Match>
    requires i < |toks| && IsVariable(toks[i])
  {
    ExpandWith(toks, i, false)
  }

  /** The `?`, `:` and whitespace scans of try_fix_short_ternary. */
  method TryElvis(toks: seq<Token>, leftSide: string, j0: nat) returns (r: Option<Match>)
    requires j0 <= |toks|
    ensures r == Elvis(toks, leftSide, j0)
  {
    r := None;
    var j, wsBeforeOp := TakeBlank(toks, j0, false);
    if j < |toks| && toks[j] == Char("?") {
      r := TryColon(toks, leftSide, j0, j, wsBeforeOp);
    }
  }

  /** The scans of try_fix_short_ternary after the `?` at `j`. */
  method TryColon(toks: seq<Token>, leftSide: string, j0: nat, j: nat, wsBeforeOp: string) returns (r: Option<Match>)
    requires j0 <= |toks| && j == SkipBlank(toks, j0, false) && wsBeforeOp == Span(toks, j0, j)
    requires j < |toks| && toks[j] == Char("?")
    ensures r == Elvis(toks, leftSide, j0)
  {
    r := None;
    var c, wsBetween := TakeBlank(toks, j + 1, false);
    ElvisAfterQuestion(toks, leftSide, j0, j, c);
    if c < |toks| && toks[c] == Char(":") {
      var e, wsAfterColon := TakeBlank(toks, c + 1, false);
      r := Some(Match(leftSide + wsBeforeOp + "? " + leftSide + " :" + wsAfterColon, e - 1));
    }
  }

  /** Elvis once the `?` at `j` is reached and the scan past it stops at `c`. */
  lemma ElvisAfterQuestion(toks: seq<Token>, leftSide: string, j0: nat, j: nat, c: nat)
    requires j0 <= |toks| && j == SkipBlank(toks, j0, false)
    requires j < |toks| && toks[j] == Char("?") && c == SkipBlank(toks, j + 1, false)
    ensures Elvis(toks, leftSide, j0) ==
      if c >= |toks| || toks[c] != Char(":") then None
      else Some(Match(leftSide + Span(toks, j0, j) + "? " + leftSide + " :" + Span(toks, c + 1, SkipBlank(toks, c + 1, false)),
                      SkipBlank(toks, c + 1, false) - 1))
  {
  }

  /** try_fix_short_ternary as a method: the subscript loop, then `?:`. */
  method TryFixShortTernary(toks: seq<Token>, i: nat, corrected: bool) returns (r: Option<Match>)
    requires i < |toks| && IsVariable(toks[i])
    ensures r == ExpandWith(toks, i, corrected)
  {
    var chain := CaptureChain(toks, i + 1, TernaryPolicy(corrected));
    if chain.Declined? {
      return None;
    }
    r := TryElvis(toks, TokenText(toks[i]) + chain.text, chain.next);
  }

  // ---------------------------------------------------------------------
  // What an expansion is

  /**
   * The layout of an expansion starting at variable `i`: the left side is
   * toks[i..q], whitespace toks[q..o], `?` at `o`, whitespace toks[o+1..c],
   * `:` at `c`, whitespace toks[c+1..end+1], and the token after `end`
   * (the default operand) is not whitespace. The replacement is the left
   * side, (the whitespace before `?` when `keep`), `? `, the left side
   * again, ` :` and the whitespace after the colon: the whitespace between
   * `?` and `:` is not part of it.
   */
  predicate ExpandLayout(toks: seq<Token>, i: nat, q: nat, o: nat, c: nat, m: Match, keep: bool)
  {
    i < q <= o < c <= m.end < |toks| &&
    AllBlank(toks, q, o, false) && toks[o] == Char("?") &&
    AllBlank(toks, o + 1, c, false) && toks[c] == Char(":") &&
    AllBlank(toks, c + 1, m.end + 1, false) &&
    (m.end + 1 < |toks| ==> !IsWhitespace(toks[m.end + 1])) &&
    m.replacement ==
      Span(toks, i, q) + (if keep then Span(toks, q, o) else "") + "? " +
      Span(toks, i, q) + " :" + Span(toks, c + 1, m.end + 1)
  }

  /** The layout of what Elvis accepts, for a left side toks[i..q]. */
  lemma ElvisLayout(toks: seq<Token>, i: nat, q: nat, j0: nat, leftSide: string, keep: bool)
    requires i < q <= j0 <= |toks|
    requires AllBlank(toks, q, j0, false) && leftSide == Span(toks, i, q)
    requires keep ==> q == j0
    requires !keep ==> SkipBlank(toks, j0, false) == j0
    requires Elvis(toks, leftSide, j0).Some?
    ensures var o := SkipBlank(toks, j0, false);
      ExpandLayout(toks, i, q, o, SkipBlank(toks, o + 1, false), Elvis(toks, leftSide, j0).value, keep)
  {
    var o := SkipBlank(toks, j0, false);
    var c := SkipBlank(toks, o + 1, false);
    var e := SkipBlank(toks, c + 1, false);
    var m := Elvis(toks, leftSide, j0).value;
    assert m.end + 1 == e;
    assert m.replacement == leftSide + Span(toks, j0, o) + "? " + leftSide + " :" + Span(toks, c + 1, e);
    if !keep {
      assert Span(toks, j0, o) == "";
      assert leftSide + "" == leftSide;
    }
  }

  /**
   * Every expansion has that layout: `?`, then after any whitespace `:`,
   * and a replacement in which the verbatim left side appears twice. As
   * written, the whitespace between the left side and `?` is not part of
   * the replacement either.
   */
  lemma ExpandShape(toks: seq<Token>, i: nat, corrected: bool)
    requires i < |toks| && IsVariable(toks[i])
    requires ExpandWith(toks, i, corrected).Some?
    ensures exists q: nat, o: nat, c: nat :: ExpandLayout(toks, i, q, o, c, ExpandWith(toks, i, corrected).value, corrected)
  {
    var p := TernaryPolicy(corrected);
    var chain := Chain(toks, i + 1, p);
    assert chain.Left?;
    ChainText(toks, i + 1, p);
    ChainStop(toks, i + 1, p);
    var q1: nat :| KeptUpTo(toks, i + 1, q1, chain, p);
    var leftSide := TokenText(toks[i]) + chain.text;
    assert ExpandWith(toks, i, corrected) == Elvis(toks, leftSide, chain.next);
    assert leftSide == Span(toks, i, q1) by { SpanCons(toks, i, q1); }
    ElvisLayout(toks, i, q1, chain.next, leftSide, corrected);
  }

  /**
   * The corrected rule copies no call: in every corrected expansion, no
   * token of the left side, the part the replacement writes twice, is `(`.
   */
  lemma CorrectedCopiesNoCall(toks: seq<Token>, i: nat)
    requires i < |toks| && IsVariable(toks[i])
    requires ExpandWith(toks, i, true).Some?
    ensures exists q: nat, o: nat, c: nat ::
      ExpandLayout(toks, i, q, o, c, ExpandWith(toks, i, true).value, true) && !HasCall(toks, i, q)
  {
    var p := TernaryPolicy(true);
    var chain := Chain(toks, i + 1, p);
    assert chain.Left?;
    ChainText(toks, i + 1, p);
    ChainCallFree(toks, i + 1, p);
    var q1: nat :| KeptUpTo(toks, i + 1, q1, chain, p);
    var leftSide := TokenText(toks[i]) + chain.text;
    assert ExpandWith(toks, i, true) == Elvis(toks, leftSide, chain.next);
    assert leftSide == Span(toks, i, q1) by { SpanCons(toks, i, q1); }
    ElvisLayout(toks, i, q1, chain.next, leftSide, true);
    VariableThenNoCall(toks, i, q1, chain.next);
  }

  /** A variable followed by tokens without `(` holds no call. */
  lemma VariableThenNoCall(toks: seq<Token>, i: nat, q: nat, n: nat)
    requires i < q <= n <= |toks| && IsVariable(toks[i])
    requires !HasCall(toks, i + 1, n)
    ensures !HasCall(toks, i, q)
  {
    forall k | i <= k < q
      ensures toks[k] != Char("(")
    {
      if k > i { assert i + 1 <= k < n; }
    }
  }

  /** The rule declines when the variable is continued by `->`, `?->` or
      a call `(`. */
  lemma DeclinesOnCallOrMember(toks: seq<Token>, i: nat, corrected: bool)
    requires i < |toks| && IsVariable(toks[i])
    requires var w := SkipBlank(toks, i + 1, false);
      w < |toks| && (IsMemberAccess(toks[w]) || toks[w] == Char("("))
    ensures ExpandWith(toks, i, corrected).None?
  {
  }

  /**
   * For a plain variable (no subscript) followed by whitespace and `?`,
   * the rule matches exactly when the next token after `?`, skipping
   * whitespace, is `:`; so a full ternary `$a ? $b : $c` is not touched.
   */
  lemma PlainExpand(toks: seq<Token>, i: nat, o: nat)
    requires i < o < |toks| && IsVariable(toks[i])
    requires AllBlank(toks, i + 1, o, false) && toks[o] == Char("?")
    ensures Expanded(toks, i).Some? <==>
      var c := SkipBlank(toks, o + 1, false); c < |toks| && toks[c] == Char(":")
  {
    SkipBlankTo(toks, i + 1, o, false);
    assert Chain(toks, i + 1, TernaryPolicy(false)) == Left("", o);
    SkipBlankTo(toks, o, o, false);
  }

  /**
   * The value of the rule at a plain variable (no subscript): whitespace,
   * `?`, whitespace, `:`, whitespace and then the default operand become
   * the variable, (the whitespace before `?` when restoring), `? `, the
   * variable, ` :` and the whitespace after the colon.
   */
  lemma PlainExpandValue(toks: seq<Token>, i: nat, o: nat, c: nat, e: nat, corrected: bool)
    requires i < o < c < e <= |toks| && IsVariable(toks[i])
    requires AllBlank(toks, i + 1, o, false) && toks[o] == Char("?")
    requires AllBlank(toks, o + 1, c, false) && toks[c] == Char(":")
    requires AllBlank(toks, c + 1, e, false) && (e < |toks| ==> !IsWhitespace(toks[e]))
    ensures var v := TokenText(toks[i]);
      ExpandWith(toks, i, corrected) ==
        Some(Match(v + (if corrected then Span(toks, i + 1, o) else "") + "? " + v + " :" + Span(toks, c + 1, e), e - 1))
  {
    var v := TokenText(toks[i]);
    PlainTernaryChain(toks, i, o, corrected);
    var j0 := if corrected then i + 1 else o;
    assert ExpandWith(toks, i, corrected) == Elvis(toks, v + "", j0);
    assert v + "" == v;
    ElvisAt(toks, v, j0, o, c, e);
  }

  /** A plain variable's chain is empty; it stops at `?`, or right after
      the variable when restoring. */
  lemma PlainTernaryChain(toks: seq<Token>, i: nat, o: nat, corrected: bool)
    requires i < o < |toks|
    requires AllBlank(toks, i + 1, o, false) && toks[o] == Char("?")
    ensures Chain(toks, i + 1, TernaryPolicy(corrected)) == Left("", if corrected then i + 1 else o)
  {
    SkipBlankTo(toks, i + 1, o, false);
  }

  /** Elvis over a known layout of `?`, `:` and whitespace. */
  lemma ElvisAt(toks: seq<Token>, leftSide: string, j0: nat, o: nat, c: nat, e: nat)
    requires j0 <= o < c < e <= |toks|
    requires AllBlank(toks, j0, o, false) && toks[o] == Char("?")
    requires AllBlank(toks, o + 1, c, false) && toks[c] == Char(":")
    requires AllBlank(toks, c + 1, e, false) && (e < |toks| ==> !IsWhitespace(toks[e]))
    ensures Elvis(toks, leftSide, j0) ==
      Some(Match(leftSide + Span(toks, j0, o) + "? " + leftSide + " :" + Span(toks, c + 1, e), e - 1))
  {
    SkipBlankTo(toks, j0, o, false);
    SkipBlankTo(toks, o + 1, c, false);
    SkipBlankTo(toks, c + 1, e, false);
  }

  // ---------------------------------------------------------------------
  // Examples

  /** `$a ?: $b` */
  function ShortForm(): seq<Token> {
    [Named(Variable, "$a"), Named(Whitespace, " "), Char("?"), Char(":"),
     Named(Whitespace, " "), Named(Variable, "$b")]
  }

  /** The layout of `$a ?: $b`: a variable, a blank, `?`, `:`, a blank. */
  lemma ShortFormLayout(t: seq<Token>)
    requires t == ShortForm()
    ensures IsVariable(t[0]) && TokenText(t[0]) == "$a"
    ensures AllBlank(t, 1, 2, false) && t[2] == Char("?")
    ensures AllBlank(t, 3, 3, false) && t[3] == Char(":")
    ensures AllBlank(t, 4, 5, false) && !IsWhitespace(t[5])
    ensures Span(t, 1, 2) == " " && Span(t, 4, 5) == " "
  {
    assert Span(t, 1, 1) == "";
    assert Span(t, 4, 4) == "";
  }

  lemma DroppedSpaceText()
    ensures "$a" + "" + "? " + "$a" + " :" + " " == "$a? $a : "
  {
  }

  lemma RestoredSpaceText()
    ensures "$a" + " " + "? " + "$a" + " :" + " " == "$a ? $a : "
  {
  }

  /** As written, `$a ?: $b` becomes `$a? $a : $b`: the space before `?`
      is lost and `? ` is written in its place. */
  lemma ExpandDropsSpaceBeforeOperator()
    ensures Expanded(ShortForm(), 0) == Some(Match("$a? $a : ", 4))
  {
    ShortFormLayout(ShortForm());
    PlainExpandValue(ShortForm(), 0, 2, 3, 5, false);
    DroppedSpaceText();
  }

  /** With the position restored, `$a ?: $b` becomes `$a ? $a : $b`. */
  lemma RestoringExpandExample()
    ensures ExpandWith(ShortForm(), 0, true) == Some(Match("$a ? $a : ", 4))
  {
    ShortFormLayout(ShortForm());
    PlainExpandValue(ShortForm(), 0, 2, 3, 5, true);
    RestoredSpaceText();
  }

  /** `$a ? $b : $c` is a full ternary and is left alone. */
  lemma FullTernaryDeclines()
    ensures Expanded([Named(Variable, "$a"), Named(Whitespace, " "), Char("?"), Named(Whitespace, " "),
                      Named(Variable, "$b"), Named(Whitespace, " "), Char(":"), Named(Whitespace, " "),
                      Named(Variable, "$c")], 0).None?
  {
    var t := [Named(Variable, "$a"), Named(Whitespace, " "), Char("?"), Named(Whitespace, " "),
              Named(Variable, "$b"), Named(Whitespace, " "), Char(":"), Named(Whitespace, " "),
              Named(Variable, "$c")];
    PlainExpand(t, 0, 2);
    SkipBlankTo(t, 3, 4, false);
  }

  /** `$arr['key'] ?: $d` */
  function SubscriptForm(): seq<Token> {
    [Named(Variable, "$arr"), Char("["), Named(ConstantEncapsedString, "'key'"), Char("]"),
     Named(Whitespace, " "), Char("?"), Char(":"), Named(Whitespace, " "), Named(Variable, "$d")]
  }

  /** The subscript is part of the left side: `$arr['key'] ?: $d` becomes
      `$arr['key']? $arr['key'] : $d`. */
  lemma SubscriptExpandExample()
    ensures Expanded(SubscriptForm(), 0) == Some(Match("$arr['key']? $arr['key'] : ", 7))
  {
    SubscriptExpandLeft(SubscriptForm());
    SubscriptLayout(SubscriptForm());
    ElvisAt(SubscriptForm(), "$arr['key']", 5, 5, 6, 8);
    SubscriptReplacementText();
  }

  /** The left side of `$arr['key'] ?: $d` is `$arr['key']`, and the scan
      goes on at `?`. */
  lemma SubscriptExpandLeft(t: seq<Token>)
    requires t == SubscriptForm()
    ensures Expanded(t, 0) == Elvis(t, "$arr['key']", 5)
  {
    SubscriptChain(t);
    SubscriptLeftText();
  }

  /** The layout of `$arr['key'] ?: $d` from `?` on. */
  lemma SubscriptLayout(t: seq<Token>)
    requires t == SubscriptForm()
    ensures AllBlank(t, 5, 5, false) && t[5] == Char("?")
    ensures AllBlank(t, 6, 6, false) && t[6] == Char(":")
    ensures AllBlank(t, 7, 8, false) && !IsWhitespace(t[8])
    ensures Span(t, 5, 5) == "" && Span(t, 7, 8) == " "
  {
    assert Span(t, 7, 7) == "";
  }

  lemma SubscriptLeftText()
    ensures "$arr" + "['key']" == "$arr['key']"
  {
  }

  lemma SubscriptReplacementText()
    ensures "$arr['key']" + "" + "? " + "$arr['key']" + " :" + " " == "$arr['key']? $arr['key'] : "
  {
  }

  /** The chain of `$arr['key'] ?:` is the subscript, and it stops at `?`. */
  lemma SubscriptChain(t: seq<Token>)
    requires t == SubscriptForm()
    ensures Chain(t, 1, TernaryPolicy(false)) == Left("['key']", 5)
  {
    var p := TernaryPolicy(false);
    assert Capture(t, 1) == Some(Captured("['key']", 3)) by {
      assert Span(t, 1, 4) == "['key']" by {
        assert Span(t, 1, 1) == "";
      }
    }
    assert Chain(t, 4, p) == Left("", 5) by {
      SkipBlankTo(t, 4, 5, false);
    }
    SkipBlankTo(t, 1, 1, false);
    assert Span(t, 1, 1) + "['key']" == "['key']";
    assert "['key']" + "" == "['key']";
  }

  /** `$arr[foo()] ?: $d` */
  function CallSubscriptForm(): seq<Token> {
    [Named(Variable, "$arr"), Char("["), Named(Identifier, "foo"), Char("("), Char(")"), Char("]"),
     Named(Whitespace, " "), Char("?"), Char(":"), Named(Whitespace, " "), Named(Variable, "$d")]
  }

  /** As written, a call inside a subscript is copied: `$arr[foo()] ?: $d`
      becomes `$arr[foo()]? $arr[foo()] : $d`, which calls `foo` twice. */
  lemma SubscriptCallDuplicated()
    ensures Expanded(CallSubscriptForm(), 0) == Some(Match("$arr[foo()]? $arr[foo()] : ", 9))
  {
    CallSubscriptLeft(CallSubscriptForm());
    CallSubscriptLayout(CallSubscriptForm());
    ElvisAt(CallSubscriptForm(), "$arr[foo()]", 7, 7, 8, 10);
    CallReplacementText();
  }

  /** The left side of `$arr[foo()] ?: $d` is `$arr[foo()]`, and the scan
      goes on at `?`. */
  lemma CallSubscriptLeft(t: seq<Token>)
    requires t == CallSubscriptForm()
    ensures Expanded(t, 0) == Elvis(t, "$arr[foo()]", 7)
  {
    CallSubscriptChain(t);
    CallLeftText();
  }

  /** The layout of `$arr[foo()] ?: $d` from `?` on. */
  lemma CallSubscriptLayout(t: seq<Token>)
    requires t == CallSubscriptForm()
    ensures AllBlank(t, 7, 7, false) && t[7] == Char("?")
    ensures AllBlank(t, 8, 8, false) && t[8] == Char(":")
    ensures AllBlank(t, 9, 10, false) && !IsWhitespace(t[10])
    ensures Span(t, 7, 7) == "" && Span(t, 9, 10) == " "
  {
    assert Span(t, 9, 9) == "";
  }

  lemma CallLeftText()
    ensures "$arr" + "[foo()]" == "$arr[foo()]"
  {
  }

  lemma CallReplacementText()
    ensures "$arr[foo()]" + "" + "? " + "$arr[foo()]" + " :" + " " == "$arr[foo()]? $arr[foo()] : "
  {
  }

  /** The as-written chain of `$arr[foo()] ?:` is the subscript, and it
      stops at `?`. */
  lemma CallSubscriptChain(t: seq<Token>)
    requires t == CallSubscriptForm()
    ensures Chain(t, 1, TernaryPolicy(false)) == Left("[foo()]", 7)
  {
    var p := TernaryPolicy(false);
    CallSubscriptCapture(t);
    SkipBlankTo(t, 1, 1, false);
    ChainUnfold(t, 1, 1, Captured("[foo()]", 5), p);
    assert Chain(t, 6, p) == Left("", 7) by {
      SkipBlankTo(t, 6, 7, false);
    }
    assert Span(t, 1, 1) + "[foo()]" + "" == "[foo()]";
  }

  /** The subscript of `$arr[foo()]` is captured whole, call included. */
  lemma CallSubscriptCapture(t: seq<Token>)
    requires t == CallSubscriptForm()
    ensures Capture(t, 1) == Some(Captured("[foo()]", 5))
    ensures HasCall(t, 1, 6)
  {
    assert Span(t, 1, 6) == "[foo()]" by {
      assert Span(t, 1, 1) == "";
    }
    assert t[3] == Char("(");
  }

  /** The corrected rule declines `$arr[foo()] ?: $d`. */
  lemma SubscriptCallDeclined()
    ensures ExpandWith(CallSubscriptForm(), 0, true) == None
  {
    var t := CallSubscriptForm();
    CallSubscriptCapture(t);
    SkipBlankTo(t, 1, 1, false);
  }
}
