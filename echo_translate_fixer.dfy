/**
 * The echo translate fixer: `echo __(` becomes `echo esc_html__(`. A flag
 * remembers that an `echo` was seen; statement terminators and most other
 * tokens clear it, whitespace and `.` keep it.
 */
module EchoTranslateFixer {
  import opened Tokens
  import opened Cursor

  /** `;`, `{` or `}`. */
  predicate IsTerminator(t: Token) {
    t == Char(";") || t == Char("{") || t == Char("}")
  }

  /** A standalone call of `__` at `i`: the same test as the rename fixers. */
  predicate IsTranslateCall(toks: seq<Token>, i: nat)
    requires i < |toks|
  {
    Rename(toks, i, "__", "esc_html__", AsWritten).Some?
  }

  /** What one iteration of the main loop does: the text it emits, whether
      it made a fix, and the flag it leaves. */
  datatype StepResult = StepResult(emitted: string, fixed: bool, afterEcho: bool)

  /**
   * One iteration at index `i` with the flag `afterEcho`: an `echo` token
   * sets the flag; a terminator clears it before the other tests; a
   * standalone call of `__` under the flag is replaced and keeps the flag;
   * whitespace keeps the flag; any other token except `__` and `.` clears it.
   */
  function EchoStep(toks: seq<Token>, i: nat, afterEcho: bool): (s: StepResult)
    requires i < |toks|
    ensures s.fixed <==>
      afterEcho && !IsTerminator(toks[i]) && IsName(toks[i], "__") &&
      IsFollowedByParen(toks, i) && IsStandalone(toks, i, AsWritten)
    ensures s.fixed ==> s.emitted == "esc_html__" && s.afterEcho
    ensures !s.fixed ==> s.emitted == TokenText(toks[i])
    ensures s.afterEcho ==> afterEcho || IsKind(toks[i], Echo)
    ensures IsKind(toks[i], Echo) ==> s.afterEcho
    ensures IsTerminator(toks[i]) ==> !s.afterEcho
    ensures IsWhitespace(toks[i]) ==> s.afterEcho == afterEcho
    ensures toks[i] == Char(".") ==> s.afterEcho == afterEcho
    ensures IsName(toks[i], "__") ==> s.afterEcho == afterEcho
    ensures (!IsKind(toks[i], Echo) && !IsWhitespace(toks[i]) && !IsName(toks[i], "__") &&
             toks[i] != Char(".")) ==> !s.afterEcho
  {
    var t := toks[i];
    if IsKind(t, Echo) then StepResult(TokenText(t), false, true)
    else
      var f := afterEcho && !IsTerminator(t);
      if f && IsTranslateCall(toks, i) then StepResult("esc_html__", true, f)
      else if IsWhitespace(t) then StepResult(TokenText(t), false, f)
      else StepResult(TokenText(t), false, f && (IsName(t, "__") || t == Char(".")))
  }

  /** The main loop from index `i` with the flag `afterEcho`. */
  function EchoScan(toks: seq<Token>, i: nat, afterEcho: bool): (r: Outcome)
    requires i <= |toks|
    ensures r.fixes <= |toks| - i
    decreases |toks| - i
  {
    if i == |toks| then Outcome("", 0)
    else
      var s := EchoStep(toks, i, afterEcho);
      var rest := EchoScan(toks, i + 1, s.afterEcho);
      Outcome(s.emitted + rest.text, rest.fixes + if s.fixed then 1 else 0)
  }

  /** The body of the main loop, with its `continue`s. */
  method Step(toks: seq<Token>, i: nat, afterEcho: bool) returns (s: StepResult)
    requires i < |toks|
    ensures s == EchoStep(toks, i, afterEcho)
  {
    var t := toks[i];
    if IsKind(t, Echo) {
      return StepResult(TokenText(t), false, true);
    }
    var flag := afterEcho;
    if IsTerminator(t) {
      flag := false;
    }
    if flag {
      var r := TryRename(toks, i, "__", "esc_html__", AsWritten);
      if r.Some? {
        return StepResult("esc_html__", true, flag);
      }
    }
    if IsWhitespace(t) {
      return StepResult(TokenText(t), false, flag);
    }
    if flag && !IsName(t, "__") && t != Char(".") {
      flag := false;
    }
    s := StepResult(TokenText(t), false, flag);
  }

  /** The main loop of process_file. */
  method Rewrite(toks: seq<Token>) returns (text: string, fixes: nat)
    ensures Outcome(text, fixes) == EchoScan(toks, 0, false)
  {
    text, fixes := "", 0;
    var i := 0;
    var afterEcho := false;
    while i < |toks|
      invariant i <= |toks|
      invariant var rest := EchoScan(toks, i, afterEcho);
        Outcome(text + rest.text, fixes + rest.fixes) == EchoScan(toks, 0, false)
    {
      var s := Step(toks, i, afterEcho);
      ScanStep(toks, i, afterEcho, s, text);
      text := text + s.emitted;
      if s.fixed {
        fixes := fixes + 1;
      }
      afterEcho := s.afterEcho;
      i := i + 1;
    }
  }

  /** One iteration of the main loop moves the emitted text from the rest
      of the scan onto the text written so far. */
  lemma ScanStep(toks: seq<Token>, i: nat, afterEcho: bool, s: StepResult, text: string)
    requires i < |toks| && s == EchoStep(toks, i, afterEcho)
    ensures var rest := EchoScan(toks, i + 1, s.afterEcho);
      text + EchoScan(toks, i, afterEcho).text == (text + s.emitted) + rest.text &&
      EchoScan(toks, i, afterEcho).fixes == rest.fixes + (if s.fixed then 1 else 0)
  {
  }

  /** process_file: an unreadable or untokenizable file counts 0 fixes; the
      new text is written only when there was a fix. */
  method ProcessFile(tokens: Option<seq<Token>>) returns (fixes: nat, written: Option<string>)
    ensures tokens.None? ==> fixes == 0 && written.None?
    ensures tokens.Some? ==> fixes == EchoScan(tokens.value, 0, false).fixes
    ensures written.Some? <==> fixes > 0
    ensures written.Some? ==> written.value == EchoScan(tokens.value, 0, false).text
  {
    if tokens.None? {
      return 0, None;
    }
    var text;
    text, fixes := Rewrite(tokens.value);
    written := if fixes > 0 then Some(text) else None;
  }

  /** The number of `echo` tokens in toks[i..]. */
  function EchoCount(toks: seq<Token>, i: nat): nat
    requires i <= |toks|
    decreases |toks| - i
  {
    if i == |toks| then 0 else (if IsKind(toks[i], Echo) then 1 else 0) + EchoCount(toks, i + 1)
  }

  /** After a fix the flag survives only the whitespace up to the `(`,
      which clears it. */
  lemma {:induction false} ClearedByParen(toks: seq<Token>, j: nat, o: nat)
    requires j <= o < |toks| && AllBlank(toks, j, o, false) && toks[o] == Char("(")
    ensures EchoScan(toks, j, true).fixes == EchoScan(toks, o + 1, false).fixes
    ensures EchoCount(toks, j) == EchoCount(toks, o + 1)
    decreases o - j
  {
    if j < o {
      assert BlankAt(toks, j, false);
      ClearedByParen(toks, j + 1, o);
    }
  }

  /**
   * Each `echo` yields at most one fix: a pass from `i` makes no more fixes
   * than there are `echo` tokens ahead, plus one for a flag already set.
   */
  lemma {:induction false} FixesPerEcho(toks: seq<Token>, i: nat, afterEcho: bool)
    requires i <= |toks|
    ensures EchoScan(toks, i, afterEcho).fixes <= EchoCount(toks, i) + (if afterEcho then 1 else 0)
    decreases |toks| - i, 1
  {
    if i < |toks| {
      if EchoStep(toks, i, afterEcho).fixed {
        FixedStepBound(toks, i, afterEcho);
      } else {
        FixesPerEcho(toks, i + 1, EchoStep(toks, i, afterEcho).afterEcho);
      }
    }
  }

  /** FixesPerEcho at a fix: the fix uses up the flag, which the `(` after
      the call clears. */
  lemma {:induction false} FixedStepBound(toks: seq<Token>, i: nat, afterEcho: bool)
    requires i < |toks| && EchoStep(toks, i, afterEcho).fixed
    ensures EchoScan(toks, i, afterEcho).fixes <= EchoCount(toks, i) + (if afterEcho then 1 else 0)
    decreases |toks| - i, 0
  {
    FixedStep(toks, i, afterEcho);
    var o := SkipBlank(toks, i + 1, false);
    ClearedByParen(toks, i + 1, o);
    FixesPerEcho(toks, o + 1, false);
    assert EchoScan(toks, i, afterEcho).fixes == EchoScan(toks, o + 1, false).fixes + 1;
  }

  /** A fix at `i` needs the flag, is not an `echo`, counts one and keeps
      the flag up to the `(` after the call. */
  lemma FixedStep(toks: seq<Token>, i: nat, afterEcho: bool)
    requires i < |toks| && EchoStep(toks, i, afterEcho).fixed
    ensures afterEcho && EchoCount(toks, i) == EchoCount(toks, i + 1)
    ensures EchoScan(toks, i, afterEcho).fixes == EchoScan(toks, i + 1, true).fixes + 1
    ensures var o := SkipBlank(toks, i + 1, false);
      o < |toks| && AllBlank(toks, i + 1, o, false) && toks[o] == Char("(")
  {
  }

  /** A whole file gets no more fixes than it has `echo` statements. */
  lemma FixesBoundedByEchos(toks: seq<Token>)
    ensures EchoScan(toks, 0, false).fixes <= EchoCount(toks, 0)
  {
    FixesPerEcho(toks, 0, false);
  }

  /** Every token is emitted verbatim except the replaced `__`, which grows
      by eight characters. */
  lemma {:induction false} EchoGrowth(toks: seq<Token>, i: nat, afterEcho: bool)
    requires i <= |toks|
    ensures |EchoScan(toks, i, afterEcho).text| == |Span(toks, i, |toks|)| + 8 * EchoScan(toks, i, afterEcho).fixes
    decreases |toks| - i
  {
    if i < |toks| {
      SpanCons(toks, i, |toks|);
      EchoGrowth(toks, i + 1, EchoStep(toks, i, afterEcho).afterEcho);
    }
  }

  /** A pass without fixes reproduces the input text exactly. */
  lemma {:induction false} NoFixVerbatim(toks: seq<Token>, i: nat, afterEcho: bool)
    requires i <= |toks|
    requires EchoScan(toks, i, afterEcho).fixes == 0
    ensures EchoScan(toks, i, afterEcho).text == Span(toks, i, |toks|)
    decreases |toks| - i
  {
    if i < |toks| {
      SpanCons(toks, i, |toks|);
      NoFixVerbatim(toks, i + 1, EchoStep(toks, i, afterEcho).afterEcho);
    }
  }

  /** A file without `echo` is left exactly as it is. */
  lemma NoEchoUnchanged(toks: seq<Token>)
    requires EchoCount(toks, 0) == 0
    ensures EchoScan(toks, 0, false) == Outcome(Text(toks), 0)
  {
    FixesPerEcho(toks, 0, false);
    NoFixVerbatim(toks, 0, false);
  }

  /** `echo $a . __(`: the variable clears the flag, so `__` is kept. */
  function ConcatenatedCall(): seq<Token> {
    [Named(Echo, "echo"), Named(Variable, "$a"), Char("."), Named(Identifier, "__"), Char("(")]
  }

  lemma ConcatenatedCallKept()
    ensures EchoScan(ConcatenatedCall(), 0, false).fixes == 0
  {
    var t := ConcatenatedCall();
    assert EchoStep(t, 0, false) == StepResult("echo", false, true);
    assert EchoStep(t, 1, true) == StepResult("$a", false, false);
    assert !EchoStep(t, 2, false).fixed && !EchoStep(t, 2, false).afterEcho;
    assert !EchoStep(t, 3, false).fixed && !EchoStep(t, 3, false).afterEcho;
    assert EchoScan(t, 4, false).fixes == 0 by {
      assert EchoScan(t, 5, EchoStep(t, 4, false).afterEcho).fixes == 0;
      assert !EchoStep(t, 4, false).fixed;
    }
  }

  /** `echo __(`: the call right after `echo` is replaced, and the `(`
      that follows clears the flag. */
  function DirectCall(): seq<Token> {
    [Named(Echo, "echo"), Named(Whitespace, " "), Named(Identifier, "__"), Char("(")]
  }

  lemma DirectCallFix()
    ensures EchoStep(DirectCall(), 2, true) == StepResult("esc_html__", true, true)
  {
    var t := DirectCall();
    assert PrevNonBlank(t, 2) == 0;
    assert SkipBlank(t, 3, false) == 3;
  }

  lemma DirectCallTail()
    ensures EchoScan(DirectCall(), 2, true) == Outcome("esc_html__(", 1)
  {
    var t := DirectCall();
    DirectCallFix();
    assert EchoStep(t, 3, true) == StepResult("(", false, false);
    assert EchoScan(t, 3, true) == Outcome("(", 0) by {
      assert EchoScan(t, 4, false) == Outcome("", 0);
    }
    assert "esc_html__" + "(" == "esc_html__(";
  }
}
