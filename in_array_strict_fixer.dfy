/**
 * The strict in_array fixer: a call `in_array(needle, haystack)` with
 * exactly two top-level arguments gets `, true` appended before its closing
 * parenthesis.
 */
module InArrayStrictFixer {
  import opened Tokens
  import opened Cursor

  /** The candidate test of the main loop: a bare name that reads in_array
      in any case. No preceding-token check is made. */
  predicate IsInArrayName(t: Token) {
    IsKind(t, Identifier) && Lower(t.text) == "in_array"
  }

  /** Where the argument loop stopped, how many arguments it counted, and
      whether the segment after the last top-level comma had content. */
  datatype Args = Args(close: nat, count: nat, hasContent: bool)

  /**
   * The argument loop of try_fix_in_array from index `j`: `(`, `)`, `[` and
   * `]` share one depth counter; a comma at depth 1 ends an argument; the
   * `)` that brings the depth to 0 ends the call and counts the last
   * argument if it had content. The loop also ends when the tokens run out
   * or a `]` brings the depth to 0; then `close` is one past the last token
   * read and the last segment is not counted.
   */
  function ArgScan(toks: seq<Token>, j: nat, depth: nat, argc: nat, has: bool): (r: Args)
    requires j <= |toks|
    ensures j <= r.close <= |toks|
    decreases |toks| - j
  {
    if j >= |toks| || depth == 0 then Args(j, argc, has)
    else
      var t := toks[j];
      if t == Char("(") then ArgScan(toks, j + 1, depth + 1, argc, true)
      else if t == Char(")") then
        if depth == 1 then Args(j, if has then argc + 1 else argc, has)
        else ArgScan(toks, j + 1, depth - 1, argc, has)
      else if t == Char(",") && depth == 1 then ArgScan(toks, j + 1, depth, argc + 1, false)
      else if t == Char("[") then ArgScan(toks, j + 1, depth + 1, argc, true)
      else if t == Char("]") then ArgScan(toks, j + 1, depth - 1, argc, true)
      else ArgScan(toks, j + 1, depth, argc, has || !IsWhitespace(t))
  }

  /** The argument scan of the call whose `(` is at `o`. */
  function Arguments(toks: seq<Token>, o: nat): (r: Args)
    requires o < |toks|
    ensures o < r.close <= |toks|
  {
    ArgScan(toks, o + 1, 1, 0, false)
  }

  /**
   * try_fix_in_array at a candidate name `i`: the next non-whitespace token
   * must be `(`, and the call must have exactly two arguments; then the
   * tokens from the name up to the closing parenthesis are kept verbatim
   * and `, true)` is appended. The match ends at the closing parenthesis.
   */
  function Strict(toks: seq<Token>, i: nat): (r: Option<Match>)
    requires i < |toks| && IsInArrayName(toks[i])
    ensures r.Some? ==> i < r.value.end <= |toks|
  {
    var o := SkipBlank(toks, i + 1, false);
    if o >= |toks| || toks[o] != Char("(") then None
    else
      var a := Arguments(toks, o);
      if a.count != 2 then None
      else Some(Match(Span(toks, i, a.close) + ", true)", a.close))
  }

  /** The argument loop, as the source writes it, with its `break`. */
  method CountArguments(toks: seq<Token>, o: nat) returns (r: Args)
    requires o < |toks|
    ensures r == Arguments(toks, o)
  {
    var j := o + 1;
    var depth: nat := 1;
    var argCount: nat := 0;
    var hasContent := false;
    while j < |toks| && depth > 0
      invariant o < j <= |toks|
      invariant ArgScan(toks, j, depth, argCount, hasContent) == Arguments(toks, o)
      decreases |toks| - j
    {
      var t := toks[j];
      if t == Char("(") {
        depth := depth + 1;
        hasContent := true;
      } else if t == Char(")") {
        depth := depth - 1;
        if depth == 0 {
          if hasContent {
            argCount := argCount + 1;
          }
          return Args(j, argCount, hasContent);
        }
      } else if t == Char(",") && depth == 1 {
        argCount := argCount + 1;
        hasContent := false;
      } else if t == Char("[") {
        depth := depth + 1;
        hasContent := true;
      } else if t == Char("]") {
        depth := depth - 1;
        hasContent := true;
      } else if !IsWhitespace(t) {
        hasContent := true;
      }
      j := j + 1;
    }
    r := Args(j, argCount, hasContent);
  }

  /** The rule as written, or with the trailing-comma correction. */
  function StrictWith(toks: seq<Token>, i: nat, v: Variant): Option<Match>
    requires i < |toks| && IsInArrayName(toks[i])
  {
    if v == AsWritten then Strict(toks, i) else StrictFixed(toks, i)
  }

  /** try_fix_in_array as a method: the whitespace skip, the argument loop
      and the loop that copies the kept tokens. */
  method TryFixInArray(toks: seq<Token>, i: nat, v: Variant) returns (r: Option<Match>)
    requires i < |toks| && IsInArrayName(toks[i])
    ensures r == StrictWith(toks, i, v)
  {
    var o := SkipBlankForward(toks, i + 1, false);
    if o >= |toks| || toks[o] != Char("(") {
      return None;
    }
    var a := CountArguments(toks, o);
    if a.count != 2 {
      return None;
    }
    var replacement := "";
    for k := i to a.close
      invariant replacement == Span(toks, i, k)
    {
      replacement := replacement + TokenText(toks[k]);
    }
    StrictTailText();
    BareTailText();
    var tail := if v == Corrected && !a.hasContent then " true)" else ", true)";
    r := Some(Match(replacement + tail, a.close));
  }

  // ---------------------------------------------------------------------
  // What the argument loop counts

  /** +1 for `(` and `[`, -1 for `)` and `]`: the shared depth counter. */
  function ParenDelta(t: Token): int {
    if t == Char("(") || t == Char("[") then 1
    else if t == Char(")") || t == Char("]") then -1
    else 0
  }

  /** The nesting of toks[s..e] relative to the call's own parentheses. */
  function Nest(toks: seq<Token>, s: nat, e: nat): int
    requires s <= e <= |toks|
    decreases e - s
  {
    if s == e then 0 else Nest(toks, s, e - 1) + ParenDelta(toks[e - 1])
  }

  /** A comma directly inside the call's parentheses: an argument separator. */
  predicate TopComma(toks: seq<Token>, s: nat, k: nat)
    requires s <= k < |toks|
  {
    toks[k] == Char(",") && Nest(toks, s, k) == 0
  }

  /** The number of argument separators in toks[s..e]. */
  function CountTop(toks: seq<Token>, s: nat, e: nat): nat
    requires s <= e <= |toks|
    decreases e - s
  {
    if s == e then 0 else CountTop(toks, s, e - 1) + (if TopComma(toks, s, e - 1) then 1 else 0)
  }

  /** Some token after the last argument separator in toks[s..e] is not
      whitespace. */
  function SegContent(toks: seq<Token>, s: nat, e: nat): bool
    requires s <= e <= |toks|
    decreases e - s
  {
    if s == e then false
    else if TopComma(toks, s, e - 1) then false
    else SegContent(toks, s, e - 1) || !IsWhitespace(toks[e - 1])
  }

  /** The `)` at `e` closes the call whose arguments start at `s`. */
  predicate ClosedAt(toks: seq<Token>, s: nat, e: nat)
    requires s <= e <= |toks|
  {
    e < |toks| && toks[e] == Char(")") && Nest(toks, s, e) == 0
  }

  /** The loop stops at `e`: the tokens have run out, a `]` has taken the
      nesting below the call's own, or `e` is the call's closing `)`. */
  predicate StopAt(toks: seq<Token>, s: nat, e: nat)
    requires s <= e <= |toks|
  {
    e == |toks| || Nest(toks, s, e) < 0 || ClosedAt(toks, s, e)
  }

  /** The loop does not stop anywhere in [s, e). */
  predicate NoStop(toks: seq<Token>, s: nat, e: nat)
    requires s <= e <= |toks|
  {
    forall k :: s <= k < e ==> !StopAt(toks, s, k)
  }

  /** The argument count as the source defines it: one per separator, plus
      one for the last argument when the call is closed and that argument
      has content. */
  function ArgCount(toks: seq<Token>, s: nat, e: nat): nat
    requires s <= e <= |toks|
  {
    CountTop(toks, s, e) + (if ClosedAt(toks, s, e) && SegContent(toks, s, e) then 1 else 0)
  }

  /**
   * The argument loop, from any state that agrees with the reference
   * definitions, stops at the first stopping index and counts the
   * arguments by the reference definition. Key step: a nesting above the
   * call's own implies content, so a nested `)` never changes what the
   * loop's content flag should say.
   */
  lemma {:induction false} ArgScanFrom(toks: seq<Token>, s: nat, j: nat, depth: nat, argc: nat, has: bool)
    requires s <= j <= |toks|
    requires depth == 1 + Nest(toks, s, j)
    requires argc == CountTop(toks, s, j) && has == SegContent(toks, s, j)
    requires depth > 1 ==> has
    requires NoStop(toks, s, j)
    ensures var r := ArgScan(toks, j, depth, argc, has);
      StopAt(toks, s, r.close) && NoStop(toks, s, r.close) &&
      r.count == ArgCount(toks, s, r.close) &&
      (ClosedAt(toks, s, r.close) ==> r.hasContent == SegContent(toks, s, r.close))
    decreases |toks| - j
  {
    if j >= |toks| || depth == 0 {
    } else {
      var t := toks[j];
      if t == Char(")") && depth == 1 {
        assert ClosedAt(toks, s, j);
      } else {
        assert !StopAt(toks, s, j);
        assert Nest(toks, s, j + 1) == Nest(toks, s, j) + ParenDelta(t);
        var st: (nat, nat, bool) :=
          if t == Char("(") then (depth + 1, argc, true)
          else if t == Char(")") then (depth - 1, argc, has)
          else if t == Char(",") && depth == 1 then (depth, argc + 1, false)
          else if t == Char("[") then (depth + 1, argc, true)
          else if t == Char("]") then (depth - 1, argc, true)
          else (depth, argc, has || !IsWhitespace(t));
        var depth', argc', has' := st.0, st.1, st.2;
        assert ArgScan(toks, j, depth, argc, has) == ArgScan(toks, j + 1, depth', argc', has');
        assert CountTop(toks, s, j + 1) == argc';
        assert SegContent(toks, s, j + 1) == has';
        ArgScanFrom(toks, s, j + 1, depth', argc', has');
      }
    }
  }

  /** The meaning of a call's argument scan: it stops at the first stopping
      index after `(` (the matching `)` for a closed call) and counts the
      arguments by the reference definition. */
  lemma ArgumentsMeaning(toks: seq<Token>, o: nat)
    requires o < |toks|
    ensures var r := Arguments(toks, o);
      StopAt(toks, o + 1, r.close) && NoStop(toks, o + 1, r.close) &&
      r.count == ArgCount(toks, o + 1, r.close) &&
      (ClosedAt(toks, o + 1, r.close) ==> r.hasContent == SegContent(toks, o + 1, r.close))
  {
    ArgScanFrom(toks, o + 1, o + 1, 1, 0, false);
  }

  /** There is only one first stopping index. */
  lemma FirstStopUnique(toks: seq<Token>, s: nat, c1: nat, c2: nat)
    requires s <= c1 <= |toks| && s <= c2 <= |toks|
    requires StopAt(toks, s, c1) && NoStop(toks, s, c1)
    requires StopAt(toks, s, c2) && NoStop(toks, s, c2)
    ensures c1 == c2
  {
  }

  /**
   * What the rule does: it rewrites exactly when the name is followed by
   * `(` and the call has two arguments by the reference count; the
   * replacement keeps the tokens from the name up to the first stopping
   * index verbatim, appends `, true)` and ends there.
   */
  lemma StrictMeaning(toks: seq<Token>, i: nat)
    requires i < |toks| && IsInArrayName(toks[i])
    ensures var o := SkipBlank(toks, i + 1, false);
      (Strict(toks, i).Some? <==>
        o < |toks| && toks[o] == Char("(") && ArgCount(toks, o + 1, Arguments(toks, o).close) == 2) &&
      (Strict(toks, i).Some? ==>
        var c := Strict(toks, i).value.end;
        StopAt(toks, o + 1, c) && NoStop(toks, o + 1, c) &&
        Strict(toks, i).value.replacement == Span(toks, i, c) + ", true)")
  {
    var o := SkipBlank(toks, i + 1, false);
    if o < |toks| {
      ArgumentsMeaning(toks, o);
    }
  }

  // ---------------------------------------------------------------------
  // A second pass

  /** The tokens of the appended text `, true)`. */
  function StrictTail(): seq<Token> {
    [Char(","), Named(Whitespace, " "), Named(Identifier, "true"), Char(")")]
  }

  /** The tokens of ` true)`, the text that follows a trailing comma. */
  function BareTail(): seq<Token> {
    [Named(Whitespace, " "), Named(Identifier, "true"), Char(")")]
  }

  /** `toks` and `toks2` hold the same tokens below `e`. */
  predicate AgreeBelow(toks: seq<Token>, toks2: seq<Token>, e: nat)
  {
    e <= |toks| && e <= |toks2| && forall k :: 0 <= k < e ==> toks2[k] == toks[k]
  }

  /** `toks2` is a token sequence of the output of a rewrite of the call
      closed at `c`: it agrees with `toks` before `c`, and at `c` holds the
      tokens of the appended text; what follows is not constrained. */
  predicate Retokenized(toks: seq<Token>, toks2: seq<Token>, c: nat, tail: seq<Token>)
  {
    AgreeBelow(toks, toks2, c) && c + |tail| <= |toks2| &&
    forall k :: c <= k < c + |tail| ==> toks2[k] == tail[k - c]
  }

  /** Everything the reference definitions say about toks[s..e] depends
      only on the tokens before `e`. */
  lemma {:induction false} PrefixFrame(toks: seq<Token>, toks2: seq<Token>, s: nat, e: nat)
    requires s <= e && AgreeBelow(toks, toks2, e)
    ensures Nest(toks, s, e) == Nest(toks2, s, e)
    ensures CountTop(toks, s, e) == CountTop(toks2, s, e)
    ensures SegContent(toks, s, e) == SegContent(toks2, s, e)
    ensures Span(toks, s, e) == Span(toks2, s, e)
    decreases e - s
  {
    if s < e {
      assert toks2[e - 1] == toks[e - 1];
      PrefixFrame(toks, toks2, s, e - 1);
    }
  }

  /** A loop that did not stop before `c` on `toks` does not stop before
      `c` on a sequence that agrees with it there. */
  lemma NoStopFrame(toks: seq<Token>, toks2: seq<Token>, s: nat, c: nat)
    requires s <= c < |toks| && c < |toks2| && AgreeBelow(toks, toks2, c)
    requires NoStop(toks, s, c)
    ensures NoStop(toks2, s, c)
  {
    forall k | s <= k < c
      ensures !StopAt(toks2, s, k)
    {
      PrefixFrame(toks, toks2, s, k);
      assert toks2[k] == toks[k];
      assert !StopAt(toks, s, k);
    }
  }

  /** The name and the whitespace before `(` are unchanged in a sequence
      that agrees up to past the `(`. */
  lemma OpenParenFrame(toks: seq<Token>, toks2: seq<Token>, i: nat, o: nat, e: nat)
    requires i < o < e && AgreeBelow(toks, toks2, e)
    requires o == SkipBlank(toks, i + 1, false)
    ensures o == SkipBlank(toks2, i + 1, false)
    ensures toks2[i] == toks[i] && toks2[o] == toks[o]
  {
    forall k | i + 1 <= k < o
      ensures BlankAt(toks2, k, false)
    {
      assert toks2[k] == toks[k];
      assert BlankAt(toks, k, false);
    }
    assert toks2[o] == toks[o];
    assert toks2[i] == toks[i];
    SkipBlankTo(toks2, i + 1, o, false);
  }

  /** Up to the old closing parenthesis, the new sequence scans as the old. */
  lemma RescanPrefix(toks: seq<Token>, toks2: seq<Token>, o: nat, c: nat)
    requires o < c < |toks| && c < |toks2| && AgreeBelow(toks, toks2, c)
    requires Arguments(toks, o).close == c && ClosedAt(toks, o + 1, c)
    ensures Nest(toks2, o + 1, c) == 0
    ensures CountTop(toks2, o + 1, c) == CountTop(toks, o + 1, c)
    ensures NoStop(toks2, o + 1, c)
  {
    ArgumentsMeaning(toks, o);
    PrefixFrame(toks, toks2, o + 1, c);
    NoStopFrame(toks, toks2, o + 1, c);
  }

  /** One token that is neither a bracket nor a step out of the call:
      the scan goes on, counting a separator if it is a comma. */
  lemma FlatStep(toks: seq<Token>, s: nat, k: nat)
    requires s <= k < |toks| && Nest(toks, s, k) == 0 && NoStop(toks, s, k)
    requires ParenDelta(toks[k]) == 0
    ensures Nest(toks, s, k + 1) == 0 && NoStop(toks, s, k + 1)
    ensures CountTop(toks, s, k + 1) == CountTop(toks, s, k) + (if toks[k] == Char(",") then 1 else 0)
    ensures SegContent(toks, s, k + 1) ==
            (toks[k] != Char(",") && (SegContent(toks, s, k) || !IsWhitespace(toks[k])))
  {
    assert !StopAt(toks, s, k);
  }

  /** A `)` at the call's own nesting closes it: the scan stops there. */
  lemma ClosesAt(toks: seq<Token>, o: nat, k: nat)
    requires o < k < |toks| && Nest(toks, o + 1, k) == 0 && NoStop(toks, o + 1, k)
    requires toks[k] == Char(")")
    ensures Arguments(toks, o).close == k
    ensures Arguments(toks, o).count ==
            CountTop(toks, o + 1, k) + (if SegContent(toks, o + 1, k) then 1 else 0)
    ensures Arguments(toks, o).hasContent == SegContent(toks, o + 1, k)
  {
    assert ClosedAt(toks, o + 1, k);
    ArgumentsMeaning(toks, o);
    FirstStopUnique(toks, o + 1, Arguments(toks, o).close, k);
  }

  /** After `, true)` the call closes at the new `)` with one separator and
      one non-empty argument more than before the old `)`. */
  lemma RescanStrictTail(toks: seq<Token>, toks2: seq<Token>, o: nat, c: nat)
    requires o < c < |toks|
    requires Arguments(toks, o).close == c && ClosedAt(toks, o + 1, c)
    requires Retokenized(toks, toks2, c, StrictTail())
    ensures Arguments(toks2, o).close == c + 3
    ensures Arguments(toks2, o).count == CountTop(toks, o + 1, c) + 2
    ensures CountTop(toks2, o + 1, c + 3) == CountTop(toks, o + 1, c) + 1
    ensures Arguments(toks2, o).hasContent
  {
    RescanPrefix(toks, toks2, o, c);
    assert toks2[c] == Char(",") && toks2[c + 1] == Named(Whitespace, " ");
    assert toks2[c + 2] == Named(Identifier, "true") && toks2[c + 3] == Char(")");
    FlatStep(toks2, o + 1, c);
    FlatStep(toks2, o + 1, c + 1);
    FlatStep(toks2, o + 1, c + 2);
    ClosesAt(toks2, o, c + 3);
  }

  /** After ` true)` the call closes at the new `)`, and its last argument
      is no longer empty. */
  lemma RescanBareTail(toks: seq<Token>, toks2: seq<Token>, o: nat, c: nat)
    requires o < c < |toks|
    requires Arguments(toks, o).close == c && ClosedAt(toks, o + 1, c)
    requires Retokenized(toks, toks2, c, BareTail())
    ensures Arguments(toks2, o).close == c + 2
    ensures Arguments(toks2, o).count == CountTop(toks, o + 1, c) + 1
    ensures Arguments(toks2, o).hasContent
  {
    RescanPrefix(toks, toks2, o, c);
    assert toks2[c] == Named(Whitespace, " ") && toks2[c + 1] == Named(Identifier, "true");
    assert toks2[c + 2] == Char(")");
    FlatStep(toks2, o + 1, c);
    FlatStep(toks2, o + 1, c + 1);
    ClosesAt(toks2, o, c + 2);
  }

  /** The layout of a closed two-argument call: the name at `i`, its `(`
      at `o`, the closing `)` at `c`. */
  predicate ClosedCall(toks: seq<Token>, i: nat, o: nat, c: nat) {
    i < o < c < |toks| && IsInArrayName(toks[i]) &&
    o == SkipBlank(toks, i + 1, false) && toks[o] == Char("(") &&
    Arguments(toks, o).close == c && ClosedAt(toks, o + 1, c) && ArgCount(toks, o + 1, c) == 2
  }

  /** The facts about a closed-call match that the second-pass lemmas use. */
  lemma ClosedMatch(toks: seq<Token>, i: nat)
    requires i < |toks| && IsInArrayName(toks[i])
    requires Strict(toks, i).Some?
    requires ClosedAt(toks, SkipBlank(toks, i + 1, false) + 1, Strict(toks, i).value.end)
    ensures ClosedCall(toks, i, SkipBlank(toks, i + 1, false), Strict(toks, i).value.end)
    ensures Strict(toks, i).value.replacement == Span(toks, i, Strict(toks, i).value.end) + ", true)"
    ensures Arguments(toks, SkipBlank(toks, i + 1, false)).hasContent ==
            SegContent(toks, SkipBlank(toks, i + 1, false) + 1, Strict(toks, i).value.end)
  {
    StrictShape(toks, i);
    ClosedArguments(toks, SkipBlank(toks, i + 1, false), Strict(toks, i).value.end);
  }

  /** A match of the rule, unfolded. */
  lemma StrictShape(toks: seq<Token>, i: nat)
    requires i < |toks| && IsInArrayName(toks[i])
    requires Strict(toks, i).Some?
    ensures var o := SkipBlank(toks, i + 1, false);
      i < o < |toks| && toks[o] == Char("(") && Arguments(toks, o).count == 2 &&
      Strict(toks, i).value.end == Arguments(toks, o).close &&
      Strict(toks, i).value.replacement == Span(toks, i, Strict(toks, i).value.end) + ", true)"
  {
  }

  /** A closed call whose scan counts two arguments has two by the
      reference count, and the scan's content flag is the reference one. */
  lemma ClosedArguments(toks: seq<Token>, o: nat, c: nat)
    requires o < |toks| && Arguments(toks, o).close == c && Arguments(toks, o).count == 2
    requires ClosedAt(toks, o + 1, c)
    ensures ArgCount(toks, o + 1, c) == 2
    ensures Arguments(toks, o).hasContent == SegContent(toks, o + 1, c)
  {
    ArgumentsMeaning(toks, o);
  }

  /** The text of `toks2` from the name through the new `)`: the kept
      tokens and then the appended text. */
  lemma TailText(toks: seq<Token>, toks2: seq<Token>, i: nat, c: nat, tail: seq<Token>)
    requires i <= c && Retokenized(toks, toks2, c, tail)
    ensures Span(toks2, i, c + |tail|) == Span(toks, i, c) + Text(tail)
    decreases |tail|
  {
    if tail == [] {
      PrefixFrame(toks, toks2, i, c);
    } else {
      var n := |tail| - 1;
      assert Retokenized(toks, toks2, c, tail[..n]);
      TailText(toks, toks2, i, c, tail[..n]);
      assert toks2[c + n] == tail[n];
      assert Span(tail, 0, n) == Span(tail[..n], 0, n) by {
        PrefixFrame(tail, tail[..n], 0, n);
      }
    }
  }

  /**
   * A rewritten call has three top-level arguments, so a second pass over
   * the tokens of the output declines it, whatever follows the call. The
   * new tokens spell exactly the replacement.
   */
  lemma SecondPassDeclines(toks: seq<Token>, toks2: seq<Token>, i: nat)
    requires i < |toks| && IsInArrayName(toks[i])
    requires Strict(toks, i).Some?
    requires ClosedAt(toks, SkipBlank(toks, i + 1, false) + 1, Strict(toks, i).value.end)
    requires Retokenized(toks, toks2, Strict(toks, i).value.end, StrictTail())
    ensures var m := Strict(toks, i).value;
      Span(toks2, i, m.end + 4) == m.replacement && Strict(toks2, i).None?
  {
    ClosedMatch(toks, i);
    SecondPassAt(toks, toks2, i, SkipBlank(toks, i + 1, false), Strict(toks, i).value.end);
  }

  /** SecondPassDeclines with the call's layout given explicitly. */
  lemma SecondPassAt(toks: seq<Token>, toks2: seq<Token>, i: nat, o: nat, c: nat)
    requires ClosedCall(toks, i, o, c) && Retokenized(toks, toks2, c, StrictTail())
    ensures Span(toks2, i, c + 4) == Span(toks, i, c) + ", true)"
    ensures IsInArrayName(toks2[i]) && Strict(toks2, i).None?
  {
    TailText(toks, toks2, i, c, StrictTail());
    StrictTailText();
    StrictTailDeclines(toks, toks2, i, o, c);
  }

  lemma StrictTailDeclines(toks: seq<Token>, toks2: seq<Token>, i: nat, o: nat, c: nat)
    requires ClosedCall(toks, i, o, c) && Retokenized(toks, toks2, c, StrictTail())
    ensures IsInArrayName(toks2[i]) && Strict(toks2, i).None?
  {
    RescanStrictTail(toks, toks2, o, c);
    OpenParenFrame(toks, toks2, i, o, c);
    Declines(toks2, i, o);
  }

  lemma StrictTailText()
    ensures Text(StrictTail()) == ", true)"
  {
    var t := StrictTail();
    assert Span(t, 0, 1) == ",";
    assert Span(t, 0, 2) == ", ";
    assert Span(t, 0, 3) == ", " + "true";
    assert Span(t, 0, 4) == ", true" + ")";
  }

  lemma BareTailText()
    ensures Text(BareTail()) == " true)"
  {
    var t := BareTail();
    assert Span(t, 0, 1) == " ";
    assert Span(t, 0, 2) == " " + "true";
    assert Span(t, 0, 3) == " true" + ")";
  }

  // ---------------------------------------------------------------------
  // The trailing comma

  /**
   * The rule as evidently intended: the same match, but after a trailing
   * comma (the last segment of a closed call is empty) only ` true)` is
   * appended, so no empty argument is created.
   */
  function StrictFixed(toks: seq<Token>, i: nat): (r: Option<Match>)
    requires i < |toks| && IsInArrayName(toks[i])
    ensures r.Some? <==> Strict(toks, i).Some?
    ensures r.Some? ==> r.value.end == Strict(toks, i).value.end
  {
    var o := SkipBlank(toks, i + 1, false);
    if o >= |toks| || toks[o] != Char("(") then None
    else
      var a := Arguments(toks, o);
      if a.count != 2 then None
      else Some(Match(Span(toks, i, a.close) + Text(FixedTail(toks, o)), a.close))
  }

  /** The tokens the corrected rule appends for the call opened at `o`. */
  function FixedTail(toks: seq<Token>, o: nat): seq<Token>
    requires o < |toks|
  {
    if Arguments(toks, o).hasContent then StrictTail() else BareTail()
  }

  /**
   * As written: when the call ends with a trailing comma, the text appended
   * after it makes a fourth argument, `in_array($a, $b,, true)`. The rewritten
   * call has three top-level commas and one of its argument slots is empty.
   */
  lemma TrailingCommaRescan(toks: seq<Token>, toks2: seq<Token>, i: nat)
    requires i < |toks| && IsInArrayName(toks[i])
    requires Strict(toks, i).Some?
    requires ClosedAt(toks, SkipBlank(toks, i + 1, false) + 1, Strict(toks, i).value.end)
    requires !SegContent(toks, SkipBlank(toks, i + 1, false) + 1, Strict(toks, i).value.end)
    requires Retokenized(toks, toks2, Strict(toks, i).value.end, StrictTail())
    ensures var o := SkipBlank(toks, i + 1, false);
      var a2 := Arguments(toks2, o);
      a2.count == 4 && CountTop(toks2, o + 1, a2.close) == 3
  {
    ClosedMatch(toks, i);
    TrailingCommaAt(toks, toks2, i, SkipBlank(toks, i + 1, false), Strict(toks, i).value.end);
  }

  lemma TrailingCommaAt(toks: seq<Token>, toks2: seq<Token>, i: nat, o: nat, c: nat)
    requires ClosedCall(toks, i, o, c) && !SegContent(toks, o + 1, c)
    requires Retokenized(toks, toks2, c, StrictTail())
    ensures Arguments(toks2, o).count == 4 && CountTop(toks2, o + 1, Arguments(toks2, o).close) == 3
  {
    RescanStrictTail(toks, toks2, o, c);
  }

  /** The rewrite of a call without a trailing comma rescans to three
      arguments. */
  lemma PlainCallRescan(toks: seq<Token>, toks2: seq<Token>, i: nat)
    requires i < |toks| && IsInArrayName(toks[i])
    requires Strict(toks, i).Some?
    requires ClosedAt(toks, SkipBlank(toks, i + 1, false) + 1, Strict(toks, i).value.end)
    requires SegContent(toks, SkipBlank(toks, i + 1, false) + 1, Strict(toks, i).value.end)
    requires Retokenized(toks, toks2, Strict(toks, i).value.end, StrictTail())
    ensures Arguments(toks2, SkipBlank(toks, i + 1, false)).count == 3
  {
    ClosedMatch(toks, i);
    PlainCallAt(toks, toks2, i, SkipBlank(toks, i + 1, false), Strict(toks, i).value.end);
  }

  lemma PlainCallAt(toks: seq<Token>, toks2: seq<Token>, i: nat, o: nat, c: nat)
    requires ClosedCall(toks, i, o, c) && SegContent(toks, o + 1, c)
    requires Retokenized(toks, toks2, c, StrictTail())
    ensures Arguments(toks2, o).count == 3
  {
    RescanStrictTail(toks, toks2, o, c);
  }

  /** The corrected tail after a closed two-argument call rescans to three
      arguments, the last one non-empty, closed at its new `)`. */
  lemma FixedTailRescan(toks: seq<Token>, toks2: seq<Token>, o: nat, c: nat)
    requires o < c < |toks|
    requires Arguments(toks, o).close == c && ClosedAt(toks, o + 1, c)
    requires ArgCount(toks, o + 1, c) == 2
    requires Retokenized(toks, toks2, c, FixedTail(toks, o))
    ensures var a2 := Arguments(toks2, o);
      a2.close == c + |FixedTail(toks, o)| - 1 && a2.count == 3 && a2.hasContent
  {
    ArgumentsMeaning(toks, o);
    if Arguments(toks, o).hasContent {
      RescanStrictTail(toks, toks2, o, c);
    } else {
      RescanBareTail(toks, toks2, o, c);
    }
  }

  /**
   * The corrected rule: every rewritten closed call rescans to exactly three
   * arguments, the last one non-empty, and the new tokens spell the
   * replacement; a second pass therefore declines it.
   */
  lemma StrictFixedRescan(toks: seq<Token>, toks2: seq<Token>, i: nat)
    requires i < |toks| && IsInArrayName(toks[i])
    requires StrictFixed(toks, i).Some?
    requires ClosedAt(toks, SkipBlank(toks, i + 1, false) + 1, StrictFixed(toks, i).value.end)
    requires Retokenized(toks, toks2, StrictFixed(toks, i).value.end,
                         FixedTail(toks, SkipBlank(toks, i + 1, false)))
    ensures var o := SkipBlank(toks, i + 1, false);
      var m := StrictFixed(toks, i).value;
      var a2 := Arguments(toks2, o);
      Span(toks2, i, m.end + |FixedTail(toks, o)|) == m.replacement &&
      a2.close == m.end + |FixedTail(toks, o)| - 1 && a2.count == 3 && a2.hasContent &&
      Strict(toks2, i).None?
  {
    ClosedMatch(toks, i);
    FixedMatch(toks, i);
    FixedAt(toks, toks2, i, SkipBlank(toks, i + 1, false), Strict(toks, i).value.end);
  }

  /** The replacement of the corrected rule: the kept tokens and the text
      of the corrected tail. */
  lemma FixedMatch(toks: seq<Token>, i: nat)
    requires i < |toks| && IsInArrayName(toks[i])
    requires StrictFixed(toks, i).Some?
    ensures StrictFixed(toks, i).value.replacement ==
            Span(toks, i, StrictFixed(toks, i).value.end) + Text(FixedTail(toks, SkipBlank(toks, i + 1, false)))
  {
  }

  /** StrictFixedRescan with the call's layout given explicitly. */
  lemma FixedAt(toks: seq<Token>, toks2: seq<Token>, i: nat, o: nat, c: nat)
    requires ClosedCall(toks, i, o, c) && Retokenized(toks, toks2, c, FixedTail(toks, o))
    ensures Span(toks2, i, c + |FixedTail(toks, o)|) == Span(toks, i, c) + Text(FixedTail(toks, o))
    ensures var a2 := Arguments(toks2, o);
      a2.close == c + |FixedTail(toks, o)| - 1 && a2.count == 3 && a2.hasContent
    ensures IsInArrayName(toks2[i]) && Strict(toks2, i).None?
  {
    TailText(toks, toks2, i, c, FixedTail(toks, o));
    FixedAtDeclines(toks, toks2, i, o, c);
  }

  lemma FixedAtDeclines(toks: seq<Token>, toks2: seq<Token>, i: nat, o: nat, c: nat)
    requires ClosedCall(toks, i, o, c) && Retokenized(toks, toks2, c, FixedTail(toks, o))
    ensures var a2 := Arguments(toks2, o);
      a2.close == c + |FixedTail(toks, o)| - 1 && a2.count == 3 && a2.hasContent
    ensures IsInArrayName(toks2[i]) && Strict(toks2, i).None?
  {
    FixedTailRescan(toks, toks2, o, c);
    OpenParenFrame(toks, toks2, i, o, c);
    Declines(toks2, i, o);
  }

  /** A call whose scan does not count two arguments is not rewritten. */
  lemma Declines(toks: seq<Token>, i: nat, o: nat)
    requires i < o < |toks| && IsInArrayName(toks[i]) && o == SkipBlank(toks, i + 1, false)
    requires Arguments(toks, o).count != 2
    ensures Strict(toks, i).None?
  {
  }

  /** Where the call has no trailing comma the corrected rule agrees with
      the source. */
  lemma StrictFixedAgrees(toks: seq<Token>, i: nat)
    requires i < |toks| && IsInArrayName(toks[i])
    requires Strict(toks, i).Some?
    requires Arguments(toks, SkipBlank(toks, i + 1, false)).hasContent
    ensures StrictFixed(toks, i) == Strict(toks, i)
  {
    StrictTailText();
  }

  /** `in_array($a, $b,)`. */
  function TrailingCommaCall(): seq<Token> {
    [Named(Identifier, "in_array"), Char("("), Named(Variable, "$a"), Char(","),
     Named(Whitespace, " "), Named(Variable, "$b"), Char(","), Char(")")]
  }

  lemma TrailingCommaArguments()
    ensures Arguments(TrailingCommaCall(), 1) == Args(7, 2, false)
  {
    var t := TrailingCommaCall();
    assert ArgScan(t, 7, 1, 2, false) == Args(7, 2, false);
    assert ArgScan(t, 6, 1, 1, true) == ArgScan(t, 7, 1, 2, false);
    assert ArgScan(t, 5, 1, 1, false) == ArgScan(t, 6, 1, 1, true);
    assert ArgScan(t, 4, 1, 1, false) == ArgScan(t, 5, 1, 1, false);
    assert ArgScan(t, 3, 1, 0, true) == ArgScan(t, 4, 1, 1, false);
    assert ArgScan(t, 2, 1, 0, false) == ArgScan(t, 3, 1, 0, true);
  }

  lemma TrailingCommaText()
    ensures Span(TrailingCommaCall(), 0, 7) == "in_array($a, $b,"
  {
    var t := TrailingCommaCall();
    assert Span(t, 0, 1) == "in_array";
    assert Span(t, 0, 2) == "in_array" + "(";
    assert Span(t, 0, 3) == "in_array(" + "$a";
    assert Span(t, 0, 4) == "in_array($a" + ",";
    assert Span(t, 0, 5) == "in_array($a," + " ";
    assert Span(t, 0, 6) == "in_array($a, " + "$b";
    assert Span(t, 0, 7) == "in_array($a, $b" + ",";
  }

  /** The lower-case name is its own lower-case form. */
  lemma InArrayLower()
    ensures Lower("in_array") == "in_array"
  {
    assert Lower("y") == "y";
    assert Lower("ay") == "ay";
    assert Lower("ray") == "ray";
    assert Lower("rray") == "rray";
    assert Lower("_array") == "_array";
    assert Lower("n_array") == "n_array";
  }

  lemma TrailingCommaAsWritten()
    ensures IsInArrayName(TrailingCommaCall()[0])
    ensures Strict(TrailingCommaCall(), 0) == Some(Match("in_array($a, $b,, true)", 7))
  {
    TrailingCommaPrefix();
    StrictShape(TrailingCommaCall(), 0);
    DoubledText();
  }

  lemma TrailingCommaCorrected()
    ensures IsInArrayName(TrailingCommaCall()[0])
    ensures StrictFixed(TrailingCommaCall(), 0) == Some(Match("in_array($a, $b, true)", 7))
  {
    TrailingCommaAsWritten();
    TrailingCommaPrefix();
    FixedMatch(TrailingCommaCall(), 0);
    assert FixedTail(TrailingCommaCall(), 1) == BareTail();
    BareTailText();
    SingleText();
  }

  lemma DoubledText()
    ensures "in_array($a, $b," + ", true)" == "in_array($a, $b,, true)"
  {
  }

  lemma SingleText()
    ensures "in_array($a, $b," + " true)" == "in_array($a, $b, true)"
  {
  }

  /** The facts both rewrites of the example share. */
  lemma TrailingCommaPrefix()
    ensures IsInArrayName(TrailingCommaCall()[0])
    ensures SkipBlank(TrailingCommaCall(), 1, false) == 1
    ensures Arguments(TrailingCommaCall(), 1) == Args(7, 2, false)
    ensures Span(TrailingCommaCall(), 0, 7) == "in_array($a, $b,"
  {
    InArrayLower();
    assert SkipBlank(TrailingCommaCall(), 1, false) == 1;
    TrailingCommaArguments();
    TrailingCommaText();
  }

  // ---------------------------------------------------------------------
  // No standalone check

  lemma {:induction false} ArgScanSuffix(toks: seq<Token>, toks2: seq<Token>, i: nat, j: nat,
                                          depth: nat, argc: nat, has: bool)
    requires i <= j <= |toks| && SameFrom(toks, toks2, i)
    ensures ArgScan(toks, j, depth, argc, has) == ArgScan(toks2, j, depth, argc, has)
    decreases |toks| - j
  {
    if j < |toks| && depth != 0 {
      assert toks[j] == toks2[j];
      var t := toks[j];
      if t == Char("(") { ArgScanSuffix(toks, toks2, i, j + 1, depth + 1, argc, true); }
      else if t == Char(")") { if depth != 1 { ArgScanSuffix(toks, toks2, i, j + 1, depth - 1, argc, has); } }
      else if t == Char(",") && depth == 1 { ArgScanSuffix(toks, toks2, i, j + 1, depth, argc + 1, false); }
      else if t == Char("[") { ArgScanSuffix(toks, toks2, i, j + 1, depth + 1, argc, true); }
      else if t == Char("]") { ArgScanSuffix(toks, toks2, i, j + 1, depth - 1, argc, true); }
      else { ArgScanSuffix(toks, toks2, i, j + 1, depth, argc, has || !IsWhitespace(t)); }
    }
  }

  /**
   * The rule reads nothing before the name: a qualified call such as
   * `$o->in_array($a, $b)` or `Foo::in_array($a, $b)` is rewritten exactly
   * as a plain call.
   */
  lemma IgnoresWhatPrecedes(toks: seq<Token>, toks2: seq<Token>, i: nat)
    requires i < |toks| && IsInArrayName(toks[i])
    requires SameFrom(toks, toks2, i)
    ensures Strict(toks2, i) == Strict(toks, i)
  {
    SkipBlankSuffix(toks, toks2, i, i + 1, false);
    var o := SkipBlank(toks, i + 1, false);
    if o < |toks| {
      ArgScanSuffix(toks, toks2, i, o + 1, 1, 0, false);
      SpanSuffix(toks, toks2, i, Arguments(toks, o).close);
    }
  }
}
