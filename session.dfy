/**
 * The main loop every fixer but the echo fixer shares: at each index the
 * fixer's candidate test and rule are tried; on a match the replacement is
 * emitted, the fix counter goes up and the scan resumes after the matched
 * span; otherwise the token's text is emitted and the scan moves on by one.
 */
module Session {
  import opened Tokens
  import opened Cursor
  import YodaFixer
  import ShortTernaryFixer
  import InArrayStrictFixer
  import SafeRedirectFixer
  import EscapeI18nFixer
  import WpDieTranslateFixer

  /** One fixer, read as written or corrected. */
  datatype Rule =
    | Yoda(v: Variant)
    | ShortTernary(v: Variant)
    | InArrayStrict(v: Variant)
    | SafeRedirect(v: Variant)
    | EscapeI18n(v: Variant)
    | WpDieTranslate

  /** The token a fixer's match can start at: a variable for the Yoda and
      short-ternary fixers, a name that lower-cases to `in_array`, and the
      exact names `wp_redirect`, `_e` and `wp_die`. */
  predicate IsCandidate(rule: Rule, t: Token) {
    match rule
    case Yoda(_) => IsVariable(t)
    case ShortTernary(_) => IsVariable(t)
    case InArrayStrict(_) => InArrayStrictFixer.IsInArrayName(t)
    case SafeRedirect(_) => IsName(t, "wp_redirect")
    case EscapeI18n(_) => IsName(t, "_e")
    case WpDieTranslate => IsName(t, "wp_die")
  }

  /** The candidate test of the main loop, then the rule. A match consumes
      at least the token at `i`, never goes past the end, and starts only at
      the fixer's candidate token. */
  function TryMatch(rule: Rule, toks: seq<Token>, i: nat): (r: Option<Match>)
    requires i < |toks|
    ensures r.Some? ==> i <= r.value.end <= |toks|
  {
    match rule
    case Yoda(v) =>
      if IsVariable(toks[i]) then YodaFixer.SwapWith(toks, i, v == Corrected) else None
    case ShortTernary(v) =>
      if IsVariable(toks[i]) then ShortTernaryFixer.ExpandWith(toks, i, v == Corrected) else None
    case InArrayStrict(v) =>
      if InArrayStrictFixer.IsInArrayName(toks[i]) then InArrayStrictFixer.StrictWith(toks, i, v) else None
    case SafeRedirect(v) => SafeRedirectFixer.SafeRedirect(toks, i, v)
    case EscapeI18n(v) => EscapeI18nFixer.EscapeI18n(toks, i, v)
    case WpDieTranslate =>
      if IsName(toks[i], "wp_die") then WpDieTranslateFixer.WpDie(toks, i) else None
  }

  /** A match starts only at the fixer's candidate token. */
  lemma MatchesAtCandidate(rule: Rule, toks: seq<Token>, i: nat)
    requires i < |toks|
    ensures TryMatch(rule, toks, i).Some? ==> IsCandidate(rule, toks[i])
  {
  }

  /** The same dispatch through each fixer's own loops. */
  method Dispatch(rule: Rule, toks: seq<Token>, i: nat) returns (r: Option<Match>)
    requires i < |toks|
    ensures r == TryMatch(rule, toks, i)
  {
    r := None;
    match rule {
      case Yoda(v) =>
        if IsVariable(toks[i]) {
          r := YodaFixer.TryFixYoda(toks, i, v == Corrected);
        }
      case ShortTernary(v) =>
        if IsVariable(toks[i]) {
          r := ShortTernaryFixer.TryFixShortTernary(toks, i, v == Corrected);
        }
      case InArrayStrict(v) =>
        if InArrayStrictFixer.IsInArrayName(toks[i]) {
          r := InArrayStrictFixer.TryFixInArray(toks, i, v);
        }
      case SafeRedirect(v) =>
        r := TryRename(toks, i, "wp_redirect", "wp_safe_redirect", v);
      case EscapeI18n(v) =>
        r := TryRename(toks, i, "_e", "esc_html_e", v);
      case WpDieTranslate =>
        if IsName(toks[i], "wp_die") {
          r := WpDieTranslateFixer.TryFixWpDie(toks, i);
        }
    }
  }

  /** Every verdict in `table` consumes at least its own token and stops
      at most one past the end. */
  predicate Consumes(table: seq<Option<Match>>)
  {
    forall k :: 0 <= k < |table| && table[k].Some? ==> k <= table[k].value.end <= |table|
  }

  /** The rule's verdict at index `i`; none past the end. */
  function Verdict(rule: Rule, toks: seq<Token>, i: nat): (r: Option<Match>)
    ensures r.Some? ==> i <= r.value.end <= |toks|
  {
    if i < |toks| then TryMatch(rule, toks, i) else None
  }

  /** The rule's verdicts as a function of the index. */
  function VerdictOf(rule: Rule, toks: seq<Token>): nat -> Option<Match> {
    (i: nat) => Verdict(rule, toks, i)
  }

  /** The entries f(k), ..., f(n - 1). */
  function TableFrom(f: nat -> Option<Match>, n: nat, k: nat): (table: seq<Option<Match>>)
    requires k <= n
    ensures |table| == n - k
    decreases n - k
  {
    if k == n then [] else [f(k)] + TableFrom(f, n, k + 1)
  }

  lemma {:induction false} TableIndex(f: nat -> Option<Match>, n: nat, k: nat, i: nat)
    requires k <= i < n
    ensures TableFrom(f, n, k)[i - k] == f(i)
    decreases i - k
  {
    if k < i {
      TableIndex(f, n, k + 1, i);
    }
  }

  /** The rule's verdict at every index of `toks`. */
  function Verdicts(rule: Rule, toks: seq<Token>): (table: seq<Option<Match>>)
    ensures |table| == |toks| && Consumes(table)
  {
    VerdictsConsume(rule, toks);
    TableFrom(VerdictOf(rule, toks), |toks|, 0)
  }

  /** Each verdict consumes its own token and stays inside the tokens. */
  lemma VerdictsConsume(rule: Rule, toks: seq<Token>)
    ensures Consumes(TableFrom(VerdictOf(rule, toks), |toks|, 0))
  {
    var t := TableFrom(VerdictOf(rule, toks), |toks|, 0);
    forall k | 0 <= k < |t| && t[k].Some?
      ensures k <= t[k].value.end <= |t|
    {
      VerdictIndex(rule, toks, k);
    }
  }

  /** The table's entry at `i` is the rule's verdict there. */
  lemma VerdictIndex(rule: Rule, toks: seq<Token>, i: nat)
    requires i < |toks|
    ensures TableFrom(VerdictOf(rule, toks), |toks|, 0)[i] == Verdict(rule, toks, i)
  {
    TableIndex(VerdictOf(rule, toks), |toks|, 0, i);
    VerdictApply(rule, toks, i);
  }

  /** Applying the verdict function is taking the verdict. */
  lemma VerdictApply(rule: Rule, toks: seq<Token>, i: nat)
    ensures VerdictOf(rule, toks)(i) == Verdict(rule, toks, i)
  {
  }

  /** The main loop from index `i` (which a match may carry one past the
      end), given the verdict at each index. */
  function Drive(toks: seq<Token>, table: seq<Option<Match>>, i: nat): (r: Outcome)
    requires |table| == |toks| && Consumes(table)
    decreases |toks| - i
  {
    if i >= |toks| then Outcome("", 0)
    else
      match table[i]
      case Some(m) =>
        var rest := Drive(toks, table, m.end + 1);
        Outcome(m.replacement + rest.text, rest.fixes + 1)
      case None =>
        var rest := Drive(toks, table, i + 1);
        Outcome(TokenText(toks[i]) + rest.text, rest.fixes)
  }

  /** A whole pass of `rule` over `toks`. */
  function Scan(rule: Rule, toks: seq<Token>): Outcome {
    Drive(toks, Verdicts(rule, toks), 0)
  }

  /** The verdict at `i`, computed by the fixer's own loops. */
  method VerdictAt(rule: Rule, toks: seq<Token>, i: nat, ghost table: seq<Option<Match>>) returns (r: Option<Match>)
    requires i < |toks| && table == Verdicts(rule, toks)
    ensures r == table[i]
  {
    r := Dispatch(rule, toks, i);
    VerdictIndex(rule, toks, i);
  }

  /** One iteration of the main loop, unfolded. */
  lemma DriveStep(toks: seq<Token>, table: seq<Option<Match>>, i: nat, text: string)
    requires |table| == |toks| && Consumes(table) && i < |toks|
    ensures table[i].Some? ==>
      var rest := Drive(toks, table, table[i].value.end + 1);
      text + Drive(toks, table, i).text == (text + table[i].value.replacement) + rest.text &&
      Drive(toks, table, i).fixes == rest.fixes + 1
    ensures table[i].None? ==>
      var rest := Drive(toks, table, i + 1);
      text + Drive(toks, table, i).text == (text + TokenText(toks[i])) + rest.text &&
      Drive(toks, table, i).fixes == rest.fixes
  {
    if table[i].Some? {
      var rest := Drive(toks, table, table[i].value.end + 1);
      assert text + (table[i].value.replacement + rest.text) == (text + table[i].value.replacement) + rest.text;
    } else {
      var rest := Drive(toks, table, i + 1);
      assert text + (TokenText(toks[i]) + rest.text) == (text + TokenText(toks[i])) + rest.text;
    }
  }

  /** The main loop of process_file. */
  method Rewrite(rule: Rule, toks: seq<Token>) returns (text: string, fixes: nat)
    ensures Outcome(text, fixes) == Scan(rule, toks)
  {
    ghost var table := Verdicts(rule, toks);
    text, fixes := "", 0;
    var i := 0;
    while i < |toks|
      invariant Outcome(text + Drive(toks, table, i).text, fixes + Drive(toks, table, i).fixes) == Scan(rule, toks)
      decreases |toks| - i
    {
      var r := VerdictAt(rule, toks, i, table);
      DriveStep(toks, table, i, text);
      if r.Some? {
        text := text + r.value.replacement;
        i := r.value.end + 1;
        fixes := fixes + 1;
        continue;
      }
      text := text + TokenText(toks[i]);
      i := i + 1;
    }
  }

  /** process_file: an unreadable or untokenizable file counts 0 fixes; the
      new text is written only when there was a fix. */
  method ProcessFile(rule: Rule, tokens: Option<seq<Token>>) returns (fixes: nat, written: Option<string>)
    ensures tokens.None? ==> fixes == 0 && written.None?
    ensures tokens.Some? ==> fixes == Scan(rule, tokens.value).fixes
    ensures written.Some? <==> fixes > 0
    ensures written.Some? ==> written.value == Scan(rule, tokens.value).text
  {
    if tokens.None? {
      return 0, None;
    }
    var text;
    text, fixes := Rewrite(rule, tokens.value);
    written := if fixes > 0 then Some(text) else None;
  }

  // ---------------------------------------------------------------------
  // What a pass does, for any verdicts

  /** Every fix consumes at least one token, so a pass from `i` makes at
      most one fix per remaining token. */
  lemma {:induction false} Progress(toks: seq<Token>, table: seq<Option<Match>>, i: nat)
    requires |table| == |toks| && Consumes(table) && i <= |toks|
    ensures Drive(toks, table, i).fixes <= |toks| - i
    decreases |toks| - i
  {
    if i < |toks| {
      if table[i].Some? {
        var e := table[i].value.end;
        if e + 1 <= |toks| {
          Progress(toks, table, e + 1);
        }
      } else {
        Progress(toks, table, i + 1);
      }
    }
  }

  /** No index in [i, e) matches. */
  predicate NoMatch(table: seq<Option<Match>>, i: nat, e: nat)
    requires e <= |table|
  {
    forall k :: i <= k < e ==> table[k].None?
  }

  /**
   * A pass makes no fix exactly when no index matches, and then its output
   * is the input text unchanged.
   */
  lemma {:induction false} PassThrough(toks: seq<Token>, table: seq<Option<Match>>, i: nat)
    requires |table| == |toks| && Consumes(table) && i <= |toks|
    ensures Drive(toks, table, i).fixes == 0 <==> NoMatch(table, i, |toks|)
    ensures Drive(toks, table, i).fixes == 0 ==> Drive(toks, table, i).text == Span(toks, i, |toks|)
    decreases |toks| - i
  {
    if i < |toks| {
      SpanCons(toks, i, |toks|);
      if table[i].None? {
        PassThrough(toks, table, i + 1);
        if NoMatch(table, i + 1, |toks|) {
          assert NoMatch(table, i, |toks|);
        }
      }
    }
  }

  /**
   * Only the matched span changes: up to the first match the tokens are
   * copied verbatim, then comes the replacement, then the pass resumes
   * right after the span.
   */
  lemma {:induction false} FirstMatch(toks: seq<Token>, table: seq<Option<Match>>, i: nat, s: nat)
    requires |table| == |toks| && Consumes(table)
    requires i <= s < |toks| && NoMatch(table, i, s) && table[s].Some?
    ensures var rest := Drive(toks, table, table[s].value.end + 1);
      Drive(toks, table, i) == Outcome(Span(toks, i, s) + table[s].value.replacement + rest.text, rest.fixes + 1)
    decreases s - i
  {
    if i < s {
      FirstMatch(toks, table, i + 1, s);
      SpanCons(toks, i, s);
      var rest := Drive(toks, table, table[s].value.end + 1);
      var m := table[s].value.replacement;
      assert TokenText(toks[i]) + (Span(toks, i + 1, s) + m + rest.text) ==
             (TokenText(toks[i]) + Span(toks, i + 1, s)) + m + rest.text;
    }
  }

  /** A verdict at `k` that stays inside the tokens and makes its span
      `delta` characters longer. */
  predicate Grows(toks: seq<Token>, k: nat, r: Option<Match>, delta: int)
    requires k < |toks|
  {
    r.Some? ==> k <= r.value.end < |toks| && |r.value.replacement| == |Span(toks, k, r.value.end + 1)| + delta
  }

  /** Every match stays inside the tokens and makes its span `delta`
      characters longer. */
  predicate MatchesGrow(toks: seq<Token>, table: seq<Option<Match>>, delta: int)
    requires |table| == |toks|
  {
    forall k :: 0 <= k < |toks| ==> Grows(toks, k, table[k], delta)
  }

  /** Then the output is `delta` characters longer per fix. */
  lemma {:induction false} DriveGrowth(toks: seq<Token>, table: seq<Option<Match>>, i: nat, delta: int)
    requires |table| == |toks| && Consumes(table) && i <= |toks| && MatchesGrow(toks, table, delta)
    ensures |Drive(toks, table, i).text| == |Span(toks, i, |toks|)| + delta * Drive(toks, table, i).fixes
    decreases |toks| - i
  {
    if i < |toks| {
      if table[i].Some? {
        assert Grows(toks, i, table[i], delta);
        DriveGrowth(toks, table, table[i].value.end + 1, delta);
        MatchGrowth(toks, table, i, delta);
      } else {
        DriveGrowth(toks, table, i + 1, delta);
        SpanCons(toks, i, |toks|);
      }
    }
  }

  /** DriveGrowth at a match, from the growth of the rest of the pass. */
  lemma MatchGrowth(toks: seq<Token>, table: seq<Option<Match>>, i: nat, delta: int)
    requires |table| == |toks| && Consumes(table) && i < |toks| && table[i].Some?
    requires table[i].value.end < |toks|
    requires |table[i].value.replacement| == |Span(toks, i, table[i].value.end + 1)| + delta
    requires var rest := Drive(toks, table, table[i].value.end + 1);
      |rest.text| == |Span(toks, table[i].value.end + 1, |toks|)| + delta * rest.fixes
    ensures |Drive(toks, table, i).text| == |Span(toks, i, |toks|)| + delta * Drive(toks, table, i).fixes
  {
    var m := table[i].value;
    SpanSplit(toks, i, m.end + 1, |toks|);
    GrowthStep(Drive(toks, table, i), Drive(toks, table, m.end + 1), m.replacement,
               Span(toks, i, m.end + 1), Span(toks, m.end + 1, |toks|), delta);
  }

  /** The length bookkeeping of one match. */
  lemma GrowthStep(r: Outcome, rest: Outcome, replacement: string, span: string, after: string, delta: int)
    requires r == Outcome(replacement + rest.text, rest.fixes + 1)
    requires |replacement| == |span| + delta
    requires |rest.text| == |after| + delta * rest.fixes
    ensures |r.text| == |span + after| + delta * r.fixes
  {
    assert delta * r.fixes == delta * rest.fixes + delta;
  }

  // ---------------------------------------------------------------------
  // The fixers

  /** A file where the rule matches nowhere is left exactly as it is. */
  lemma NothingMatches(rule: Rule, toks: seq<Token>)
    requires forall k :: 0 <= k < |toks| ==> TryMatch(rule, toks, k).None?
    ensures Scan(rule, toks) == Outcome(Text(toks), 0)
  {
    var t := Verdicts(rule, toks);
    forall k | 0 <= k < |toks|
      ensures t[k].None?
    {
      VerdictIndex(rule, toks, k);
    }
    PassThrough(toks, t, 0);
  }

  /** The one-token renames and the wp_die rewrite each widen one name:
      `wp_redirect` by five characters, `_e` and `__` by eight. */
  lemma RedirectGrows(toks: seq<Token>, v: Variant)
    ensures MatchesGrow(toks, Verdicts(SafeRedirect(v), toks), 5)
  {
    forall k | 0 <= k < |toks|
      ensures Grows(toks, k, Verdicts(SafeRedirect(v), toks)[k], 5)
    {
      VerdictIndex(SafeRedirect(v), toks, k);
      assert Verdicts(SafeRedirect(v), toks)[k] == SafeRedirectFixer.SafeRedirect(toks, k, v);
    }
  }

  lemma I18nGrows(toks: seq<Token>, v: Variant)
    ensures MatchesGrow(toks, Verdicts(EscapeI18n(v), toks), 8)
  {
    forall k | 0 <= k < |toks|
      ensures Grows(toks, k, Verdicts(EscapeI18n(v), toks)[k], 8)
    {
      VerdictIndex(EscapeI18n(v), toks, k);
      assert Verdicts(EscapeI18n(v), toks)[k] == EscapeI18nFixer.EscapeI18n(toks, k, v);
    }
  }

  lemma WpDieGrows(toks: seq<Token>)
    ensures MatchesGrow(toks, Verdicts(WpDieTranslate, toks), 8)
  {
    forall k | 0 <= k < |toks|
      ensures Grows(toks, k, Verdicts(WpDieTranslate, toks)[k], 8)
    {
      VerdictIndex(WpDieTranslate, toks, k);
      if IsName(toks[k], "wp_die") {
        WpDieTranslateFixer.WpDieMeaning(toks, k);
      }
    }
  }

  /** The output of the safe-redirect fixer is five characters longer per
      fix, that of the escape-i18n and wp_die fixers eight. */
  lemma RenameLengths(toks: seq<Token>, v: Variant)
    ensures |Scan(SafeRedirect(v), toks).text| == |Text(toks)| + 5 * Scan(SafeRedirect(v), toks).fixes
    ensures |Scan(EscapeI18n(v), toks).text| == |Text(toks)| + 8 * Scan(EscapeI18n(v), toks).fixes
    ensures |Scan(WpDieTranslate, toks).text| == |Text(toks)| + 8 * Scan(WpDieTranslate, toks).fixes
  {
    RedirectGrows(toks, v);
    I18nGrows(toks, v);
    WpDieGrows(toks);
    DriveGrowth(toks, Verdicts(SafeRedirect(v), toks), 0, 5);
    DriveGrowth(toks, Verdicts(EscapeI18n(v), toks), 0, 8);
    DriveGrowth(toks, Verdicts(WpDieTranslate, toks), 0, 8);
  }
}
