/**
 * The wp_die translate fixer: in `wp_die( __( ... ) )`, where `__` is the
 * first thing inside the parentheses, `__` becomes `esc_html__`. The name
 * `wp_die` is not checked for a preceding qualifier.
 */
module WpDieTranslateFixer {
  import opened Tokens
  import opened Cursor

  /**
   * The lookahead at a `wp_die` token: skipping whitespace each time, `(`,
   * then the name `__`, then `(`. The match keeps `wp_die` and everything
   * up to `__` verbatim, replaces `__`, and ends at `__`.
   */
  function WpDie(toks: seq<Token>, i: nat): (r: Option<Match>)
    requires i < |toks| && IsName(toks[i], "wp_die")
    ensures r.Some? ==> i < r.value.end < |toks| && IsName(toks[r.value.end], "__")
  {
    var j := SkipBlank(toks, i + 1, false);
    if j >= |toks| || toks[j] != Char("(") then None
    else
      var k := SkipBlank(toks, j + 1, false);
      if k >= |toks| || !IsName(toks[k], "__") then None
      else
        var m := SkipBlank(toks, k + 1, false);
        if m >= |toks| || toks[m] != Char("(") then None
        else Some(Match(Span(toks, i, k) + "esc_html__", k))
  }

  /** The lookahead loops, then the loop that copies the kept tokens. */
  method TryFixWpDie(toks: seq<Token>, i: nat) returns (r: Option<Match>)
    requires i < |toks| && IsName(toks[i], "wp_die")
    ensures r == WpDie(toks, i)
  {
    r := None;
    var j := SkipBlankForward(toks, i + 1, false);
    if j < |toks| && toks[j] == Char("(") {
      var k := SkipBlankForward(toks, j + 1, false);
      if k < |toks| && IsName(toks[k], "__") {
        var m := SkipBlankForward(toks, k + 1, false);
        if m < |toks| && toks[m] == Char("(") {
          var out := CopyThrough(toks, i, k);
          r := Some(Match(out + "esc_html__", k));
        }
      }
    }
  }

  /** The copy loop: `wp_die`, then every token before `__`. */
  method CopyThrough(toks: seq<Token>, i: nat, k: nat) returns (out: string)
    requires i < k <= |toks|
    ensures out == Span(toks, i, k)
  {
    out := TokenText(toks[i]);
    var n := i + 1;
    assert out == Span(toks, i, n) by { SpanSnoc(toks, i, i); }
    while n < k
      invariant i < n <= k
      invariant out == Span(toks, i, n)
    {
      out := out + TokenText(toks[n]);
      n := n + 1;
    }
  }

  /** `wp_die`, whitespace, `(`, whitespace, `__` at `k`, whitespace, `(`. */
  predicate WpDieLayout(toks: seq<Token>, i: nat, j: nat, k: nat)
  {
    i < j < k < |toks| &&
    AllBlank(toks, i + 1, j, false) && toks[j] == Char("(") &&
    AllBlank(toks, j + 1, k, false) && IsName(toks[k], "__") &&
    IsFollowedByParen(toks, k)
  }

  /**
   * The rule matches exactly the calls whose first non-whitespace token
   * inside the parentheses is a call of `__`; the replacement is the text
   * through `__` with `__` widened to `esc_html__`.
   */
  lemma WpDieMeaning(toks: seq<Token>, i: nat)
    requires i < |toks| && IsName(toks[i], "wp_die")
    ensures var r := WpDie(toks, i);
      (r.Some? ==> exists j :: WpDieLayout(toks, i, j, r.value.end)) &&
      (r.Some? ==> r.value.replacement == Span(toks, i, r.value.end) + "esc_html__") &&
      (r.Some? ==> |r.value.replacement| == |Span(toks, i, r.value.end + 1)| + 8)
  {
    var r := WpDie(toks, i);
    if r.Some? {
      var j := SkipBlank(toks, i + 1, false);
      assert WpDieLayout(toks, i, j, r.value.end);
      SpanSnoc(toks, i, r.value.end);
    }
  }

  /** And every such layout is matched, with `__` at the `k` it names. */
  lemma LayoutMatches(toks: seq<Token>, i: nat, j: nat, k: nat)
    requires i < |toks| && IsName(toks[i], "wp_die")
    requires WpDieLayout(toks, i, j, k)
    ensures WpDie(toks, i) == Some(Match(Span(toks, i, k) + "esc_html__", k))
  {
    SkipBlankTo(toks, i + 1, j, false);
    SkipBlankTo(toks, j + 1, k, false);
  }

  /** The rule reads nothing before `wp_die`: `$o->wp_die( __(` is
      rewritten like a plain call. */
  lemma IgnoresWhatPrecedes(toks: seq<Token>, toks2: seq<Token>, i: nat)
    requires i < |toks| && IsName(toks[i], "wp_die")
    requires SameFrom(toks, toks2, i)
    ensures WpDie(toks2, i) == WpDie(toks, i)
  {
    SameFromFlip(toks, toks2, i);
    MatchCarries(toks, toks2, i);
    MatchCarries(toks2, toks, i);
  }

  lemma SameFromFlip(toks: seq<Token>, toks2: seq<Token>, i: nat)
    requires SameFrom(toks, toks2, i)
    ensures SameFrom(toks2, toks, i)
  {
  }

  /** A match on `toks` is the same match on `toks2`. */
  lemma MatchCarries(toks: seq<Token>, toks2: seq<Token>, i: nat)
    requires i < |toks| && IsName(toks[i], "wp_die")
    requires SameFrom(toks, toks2, i)
    ensures IsName(toks2[i], "wp_die")
    ensures WpDie(toks, i).Some? ==> WpDie(toks2, i) == WpDie(toks, i)
  {
    assert toks2[i] == toks[i];
    if WpDie(toks, i).Some? {
      WpDieMeaning(toks, i);
      var k := WpDie(toks, i).value.end;
      var j :| WpDieLayout(toks, i, j, k);
      LayoutCarries(toks, toks2, i, j, k);
      LayoutMatches(toks, i, j, k);
      LayoutMatches(toks2, i, j, k);
      SpanSuffix(toks, toks2, i, k);
    }
  }

  /** The layout reads only tokens from `i` on. */
  lemma LayoutCarries(toks: seq<Token>, toks2: seq<Token>, i: nat, j: nat, k: nat)
    requires SameFrom(toks, toks2, i) && WpDieLayout(toks, i, j, k)
    ensures WpDieLayout(toks2, i, j, k)
  {
    forall n | i + 1 <= n < j
      ensures BlankAt(toks2, n, false)
    {
      assert toks2[n] == toks[n] && BlankAt(toks, n, false);
    }
    forall n | j + 1 <= n < k
      ensures BlankAt(toks2, n, false)
    {
      assert toks2[n] == toks[n] && BlankAt(toks, n, false);
    }
    assert toks2[j] == toks[j] && toks2[k] == toks[k];
    SkipBlankSuffix(toks, toks2, i, k + 1, false);
    assert toks2[SkipBlank(toks, k + 1, false)] == toks[SkipBlank(toks, k + 1, false)];
  }

  /** `wp_die($m, __('x'))` */
  function SecondArgumentCall(): seq<Token> {
    [Named(Identifier, "wp_die"), Char("("), Named(Variable, "$m"), Char(","),
     Named(Whitespace, " "), Named(Identifier, "__"), Char("("),
     Named(ConstantEncapsedString, "'x'"), Char(")"), Char(")")]
  }

  /** Only a translation call in first position is rewritten. */
  lemma SecondArgumentKept()
    ensures WpDie(SecondArgumentCall(), 0).None?
  {
    assert SkipBlank(SecondArgumentCall(), 1, false) == 1;
    assert SkipBlank(SecondArgumentCall(), 2, false) == 2;
  }

  /** `wp_die( __('x') )` */
  function FirstArgumentCall(): seq<Token> {
    [Named(Identifier, "wp_die"), Char("("), Named(Whitespace, " "), Named(Identifier, "__"), Char("("),
     Named(ConstantEncapsedString, "'x'"), Char(")"), Named(Whitespace, " "), Char(")")]
  }

  lemma FirstArgumentRewritten()
    ensures WpDie(FirstArgumentCall(), 0) == Some(Match("wp_die( esc_html__", 3))
  {
    FirstArgumentLayout();
    LayoutMatches(FirstArgumentCall(), 0, 1, 3);
    FirstArgumentText();
  }

  lemma FirstArgumentLayout()
    ensures WpDieLayout(FirstArgumentCall(), 0, 1, 3)
  {
    var t := FirstArgumentCall();
    assert SkipBlank(t, 4, false) == 4;
    assert BlankAt(t, 2, false);
  }

  lemma FirstArgumentText()
    ensures Span(FirstArgumentCall(), 0, 3) + "esc_html__" == "wp_die( esc_html__"
  {
    var t := FirstArgumentCall();
    assert Span(t, 0, 1) == "wp_die";
    assert Span(t, 0, 2) == "wp_die" + "(";
    assert Span(t, 0, 3) == "wp_die(" + " ";
    assert "wp_die( " + "esc_html__" == "wp_die( esc_html__";
  }
}
