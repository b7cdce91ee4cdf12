/**
 * The safe-redirect fixer: a standalone call `wp_redirect(` becomes
 * `wp_safe_redirect(`. The name must match exactly, in this case.
 */
module SafeRedirectFixer {
  import opened Tokens
  import opened Cursor

  /** The rule at index `i`: one token renamed. The new text is five
      characters longer than the token it replaces. */
  function SafeRedirect(toks: seq<Token>, i: nat, v: Variant): (r: Option<Match>)
    requires i < |toks|
    ensures r.Some? <==>
      IsName(toks[i], "wp_redirect") && IsFollowedByParen(toks, i) && IsStandalone(toks, i, v)
    ensures r.Some? ==>
      r.value.end == i && r.value.replacement == "wp_safe_redirect" &&
      |r.value.replacement| == |Span(toks, i, i + 1)| + 5
  {
    RenameMeaning(toks, i, "wp_redirect", "wp_safe_redirect", v);
    Rename(toks, i, "wp_redirect", "wp_safe_redirect", v)
  }

  /** `wp_redirect ($url)` */
  function PlainCall(): seq<Token> {
    [Named(Identifier, "wp_redirect"), Named(Whitespace, " "), Char("("), Named(Variable, "$url"), Char(")")]
  }

  /** `<qualifier>wp_redirect(` after the object or class named by `lead`. */
  function QualifiedCall(lead: Token, qualifier: Token): seq<Token> {
    [lead, qualifier, Named(Identifier, "wp_redirect"), Char("(")]
  }

  lemma PlainCallRenamed(v: Variant)
    ensures SafeRedirect(PlainCall(), 0, v) == Some(Match("wp_safe_redirect", 0))
  {
    assert SkipBlank(PlainCall(), 1, false) == 2;
  }

  /** `$o->wp_redirect(` and `Foo::wp_redirect(` are left alone. */
  lemma QualifiedCallKept(v: Variant)
    ensures SafeRedirect(QualifiedCall(Named(Variable, "$o"), Named(ObjectOperator, "->")), 2, v).None?
    ensures SafeRedirect(QualifiedCall(Named(Identifier, "Foo"), Named(DoubleColon, "::")), 2, v).None?
  {
    assert PrevNonBlank(QualifiedCall(Named(Variable, "$o"), Named(ObjectOperator, "->")), 2) == 1;
    assert PrevNonBlank(QualifiedCall(Named(Identifier, "Foo"), Named(DoubleColon, "::")), 2) == 1;
  }

  /** `$o?->wp_redirect(` is renamed as written: the standalone test does not
      count `?->` as a qualifier. */
  lemma NullsafeCallRenamed()
    ensures SafeRedirect(QualifiedCall(Named(Variable, "$o"), Named(NullsafeObjectOperator, "?->")), 2, AsWritten) ==
            Some(Match("wp_safe_redirect", 2))
  {
    var t := QualifiedCall(Named(Variable, "$o"), Named(NullsafeObjectOperator, "?->"));
    assert PrevNonBlank(t, 2) == 1;
    assert SkipBlank(t, 3, false) == 3;
  }

  /** Under the corrected standalone test `$o?->wp_redirect(` is kept, like
      `$o->wp_redirect(`. */
  lemma NullsafeCallKept()
    ensures SafeRedirect(QualifiedCall(Named(Variable, "$o"), Named(NullsafeObjectOperator, "?->")), 2, Corrected).None?
  {
    assert PrevNonBlank(QualifiedCall(Named(Variable, "$o"), Named(NullsafeObjectOperator, "?->")), 2) == 1;
  }
}
