/**
 * The escape-i18n fixer: a standalone call `_e(` becomes `esc_html_e(`.
 * The name must match exactly, in this case; a longer name such as
 * `some_e` is a different token and never matches.
 */
module EscapeI18nFixer {
  import opened Tokens
  import opened Cursor

  /** The rule at index `i`: one token renamed. The new text is eight
      characters longer than the token it replaces. */
  function EscapeI18n(toks: seq<Token>, i: nat, v: Variant): (r: Option<Match>)
    requires i < |toks|
    ensures r.Some? <==>
      IsName(toks[i], "_e") && IsFollowedByParen(toks, i) && IsStandalone(toks, i, v)
    ensures r.Some? ==>
      r.value.end == i && r.value.replacement == "esc_html_e" &&
      |r.value.replacement| == |Span(toks, i, i + 1)| + 8
  {
    RenameMeaning(toks, i, "_e", "esc_html_e", v);
    Rename(toks, i, "_e", "esc_html_e", v)
  }

  /** `_e ($text)` */
  function PlainCall(): seq<Token> {
    [Named(Identifier, "_e"), Named(Whitespace, " "), Char("("), Named(Variable, "$text"), Char(")")]
  }

  /** `<qualifier>_e(` after the object or class named by `lead`. */
  function QualifiedCall(lead: Token, qualifier: Token): seq<Token> {
    [lead, qualifier, Named(Identifier, "_e"), Char("(")]
  }

  lemma PlainCallRenamed(v: Variant)
    ensures EscapeI18n(PlainCall(), 0, v) == Some(Match("esc_html_e", 0))
  {
    assert SkipBlank(PlainCall(), 1, false) == 2;
  }

  /** `$o->_e(` and `Foo::_e(` are left alone. */
  lemma QualifiedCallKept(v: Variant)
    ensures EscapeI18n(QualifiedCall(Named(Variable, "$o"), Named(ObjectOperator, "->")), 2, v).None?
    ensures EscapeI18n(QualifiedCall(Named(Identifier, "Foo"), Named(DoubleColon, "::")), 2, v).None?
  {
    assert PrevNonBlank(QualifiedCall(Named(Variable, "$o"), Named(ObjectOperator, "->")), 2) == 1;
    assert PrevNonBlank(QualifiedCall(Named(Identifier, "Foo"), Named(DoubleColon, "::")), 2) == 1;
  }

  /** `$o?->_e(` is renamed as written: the standalone test does not
      count `?->` as a qualifier. */
  lemma NullsafeCallRenamed()
    ensures EscapeI18n(QualifiedCall(Named(Variable, "$o"), Named(NullsafeObjectOperator, "?->")), 2, AsWritten) ==
            Some(Match("esc_html_e", 2))
  {
    var t := QualifiedCall(Named(Variable, "$o"), Named(NullsafeObjectOperator, "?->"));
    assert PrevNonBlank(t, 2) == 1;
    assert SkipBlank(t, 3, false) == 3;
  }

  /** Under the corrected standalone test `$o?->_e(` is kept, like
      `$o->_e(`. */
  lemma NullsafeCallKept()
    ensures EscapeI18n(QualifiedCall(Named(Variable, "$o"), Named(NullsafeObjectOperator, "?->")), 2, Corrected).None?
  {
    assert PrevNonBlank(QualifiedCall(Named(Variable, "$o"), Named(NullsafeObjectOperator, "?->")), 2) == 1;
  }
}
