/**
 * Tokens in the shape PHP's tokenizer produces them: a named token carries
 * a kind and its exact source text, a single-character token is just its
 * text. The kinds listed are the ones the fixers inspect; every other named
 * token is `Other`.
 */
module Tokens {

  datatype Option<T> = None | Some(value: T)

  datatype Kind =
    | Variable                 // T_VARIABLE
    | Whitespace               // T_WHITESPACE
    | Identifier               // T_STRING: a bare name
    | Echo                     // T_ECHO
    | ObjectOperator           // T_OBJECT_OPERATOR `->`
    | NullsafeObjectOperator   // T_NULLSAFE_OBJECT_OPERATOR `?->`
    | DoubleColon              // T_DOUBLE_COLON, alias T_PAAMAYIM_NEKUDOTAYIM `::`
    | IsIdentical              // `===`
    | IsNotIdentical           // `!==`
    | IsEqual                  // `==`
    | IsNotEqual               // `!=`
    | ConstantEncapsedString   // a quoted string literal
    | LNumber                  // an integer literal
    | DNumber                  // a floating-point literal
    | NameFullyQualified       // T_NAME_FULLY_QUALIFIED
    | NameQualified            // T_NAME_QUALIFIED
    | NameRelative             // T_NAME_RELATIVE
    | Other

  datatype Token = Named(kind: Kind, text: string) | Char(s: string)

  /** The exact source text of one token. */
  function TokenText(t: Token): string {
    match t
    case Named(_, text) => text
    case Char(s) => s
  }

  /** The source text of toks[a..b]: every token's text in order. */
  function Span(toks: seq<Token>, a: nat, b: nat): string
    requires a <= b <= |toks|
    decreases b - a
  {
    if a == b then "" else Span(toks, a, b - 1) + TokenText(toks[b - 1])
  }

  /** The source text of a whole token sequence. */
  function Text(toks: seq<Token>): string {
    Span(toks, 0, |toks|)
  }

  /** Cutting a run of tokens at `m` cuts its text at the same place. */
  lemma {:induction false} SpanSplit(toks: seq<Token>, a: nat, m: nat, b: nat)
    requires a <= m <= b <= |toks|
    ensures Span(toks, a, b) == Span(toks, a, m) + Span(toks, m, b)
    decreases b - m
  {
    if m < b {
      SpanSplit(toks, a, m, b - 1);
    }
  }

  /** Adding one token adds its text at the end. */
  lemma SpanSnoc(toks: seq<Token>, a: nat, b: nat)
    requires a <= b < |toks|
    ensures Span(toks, a, b + 1) == Span(toks, a, b) + TokenText(toks[b])
  {
  }

  lemma SpanCons(toks: seq<Token>, a: nat, b: nat)
    requires a < b <= |toks|
    ensures Span(toks, a, b) == TokenText(toks[a]) + Span(toks, a + 1, b)
  {
    SpanSplit(toks, a, a + 1, b);
    var t := TokenText(toks[a]);
    assert Span(toks, a, a + 1) == Span(toks, a, a) + t;
    assert Span(toks, a, a) == [];
    assert [] + t == t;
  }

  predicate IsKind(t: Token, k: Kind) {
    t.Named? && t.kind == k
  }

  predicate IsWhitespace(t: Token) {
    IsKind(t, Whitespace)
  }

  /** Whitespace that stays on one line. */
  predicate IsInlineWhitespace(t: Token) {
    IsWhitespace(t) && '\n' !in t.text
  }

  /** The trivia a scan skips: any whitespace, or only inline whitespace. */
  predicate IsBlank(t: Token, inlineOnly: bool) {
    if inlineOnly then IsInlineWhitespace(t) else IsWhitespace(t)
  }

  predicate IsVariable(t: Token) {
    IsKind(t, Variable)
  }

  /** A bare name token with exactly the text `name`. */
  predicate IsName(t: Token, name: string) {
    IsKind(t, Identifier) && t.text == name
  }

  /** `->` or `?->`. */
  predicate IsMemberAccess(t: Token) {
    t.Named? && (t.kind == ObjectOperator || t.kind == NullsafeObjectOperator)
  }

  /** PHP's strtolower on ASCII letters. */
  function LowerChar(c: char): char {
    if 'A' <= c <= 'Z' then (c as int + 32) as char else c
  }

  function Lower(s: string): string {
    if s == [] then [] else [LowerChar(s[0])] + Lower(s[1..])
  }
}
