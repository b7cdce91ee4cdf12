/**
 * Read-only navigation over a token sequence, shared by the fixers: skipping
 * whitespace forwards and backwards, the "standalone call" test, and the
 * balanced capture of a `[...]` subscript.
 */
module Cursor {
  import opened Tokens

  /** A rule's verdict at a start index: the text to emit and the index of
      the last token it consumes (the scan resumes at `end + 1`). */
  datatype Match = Match(replacement: string, end: nat)

  /** What a whole pass produces: the new text and the number of fixes. */
  datatype Outcome = Outcome(text: string, fixes: nat)

  /** A balanced `[...]` capture: its text and the index of its `]`. */
  datatype Captured = Captured(content: string, end: nat)

  /** The token at `k` is trivia. */
  predicate BlankAt(toks: seq<Token>, k: nat, inlineOnly: bool)
    requires k < |toks|
  {
    IsBlank(toks[k], inlineOnly)
  }

  /** All tokens in [a, b) are trivia. */
  predicate AllBlank(toks: seq<Token>, a: nat, b: nat, inlineOnly: bool)
    requires a <= b <= |toks|
  {
    forall k :: a <= k < b ==> BlankAt(toks, k, inlineOnly)
  }

  /** The first index at or after `j` that is not trivia (or |toks|). */
  function SkipBlank(toks: seq<Token>, j: nat, inlineOnly: bool): (k: nat)
    requires j <= |toks|
    ensures j <= k <= |toks|
    ensures AllBlank(toks, j, k, inlineOnly)
    ensures k < |toks| ==> !IsBlank(toks[k], inlineOnly)
    decreases |toks| - j
  {
    if j < |toks| && IsBlank(toks[j], inlineOnly) then SkipBlank(toks, j + 1, inlineOnly) else j
  }

  /** The loop `while ($j < $count && is_whitespace($tokens[$j])) $j++;`. */
  method SkipBlankForward(toks: seq<Token>, j: nat, inlineOnly: bool) returns (k: nat)
    requires j <= |toks|
    ensures k == SkipBlank(toks, j, inlineOnly)
  {
    k := j;
    while k < |toks| && IsBlank(toks[k], inlineOnly)
      invariant j <= k <= |toks|
      invariant SkipBlank(toks, k, inlineOnly) == SkipBlank(toks, j, inlineOnly)
    {
      k := k + 1;
    }
  }

  /** Skips trivia from `j` and returns the skipped text too. */
  method TakeBlank(toks: seq<Token>, j: nat, inlineOnly: bool) returns (k: nat, ws: string)
    requires j <= |toks|
    ensures k == SkipBlank(toks, j, inlineOnly)
    ensures ws == Span(toks, j, k)
  {
    k, ws := j, "";
    while k < |toks| && IsBlank(toks[k], inlineOnly)
      invariant j <= k <= |toks|
      invariant SkipBlank(toks, k, inlineOnly) == SkipBlank(toks, j, inlineOnly)
      invariant ws == Span(toks, j, k)
    {
      ws := ws + TokenText(toks[k]);
      k := k + 1;
    }
  }
  /** SkipBlank stops exactly at the first non-trivia token. */
  lemma {:induction false} SkipBlankTo(toks: seq<Token>, j: nat, k: nat, inlineOnly: bool)
    requires j <= k <= |toks|
    requires AllBlank(toks, j, k, inlineOnly)
    requires k < |toks| ==> !IsBlank(toks[k], inlineOnly)
    ensures SkipBlank(toks, j, inlineOnly) == k
    decreases k - j
  {
    if j < k {
      assert BlankAt(toks, j, inlineOnly);
      SkipBlankTo(toks, j + 1, k, inlineOnly);
    }
  }

  /** The nearest index before `i` that is not whitespace, or -1. */
  function PrevNonBlank(toks: seq<Token>, i: nat): (p: int)
    requires i <= |toks|
    ensures -1 <= p < i
    ensures p >= 0 ==> !IsWhitespace(toks[p])
    ensures forall k :: p < k < i ==> BlankAt(toks, k, false)
    decreases i
  {
    if i >= 1 && IsWhitespace(toks[i - 1]) then PrevNonBlank(toks, i - 1) else i - 1
  }

  /** The loop `$prev = $i - 1; while ($prev >= 0 && is_whitespace(...)) $prev--;`. */
  method PrevNonBlankBackward(toks: seq<Token>, i: nat) returns (p: int)
    requires i <= |toks|
    ensures p == PrevNonBlank(toks, i)
  {
    p := i - 1;
    while p >= 0 && IsWhitespace(toks[p])
      invariant -1 <= p < i
      invariant PrevNonBlank(toks, p + 1) == PrevNonBlank(toks, i)
    {
      p := p - 1;
    }
  }

  /** Which reading of a rule: the code as written, or with the correction
      a finding calls for. */
  datatype Variant = AsWritten | Corrected

  /** A token that makes the name after it part of a longer name or chain:
      a bare name, `->` or `::`; the corrected reading adds `?->`. */
  predicate IsQualifier(t: Token, v: Variant) {
    t.Named? &&
    (t.kind == Identifier || t.kind == ObjectOperator || t.kind == DoubleColon ||
     (v == Corrected && t.kind == NullsafeObjectOperator))
  }

  /** The name at `i` is not preceded (skipping whitespace) by a qualifier;
      having no previous token counts as standalone. */
  predicate IsStandalone(toks: seq<Token>, i: nat, v: Variant)
    requires i <= |toks|
  {
    var p := PrevNonBlank(toks, i);
    p < 0 || !IsQualifier(toks[p], v)
  }

  /** The next token after `i` that is not whitespace is `(`. */
  predicate IsFollowedByParen(toks: seq<Token>, i: nat)
    requires i < |toks|
  {
    var j := SkipBlank(toks, i + 1, false);
    j < |toks| && toks[j] == Char("(")
  }

  /** A standalone-call rename: the bare name `name` at `i`, called and not
      qualified, is replaced by `newName`; only that one token is consumed. */
  function Rename(toks: seq<Token>, i: nat, name: string, newName: string, v: Variant): (r: Option<Match>)
    requires i < |toks|
    ensures r.Some? <==> IsName(toks[i], name) && IsFollowedByParen(toks, i) && IsStandalone(toks, i, v)
    ensures r.Some? ==> r.value == Match(newName, i)
  {
    if IsName(toks[i], name) && IsFollowedByParen(toks, i) && IsStandalone(toks, i, v)
    then Some(Match(newName, i))
    else None
  }

  /** The inline check of the rename fixers' main loop. */
  method TryRename(toks: seq<Token>, i: nat, name: string, newName: string, v: Variant) returns (r: Option<Match>)
    requires i < |toks|
    ensures r == Rename(toks, i, name, newName, v)
  {
    r := None;
    if IsName(toks[i], name) {
      var j := SkipBlankForward(toks, i + 1, false);
      if j < |toks| && toks[j] == Char("(") {
        var prev := PrevNonBlankBackward(toks, i);
        var standalone := true;
        if prev >= 0 && IsQualifier(toks[prev], v) {
          standalone := false;
        }
        if standalone {
          r := Some(Match(newName, i));
        }
      }
    }
  }

  /**
   * What a rename changes: one token whose text was `name` becomes
   * `newName`, and nothing else is consumed; a name preceded by a
   * qualifier, or not called, is never renamed.
   */
  lemma RenameMeaning(toks: seq<Token>, i: nat, name: string, newName: string, v: Variant)
    requires i < |toks|
    ensures var r := Rename(toks, i, name, newName, v);
      (r.Some? ==> r.value.end == i && Span(toks, i, i + 1) == name &&
                   |r.value.replacement| == |Span(toks, i, i + 1)| + |newName| - |name|) &&
      (var p := PrevNonBlank(toks, i); p >= 0 && IsQualifier(toks[p], v) ==> r.None?)
  {
    if Rename(toks, i, name, newName, v).Some? {
      SpanSnoc(toks, i, i);
    }
  }

  // ---------------------------------------------------------------------
  // Rules that look only forward

  /** Two sequences of equal length that agree from `i` on. */
  predicate SameFrom(toks: seq<Token>, toks2: seq<Token>, i: nat) {
    |toks| == |toks2| && forall k :: i <= k < |toks| ==> toks[k] == toks2[k]
  }

  lemma {:induction false} SkipBlankSuffix(toks: seq<Token>, toks2: seq<Token>, i: nat, j: nat, inlineOnly: bool)
    requires i <= j <= |toks| && SameFrom(toks, toks2, i)
    ensures SkipBlank(toks, j, inlineOnly) == SkipBlank(toks2, j, inlineOnly)
    decreases |toks| - j
  {
    if j < |toks| {
      assert toks[j] == toks2[j];
      SkipBlankSuffix(toks, toks2, i, j + 1, inlineOnly);
    }
  }

  lemma {:induction false} SpanSuffix(toks: seq<Token>, toks2: seq<Token>, i: nat, e: nat)
    requires i <= e <= |toks| && SameFrom(toks, toks2, i)
    ensures Span(toks, i, e) == Span(toks2, i, e)
    decreases e - i
  {
    if i < e {
      assert toks[e - 1] == toks2[e - 1];
      SpanSuffix(toks, toks2, i, e - 1);
    }
  }

  // ---------------------------------------------------------------------
  // Balanced `[...]` capture

  /** +1 for `[`, -1 for `]`, 0 otherwise. */
  function BracketDelta(t: Token): int {
    if t == Char("[") then 1 else if t == Char("]") then -1 else 0
  }

  /** The bracket nesting of toks[a..b]: opened minus closed brackets. */
  function Depth(toks: seq<Token>, a: nat, b: nat): int
    requires a <= b <= |toks|
    decreases b - a
  {
    if a == b then 0 else Depth(toks, a, b - 1) + BracketDelta(toks[b - 1])
  }

  /** The capture loop from index `j` with nesting `depth` so far. */
  function CaptureFrom(toks: seq<Token>, start: nat, j: nat, depth: int): (r: Option<Captured>)
    requires start < j <= |toks|
    ensures r.Some? ==> j - 1 <= r.value.end < |toks|
    ensures r.Some? && depth != 0 ==> j <= r.value.end
    ensures r.Some? ==> r.value.content == Span(toks, start, r.value.end + 1)
    decreases |toks| - j
  {
    if depth == 0 then Some(Captured(Span(toks, start, j), j - 1))
    else if j >= |toks| then None
    else CaptureFrom(toks, start, j + 1, depth + BracketDelta(toks[j]))
  }

  /**
   * capture_bracket_content: the text from the `[` at `start` to the `]`
   * where the nesting first returns to zero, inclusive, or None when the
   * tokens run out first (or `start` is not `[`).
   */
  function Capture(toks: seq<Token>, start: nat): (r: Option<Captured>)
    requires start < |toks|
    ensures r.Some? ==> toks[start] == Char("[") && start < r.value.end < |toks|
    ensures r.Some? ==> r.value.content == Span(toks, start, r.value.end + 1)
  {
    if toks[start] != Char("[") then None else CaptureFrom(toks, start, start + 1, 1)
  }

  /** Whether a capture closes is decided by the nesting of each prefix. */
  predicate OpenThrough(toks: seq<Token>, start: nat, b: nat)
    requires start < b <= |toks|
  {
    forall e :: start < e <= b ==> Depth(toks, start, e) > 0
  }

  lemma {:induction false} CaptureFromMeaning(toks: seq<Token>, start: nat, j: nat, depth: int)
    requires start < j <= |toks|
    requires depth == Depth(toks, start, j)
    requires depth >= 0
    requires forall e :: start < e < j ==> Depth(toks, start, e) > 0
    ensures var r := CaptureFrom(toks, start, j, depth);
      (r.Some? ==>
        j - 1 <= r.value.end < |toks| &&
        r.value.content == Span(toks, start, r.value.end + 1) &&
        Depth(toks, start, r.value.end + 1) == 0 &&
        forall e :: start < e <= r.value.end ==> Depth(toks, start, e) > 0) &&
      (r.None? ==> forall e :: start < e <= |toks| ==> Depth(toks, start, e) > 0)
    decreases |toks| - j
  {
    if depth == 0 {
    } else if j >= |toks| {
    } else {
      var d := depth + BracketDelta(toks[j]);
      assert Depth(toks, start, j + 1) == d;
      assert d >= 0;
      CaptureFromMeaning(toks, start, j + 1, d);
    }
  }

  /**
   * The meaning of a capture: it succeeds exactly when some prefix starting
   * at the `[` balances, it stops at the first such prefix, its content is
   * the verbatim text through that `]`, and it ends inside the tokens.
   */
  lemma CaptureMeaning(toks: seq<Token>, start: nat)
    requires start < |toks|
    ensures var r := Capture(toks, start);
      (r.Some? ==>
        start < r.value.end < |toks| &&
        toks[r.value.end] == Char("]") &&
        r.value.content == Span(toks, start, r.value.end + 1) &&
        Depth(toks, start, r.value.end + 1) == 0 &&
        forall e :: start < e <= r.value.end ==> Depth(toks, start, e) > 0) &&
      (r.None? && toks[start] == Char("[") ==> OpenThrough(toks, start, |toks|))
  {
    if toks[start] == Char("[") {
      assert Depth(toks, start, start + 1) == 1 by {
        assert Depth(toks, start, start) == 0;
      }
      CaptureFromMeaning(toks, start, start + 1, 1);
      var r := Capture(toks, start);
      if r.Some? {
        var e := r.value.end;
        assert Depth(toks, start, e + 1) == Depth(toks, start, e) + BracketDelta(toks[e]);
        assert Depth(toks, start, e) > 0;
        assert BracketDelta(toks[e]) < 0;
      }
    }
  }

  /** The capture loop of capture_bracket_content / capture_brackets. */
  method CaptureBrackets(toks: seq<Token>, start: nat) returns (r: Option<Captured>)
    requires start < |toks|
    ensures r == Capture(toks, start)
  {
    if toks[start] != Char("[") {
      return None;
    }
    var content := TokenText(toks[start]);
    var depth := 1;
    var j := start + 1;
    assert Span(toks, start, j) == content by { SpanCons(toks, start, j); }
    while j < |toks| && depth > 0
      invariant start < j <= |toks|
      invariant content == Span(toks, start, j)
      invariant depth >= 0
      invariant CaptureFrom(toks, start, j, depth) == Capture(toks, start)
    {
      var t := toks[j];
      if t == Char("[") {
        depth := depth + 1;
      } else if t == Char("]") {
        depth := depth - 1;
      }
      content := content + TokenText(t);
      j := j + 1;
    }
    if depth != 0 {
      return None;
    }
    r := Some(Captured(content, j - 1));
  }
}
