/**
 * The left-hand expression the Yoda and short-ternary rules capture after a
 * variable: a chain of `[...]` subscripts, each optionally preceded by
 * whitespace. The chain ends at the first token that is not `[`; it is
 * declined at `->` / `?->` (and, for the short ternary, at `(`), at an
 * unbalanced bracket and, when the policy asks for it, at a subscript that
 * holds a call.
 */
module LeftSide {
  import opened Tokens
  import opened Cursor

  /**
   * How a rule scans its left side. `inlineOnly`: whether only inline
   * whitespace is skipped (Yoda) or any whitespace (short ternary).
   * `rejectCall`: whether `(` declines (short ternary). `restoreOnBreak`:
   * whether the whitespace skipped before the token that ends the chain is
   * given back to the caller; the fixers as written do not do this.
   * `callFreeSubscripts`: whether a subscript holding a `(` declines the
   * chain, so that no call is copied with the left side; the fixers as
   * written do not do this either.
   */
  datatype Policy = Policy(inlineOnly: bool, rejectCall: bool, restoreOnBreak: bool, callFreeSubscripts: bool)

  /** Some token in [a, b) is `(`: the span holds a call. */
  predicate HasCall(toks: seq<Token>, a: nat, b: nat)
    requires a <= b <= |toks|
  {
    exists k :: a <= k < b && toks[k] == Char("(")
  }

  /** The chain goes on past the subscript that starts at `w`. */
  predicate Continues(toks: seq<Token>, w: nat, p: Policy)
    requires w <= |toks|
  {
    w < |toks| && toks[w] == Char("[") && Capture(toks, w).Some? &&
    !(p.callFreeSubscripts && HasCall(toks, w, Capture(toks, w).value.end + 1))
  }

  /** The result of scanning a chain: declined, or the chain's text (after
      the variable) and the index where the caller continues. */
  datatype LeftScan = Declined | Left(text: string, next: nat)

  function Prefixed(s: string, r: LeftScan): LeftScan {
    match r
    case Declined => Declined
    case Left(t, next) => Left(s + t, next)
  }

  lemma PrefixedTwice(a: string, b: string, r: LeftScan)
    ensures Prefixed(a, Prefixed(b, r)) == Prefixed(a + b, r)
  {
    if r.Left? { assert a + (b + r.text) == (a + b) + r.text; }
  }

  /** The token at `w` ends a chain without declining it. */
  predicate EndsChain(toks: seq<Token>, w: nat, p: Policy)
    requires w <= |toks|
  {
    w < |toks| ==>
      !IsBlank(toks[w], p.inlineOnly) && toks[w] != Char("[") &&
      !IsMemberAccess(toks[w]) && !(p.rejectCall && toks[w] == Char("("))
  }

  /** The subscript loop of try_fix_yoda / try_fix_short_ternary, from `j`. */
  function Chain(toks: seq<Token>, j: nat, p: Policy): (r: LeftScan)
    requires j <= |toks|
    ensures r.Left? ==> j <= r.next <= |toks|
    decreases |toks| - j
  {
    var w := SkipBlank(toks, j, p.inlineOnly);
    var stop := if p.restoreOnBreak then j else w;
    if w >= |toks| then Left("", stop)
    else if toks[w] == Char("[") then
      match Capture(toks, w)
      case None => Declined
      case Some(c) =>
        if p.callFreeSubscripts && HasCall(toks, w, c.end + 1) then Declined
        else Prefixed(Span(toks, j, w) + c.content, Chain(toks, c.end + 1, p))
    else if IsMemberAccess(toks[w]) || (p.rejectCall && toks[w] == Char("(")) then Declined
    else Left("", stop)
  }

  /** Where a chain stops: past it (skipping trivia) comes a token that is
      not `[`, not a member access and, for the short ternary, not `(`;
      as written, the chain has already skipped that trivia itself. */
  lemma {:induction false} ChainStop(toks: seq<Token>, j: nat, p: Policy)
    requires j <= |toks|
    ensures var r := Chain(toks, j, p);
      r.Left? ==>
        EndsChain(toks, SkipBlank(toks, r.next, p.inlineOnly), p) &&
        (!p.restoreOnBreak ==> SkipBlank(toks, r.next, p.inlineOnly) == r.next)
    decreases |toks| - j
  {
    var w := SkipBlank(toks, j, p.inlineOnly);
    if Continues(toks, w, p) {
      ChainNext(toks, j, w, Capture(toks, w).value, p);
      ChainStop(toks, Capture(toks, w).value.end + 1, p);
    } else {
      ChainEnds(toks, j, p);
    }
  }

  /** A chain that goes on past a subscript stops where the rest stops. */
  lemma ChainNext(toks: seq<Token>, j: nat, w: nat, c: Captured, p: Policy)
    requires j <= |toks| && w == SkipBlank(toks, j, p.inlineOnly)
    requires Continues(toks, w, p) && Capture(toks, w) == Some(c)
    ensures c.end + 1 <= |toks|
    ensures Chain(toks, j, p).Left? == Chain(toks, c.end + 1, p).Left?
    ensures Chain(toks, j, p).Left? ==> Chain(toks, j, p).next == Chain(toks, c.end + 1, p).next
  {
    ChainUnfold(toks, j, w, c, p);
  }

  /** The same, where the chain does not go on past a subscript. */
  lemma ChainEnds(toks: seq<Token>, j: nat, p: Policy)
    requires j <= |toks|
    requires var w := SkipBlank(toks, j, p.inlineOnly);
      !Continues(toks, w, p)
    ensures var r := Chain(toks, j, p);
      r.Left? ==>
        EndsChain(toks, SkipBlank(toks, r.next, p.inlineOnly), p) &&
        (!p.restoreOnBreak ==> SkipBlank(toks, r.next, p.inlineOnly) == r.next)
  {
    var w := SkipBlank(toks, j, p.inlineOnly);
    assert SkipBlank(toks, w, p.inlineOnly) == w;
  }

  /** With call-free subscripts, no token from the chain's start to where
      the caller continues is `(`: the left side copies no call. */
  lemma {:induction false} ChainCallFree(toks: seq<Token>, j: nat, p: Policy)
    requires j <= |toks| && p.callFreeSubscripts
    ensures var r := Chain(toks, j, p); r.Left? ==> !HasCall(toks, j, r.next)
    decreases |toks| - j
  {
    var w := SkipBlank(toks, j, p.inlineOnly);
    var r := Chain(toks, j, p);
    if Continues(toks, w, p) {
      var c := Capture(toks, w).value;
      ChainUnfold(toks, j, w, c, p);
      ChainCallFree(toks, c.end + 1, p);
      if r.Left? {
        CallFreeJoin(toks, j, w, c.end + 1, r.next, p.inlineOnly);
      }
    } else if r.Left? {
      CallFreeJoin(toks, j, r.next, r.next, r.next, p.inlineOnly);
    }
  }

  /** Trivia, then a call-free subscript, then a call-free rest. */
  lemma CallFreeJoin(toks: seq<Token>, j: nat, w: nat, n: nat, e: nat, inlineOnly: bool)
    requires j <= w <= n <= e <= |toks|
    requires AllBlank(toks, j, w, inlineOnly)
    requires !HasCall(toks, w, n) && !HasCall(toks, n, e)
    ensures !HasCall(toks, j, e)
  {
    forall k | j <= k < e
      ensures toks[k] != Char("(")
    {
      if k < w { assert BlankAt(toks, k, inlineOnly); }
    }
  }

  /** The chain's text is the verbatim text of the tokens from `j` up to some
      `q`; the tokens from `q` to `next` are whitespace that the chain
      consumed but did not keep (none of them when restoring). */
  predicate KeptUpTo(toks: seq<Token>, j: nat, q: nat, r: LeftScan, p: Policy)
    requires r.Left? && j <= r.next <= |toks|
  {
    j <= q <= r.next && r.text == Span(toks, j, q) &&
    AllBlank(toks, q, r.next, p.inlineOnly) &&
    (p.restoreOnBreak ==> q == r.next)
  }

  lemma {:induction false} ChainText(toks: seq<Token>, j: nat, p: Policy)
    requires j <= |toks|
    ensures var r := Chain(toks, j, p); r.Left? ==> exists q :: KeptUpTo(toks, j, q, r, p)
    decreases |toks| - j, 1
  {
    var w := SkipBlank(toks, j, p.inlineOnly);
    if Continues(toks, w, p) {
      SubscriptText(toks, j, w, Capture(toks, w).value, p);
    } else {
      EndText(toks, j, p);
    }
  }

  /** ChainText where the chain goes on past the subscript captured at `w`. */
  lemma {:induction false} SubscriptText(toks: seq<Token>, j: nat, w: nat, c: Captured, p: Policy)
    requires j <= |toks| && w == SkipBlank(toks, j, p.inlineOnly)
    requires Continues(toks, w, p) && Capture(toks, w) == Some(c)
    ensures var r := Chain(toks, j, p); r.Left? ==> exists q :: KeptUpTo(toks, j, q, r, p)
    decreases |toks| - j, 0
  {
    ChainUnfold(toks, j, w, c, p);
    ChainText(toks, c.end + 1, p);
    SubscriptKept(toks, j, w, c, c.end + 1, Chain(toks, c.end + 1, p), p);
  }

  /** A kept chain after a subscript stays kept with the subscript and the
      trivia before it in front. */
  lemma SubscriptKept(toks: seq<Token>, j: nat, w: nat, c: Captured, n: nat, rest: LeftScan, p: Policy)
    requires j <= w < c.end < |toks| && n == c.end + 1
    requires c.content == Span(toks, w, n)
    requires rest.Left? ==> n <= rest.next <= |toks|
    requires rest.Left? ==> exists q :: KeptUpTo(toks, n, q, rest, p)
    ensures var r := Prefixed(Span(toks, j, w) + c.content, rest);
      r.Left? ==> r.next == rest.next && exists q :: KeptUpTo(toks, j, q, r, p)
  {
    if rest.Left? {
      var q :| KeptUpTo(toks, n, q, rest, p);
      PrefixedKept(toks, j, w, c, q, rest, p);
    }
  }

  /** ChainText where the chain stops at `j`'s first non-trivia token. */
  lemma EndText(toks: seq<Token>, j: nat, p: Policy)
    requires j <= |toks|
    requires var w := SkipBlank(toks, j, p.inlineOnly);
      !Continues(toks, w, p)
    ensures var r := Chain(toks, j, p); r.Left? ==> KeptUpTo(toks, j, j, r, p)
  {
  }

  /** A chain that goes on past a subscript captured at `w`. */
  lemma ChainUnfold(toks: seq<Token>, j: nat, w: nat, c: Captured, p: Policy)
    requires j <= |toks| && w == SkipBlank(toks, j, p.inlineOnly)
    requires Continues(toks, w, p) && Capture(toks, w) == Some(c)
    ensures j <= w < c.end < |toks| && c.content == Span(toks, w, c.end + 1)
    ensures Chain(toks, j, p) == Prefixed(Span(toks, j, w) + c.content, Chain(toks, c.end + 1, p))
  {
    CaptureMeaning(toks, w);
  }

  /** A subscript `c` captured at `w`, after the trivia from `j`, extends a
      kept chain that starts right after it. */
  lemma PrefixedKept(toks: seq<Token>, j: nat, w: nat, c: Captured, q: nat, rest: LeftScan, p: Policy)
    requires j <= w < c.end < |toks|
    requires c.content == Span(toks, w, c.end + 1)
    requires rest.Left? && c.end + 1 <= rest.next <= |toks|
    requires KeptUpTo(toks, c.end + 1, q, rest, p)
    ensures KeptUpTo(toks, j, q, Prefixed(Span(toks, j, w) + c.content, rest), p)
  {
    SpanSplit(toks, j, w, c.end + 1);
    SpanSplit(toks, j, c.end + 1, q);
  }

  /** One iteration of the subscript loop: it either ends the scan with the
      given verdict or appends `piece` to the chain and continues at `next`. */
  datatype Step = Stop(verdict: LeftScan) | Continue(piece: string, next: nat)

  method ChainStep(toks: seq<Token>, j: nat, p: Policy) returns (s: Step)
    requires j <= |toks|
    ensures s.Stop? ==> Chain(toks, j, p) == s.verdict
    ensures s.Continue? ==> j < s.next <= |toks| && Chain(toks, j, p) == Prefixed(s.piece, Chain(toks, s.next, p))
  {
    var w, ws := TakeBlank(toks, j, p.inlineOnly);
    var stop := if p.restoreOnBreak then j else w;
    if w >= |toks| {
      return Stop(Left("", stop));
    }
    if toks[w] == Char("[") {
      var c := CaptureBrackets(toks, w);
      if c.None? || (p.callFreeSubscripts && HasCall(toks, w, c.value.end + 1)) {
        return Stop(Declined);
      }
      return Continue(ws + c.value.content, c.value.end + 1);
    }
    if IsMemberAccess(toks[w]) || (p.rejectCall && toks[w] == Char("(")) {
      return Stop(Declined);
    }
    return Stop(Left("", stop));
  }

  /** The subscript loop, as a loop: accumulates the chain's text. */
  method CaptureChain(toks: seq<Token>, j0: nat, p: Policy) returns (r: LeftScan)
    requires j0 <= |toks|
    ensures r == Chain(toks, j0, p)
  {
    var acc := "";
    var j := j0;
    while true
      invariant j0 <= j <= |toks|
      invariant Chain(toks, j0, p) == Prefixed(acc, Chain(toks, j, p))
      decreases |toks| - j
    {
      var s := ChainStep(toks, j, p);
      if s.Stop? {
        return Prefixed(acc, s.verdict);
      }
      PrefixedTwice(acc, s.piece, Chain(toks, s.next, p));
      acc := acc + s.piece;
      j := s.next;
    }
  }
}
