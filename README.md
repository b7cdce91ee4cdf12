# PHP token-stream fixers, modelled in Dafny

This project models the seven source fixers in `wordpress/scripts/`. Each
fixer makes one left-to-right pass over the token array that PHP's
`token_get_all` produces. At each index it tries one rule. On a match it
appends the rule's replacement text, counts one fix and resumes after the
matched span. Otherwise it appends the token's own text and moves on by
one. The file is written back only when at least one fix was made.

The rules are:

- **Yoda swap**: `$v[...] OP literal` becomes `literal OP $v[...]`.
- **Short ternary expansion**: `$v ?:` becomes `$v? $v :`.
- **Strict `in_array`**: `, true` is added to a call with exactly two top-level arguments.
- **Standalone renames**: `wp_redirect(` becomes `wp_safe_redirect(`, and `_e(` becomes `esc_html_e(`.
- **`echo __(`**: becomes `echo esc_html__(`, driven by an `after_echo` flag.
- **`wp_die( __(`**: becomes `wp_die( esc_html__(`.

Modules:

- `Tokens` (tokens.dfy) covers the token shape.
  - `Named(kind, text)` stands for a PHP array token, and `Char(s)` for a one-character token.
  - `Kind` is a closed enumeration of the kinds the fixers inspect.
  - `TokenText` is `token_to_string`. `Span`/`Text` concatenate token texts.
- `Cursor` (cursor.dfy) holds the scans the fixers share:
  - the forward whitespace skip and the backward search for the previous non-whitespace token;
  - the standalone-call test and the one-token rename;
  - the balanced `[...]` capture.
- `LeftSide` (left_side.dfy) is the subscript loop that the Yoda and short-ternary rules use to read `$v[...][...]`.
- `YodaFixer`, `ShortTernaryFixer`, `InArrayStrictFixer`, `SafeRedirectFixer`,
  `EscapeI18nFixer` and `WpDieTranslateFixer` each have a rule function and
  the method that runs the source's loops. The method is proved equal to the
  rule function, and lemmas state what the rule means.
- `Session` (session.dfy) is the main scan loop shared by the six
  match-and-resume fixers, and the `process_file` write decision.
  - `Scan` is the specification and `Rewrite` is the loop proved against it.
  - The properties are pass-through, progress, first match and output length.
- `EchoTranslateFixer` (echo_translate_fixer.dfy) is the stateful echo fixer, with its own step function, loop and counting lemmas.

Where the source's behaviour differs from what it evidently intends, the
rule carries a `Variant` (`AsWritten` or `Corrected`) or a `restore` or
`corrected` flag, and
both readings are modelled (see "## Findings").

The short ternary fixer's doc comments
(wordpress/scripts/lint/php-fixers/short-ternary-fixer.php:6, 92-95) say that
`$var ?: $default` becomes `$var ? $var : $default`, and that the fixer "also
handles" `$arr['key'] ?: $default`. The documented `$var` form implies
`$arr['key'] ? $arr['key'] : $default` for the subscript. As written, the code
emits `$arr['key']? $arr['key'] : $default`: the subscript loop drops the
whitespace it skipped before `?` when it breaks (lines 108-112, 139). The model
follows the code (`ShortTernaryFixer.SubscriptExpandExample`).

Tokenization and file I/O are parameters. `ProcessFile` takes an
`Option<seq<Token>>`, where `None` stands for a failed read or tokenization,
and it returns the text to write, if any.

## Model

| member | source | states |
|---|---|---|
| Cursor.SkipBlankForward | wordpress/scripts/yoda-fixer.php:230-233 | the whitespace-skipping loop stops at `SkipBlank`: every skipped token is whitespace (inline only, when asked), and the stop is the end or a non-whitespace token |
| Cursor.TakeBlank | wordpress/scripts/yoda-fixer.php:247-251 | the loop that skips whitespace also collects exactly the text of the skipped tokens |
| Cursor.SkipBlankTo | wordpress/scripts/lint/php-fixers/short-ternary-fixer.php:144-148 | any index reached over whitespace, and stopped at a non-whitespace token or at the end, is the skip's result |
| Cursor.PrevNonBlankBackward | wordpress/scripts/safe-redirect-fixer.php:89-93 | the backward loop finds the nearest preceding non-whitespace token, or -1, with only whitespace in between |
| Cursor.TryRename | wordpress/scripts/safe-redirect-fixer.php:79-108 | the rename fires exactly when the token is the name, the next non-whitespace token is `(` and the previous one is not a qualifier; it replaces only that token |
| Cursor.RenameMeaning | wordpress/scripts/lint/php-fixers/escape-i18n-fixer.php:69-89 | a rename ends at its own token, whose text is the old name; the new text differs in length by the names' difference; after a T_STRING, `->` or `::` there is no rename |
| Cursor.CaptureMeaning | wordpress/scripts/yoda-fixer.php:298-328 | a capture starts at `[` and ends at the first `]` where the bracket depth returns to 0; its content is the exact text of that span; when no such `]` exists, the depth stays positive to the end and the capture fails |
| Cursor.CaptureBrackets | wordpress/scripts/lint/php-fixers/short-ternary-fixer.php:206-234 | the depth-counting loop computes the capture described by `CaptureMeaning` |
| LeftSide.CaptureChain | wordpress/scripts/yoda-fixer.php:195-226 | the subscript loop computes `Chain`: it declines on `->`/`?->` (and `(` for the ternary) or on an unbalanced `[`, and otherwise returns the left side and the index after it |
| LeftSide.ChainStop | wordpress/scripts/yoda-fixer.php:224-233 | the first token after the left side that is not whitespace is none of `[`, `->`, `?->` and (for the ternary) `(`; as written, the index returned is already past the whitespace, so the later whitespace skip collects nothing |
| LeftSide.ChainText | wordpress/scripts/lint/php-fixers/short-ternary-fixer.php:106-141 | the left side is the exact source text from the variable up to some point, followed only by whitespace up to the returned index |
| YodaFixer.TryFixYoda | wordpress/scripts/yoda-fixer.php:186-288 | the method computes the Yoda rule `SwapWith` |
| YodaFixer.TryCompare | wordpress/scripts/yoda-fixer.php:228-287 | the operator / literal / follower stage computes `Compare` |
| YodaFixer.CompareWithoutLiteral | wordpress/scripts/yoda-fixer.php:253-260 | after a comparison operator, anything other than a simple literal makes the rule decline |
| YodaFixer.CompareAtLiteral | wordpress/scripts/yoda-fixer.php:264-287 | at a literal the rule declines on a complex follower, and otherwise emits literal, whitespace, operator, whitespace and left side, ending at the literal |
| YodaFixer.SwapShape | wordpress/scripts/yoda-fixer.php:282-287 | every swap has the layout: left side, whitespace, comparison operator, inline whitespace, a simple literal with no complex follower, and replacement = literal + operator + whitespace + left side, ending at the literal |
| YodaFixer.DeclinesOnMemberAccess | wordpress/scripts/yoda-fixer.php:219-222 | a variable followed by `->` or `?->` is never swapped |
| YodaFixer.PlainSwap | wordpress/scripts/yoda-fixer.php:240-287 | for `$v OP x`, a swap happens if and only if `x` is a simple literal with no complex follower, and then yields `x OP <ws> $v` ending at `x` |
| YodaFixer.SwapDropsSpaceBeforeOperator | wordpress/scripts/yoda-fixer.php:229-233 | `$x === 'foo'` becomes `'foo'=== $x` as written |
| YodaFixer.RestoringSwapKeepsText | wordpress/scripts/yoda-fixer.php:224-225 | with the position restored at the break, the swap's pieces are exactly the pieces of the original span, reordered |
| YodaFixer.RestoringSwapExample | wordpress/scripts/yoda-fixer.php:282 | with the position restored, `$x === 'foo'` becomes `'foo' === $x` |
| YodaFixer.NonLiteralDeclines | wordpress/scripts/yoda-fixer.php:258-260 | `$x === $y` is not swapped |
| ShortTernaryFixer.TryFixShortTernary | wordpress/scripts/lint/php-fixers/short-ternary-fixer.php:97-194 | the method computes the rule `ExpandWith` |
| ShortTernaryFixer.TryElvis | wordpress/scripts/lint/php-fixers/short-ternary-fixer.php:143-193 | the `?` / `:` stage computes `Elvis` |
| ShortTernaryFixer.ElvisAfterQuestion | wordpress/scripts/lint/php-fixers/short-ternary-fixer.php:160-193 | after `?` the rule declines unless the next non-whitespace token is `:`, and otherwise emits `left ws '? ' left ' :' ws`, ending before the default operand |
| ShortTernaryFixer.ExpandShape | wordpress/scripts/lint/php-fixers/short-ternary-fixer.php:187-193 | every expansion has the layout: left side, `?`, whitespace, `:`, whitespace; the replacement holds the left side twice, and the match ends at the last token before the default operand |
| ShortTernaryFixer.DeclinesOnCallOrMember | wordpress/scripts/lint/php-fixers/short-ternary-fixer.php:130-138 | a variable followed by `->`, `?->` or `(` is never expanded |
| ShortTernaryFixer.PlainExpand | wordpress/scripts/lint/php-fixers/short-ternary-fixer.php:150-171 | for `$v ?`, an expansion happens if and only if the next non-whitespace token after `?` is `:` |
| ShortTernaryFixer.PlainExpandValue | wordpress/scripts/lint/php-fixers/short-ternary-fixer.php:177-193 | for `$v ws ? ws : ws`, the replacement is `$v? $v :` plus the whitespace after the colon (with the first whitespace kept when the position is restored), ending at the last whitespace token |
| ShortTernaryFixer.ExpandDropsSpaceBeforeOperator | wordpress/scripts/lint/php-fixers/short-ternary-fixer.php:144-148 | `$a ?: $b` becomes `$a? $a : $b` as written |
| ShortTernaryFixer.RestoringExpandExample | wordpress/scripts/lint/php-fixers/short-ternary-fixer.php:187 | with the position restored, `$a ?: $b` becomes `$a ? $a : $b` |
| ShortTernaryFixer.FullTernaryDeclines | wordpress/scripts/lint/php-fixers/short-ternary-fixer.php:168-171 | `$a ? $b : $c` is left unchanged |
| ShortTernaryFixer.SubscriptExpandExample | wordpress/scripts/lint/php-fixers/short-ternary-fixer.php:113-126 | the rule at `$arr['key'] ?: $d` captures the subscript and matches with replacement `$arr['key']? $arr['key'] : `, ending before `$d` |
| ShortTernaryFixer.SubscriptCallDuplicated | wordpress/scripts/lint/php-fixers/short-ternary-fixer.php:113-126 | as written, the rule at `$arr[foo()] ?: $d` matches with replacement `$arr[foo()]? $arr[foo()] : `, so `foo()` is written twice |
| LeftSide.ChainCallFree | wordpress/scripts/lint/php-fixers/short-ternary-fixer.php:7 | with call-free subscripts, no token from the variable's end to where the chain stops is `(` |
| ShortTernaryFixer.CorrectedCopiesNoCall | wordpress/scripts/lint/php-fixers/short-ternary-fixer.php:7 | every corrected expansion has the expansion layout, and its left side, which the replacement writes twice, holds no `(` token |
| ShortTernaryFixer.SubscriptCallDeclined | wordpress/scripts/lint/php-fixers/short-ternary-fixer.php:7 | the corrected rule declines `$arr[foo()] ?: $d` |
| InArrayStrictFixer.CountArguments | wordpress/scripts/in-array-strict-fixer.php:127-157 | the depth / comma / content loop computes `Arguments`: the closing index, the argument count and whether the last segment has content |
| InArrayStrictFixer.TryFixInArray | wordpress/scripts/in-array-strict-fixer.php:103-177 | the method computes the rule (`Strict` as written, `StrictFixed` corrected) |
| InArrayStrictFixer.ArgumentsMeaning | wordpress/scripts/in-array-strict-fixer.php:127-157 | the scan stops at the first `)` or `]` at which the shared depth returns to 0, or at the end; its count is the number of top-level commas plus one if the last segment has content |
| InArrayStrictFixer.StrictMeaning | wordpress/scripts/in-array-strict-fixer.php:108-176 | a call is rewritten if and only if `(` follows the name and there are exactly two arguments; the replacement is the text up to the closing paren followed by `, true)` |
| InArrayStrictFixer.Declines | wordpress/scripts/in-array-strict-fixer.php:162-164 | a call whose argument count is not 2 is left alone |
| InArrayStrictFixer.StrictShape | wordpress/scripts/in-array-strict-fixer.php:159-176 | a match has `(` after the name, count 2, ends at the closing index, and its replacement is that text plus `, true)` |
| InArrayStrictFixer.SecondPassDeclines | wordpress/scripts/in-array-strict-fixer.php:162 | once the closed call is retokenized with `, true)` in place of `)`, its text is the replacement and a second pass declines it |
| InArrayStrictFixer.PlainCallRescan | wordpress/scripts/in-array-strict-fixer.php:135-145 | a rewritten call whose last argument has content has three arguments on the second pass |
| InArrayStrictFixer.TrailingCommaRescan | wordpress/scripts/in-array-strict-fixer.php:135-171 | a rewritten call with a trailing comma counts four arguments on the second pass, three of them separated by top-level commas |
| InArrayStrictFixer.TrailingCommaAsWritten | wordpress/scripts/in-array-strict-fixer.php:167-171 | `in_array($a, $b,)` becomes `in_array($a, $b,, true)` as written |
| InArrayStrictFixer.StrictFixed | wordpress/scripts/in-array-strict-fixer.php:162-176 | the corrected rule matches exactly where the as-written rule does, and ends at the same index |
| InArrayStrictFixer.StrictFixedRescan | wordpress/scripts/in-array-strict-fixer.php:162-176 | the corrected rewrite, once retokenized, has exactly three arguments with content, and a second pass declines it |
| InArrayStrictFixer.StrictFixedAgrees | wordpress/scripts/in-array-strict-fixer.php:145 | without a trailing comma the corrected rule is the as-written rule |
| InArrayStrictFixer.TrailingCommaCorrected | wordpress/scripts/in-array-strict-fixer.php:167-171 | under the corrected rule, `in_array($a, $b,)` becomes `in_array($a, $b, true)` |
| InArrayStrictFixer.IgnoresWhatPrecedes | wordpress/scripts/in-array-strict-fixer.php:79 | no preceding-token check: the rule's verdict does not depend on the tokens before the name |
| SafeRedirectFixer.SafeRedirect | wordpress/scripts/safe-redirect-fixer.php:79-108 | `wp_redirect` is replaced by `wp_safe_redirect` exactly when it is followed by `(` and is standalone; one token, five characters longer |
| SafeRedirectFixer.PlainCallRenamed | wordpress/scripts/safe-redirect-fixer.php:81-86 | `wp_redirect ($url)` is renamed at its first token |
| SafeRedirectFixer.QualifiedCallKept | wordpress/scripts/safe-redirect-fixer.php:95-100 | `$o->wp_redirect(` and `Foo::wp_redirect(` are kept |
| SafeRedirectFixer.NullsafeCallRenamed | wordpress/scripts/safe-redirect-fixer.php:97 | as written, `$o?->wp_redirect(` is renamed, because `?->` is not among the qualifiers |
| SafeRedirectFixer.NullsafeCallKept | wordpress/scripts/safe-redirect-fixer.php:94-100 | under the corrected standalone test, `$o?->wp_redirect(` is kept like `$o->wp_redirect(` |
| EscapeI18nFixer.EscapeI18n | wordpress/scripts/lint/php-fixers/escape-i18n-fixer.php:59-89 | `_e` is replaced by `esc_html_e` exactly when it is followed by `(` and is standalone; one token, eight characters longer |
| EscapeI18nFixer.PlainCallRenamed | wordpress/scripts/lint/php-fixers/escape-i18n-fixer.php:61-66 | `_e ('x')` is renamed at its first token |
| EscapeI18nFixer.QualifiedCallKept | wordpress/scripts/lint/php-fixers/escape-i18n-fixer.php:76-81 | `$o->_e(` and `Foo::_e(` are kept |
| EscapeI18nFixer.NullsafeCallRenamed | wordpress/scripts/lint/php-fixers/escape-i18n-fixer.php:78 | as written, `$o?->_e(` is renamed, because `?->` is not among the qualifiers |
| EscapeI18nFixer.NullsafeCallKept | wordpress/scripts/lint/php-fixers/escape-i18n-fixer.php:75-81 | under the corrected standalone test, `$o?->_e(` is kept like `$o->_e(` |
| WpDieTranslateFixer.TryFixWpDie | wordpress/scripts/lint/php-fixers/wp-die-translate-fixer.php:59-80 | the nested lookahead computes `WpDie`, which ends at a `__` token after the name |
| WpDieTranslateFixer.CopyThrough | wordpress/scripts/lint/php-fixers/wp-die-translate-fixer.php:82-91 | the copy loop emits exactly the text of the tokens from `wp_die` up to `__` |
| WpDieTranslateFixer.WpDieMeaning | wordpress/scripts/lint/php-fixers/wp-die-translate-fixer.php:59-95 | a match has `wp_die ( __ (` with only whitespace between; the replacement is the text up to `__` followed by `esc_html__`, eight characters longer than the span |
| WpDieTranslateFixer.LayoutMatches | wordpress/scripts/lint/php-fixers/wp-die-translate-fixer.php:61-95 | conversely, `wp_die ( __ (` with only whitespace between always matches |
| WpDieTranslateFixer.IgnoresWhatPrecedes | wordpress/scripts/lint/php-fixers/wp-die-translate-fixer.php:59 | no standalone check: the verdict does not depend on the tokens before `wp_die` |
| WpDieTranslateFixer.SecondArgumentKept | wordpress/scripts/lint/php-fixers/wp-die-translate-fixer.php:68-73 | `wp_die($m, __('x'))` is left unchanged |
| WpDieTranslateFixer.FirstArgumentRewritten | wordpress/scripts/lint/php-fixers/wp-die-translate-fixer.php:82-95 | the rule at `wp_die( __('x') )` matches with replacement `wp_die( esc_html__`, ending at `__` |
| EchoTranslateFixer.EchoStep | wordpress/scripts/echo-translate-fixer.php:80-145 | one step: `__` is rewritten if and only if the flag is set and it is a standalone call; the output is `esc_html__` or the token's text; `echo` sets the flag; `;`, `{` and `}` clear it; whitespace, `.` and a `__` keep it; every other token clears it; only `echo` can raise it |
| EchoTranslateFixer.Step | wordpress/scripts/echo-translate-fixer.php:76-146 | the loop body, with its whitespace skips, computes `EchoStep` |
| EchoTranslateFixer.Rewrite | wordpress/scripts/echo-translate-fixer.php:76-146 | the scan loop computes `EchoScan` from index 0 with the flag clear |
| EchoTranslateFixer.ProcessFile | wordpress/scripts/echo-translate-fixer.php:59-153 | a failed read or tokenization gives 0 fixes and no write; otherwise the fixes are the scan's, and the file is written with the scan's text if and only if there was a fix |
| EchoTranslateFixer.FixesPerEcho | wordpress/scripts/echo-translate-fixer.php:116-142 | from any point, the fixes are at most the `echo` tokens ahead plus one for a pending flag |
| EchoTranslateFixer.FixesBoundedByEchos | wordpress/scripts/echo-translate-fixer.php:80-142 | each echo yields at most one fix |
| EchoTranslateFixer.EchoGrowth | wordpress/scripts/echo-translate-fixer.php:116-145 | the output is the input's length plus 8 per fix |
| EchoTranslateFixer.NoFixVerbatim | wordpress/scripts/echo-translate-fixer.php:144-145 | with no fix, the output is the input text verbatim |
| EchoTranslateFixer.NoEchoUnchanged | wordpress/scripts/echo-translate-fixer.php:80-85 | without an `echo` token nothing changes |
| EchoTranslateFixer.ConcatenatedCallKept | wordpress/scripts/echo-translate-fixer.php:134-142 | in `echo $a . __('x')`, the variable clears the flag, so nothing is rewritten |
| EchoTranslateFixer.DirectCallTail | wordpress/scripts/echo-translate-fixer.php:116-142 | in `echo __(`, `__` becomes `esc_html__` and the `(` clears the flag |
| Session.Dispatch | wordpress/scripts/yoda-fixer.php:83-84 | each fixer's candidate test and rule method compute `TryMatch` |
| Session.TryMatch | wordpress/scripts/yoda-fixer.php:84-87 | a match never ends before its own index and ends at most at the token count (the `in_array` rule can end there), so the loop resumes strictly after it, at most one past the last token |
| Session.MatchesAtCandidate | wordpress/scripts/lint/php-fixers/short-ternary-fixer.php:61 | a match starts only at the fixer's candidate token: a T_VARIABLE for the Yoda and short-ternary fixers (also yoda-fixer.php:83 and short-ternary-fixer.php:85-87), a T_STRING that lower-cases to `in_array` (in-array-strict-fixer.php:79), and exactly `wp_redirect`, `_e` or `wp_die` for the others |
| Session.VerdictAt | wordpress/scripts/in-array-strict-fixer.php:79-80 | the verdict computed at an index is the table entry for that index |
| Session.Rewrite | wordpress/scripts/yoda-fixer.php:79-95 | the main loop computes `Scan`: the replacement on a match, resuming after its end, and otherwise the token's text |
| Session.ProcessFile | wordpress/scripts/yoda-fixer.php:63-102 | a failed read or tokenization gives 0 fixes and no write; otherwise the fixes are the scan's, and the file is written with the scan's text if and only if there was a fix |
| Session.Progress | wordpress/scripts/yoda-fixer.php:84-90 | every match moves the index strictly forward, so the fixes never exceed the tokens left |
| Session.PassThrough | wordpress/scripts/lint/php-fixers/short-ternary-fixer.php:57-73 | there are no fixes if and only if no index matches, and then the output is the input text |
| Session.FirstMatch | wordpress/scripts/safe-redirect-fixer.php:75-114 | up to the first match the output is verbatim; then come the replacement and the scan from after the match, with one more fix |
| Session.NothingMatches | wordpress/scripts/lint/php-fixers/wp-die-translate-fixer.php:55-103 | when the rule matches nowhere, the output is the input text with 0 fixes |
| Session.DriveGrowth | wordpress/scripts/safe-redirect-fixer.php:102-113 | if every match grows its span by a fixed amount, the output length is the input's plus that amount per fix |
| Session.RenameLengths | wordpress/scripts/lint/php-fixers/escape-i18n-fixer.php:83-94 | output length = input length + 5 × fixes for the redirect fixer, and + 8 × fixes for the i18n and `wp_die` fixers |

## Left out

- Tokenization (`token_get_all`) is the input. Its failure, and a failed `file_get_contents`, are the `None` of `ProcessFile`'s parameter.
- The PHP-version test for the `T_NAME_*` kinds (wordpress/scripts/yoda-fixer.php:143-147) is fixed to PHP 8, where they are defined.
- File writes are modelled as the returned `written` text. Command-line handling, the summary `echo`s and exit codes are I/O and are not modelled.
- wordpress/scripts/lint/php-fixers/fixer-helpers.php (`fixer_process_path`) and the older fixers' directory walks are filesystem traversal. They are not part of this model.
- The second pass over an `in_array` rewrite takes, as a hypothesis, the retokenization of the appended text (`, true)` or ` true)`). The tokenizer itself is not modelled.
- Idempotence of the whole engine for every fixer is not stated. It is stated only for the `in_array` fixer's second pass, because it needs the tokenizer run on the output.
- EchoTranslateFixer.IsTranslateCall: the echo fixer's standalone check is modelled only as written. The `?->` mistake it shares with the rename fixers is recorded under the rename fixers.

## Findings

| source | as written | input that shows it | evidently intended | confidence | as-written member | corrected member |
|---|---|---|---|---|---|---|
| wordpress/scripts/yoda-fixer.php:195-233, 282 | the subscript loop consumes the inline whitespace after the left side before it breaks, so `ws_after_left` is always empty and the space before the operator is lost | `$x === 'foo'` gives `'foo'=== $x` | restore the position at the break ("restore position and break"), giving `'foo' === $x` | not executed | YodaFixer.SwapDropsSpaceBeforeOperator | YodaFixer.RestoringSwapKeepsText |
| wordpress/scripts/lint/php-fixers/short-ternary-fixer.php:106-148, 187 | the subscript loop consumes the whitespace before `?`, so `ws_before_op` is always empty | `$a ?: $b` gives `$a? $a : $b` | keep the whitespace before `?`, giving `$a ? $a : $b` | not executed | ShortTernaryFixer.ExpandDropsSpaceBeforeOperator | ShortTernaryFixer.RestoringExpandExample |
| wordpress/scripts/lint/php-fixers/short-ternary-fixer.php:7, 113-126, 206-234 | the doc comment promises only simple variable cases, to avoid evaluating a call twice, but `capture_brackets` takes any tokens between `[` and `]`, and the `(` test looks only outside the brackets | `$arr[foo()] ?: $d` gives `$arr[foo()]? $arr[foo()] : $d`, which calls `foo` twice | decline a subscript that holds a call | not executed | ShortTernaryFixer.SubscriptCallDuplicated | ShortTernaryFixer.CorrectedCopiesNoCall |
| wordpress/scripts/in-array-strict-fixer.php:140-145, 167-171 | with a trailing comma the last segment is empty, yet the count is still 2, and `, true)` is appended after the comma | `in_array($a, $b,)` gives `in_array($a, $b,, true)`, which is a syntax error | append ` true)` after a trailing comma, giving `in_array($a, $b, true)` | not executed | InArrayStrictFixer.TrailingCommaAsWritten | InArrayStrictFixer.TrailingCommaCorrected |
| wordpress/scripts/safe-redirect-fixer.php:97 | the standalone test rejects T_STRING, `->` and `::` but not `?->` | `$o?->wp_redirect(` gives `$o?->wp_safe_redirect(` | treat `?->` as a qualifier like `->`, leaving the method call alone | not executed | SafeRedirectFixer.NullsafeCallRenamed | SafeRedirectFixer.NullsafeCallKept |
| wordpress/scripts/lint/php-fixers/escape-i18n-fixer.php:78 | the standalone test rejects T_STRING, `->` and `::` but not `?->` | `$o?->_e(` gives `$o?->esc_html_e(` | treat `?->` as a qualifier like `->`, leaving the method call alone | not executed | EscapeI18nFixer.NullsafeCallRenamed | EscapeI18nFixer.NullsafeCallKept |

The Yoda fixer shares the subscript capture (wordpress/scripts/yoda-fixer.php:298-328),
so `$arr[foo()] === 'x'` becomes `'x'=== $arr[foo()]`. This is not a finding.
The replacement holds the left side once (`YodaFixer.RestoringSwapKeepsText`
states it is a rearrangement of the covered tokens). The only operand moved
past the left side is a simple literal, which has no effects. So the call
still runs exactly once. The Yoda policy therefore accepts calls inside
subscripts, in both readings.
