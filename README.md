# ohmyglob, modelled in Dafny

A model of the core of ohmyglob, a Go library that compiles shell-style glob patterns
(`?`, `*`, `**`, a configurable path separator, `!` negation) into regular expressions and
resolves ordered sets of globs with a last-match-wins rule. The model covers four parts:

- `utils.dfy` (module `Utils`): `escapeRegexComponent`, the `separatorsScanner` split function
  and `EscapeGlobComponent`.
- `tokeniser.dfy` (module `Tokeniser`): the pull-style `globTokeniser` over a rune reader, with
  its `parse`, `Scan`, `Err` and `Token`.
- `glob.dfy` (module `Glob`): `Compile` up to the call into the regex engine, `parseNegation`,
  `parseComponent`, `String` and `IsNegative`; `glob_properties.dfy` (module `GlobProperties`)
  holds the properties of the regex text that `Compile` produces.
- `globset.dfy` (module `GlobSet`): `MatchingGlob`, `Match`, `MatchString`, `String`,
  `NewGlobSet` and `CompileGlobSet`.

`options.dfy` holds `Options`, `DefaultOptions`, the expanders `?` and `*` and the escaper `\`.
`wrappers.dfy` holds the `Option` and `Result` types, which stand for Go's nil pointers and
`(value, error)` pairs.

The code that changes state is written as imperative Dafny.
- The tokeniser and its reader are classes whose methods update their fields.
- The compiler's `parserState` and `globImpl` are classes. `Compile`, `parseComponent` and
  `parseNegation` append to the regex buffer and toggle flags in loops.
- `separatorsScanner` and `EscapeGlobComponent` are loops.
- The glob-set operations loop over sequences, and `NewGlobSet` and `CompileGlobSet` fill arrays.

Each method is proved equal to a specification function: `SplitStep`, `EscapeGlob`, `NextToken`,
`CompileSpec`, `LastMatching` or `CompileAll`. The lemmas then prove what the library promises
about those functions.

The regex engine is not modelled.
- A compiled `Glob` carries its regex text.
- That text is described by a small `Fragment` datatype and its rendering.
- A glob set takes the engine as a function from regex text and bytes to a verdict.

Strings are sequences of runes. A split function is applied to the whole input at end of file,
which is how `bufio.Scanner` drives it once all input has arrived.

Some behaviours of the code differ from what its comments or tests expect. The model follows
the code in each case:
- `Compile` splits the pattern with `separatorsScanner` (glob.go:142-156) and does not use the
  tokeniser, so compiled patterns have no escaping. The tests at glob_test.go:196-217 expect
  backslash escapes to work in compiled globs.
- The separator check (glob.go:108-114) rejects only `?` and `*`. The test at
  glob_test.go:190-193 expects `\` to be rejected too.
- A glob's own `Match` is the embedded regexp's verdict (glob.go:67) and ignores the negation
  flag, as glob_test.go:155 says. Negation acts only through a glob set.
- A trailing unpaired escaper makes the tokeniser stop without a token (tokeniser.go:103-127).
  It is not a literal.
- `parseNegation` counts every `!` in the pattern, not only the leading ones (glob.go:180-188).
  The doc comment at glob.go:61 speaks of a pattern "prefixed with !". `Glob.Compile`, and so every glob set, models the
  code as written. `Glob.CompileIntended` is the prefix reading (see Findings).
- globset.go:79-82 names `CompileGlob` and `GlobOptions`, which the files shown do not define.
  These are taken to be `Compile` and `Options` from glob.go.

## Model

| member | source | states |
|---|---|---|
| Utils.EscapeRegexRoundTrip | utils.go:11-21 | The escaped text is quoted: a backslash stands before exactly the characters of the class at line 11, and every other character is copied. Removing those backslashes gives the input back. |
| Utils.QuotedIsEscaped | utils.go:19-21 | Every quoted text is the escape of its unescaping, so escaping is a bijection onto quoted texts. |
| Utils.EscapeRegexComponent | utils.go:19-21 | The output is at least as long as the input and at most twice as long. |
| Utils.SplitStep | utils.go:26-60 | No token means advance 0. A token is the non-empty prefix `data[..advance]`. At EOF with data left there is always a token. |
| Utils.SplitStepShape | utils.go:28-59 | Empty data at EOF gives (0, none). There is no token exactly at empty EOF, or before EOF when data has no delimiter. Data starting with a delimiter gives that one delimiter with advance 1. Otherwise the token is the maximal delimiter-free run, and it reaches the end of data only at EOF. |
| Utils.FirstDelimiterIsFirst | utils.go:39-51 | The scan stops at the first delimiter: no rune before it is a delimiter, and the rune there is one. |
| Utils.SetOfMembers | utils.go:32-36 | The lookup map built from the separators holds exactly the separators. |
| Utils.SeparatorsScanner | utils.go:26-60 | The loop's (advance, token) equals `SplitStep` over the set of the separators. |
| Utils.SplitAllConcat | utils.go:23-25 | Splitting a whole input repeatedly gives tokens whose concatenation is the input. |
| Utils.SplitAllTokens | utils.go:39-56 | Every token is a single delimiter or a non-empty delimiter-free run, and a run is always followed by a delimiter token. |
| Utils.SplitAllRun | utils.go:39-56 | A delimiter-free run splits into itself alone. |
| Utils.FirstDelimiterPrefix | utils.go:39-51 | Text appended after a delimiter does not move the first delimiter. |
| Utils.SplitStepPrefix | utils.go:39-56 | Text appended after a delimiter does not change the first step. |
| Utils.SplitAllAtDelimiter | utils.go:39-56 | A delimiter cuts the split: the tokens of x, then the delimiter alone, then the tokens of y. |
| Utils.SplitAllLeadingDelimiter | utils.go:42-45 | A leading delimiter is the first token on its own. |
| Utils.SplitAllTrailingDelimiter | utils.go:42-49 | A trailing delimiter is the last token on its own. |
| Utils.SplitAllJoin | utils.go:39-56 | Two texts joined at a delimiter split into the tokens of each, in order. |
| Utils.EscapeGlob | utils.go:70-89 | The escaped text is at least as long as the input and at most twice as long. |
| Utils.EscapeGlobAppend | utils.go:83-89 | Escaping distributes over concatenation. |
| Utils.EscapeGlobRoundTrip | utils.go:70-89 | Exactly one escaper stands before each `?`, `*`, separator and escaper, and the other runes are copied. Removing the escapers gives the input back. |
| Utils.EscapedGlobIsEscape | utils.go:70-89 | Every correctly escaped text is the escape of its unescaping. |
| Utils.EscapeGlobUnchanged | utils.go:70-89 | A string comes back unchanged exactly when it has no rune that needs escaping. |
| Utils.EscapeGlobToken | utils.go:83-88 | For each scanner token, the loop's "escaper if the token is a rune to escape, then the token" equals `EscapeGlob` of the token. |
| Utils.EscapeScannedToken | utils.go:80-89 | One scanner step consumes the token from the data and extends the escape of what was consumed by that token's escape. |
| Utils.LookupSet | utils.go:75-78 | The map holds exactly the one-rune strings of the runes to escape. |
| Utils.EscapeGlobComponent | utils.go:65-92 | The result is `EscapeGlob` of the component with the options' separator, or with `/` when the options are nil. |
| Tokeniser.RuneClass | tokeniser.go:60-77 | The class of one rune, in the order of the switch: escaper, `*`, `?`, the separator, and Literal otherwise. The `*` to GlobStar promotion is left to `Consume`. Its property is `Tokeniser.RuneClassLiteral`. |
| Tokeniser.RuneClassLiteral | tokeniser.go:60-77 | A rune is classed as Literal exactly when `EscapeGlobComponent` would leave it unescaped. |
| Tokeniser.RuneReader.constructor | tokeniser.go:29 | A fresh reader over the runes starts at position 0. |
| Tokeniser.RuneReader.ReadRune | tokeniser.go:55 | Reads the next rune and advances. At the end it reports EOF, or the reader's own error, and stays put. |
| Tokeniser.RuneReader.UnreadRune | tokeniser.go:87 | Steps back one rune. |
| Tokeniser.LiteralEnd | tokeniser.go:85-89 | The end of a Literal run is the first rune of another class, or the end of input. |
| Tokeniser.Consume | tokeniser.go:52-113 | One consumer pass either ends in an error with an empty token and unknown type, or yields the non-empty slice it read with a known type. An escaper token arises only when not already escaped, and is one rune long. |
| Tokeniser.NextToken | tokeniser.go:103-127 | The result of `parse` after re-parsing past escapers is an error at end of input with the token cleared, or a non-empty token that is neither unknown nor an escaper. |
| Tokeniser.ConsumeShape | tokeniser.go:60-100 | GlobStar is exactly `**`. Star is exactly `*`, with no `*` after it. Any is `?`. Separator is the separator rune and Escaper is the escaper. A Literal holds only Literal runes and stops before the first rune of another class. The type is Literal exactly when escaped or the first rune is Literal. |
| Tokeniser.NextTokenShape | tokeniser.go:64-122 | A yielded token is the input slice after any escaper. It has the shape its type demands, holds no escaper after its first rune, and is not a literal escaper unless escaped. Without a failing reader, an error comes only at end of input or after a trailing unpaired escaper. |
| Tokeniser.EscapedRuneIsLiteral | tokeniser.go:79-83 | The rune after an escaper starts a Literal token, whatever its own class, and the escaper is not part of it. |
| Tokeniser.TrailingEscaperYieldsNothing | tokeniser.go:103-122 | A trailing unpaired escaper yields no token: the reader reaches the end and the error is the end-of-input error. |
| Tokeniser.EndOfInputIsSticky | tokeniser.go:133-142 | Once `parse` fails at the end of input, every later call fails the same way at the same place. |
| Tokeniser.GlobStarIsStandalone | tokeniser.go:64-70 | Two stars make one GlobStar token, and reading stops right after them. |
| Tokeniser.LoneStar | tokeniser.go:64-70 | A star not followed by a star is a Star token of its own. |
| Tokeniser.GlobStarTokens | tokeniser.go:64-70 | In the token stream, two stars become one `**` token and scanning resumes after them. |
| Tokeniser.LoneStarTokens | tokeniser.go:64-70 | In the token stream, a lone star becomes one `*` token. |
| Tokeniser.StarRunTokens | tokeniser.go:64-70 | A run of 2k stars, plus one more when the run is odd, gives k GlobStar tokens followed by one Star token for the odd case. |
| Tokeniser.NextTokenUnescape | tokeniser.go:79-122 | One Scan accounts exactly for its token in the unescaped input. |
| Tokeniser.TokensSpellUnescapedInput | tokeniser.go:79-122 | The yielded tokens concatenate to the input with every escaping escaper removed. |
| Tokeniser.EscapedTextTokensAreLiterals | tokeniser.go:79-89 | Tokenising a correctly escaped text yields only Literal tokens. |
| Tokeniser.EscapedComponentTokenisesToLiterals | utils.go:63-64 | Tokenising `EscapeGlobComponent(s)` with the same separator yields only Literal tokens, and they concatenate to s: a literal match. |
| Tokeniser.GlobTokeniser.constructor | tokeniser.go:36-41 | A new tokeniser has an empty token, unknown type and no stored error. |
| Tokeniser.GlobTokeniser.Consumer | tokeniser.go:52-106 | The consumer loop's buffer, type and read error, finished as `parse` finishes them, equal `Consume` from the reader's old position. |
| Tokeniser.GlobTokeniser.Parse | tokeniser.go:44-128 | The new token, type, reader position and returned error are those of `NextToken`, and the stored error is unchanged. |
| Tokeniser.GlobTokeniser.Scan | tokeniser.go:133-142 | The state is that of `NextToken`. Scan returns true exactly when there was no error, and it stores the error unless it was EOF. |
| Tokeniser.GlobTokeniser.Err | tokeniser.go:145-147 | The stored error is never EOF. |
| Tokeniser.GlobTokeniser.Token | tokeniser.go:149-151 | The current token is never an escaper, and its type is unknown exactly when the token is empty. |
| Glob.Glob.String | glob.go:94-96 | The accessor for the pattern the glob was compiled from. `GlobProperties.CompiledGlobKeepsPattern` states that this is the trimmed pattern. |
| Glob.Glob.IsNegative | glob.go:98-100 | The accessor for the negation flag. `GlobProperties.CompiledGlobKeepsPattern` states what Compile stores there. |
| Glob.Glob.Match | glob.go:67 | The embedded regexp's verdict on the bytes: the engine applied to the glob's regex text. The negation flag plays no part. |
| Glob.TrimSpace | glob.go:105 | strings.TrimSpace: the result is no longer than the input. `Glob.TrimSpaceSlice` gives its full meaning. |
| Glob.TrimSpaceNoSpace | glob.go:105 | A string that neither starts nor ends with white space is returned unchanged. |
| Glob.TrimSpaceSlice | glob.go:105 | The trimmed pattern is the slice of the input between a white-space prefix and a white-space suffix, and it neither starts nor ends with white space. |
| Glob.TrimSpaceIdempotent | glob.go:105 | Trimming twice is trimming once. |
| Glob.LeadingSpacesAreSpaces | glob.go:105 | The counted prefix is white space, and the rune after it is not. |
| Glob.TrailingSpacesAreSpaces | glob.go:105 | The counted suffix is white space, and the rune before it is not. |
| Glob.RenderAllAppend | glob.go:193-238 | The text of a fragment sequence is the concatenation of the texts of its parts. |
| Glob.LeadingBangs | glob.go:175-189 | The count of leading `!` runes: all of them are `!`, and the rune after them is not. |
| Glob.NegationSplitsPrefix | glob.go:175-189 | The corrected negation splits the pattern into a run of k `!` runes and a rest that does not start with `!`, and it is negated exactly when k is odd. |
| Glob.NegationAgreesOnLeadingBangs | glob.go:180-188 | When every `!` of the pattern is leading, the code as written and the corrected reading agree. |
| Glob.CountBangsLeading | glob.go:180-186 | When all `!` runes are leading, the count of `!` runes in any prefix that covers them is the leading count. |
| Glob.CountBangsAllBangs | glob.go:180-186 | A run of `!` runes is counted in full. |
| Glob.NegationAsWrittenCounterexample | glob.go:180-188 | For `a!b`, the code as written is negated and leaves `!b`. The corrected reading is not negated and leaves `a!b`. |
| Glob.ParseNegation | glob.go:175-189 | As written: toggles `negated` once per `!` anywhere in the pattern and drops that many leading runes. |
| Glob.ParseLeadingNegation | glob.go:175-189 | Corrected: toggles `negated` once per leading `!` and drops exactly that prefix. |
| Glob.CompileSpecSuccess | glob.go:104-173 | With an acceptable separator, the glob holds the trimmed pattern, the negation parseNegation computes as written, and the regex text of what parseNegation leaves. |
| Glob.CompileIntended | glob.go:104-173 | Compile with the negation read as a prefix. It fails exactly when `CompileSpec` fails, with the same error. On success it keeps the trimmed pattern and is negated exactly when the pattern starts with an odd number of `!`. |
| Glob.CompileAgreesOnLeadingBangs | glob.go:133-188 | When every `!` of the trimmed pattern is leading, compiling as written and as intended give the same result. |
| Glob.CompileAsWrittenCounterexample | glob.go:133-188 | With nil options, `a!b` compiles as written to a negated glob whose regex is built from `!b`. As intended it compiles to a glob that is not negated, built from `a!b`. |
| Glob.ParserState.constructor | glob.go:121-126 | A fresh parser state has an empty buffer, the globstar flag clear, and the given options and escaped separator. |
| Glob.GlobImpl.constructor | glob.go:117-127 | A fresh glob holds the pattern and the parser state and is not negated. |
| Glob.ScannerStep | glob.go:142-145 | A scanner step at EOF takes its token off the front of the split. |
| Glob.PartFragmentsAppend | glob.go:224-238 | One more scanned part adds its fragment at the end. |
| Glob.SplitSnoc | glob.go:224-225 | The parts taken so far plus the split of the remaining data give the split of the component. |
| Glob.RenderPartsSnoc | glob.go:226-237 | Writing one more part's text extends the buffer by that part's fragment. |
| Glob.ExpandComponent | glob.go:220-238 | The mixed-component loop appends the rendering of its parts, split at `?` and `*`, and leaves the globstar flag alone. |
| Glob.RenderAllOne | glob.go:193-243 | A single fragment renders as itself. |
| Glob.RenderLead | glob.go:202-218 | The leading separator fragment renders as the escaped separator when the scanner index is not 0, and as nothing at index 0. |
| Glob.ParseComponent | glob.go:191-243 | The buffer grows by the rendering of the component's fragments. These are a globstar group unless the previous component was a globstar, `[^sep]+` for `*`, or the expanded parts, each after the separator unless first. The flag records whether the component was `**`. |
| Glob.BodyOfSnoc | glob.go:144-156 | A separator-only token adds nothing. Any other token adds its component fragments at its scanner index and sets the globstar flag. |
| Glob.BodyStep | glob.go:147-155 | Parsing a non-separator component extends the written text exactly as `BodyOf` extends the fragment sequence. |
| Glob.ParseComponents | glob.go:142-156 | The scanner loop appends the rendering of `BodyOf` of the pattern's split, and keeps the same parser state. |
| Glob.Compile | glob.go:104-173 | The method returns `CompileSpec`. That is the separator error for an expander separator. Otherwise it is a glob with the trimmed pattern, the parity of all its `!` runes, and `^`, then the body of what parseNegation leaves, then `$`, as the options say. |
| GlobProperties.CompileRejectsExpanderSeparator | glob.go:106-115 | Compiling fails exactly when options are given and their separator is `?` or `*`, and the error names that separator. |
| GlobProperties.NilOptionsUseDefaults | glob.go:106-108 | Nil options compile as `DefaultOptions` and never fail. |
| GlobProperties.CompiledGlobKeepsPattern | glob.go:94-100 | `String()` of a compiled glob is the trimmed pattern, `!` runes included, and `IsNegative()` is the parity of all its `!` runes, wherever they stand. |
| GlobProperties.CompiledGlobLeadingNegation | glob.go:133-188 | When every `!` of the trimmed pattern is leading, the glob is negative exactly when there is an odd number of them, and its regex text is built from the pattern after them. |
| GlobProperties.RenderAllNoCaret | glob.go:191-238 | No fragment text starts with `^`. |
| GlobProperties.EscapedSeparatorNoCaret | glob.go:125 | The escaped separator is non-empty and does not start with `^`. |
| GlobProperties.RegexStartsWithCaretIff | glob.go:129-131 | The regex text starts with `^` exactly when `MatchAtStart` is set. |
| GlobProperties.AnchorsWrapTheBody | glob.go:129-160 | `MatchAtStart` puts one `^` in front of the same text, and `MatchAtEnd` puts one `$` after it. |
| GlobProperties.BodyFrom | glob.go:144-156 | A front-to-back reading of Compile's loop, used as an independent reference for `BodyOf`. |
| GlobProperties.ComponentIndexOnlyFirst | glob.go:202-218 | A component's fragments depend on its scanner index only through whether it is 0. |
| GlobProperties.BodyOfThenBodyFrom | glob.go:144-156 | Reading a prefix back to front and the rest front to back gives the same fragments. |
| GlobProperties.BodyOfIsBodyFrom | glob.go:144-156 | The back-to-front and front-to-back readings of the loop agree. |
| GlobProperties.RegexTextFromTheFront | glob.go:129-160 | The regex text is the anchors around the front-to-back reading. |
| GlobProperties.SeparatorTokensCollapse | glob.go:147-150 | Two separator tokens in a row emit what one does. |
| GlobProperties.SeparatorRunsCollapse | glob.go:144-152 | A doubled separator in the pattern compiles to the same regex text as a single one. |
| GlobProperties.TrailingSeparatorIgnored | glob.go:147-150 | A trailing separator emits nothing. |
| GlobProperties.GlobStarTokensCollapse | glob.go:195-207 | `**`, separator, `**` emits what one `**` does, because skipped separators do not reset the globstar flag. |
| GlobProperties.SplitAroundGlobStar | glob.go:142-145 | A `**` bounded by separators or the ends of the pattern is a token of its own. |
| GlobProperties.SplitAroundGlobStarPair | glob.go:142-145 | `**/**` bounded by separators splits into `**`, the separator and `**`. |
| GlobProperties.GlobStarsCollapse | glob.go:195-207 | `x/**/**/y` compiles to the same regex text as `x/**/y`. |
| GlobProperties.ExpandRunesAppend | glob.go:221-238 | The rune-by-rune expansion distributes over concatenation. |
| GlobProperties.QuotedRunExpands | glob.go:235-236 | A run without expanders is quoted rune by rune. |
| GlobProperties.PartExpandsRunes | glob.go:226-237 | Each scanned part renders as its rune-by-rune expansion. |
| GlobProperties.RenderPartsCons | glob.go:224-238 | A part in front adds its text in front. |
| GlobProperties.MixedComponentExpandsRunes | glob.go:221-238 | A mixed component renders rune by rune: `?` as `[^sep]`, `*` as `[^sep]*`, and every other rune through `escapeRegexComponent`. |
| GlobProperties.ComponentText | glob.go:195-238 | A component's text is one of three things. `**` gives `(?:` + lead + `.+` + `)?`, or nothing after a globstar. `*` gives lead + `[^sep]+`. Otherwise it is lead + the rune-by-rune expansion. Lead is the escaped separator, except at scanner index 0. |
| GlobSet.Join | globset.go:28 | strings.Join: the elements with the separator between neighbours. Its properties are `GlobSet.JoinEmpty`, `GlobSet.JoinSnoc` and `GlobSet.JoinLength`. |
| GlobSet.JoinEmpty | globset.go:28 | Joining no patterns gives the empty string. |
| GlobSet.JoinSnoc | globset.go:28 | One more pattern adds `", "` and the pattern at the end, or is the whole text when it is the first. |
| GlobSet.JoinLength | globset.go:28 | The joined length is the patterns' lengths plus one separator between each pair. |
| GlobSet.Patterns | globset.go:24-27 | One pattern per glob, in order, each being that glob's `String()`. |
| GlobSet.String | globset.go:23-29 | The text is the globs' patterns, in order, joined by `", "`. |
| GlobSet.MatchingGlob | globset.go:31-42 | The descending loop returns `LastMatching`. |
| GlobSet.LastMatchingIsHighest | globset.go:31-42 | There is no result exactly when no glob matches. Otherwise the result is the glob at the highest index whose regex matches. |
| GlobSet.Match | globset.go:44-47 | The set matches exactly when the deciding glob exists and is not negated. |
| GlobSet.SetMatchesIff | globset.go:44-47 | The set matches exactly when some non-negated glob matches and no later glob matches. |
| GlobSet.EmptySetMatchesNothing | globset.go:44-47 | An empty set never matches. |
| GlobSet.LastMatchWins | globset.go:31-37 | A matching glob appended at the end decides, whatever precedes it. |
| GlobSet.NonMatchingGlobIsNeutral | globset.go:31-39 | A glob appended at the end that does not match leaves the verdict as it was. |
| GlobSet.LaterNegationVetoes | globset.go:33-37 | A matching negated glob with no later match decides, so the set does not match. |
| GlobSet.MatchString | globset.go:65-67 | `MatchString(s)` is the set's verdict on the UTF-8 bytes of s. |
| GlobSet.EncodeRune | globset.go:66 | A rune encodes to one to four bytes. |
| GlobSet.EncodeRuneIsUtf8 | globset.go:66 | The first byte gives the length of the encoding, the rest are continuation bytes, and decoding gives the rune back. |
| GlobSet.Utf8Encode | globset.go:66 | A string of n runes encodes to between n and 4n bytes. |
| GlobSet.Utf8EncodeAppend | globset.go:66 | Encoding distributes over concatenation. |
| GlobSet.Utf8EncodeAscii | globset.go:66 | An ASCII string encodes byte for byte. |
| GlobSet.NewGlobSet | globset.go:70-76 | The set holds the given globs, same length and same order. |
| GlobSet.CollectSplit | globset.go:81-89 | Collecting results after a successful prefix appends the values or returns the first later error. |
| GlobSet.CollectStep | globset.go:81-87 | One loop step: a failing result is the final error, and a success extends the compiled globs. |
| GlobSet.CollectMeaning | globset.go:79-90 | On success there is one value per result, in order. On failure the error is that of the first failing result, and all results before it succeeded. |
| GlobSet.CompileEachAt | globset.go:82 | The i-th result is the compilation of the i-th pattern. |
| GlobSet.CompileEachPrefix | globset.go:81-87 | Compiling a prefix of the patterns gives the same prefix of results. |
| GlobSet.CompileAllStep | globset.go:81-87 | After i patterns compiled, pattern i either fails the set with its error or adds its glob. |
| GlobSet.CompileGlobSet | globset.go:79-90 | The method returns `CompileAll`: the first compile error, or every pattern's glob in pattern order. |
| GlobSet.CompileAllMeaning | globset.go:79-90 | On success every pattern has one glob, in order. On failure some pattern failed with the returned error, and every pattern before it compiled. |
| GlobSet.CompileAllFailsOnlyOnSeparator | globset.go:79-90 | Because every pattern shares the options, a set fails exactly when it has a pattern and the given separator is an expander. |

## Left out

- Logging through seelog (`Logger`, `Tracef`, `Debugf`) is process-wide I/O and has no effect on results.
- `regexp.Compile`, the embedded `*regexp.Regexp` and `regexp.ReplaceAllString` are left out, since the regex engine is external. The model produces regex text. `escapeRegexComponent` is the per-character map that its character class describes. `Compile`'s error path after `regexp.Compile` is left out, on the assumption that the engine accepts the generated text.
- A glob's own `Match` is the engine's verdict on its regex text. The engine is a parameter of the model, not a definition.
- `MatchReader` (globset.go:49-63) is left out because it drains an `io.RuneReader`. Note that it turns each rune into one byte with a truncating `byte(rn)`, while `MatchString` passes the UTF-8 bytes of the string. So the two disagree on every non-ASCII rune: U+00E9 becomes the byte E9 in one and the bytes C3 A9 in the other. It also returns false on a read error.
- `bufio.Scanner` chunking and UTF-8 decoding are left out. Inputs are rune sequences, split functions see all remaining input at EOF, and `advance` counts runes rather than bytes.
- The not-at-EOF case of the split function is modelled by `SplitStep`, but no caller in the model drives it with partial data.
- The byte slicing `pattern[negations:]` in parseNegation is modelled on runes. It agrees with the bytes whenever the dropped runes are ASCII. When a dropped rune is not ASCII, the Go slice can cut through a rune's encoding, and the model does not capture that.
- The unused global `runesToEscape` and its `init` (utils.go:12-16) are left out.
- The `error` results of `parseNegation`, `parseComponent` and `NewGlobSet` are always nil, so the model drops them.
- The tokeniser's `globOptions` is taken to be non-nil, as none of the code shown builds a tokeniser with nil options.
- Peek and lookahead operations and `AllMatchingGlobs` are exercised by the tests but do not appear in this source, so they are not part of this model.
- `Escaper` is not defined in the files shown. It is taken to be `\`, the rune the tests use.

## Findings

| source | as written | input that shows it | evidently intended | confidence | as-written member | corrected member |
|---|---|---|---|---|---|---|
| glob.go:180-188 | `parseNegation` toggles the negation for every `!` anywhere in the pattern and then drops that many leading bytes | `a!b` compiles as negated, and the regex is built from `!b` | only leading `!` runes toggle the negation, and exactly that prefix is dropped (a negation prefix) | not executed | Glob.ParseNegation, Glob.CompileAsWrittenCounterexample | Glob.ParseLeadingNegation, Glob.CompileIntended |
