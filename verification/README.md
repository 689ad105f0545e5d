# JSONLint interactions: the error-line locator, in Dafny

This project models the part of JSONLint's browser interaction layer
(`c/js/jsl.interactions.js`) that is logic rather than DOM glue:

- `getNthPos`, which sums the lengths of the pieces of `text.split("\n")`
  plus one per separator to find where a line starts;
- the handling of a parse error in `validate`: the line number is read from
  the parser's message (`/line ([0-9]*)/` and `parseInt`), turned into
  `lineStart` (via `getNthPos`) and `lineEnd` (via `indexOf("\n", lineStart)`),
  and handed to the caret helper;
- the `reformat` / `compress` flags that `init` derives from the `reformat`
  query parameter, the title variant it announces, and which rendering
  `validate` leaves in the input box after a successful parse;
- the "looks like a URL" test of the Validate and Minify click handlers
  (`$.trim`, `substring(0, 4)`, `toLowerCase()`, compared with `"http"`).

Everything is a pure function over `string` (`seq<char>`) and `int`. The
JavaScript primitives the code relies on (`split` and `indexOf` with a
one-character argument, `trim`, ASCII `toLowerCase`, `substring`, `parseInt`
on a digit run) are modelled explicitly in `JsString` and `LineNumber`.
`NaN` is `Option.None`; a missing match is a `NoMatch` constructor.

Modules: `Wrappers` (Option), `JsString` (string primitives, `Split`/`Join`
round trips, `Trim`), `Locator` (`getNthPos`), `LineNumber` (reading the
number from the message), `Selection` (`lineStart`/`lineEnd`), `Options`
(flags, title, output), `UrlInput` (the `http` test).

Where the code and its description disagree, the model follows the code:

- The doc-comment of `getNthPos` calls the result "the position of the
  character found". The code returns the offset one past the pos-th
  separator, which is where the next line starts.
- `getNthPos` does not return -1 as soon as `pos` exceeds the number of
  separators: `pos == count + 1` gives `|text| + 1`, and only larger values
  give -1.

## Model

| member | source | states |
|---|---|---|
| Locator.GetNthPos | c/js/jsl.interactions.js:61-80 | the loop of `getNthPos` (including its `pos === 0` early return and its -1 exit) computes exactly the reference offset `NthPos` for every string, separator and position |
| Locator.NthPosMeaning | c/js/jsl.interactions.js:61-80 | `pos <= 0` gives 0; for `1 <= pos <= count(sep)` the result `r` is one past the pos-th separator (`s[r-1] == sep` with exactly `pos-1` separators before it); `pos == count+1` gives the length of `s` plus one; the result is negative, and then -1, exactly when `pos > count+1` |
| Locator.NthPosIncreasing | c/js/jsl.interactions.js:70-79 | over `0..count(sep)+1` the offset is strictly increasing in `pos` |
| Locator.NthPos | c/js/jsl.interactions.js:61-80 | the reference definition of `getNthPos`; what it returns is stated by `Locator.NthPosMeaning`, `Locator.NthPosSkipsPieces` and `Locator.NthPosIncreasing`, and `Locator.GetNthPos` is proved to compute it |
| Locator.NthPosSkipsPieces | c/js/jsl.interactions.js:64-79 | for `1 <= pos <= count + 1`, the text before position `result - 1` is exactly the first `pos` pieces of the split joined again, so the result is where piece `pos + 1` starts |
| JsString.SplitProperties | c/js/jsl.interactions.js:64 | `split` on one character yields `count + 1` pieces, none containing the separator, and joining them with the separator gives the string back |
| JsString.SplitJoin | c/js/jsl.interactions.js:64 | conversely, splitting a join of separator-free pieces gives the same pieces |
| JsString.IndexOf | c/js/jsl.interactions.js:163-166 | `indexOf(c, from)` clamps `from` into `[0, length]` and returns the first index at or after it holding `c`, or -1 exactly when there is none |
| JsString.TrimStart | c/js/jsl.interactions.js:223 | drops exactly the leading run of white space: the result is a suffix of the input, every dropped character is white space, and the result does not start with white space |
| JsString.TrimEnd | c/js/jsl.interactions.js:223 | drops exactly the trailing run of white space: the result is a prefix of the input, every dropped character is white space, and the result does not end with white space; `Trim` (what `$.trim` computes) is `TrimEnd` after `TrimStart` |
| JsString.TrimIgnoresPadding | c/js/jsl.interactions.js:223 | trimming ignores any white space added before and after the value |
| LineNumber.ExtractLineNumber | c/js/jsl.interactions.js:153-154 | the message yields no line number (no caret move) exactly when `"line "` does not occur in it |
| LineNumber.ExtractFromMessage | c/js/jsl.interactions.js:153-155 | for a message whose first `"line "` is followed by the digits `d` and then a non-digit, the line number is `parseInt(d)`, NaN when `d` is empty |
| LineNumber.ExtractReportedLine | c/js/jsl.interactions.js:153-155 | a message `"... line N..."` with N written in decimal yields N |
| LineNumber.DigitRun | c/js/jsl.interactions.js:153 | the digits taken are the longest run of ASCII digits right after the marker |
| LineNumber.ShowNatParses | c/js/jsl.interactions.js:155 | `parseInt` of a decimal numeral gives its number back |
| LineNumber.LeadingZeroIgnored | c/js/jsl.interactions.js:155 | leading zeros do not change the parsed line number: `parseInt("0" + d, 10)` equals `parseInt(d, 10)` for a non-empty digit run `d` |
| Selection.LineStart | c/js/jsl.interactions.js:157-161 | `lineStart`: 0 for line 1 (and for NaN), otherwise `getNthPos(text, "\n", lineNum - 1)`; `Selection.LineBoundaries` states that in range it is 0 or just after the (lineNum-1)-th newline, `Selection.FirstLineFallback` and `Selection.BeyondLastLine` cover the other line numbers |
| Selection.LineEnd | c/js/jsl.interactions.js:163-166 | `lineEnd` is at least the clamped start and at most `text.length`, and is a newline unless it is `text.length`; `Selection.LineEndFacts` adds that no newline lies between the clamped start and it |
| Selection.LineRange | c/js/jsl.interactions.js:157-166 | the `(lineStart, lineEnd)` pair; `Selection.SelectsLine` states that for an in-range line number it spans exactly that line of the text |
| Selection.ErrorSelection | c/js/jsl.interactions.js:153-168 | a caret range is chosen exactly when the message contains `"line "` |
| Selection.SelectsLine | c/js/jsl.interactions.js:157-166 | for `1 <= lineNum <= count("\n") + 1`, `0 <= lineStart <= lineEnd <= text.length` and `text[lineStart..lineEnd]` is the newline-free lineNum-th piece of `text.split("\n")` |
| Selection.LineBoundaries | c/js/jsl.interactions.js:157-166 | that range starts at 0 or right after a newline, with exactly `lineNum - 1` newlines before it, and ends at a newline or at the end of the text |
| Selection.LineEndFacts | c/js/jsl.interactions.js:163-166 | `lineEnd` lies between the clamped start and `text.length`, is a newline unless it is `text.length`, and no newline lies between the clamped start and it |
| Selection.FirstLineFallback | c/js/jsl.interactions.js:155-161 | a NaN line number, line 0 and line 1 select the same range, starting at 0 |
| Selection.BeyondLastLine | c/js/jsl.interactions.js:157-166 | line `count + 2` selects `(text.length + 1, text.length)`, a start past the end; any later line gets start -1 and the end of the first line |
| Selection.ErrorSelectsReportedLine | c/js/jsl.interactions.js:153-168 | end to end: a message reporting line N (within the text) in the form `"... line N..."` selects exactly the N-th line |
| Selection.EmptyRunSelectsFirstLine | c/js/jsl.interactions.js:153-166 | a `"line "` followed by no digit selects the first line |
| Options.FlagsOf | c/js/jsl.interactions.js:207-209 | `compress` implies `reformat`; an absent parameter gives `reformat` on and `compress` off |
| Options.HeaderOf | c/js/jsl.interactions.js:212-218 | the title `init` leaves: Compressor when compressing, overwritten by Lite when not reformatting; `Options.ParameterCases` states which parameter values give which title and that the two writes never both happen |
| Options.WritesAfterValid | c/js/jsl.interactions.js:126-132 | the writes to the input box after a successful parse, indented first then compact; `Options.OutputAfterValid` states the writes and the value that remains for each parameter value |
| Options.ParameterCases | c/js/jsl.interactions.js:207-218 | `"compress"` sets both flags and the Compressor title, `"0"` and `"no"` clear both and give the Lite title, any other value reformats only; the two title writes never both happen |
| Options.ApplyWrites | c/js/jsl.interactions.js:126-132 | after a series of writes to the input box, the last write is what remains |
| Options.OutputAfterValid | c/js/jsl.interactions.js:126-132 | after a successful parse, `"compress"` writes the indented then the compact rendering and the compact one remains; `"0"`/`"no"` write nothing and leave the input; any other value writes only the indented rendering, which remains |
| UrlInput.LooksLikeUrl | c/js/jsl.interactions.js:223-225 | input is treated as a URL exactly when its trimmed form has at least four characters and they are h, t, t, p in either case |
| UrlInput.UrlTestIgnoresPadding | c/js/jsl.interactions.js:240-241 | white space around the input does not change the decision |
| UrlInput.SchemeCaseIgnored | c/js/jsl.interactions.js:223-225 | input that starts with any mix of cases of `http` (such as `HTTP://x.org`, with or without trailing white space or line breaks) is treated as a URL |

## Left out

- The caret helper `$.fn.caret` (lines 9-38): browser selection APIs and focus. The model stops at the `(lineStart, lineEnd)` pair passed to it, so whatever the browser does with a start past the end or a negative start is not modelled.
- `getURLParameter` (lines 88-95): it reads `location.search` through a regular expression and `decodeURIComponent`. The parameter value is an input of `Options.FlagsOf` instead (`None` for an absent parameter).
- `minify` and its whitespace-stripping regular expression (lines 185-199): the regular expression's lookahead semantics would need a regex-engine model.
- The recovery step of `validate` (lines 143-151): it calls the external formatter and parser again and picks the text and message that reach the locator. The model takes that text and message as inputs.
- The parser, the formatter and `JSON.parse`/`JSON.stringify` are external code. The two renderings are opaque string inputs of `Options.ValueAfterValid`.
- The `$.post` to `proxy.php` and its callback (lines 226-229, 242-245): network I/O. Only the decision to fetch is modelled.
- `hideAlertBox`, `displaySuccess`, `displayError`, the `alert` for a falsy parse result, event binding, `linedtextarea`, `slideToggle` and the title HTML: DOM work. Only the choice of title variant is modelled.
- Locator.GetNthPos: models a one-character separator only, since the one call passes `"\n"`; `split` and `getNthPos` with longer separators are not modelled.
- LineNumber.ExtractLineNumber: line numbers are unbounded naturals. `parseInt` loses precision above 2^53, so digit runs that long are not modelled faithfully.
- UrlInput.LooksLikeUrl: lower-casing is modelled on ASCII letters only. No non-ASCII character lower-cases to `h`, `t` or `p`, so the comparison with `"http"` is not affected.
- Strings are sequences of Unicode characters, while JavaScript lengths and offsets count UTF-16 code units. The offsets agree only when the text has no characters outside the Basic Multilingual Plane.
- White space for `trim` is the ECMAScript 5.1 set (WhiteSpace and LineTerminator). Older jQuery fallbacks that use a regular expression are not modelled.
