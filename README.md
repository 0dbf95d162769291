# neutron, modelled in Dafny

neutron is a vulnerability scanner driven by probe documents ("POCs"). A probe lists
HTTP requests as named rules, each with a CEL expression that judges the response, an
optional regular expression whose named groups become variables, and a top-level
expression that combines the rule verdicts. The repository holds two engines for the
same document format, and this project models the core of both.

The Rust engine (`src/`):

- poc.rs: the document, with its deserialisation defaults (`PocModel`).
- cel.rs: the expression environment (`Cel`, `CelRuntime`). It covers the
  variables, the response and the verdict cache, the textual preprocessor that
  rewrites probe syntax into plain CEL, the custom functions, and rule execution
  with output extraction.
- template.rs: `{{name}}` rendering of requests and details (`Template`).
- runner.rs: the driver (`Runner`). It extracts the rule calls of the top-level
  expression, runs the rules with the `&&` short cut, and runs the payload loop.

The Go engine:

- build/poc.go: placeholder filling of rules, deep copies and the `set` bindings (`GoBuild`).
- scanner/scanner.go: the scan loop over rules and rule groups (`GoScanner`).
- library/decode/function.go: the custom CEL overloads (`GoFunctions`).
- library/decode/compile.go and library/decode/evaluate.go: variable declarations
  and regular-expression bindings (`GoDecode`). Both files define `UpdateCompileOptions`
  and `Search` with the same code, so one model covers both; the rows below cite
  compile.go.
- library/proto/response.go: the response header map (`GoProto`).
- library/utils/random.go and structure.go: random strings and sorted map keys (`GoUtils`).

Shared modules:

- `Base`: Option, Result, and the iteration order of hash maps.
- `Text`: substring search, ASCII case, white space and decimal text.
- `Rewrite`: the fixed regular expressions of the preprocessor and renderers,
  written out.
- `Values`: the CEL values the Rust engine inspects.
- `Utf8`, `Base64`, `UrlEscape`: the parts of Go's standard library that the overloads
  call (rune conversion, section 4 of RFC 4648, and sections 2.1 and 2.3 of RFC 3986).

Whatever lies outside these files is a parameter of the model:

- compiling and running CEL (`CelEngine`, `GoEval`);
- the regular-expression engines (`RegexEngine`, `GoRegexp`, `GoRegex`);
- sending a request (`Dispatch`, `Network`);
- the order in which a hash map is walked (`KeyOrder`, or an explicit enumeration
  of the keys);
- the random generator (a sequence of `Int63` words, or `roll` for `rand.Intn`).

Operations that change state in place are classes or methods. They are proved
against specification functions:

- `CelRuntime.CelEnv` and `Runner.PocRunner` on the Rust side;
- `GoBuild.PocRule`, `GoBuild.PocEvent` and `GoScanner.Scanner` on the Go side;
- the loops of `GoProto.ParseHeaders`, `GoUtils.RandomStr` (over an `array<char>`)
  and `GoUtils.SortMapKeys`.

## Model

| member | source | states |
|---|---|---|
| Base.EnumerationLength | src/cel.rs:269 | a sequence that lists every key of a map exactly once has as many entries as the map has keys; every map loop of the engines is modelled over such an enumeration |
| Text.IndexOf | src/cel.rs:270-273 | the search for a literal returns -1 or a position at or after the start where the literal occurs, and no earlier such position has it; the scan that `str::replace` makes |
| Text.FindChar | library/proto/response.go:23 | the first position at or after the start holding the character, or -1 when no later position holds it |
| Text.ToLower | library/proto/response.go:27 | the lowered text has the same length and each character is that character with an ASCII capital turned into its small letter |
| Text.TrimStart | src/runner.rs:226 | the result is a suffix of the input that does not start with white space, and everything cut off is white space |
| Text.TrimEnd | src/runner.rs:226 | the result is a prefix of the input that does not end with white space, and everything cut off is white space |
| Text.Trim | library/proto/response.go:27 | the trimmed text is empty or neither starts nor ends with white space |
| Text.TrimWithin | src/cel.rs:456 | trimming introduces no character that the input lacks |
| Text.TrimUntrimmed | src/cel.rs:456 | text that neither starts nor ends with white space is left unchanged by trimming |
| Text.NatToString | src/cel.rs:461 | the decimal text of a natural number is non-empty and made of digits only |
| Text.ParseNatToString | src/cel.rs:461 | reading the decimal text of a number back gives the number |
| Text.NatToStringInjective | src/cel.rs:430 | different numbers have different decimal texts, so numbered capture groups bind different variables |
| Text.Split | library/proto/response.go:21 | splitting at a non-empty separator gives at least one piece |
| Text.JoinSplit | library/proto/response.go:21 | joining the pieces with the separator gives back the text |
| Text.SplitPiecesLackSeparator | library/proto/response.go:21 | no piece contains the separator |
| Text.SplitAtChar | src/cel.rs:468 | a separator whose first occurrence follows `a` splits off `a` as the first piece and splits the rest on its own |
| Text.SplitWithoutChar | src/cel.rs:468 | text without the separator is one piece |
| Text.SplitAny | src/runner.rs:225 | splitting at a set of delimiter characters gives at least one piece and no piece holds a delimiter |
| Text.SplitAnyConcat | src/runner.rs:225 | text joined at one delimiter splits into the pieces of its two sides, in order |
| Text.SplitAnyNone | src/runner.rs:225 | text free of delimiters is one piece |
| Rewrite.LazyCloseParen | src/cel.rs:298 | the end of a lazy `(.+?)\)` group is -1 or the first `)` after the group's first character, with no newline between the group's start and it |
| Rewrite.MatchMethodCall | src/cel.rs:298 | a match of `([^\.]+)\.NAME\((.+?)\)` at the start of the text is non-empty, fits in the text and has two groups |
| Rewrite.MatchBytesCall | src/cel.rs:323 | a match of the `bcontains(b"…")` pattern is non-empty, fits in the text and has two groups |
| Rewrite.MatchQuotedMatches | src/cel.rs:332 | a match of the `"…".matches(…)` pattern is non-empty, fits in the text and has two groups |
| Rewrite.MatchHeaderIndex | src/cel.rs:341 | a match of `response\.headers\["([^"]*)"\]` is non-empty, fits in the text and has one group |
| Rewrite.MatchHeaderMembership | src/cel.rs:351 | a match of `"([^"]*)" in response\.headers` is non-empty, fits in the text and has one group |
| Rewrite.MatchPlaceholder | src/template.rs:18 | a match of `\{\{([^}]+)\}\}` is non-empty, fits in the text and has one group |
| Rewrite.MatchAt | src/cel.rs:298-357 | every pattern's match at the start of a text consumes at least one character and no more than the text, so a left-to-right replacement scan always advances |
| Rewrite.MatcherOf | src/cel.rs:299-303 | the matcher of any pattern always advances |
| Rewrite.ReplaceAllIsScan | src/cel.rs:299-303 | `replace_all` with a pattern is the generic left-to-right replacement scan over that pattern's matcher |
| Rewrite.NoMatchUnchanged | src/template.rs:21-36 | text where the pattern matches at no position comes back unchanged, whatever the replacement |
| Rewrite.MatchReplaced | src/cel.rs:299-303 | where the pattern matches at the start, the output starts with the replacement built from the groups and scanning resumes right after the match |
| Rewrite.CopyFirst | src/cel.rs:299-303 | where the pattern does not match at the start, the first character is copied and scanning resumes at the next one |
| Rewrite.UnmatchedPrefix | src/cel.rs:299-303 | a prefix at none of whose positions the pattern matches is copied verbatim |
| Rewrite.ReplaceAllIsSplitJoin | src/cel.rs:270-273 | `str::replace` of a non-empty literal equals splitting at the literal and joining with the replacement |
| Rewrite.ReplaceFirst | src/cel.rs:279 | the first occurrence of the literal is replaced, the text before it kept and the rest processed after it, so occurrences never overlap |
| Rewrite.ReplaceAbsent | src/cel.rs:279 | a literal that does not occur leaves the text unchanged |
| Rewrite.ReplaceBySelf | src/cel.rs:279 | replacing a literal by itself leaves the text unchanged |
| Rewrite.ReplaceCharacter | src/cel.rs:344 | after replacing a character every character of the result comes from the input other than that character, or from the replacement |
| Rewrite.NoPlaceholderWithoutBraces | src/template.rs:18 | text without `{{` holds no placeholder |
| Rewrite.PlaceholderMatch | src/template.rs:18 | `{{name}}` with a non-empty name free of `}` matches exactly, whatever follows, with the name as its group |
| Values.Display | src/template.rs:24-28 | a string value displays as its own text |
| Values.DisplayNat | src/template.rs:26 | a non-negative integer displays as its decimal text, which reads back as the integer |
| PocModel.AsI64 | src/cel.rs:81 | a YAML number is read as an integer exactly when it is an integer within the signed 64-bit range, and then it is that integer |
| PocModel.DecodeRequest | src/poc.rs:6-38 | a deserialised request takes every field present in the document; absent fields default to method, path and body empty, no headers, caching on, redirects off and a 10 second timeout |
| PocModel.DefaultRequest | src/poc.rs:6 | the derived default request does not cache, does not follow redirects, has a zero timeout and empty method, path, body and headers |
| PocModel.DecodeRuleRequest | src/poc.rs:41-45 | a rule without `request` gets the derived default request, and one with a `request` map gets that map decoded with the field defaults |
| PocModel.AbsentAndEmptyRequestDiffer | src/poc.rs:6-15 | an absent `request` and an empty `request` map give different requests: only the empty map caches |
| PocModel.ParseTransport | src/poc.rs:53-64 | a transport name is accepted exactly when it is `HTTP`, `TCP` or `UDP` in upper or lower case, each naming its transport |
| PocModel.DecodeTransport | src/poc.rs:66-70 | an absent transport is HTTP and a present one is parsed by name |
| PocModel.TransportRoundTrip | src/poc.rs:53-64 | parsing the name a transport is written with gives the transport back |
| PocModel.DecodePayloads | src/poc.rs:122-130 | absent payload fields default to not continuing after a hit and no payloads |
| Template.Substitute | src/template.rs:21-34 | the replacement of one `{{name}}` match: the bound variable's text, or the match itself when the name is unbound (`RenderPlaceholder`, `RenderMissing`) |
| Template.RenderTemplate | src/template.rs:16-37 | `render_template`: every `{{name}}` match, leftmost first, replaced as `Substitute` says (`RenderWithoutPlaceholder`, `RenderPlaceholder`, `RenderExample`) |
| Template.RenderWithoutPlaceholder | src/template.rs:16-37 | text without `{{` renders to itself |
| Template.RenderPlainPrefix | src/template.rs:16-37 | a prefix without `{` is copied and the rest rendered after it |
| Template.RenderPlaceholder | src/template.rs:21-34 | `{{name}}` renders as the variable's text when the name is bound and stays as written when it is not, and rendering goes on after it |
| Template.RenderMissing | src/template.rs:31-34 | a placeholder with an unbound name renders to itself |
| Template.RenderOnePlaceholder | src/template.rs:16-37 | a placeholder between a text without `{` and a text without `{{` renders as those texts around the bound value's text, or around the placeholder itself when the name is unbound |
| Template.RenderExample | src/template.rs:10-15 | the documented example: `Hello, {{name}}!` (written as `Hello, ` + `{{name}}` + `!`) with `name` bound to the string `World` renders as `Hello, ` + `World` + `!`, that is `Hello, World!` |
| Template.RenderedHeaders | src/template.rs:53-58 | the header map rebuilt by inserting each rendered name with its rendered value in iteration order (`RenderedHeadersKeys`, `RenderedHeadersSize`, `RenderedHeadersLastWins`) |
| Template.RenderedRequest | src/template.rs:45-59 | the rendered request: path and body rendered, headers rebuilt, other fields kept (met by `RenderRequest`) |
| Template.RenderedDetail | src/template.rs:67-87 | the rendered detail: match text and version rendered when non-empty, custom fields rendered, the rest kept (met by `RenderDetail`) |
| Template.RenderHeaders | src/template.rs:53-58 | the header loop yields exactly the headers that inserting the rendered name and value of each key, in iteration order, produces |
| Template.RenderRequest | src/template.rs:45-59 | path and body are rendered, method, caching, redirects and timeout are kept, the headers are the rendered ones, and there are no more headers than before |
| Template.RenderedHeadersKeys | src/template.rs:54-57 | a header name is present after rendering exactly when it is the rendering of some original name |
| Template.RenderedHeadersSize | src/template.rs:54-57 | rendering never adds headers; names that render alike merge |
| Template.RenderedHeadersLastWins | src/template.rs:54-57 | when names render alike, the value is the rendered value of the last such name in iteration order |
| Template.RenderedFields | src/template.rs:79-86 | rendering the custom fields keeps their names |
| Template.RenderFields | src/template.rs:79-86 | the custom-field loop yields each field's rendered value under its own name |
| Template.RenderDetail | src/template.rs:67-87 | the match text and the fingerprint version are rendered only when non-empty, every custom field keeps its name and gets its rendered value, and nothing else changes |
| Cel.DashToUnderscore | src/cel.rs:175 | the result has the input's length, no `-`, and each character is the input's with `-` turned into `_` |
| Cel.ReplaceDash | src/cel.rs:175 | `replace("-", "_")` turns each `-` into `_` and keeps every other character |
| Cel.FlatHeaderShape | src/cel.rs:175 | a header becomes the variable `response_headers_` plus its lowered name with `-` as `_`; the name has no `-` and no capitals, and names differing only in case give the same variable |
| Cel.HeaderBindingsLastWins | src/cel.rs:174-177 | when several headers flatten to one variable, it holds the value of the last one in iteration order |
| Cel.HeaderBindingsKeys | src/cel.rs:174-177 | every header variable comes from some header |
| Cel.ContextOf | src/cel.rs:104-178 | `create_context`: the variables, overridden by the flat response fields, overridden by the flattened header variables in iteration order (`ContextHeader`, `HeaderBindingsLastWins`) |
| Cel.ContextHeader | src/cel.rs:104-178 | a header whose flattened name no other header shares is bound in the context to its value |
| Cel.SubstituteStep | src/cel.rs:269-274 | substituting one cached verdict replaces every `name()` with `true` or `false`, and afterwards no piece of the text contains `name()` |
| Cel.UncachedCallsUntouched | src/cel.rs:269-274 | cached names whose calls do not occur leave the expression unchanged |
| Cel.SuffixNameInterferes | src/cel.rs:269-274 | a cached rule `b` rewrites inside the longer call `ab()`, giving `atrue` |
| Cel.ReplaceEachAbsent | src/cel.rs:279-294 | field accessors that do not occur leave the expression unchanged |
| Cel.AccessorsNeedDot | src/cel.rs:279-294 | an expression without `.` is left unchanged by the accessor rewrites |
| Cel.ReplaceWhole | src/cel.rs:279 | replacing a whole non-empty text by something gives that something |
| Cel.SecondRewriteWins | src/cel.rs:279-294 | when one accessor rewrite turns the whole expression into text lacking a character that every later accessor literal contains, the later rewrites leave it alone |
| Cel.BodyStringAccessor | src/cel.rs:280-284 | `response.body_string` becomes `response_body_string`: the rewrite of `response.body`, which comes later, does not break it |
| Cel.Preprocess | src/cel.rs:265-360 | `preprocess_expression`: cached verdicts substituted in iteration order, then the accessor rewrites, then the five syntax rewrites (met by `CelEnv.PreprocessExpression`) |
| Cel.MethodCallMatch | src/cel.rs:298 | `x.NAME(y)` with `x` free of `.` and `y` free of `)` and newlines matches with `x` and `y` as groups, ending at the first `)` |
| Cel.MethodCallText | src/cel.rs:298 | the layout of `x.NAME(y)rest`: where the dot, the parenthesis and the closing `)` are and which slices are `x`, `y` and `rest` |
| Cel.MethodCallAt | src/cel.rs:298 | a text with a non-empty dot-free prefix, `.NAME(`, and then a first `)` with no newline before it matches with the prefix and the argument as groups |
| Cel.LazyCloseAt | src/cel.rs:298 | the lazy group ends at the first `)` when no newline comes before it |
| Cel.RewriteMethodCall | src/cel.rs:297-303 | `x.NAME(y)` is rewritten to `FNAME(x, y)` and rewriting continues after it |
| Cel.ContainsTakesLeftOperand | src/cel.rs:298 | in `a && b.contains(c)` the receiver group takes `a && b`, since `[^\.]+` stops only at a dot |
| Cel.RewriteBytesCall | src/cel.rs:321-328 | `x.bcontains(b"y")` becomes `contains(x, "y")` and rewriting continues after it |
| Cel.BytesCallText | src/cel.rs:323 | the layout of `x.bcontains(b"y")rest`: where the quotes and the closing `)` are and which slices are `x`, `y` and `rest` |
| Cel.BytesCallAt | src/cel.rs:323 | a text with a dot-free prefix, `.bcontains(b"`, a quote-free argument and `")` matches with the prefix and the argument as groups |
| Cel.RewriteQuotedMatches | src/cel.rs:330-337 | `"p".matches(y)` becomes `contains(y, "p")`, the operands swapped, and rewriting continues after it |
| Cel.QuotedMatchesText | src/cel.rs:332 | the layout of `"p".matches(y)rest`: where the quotes and the closing `)` are and which slices are `p`, `y` and `rest` |
| Cel.QuotedMatchesAt | src/cel.rs:332 | a quoted pattern followed by `.matches(` and a first `)` with no newline before it matches with the pattern and the argument as groups |
| Cel.RewriteHeaderIndex | src/cel.rs:339-347 | `response.headers["H"]` becomes the flattened header variable of `H` |
| Cel.RewriteHeaderMembership | src/cel.rs:349-357 | `"H" in response.headers` becomes `response_headers_h != ""` |
| Cel.CallCustomFunction | src/cel.rs:184-245 | `call_custom_function`: `contains`, `starts_with`, `ends_with`, `matches` and `bcontains` with their arity and type errors, and the unsupported-function error (`CustomContains` through `CustomBContains`) |
| Cel.CustomContains | src/cel.rs:186-195 | `contains` of two strings succeeds and is true exactly when the second occurs in the first |
| Cel.CustomStartsWith | src/cel.rs:196-205 | `starts_with` of two strings is true exactly when the first is the second followed by something |
| Cel.CustomEndsWith | src/cel.rs:206-215 | `ends_with` of two strings is true exactly when the first is something followed by the second |
| Cel.CustomMatches | src/cel.rs:216-228 | `matches` reports a pattern that does not compile as an error with the engine's message, and otherwise whether the pattern matches |
| Cel.CustomFunctionErrors | src/cel.rs:184-245 | other than two arguments is an error; non-string arguments give the argument-type error; an unknown name gives the unsupported-function error naming it |
| Cel.CustomBContains | src/cel.rs:229-243 | `bcontains` gives true exactly when the second operand's bytes occur in the first's (byte strings as they are, strings by their UTF-8 encoding), so a string that occurs in a string is found, and a string paired with bytes is rejected |
| Cel.EncodedOccurs | src/cel.rs:236-241 | a string that occurs in another still occurs in it once both are UTF-8 encoded |
| CelRuntime.SetBindings | src/cel.rs:74-88 | the variables `set` binds are among its keys |
| CelRuntime.InitBindsScalars | src/cel.rs:76-87 | a string entry is bound as a string, a boolean as a boolean, an integer within 64 bits as an integer, and any other entry leaves the variable as it was |
| CelRuntime.PayloadBindings | src/cel.rs:91-96 | a payload binds each of its keys to its value as a string, and nothing else |
| CelRuntime.BindSet | src/cel.rs:76-87 | the `set` loop adds exactly the scalar bindings of the document's variables, overriding earlier ones |
| CelRuntime.BindPayload | src/cel.rs:92-95 | the payload loop adds exactly the payload's bindings |
| CelRuntime.CopyVariables | src/cel.rs:108-110 | the context starts with every variable under its own name |
| CelRuntime.AddHeaders | src/cel.rs:174-177 | the header loop adds the flattened header variables in iteration order |
| CelRuntime.OutputLookup | src/cel.rs:456-486 | what a trimmed placeholder name renders as: a bound variable's text; for `response.status`, `response.body_string`, `response.headers.H` and `response.url.path` the response's field (an absent header as ""); anything else the placeholder itself (`OutputResponseField`, `OutputResponseHeader`, `OutputUnknown`) |
| CelRuntime.OutputWithoutPlaceholder | src/cel.rs:451-490 | an output value without `{{` is stored as written |
| CelRuntime.OutputPlaceholder | src/cel.rs:455-487 | in an output value, `{{name}}` is replaced by the lookup of the trimmed name and rendering goes on after it |
| CelRuntime.SplitAccessor | src/cel.rs:468 | `response.f` with `f` free of dots splits into two parts |
| CelRuntime.SplitAccessor2 | src/cel.rs:468 | `response.f.g` with dot-free parts splits into three |
| CelRuntime.OutputResponseField | src/cel.rs:466-483 | an unbound `response.status` gives the status in decimal, `response.body_string` the body text, and any other two-part name stays as a placeholder |
| CelRuntime.OutputResponseHeader | src/cel.rs:473-480 | an unbound `response.headers.H` gives the header's value or the empty text when it is absent; `response.url.path` gives the URL path |
| CelRuntime.OutputUnknown | src/cel.rs:484-486 | an unbound name outside `response.` stays as a placeholder |
| CelRuntime.GroupByNameUnique | src/cel.rs:417-418 | a group name that occurs once finds the text of that group |
| CelRuntime.NumberedBinds | src/cel.rs:427-433 | every number 1 or more whose group took part binds the variable named by its decimal text to the group's text |
| CelRuntime.NatToStringDistinct | src/cel.rs:430 | different group numbers bind different variables |
| CelRuntime.NumberedKeeps | src/cel.rs:427-433 | a variable that no group number names keeps its binding or its absence |
| CelRuntime.NamedBinds | src/cel.rs:417-424 | a named group that took part binds its name to its text |
| CelRuntime.NamedKeeps | src/cel.rs:417-424 | a variable that no group name names keeps its binding or its absence |
| CelRuntime.CapturesBind | src/cel.rs:415-434 | after one `search` match, each numbered group that took part is bound to its text, named groups likewise unless a number overrides them, and every other variable is as before |
| CelRuntime.BindCaptureGroups | src/cel.rs:417-434 | the two capture loops bind the named groups and then the numbered ones, exactly as specified |
| CelRuntime.OutputStep | src/cel.rs:408-444 | one output entry: `search` is compiled and matched against the body text, a compile error failing, no match changing nothing, a match binding the captures; any other key binds its rendered value (`CapturesBind`, `OutputsFailOnlyOnPattern`) |
| CelRuntime.ApplyOutputs | src/cel.rs:407-447 | the output entries in iteration order, stopping at the first error with the bindings made before it (`OutputsFailOnlyOnPattern`, `OutputsWithoutSearch`) |
| CelRuntime.OutputsFailOnlyOnPattern | src/cel.rs:406-448 | output extraction can only fail on a `search` key whose pattern does not compile, with the compile-error message |
| CelRuntime.OutputsWithoutSearch | src/cel.rs:439-444 | without `search` extraction cannot fail, leaves the other variables alone and stores a value free of `{{` as written |
| CelRuntime.EvaluateSpec | src/cel.rs:249-262 | `evaluate`: the preprocessed expression compiled and run against the context, each failure tagged with its stage (met by `CelEnv.Evaluate`) |
| CelRuntime.Reported | src/cel.rs:256-261 | an evaluation succeeds exactly when CEL compiled and ran, with the value it gave |
| CelRuntime.RuleOutcome | src/cel.rs:383-402 | what `execute_rule` does with an evaluation: an error passes through, a non-boolean is an error, a boolean is cached and a true verdict with outputs runs extraction (`RuleOutcomeEffects`, `RuleOutcomeOutputError`) |
| CelRuntime.AsciiPreviewSafe | src/cel.rs:379-383 | the byte-sliced debug preview of an ASCII body never ends inside a character, so it never panics |
| CelRuntime.PreviewPanicExample | src/cel.rs:379-383 | the body `a` followed by seventeen `中` makes the preview end inside the last character, where Rust panics |
| CelRuntime.ExecuteRuleSpec | src/cel.rs:363-403 | `execute_rule`: the response is replaced, the expression preprocessed and evaluated, and the outcome handled as `RuleOutcome` says (met by `CelEnv.ExecuteRule`) |
| CelRuntime.PocVerdictSpec | src/cel.rs:493-514 | `evaluate_poc_expression`: the cached verdicts substituted into the top-level expression, which is evaluated and must give a boolean, else `POC 表达式结果不是布尔值` (met by `CelEnv.EvaluatePocExpression`) |
| CelRuntime.RuleOutcomeEffects | src/cel.rs:386-402 | the response is the new one; a boolean verdict is cached under the rule's name; a failed or non-boolean evaluation changes nothing and reports its own error; false caches false and returns it; without outputs the variables are untouched; a successful step returns the evaluated boolean |
| CelRuntime.RuleOutcomeOutputError | src/cel.rs:395-400 | a true verdict stays cached even when extraction fails, and that failure comes from a `search` pattern |
| CelRuntime.CelEnv.constructor | src/cel.rs:69-71 | a new environment has no variables, the default response and no cached verdicts |
| CelRuntime.CelEnv.InitFromPoc | src/cel.rs:74-88 | the variables gain the document's scalar `set` entries; response and cache are untouched |
| CelRuntime.CelEnv.UpdateFromPayload | src/cel.rs:91-96 | the variables gain the payload's entries as strings; response and cache are untouched |
| CelRuntime.CelEnv.UpdateResponse | src/cel.rs:99-101 | only the response changes, to the given one |
| CelRuntime.CelEnv.CreateContext | src/cel.rs:104-178 | the context is the variables, then the flat response fields, then the header variables |
| CelRuntime.CelEnv.PreprocessExpression | src/cel.rs:265-360 | cached verdicts are substituted, then the accessor rewrites, then the five syntax rewrites, in the source's order |
| CelRuntime.CelEnv.Evaluate | src/cel.rs:249-262 | the preprocessed expression is compiled and run against the context, and a compile or run failure is reported with its stage |
| CelRuntime.CelEnv.ProcessRuleOutput | src/cel.rs:406-448 | the outputs are applied key by key in iteration order, stopping at the first error; response and cache are untouched |
| CelRuntime.CelEnv.ExecuteRule | src/cel.rs:363-403 | the new state and result are those of the rule step: new response, double preprocessing, verdict cached, outputs only on true |
| CelRuntime.CelEnv.ConcludeRule | src/cel.rs:386-402 | the state and result after an evaluation are those its outcome determines |
| CelRuntime.CelEnv.EvaluatePocExpression | src/cel.rs:493-514 | the verdicts are substituted into the top-level expression, which is evaluated and must give a boolean |
| Runner.ExtractRuleCalls | src/runner.rs:221-242 | the pieces of the expression between delimiters, trimmed and kept when they look like rule names, in order |
| Runner.TokensStep | src/runner.rs:225-239 | one more piece contributes its own token, if any, at the end |
| Runner.TokensAppend | src/runner.rs:225-239 | the tokens of joined piece lists are the tokens of each list, in order |
| Runner.ExtractedConcat | src/runner.rs:225 | an expression joined at a delimiter calls the rules of its two sides, in order |
| Runner.ExtractedName | src/runner.rs:227-238 | a bare rule name calls just that rule |
| Runner.ExtractedEmpty | src/runner.rs:221-242 | the empty expression calls nothing |
| Runner.ExtractedDelim | src/runner.rs:225 | a leading delimiter adds no call |
| Runner.ExtractedCall | src/runner.rs:225-238 | `name()` followed by anything calls the rule and then the rest's rules |
| Runner.ExtractedAnd | src/runner.rs:225-235 | ` && ` adds no call |
| Runner.ExtractedConjunction | src/runner.rs:221-242 | `a() && b()` calls `a` and then `b` |
| Runner.TokensOfShape | src/runner.rs:225-238 | every kept token is a name and holds no delimiter |
| Runner.ExtractedShape | src/runner.rs:227-236 | every extracted name is non-empty, does not start with a quote, is not `true` or `false`, and holds no delimiter and no operator |
| Runner.CollectedOutputSpec | src/runner.rs:137-155 | a key is in the output exactly when it is a string variable or the rendered match text is non-empty and it is `match_info`; the match text overrides a `match_info` variable |
| Runner.CollectStrings | src/runner.rs:137-143 | the loop collects exactly the string-valued variables |
| Runner.EngineOfImplements | src/cel.rs:363-514 | the package of the environment's rule step and verdict meets its specification |
| Runner.ShortCut | src/runner.rs:114-117 | the early exit fires exactly on a false verdict when the expression contains `name()` and `&&` anywhere |
| Runner.RuleRun | src/runner.rs:99-125 | one rule call: an undefined rule is the error `规则 X 不存在`; otherwise the rule's copy is rendered, dispatched and executed, errors pass through, and a short cut stops with `规则 X 执行失败` (its outcomes in `RuleRunOutcome`) |
| Runner.RulesFrom | src/runner.rs:99-160 | the rules of a call list one after the other until one stops the run, then the concluded top-level verdict (properties in `RulesFromFailure`, `RulesFromSuccess`, `RulesFromDefined`) |
| Runner.RunRulesSpec | src/runner.rs:91-161 | `run_rules`: the rules the top-level expression calls, in extraction order, then its verdict (met by `PocRunner.RunRules`) |
| Runner.RuleRunOutcome | src/runner.rs:99-125 | a rule stops the run only with an error or with a failure that has no output, and a rule that lets the run continue is defined |
| Runner.ConcludeOutcome | src/runner.rs:128-160 | the run succeeds exactly when the verdict is true; errors pass through; a failure has no output and the failure message; a success has the collected output and the success message |
| Runner.RulesFromFailure | src/runner.rs:91-161 | a failed run has no output |
| Runner.RulesFromSuccess | src/runner.rs:128-160 | a successful run has the success message and the output collected from the final variables |
| Runner.RulesFromDefined | src/runner.rs:99-126 | a run succeeds only when every rule it calls is defined |
| Runner.MissingRuleFails | src/runner.rs:123-125 | a call to an undefined rule makes the run fail or report an error |
| Runner.PayloadsFrom | src/runner.rs:54-86 | the payload loop: each payload runs with the variables restored after it; an error ends the loop; a hit ends it unless continuing; otherwise the last hit is kept (properties in `PayloadsRestore`, `PayloadsStop`, `PayloadsContinue`) |
| Runner.RunWithPayloadsSpec | src/runner.rs:47-88 | `run_with_payloads`: the payload loop over the payload sets in iteration order, starting from no hit (met by `PocRunner.RunWithPayloads`) |
| Runner.RunSpec | src/runner.rs:33-44 | `run`: a fresh environment from the document, then the payload loop when there are payloads and the rule loop otherwise (met by `PocRunner.Run`) |
| Runner.EntryRuns | src/runner.rs:54-79 | no more payloads run than there are |
| Runner.PayloadsRestore | src/runner.rs:55-65 | after a payload loop that ends without error the variables are those it started with |
| Runner.PayloadsError | src/runner.rs:62 | an error comes from a payload's run; when continuing after hits, it errs exactly when some payload's run errs, and otherwise all payloads run |
| Runner.PayloadsContinueFold | src/runner.rs:74-86 | when continuing, the result is the last successful payload's result, or the initial one, with the summary message |
| Runner.LastHitSuccess | src/runner.rs:74-79 | the kept result succeeds exactly when some payload succeeded or the initial result did |
| Runner.LastHitIsLast | src/runner.rs:74-79 | the kept result is that of the last successful payload, or the initial one when none succeeded |
| Runner.LastHitAt | src/runner.rs:74-79 | a successful payload after which none succeeds gives the kept result |
| Runner.LastHitNone | src/runner.rs:74-79 | with no successful payload the initial result is kept |
| Runner.PayloadsContinue | src/runner.rs:81-85 | when continuing, the run succeeds exactly when some payload succeeded, with the matching summary message |
| Runner.PayloadsContinueOutput | src/runner.rs:74-79 | when continuing, the output is that of the last successful payload, or the initial result's when none succeeded |
| Runner.PayloadsStop | src/runner.rs:67-72 | without continuing, a success is that of the first successful payload, every earlier one having failed, with a message naming the payload |
| Runner.PocRunner.constructor | src/runner.rs:28-30 | the runner holds the document |
| Runner.PocRunner.RunRules | src/runner.rs:91-161 | the environment and result after the rule loop are those of the rule-loop specification |
| Runner.PocRunner.RunRule | src/runner.rs:100-125 | one rule call: the rule is looked up, rendered, dispatched and executed, and the run stops or continues as specified |
| Runner.PocRunner.ConcludeRun | src/runner.rs:128-160 | the result is the verdict concluded with the collected output |
| Runner.PocRunner.RunWithPayloads | src/runner.rs:47-88 | the environment and result after the payload loop are those of the payload specification |
| Runner.PocRunner.RunPayload | src/runner.rs:55-65 | one payload: variables are backed up, extended, used by the rule loop and restored when the loop does not err |
| Runner.PocRunner.Run | src/runner.rs:33-44 | a run starts a fresh environment from the document and takes the payload loop exactly when there are payloads |
| GoBuild.Substitute | build/poc.go:111-120 | one binding: a string map changes nothing; otherwise its text replaces `{{key}}` in every header value and in the trimmed path and body (`SubstituteSplitsAtToken`, `SubstituteKeeps`) |
| GoBuild.SubstituteAll | build/poc.go:110-121 | the bindings applied one after the other in the given key order (`SubstituteKeeps`, `SubstituteSkipsMaps`) |
| GoBuild.EscapePath | build/poc.go:122-123 | spaces and then plus signs of the path become `%20` (`DecodedPathEscaped`) |
| GoBuild.DecodedRule | build/poc.go:110-124 | `PocRule.DecodeSet`: all bindings in the map's order, then the path escaped (met by `PocRule.DecodeSet`; `DecodedKeeps`, `DecodedWithoutText`) |
| GoBuild.Token | build/poc.go:117 | the placeholder of a key is never empty, so replacing it always terminates and the split-and-join reading applies |
| GoBuild.PocRule.constructor | build/poc.go:98-107 | a new rule holds exactly the given fields |
| GoBuild.PocRule.DecodeSet | build/poc.go:110-124 | the rule's fields become those of the decoded rule: every binding that is not a string map is substituted in iteration order, then spaces and `+` in the path become `%20` |
| GoBuild.PocRule.ApplyBinding | build/poc.go:111-120 | one binding: a string map changes nothing; otherwise its text replaces the key's placeholder in every header value and in the trimmed path and body |
| GoBuild.PocRule.ReplaceHeaders | build/poc.go:116-118 | every header value has the placeholder replaced, keys and other fields unchanged |
| GoBuild.ReplaceEach | build/poc.go:116-118 | the loop over the header names yields each header's value with the placeholder replaced |
| GoBuild.DecodedPathEscaped | build/poc.go:122-123 | the decoded path holds no space and no `+` |
| GoBuild.SubstituteKeeps | build/poc.go:110-121 | substitution keeps the method, the redirect flag, the search pattern, the expression and the header names |
| GoBuild.DecodedKeeps | build/poc.go:110-124 | decoding keeps the method, the redirect flag, the search pattern, the expression and the header names |
| GoBuild.SubstituteSkipsMaps | build/poc.go:112-114 | bindings that are all string maps substitute nothing |
| GoBuild.DecodedWithoutText | build/poc.go:110-124 | with only string-map bindings decoding only escapes the path, and the path and body are not even trimmed |
| GoBuild.SubstituteSplitsAtToken | build/poc.go:115-120 | one binding turns the trimmed path and body and every header value into their pieces between placeholders, joined with the value's text |
| GoBuild.HeadersSplitJoin | build/poc.go:116-118 | replacing in every header keeps the names and each value becomes its pieces joined with the text |
| GoBuild.DeepcopyRules | build/poc.go:78-88 | the copy has one new rule per source rule, each with equal fields, and no two copies are the same object |
| GoBuild.OwnedDisjoint | build/poc.go:90-96 | rules registered under one group and position each are different objects across all groups |
| GoBuild.AddGroup | build/poc.go:93 | adding the deep copy of one group adds new rules with equal fields, keeps the other groups and keeps every rule object unique |
| GoBuild.CopyGroups | build/poc.go:91-95 | the loop produces the same group names and sizes, new rules with equal fields, and no rule object shared between positions |
| GoBuild.PocEvent.constructor | build/poc.go:15-20 | a new probe holds exactly the given name, set, rules and groups |
| GoBuild.PocEvent.DeepcopyGroups | build/poc.go:90-96 | the copy has the same group names, each group as long as the original, every rule new with equal fields, and no rule object shared anywhere |
| GoBuild.PocEvent.DecodeSet | build/poc.go:50-76 | the bindings are those of the definitions taken in sorted key order |
| GoBuild.BindAll | build/poc.go:54-73 | the loop's bindings are those of the definitions in the given key order |
| GoBuild.CelText | build/poc.go:68 | the `%v` text of a result: a string's UTF-8 text, a boolean as `true` or `false`, other kinds as the given printer says |
| GoBuild.Converted | build/poc.go:63-69 | the binding for a result: an integer as an integer, bytes and strings as the text their UTF-8 bytes spell, anything else its `%v` text |
| GoBuild.ConvertedText | build/poc.go:63-69 | a string or bytes result binds exactly the text whose UTF-8 encoding it is |
| GoBuild.BindStep | build/poc.go:55-71 | one definition: empty binds nothing, `newReverse()` binds that key's own reverse object `reverse(key)`, any other is evaluated against the bindings so far and binds its converted result only on success (`BindingsAt`) |
| GoBuild.Bindings | build/poc.go:54-73 | the definitions applied in the given key order (`BindingsDomain`, `BindingsLater`, `BindingsAt`; met by `BindAll`) |
| GoBuild.SortKeepsKeys | build/poc.go:53 | every sorted key is a key of the set |
| GoBuild.BindingsDomain | build/poc.go:55-57 | only listed keys with non-empty definitions are bound |
| GoBuild.BindingsLater | build/poc.go:54-73 | a key not listed after a point is bound as it was at that point |
| GoBuild.BindingsAt | build/poc.go:55-71 | an empty definition binds nothing, `newReverse()` binds that key's own reverse object `reverse(k)`, and any other definition is evaluated with the bindings made so far: an error binds nothing, an integer binds the integer, bytes and strings bind the text their UTF-8 bytes spell, and anything else its printed form |
| GoUtils.Chunks | library/utils/random.go:26-31 | a word yields the given number of indices, each at most the six-bit mask |
| GoUtils.Stream | library/utils/random.go:22-32 | every 63-bit word yields ten indices |
| GoUtils.Accepted | library/utils/random.go:26 | the indices kept are at most those drawn and each is below the number of choices |
| GoUtils.AcceptedConcat | library/utils/random.go:26 | the kept indices of two draws in a row are the kept indices of each, in order |
| GoUtils.AcceptedStep | library/utils/random.go:26-29 | one more index is kept exactly when it is below the number of choices |
| GoUtils.ChunkStep | library/utils/random.go:26-31 | taking the low six bits and shifting the cache consumes one index of the current word |
| GoUtils.Refill | library/utils/random.go:23-25 | an exhausted cache means all words so far are used up, and a new word brings its ten indices |
| GoUtils.StreamAppend | library/utils/random.go:22-32 | the indices of one more word follow those of the earlier ones |
| GoUtils.RandomStr | library/utils/random.go:19-34 | a negative length is the panic; otherwise the text has the length asked for, filled from the end with the choices picked by the kept indices, drawing no word more than needed; when the words run out too early there is no text; when the words suffice there is always one |
| GoUtils.Fill | library/utils/random.go:20-33 | the buffer loop fills the buffer from its last position with the picked choices, or reports that the words ran out |
| GoUtils.NextChunk | library/utils/random.go:23-31 | one step of the index stream: a refill when the cache is spent, then the next six-bit index, with the stream consumed so far extended by it |
| GoUtils.PickedPrefix | library/utils/random.go:26-29 | drawing more words keeps the indices already picked |
| GoUtils.DrawnFromChoices | library/utils/random.go:26-27 | every character of the text is among the first 64 choices |
| GoUtils.AcceptedWithin | library/utils/random.go:26 | a kept index never exceeds the six-bit mask |
| GoUtils.StreamChunks | library/utils/random.go:26 | every index of the stream is at most the six-bit mask |
| GoUtils.LowercaseRange | library/utils/random.go:12 | the lowercase alphabet holds only `a` to `z` |
| GoUtils.LetterNumRange | library/utils/random.go:13 | the letter-and-digit alphabet holds only digits and ASCII letters |
| GoUtils.RandLowwerCase | library/utils/random.go:37-39 | the text has the length asked for and only small letters |
| GoUtils.RandLetterNumbers | library/utils/random.go:42-44 | the text has the length asked for and only digits and letters |
| GoUtils.LessIrreflexive | library/utils/structure.go:14 | no string sorts before itself |
| GoUtils.LessTransitive | library/utils/structure.go:14 | the byte-wise order of strings is transitive |
| GoUtils.LessTotal | library/utils/structure.go:14 | any two different strings are ordered one way or the other |
| GoUtils.LessAsymmetric | library/utils/structure.go:14 | two strings are never each before the other |
| GoUtils.AtMostTransitive | library/utils/structure.go:14 | the non-strict order is transitive |
| GoUtils.InsertSorted | library/utils/structure.go:14 | inserting into a sorted list keeps it sorted and adds exactly that element |
| GoUtils.SortSpec | library/utils/structure.go:14 | sorting gives a sorted permutation of the input |
| GoUtils.SortedDistinct | library/utils/structure.go:14 | a sorted list without repeats is strictly ascending |
| GoUtils.DistinctMultiset | library/utils/structure.go:14 | a permutation of a list without repeats has none either |
| GoUtils.DistinctCount | library/utils/structure.go:14 | in a list without repeats every element occurs at most once |
| GoUtils.SortMapKeys | library/utils/structure.go:9-16 | the keys come back sorted in byte order, strictly ascending, exactly the map's keys, one per key |
| GoUtils.StrictlySortedDistinct | library/utils/structure.go:14 | a strictly ascending list has no repeats |
| GoUtils.FirstAtMost | library/utils/structure.go:14 | the first element of a strictly ascending list is at most each of its elements |
| GoUtils.SortedKeysUnique | library/utils/structure.go:9-16 | two strictly ascending lists of the same keys are equal, so the result does not depend on the map's iteration order |
| GoDecode.DeclaredType | library/decode/compile.go:30-36 | a value starting with `randomInt` declares an integer, one starting with `newReverse` a reverse object, anything else a string (per key in `DeclarationsShape`) |
| GoDecode.Declarations | library/decode/compile.go:28-37 | one declaration per listed key, as many as there are keys |
| GoDecode.DeclarationsShape | library/decode/compile.go:28-37 | the i-th declaration names the i-th key and is typed Int exactly when its value starts with `randomInt`, Reverse exactly when it starts with `newReverse` but not `randomInt`, and String exactly when it starts with neither |
| GoDecode.DeclarationsCover | library/decode/compile.go:27-39 | over any iteration order of the map there are as many declarations as entries, every entry is declared with the type its value calls for, and no name is declared twice |
| GoDecode.CelLibrary.constructor | library/decode/compile.go:41-43 | the library starts with the given environment and program options |
| GoDecode.CelLibrary.UpdateCompileOptions | library/decode/compile.go:27-39 | the declarations of all entries, in the map's iteration order, are appended after the existing environment options; the program options are unchanged |
| GoDecode.SearchStatus | library/decode/compile.go:203-219 | how `Search` ends: the compile error, success on a match with a group, otherwise "not matched"; on an engine that keeps Go's guarantee that the submatches are nil or one per name (`WellFormedRegexp`) it never panics (the method `Search` is tied to it) |
| GoDecode.SearchDoneOnMatch | library/decode/compile.go:203-219 | on an engine that keeps Go's guarantee, `Search` succeeds exactly when the pattern compiles and matches with more than one submatch, and then there is one submatch per name |
| GoDecode.Search | library/decode/compile.go:203-219 | a pattern that does not compile returns its error and binds nothing; a match with more than one submatch and group name binds each named group `1..` to its text and succeeds, anything else is "not matched" with nothing bound; on an engine that keeps Go's guarantee of one submatch per name it never panics (the panicking branch exists only for an engine that breaks it) |
| GoDecode.BindUntouched | library/decode/compile.go:211-215 | a key that no group is named after keeps its earlier binding, or stays absent |
| GoDecode.BindLastWins | library/decode/compile.go:211-215 | a group name is bound to the text of the last group of that name |
| GoProto.SplitField | library/proto/response.go:23-26 | a line without `:` yields nothing; otherwise the line is the part before its first `:`, then `:`, then the rest, and the first part has no `:` |
| GoProto.ParseHeaders | library/proto/response.go:20-28 | the headers are those the response's lines set when split at CRLF, a later line for a name overwriting an earlier one |
| GoProto.HeaderMap | library/proto/response.go:22-28 | the headers the lines set in order, each name lowered and each value trimmed, a later line overwriting one of the same name (`HeaderLast`, `HeaderAbsent`, `SameNameOverwrites`) |
| GoProto.SplitFieldJoin | library/proto/response.go:23 | a name without `:` joined to any value by `:` splits back into that name and value |
| GoProto.HeaderNamesLower | library/proto/response.go:27 | every header name is lower case |
| GoProto.LineWithoutColon | library/proto/response.go:24-26 | a line without `:` leaves the headers as they were |
| GoProto.HeaderAbsent | library/proto/response.go:22-28 | a name no line sets is not among the headers |
| GoProto.HeaderLast | library/proto/response.go:22-28 | a header's value is the trimmed value of the last line whose name lowers to it |
| GoProto.SameNameOverwrites | library/proto/response.go:27 | two lines whose names differ only in ASCII case set one header, to the later value |
| GoProto.Int32 | library/proto/response.go:32 | the conversion to `int32` lands in the 32-bit range and keeps every value already in it |
| GoProto.Response.constructor | library/proto/response.go:12 | a fresh response has no headers, status 0 and empty content type and bodies |
| GoProto.SetupResponse | library/proto/response.go:15-37 | a request URI that does not parse is the error and no response; otherwise a fresh response with the parsed URL, the header map of the header block, the status truncated to 32 bits, the content type, and the body as both bytes and text |
| GoFunctions.Unexpected | library/decode/function.go:24-31 | the value for an operand of the wrong type is an error or an unknown, never an ordinary value |
| GoFunctions.BytesText | library/decode/function.go:233-234 | the text of a byte slice, as an error message quotes it, has one character per byte |
| GoFunctions.LowerBytes | library/decode/function.go:48 | lowering keeps the length |
| GoFunctions.Contains | library/decode/function.go:21-35 | `contains_string`: the type error of the first non-string operand, left first, or whether the right string occurs in the left one (proved in `ContainsSpec`) |
| GoFunctions.IContains | library/decode/function.go:37-50 | `string_icontains_string`: the same type errors, then `contains` on the lowered operands (proved in `IContainsSpec`) |
| GoFunctions.BContains | library/decode/function.go:52-65 | `bytes_bcontains_bytes`: the type error of the first operand that is not a byte slice, or whether the right slice occurs in the left one (proved in `BContainsSpec`) |
| GoFunctions.Matches | library/decode/function.go:67-84 | `matches_string`: the type errors, then the pattern (the receiver) compiled and matched against the subject, or the compile error (proved in `MatchesSpec`) |
| GoFunctions.BMatch | library/decode/function.go:86-103 | `string_bmatch_bytes`: a string pattern against a byte slice, with the same errors (proved in `MatchesSpec`) |
| GoFunctions.ContainsSpec | library/decode/function.go:21-34 | `contains` is true exactly when both operands are strings and the second occurs in the first; it is a boolean exactly when both are strings, and a wrong-typed operand gives that operand's type error |
| GoFunctions.ContainsInMiddle | library/decode/function.go:32 | a string contains whatever stands in its middle |
| GoFunctions.LowerBytesSlice | library/decode/function.go:48 | lowering commutes with taking a slice |
| GoFunctions.IContainsSpec | library/decode/function.go:37-50 | `icontains` gives the same answer on the lowered operands, and whatever `contains` finds `icontains` finds as well |
| GoFunctions.BContainsSpec | library/decode/function.go:52-65 | `bcontains` is true exactly when both operands are byte slices and the second occurs in the first; it is a boolean exactly when both are bytes, and an error or unknown otherwise |
| GoFunctions.MatchesSpec | library/decode/function.go:67-103 | `matches` and `bmatch` return the regular-expression engine's answer as a boolean, and its error when the pattern does not compile |
| GoFunctions.Base64String | library/decode/function.go:145-155 | `base64_string`: a type error for a non-string, otherwise the standard padded encoding of its bytes (length and round trip in `Base64RoundTrip`) |
| GoFunctions.Base64Bytes | library/decode/function.go:157-167 | `base64_bytes`: a type error for a non-slice, otherwise the same encoding as a string (shown equal to `base64_string` in `Base64RoundTrip`) |
| GoFunctions.Base64DecodeString | library/decode/function.go:169-183 | `base64Decode_string`: a type error, the decoding failure, or the decoded bytes as a string (`Base64RoundTrip`, `Base64DecodeRejects`) |
| GoFunctions.Base64DecodeBytes | library/decode/function.go:185-199 | `base64Decode_bytes`: the same for a byte slice, also yielding a string (`Base64RoundTrip`, `Base64DecodeRejects`) |
| GoFunctions.Base64RoundTrip | library/decode/function.go:145-198 | `base64` of a string has `4 * ceil(n/3)` symbols, agrees with `base64` of the same bytes, and `base64Decode` of it, from a string or from bytes, is the original |
| GoFunctions.Base64DecodeRejects | library/decode/function.go:169-198 | a byte that is neither a symbol, padding nor a line break makes `base64Decode` of a string or of bytes an error |
| GoFunctions.UrlencodeString | library/decode/function.go:201-211 | `urlencode_string`: a type error, or `url.QueryEscape` of the string (undone by `urldecode` in `UrlRoundTrip`) |
| GoFunctions.UrlencodeBytes | library/decode/function.go:213-223 | `urlencode_bytes`: the same for a byte slice |
| GoFunctions.UrldecodeString | library/decode/function.go:225-239 | `urldecode_string`: a type error, the escape error naming the bad fragment, or the unescaped text (`UrlRoundTrip`, `UrlDecodeMalformed`) |
| GoFunctions.UrldecodeBytes | library/decode/function.go:241-255 | `urldecode_bytes`: the same for a byte slice |
| GoFunctions.UrlRoundTrip | library/decode/function.go:201-254 | `urldecode` undoes `urlencode`, from a string or from bytes, and the encoding holds no space |
| GoFunctions.UrlDecodeMalformed | library/decode/function.go:225-237 | a text that starts with a `%` not followed by two hex digits makes `urldecode` an error naming that escape |
| GoFunctions.Wrap64 | library/decode/function.go:127-128 | Go's 64-bit wrap-around keeps every value in the `int64` range |
| GoFunctions.RandomIntAsWritten | library/decode/function.go:116-131 | `randomInt_int_int` as written: type errors, then `rand.Intn(max-min) + min` in 64-bit arithmetic, panicking when the wrapped width is not positive (its flaw shown in `RandomIntOverflowPanics`) |
| GoFunctions.RandomIntOverflowPanics | library/decode/function.go:127-128 | on the non-empty range from -1 to the largest `int64` the overload as written panics, its width having wrapped |
| GoFunctions.RandomInt | library/decode/function.go:116-130 | on two integers the call panics exactly when the range is empty, and otherwise returns an integer at least `from` and below `to` |
| GoFunctions.RandomIntAgrees | library/decode/function.go:116-130 | wherever the width fits in 64 bits the corrected overload returns what the written one does |
| GoFunctions.TextBytes | library/decode/function.go:140 | the bytes of a narrow text are its characters' codes, one per character |
| GoFunctions.RandomLowercase | library/decode/function.go:133-142 | a non-integer gives its type error, a negative length panics, and otherwise the result is a string of exactly that many bytes, each a letter from `a` to `z`; the supply of generator words runs out only when it yields too few usable indices |
| GoFunctions.SubstrAsWritten | library/decode/function.go:257-283 | `substr_string_int_int` as written: arity and type errors, the range error, else the runes from `start`; the 64-bit sum `start+length` can wrap past the check into a slice panic (shown in `SubstrOverflowPanics`) |
| GoFunctions.SubstrOverflowPanics | library/decode/function.go:274-277 | with start 1 and the largest `int64` as length the bounds check as written is passed by the wrapped sum and the slice panics |
| GoFunctions.Substr | library/decode/function.go:257-282 | the result is a string exactly when there are three arguments of types string, int, int with non-negative start and length whose sum is within the string's characters |
| GoFunctions.SubstrCharacters | library/decode/function.go:273-277 | within range, the result decodes to exactly `length` characters, the ones from `start` on |
| GoFunctions.SubstrErrors | library/decode/function.go:260-280 | a range outside the characters, a wrong number of arguments and a non-string subject each give their own error |
| GoFunctions.SubstrAgrees | library/decode/function.go:257-282 | wherever `start+length` fits in 64 bits the corrected overload returns what the written one does |
| Utf8.EncodeRune | library/decode/function.go:273 | a character takes one to four bytes |
| Utf8.Encode | library/decode/function.go:277 | a text takes at least one and at most four bytes per character |
| Utf8.Decode | library/decode/function.go:273 | `[]rune(s)`: the characters the bytes spell, an invalid sequence giving U+FFFD, never more characters than bytes (`DecodeEncode`) |
| Utf8.DecodeRune | library/decode/function.go:273 | decoding at the start of a character's encoding reads exactly its bytes and yields that character, whatever follows |
| Utf8.DecodeEncode | library/decode/function.go:273-277 | decoding the encoding of a text gives the text back |
| Utf8.EncodeConcat | library/decode/function.go:277 | the encoding of two texts put together is their encodings put together |
| Utf8.EncodeAscii | library/decode/function.go:273 | an ASCII text is encoded one byte per character, each its code |
| Base64.SymbolRoundTrip | library/decode/function.go:152 | every six-bit value is read back from its symbol |
| Base64.Encode | library/decode/function.go:152 | the encoding has four symbols for every started group of three bytes |
| Base64.EncodeAlphabet | library/decode/function.go:152 | the encoding is made of alphabet symbols and `=`, padding only in the last two places |
| Base64.StripWithoutNewlines | library/decode/function.go:176 | a text without line breaks is decoded as it is |
| Base64.DecodeFullGroup | library/decode/function.go:176 | four symbols made from three bytes decode to those bytes |
| Base64.DecodeTwoGroup | library/decode/function.go:176 | a final group with one `=` decodes to its two bytes |
| Base64.DecodeOneGroup | library/decode/function.go:176 | a final group with two `=` decodes to its one byte |
| Base64.DecodeGroupsEncode | library/decode/function.go:152-176 | the groups of an encoding decode to the encoded bytes |
| Base64.Decode | library/decode/function.go:176 | `DecodeString`: line breaks dropped, then groups of four symbols decoded, and nothing for a length not a multiple of four or a foreign byte (`DecodeEncode`, `DecodeRejects`) |
| Base64.DecodeEncode | library/decode/function.go:152-176 | `DecodeString` undoes `EncodeToString` |
| Base64.DecodeGroupsRejects | library/decode/function.go:176-179 | a byte that is neither a symbol nor padding makes the groups fail |
| Base64.StripKeeps | library/decode/function.go:176 | removing line breaks keeps every other byte |
| Base64.DecodeRejects | library/decode/function.go:176-179 | a length that is not a multiple of four once line breaks are gone, or a byte that is neither symbol, padding nor line break, is an error |
| UrlEscape.HexRoundTrip | library/decode/function.go:208 | every hex digit value is read back from its digit |
| UrlEscape.EscapeByteShape | library/decode/function.go:208 | an unreserved byte stays, a space becomes `+`, and every other byte becomes `%` and two hex digits of its value |
| UrlEscape.QueryUnescape | library/decode/function.go:232 | `url.QueryUnescape`: `+` is a space, `%hh` a byte, and the first malformed `%` fails with its fragment; the result is never longer than the input (`UnescapeEscape`, `MalformedEscapeFails`) |
| UrlEscape.QueryEscape | library/decode/function.go:208 | each byte becomes one to three |
| UrlEscape.EscapeAlphabet | library/decode/function.go:208 | the escaped text holds only unreserved bytes, `+` and `%`, and no space |
| UrlEscape.EscapeUnreserved | library/decode/function.go:208 | a text of unreserved bytes is left as it is |
| UrlEscape.UnescapeEscape | library/decode/function.go:208-232 | `QueryUnescape` undoes `QueryEscape` |
| UrlEscape.MalformedEscapeFails | library/decode/function.go:232-234 | a `%` at the start without two hex digits after it fails, the error naming at most three bytes from it |
| UrlEscape.UnescapeErrorShape | library/decode/function.go:232-234 | every failure names a piece of the input of one to three bytes starting with `%` |
| UrlEscape.UnescapePlain | library/decode/function.go:232 | a text without `%` always unescapes, and without `+` either it is unchanged |
| GoScanner.ScanSpec | scanner/scanner.go:61-98 | `scan`: a network error is the verdict's error; a search pattern verifies when it matches, and on an engine that keeps Go's submatch guarantee the search path never crashes and the index panic never arises; otherwise the expression is evaluated with `request` and `response` bound, its error wrapped in `scan failed: `, a non-boolean panicking (met by `Scanner.Scan`) |
| GoScanner.Next | scanner/scanner.go:49-54 | one more call of `Start` for a group keeps the number of rules, and changes nothing once a call has stopped the group |
| GoScanner.GroupsSpec | scanner/scanner.go:46-58 | `StartByGroups`: the first verdict that stopped a group, groups taken in the given order, or false without error (met by `Scanner.StartByGroups`) |
| GoScanner.StartSpec | scanner/scanner.go:24-44 | the number of rules `Start` scans never exceeds the rules it is given |
| GoScanner.FirstStopAt | scanner/scanner.go:25-43 | `Start` scans up to and including the first rule whose verdict is not a clean true, or all of them, and returns that rule's verdict |
| GoScanner.Repeat | scanner/scanner.go:48-55 | the repeated calls of `Start` on a group keep the number of rules |
| GoScanner.RepeatStaysStopped | scanner/scanner.go:49-54 | once a call of `Start` has made the group loop return, further repetitions change nothing |
| GoScanner.RulesAdvanced | scanner/scanner.go:25-27 | rules whose first `n` have been rewritten by `DecodeSet` are the advanced rule list |
| GoScanner.ProbeOfRealizes | scanner/scanner.go:26-27 | the scanner's own rewriting and judging are what the scan loop's specification runs on |
| GoScanner.OutcomeOfSummarizes | scanner/scanner.go:47-56 | the repeated calls of `Start` per group are what the group loop's specification runs on |
| GoScanner.Scanner.constructor | scanner/scanner.go:100-110 | a scanner holds the bindings it is built with |
| GoScanner.Scanner.Scan | scanner/scanner.go:61-98 | a network error is the error; a rule with a search pattern verifies exactly when the trimmed pattern binds, is false without error when it does not, and on an engine that keeps Go's submatch guarantee the search path never crashes; otherwise the expression is evaluated with the request and response bound, an evaluation error is wrapped as "scan failed", and a non-boolean result panics |
| GoScanner.Scanner.DecodeAndScan | scanner/scanner.go:26-27 | the i-th rule is rewritten by `DecodeSet`, the others are untouched, and the verdict is the rewritten rule's |
| GoScanner.Scanner.Start | scanner/scanner.go:24-44 | the verdict is that of the first rule that does not come out a clean true, or of the last rule, or false without error for no rules; the rules up to it are rewritten and the rest untouched |
| GoScanner.Scanner.StartOnce | scanner/scanner.go:49-54 | one more pass of the group loop is one more step of the repeated calls |
| GoScanner.Scanner.StartRepeatedly | scanner/scanner.go:48-55 | `Start` is called once per rule of the group, on the same rules, until a call returns an error, a panic or true |
| GoScanner.Scanner.StartGroup | scanner/scanner.go:47-56 | one group's calls come to that group's outcome, and leave every other group's rules as they were |
| GoScanner.Scanner.StartByGroups | scanner/scanner.go:46-58 | the verdict is the first stopping verdict of the groups taken in the map's iteration order, or false without error when none stops |

## Left out

- CEL compilation and execution (cel_interpreter in Rust, cel-go in Go) are oracles: `Cel.CelEngine` maps a text and a context to a compile error, an execution error or a value, and `GoBuild.GoEval` does the same for a Go expression. The `NewCelOption` declaration tables (library/decode/compile.go:41 onward) are not modelled: they configure the foreign library.
- The regular-expression engines (Rust `regex`, Go `regexp`) are oracles that give the captures of the leftmost match or report that there is none (`Cel.RegexEngine`, `GoDecode.GoRegexp`, `GoFunctions.GoRegex`). The fixed patterns of the preprocessor and the renderers are the exception: the `Rewrite` module writes them out.
- `mock_http_request` (src/runner.rs:164-217) is replaced by a `Runner.Dispatch` parameter that maps a rule to a response or an error. On the Go side, `url.JoinPath`, `proto.SetupRequest`, `ToFasthttp`, `http.Do` and `SetupResponse` together are the `GoScanner.Network` parameter. `GoProto.SetupResponse` takes the parsed URL, the header block, the status, the content type and the body as inputs.
- library/proto/reverse.go is not part of this model (network polling, sleeping and global state). Each `proto.NewReverse()` call (build/poc.go:60-61) makes a fresh object with its own random flag; the model takes these objects as an input, `reverse(k)` for key `k`, so different keys may get different objects, but what the object holds is not modelled.
- The `md5`, `sleep` and `reverse_wait` overloads (library/decode/function.go:105-114 and 285-311) are left out: they are foreign hashing, time and network.
- `math/rand` is not modelled. Its output is an input: the words `rand.Int63` yields for `RandomStr`, and `roll` for `rand.Intn`.
- The `sync.Pool` recycling of requests and responses (library/proto/response.go:12, 39-45, and scanner/scanner.go:28-35): a fresh object stands for a pooled one.
- Floating-point values and the `Debug` fallback when a value is turned into text (src/template.rs:27 and 29, src/cel.rs:462 and 464): a float is an opaque `VFloat` case, and the model states nothing about its text.
- Serialisation: serde and YAML/JSON parsing, `ToJsonStr`/`ToYamlStr`, and the unsafe `utils.String`/`utils.Bytes` casts. The parsed document is the model's input, and a YAML integer is kept unbounded; `PocModel.AsI64` is where the engine reads it as `i64`.
- src/main.rs (file I/O), protogen.py and the `println!` output throughout src/cel.rs.
- CelRuntime.ExecuteRuleSpec, CelRuntime.CelEnv.ExecuteRule: the debug preview `&body_string[..50.min(len)]` (src/cel.rs:379-383) slices by bytes and panics when byte 50 falls inside a multi-byte character (`CelRuntime.PreviewPanics`, shown by `CelRuntime.PreviewPanicExample`). The model does not abort there: it evaluates the rule as if the preview had printed. `mock_http_request` returns only ASCII bodies, which never reach the panic (`CelRuntime.AsciiPreviewSafe`). A `Runner.Dispatch` with other bodies can, and for those `Runner.RunSpec` and `Runner.PocRunner.Run` state a result where Rust aborts.
- Hash-map and Go map iteration order is a parameter (`Base.KeyOrder`, or an explicit enumeration of the keys). On the Rust side too, one order serves every `HashMap` with the same key set (`rule_results`, the outputs, the headers), while Rust seeds each map's hasher separately, so the contracts cover the runs in which maps with the same key set are walked in the same order. Lemmas such as `GoUtils.SortedKeysUnique` show where a result does not depend on it.
- GoBuild.Converted, GoBuild.CelText, GoBuild.BindingsAt, GoBuild.PocEvent.DecodeSet: a string or bytes result binds the text its UTF-8 bytes spell. Invalid UTF-8 becomes U+FFFD in the model, while Go's `string(v)` keeps the raw bytes.
- GoBuild.PocRule.DecodeSet, GoScanner.Scanner.Start, GoScanner.Scanner.StartByGroups: one `Base.KeyOrder` decides the order of every range over maps with the same key set. Go picks a fresh order at each `for key, valueSet := range set` (library/build/poc.go:111) and each `range groups` (scanner/scanner.go:47). So two rules of one probe, or the repeated `Start` calls, may substitute the same `set` in different orders. The contracts cover only runs where every range takes the same order. The order matters once one binding's text holds another key's `{{key}}`. The header loop's result does not depend on the order (`GoBuild.ReplaceEach`).
- GoFunctions.Base64DecodeString, GoFunctions.Base64DecodeBytes: the error text is Go's `illegal base64 data at input byte` without the offset `N` that `base64.CorruptInputError` appends. The model states that decoding fails, not where.
- GoFunctions.UrldecodeString, GoFunctions.UrldecodeBytes: the error text is `invalid URL escape ` followed by the fragment in plain double quotes. `strconv.Quote` would also escape non-printable bytes, and quotes or backslashes inside the fragment. The model gives the same text as Go only for a fragment of printable ASCII without `"` or `\`.
- Text.ToLower, GoFunctions.LowerBytes, GoFunctions.LowerBytesSlice, GoFunctions.IContainsSpec: lowering maps only the ASCII capitals `A`-`Z`. Rust's `to_lowercase` and Go's `strings.ToLower` also lower other letters, and may change the byte length (U+212A, three bytes, lowers to `k`). So `icontains("É", "é")` is true in Go and false in the model. Every lowering contract, including "lowering keeps the length", holds for ASCII text and states nothing about other letters.
- GoUtils.SortMapKeys: `sort.Strings` sorts the slice in place, but the model sorts a sequence with an insertion-sort function. The result is proved sorted and a permutation, but the in-place update of the slice is not modelled.
- GoUtils.RandomStr: the finite supply of words yields `Exhausted` when it runs out before `n` characters are drawn. A real generator never runs out, so that outcome is an artefact of the model.
- GoFunctions.RandomLowercase: has the same `None` outcome when the supply of words runs out, for the same reason.
- GoScanner.Scanner.Start: `rules[i].DecodeSet(s.set)` rewrites the probe's own rules in place. The model does this too, and states it through `Datas`. The release calls after each rule are not modelled.
- GoScanner.Scanner.StartByGroups: Go calls `Start` once for every rule of a group, each time on the same already-rewritten rules. The model does exactly that (`Repeat`), even though the repetition looks unintended.
- The proofs of the driver loops state what a rule step, a rendering and a verdict are through function-valued parameters (`Runner.Engine` with `Implements`, `GoScanner.Probe` with `Realizes`, `GoScanner.GroupOutcome` with `Summarizes`). Each comes with a lemma showing that the engine's own behaviour satisfies it (`Runner.EngineOfImplements`, `GoScanner.ProbeOfRealizes`, `GoScanner.OutcomeOfSummarizes`), so the methods hold for the real engine.
- Go panics are modelled as outcomes (`Panicked`, `Crashed`) rather than as aborts of the whole program.

## Findings

| source | as written | input that shows it | evidently intended | confidence | as-written member | corrected member |
|---|---|---|---|---|---|---|
| library/decode/function.go:127-128 | `rand.Intn(max-min) + min` computes the width in 64-bit `int` arithmetic | `randomInt(-1, 9223372036854775807)`: the width wraps to -2^63 and `rand.Intn` panics, although the range is non-empty | a value in `[from, to)` for every non-empty range, and an error only for an empty one | high; not executed | GoFunctions.RandomIntAsWritten, GoFunctions.RandomIntOverflowPanics | GoFunctions.RandomInt, GoFunctions.RandomIntAgrees |
| library/decode/function.go:274-277 | the bounds check adds `start+length` in 64-bit arithmetic before comparing with the rune count | `substr("ab", 1, 9223372036854775807)`: the sum wraps negative, the check passes, and the slice expression panics | the "invalid start or length" error whenever `start+length` exceeds the string | high; not executed | GoFunctions.SubstrAsWritten, GoFunctions.SubstrOverflowPanics | GoFunctions.Substr, GoFunctions.SubstrCharacters |
