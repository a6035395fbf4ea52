# Route matcher

This project models the route matcher of a small URL router.

`RouteMatcher.parse` compiles a `/`-rooted pattern into an anchored regular expression and a list of parameter names. A pattern looks like `/users/:id`, `/files/:path*`, `/a/*/b` or `/x\:y`. The scanner reads the pattern left to right, one character at a time:
- `:name` becomes a one-segment group `([^/]+)`.
- `:name*` becomes a greedy group `(.+)`.
- A bare `*` becomes `.*`.
- `\` takes the next character literally. A `\` at the very end of the pattern is dropped.
- Every other character, including a `:` not followed by a word character, is emitted through `quote`.

`getMatch(url)` works in phases:
1. It runs the expression. No match gives `null`.
2. It builds one `{position, name, value}` record per declared name.
3. It tries every key's constraint in `Object.keys` order. The first rejection gives `null`.
4. Only then does it apply the coercions, key by key, in place.

A `Route` has a trimmed, non-empty name and a matcher. The matcher is either built beforehand or parsed from a pattern with the route's options. `Route.getMatch` delegates to it.

The model is in seven modules:

- `Results` (`results.dfy`): `Option` and `Result`.
- `JsText` (`js_text.dfy`): the JavaScript text primitives the source relies on:
  - `\w` and white space;
  - `trim`;
  - `toLowerCase` on ASCII;
  - the global `parseInt` with no radix.
- `RegExp` (`regexp.dfy`): the fragment of JavaScript regular expressions the compiler emits.
  - The fragment is `^`, literal and backslash-escaped characters, `([^/]+)`, `(.+)`, `.*`, then `$`.
  - A `Regex` is a source string that reads back in that fragment, plus the `i` flag.
  - `Exec` is the backtracking engine: each run is tried longest first.
  - The engine is proved sound and complete with respect to the "the input can be cut into pieces the atoms accept" relation.
- `PatternCompiler` (`pattern_compiler.dfy`): `quote` and the scanner's tokens.
  - `Tokenize` is the specification of the scanner, one round (`Step`) at a time.
  - `Render` is the text each token appends, and `Compile` is the resulting `RegExp`.
  - `Print` turns tokens back into a pattern, and `Tokenize` inverts it.
- `RouteMatcher` (`route_matcher.dfy`): the `RouteMatcher` class, whose constant fields are set by its constructor.
  - `Parse` runs the scanner's `while` loop as a method proved against `Source` and `Names(Tokenize(...))`.
  - `GetMatch` runs the match pipeline as methods, `CollectRecords`, `CheckConstraints` and `CoerceKeys`. Each is proved against a function: `Records`, `Admitted` and `CoerceAll`.
  - `Outcome` and `Matched` are the specification of what `getMatch` returns.
- `RouteMatcherFacts` (`route_matcher_facts.dfy`): what a result of `getMatch` is, proved about `Matched` and `Outcome`.
- `Route` (`route.dfy`): the `Route` class with its validating factory and `GetMatch`.

Values that JavaScript types dynamically are tagged variants:
- A constraint is unset or falsy, a string, a RegExp (its `test`), an array, or a function.
- A coercion is a string name or a function.
- A record's value is a string, an integer, `NaN`, `Number(text)`, a boolean, or an opaque value that a coercion function returned.

A coercion may receive a name other than `int`, `number` or `boolean`. In that case the source leaves the value as it is, and so does the model.

One might expect a custom coercion to see its siblings' raw values. The code does not do that: `keys.forEach(coerce)` mutates the shared `routeParams` in place, so a coercion function sees every earlier key already coerced and every later key still raw. The model follows the code: `CoerceAll` and the lemma `CoercedInOrder` state this order.

## Model

| member | source | states |
|---|---|---|
| JsText.Trim | src/route.js:13 | The trimmed name is the slice of the input between its leading and its trailing white space: everything before the slice and everything after it is white space, and the slice is empty or starts and ends with a non-white-space character. |
| JsText.TrimEmptyIff | src/route.js:13-16 | A name trims to the empty string exactly when every character of it is white space. |
| JsText.Lower | src/route-matcher.js:99 | `toLowerCase` keeps the length, and each character becomes its ASCII lower-case form. |
| JsText.ParseIntShowNat | src/route-matcher.js:92-93 | `parseInt` of a decimal numeral gives that number. Text after the digits is ignored. |
| JsText.ParseInt | src/route-matcher.js:93 | Defines the global `parseInt` with no radix: leading white space is skipped, one sign is read, then a decimal numeral, or a hexadecimal one after `0x`. Its properties are stated by `ParseIntShowNat` and `ParseIntNegative`. |
| JsText.ParseIntNegative | src/route-matcher.js:92-93 | A leading `-` negates what `parseInt` reads after it. NaN stays NaN. |
| PatternCompiler.WordPrefix | src/route-matcher.js:160 | `/^(\w+)/` takes the longest run of word characters: all of its characters are word characters, and the next one is not. |
| RegExp.Exec | src/route-matcher.js:34 | `regex.exec(url)` on a compiled expression: a match gives one fitting capture per group. `RunSound` and `RunComplete` state exactly which inputs it matches. |
| RegExp.Run | src/route-matcher.js:34 | On a match, `exec` gives one capture per group, in order. Each capture is non-empty and made only of characters its group accepts. |
| RegExp.RunSound | src/route-matcher.js:34 | Whenever the engine matches, the input can be cut into pieces, one per atom, each accepted by its atom. The captures are the pieces that fall to the groups. |
| RegExp.RunComplete | src/route-matcher.js:34 | If the input can be cut into pieces the atoms accept, the engine finds a match: backtracking never misses one. |
| RegExp.ExactLiterals | src/route-matcher.js:154-199 | An anchored pattern of literal characters matches exactly its own text, with no captures. A longer or shorter path is not matched. |
| PatternCompiler.Quote | src/route-matcher.js:1-3 | `quote(s)` is at most twice as long as `s`, and text with no special character is left as it is. `ReadQuote` and `QuotedMatchesOnlyItself` state what the quoted text means. |
| PatternCompiler.ReadQuote | src/route-matcher.js:1-3 | `quote(s)` in front of any further source reads as the characters of `s` taken literally, followed by whatever that source reads as. |
| PatternCompiler.QuotedMatchesOnlyItself | src/route-matcher.js:1-3 | `^` + `quote(s)` + `$` is a valid expression. It matches the path `s` and no other. |
| PatternCompiler.Step | src/route-matcher.js:157-196 | One round of the loop consumes between one character and the rest of the pattern, and yields at most one token. |
| PatternCompiler.Tokenize | src/route-matcher.js:156-197 | The scanner's tokens, one round at a time, at most one per pattern character. `TokenizePrint`, `TokenizeWellFormed` and `GroupsFollowNames` state its properties. |
| PatternCompiler.ScanRound | src/route-matcher.js:156-197 | The fragments and names of a pattern are those of its first round followed by those of the rest. |
| PatternCompiler.ReadRender | src/route-matcher.js:158-193 | The text the scanner appends reads back as exactly one atom per token, in order. |
| PatternCompiler.GroupsFollowNames | src/route-matcher.js:166-177 | There are as many capturing groups as declared names, in the same order. Each group is `(.+)` exactly when its name was written with `*`. |
| PatternCompiler.TokenizeWellFormed | src/route-matcher.js:158-179 | Every pattern gives well-formed tokens. Names are runs of word characters, and a one-segment parameter is never directly followed by a wildcard. |
| PatternCompiler.TokenizePrint | src/route-matcher.js:156-197 | Printing well-formed tokens as a pattern and scanning it again gives back the same tokens. |
| PatternCompiler.TokenizeEscaped | src/route-matcher.js:180-186 | With a `\` before every character, every character is taken literally, `:` and `*` included. |
| PatternCompiler.TrailingEscapeDropped | src/route-matcher.js:180-186 | A `\` at the very end of a pattern adds nothing, and the scan ends. |
| PatternCompiler.TokenizePlain | src/route-matcher.js:191-193 | A pattern with no `:`, `\` or `*` is all literal characters. |
| PatternCompiler.Compile | src/route-matcher.js:199-208 | The source is `^` + the fragments + `$`. It always reads back as a valid expression, whose atoms are those of the pattern's tokens, and it carries the `i` flag as requested. |
| PatternCompiler.CompiledCaptures | src/route-matcher.js:158-179 | A match of a compiled pattern has one capture per declared name, and each capture is non-empty. A `:name` capture holds no `/`. A `:name*` capture holds no line terminator. |
| PatternCompiler.PlainPatternExact | src/route-matcher.js:154-199 | A pattern with no `:`, `\` or `*` declares no names. Its expression matches exactly that text. |
| PatternCompiler.PlainPatternFolds | src/route-matcher.js:206-212 | With the `i` flag, the expression of a pattern with no `:`, `\` or `*` matches exactly the texts of its length that agree with it character by character up to ASCII case, with no captures. |
| RouteMatcher.Accepts | src/route-matcher.js:52-81 | Defines when a constraint accepts a raw value: unset and the empty string accept anything, another string must equal the value, a RegExp or function answers, and an array needs every item. `AcceptsLeaves` and `ApplyConstraint` state its properties. |
| RouteMatcher.AcceptsLeaves | src/route-matcher.js:66-74 | Nested array constraints are a logical AND: an array accepts exactly when every non-array constraint inside it, at any depth, accepts. |
| RouteMatcher.ApplyConstraint | src/route-matcher.js:52-81 | The method walks arrays item by item, stops at the first rejection, and answers exactly `Accepts`. |
| RouteMatcher.Records | src/route-matcher.js:43-50 | There is one record per distinct declared name, and no other record. It has that name, the position of the name's last declaration, and that position's capture as raw text. |
| RouteMatcher.KeyOrder | src/route-matcher.js:120 | Each declared name appears as a key exactly once, and nothing else does. |
| RouteMatcher.KeyOrderFirstSeen | src/route-matcher.js:43-50 | The keys come in the order in which their names were first declared, even though a duplicate later moves the record's position. |
| RouteMatcher.Coerced | src/route-matcher.js:83-118 | Defines the value a coercion computes: `int`, `number` and `boolean` by name, any other name leaves the text, and a function is called with the text and the records. `IntOfNumeral`, `IntOfWord`, `BooleanIgnoresCase` and `BooleanWords` state its properties. |
| RouteMatcher.CoerceKey | src/route-matcher.js:83-118 | Coercing a key changes only that key's value. Name and position stay, every other record stays, and a key without a coercion is left alone. |
| RouteMatcher.CoerceAll | src/route-matcher.js:128-129 | After all keys are coerced, the same names have records with the same names and positions. A record outside the keys, or without a coercion, is unchanged. |
| RouteMatcher.CollectRecords | src/route-matcher.js:43-50 | The `reduce` loop builds exactly `Records`. |
| RouteMatcher.CheckConstraints | src/route-matcher.js:120-126 | The loop over the keys, with its early return, answers exactly whether every key's constraint accepts. |
| RouteMatcher.CoerceKeys | src/route-matcher.js:128-129 | The `forEach` loop leaves exactly `CoerceAll`. |
| RouteMatcher.Matched | src/route-matcher.js:43-132 | What `getMatch` returns once the expression has matched: a result has a record for exactly the declared names. `MatchedIff`, `ResultShape` and `CoercedInOrder` state the rest. |
| RouteMatcher.Outcome | src/route-matcher.js:33-132 | What `getMatch` returns: a result only when the expression matches, with a record for exactly the declared names. `LiteralRoute`, `LiteralRouteIgnoringCase` and `ParsedCaptures` state it for parsed patterns. |
| RouteMatcher.RouteMatcher.constructor | src/route-matcher.js:13-18 | The fields hold the given URL, expression, names, constraints and coercions. |
| RouteMatcher.RouteMatcher.Create | src/route-matcher.js:13-26 | An empty URL fails with "URL required" and a missing RegExp with "regex required". Otherwise a new matcher is built, with missing names, constraints and coercions made empty. |
| RouteMatcher.RouteMatcher.Scan | src/route-matcher.js:152-199 | The `while` loop builds exactly the source `Source(s)` and the names `Names(Tokenize(s))`. |
| RouteMatcher.RouteMatcher.Parse | src/route-matcher.js:142-213 | Non-text fails with "URL must be a string" and text not starting with `/` fails with the leading-slash error, each exactly then. Text starting with `/` always succeeds, and the new matcher holds `Compile(url, caseInsensitive)`, the names in declaration order, and the option maps or empty ones. |
| RouteMatcher.RouteMatcher.GetMatch | src/route-matcher.js:33-132 | The result is exactly `Outcome`: no match gives `None`; a match gives the records, constrained and then coerced. |
| RouteMatcherFacts.AdmittedAnyOrder | src/route-matcher.js:120-126 | Checking the keys in `Object.keys` order accepts exactly when every declared name's constraint accepts. The order does not matter. |
| RouteMatcherFacts.MatchedIff | src/route-matcher.js:52-126 | After a match there is a result exactly when every declared name's constraint accepts that name's raw capture. Coercions never make a match fail. |
| RouteMatcherFacts.ResultShape | src/route-matcher.js:43-50 | A result has a record for exactly the declared names. Each is named after its key and sits at the key's last declaration, and an uncoerced record holds the capture at that position. |
| RouteMatcherFacts.IgnoresUndeclared | src/route-matcher.js:84 | Constraints and coercions for names the pattern does not declare are never consulted: dropping them changes nothing. |
| RouteMatcherFacts.CoercedInOrder | src/route-matcher.js:83-129 | The j-th key's coercion reads the key's raw capture. It sees the earlier keys with their final coerced values and the later keys still raw. A key without a coercion keeps its raw value. |
| RouteMatcherFacts.BooleanIgnoresCase | src/route-matcher.js:98-109 | `boolean` always yields a boolean, and the same one for a capture and its lower-cased form. |
| RouteMatcherFacts.BooleanWords | src/route-matcher.js:98-109 | `TRUE`, `On`, `T` and `1` coerce to true. `yes`, `0` and the empty text coerce to false. |
| RouteMatcherFacts.IntOfNumeral | src/route-matcher.js:92-93 | `int` turns a capture that starts with a decimal numeral into that number, with or without a leading `-`. Trailing text is ignored. |
| RouteMatcherFacts.IntOfWord | src/route-matcher.js:92-93 | `int` turns a capture that starts with a letter or other non-numeric character into NaN. |
| RouteMatcherFacts.ParsedCaptures | src/route-matcher.js:34-50 | In a result of a parsed matcher, every uncoerced value is non-empty. A `:name` value holds no `/`; a `:name*` value holds no line terminator. |
| RouteMatcherFacts.LiteralRoute | src/route-matcher.js:142-213 | A pattern with no `:`, `\` or `*` gives an empty result for exactly its own text and `null` for any other path, never a prefix, suffix or infix match. |
| RouteMatcherFacts.LiteralRouteIgnoringCase | src/route-matcher.js:206-212 | With `caseInsensitive`, a pattern with no `:`, `\` or `*` gives an empty result for exactly the paths of its length that spell it up to ASCII case, and `null` for any other. |
| Route.MatcherOptions | src/route.js:18-24 | The options passed to `parse` carry `caseInsensitive` as given, or false without options. Their constraint and coercion maps are those given, or empty. |
| Route.Route.constructor | src/route.js:13-26 | The fields hold the given non-empty name and matcher. |
| Route.Route.New | src/route.js:12-27 | A name that trims to nothing fails with the empty-name error, exactly then. A built matcher is kept as is. Otherwise `parse` errors are passed on, text starting with `/` always gives a route, and a new matcher holds what `parse` builds with the route's options. The name is always the trimmed one. |
| Route.Route.GetMatch | src/route.js:34-36 | The route answers exactly what its matcher's `getMatch` answers. |

## Left out

- Matching under the `i` flag folds ASCII letters only. JavaScript also folds other letters, for example `é` against `É`.
- `toLowerCase` in the `boolean` coercion lowers ASCII only. The words it looks for are ASCII, and no other letter lowers to one of them.
- Strings are sequences of characters, not UTF-16 code units. Surrogate pairs are not modelled.
- A `RegExp` passed to the `RouteMatcher` constructor may be any expression, but the model admits only expressions in the fragment `parse` emits.
- A RegExp constraint is its `test` as a given function of the raw value. The state of a `g`-flagged expression (`lastIndex`) is not modelled.
- Number, boolean and object constraints are not modelled. String constraints are modelled: the empty string is falsy, and any other string is compared with the raw value.
- `Number(text)` stays an uninterpreted value `NumberOf(text)`, because floating point is not modelled.
- JsText.ParseInt: it returns the exact integer. `parseInt` rounds numerals beyond 2^53 to a double and returns -0 for `-0`, and the `int` coercion (`IntOfNumeral`) inherits this difference.
- KeyOrder: it keeps every key in first-declaration order. JavaScript moves integer-like names such as `:0` to the front of `Object.keys`.
- Names that are members of `Object.prototype` are not modelled, for example `constructor` or `toString`. An unknown constraint or coercion key may then find an inherited member.
- Route.Route.New: the name is taken as text. `String(name)` for other values is not modelled.
- RouteMatcher.RouteMatcher.Create: the URL is taken as text. A truthy non-string URL is not modelled.
- Constraint and coercion functions are pure functions of their arguments. Side effects, exceptions, and their ability to keep or mutate the records they receive are not modelled.
- A coercion function that returns an object is an opaque value. What it contains is not modelled.

Files not part of this model:
- `dist/roux.js` is a generated bundle of the same source.
- `karma.conf.js` configures the test runner.
