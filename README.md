# Request matching and response selection of the `mocked` HTTP mock server

`mocked` serves canned HTTP responses described in a configuration file.
Each route names a path, the methods it answers and an ordered list of
conditions; a condition pairs a matcher (a path parameter whose value is
one of a list, or a header whose value contains one of a list of strings)
or a tree of matchers (`And` / `Or`) with the response to send. A request
is answered by the first condition that holds; when none holds the answer
is a 404. Routes may turn CORS on, which appends four fixed
`Access-Control-*` headers and answers `OPTIONS` preflights; a route that
does not say inherits the global CORS option.

This project models that engine in Dafny and proves what it promises:

- `base.dfy` — `Option`, `Result` and the iterator combinators the Rust
  code is built from (`find`, `all`, `any`, with the prefix a
  short-circuiting evaluation consults).
- `text.dfy` — ASCII lower-casing, `str::contains`, comma join and split.
- `floats.dfy`, `integers.dfy` — `f64` values with IEEE equality (NaN
  equals nothing) and an exact `str::parse::<i64>`.
- `value.dfy`, `match.dfy` — the two string coercions, `Value`
  (integer, then float, then text) and `Match` (float, then text).
- `http.dfy` — the slice of the HTTP library in use: status and header
  syntax, case-insensitive request-header lookup, and a response class
  whose header list is changed in place by `insert` and `append`.
- `request.dfy` — the request view and the fold of path parameters.
- `matcher.dfy`, `matchers.dfy`, `condition.dfy` — atomic matchers, the
  `And`/`Or` tree and the precedence rule of a condition.
- `method.dfy`, `body.dfy`, `response.dfy`, `route.dfy`, `config.dfy` —
  methods and their printed names, bodies, response rendering, condition
  selection, the handler with CORS, and CORS inheritance, ending with the
  router test of `src/routing/config.rs`.
- `legacy_matcher.dfy`, `legacy_matchers.dfy`, `legacy_rule.dfy` — the
  older snapshot of the same logic (`src/matcher.rs`, `src/matchers.rs`,
  `src/rule.rs` and its copy `src/routing/rule.rs`). The older matcher and
  tree are proved to decide every request as their routing counterparts,
  and the older response selection to pick what the routing condition
  selection picks when its responses are routing conditions. The older
  handler renders through a parameter, so it is not related to
  `Routes.Handle` beyond that selection; it answers with the same
  `Http.HttpResponse` class, and its 404 is the routing one.

Foreign behaviour enters as parameters: `FloatParser` stands for
`str::parse::<f64>` and `FileSystem` for `fs::read_to_string`. Every
`unwrap` that would panic on configured data (`StatusCode::from_u16`,
header name and value parsing, a method bound twice) is a precondition.

Three inconsistencies between parts of the source are resolved explicitly:

- The routing matcher coerces path values with `Match`
  (`src/routing/matcher.rs:32`), and so does this model. The first test of
  `src/routing/condition.rs` expects `Numeric(123.)` to accept the value
  "123": that holds under `Match` (`Conditions.SingleMatcherEvaluatedFirst`)
  but not under `Value`, where "123" is `Integer(123)`
  (`Conditions.ValueCoercionBreaksNumericTest`). The tests in that file are
  also written against an older matcher API (`Matcher::PathParam` with a
  `values` field) that the shown definitions no longer have.
- The router test of `src/routing/config.rs` spells its condition as
  `type: HeaderContains` with `values`, which is not the shape of the
  matcher's configuration (`of` / `with` / `matches`). Decoding is not
  modelled; the model takes the condition the test evidently means, a
  header-contains matcher on `Authorization` for "Basic".
- `src/routing/rule.rs` matches on `Method::GET` and friends, which the
  routing `Method` does not have, and the older `Response::matches` and
  `Response::response` it calls are not among the shown definitions. The
  older rule is therefore modelled once, with its own six-variant method
  type and with the response's matching and rendering as parameters. The
  table cites `src/rule.rs`; `src/routing/rule.rs` is the same code, its
  lines 29-38, 40-66 and 68-70 corresponding to lines 37-46, 48-74 and
  76-78 of `src/rule.rs`, and both fold path parameters exactly as
  `Requests.ParamsOf` does (`src/rule.rs:55-60`, `src/routing/rule.rs:47-52`).

## Model

| member | source | states |
|---|---|---|
| ValueCoercion.FromString | src/routing/value.rs:11-21 | Total coercion: `Integer` exactly when the `i64` parse succeeds (value within `i64` range); `Numeric` of the parsed float exactly when the integer parse fails and the float parse succeeds; otherwise `String` carrying the input unchanged |
| ValueCoercion.Eq | src/routing/value.rs:3-9 | Derived equality: it implies identity of variant and payload, and coincides with identity except on a NaN `Numeric`, which equals nothing |
| ValueCoercion.SignedDigitsAreIntegers | src/routing/value.rs:13-14 | An optional `+`/`-` followed by decimal digits whose value fits `i64` coerces to `Integer` of that signed value, whatever the float parser says |
| ValueCoercion.IntegersNeverNumeric | src/routing/value.rs:13-16 | Text that parses as `i64` never becomes `Numeric` |
| ValueCoercion.FortyTwo | src/routing/value.rs:27-31 | "42" coerces to `Integer(42)` |
| ValueCoercion.TenPointFive | src/routing/value.rs:34-38 | "10.5" fails the integer parse and becomes `Numeric(10.5)` |
| ValueCoercion.Hello | src/routing/value.rs:40-44 | "hello" stays `String("hello")` |
| ValueCoercion.IntegerEqualsOnlyIntegers | src/routing/value.rs:3-9 | Derived equality is variant-sensitive: an `Integer` equals exactly the same `Integer` and nothing else |
| ValueCoercion.IntegerTextNeverEqualsNumeric | src/routing/value.rs:3-16 | An integer-looking text never equals any configured `Numeric` |
| Integers.ParseI64 | src/routing/value.rs:13 | An accepted integer lies in the `i64` range |
| Integers.ParseDecimal | src/routing/value.rs:13 | Printing any `i64` in decimal (with `-` when negative) and parsing it gives the number back |
| Integers.ParsedIsSignedDigits | src/routing/value.rs:13 | Whatever the integer parse accepts is an optional sign followed by the digits of its magnitude |
| Floats.Eq | src/routing/value.rs:3-8 | `f64` equality is identity except that NaN equals nothing, on either side |
| MatchCoercion.FromString | src/routing/match.rs:10-17 | Total coercion with two outcomes: `Numeric` of the parse exactly when the float parse succeeds, else `String` carrying the input unchanged |
| MatchCoercion.Eq | src/routing/match.rs:3-8 | Derived equality: it implies identity of variant and payload, and coincides with identity except on a NaN `Numeric`, which equals nothing |
| MatchCoercion.NumericNeverEqualsString | src/routing/match.rs:3-8 | A `Numeric` never equals a `String`, in either order |
| MatchCoercion.Ten | src/routing/match.rs:23-27 | Integer-looking "10" becomes `Numeric(10.)` |
| MatchCoercion.Hello | src/routing/match.rs:29-33 | "hello" stays `String("hello")` |
| Text.Lower | src/routing/matcher.rs:51 | Header names are normalised character by character: ASCII capitals become lower case, all else is kept, length unchanged |
| Text.LowerIdempotent | src/routing/matcher.rs:51 | Lower-casing a normalised name changes nothing |
| Text.Contains | src/routing/matcher.rs:53 | `str::contains` holds exactly when the needle occurs at some position of the text |
| Text.EmptyIsContained | src/routing/matcher.rs:53 | The empty string is contained in every text |
| Text.NothingButEmptyInEmpty | src/routing/matcher.rs:52-53 | The empty text contains only the empty string |
| Text.Join | src/routing/route.rs:110 | Joining nothing gives ""; otherwise the length is the items' total length plus one separator between each pair, and the join starts with the first item |
| Text.SplitJoin | src/routing/route.rs:105-110 | Splitting a separator-joined list of non-empty, separator-free items gives the list back |
| Text.JoinChars | src/routing/route.rs:105-110 | Every character of a join comes from an item or is the separator |
| Http.Get | src/routing/matcher.rs:51 | Header lookup finds a value exactly when the name is a valid header name and its lower-cased form is present, and returns that value |
| Http.GetIgnoresCase | src/routing/matcher.rs:51 | Names equal up to ASCII case find the same header |
| Http.LowerKeepsTokens | src/routing/matcher.rs:51 | A name is a valid header name exactly when its lower-cased form is |
| Http.ValuesOfConcat | src/routing/route.rs:93-95 | The values under a name in a concatenated header list are those of the first part followed by those of the second |
| Http.Inserted | src/routing/response.rs:29-30 | After `insert`, the name carries exactly the inserted value; every other name keeps its values |
| Http.AppendedValues | src/routing/route.rs:94 | After `append`, the value follows the values the name already had; every other name keeps its values |
| Http.HttpResponse.constructor | src/routing/response.rs:26 | A new response holds exactly the given status, body and headers |
| Http.HttpResponse.Insert | src/routing/response.rs:29-30 | The header list becomes its `insert`ed form; status and body are unchanged |
| Http.HttpResponse.Append | src/routing/route.rs:63 | One entry is added at the end of the header list; status and body are unchanged |
| Http.HttpResponse.AppendAll | src/routing/route.rs:93-95 | Appending a header map entry by entry leaves the old headers followed by all new entries in order |
| Requests.ParamsOfKeys | src/routing/route.rs:75-80 | The parameter map holds exactly the names that occur in the raw pairs |
| Requests.ParamsOfLastValue | src/routing/route.rs:75-80 | A name that does not occur again later is bound to the value of that occurrence |
| Requests.ParamsOfLastWins | src/routing/route.rs:75-80 | The parameter map holds exactly the names that occur, each with the value of its last occurrence |
| Requests.ParamsOf | src/routing/route.rs:75-80 | Every name in the parameter map is bound to a value it was given with in the raw pairs |
| Requests.CollectPathParams | src/routing/route.rs:75-80 | The loop that inserts the pairs one by one yields the fold `ParamsOf` |
| Matching.HeaderText | src/routing/matcher.rs:52 | A header value is read as itself when visible ASCII, else as "" |
| Matching.ListContains | src/routing/matcher.rs:33 | `matches.contains(&value)` holds exactly when some configured value equals the coerced one; for a non-NaN value that is plain membership |
| Matching.PathParamMatches | src/routing/matcher.rs:29-41 | A match needs the parameter present and a non-empty value list, and holds exactly when the `Match` coercion of the parameter equals a configured value |
| Matching.HeaderValueContainsMatches | src/routing/matcher.rs:49-64 | A match needs the header present and a non-empty list, and holds exactly when some configured string occurs in the header text |
| Matching.Matches | src/routing/matcher.rs:14-21 | Each variant dispatches to its own matcher; a header matcher does not depend on path parameters |
| Matching.PathParamAbsent | src/routing/matcher.rs:31-39 | An absent path parameter never matches |
| Matching.PathParamMembership | src/routing/matcher.rs:29-41 | A present parameter matches exactly when its `Match` coercion equals one of the configured values; for a non-NaN coercion that is plain list membership |
| Matching.PathParamOrderIrrelevant | src/routing/matcher.rs:33 | Reordering or repeating the configured values changes nothing |
| Matching.PathParamEmptyNeverMatches | src/routing/matcher.rs:33 | An empty value list never matches |
| Matching.HeaderAbsent | src/routing/matcher.rs:51-62 | An absent header never matches |
| Matching.HeaderContainment | src/routing/matcher.rs:49-64 | A present header matches exactly when some configured string occurs in its value; an empty list never matches |
| Matching.NonAsciiHeaderReadsEmpty | src/routing/matcher.rs:52-53 | A value that is not visible ASCII matches exactly when "" is configured |
| Matching.HeaderNameCaseInsensitive | src/routing/matcher.rs:51 | The configured header name is matched without regard to ASCII case |
| Matching.ParamValueX | src/routing/matcher.rs:77-93 | `param1=valueX` matches `[String("valueX")]` |
| MatcherTree.TreeMatches | src/routing/matchers.rs:14-19 | `And` holds iff every matcher holds, `Or` iff some matcher holds |
| MatcherTree.TreeSemantics | src/routing/matchers.rs:13-20 | `And` holds iff every matcher holds, `Or` iff some matcher holds; the empty `And` holds and the empty `Or` does not |
| MatcherTree.Consulted | src/routing/matchers.rs:16-17 | Evaluation consults a prefix: `And` stops at the first failing matcher, `Or` at the first holding one, and that prefix alone decides |
| MatcherTree.PermutationInvariant | src/routing/matchers.rs:16-17 | Permuting the matcher list does not change the result |
| MatcherTree.AppendMonotone | src/routing/matchers.rs:16-17 | Appending a matcher can only turn `And` false and `Or` true |
| Conditions.Precedence | src/routing/condition.rs:18-31 | A set single matcher decides alone; otherwise a set tree decides; with neither the condition holds; the response never takes part |
| Conditions.TreeIgnoredUnderSingleMatcher | src/routing/condition.rs:20-21 | With a single matcher set, adding or removing the tree changes nothing |
| Conditions.ConditionMatches | src/routing/condition.rs:19-30 | A set single matcher decides; else a set tree decides; with neither the condition holds |
| Conditions.SingleMatcherEvaluatedFirst | src/routing/condition.rs:47-78 | `foo=234` is refused although the tree accepts it, and `foo=123` is accepted |
| Conditions.ValueCoercionBreaksNumericTest | src/routing/condition.rs:50-53 | Under `Value` coercion "123" never equals `Numeric(123.)` |
| Conditions.UnconditionalMatchesAll | src/routing/condition.rs:106-127 | A condition without matcher and tree matches every request |
| Methods.ToString | src/routing/method.rs:15-18 | A printed method name is at least three upper-case ASCII letters |
| Methods.ParseToString | src/routing/method.rs:4-13 | Reading the printed name as a wire name gives the method back |
| Methods.Parse | src/routing/method.rs:3-13 | Only the seven upper-case names parse, each to the method that prints as it |
| Methods.ToStringInjective | src/routing/method.rs:5-18 | Different methods print differently |
| Methods.NameHasNoComma | src/routing/method.rs:15-18 | A printed name is non-empty and has no comma |
| Methods.Names | src/routing/route.rs:105-109 | The printed names of a method list, one per method, in order |
| Bodies.Empty | src/routing/body.rs:16-18 | `Body::empty()` resolves to "" on every file system |
| Bodies.Resolve | src/routing/body.rs:21-32 | Inline text resolves to itself; a file resolves to exactly what reading it gives |
| Bodies.InlineIgnoresFileSystem | src/routing/body.rs:26 | Inline text never fails and does not depend on the file system |
| Bodies.FileReadAfresh | src/routing/body.rs:27-29 | Two resolutions of a file body agree exactly when the reads agree: nothing is cached |
| Responses.BodyOrEmpty | src/routing/response.rs:23 | The configured body, or one resolving to "" when absent |
| Responses.Render | src/routing/response.rs:20-41 | On a resolved body: configured status, resolved text, and every configured header inserted with its value while other names keep the base headers; on failure: 500, "Error creating response: " plus the error, plain-text headers only |
| Responses.InsertKeepsApplied | src/routing/response.rs:27-31 | Inserting one more configured header preserves the applied-headers invariant of the loop |
| Responses.DistinctNamesExact | src/routing/response.rs:27-31 | A configured header whose name no other configured name shares carries exactly its configured value |
| Responses.FailureIs500 | src/routing/response.rs:34-38 | A body that fails to resolve gives 500, a body starting with the fixed prefix, and no configured header |
| Responses.AbsentBodyIsEmpty | src/routing/response.rs:23 | An absent body renders as "" with the configured status |
| Routes.CorsEnabled | src/routing/route.rs:51 | CORS is on exactly when the route says `true`; unset means off |
| Routes.SelectCondition | src/routing/route.rs:119-121 | A selected condition is one of the route's and holds; nothing is selected exactly when no condition holds |
| Routes.SelectFirstMatch | src/routing/route.rs:119-121 | The selected condition is the first that holds, every earlier one fails, and nothing is selected exactly when none holds |
| Routes.EarlierOverlappingWins | src/routing/route.rs:119-121 | Of two conditions that both hold, the earlier is selected, so their order decides |
| Routes.CorsNamesDistinct | src/routing/route.rs:112-115 | The four CORS header names are distinct |
| Routes.CorsHeaders | src/routing/route.rs:104-117 | Exactly four headers, with pairwise distinct names |
| Routes.CorsHeaderValues | src/routing/route.rs:104-117 | Allow-Origin is "*", Allow-Methods the comma-joined method names, Allow-Headers "Authorization", Allow-Credentials "true", one value each and no other header |
| Routes.CorsMethodsRoundTrip | src/routing/route.rs:105-110 | Splitting Allow-Methods at commas gives the configured methods' names in order |
| Routes.CorsValuesValid | src/routing/route.rs:112-115 | Every CORS value is a valid header value, so building them never panics |
| Routes.HandlerForMethods | src/routing/route.rs:35-57 | Exactly the configured methods are bound to the handler, plus OPTIONS to the preflight handler when CORS is on |
| Routes.CorsHandler | src/routing/route.rs:59-66 | A preflight answers 200 with an empty body and exactly the CORS headers |
| Routes.Handle | src/routing/route.rs:68-102 | With no condition selected: 404, "Unable to select response for input", no CORS headers; else the selected response rendered, followed by the CORS headers when CORS is on |
| Routes.CorsAppendsAfterOwn | src/routing/route.rs:89-97 | With CORS on, every name keeps its own values, followed by the CORS values |
| Configs.Inherit | src/routing/config.rs:35-41 | A route keeps its own CORS setting, or takes the global one when unset; nothing else changes |
| Configs.InheritEnableCors | src/routing/config.rs:29-47 | Options unchanged; same number of routes, each inheriting the global CORS setting |
| Configs.InheritKeepsRoutes | src/routing/config.rs:31-42 | Path, methods and conditions of every route are kept, and only an unset CORS flag changes |
| Configs.InheritIdempotent | src/routing/config.rs:29-47 | Inheriting twice is inheriting once |
| Configs.UnsetStaysOff | src/routing/config.rs:37-39 | A route with CORS unset under unset options stays unset, which means off |
| Configs.TestHeaderFound | src/routing/config.rs:86-91 | `Authorization` finds the lower-case `authorization` header, whose value contains "Basic" |
| Configs.TestConditionSelected | src/routing/config.rs:69-74 | The test request selects the route's header condition |
| Configs.TestResponseRendered | src/routing/config.rs:75-81 | The selected response renders as 200, "this is a string" and Content-Type `test/plain` |
| Configs.TestRouteInherited | src/routing/config.rs:59-68 | With global CORS unset the route's own `enable_cors: true` is kept |
| Configs.TestRouteBindable | src/routing/config.rs:64-68 | POST and PUT are bound once each and OPTIONS is left to the preflight |
| Configs.TestResponseRenderable | src/routing/config.rs:75-78 | The configured status and header parse, so rendering does not panic |
| Configs.RouterTest | src/routing/config.rs:57-95 | `PUT /test` with `Authorization: Basic foofoo` answers 200, "this is a string", Content-Type `test/plain`, followed by the four CORS headers for POST,PUT |
| LegacyMatching.AgreesWithRouting | src/matcher.rs:18-34 | The older matcher decides every request as the routing path-parameter matcher does |
| LegacyMatching.Matches | src/matcher.rs:18-34 | A match needs the parameter present and a non-empty value list, and holds exactly when its `Match` coercion equals a configured value |
| LegacyMatching.Absent | src/matcher.rs:22-30 | An absent parameter never matches |
| LegacyMatching.Membership | src/matcher.rs:22-28 | A present parameter matches exactly when its `Match` coercion equals a configured value |
| LegacyMatching.EmptyNeverMatches | src/matcher.rs:24 | An empty value list never matches |
| LegacyMatching.ParamValueX | src/matcher.rs:47-63 | `param1=valueX` matches `[String("valueX")]` |
| LegacyMatchers.Empty | src/matchers.rs:14-16 | `Matchers::empty()` is the empty `Or` |
| LegacyMatchers.EmptyMatchesNothing | src/matchers.rs:14-21 | `Matchers::empty()` matches no request |
| LegacyMatchers.TreeSemantics | src/matchers.rs:18-23 | `And` iff all hold (empty `And` holds), `Or` iff some holds |
| LegacyMatchers.Consulted | src/matchers.rs:20-21 | Left-to-right short-circuit: the consulted prefix stops at the first deciding matcher and alone decides |
| LegacyMatchers.AgreesWithRouting | src/matchers.rs:18-23 | The older tree decides every request as its routing counterpart |
| LegacyMatchers.TreeMatches | src/matchers.rs:18-23 | `And` holds iff every matcher holds, `Or` iff some matcher holds |
| LegacyRules.Bound | src/rule.rs:37-46 | Each older method maps to its routing method, never OPTIONS |
| LegacyRules.BoundInjective | src/rule.rs:37-46 | The six-case mapping is injective |
| LegacyRules.HandlerForMethod | src/rule.rs:37-46 | Exactly the rule's one method is bound to the handler |
| LegacyRules.SelectFirstMatch | src/rule.rs:76-78 | The selected response is the first that matches; none is selected exactly when none matches |
| LegacyRules.SelectResponse | src/rule.rs:76-78 | A selected response is one of the rule's and matches; nothing is selected exactly when none matches |
| LegacyRules.SelectAgreesWithRouting | src/rule.rs:76-78 | With routing conditions as responses, the older rule selects what the route with the same path, method and conditions selects |
| LegacyRules.Handle | src/rule.rs:48-74 | No selected response gives 404 with "Unable to select response for input"; otherwise the selected response's own rendering |
| LegacyRules.NothingMatchesIs404 | src/rule.rs:70-73 | A rule none of whose responses matches selects nothing, hence answers 404 |

## Left out

- Startup, command line, configuration file reading, TCP binding and serving are I/O with no decision logic.
- Decoding and encoding of the YAML configuration (serde attributes) is not modelled; configurations are built directly as values.
- Router assembly (`Route::router`, `Config::router`, `Rules::router`) merges framework routers; dispatch is modelled only as the method-to-handler table.
- The response-delay middleware uses randomness and sleeping and is not part of this model.
- `str::parse::<f64>` is the parameter `FloatParser`; a parsed float is a real number or one of the non-finite values, so the sign of zero is not kept (it does not affect equality).
- `fs::read_to_string` is the parameter `FileSystem`; an I/O error is kept as its debug text.
- Panics on invalid status codes, invalid header names or values, and methods bound twice (including OPTIONS configured on a CORS route) are preconditions rather than modelled failures.
- Requests whose method a route does not bind (405) and the framework's HEAD-to-GET fallback are framework behaviour and are not modelled.
- A request header is modelled by its first value only, and header names longer than the library's limit are not rejected.
- The `content-type` header added by `into_response` for a text body is the one framework default the model keeps; other defaults (such as `content-length`) are not modelled.
- Logging is not modelled.
- `Body::Include`, `BodyContains` and `HeaderContainsMatcher`, named in `src/init.rs`, have no definition in the shown code and are not modelled.
- The older `Response::matches` and `Response::response` are not defined in the shown code; they are parameters of `LegacyRules`, the rendering given as status, body and header list.
- `src/match.rs`, the coercion the older matcher imports (`src/matcher.rs:3`), is not part of this model; the older matcher is modelled with the routing `Match` coercion of `src/routing/match.rs`, on the assumption that the two are the same.
- Routes.HandlerForMethods: returns a method-to-handler-kind table instead of a framework router, so it does not capture how the framework dispatches.
