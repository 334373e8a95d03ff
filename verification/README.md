# Joomla application package, modelled in Dafny

This project models the decision logic of the Joomla Framework `application`
package: the base application's configuration store, logger and `execute`
event lifecycle; the controller resolver; the web response buffer (headers,
body, compression, `respond`, `sendHeaders`, `redirect` and request-URI
detection); the command-line parameter parser; the CLI colour-tag processor;
the session-aware application's CSRF token check; and the parts of the web
client that depend only on request headers. Each part is one module, and
each module has one file:

| module | file | what it holds |
|---|---|---|
| `Wrappers` | wrappers.dfy | `Option` and `Result` with failure propagation |
| `Strings` | strings.dfy | PHP's `explode`/`implode`, `trim` with a character list, `str_replace`, `strtolower`, decimal rendering and `(int)` casts |
| `Assoc` | assoc.dfy | building a PHP array by assigning pairs in order (the last assignment wins) |
| `Json` | json.dfy | `json_encode` of a string, with a decoder that inverts it |
| `Application` | application.dfy | `AbstractApplication`: construction, `get`/`set`, `setConfiguration`, `getLogger`, `dispatchEvent`, `execute` |
| `ControllerResolver` | controller_resolver.dfy | `ControllerResolver::resolve` and `instantiateController` |
| `WebResponse` | web_response.dfy | the response side of the web application |
| `CliParameter` | cli_parameter.dfy | `Cli\Parameter` |
| `ColorProcessor` | color_processor.dfy | `Cli\Output\Processor\ColorProcessor` |
| `SessionAware` | session_aware.dfy | `AbstractSessionAwareWebApplication` |
| `WebClient` | web_client.dfy | the accepted encodings and languages, request headers, and the mobile flag |

The PHP runtime is given to the model as parameters:
- the configuration registry becomes a map;
- the event dispatcher is a record saying which event names make it throw;
- `class_exists`, `function_exists`, `is_callable` and `new $class` are fields of a runtime record;
- the session's `getToken`/`hasToken`, the input `alnum` filter, zlib encoding, the clock and the client's engine are functions or values passed in.

Output is modelled as a record. It lists each PHP `header()` call with its `replace` flag and response code, the echoed text, and whether `close` was called.

`AbstractWebApplication` and `WebClient` are modelled from what their
tests, `Tests/AbstractWebApplicationTest.php` and
`Tests/Web/WebClientTest.php`, assert. Where a behaviour could be read more than one way, the model takes
the reading those assertions force:
- `setHeader($name, $value, true)` removes earlier headers whose name is exactly `$name`, not compared case-insensitively. With a case-insensitive comparison, the pre-set lower-case `status` header in `testRedirectWithExistingStatusCode1` (Tests/AbstractWebApplicationTest.php:760-837) would be replaced by the redirect's `Status`. The test instead expects both status lines to be sent.
- `compress` picks the first supported encoding in the client's order, not gzip first. With the client list `[deflate, gzip]` the test expects `deflate` (Tests/AbstractWebApplicationTest.php:353-359).
- The reason phrase of 303 is `See other`, with a lower-case o (Tests/AbstractWebApplicationTest.php:663).
- `respond` always adds `Content-Type` first, cached or not (Tests/AbstractWebApplicationTest.php:538-590).
- `checkToken` asks the session whether it holds its own form token. It ignores the submitted value. That is what src/AbstractSessionAwareWebApplication.php:98 does, and the tests rely on it (Tests/SessionAwareWebApplicationTraitTest.php:58-119).

## Model

| member | source | states |
|---|---|---|
| Application.New | src/AbstractApplication.php:54-64 | The constructor keeps the given configuration and records the three execution clock readings under `execution.datetime`, `execution.timestamp` and `execution.microtimestamp`; no logger or dispatcher is set |
| Application.Get | src/AbstractApplication.php:144-147 | `get` returns the stored value when the key is present and the default otherwise |
| Application.Set | src/AbstractApplication.php:191-197 | `set` stores the value, returns the previous value exactly when the key was present, and leaves every other key, the logger and the dispatcher unchanged |
| Application.SetThenGet | Tests/AbstractApplicationTest.php:127-167 | After `set(k, v)`, `get(k)` is `v` and every other key reads as before |
| Application.SetTwice | src/AbstractApplication.php:191-197 | Setting a key twice returns the first value from the second call and leaves only the second value |
| Application.SetConfiguration | src/AbstractApplication.php:208-213 | The whole store is replaced; logger and dispatcher are kept |
| Application.GetLogger | src/AbstractApplication.php:156-164 | A set logger is returned without change; without one, a null logger is installed and returned |
| Application.GetLoggerIdempotent | Tests/AbstractApplicationTest.php:145-150 | A second `getLogger` returns the same logger and changes nothing |
| Application.DispatchEvent | src/AbstractApplication.php:91-100 | Without a dispatcher nothing is dispatched and null is returned; with one, exactly the given event (or a default application event of that name) is dispatched, and a throwing listener's throwable is the outcome |
| Application.HandleThrowable | src/AbstractApplication.php:129-131 | The catch block dispatches one ERROR event carrying the throwable; only a throwing ERROR listener lets a throwable escape |
| Application.Execute | src/AbstractApplication.php:120-132 | The routine runs exactly when the before-execute dispatch does not throw; a throwable escapes only from the ERROR dispatch |
| Application.ExecuteCounts | src/AbstractApplication.php:120-132 | On every outcome the routine runs at most once, at most one ERROR event is dispatched, and none is dispatched when AFTER_EXECUTE was dispatched and its listeners did not throw |
| Application.ExecuteCompletes | Tests/AbstractApplicationTest.php:107-120 | With a quiet dispatcher and a routine that returns, the trace is BEFORE_EXECUTE, the routine, AFTER_EXECUTE, and nothing escapes |
| Application.ExecuteWithoutDispatcher | Tests/AbstractApplicationTest.php:92-99 | Without a dispatcher the routine still runs and nothing else happens |
| Application.ExecuteRoutineThrows | src/AbstractApplication.php:122-131 | A throwing routine is followed by one ERROR event with its throwable and no AFTER_EXECUTE |
| Application.ExecuteBeforeThrows | src/AbstractApplication.php:122-131 | A throwing BEFORE_EXECUTE listener skips the routine and leads to one ERROR event |
| Application.ExecuteAfterThrows | src/AbstractApplication.php:122-131 | A throwing AFTER_EXECUTE listener leads to one ERROR event after the routine |
| ControllerResolver.InstantiateController | src/Controller/ControllerResolver.php:119-122 | An instance of the class is made exactly when `new $class()` succeeds; otherwise the construction error (argument count or any other) is returned |
| ControllerResolver.Resolve | src/Controller/ControllerResolver.php:32-108 | Every resolved controller is callable; the required-arguments error names the class the reference names, and that class exists and needs arguments; any other construction error names that class and escapes; the URI error carries the route's URI; an object resolves to itself exactly when it is callable |
| ControllerResolver.ArrayWithZeroArgClass | src/Controller/ControllerResolver.php:37-66 | `[class, method]` with an instantiable class resolves to the same pair with a fresh instance in slot 0 when that is callable, and to the URI error otherwise |
| ControllerResolver.ArrayWithMissingClass | src/Controller/ControllerResolver.php:39-43 | `[class, method]` with an unknown class fails with the URI error |
| ControllerResolver.RequiredArgumentsNamesClass | src/Controller/ControllerResolver.php:45-56 | Both the array form and the class-name form of a class needing constructor arguments fail with the required-arguments message naming the class |
| ControllerResolver.ConstructionErrorEscapes | src/Controller/ControllerResolver.php:45-56 | A construction error other than the argument count, such as an abstract class, escapes `resolve` uncaught for both the array form and the class-name form |
| ControllerResolver.FunctionBeforeClass | src/Controller/ControllerResolver.php:80-82 | A known function name resolves to itself, before any class-name check |
| ControllerResolver.ClassNameBranch | src/Controller/ControllerResolver.php:85-104 | An unknown class name fails with the URI error; an instantiable class resolves to `[instance, 'execute']` when that is callable and raises the `callable` type error when it is not |
| ControllerResolver.ClassNameWithoutInterface | src/Controller/ControllerResolver.php:84-107 | Without the controller interface, a name that is not a function fails with the URI error |
| ControllerResolver.ArrayCallable | src/Controller/ControllerResolver.php:37-66 | An array that names no class to instantiate resolves to itself exactly when it is callable, and fails with the URI error otherwise |
| ControllerResolver.UnsupportedReference | src/Controller/ControllerResolver.php:107 | A reference matching no branch fails with `Cannot resolve controller for URI` and the URI |
| ControllerResolver.ResolverTestCases | Tests/Controller/ControllerResolverTest.php:27-112 | Test instance: the seven resolver tests: the Registry pair, the missing method, the class with arguments, the closure, `str_replace`, the stub controller and the stub with arguments |
| WebResponse.SetHeader | Tests/AbstractWebApplicationTest.php:1224-1246 | `setHeader` puts the new header last; without replace the earlier headers are kept as they were; body and caching are unchanged |
| WebResponse.SetHeaderReplaceKeepsOthers | Tests/AbstractWebApplicationTest.php:1224-1246 | With replace, the headers before the new one are exactly the earlier headers of other names |
| WebResponse.SetHeaderReplaceLeavesOne | Tests/AbstractWebApplicationTest.php:1224-1246 | With replace, exactly one header of that name remains |
| WebResponse.SetHeaderReplaceIdempotent | Tests/AbstractWebApplicationTest.php:1224-1246 | Replacing a header twice with the same value is the same as once |
| WebResponse.SetHeaderReplaceAbsent | Tests/AbstractWebApplicationTest.php:1224-1246 | Replacing a header no one carries appends it |
| WebResponse.SetHeaderTestCase | Tests/AbstractWebApplicationTest.php:1224-1246 | Test instance: `foo: bar` then `foo: car` with replace leaves only `foo: car` |
| WebResponse.ClearHeaders | Tests/AbstractWebApplicationTest.php:1267-1275 | All headers are removed; body and caching are kept |
| WebResponse.ConcatAppend | Tests/AbstractWebApplicationTest.php:1321-1372 | The body of concatenated chunk lists is the concatenated body |
| WebResponse.SetBody | Tests/AbstractWebApplicationTest.php:1321-1327 | The body becomes exactly the content; headers and caching are kept |
| WebResponse.PrependBody | Tests/AbstractWebApplicationTest.php:1336-1343 | The body becomes the content followed by the old body |
| WebResponse.AppendBody | Tests/AbstractWebApplicationTest.php:1352-1359 | The body becomes the old body followed by the content |
| WebResponse.BodyTestCases | Tests/AbstractWebApplicationTest.php:1321-1372 | Test instance: the empty body, `Testing`, `Pre-Testing` and `Testing Later` |
| WebResponse.AllowCache | Tests/AbstractWebApplicationTest.php:1210-1216 | `allowCache` returns the flag, sets it when an argument is given and changes nothing else |
| WebResponse.ChooseEncoding | Tests/AbstractWebApplicationTest.php:315-319 | The chosen position is the first in the client's order whose encoding is supported and encodes |
| WebResponse.Compress | Tests/AbstractWebApplicationTest.php:234-528 | With headers sent, or no usable encoding, nothing changes; with headers unsent and a usable encoding chosen, the body becomes its encoding in the first usable client encoding and the three compression headers are appended, the caching flag kept |
| WebResponse.CompressAppliesFirstUsable | Tests/AbstractWebApplicationTest.php:234-361 | For every response and accepted list: when position `i` is the first supported encoding the encoder succeeds with, the body becomes that encoding of the old body and the three compression headers follow the old headers |
| WebResponse.CompressWithoutUsable | Tests/AbstractWebApplicationTest.php:370-528 | For every response: when no accepted encoding is both supported and encodable, the response is unchanged |
| WebResponse.CompressTestCases | Tests/AbstractWebApplicationTest.php:234-528 | Test instance: `[gzip, deflate]` gives gzip headers, `[deflate, gzip]` gives deflate headers, and `[foo, bar]`, no encodings, or headers already sent leave the response unchanged |
| WebResponse.CompressFirstSupported | Tests/AbstractWebApplicationTest.php:302-361 | A supported first encoding gives exactly its three headers |
| WebResponse.ValidStatusTestCases | Tests/AbstractWebApplicationTest.php:1707-1728 | Test instance: 500 is a valid status and 460 is not |
| WebResponse.IsValidHttpStatus | Tests/AbstractWebApplicationTest.php:1707-1728 | A valid status code lies between 100 and 599 |
| WebResponse.StatusLine | Tests/AbstractWebApplicationTest.php:1283-1313 | A status line starts `HTTP/1.1 <code>` and carries a reason phrase exactly when the code is valid |
| WebResponse.HeaderCall | Tests/AbstractWebApplicationTest.php:1283-1313 | A header named `status` in any case becomes a status line with its value as response code; any other becomes `name: value`; every call replaces |
| WebResponse.SendHeaders | Tests/AbstractWebApplicationTest.php:1283-1313 | One call per header in order, none when headers were already sent |
| WebResponse.SendHeadersAppend | Tests/AbstractWebApplicationTest.php:1283-1313 | The calls for two header lists are the calls for each, in order |
| WebResponse.SendHeadersTestCase | Tests/AbstractWebApplicationTest.php:1283-1313 | Test instance: `foo: bar` and `Status: 200` give `foo: bar` and `HTTP/1.1 200 OK` with code 200 |
| WebResponse.PreventCaching | Tests/AbstractWebApplicationTest.php:538-557 | The last four headers are always Expires with the 2005 date, Last-Modified with the current time, Cache-Control and Pragma; on headers without an expiry or modification date they are simply appended |
| WebResponse.PreventCachingKeeps | Tests/AbstractWebApplicationTest.php:538-557 | Before those four come exactly the earlier headers other than an expiry or a modification date, which are replaced |
| WebResponse.RespondHeaders | Tests/AbstractWebApplicationTest.php:538-590 | The content type is always among the headers; an uncachable response ends with the four no-cache headers; a cachable one gains exactly the content type, a fifteen-minute expiry and, when set, the modification date, after its own headers |
| WebResponse.RespondHeadersUncachedKeeps | Tests/AbstractWebApplicationTest.php:538-557 | Uncachable: before the four no-cache headers come exactly the old headers and the content type, minus any expiry or modification date |
| WebResponse.RespondHeadersUncached | Tests/AbstractWebApplicationTest.php:538-557 | An uncachable response gains exactly Content-Type and the four no-cache headers |
| WebResponse.RespondHeadersCached | Tests/AbstractWebApplicationTest.php:567-590 | A cachable response gains Content-Type, a fifteen-minute expiry and the modification date as Last-Modified |
| WebResponse.Respond | Tests/AbstractWebApplicationTest.php:538-590 | `respond` echoes the body once, sends the final headers unless already sent, and keeps body, caching and request state |
| WebResponse.RespondUncachedTestCase | Tests/AbstractWebApplicationTest.php:538-557 | Test instance: a fresh response stays uncachable, has Content-Type first and an empty body |
| WebResponse.RespondCachedTestCase | Tests/AbstractWebApplicationTest.php:567-590 | Test instance: with caching allowed, header 2 is `Last-Modified: <date> GMT` |
| WebResponse.DetectRequestUri | Tests/AbstractWebApplicationTest.php:1388-1420 | The detected URI starts with the scheme the `HTTPS` variable selects |
| WebResponse.RawRequestUri | Tests/AbstractWebApplicationTest.php:64-73 | Before trimming, the URI is the scheme followed directly by `HTTP_HOST`, in both modes |
| WebResponse.DetectRequestUriApache | Tests/AbstractWebApplicationTest.php:64-73 | For every server whose `PHP_SELF` and `REQUEST_URI` are both non-empty in PHP's sense, and whose `REQUEST_URI` does not end in whitespace, the URI is the scheme, the host and `REQUEST_URI` |
| WebResponse.DetectRequestUriIis | Tests/AbstractWebApplicationTest.php:64-73 | For every server where either of them is empty, the URI is the scheme, the host, `SCRIPT_NAME` and, when `QUERY_STRING` is non-empty, `?` and the query string; this holds whenever that text after the scheme does not end in whitespace |
| WebResponse.IisPath | Tests/AbstractWebApplicationTest.php:64-73 | The IIS-mode path is `SCRIPT_NAME`, followed by `?` and `QUERY_STRING` exactly when the query string is non-empty |
| WebResponse.DetectRequestUriApacheTestCase | Tests/AbstractWebApplicationTest.php:64-73 | Test instance: the first two data rows give `http://joom.la:3/j/index.php?foo=bar` and its `https://` form |
| WebResponse.DetectRequestUriIisTestCase | Tests/AbstractWebApplicationTest.php:64-73 | Test instance: the last two data rows give `http://joom.la:3/j/index.php`, with `?foo=bar` when the query string is set |
| WebResponse.ResolveUrl | Tests/AbstractWebApplicationTest.php:1142-1203 | An absolute URL is kept; any other URL ends the resolved target |
| WebResponse.SplitHttpUri | Tests/AbstractWebApplicationTest.php:80-87 | An `http://host/path` request URI splits into its prefix and path |
| WebResponse.ResolveRootRelative | Tests/AbstractWebApplicationTest.php:80-87 | A URL starting with `/` is appended to scheme and host |
| WebResponse.ResolveRelative | Tests/AbstractWebApplicationTest.php:80-87 | A relative URL is appended to the directory of the request path |
| WebResponse.ResolveUrlTestCases | Tests/AbstractWebApplicationTest.php:80-87 | Test instance: `/foo`, `foo` and `index.php` resolve to `http://<host>/foo`, `http://<host>/foo` and `http://<host>/index.php` |
| WebResponse.RedirectTestRequestUri | Tests/AbstractWebApplicationTest.php:1142-1203 | Test instance: the redirect tests' server variables give `http://<host>` plus the script name |
| WebResponse.RedirectHeaders | Tests/AbstractWebApplicationTest.php:679-753 | The last two headers are `Status` 303 (301 when moved) and `Location` with the target; body and caching are kept |
| WebResponse.RedirectHeadersKeepsOthers | Tests/AbstractWebApplicationTest.php:760-837 | Before them come exactly the earlier headers whose names are neither `Status` nor `Location`, so a lower-case `status` survives |
| WebResponse.ScriptRedirectCarriesUrl | Tests/AbstractWebApplicationTest.php:926-976 | The script redirect determines its URL: distinct URLs give distinct scripts, and the JSON string in it decodes to the URL |
| WebResponse.Redirect | Tests/AbstractWebApplicationTest.php:926-1050 | `redirect` always closes; with headers sent it echoes the script redirect before the body and sends no header; a Trident client redirected to a non-ASCII URL gets the HTML document |
| WebResponse.RedirectSendsLines | Tests/AbstractWebApplicationTest.php:679-919 | With headers unsent, the preset headers are sent, then the status line, the location and the no-cache headers |
| WebResponse.RedirectTailLines | Tests/AbstractWebApplicationTest.php:679-753 | The redirect's own seven header lines, in order |
| WebResponse.SeeOtherLine | Tests/AbstractWebApplicationTest.php:663 | Test instance: 303 renders as `HTTP/1.1 303 See other` |
| WebResponse.MovedPermanentlyLine | Tests/AbstractWebApplicationTest.php:1123 | Test instance: 301 renders as `HTTP/1.1 301 Moved Permanently` |
| WebResponse.CreatedLine | Tests/AbstractWebApplicationTest.php:760-837 | Test instance: 201 renders as `HTTP/1.1 201 Created` |
| WebResponse.RedirectLinesTestCase | Tests/AbstractWebApplicationTest.php:679-753 | Test instance: a redirect from a fresh response sends exactly the seven expected lines, beginning with `HTTP/1.1 303 See other` |
| WebResponse.RedirectMovedTestCase | Tests/AbstractWebApplicationTest.php:1057-1131 | Test instance: a permanent redirect sends the same lines beginning with `HTTP/1.1 301 Moved Permanently` |
| WebResponse.RedirectWithPresetStatus | Tests/AbstractWebApplicationTest.php:760-837 | A preset lower-case `status` 201 is sent as `HTTP/1.1 201 Created` before the redirect's 303 line and the rest |
| CliParameter.Token | src/Cli/Parameter.php:82-83 | A piece names its text before the first `=`; it is a flag exactly when it has no `=` |
| CliParameter.FromString | src/Cli/Parameter.php:75-86 | The loop builds the array of all tokens assigned in order: each token name is a key and no other is |
| CliParameter.New | src/Cli/Parameter.php:34-37 | The keys of a parameter object are exactly the parsed names |
| CliParameter.GetParameter | src/Cli/Parameter.php:58-64 | A value is returned exactly when `has` holds, and it is the stored value; otherwise `false` |
| CliParameter.GetParameterOfParsed | src/Cli/Parameter.php:46-64 | `has` holds exactly for parsed names, and `getParameter` returns the value of a name's last token |
| CliParameter.TokenFlag | src/Cli/Parameter.php:83 | A piece without `=` is a flag named by the whole piece |
| CliParameter.TokenValue | src/Cli/Parameter.php:83 | `name=value` gives the value with quotes trimmed from both ends |
| CliParameter.TokenValueIgnoresRest | src/Cli/Parameter.php:82-83 | Only the text between the first and second `=` is kept |
| CliParameter.ChainedEquals | src/Cli/Parameter.php:82-83 | `a=b=c` sets `a` to `b` |
| CliParameter.LaterValueWins | src/Cli/Parameter.php:80-84 | A repeated name keeps its last value |
| CliParameter.EmptyString | src/Cli/Parameter.php:78-83 | Instance: the empty string parses to the empty name as a flag |
| CliParameter.DoubleSpaceIsEmptyFlag | src/Cli/Parameter.php:78-83 | Two spaces in a row leave the empty name as a flag |
| CliParameter.NewPair | src/Cli/Parameter.php:78-84 | Two space-separated pieces are assigned in order |
| ColorProcessor.New | src/Cli/Output/Processor/ColorProcessor.php:175-198 | A new processor has colours on and exactly the styles info, comment, question and error |
| ColorProcessor.SetStyle | src/Cli/Output/Processor/ColorProcessor.php:73-78 | The style is added or overwritten under its name; the other styles are kept |
| ColorProcessor.AddStyle | src/Cli/Output/Processor/ColorProcessor.php:92-97 | `addStyle` behaves exactly as `setStyle` |
| ColorProcessor.StripNoTag | src/Cli/Output/Processor/ColorProcessor.php:108-111 | A text without `<` is returned unchanged |
| ColorProcessor.StripColors | src/Cli/Output/Processor/ColorProcessor.php:108-111 | Stripping never lengthens the text and leaves a text without `<` unchanged; StripPlainPrefix, StripTag and StripStrayAngle state its effect at every front |
| ColorProcessor.StripPlainPrefix | src/Cli/Output/Processor/ColorProcessor.php:108-111 | Text before the first `<` is kept as it is |
| ColorProcessor.StripStrayAngle | src/Cli/Output/Processor/ColorProcessor.php:43 | A `<` at which no opening or closing tag of any tag name starts is kept, and stripping goes on after it |
| ColorProcessor.StripTag | src/Cli/Output/Processor/ColorProcessor.php:43 | An opening or closing colour tag at the front is removed |
| ColorProcessor.StripSegment | src/Cli/Output/Processor/ColorProcessor.php:43 | `<t>x</t>` with plain `x` strips to `x` |
| ColorProcessor.FirstOccurrence | src/Cli/Output/Processor/ColorProcessor.php:35 | The position found is an occurrence and no earlier position is one; none means no occurrence |
| ColorProcessor.MatchAt | src/Cli/Output/Processor/ColorProcessor.php:35 | A match at the front is a tag name and a prefix of the text that is exactly `<tag>content</tag>`, with no earlier `</tag>` inside the content (the lazy `.*?`); no match means no `<tag>…</tag>` with a tag name is a prefix of the text |
| ColorProcessor.MatchesSegment | src/Cli/Output/Processor/ColorProcessor.php:124 | `<t>x</t>` with plain `x` yields the one match `(t, x)` |
| ColorProcessor.Matches | src/Cli/Output/Processor/ColorProcessor.php:124 | Every match found has a tag name and its segment occurs in the text; a text without `<` has no match |
| ColorProcessor.ReplaceColors | src/Cli/Output/Processor/ColorProcessor.php:159-166 | A text not containing the segment is returned as it is; the segment alone becomes its replacement; no character comes from anywhere but the text or the replacement |
| ColorProcessor.ApplyMatches | src/Cli/Output/Processor/ColorProcessor.php:131-142 | When every match is unstyled or its segment no longer occurs, the text is returned unchanged |
| ColorProcessor.Process | src/Cli/Output/Processor/ColorProcessor.php:122-145 | A text without `<`, or one whose matches all lack a style, is returned unchanged |
| ColorProcessor.ProcessAroundSegment | src/Cli/Output/Processor/ColorProcessor.php:122-166 | For any plain text before and after one `<t>x</t>` with plain `x`, only the segment changes: to its replacement when `t` has a style, not at all otherwise |
| ColorProcessor.StyleFor | src/Cli/Output/Processor/ColorProcessor.php:133-141 | A style is used exactly for a registered name or a custom format; a registered name uses its style |
| ColorProcessor.LeadingEqualsNotCustom | src/Cli/Output/Processor/ColorProcessor.php:138 | A tag whose only `=` is at position 0 is no custom format and no predefined style |
| ColorProcessor.ProcessNoTag | src/Cli/Output/Processor/ColorProcessor.php:122-145 | A text without `<` is returned unchanged |
| ColorProcessor.ProcessSegment | src/Cli/Output/Processor/ColorProcessor.php:131-165 | `<t>x</t>` becomes the replacement when `t` has a style, and stays as it is otherwise |
| ColorProcessor.NoColorsAgreesWithStrip | src/Cli/Output/Processor/ColorProcessor.php:161-163 | Without colours, processing a styled segment gives the same text as stripping it: the bare content |
| ColorProcessor.ReplaceColorsEveryOccurrence | src/Cli/Output/Processor/ColorProcessor.php:165 | Every copy of the matched segment is replaced, not only the matched one |
| SessionAware.GetSession | src/AbstractSessionAwareWebApplication.php:42-55 | The session is returned exactly when set; otherwise the not-set error |
| SessionAware.SetSession | src/AbstractSessionAwareWebApplication.php:66-71 | The session is stored; server variables and input are kept |
| SessionAware.SetThenGetSession | Tests/AbstractSessionAwareWebApplicationTest.php:24-31 | After `setSession`, `getSession` returns that session |
| SessionAware.GetSessionWithoutSession | Tests/AbstractSessionAwareWebApplicationTest.php:38-44 | Without a session, `getSession` raises the not-set error |
| SessionAware.GetFormToken | src/AbstractSessionAwareWebApplication.php:110-113 | The form token is the session's token; without a session the call fails |
| SessionAware.RequestToken | src/AbstractSessionAwareWebApplication.php:84-91 | The filtered `X-CSRF-Token` header when present, else the filtered input under the form-token name, else empty |
| SessionAware.CheckToken | src/AbstractSessionAwareWebApplication.php:82-99 | An empty request token is rejected without asking the session; otherwise the answer is whether the session holds its own form token |
| SessionAware.CheckIgnoresSubmittedValue | src/AbstractSessionAwareWebApplication.php:98 | Any two non-empty submitted tokens get the same answer |
| SessionAware.CheckTokenTestCases | Tests/SessionAwareWebApplicationTraitTest.php:58-152 | Test instance: the header and request-body tokens are accepted; a missing token is rejected |
| WebClient.ParseList | Tests/Web/WebClientTest.php:363-396 | A header list has one item per comma-separated piece, each without commas and trimmed |
| WebClient.ParseJoinedList | Tests/Web/WebClientTest.php:363-396 | Reading a comma-joined list back gives each piece trimmed, in order |
| WebClient.ParsePaddedList | Tests/Web/WebClientTest.php:363-396 | Trimmed tokens come back exactly, whatever whitespace surrounds them |
| WebClient.Encodings | Tests/Web/WebClientTest.php:363-375 | One encoding per comma-separated piece of `Accept-Encoding`, each the piece trimmed |
| WebClient.Languages | Tests/Web/WebClientTest.php:384-396 | One language per comma-separated piece of `Accept-Language`, each the piece trimmed |
| WebClient.PaddedEncodings | Tests/Web/WebClientTest.php:363-375 | Test instance: `' gzip, deflate '` gives `[gzip, deflate]` |
| WebClient.UnknownEncodings | Tests/Web/WebClientTest.php:372-373 | Test instance: `goober , flasm` gives `[goober, flasm]` |
| WebClient.PaddedLanguages | Tests/Web/WebClientTest.php:384-396 | Test instance: `' nl-NL, de-DE '` gives `[nl-NL, de-DE]` |
| WebClient.HeaderName | Tests/Web/WebClientTest.php:449-452 | A header name is as long as its key and contains no `_` |
| WebClient.HeaderNameCharwise | Tests/Web/WebClientTest.php:449-498 | For every key, the header name turns each `_` into `-`, upper-cases a letter that starts the key or follows `_`, and lower-cases every other letter |
| WebClient.HeaderNameOfWord | Tests/Web/WebClientTest.php:449-452 | Special case: a one-word key becomes the word lower-cased with an upper-case first letter |
| WebClient.HeaderNameOfTwoWords | Tests/Web/WebClientTest.php:449-452 | Special case: two words are each lower-cased with an upper-case first letter and joined with `-` |
| WebClient.HttpHeadersFromKeys | Tests/Web/WebClientTest.php:488-498 | Every detected header comes from an `HTTP_*` server variable, under its header name |
| WebClient.SkipsOtherVariables | Tests/Web/WebClientTest.php:488-498 | Other server variables give no header |
| WebClient.DetectHeaders | Tests/Web/WebClientTest.php:488-498 | The detected array has a key for exactly the names in the list of `HTTP_*` headers, and each name holds the value of the last variable that gives it |
| WebClient.DetectHeadersTestCase | Tests/Web/WebClientTest.php:449-498 | Test instance: the four test variables become `Host`, `User-Agent`, `Custom-Header` and `Authorization` |
| WebClient.MobileMatchesTable | Tests/Web/WebClientTest.php:29-354 | The mobile flag agrees with every row of the user-agent table, and a platform is mobile exactly when a mobile row names it |
| Json.Encode | Tests/AbstractWebApplicationTest.php:926-976 | `json_encode` of a string is an ASCII string in double quotes |
| Json.EscapeRoundTrip | Tests/AbstractWebApplicationTest.php:926-976 | Decoding the escaped string gives back the string |
| Json.EncodeInjective | Tests/AbstractWebApplicationTest.php:926-976 | Distinct strings encode differently |
| Json.SurrogatesRecombine | Tests/AbstractWebApplicationTest.php:926-976 | The two UTF-16 surrogates of an astral character recombine to it |
| Json.Hex4RoundTrip | Tests/AbstractWebApplicationTest.php:926-976 | Four hexadecimal digits read back to their number |
| Strings.Split | src/Cli/Parameter.php:78 | `explode` gives one piece more than separators, pieces without the separator, and pieces that join back to the text |
| Strings.SplitJoin | src/Cli/Parameter.php:78-82 | Splitting a join of separator-free pieces gives back the pieces |
| Strings.Trim | src/Cli/Parameter.php:83 | `trim` keeps a slice of the text that begins and ends outside the character list, and everything removed is in the list |
| Strings.TrimKeepsTrimmed | src/Cli/Parameter.php:83 | A text already trimmed is unchanged |
| Strings.ReplaceAbsent | src/Cli/Output/Processor/ColorProcessor.php:165 | `str_replace` changes nothing when the pattern does not occur |
| Strings.ReplaceFirst | src/Cli/Output/Processor/ColorProcessor.php:165 | `str_replace` replaces the first occurrence and carries on after it |
| Strings.ReplaceAll | src/Cli/Output/Processor/ColorProcessor.php:165 | `str_replace` with an empty pattern, or a replacement equal to the pattern, returns the text; every character of the result comes from the text or the replacement |
| Strings.NatToStringRoundTrip | Tests/AbstractWebApplicationTest.php:1283-1313 | Reading back a rendered number gives the number |
| Strings.LeadingIntOfNat | Tests/AbstractWebApplicationTest.php:1283-1313 | The `(int)` cast of a rendered number is the number |
| Assoc.Collect | src/Cli/Parameter.php:80-84 | The keys of an array built by assignments are exactly the assigned keys |
| Assoc.LastWins | src/Cli/Parameter.php:80-84 | A key's value is that of its last assignment |
| Assoc.CollectLastValues | src/Cli/Parameter.php:80-84 | Every assigned key holds the value of its last assignment |

## Left out

- `close()` and PHP's `exit` (src/AbstractApplication.php:76-79) are modelled only as the `closed` flag that `redirect` sets.
- The clock functions `gmdate`, `time` and `microtime`, and the formatting of dates, are given as opaque values.
- zlib is an encoder parameter. The tests' assertion that the compressed body is shorter is about zlib and is not modelled.
- `execute` in the web application calls `compress` when the `gzip` option is set; `respond` here does not model that call.
- PHP reflection (`class_exists`, `function_exists`, `interface_exists`, `is_callable`, `new $class`) is a runtime record of predicates and a construction outcome: an instance, the argument-count error, or any other error (abstract class, enum, throwing constructor), which `resolve` passes on uncaught. The text of such an uncaught error is PHP's and is not modelled.
- The registry's dotted-path semantics, the event dispatcher's listeners, the logger, the session store and the input `alnum` filter are maps or functions given to the model.
- `ColorStyle` and its rendering are an opaque style string; `ColorStyle::fromString` is a function given to the model.
- The `WebClient` user-agent detection (platform, engine, browser, robot) is not modelled: `WebClient` is modelled from what its tests assert, and of the user-agent table only the mobile flag's relation to the platform column is stated.
- `loadSystemUris`, `isSslConnection` as a method, and the md5 form token of the web application depend on URI parsing and hashing, which are not modelled.
- WebResponse.SplitUri: the split of a request URI into its `scheme://authority` part and its path is a simplified reading of URI syntax, good for the test URIs; the full parsing of the `Uri` class is not modelled.
- Json.Encode: PHP strings are byte strings, while the model's strings are sequences of Unicode characters. Invalid UTF-8, and the `false` that `json_encode` returns for it, are therefore not modelled, and the encoding always succeeds.
- `setHeader` does not strip CR/LF characters from values, and `x-gzip` is not a supported encoding.
- Strings.LeadingInt: PHP's `(int)` cast is modelled for a leading run of decimal digits only, without a sign, whitespace or overflow.
- CliParameter.FromString: PHP converts numeric-string keys such as `"1"` to integer keys; the model keeps every key as a string, which changes no lookup the class makes.
- WebClient.HeaderName: the casing is PHP's `ucwords(strtolower(...))` per `_`-separated word; `ucwords`' other word delimiters do not occur in server keys.
- Tests/Controller/ContainerControllerResolverTest.php, Tests/WebApplicationTest.php, Tests/AbstractCliApplicationTest.php and Tests/CompatTestCase.php test a container resolver, a router, console wiring and a PHPUnit shim, which lie outside the application classes modelled here.
- src/ApplicationInterface.php, src/Controller/ControllerResolverInterface.php and src/Exception/UnableToWriteBody.php declare no behaviour.
