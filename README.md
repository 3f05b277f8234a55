# SockJS transport helpers, modelled in Dafny

Every SockJS server transport in vert.x (XHR, JSONP, EventSource, HTML file,
WebSocket) extends one base class. This project models that base class and
proves properties of the model. The base class does five things:

- It decodes a batch of client messages. A batch is either a JSON array of
  strings or one JSON string, and it is decoded by cheap string splitting,
  not by a JSON parser.
- Before a posted body is decoded, it checks the body's framing: `["` at the
  start and `"]` at the end.
- It finds the session registered under an id, or creates and registers a
  new one. The new session's close handler removes the id from the registry.
- It writes the sticky-session cookie (`Set-Cookie: JSESSIONID=...`) when the
  application is configured for it.
- It answers CORS preflight (OPTIONS) requests.

The files:

- `wrappers.dfy` holds the `Option` and `Result` types. `None` stands for
  Java's `null`; `Failure` stands for a thrown exception.
- `java_lang.dfy` (module `JavaLang`) models the Java library calls the helpers
  rely on, with Java's own semantics:
  - `startsWith`, `endsWith` and `contains`;
  - `substring`, which throws `StringIndexOutOfBoundsException` on a bad range;
  - `indexOf`;
  - `split` on a one-character separator: trailing empty pieces are dropped,
    and a string with no separator splits to itself;
  - `int` division by two, which truncates toward zero;
  - `String.valueOf(long)`.
- `http.dfy` (module `Http`) models the response as an object with a status,
  a header map, a body and an "ended" flag. It models the request as its
  header map and its response.
- `sessions.dfy` (module `Sessions`) models the session registry as an object
  holding a `map` from id to session. A session is an object that keeps what it
  was created with, including its close handler.
- `base_transport.dfy` (module `SockJS`) models the five helpers and states
  their properties.

Each operation that changes state is a method on those objects, specified by
how it changes them. The pure decoding and cookie logic are functions, and
lemmas relate them to independent descriptions: an encoder, a reference
search over the cookie parts, and the framing's character layout.

The dummy cookie `JSESSIONID=dummy; path=/` is written only when the request
has no Cookie header. A Cookie header with no part starting with `JSESSIONID`
is echoed back unchanged as `Set-Cookie` (`SetCookieValue`, `StickyCookieEcho`,
`SessionCookieAfterSpaceMissed`).

## Model

All source paths are `src/main/java/org/vertx/java/core/sockjs/BaseTransport.java`.

| member | source | states |
|---|---|---|
| JavaLang.StartsWith | src/main/java/org/vertx/java/core/sockjs/BaseTransport.java:34 | `startsWith`: the string begins with the prefix; used through `IsWellFramed`, `IsSessionPart` and `SingleLiteral`/`ArrayForm` |
| JavaLang.EndsWith | src/main/java/org/vertx/java/core/sockjs/BaseTransport.java:62 | `endsWith`: the string ends with the suffix; specified through `WellFramedChars` and `StickyCookieFound` |
| JavaLang.Contains | src/main/java/org/vertx/java/core/sockjs/BaseTransport.java:78 | `contains(";")`: the character occurs in the string; `CookiePartsAreSplit` shows the test before splitting changes nothing |
| JavaLang.Substring | src/main/java/org/vertx/java/core/sockjs/BaseTransport.java:41 | `substring(begin, end)` succeeds exactly when 0 <= begin <= end <= length; the result then has end - begin characters, character k being s[begin + k]; otherwise StringIndexOutOfBounds is thrown |
| JavaLang.TruncHalf | src/main/java/org/vertx/java/core/sockjs/BaseTransport.java:36 | Java's `n / 2` rounds toward zero: the remainder is 0 or 1 for n >= 0 and 0 or -1 for n < 0 |
| JavaLang.IndexOf | src/main/java/org/vertx/java/core/sockjs/BaseTransport.java:35 | the position of the first occurrence of the separator, or -1 exactly when there is none; the character there is the separator and none comes before it |
| JavaLang.Pieces | src/main/java/org/vertx/java/core/sockjs/BaseTransport.java:35 | cutting at every separator gives at least one piece, and no piece holds the separator |
| JavaLang.JoinPieces | src/main/java/org/vertx/java/core/sockjs/BaseTransport.java:35 | cutting loses nothing: joining the pieces with the separator gives back the string |
| JavaLang.DropTrailingEmpty | src/main/java/org/vertx/java/core/sockjs/BaseTransport.java:35 | the result is a prefix of the pieces, does not end with an empty piece, and every piece dropped is empty |
| JavaLang.Split | src/main/java/org/vertx/java/core/sockjs/BaseTransport.java:35 | `split` on a literal separator: a string without the separator gives itself alone (so "" gives [""]); otherwise the pieces, with only trailing empty ones dropped; no result element holds the separator |
| JavaLang.PiecesWithout | src/main/java/org/vertx/java/core/sockjs/BaseTransport.java:35 | a string without the separator is one piece |
| JavaLang.SplitKeepsAllPieces | src/main/java/org/vertx/java/core/sockjs/BaseTransport.java:35 | with two pieces or more and a non-empty last piece, `split` keeps every piece |
| JavaLang.PiecesAfterFirst | src/main/java/org/vertx/java/core/sockjs/BaseTransport.java:35 | the first separator of a + d + b, where a holds no separator, ends the first piece, a |
| JavaLang.JoinCons | src/main/java/org/vertx/java/core/sockjs/BaseTransport.java:35 | joining a piece in front of others puts one separator between them |
| JavaLang.DigitChar | src/main/java/org/vertx/java/core/sockjs/BaseTransport.java:111 | the character of a decimal digit is between '0' and '9' and denotes that digit |
| JavaLang.LongToString | src/main/java/org/vertx/java/core/sockjs/BaseTransport.java:111 | `String.valueOf` of a non-negative number is a non-empty string of decimal digits that denotes the number and has no leading zero |
| JavaLang.LongToStringAppend | src/main/java/org/vertx/java/core/sockjs/BaseTransport.java:111 | the decimal form of 10n + d is the decimal form of n followed by digit d |
| Http.Response.constructor | src/main/java/org/vertx/java/core/sockjs/BaseTransport.java:61 | a fresh response has status 200, no headers, an empty body, and has not ended |
| Http.Response.PutHeader | src/main/java/org/vertx/java/core/sockjs/BaseTransport.java:93 | `putHeader` sets the one header, replacing an earlier value; status, body and the ended flag are unchanged |
| Http.Response.End | src/main/java/org/vertx/java/core/sockjs/BaseTransport.java:65 | `end(chunk)` appends the chunk to the body and ends the response; status and headers are unchanged |
| Http.Request.constructor | src/main/java/org/vertx/java/core/sockjs/BaseTransport.java:72 | a request with the given headers and response |
| Http.Request.GetHeader | src/main/java/org/vertx/java/core/sockjs/BaseTransport.java:112 | `getHeader(name)`: the header's value, or None where Java returns null; `SetJSESSIONID` and `CORSOptionsHandler.Handle` read Cookie and Origin through it |
| Sessions.SessionRegistry.Valid | src/main/java/org/vertx/java/core/sockjs/BaseTransport.java:51-56 | the registry invariant: every session is stored under the id its close handler removes; kept by `Put`, `RemoveSession`, `FireCloseHandler` and `GetSession` |
| Sessions.Session.constructor | src/main/java/org/vertx/java/core/sockjs/BaseTransport.java:51-55 | a session keeps its timeout, heartbeat period, socket handler and close handler (the registry it removes itself from and the id it removes) |
| Sessions.Session.FireCloseHandler | src/main/java/org/vertx/java/core/sockjs/BaseTransport.java:52-54 | the close handler removes its session id from the registry, and no other entry changes; the registry invariant is kept, and under it no entry is the closed session any more |
| Sessions.SessionRegistry.constructor | src/main/java/org/vertx/java/core/sockjs/BaseTransport.java:20 | a new registry is empty and satisfies the invariant that every session is stored under the id its close handler removes |
| Sessions.SessionRegistry.Get | src/main/java/org/vertx/java/core/sockjs/BaseTransport.java:49 | `get(id)` finds a session exactly when the id is registered, and then it is the registered one |
| Sessions.SessionRegistry.Put | src/main/java/org/vertx/java/core/sockjs/BaseTransport.java:56 | `put(id, s)` maps id to s and leaves the other ids as they were; the invariant is kept when s was made for id and this registry |
| Sessions.SessionRegistry.RemoveSession | src/main/java/org/vertx/java/core/sockjs/BaseTransport.java:53 | `remove(id)` drops exactly that id and keeps the invariant |
| SockJS.MessagesOf | src/main/java/org/vertx/java/core/sockjs/BaseTransport.java:30-45 | what `parseMessageString` returns; specified by `SingleLiteral`, `ParseFailsOnlyOnLoneQuote`, `ArrayForm`, `RoundTrip` and `InnerQuoteEndsPayload`, and computed by `ParseMessageString` |
| SockJS.IsWellFramed | src/main/java/org/vertx/java/core/sockjs/BaseTransport.java:62 | the frame test of `checkJSON`; specified by `WellFramedChars`, `ShortestFrame`, `WellFramedLength` and `EncodedBatchFraming` |
| SockJS.CookieParts | src/main/java/org/vertx/java/core/sockjs/BaseTransport.java:77-82 | the parts of a Cookie header; `CookiePartsAreSplit` shows they are the `;` split and hold no `;` |
| SockJS.IsSessionPart | src/main/java/org/vertx/java/core/sockjs/BaseTransport.java:84 | a part names the session cookie when it starts with JSESSIONID, leading spaces included; `SessionCookieAfterSpaceMissed` shows the consequence |
| SockJS.FirstSessionPart | src/main/java/org/vertx/java/core/sockjs/BaseTransport.java:83-88 | the loop's search for the first session part; specified by `FirstSessionPartSpec` and `FirstSessionPartAt` |
| SockJS.SetCookieValue | src/main/java/org/vertx/java/core/sockjs/BaseTransport.java:73-92 | the Set-Cookie value; specified by `StickyCookieFound`, `StickyCookieEcho`, `SessionCookieFirst` and `SessionCookieAfterSpaceMissed`, and written by `SetJSESSIONID` |
| SockJS.AllowedOrigin | src/main/java/org/vertx/java/core/sockjs/BaseTransport.java:112-115 | the request's Origin, or `*` without one; what `CORSOptionsHandler.Handle` passes to `SetCORS` |
| SockJS.WithPreflightHeaders | src/main/java/org/vertx/java/core/sockjs/BaseTransport.java:105-111 | the headers after the handler's puts; specified by `PreflightHeaderValues` |
| SockJS.OddPieces | src/main/java/org/vertx/java/core/sockjs/BaseTransport.java:36-39 | from k pieces, Java's (k - 1) / 2 of them are kept, element j being piece 2j + 1 |
| SockJS.ParseMessageString | src/main/java/org/vertx/java/core/sockjs/BaseTransport.java:30-45 | the loop fills the array so that the result is exactly the decoded batch of `MessagesOf`, the thrown exception included |
| SockJS.SingleLiteral | src/main/java/org/vertx/java/core/sockjs/BaseTransport.java:40-43 | a batch starting with a quote decodes to one message: the batch without its first and last characters; the lone quote throws |
| SockJS.ParseFailsOnlyOnLoneQuote | src/main/java/org/vertx/java/core/sockjs/BaseTransport.java:34-43 | decoding throws if and only if the batch is the lone quote `"` |
| SockJS.ArrayForm | src/main/java/org/vertx/java/core/sockjs/BaseTransport.java:34-39 | a batch not starting with a quote splits into k >= 1 pieces and decodes to (k - 1) / 2 messages, message j being piece 2j + 1; no message holds a quote and nothing is unescaped |
| SockJS.PiecesQuoted | src/main/java/org/vertx/java/core/sockjs/BaseTransport.java:35 | a quoted payload after quote-free text cuts into that text and the payload |
| SockJS.PiecesOfOneItem | src/main/java/org/vertx/java/core/sockjs/BaseTransport.java:35 | one quoted payload between quote-free texts cuts into three pieces |
| SockJS.PiecesOfFirstItem | src/main/java/org/vertx/java/core/sockjs/BaseTransport.java:35 | the first of several quoted payloads cuts into the text before it and itself, and the comma starts the rest |
| SockJS.PiecesOfItems | src/main/java/org/vertx/java/core/sockjs/BaseTransport.java:35 | the client's quoted payloads, between quote-free texts, cut into those texts, the payloads and the commas between them |
| SockJS.PiecesOfManyItems | src/main/java/org/vertx/java/core/sockjs/BaseTransport.java:35 | the induction step of the previous row, for two payloads or more |
| SockJS.Regroup | src/main/java/org/vertx/java/core/sockjs/BaseTransport.java:35 | regrouping the pieces of the induction step |
| SockJS.OddPiecesOfAlternate | src/main/java/org/vertx/java/core/sockjs/BaseTransport.java:36-39 | keeping every second piece of texts, payloads and commas gives back the payloads |
| SockJS.RoundTrip | src/main/java/org/vertx/java/core/sockjs/BaseTransport.java:31-39 | what the client sends, for messages JSON writes without escapes (no `"`, `\` or control character), decodes to what it encoded: such a JSON array of messages, `[]` and empty messages included, decodes to exactly those messages |
| SockJS.ParseExamples | src/main/java/org/vertx/java/core/sockjs/BaseTransport.java:30-45 | `"abc"` decodes to [abc], and `["a","b"]` decodes to [a, b] |
| SockJS.InnerQuoteEndsPayload | src/main/java/org/vertx/java/core/sockjs/BaseTransport.java:35-38 | nothing is unescaped: a quote inside a message, escaped or not, ends the message there, and the rest of that message is lost |
| SockJS.CheckJSON | src/main/java/org/vertx/java/core/sockjs/BaseTransport.java:61-70 | the frame check passes exactly when the body starts with `["` and ends with `"]`; on failure the response gets status 500 and the body "Broken JSON encoding." and is ended, its headers unchanged; on success the response is untouched |
| SockJS.WellFramedChars | src/main/java/org/vertx/java/core/sockjs/BaseTransport.java:62 | a body that passes has `[`, `"` first and `"`, `]` last |
| SockJS.ShortestFrame | src/main/java/org/vertx/java/core/sockjs/BaseTransport.java:62 | `["]` passes, its one quote both opening and closing |
| SockJS.WellFramedLength | src/main/java/org/vertx/java/core/sockjs/BaseTransport.java:62 | a body that passes has at least three characters, and the only three-character one is `["]` |
| SockJS.EncodedBatchFraming | src/main/java/org/vertx/java/core/sockjs/BaseTransport.java:62 | a batch the client encodes passes the frame check exactly when it holds at least one message: `[]` is refused |
| SockJS.QuotedItemsEnds | src/main/java/org/vertx/java/core/sockjs/BaseTransport.java:62 | quoted payloads start and end with a quote |
| SockJS.FirstSessionPartSpec | src/main/java/org/vertx/java/core/sockjs/BaseTransport.java:83-88 | the search over cookie parts finds nothing exactly when no part starts with JSESSIONID, and otherwise finds the first such part |
| SockJS.FirstSessionPartAt | src/main/java/org/vertx/java/core/sockjs/BaseTransport.java:83-88 | when part k is the first to start with JSESSIONID, the search finds part k |
| SockJS.StickyCookieFound | src/main/java/org/vertx/java/core/sockjs/BaseTransport.java:83-88 | when the first session part is part k, the cookie set is that part followed by `; path=/`; it starts with JSESSIONID and ends with `; path=/` |
| SockJS.StickyCookieEcho | src/main/java/org/vertx/java/core/sockjs/BaseTransport.java:76-93 | when no part of the Cookie header starts with JSESSIONID, the header is echoed verbatim as Set-Cookie |
| SockJS.CookiePartsAreSplit | src/main/java/org/vertx/java/core/sockjs/BaseTransport.java:77-82 | testing for `;` before splitting changes nothing, and no part holds a `;` |
| SockJS.SessionCookieFirst | src/main/java/org/vertx/java/core/sockjs/BaseTransport.java:77-88 | a session cookie written first in the header is found, and `; path=/` is appended to it |
| SockJS.SessionCookieAfterSpaceMissed | src/main/java/org/vertx/java/core/sockjs/BaseTransport.java:77-88 | parts keep their leading space, so in `a=1; JSESSIONID=x` the session cookie is missed and the whole header is echoed |
| SockJS.SetJSESSIONID | src/main/java/org/vertx/java/core/sockjs/BaseTransport.java:72-95 | when configured off, the response is untouched; otherwise exactly Set-Cookie is set: `JSESSIONID=dummy; path=/` without a Cookie header, else the first session part plus `; path=/`, else the header as it came |
| SockJS.SetCORS | src/main/java/org/vertx/java/core/sockjs/BaseTransport.java:97-100 | sets Access-Control-Allow-Origin to the origin and Access-Control-Allow-Credentials to "true", nothing else |
| SockJS.PreflightHeaderValues | src/main/java/org/vertx/java/core/sockjs/BaseTransport.java:105-116 | the preflight answer has the headers the response already had plus the six preflight ones: Cache-Control "public,max-age=31536000", Expires, Allow = the methods, Access-Control-Max-Age "31536000", the origin, credentials "true"; every other header is kept |
| SockJS.PreflightNamesDistinct | src/main/java/org/vertx/java/core/sockjs/BaseTransport.java:105-111 | the six preflight header names are different |
| SockJS.SixPuts | src/main/java/org/vertx/java/core/sockjs/BaseTransport.java:105-111 | six puts under different names add those names, each holding its value, and keep every other key's value |
| SockJS.MaxAgeDigits | src/main/java/org/vertx/java/core/sockjs/BaseTransport.java:106-111 | a year in seconds, 365 * 24 * 60 * 60, is written `31536000` |
| SockJS.CORSOptionsHandler.constructor | src/main/java/org/vertx/java/core/sockjs/BaseTransport.java:102-103 | the handler keeps the configuration and the allowed methods it was made with |
| SockJS.CORSOptionsHandler.Handle | src/main/java/org/vertx/java/core/sockjs/BaseTransport.java:104-120 | a preflight answer has status 204 and is ended with nothing written; it has the preflight headers with the request's Origin, or `*` without one, and the Set-Cookie header exactly when the configuration asks for it |
| SockJS.CreateCORSOptionsHandler | src/main/java/org/vertx/java/core/sockjs/BaseTransport.java:102-122 | makes a new handler for the given configuration and methods |
| SockJS.BaseTransport.constructor | src/main/java/org/vertx/java/core/sockjs/BaseTransport.java:25-28 | the transport keeps the registry it shares and the configuration |
| SockJS.BaseTransport.GetSession | src/main/java/org/vertx/java/core/sockjs/BaseTransport.java:47-59 | a registered id gives its session and changes nothing; an absent id gives a new session, made from the arguments, that closes by removing this id, and the registry becomes the old one plus that id; either way the id then maps to the returned session, and the invariant is kept |
| SockJS.BaseTransport.GetSessionTwice | src/main/java/org/vertx/java/core/sockjs/BaseTransport.java:47-59 | two calls with the same id return the same session, whatever the other arguments, and only that id is added |
| SockJS.BaseTransport.GetSessionAfterClose | src/main/java/org/vertx/java/core/sockjs/BaseTransport.java:51-56 | after a session's close handler has run, no registry entry is the closed session, and the next call for its id returns a fresh session different from it; only that id's entry changes |

## Left out

- The Expires header value is not modelled. The code formats the current time
  plus a year with `SimpleDateFormat`, which needs the clock and a date format.
  The formatted date is a parameter of `CORSOptionsHandler.Handle`.
- `COMMON_PATH_ELEMENT_RE` is not modelled. It is a constant used only by the
  subclasses, which route requests.
- The logger is not modelled; it is never called.
- Session internals (state machine, timers, heartbeats, message queue) are not
  modelled. A session is only what it is created with. The socket handler is an
  opaque tag.
- Concurrency is not modelled: get-or-create is one step on the registry map.
  Two threads calling `getSession` at once on a shared, non-atomic map could
  create two sessions, and the model does not capture that.
- HTTP header internals are not modelled. Request and response headers are
  plain maps keyed by exact name, so the case-insensitive lookups of
  `getHeader("Cookie")` and `getHeader("Origin")`, and repeated headers, are
  not captured. `putHeader` replaces. Writing or ending after `end()` is not
  captured either.
- Strings are modelled as sequences of Unicode scalar values, not of UTF-16
  code units as Java's `length()` and `substring` count them. The quoted
  branch's `substring(1, length() - 1)` therefore differs when the batch's
  last character is outside the Basic Multilingual Plane. Java keeps the lone
  high surrogate of that character, while `MessagesOf` drops the whole
  character. `split` on `"` and `;` and the prefix and suffix tests are
  unaffected, because those characters are single code units.
- Only the flag `insertJSESSIONID` of the application configuration is modelled;
  the helpers read no other field.
- LongToString: covers non-negative numbers only. The code converts only the
  constant 31536000, so 64-bit limits and the minus sign never arise.
- `oneYearms` (a year in milliseconds) is not modelled. It only feeds the
  Expires date.
- The test file `TimerTest.java` is not modelled. It tests vert.x timers and has
  nothing to do with these helpers.
- The decoder is not modelled as a JSON parser: it is the code's splitting.
  `RoundTrip` covers only messages JSON writes without escapes. Messages with
  a quote do not survive decoding (`InnerQuoteEndsPayload`), and neither do
  messages with a backslash or a control character: the client writes those
  as escapes such as `\\` or `\n`, which are kept as written.
