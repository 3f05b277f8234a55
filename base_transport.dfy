/** The helpers every SockJS transport shares: decoding a batch of client
    messages, the frame check on a posted body, the session registry's
    get-or-create, the sticky-session cookie, and the CORS preflight answer. */
module SockJS {
  import opened Wrappers
  import opened JavaLang
  import opened Http
  import opened Sessions

  const Quote: char := '"'

  // ---------------------------------------------------------------------------
  // Message batches
  // ---------------------------------------------------------------------------

  /** The pieces at positions 1, 3, 5, ... that are followed by another piece:
      the payloads between pairs of quotes. */
  function OddPieces(p: seq<string>): (r: seq<string>)
    ensures |r| == TruncHalf(|p| - 1)
    ensures forall j :: 0 <= j < |r| ==> r[j] == p[2 * j + 1]
  {
    if |p| < 3 then [] else [p[1]] + OddPieces(p[2..])
  }

  /** What `parseMessageString` returns. A batch not starting with a quote is
      read as a JSON array of strings by splitting it on the quote and keeping
      the odd pieces; a batch starting with a quote is read as one JSON string
      by dropping its first and last characters, which throws when the batch is
      the lone quote. Nothing is unescaped. */
  function MessagesOf(msgs: string): Result<seq<string>, JavaException> {
    if !StartsWith(msgs, [Quote]) then
      Success(OddPieces(Split(msgs, Quote)))
    else
      match Substring(msgs, 1, |msgs| - 1)
      case Success(msg) => Success([msg])
      case Failure(e) => Failure(e)
  }

  /** `parseMessageString`: fills the array of parts from every second piece
      of the split. */
  method ParseMessageString(msgs: string) returns (r: Result<seq<string>, JavaException>)
    ensures r == MessagesOf(msgs)
  {
    if !StartsWith(msgs, [Quote]) {
      var split := Split(msgs, Quote);
      var parts := new string[TruncHalf(|split| - 1)];
      var i := 1;
      while i < |split| - 1
        invariant 1 <= i && i % 2 == 1
        invariant (i - 1) / 2 <= parts.Length
        invariant forall j :: 0 <= j < (i - 1) / 2 ==> parts[j] == split[2 * j + 1]
      {
        parts[(i - 1) / 2] := split[i];
        i := i + 2;
      }
      assert parts[..] == OddPieces(split);
      r := Success(parts[..]);
    } else {
      var msg := Substring(msgs, 1, |msgs| - 1);
      match msg
      case Success(m) => r := Success([m]);
      case Failure(e) => r := Failure(e);
    }
  }

  /** A batch that starts with a quote is one message: the batch without its
      first and last characters. The lone quote is the only batch that throws. */
  lemma SingleLiteral(msgs: string)
    requires StartsWith(msgs, [Quote])
    ensures |msgs| >= 2 ==> MessagesOf(msgs) == Success([msgs[1..|msgs| - 1]])
    ensures |msgs| < 2 ==> msgs == [Quote] && MessagesOf(msgs) == Failure(StringIndexOutOfBounds)
  {
  }

  /** Only the lone quote makes `parseMessageString` throw. */
  lemma {:induction false} ParseFailsOnlyOnLoneQuote(msgs: string)
    ensures MessagesOf(msgs).Failure? <==> msgs == [Quote]
  {
    if StartsWith(msgs, [Quote]) {
      SingleLiteral(msgs);
    }
  }

  /** A batch that does not start with a quote splits into k >= 1 pieces and
      gives (k - 1) / 2 messages, message j being piece 2j + 1, none of them
      holding a quote and none unescaped. */
  lemma {:induction false} ArrayForm(msgs: string)
    requires !StartsWith(msgs, [Quote])
    ensures var split := Split(msgs, Quote);
      && |split| >= 1
      && MessagesOf(msgs).Success?
      && |MessagesOf(msgs).value| == (|split| - 1) / 2
      && forall j :: 0 <= j < |MessagesOf(msgs).value| ==>
           MessagesOf(msgs).value[j] == split[2 * j + 1] && Quote !in MessagesOf(msgs).value[j]
  {
    var split := Split(msgs, Quote);
    if Quote in msgs {
      var p := Pieces(msgs, Quote);
      var i := IndexOf(msgs, Quote);
      assert i != 0 by {
        if i == 0 { assert false; }
      }
      assert p[0] == msgs[..i] != "";
    }
    assert |split| >= 1;
  }

  /** A payload as the client writes it inside a batch: between quotes. */
  function QuotedItems(s: seq<string>): string {
    if |s| == 0 then ""
    else if |s| == 1 then [Quote] + s[0] + [Quote]
    else [Quote] + s[0] + [Quote] + "," + QuotedItems(s[1..])
  }

  /** The batch a client sends for messages `s`: a JSON array of strings,
      written without escapes, as JSON writes messages that hold no quote,
      backslash or control character. */
  function EncodeBatch(s: seq<string>): string {
    "[" + QuotedItems(s) + "]"
  }

  /** The payloads with a comma piece between each two. */
  function Alternate(s: seq<string>): seq<string> {
    if |s| == 0 then []
    else if |s| == 1 then [s[0]]
    else [s[0], ","] + Alternate(s[1..])
  }

  /** A quoted payload after quote-free text gives that text and the payload
      as two pieces. */
  lemma PiecesQuoted(pre: string, x: string, rest: string)
    requires Quote !in pre && Quote !in x
    ensures Pieces(pre + ([Quote] + x + [Quote]) + rest, Quote) == [pre, x] + Pieces(rest, Quote)
  {
    var tail := x + [Quote] + rest;
    var whole := pre + ([Quote] + x + [Quote]) + rest;
    assert whole == pre + [Quote] + tail;
    PiecesAfterFirst(x, rest, Quote);
    PiecesAfterFirst(pre, tail, Quote);
  }

  /** One quoted payload between quote-free text gives three pieces. */
  lemma PiecesOfOneItem(pre: string, x: string, post: string)
    requires Quote !in pre && Quote !in x && Quote !in post
    ensures Pieces(pre + QuotedItems([x]) + post, Quote) == [pre, x, post]
  {
    assert QuotedItems([x]) == [Quote] + x + [Quote];
    PiecesQuoted(pre, x, post);
    PiecesWithout(post, Quote);
  }

  /** The first of several quoted payloads gives the text before it and
      itself as pieces; the comma starts the rest. */
  lemma PiecesOfFirstItem(pre: string, s: seq<string>, post: string)
    requires Quote !in pre && |s| >= 2 && Quote !in s[0]
    ensures Pieces(pre + QuotedItems(s) + post, Quote)
         == [pre, s[0]] + Pieces("," + QuotedItems(s[1..]) + post, Quote)
  {
    var more := "," + QuotedItems(s[1..]) + post;
    assert QuotedItems(s) == ([Quote] + s[0] + [Quote]) + ("," + QuotedItems(s[1..]));
    assert pre + QuotedItems(s) + post == pre + ([Quote] + s[0] + [Quote]) + more;
    PiecesQuoted(pre, s[0], more);
  }

  /** Splitting quoted payloads between quote-free text gives that text, the
      payloads and the commas. */
  lemma {:induction false} PiecesOfItems(pre: string, s: seq<string>, post: string)
    requires Quote !in pre && Quote !in post && |s| >= 1
    requires forall k :: 0 <= k < |s| ==> Quote !in s[k]
    ensures Pieces(pre + QuotedItems(s) + post, Quote) == [pre] + Alternate(s) + [post]
    decreases |s|, 1
  {
    if |s| == 1 {
      PiecesOfOneItem(pre, s[0], post);
    } else {
      PiecesOfManyItems(pre, s, post);
    }
  }

  /** The induction step of `PiecesOfItems`, for two payloads or more. */
  lemma {:induction false} PiecesOfManyItems(pre: string, s: seq<string>, post: string)
    requires Quote !in pre && Quote !in post && |s| >= 2
    requires forall k :: 0 <= k < |s| ==> Quote !in s[k]
    ensures Pieces(pre + QuotedItems(s) + post, Quote) == [pre] + Alternate(s) + [post]
    decreases |s|, 0
  {
    var tail := s[1..];
    var more := "," + QuotedItems(tail) + post;
    var alt := Alternate(tail);
    assert Pieces(pre + QuotedItems(s) + post, Quote) == [pre, s[0]] + Pieces(more, Quote) by {
      PiecesOfFirstItem(pre, s, post);
    }
    assert Pieces(more, Quote) == [","] + alt + [post] by {
      assert forall k :: 0 <= k < |tail| ==> tail[k] == s[k + 1];
      PiecesOfItems(",", tail, post);
    }
    assert Alternate(s) == [s[0], ","] + alt;
    Regroup(pre, s[0], ",", alt, post);
  }

  lemma Regroup<T>(a: T, b: T, c: T, m: seq<T>, z: T)
    ensures [a, b] + ([c] + m + [z]) == [a] + ([b, c] + m) + [z]
  {
    var l, r := [a, b] + ([c] + m + [z]), [a] + ([b, c] + m) + [z];
    assert |l| == |r|;
    forall k | 0 <= k < |l| ensures l[k] == r[k] {
      if k >= 3 && k < |l| - 1 { assert l[k] == m[k - 3] == r[k]; }
    }
  }

  /** The odd pieces of text, payloads and commas are the payloads. */
  lemma {:induction false} OddPiecesOfAlternate(a: string, s: seq<string>, b: string)
    requires |s| >= 1
    ensures OddPieces([a] + Alternate(s) + [b]) == s
    decreases |s|
  {
    var p := [a] + Alternate(s) + [b];
    if |s| == 1 {
      assert p == [a, s[0], b];
      assert p[2..] == [b];
    } else {
      assert p[1] == s[0];
      assert p[2..] == [","] + Alternate(s[1..]) + [b];
      OddPiecesOfAlternate(",", s[1..], b);
      assert s == [s[0]] + s[1..];
    }
  }

  /** The cheap parsing is enough for what the client sends when JSON writes
      its messages without escapes (no quote, backslash or control character):
      such a batch, the empty batch and empty messages included, decodes to
      those messages. */
  lemma {:induction false} RoundTrip(s: seq<string>)
    requires forall k :: 0 <= k < |s| ==> Quote !in s[k]
    ensures MessagesOf(EncodeBatch(s)) == Success(s)
  {
    var batch := EncodeBatch(s);
    assert batch[0] == '[';
    assert !StartsWith(batch, [Quote]) by {
      assert batch[..1] == ['['];
    }
    if |s| == 0 {
      assert batch == "[]";
    } else {
      PiecesOfItems("[", s, "]");
      var p := Pieces(batch, Quote);
      assert p == ["["] + Alternate(s) + ["]"];
      SplitKeepsAllPieces(batch, Quote);
      OddPiecesOfAlternate("[", s, "]");
    }
  }

  /** A single string literal and a two-element array decode to their messages. */
  lemma ParseExamples()
    ensures MessagesOf("\"abc\"") == Success(["abc"])
    ensures MessagesOf("[\"a\",\"b\"]") == Success(["a", "b"])
  {
    SingleLiteral("\"abc\"");
    assert "\"abc\""[1..4] == "abc";
    assert EncodeBatch(["a", "b"]) == "[\"a\",\"b\"]";
    RoundTrip(["a", "b"]);
  }

  /** No unescaping: a quote inside a payload, escaped as `\"` or not, ends
      the payload there, and what follows it up to the closing quote is lost. */
  lemma {:induction false} InnerQuoteEndsPayload(a: string, b: string)
    requires Quote !in a && Quote !in b
    ensures MessagesOf("[" + ([Quote] + (a + [Quote] + b) + [Quote]) + "]") == Success([a])
  {
    var batch := "[" + ([Quote] + (a + [Quote] + b) + [Quote]) + "]";
    var p := ["[", a, b, "]"];
    assert Pieces(batch, Quote) == p by {
      var rest := b + [Quote] + "]";
      assert batch == "[" + ([Quote] + a + [Quote]) + rest;
      PiecesQuoted("[", a, rest);
      assert Pieces(rest, Quote) == [b, "]"] by {
        PiecesAfterFirst(b, "]", Quote);
        PiecesWithout("]", Quote);
      }
    }
    assert Split(batch, Quote) == p by {
      SplitKeepsAllPieces(batch, Quote);
    }
    assert !StartsWith(batch, [Quote]) by {
      assert batch[..1] == ['['];
    }
    assert OddPieces(p) == [a] by {
      assert p[2..] == [b, "]"];
    }
    assert MessagesOf(batch) == Success(OddPieces(p));
  }

  // ---------------------------------------------------------------------------
  // Frame check
  // ---------------------------------------------------------------------------

  const BrokenJSONBody := "Broken JSON encoding."

  /** The frame check of `checkJSON`: starts with `["` and ends with `"]`.
      Nothing between is looked at, and the two may overlap. */
  predicate IsWellFramed(str: string) {
    StartsWith(str, "[\"") && EndsWith(str, "\"]")
  }

  /** `checkJSON`: on a badly framed body, answers 500 with the fixed body and
      returns false; otherwise leaves the response as it was. */
  method CheckJSON(str: string, response: Response) returns (ok: bool)
    modifies response
    ensures ok == IsWellFramed(str)
    ensures !ok ==> response.statusCode == 500 && response.ended
                    && response.body == old(response.body) + BrokenJSONBody
                    && response.headers == old(response.headers)
    ensures ok ==> unchanged(response)
  {
    if !(StartsWith(str, "[\"") && EndsWith(str, "\"]")) {
      response.statusCode := 500;
      response.End(BrokenJSONBody);
      return false;
    } else {
      return true;
    }
  }

  /** What a frame that passes looks like, character by character. */
  lemma WellFramedChars(str: string)
    requires IsWellFramed(str)
    ensures |str| >= 2 && str[0] == '[' && str[1] == Quote
    ensures str[|str| - 2] == Quote && str[|str| - 1] == ']'
  {
    var head, last := str[..2], str[|str| - 2..];
    assert head == "[\"" && last == "\"]";
    assert head[0] == str[0] && head[1] == str[1];
    assert last[0] == str[|str| - 2] && last[1] == str[|str| - 1];
  }

  /** `["]` passes: its quote both opens and closes. */
  lemma ShortestFrame()
    ensures IsWellFramed("[\"]")
  {
    var str := "[\"]";
    assert str[..2] == "[\"";
    assert str[1..] == "\"]";
  }

  /** A frame that passes has at least three characters, and the only
      three-character one is `["]`, where the two quotes are one. */
  lemma WellFramedLength(str: string)
    ensures IsWellFramed(str) ==> |str| >= 3
    ensures |str| == 3 ==> (IsWellFramed(str) <==> str == "[\"]")
  {
    ShortestFrame();
    if IsWellFramed(str) {
      WellFramedChars(str);
      if |str| == 3 {
        assert str == ['[', Quote, ']'];
      }
    }
  }

  /** The batches a client sends pass the frame check exactly when they hold at
      least one message: the empty batch `[]` is refused. */
  lemma {:induction false} EncodedBatchFraming(s: seq<string>)
    ensures IsWellFramed(EncodeBatch(s)) <==> |s| > 0
  {
    var batch := EncodeBatch(s);
    if |s| == 0 {
      assert batch == "[]";
      assert batch[..2][1] != "[\""[1];
    } else {
      QuotedItemsEnds(s);
      var items := QuotedItems(s);
      assert batch[..2] == "[" + [items[0]] == "[\"";
      assert batch[|batch| - 2..] == [items[|items| - 1]] + "]" == "\"]";
    }
  }

  /** Quoted payloads start and end with a quote. */
  lemma {:induction false} QuotedItemsEnds(s: seq<string>)
    requires |s| > 0
    ensures var q := QuotedItems(s); |q| >= 2 && q[0] == Quote && q[|q| - 1] == Quote
    decreases |s|
  {
    if |s| > 1 {
      QuotedItemsEnds(s[1..]);
      var rest := QuotedItems(s[1..]);
      assert QuotedItems(s) == ([Quote] + s[0] + [Quote] + ",") + rest;
    }
  }

  // ---------------------------------------------------------------------------
  // Sticky-session cookie
  // ---------------------------------------------------------------------------

  /** The configuration the helpers read. */
  datatype AppConfig = AppConfig(insertJSESSIONID: bool)

  const JSessionIdName := "JSESSIONID"
  const CookiePath := "; path=/"
  const DummyCookie := "JSESSIONID=dummy; path=/"

  /** The parts of a Cookie header: split on `;` when it holds one, else the
      whole header. Parts keep their leading spaces. */
  function CookieParts(cookies: string): seq<string> {
    if Contains(cookies, ';') then Split(cookies, ';') else [cookies]
  }

  /** Whether a cookie part names the session cookie. */
  predicate IsSessionPart(part: string) {
    StartsWith(part, JSessionIdName)
  }

  /** The first part that names the session cookie, if any. */
  function FirstSessionPart(parts: seq<string>): Option<string> {
    if |parts| == 0 then None
    else if IsSessionPart(parts[0]) then Some(parts[0])
    else FirstSessionPart(parts[1..])
  }

  /** The `Set-Cookie` value `setJSESSIONID` writes, given the request's Cookie
      header: the first session part with `; path=/` appended; the header
      itself when no part names the session cookie; a dummy session cookie
      when there is no header. */
  function SetCookieValue(cookie: Option<string>): string {
    match cookie
    case None => DummyCookie
    case Some(c) =>
      match FirstSessionPart(CookieParts(c))
      case Some(part) => part + CookiePath
      case None => c
  }

  /** `FirstSessionPart` finds part k exactly when k is the first session part,
      and finds nothing exactly when there is no session part. */
  lemma {:induction false} FirstSessionPartSpec(parts: seq<string>)
    ensures FirstSessionPart(parts).None? <==> forall j :: 0 <= j < |parts| ==> !IsSessionPart(parts[j])
    ensures FirstSessionPart(parts).Some? ==>
      exists k :: 0 <= k < |parts| && parts[k] == FirstSessionPart(parts).value
        && IsSessionPart(parts[k]) && forall j :: 0 <= j < k ==> !IsSessionPart(parts[j])
  {
    if |parts| > 0 && !IsSessionPart(parts[0]) {
      var tail := parts[1..];
      FirstSessionPartSpec(tail);
      assert forall j :: 1 <= j < |parts| ==> parts[j] == tail[j - 1];
      if FirstSessionPart(tail).Some? {
        var k :| 0 <= k < |tail| && tail[k] == FirstSessionPart(tail).value
          && IsSessionPart(tail[k]) && forall j :: 0 <= j < k ==> !IsSessionPart(tail[j]);
        assert parts[k + 1] == tail[k];
        assert forall j :: 0 <= j < k + 1 ==> !IsSessionPart(parts[j]) by {
          forall j | 0 <= j < k + 1 ensures !IsSessionPart(parts[j]) {
            if j > 0 { assert parts[j] == tail[j - 1]; }
          }
        }
      }
    }
  }

  /** The first session part wins. */
  lemma {:induction false} FirstSessionPartAt(parts: seq<string>, k: nat)
    requires k < |parts| && IsSessionPart(parts[k])
    requires forall j :: 0 <= j < k ==> !IsSessionPart(parts[j])
    ensures FirstSessionPart(parts) == Some(parts[k])
    decreases k
  {
    if k > 0 {
      FirstSessionPartAt(parts[1..], k - 1);
    }
  }

  /** With a Cookie header whose first session part is part k, the cookie set
      is that part followed by `; path=/`. */
  lemma StickyCookieFound(c: string, k: nat)
    requires k < |CookieParts(c)| && IsSessionPart(CookieParts(c)[k])
    requires forall j :: 0 <= j < k ==> !IsSessionPart(CookieParts(c)[j])
    ensures SetCookieValue(Some(c)) == CookieParts(c)[k] + CookiePath
    ensures StartsWith(SetCookieValue(Some(c)), JSessionIdName)
    ensures EndsWith(SetCookieValue(Some(c)), CookiePath)
  {
    var part := CookieParts(c)[k];
    FirstSessionPartAt(CookieParts(c), k);
    assert (part + CookiePath)[..|JSessionIdName|] == part[..|JSessionIdName|];
    assert (part + CookiePath)[|part + CookiePath| - |CookiePath|..] == CookiePath;
  }

  /** With a Cookie header none of whose parts names the session cookie, the
      header is echoed as it came. */
  lemma StickyCookieEcho(c: string)
    requires forall j :: 0 <= j < |CookieParts(c)| ==> !IsSessionPart(CookieParts(c)[j])
    ensures SetCookieValue(Some(c)) == c
  {
    FirstSessionPartSpec(CookieParts(c));
  }

  /** Every cookie part is free of `;`, and testing for `;` before splitting
      changes nothing: the parts are those of the split. */
  lemma CookiePartsAreSplit(c: string)
    ensures CookieParts(c) == Split(c, ';')
    ensures forall j :: 0 <= j < |CookieParts(c)| ==> ';' !in CookieParts(c)[j]
  {
  }

  /** A session cookie written first is found. */
  lemma {:induction false} SessionCookieFirst(a: string, b: string)
    requires ';' !in a && IsSessionPart(a)
    ensures SetCookieValue(Some(a + [';'] + b)) == a + CookiePath
  {
    var c := a + [';'] + b;
    PiecesAfterFirst(a, b, ';');
    assert c[|a|] == ';';
    var parts := Split(c, ';');
    assert |parts| >= 1 && parts[0] == a by {
      assert Pieces(c, ';')[0] == a != "";
    }
    assert CookieParts(c) == parts;
    FirstSessionPartAt(parts, 0);
  }

  /** Parts keep their leading space, so in the usual `a=1; JSESSIONID=x`
      layout a session cookie after the first one is missed, and the whole
      header is echoed. */
  lemma {:induction false} SessionCookieAfterSpaceMissed(a: string, b: string)
    requires ';' !in a && ';' !in b && !IsSessionPart(a)
    requires |b| > 0 && b[0] == ' '
    ensures SetCookieValue(Some(a + [';'] + b)) == a + [';'] + b
  {
    var c := a + [';'] + b;
    assert CookieParts(c) == [a, b] by {
      PiecesAfterFirst(a, b, ';');
      PiecesWithout(b, ';');
      SplitKeepsAllPieces(c, ';');
    }
    assert !IsSessionPart(b) by {
      if |JSessionIdName| <= |b| {
        assert b[..|JSessionIdName|][0] == ' ' != JSessionIdName[0];
      }
    }
    StickyCookieEcho(c);
  }

  /** `setJSESSIONID`: when the configuration asks for it, sets `Set-Cookie`
      from the request's Cookie header; otherwise writes nothing. */
  method SetJSESSIONID(config: AppConfig, req: Request)
    modifies req.response
    ensures req.response.headers ==
      if config.insertJSESSIONID then old(req.response.headers)["Set-Cookie" := SetCookieValue(req.GetHeader("Cookie"))]
      else old(req.response.headers)
    ensures req.response.statusCode == old(req.response.statusCode)
    ensures req.response.body == old(req.response.body) && req.response.ended == old(req.response.ended)
  {
    var cookies := req.GetHeader("Cookie");
    if config.insertJSESSIONID {
      if cookies.Some? {
        var parts: seq<string>;
        if Contains(cookies.value, ';') {
          parts := Split(cookies.value, ';');
        } else {
          parts := [cookies.value];
        }
        assert parts == CookieParts(req.GetHeader("Cookie").value);
        var k := 0;
        while k < |parts|
          invariant 0 <= k <= |parts|
          invariant forall j :: 0 <= j < k ==> !IsSessionPart(parts[j])
          invariant cookies == req.GetHeader("Cookie")
        {
          if StartsWith(parts[k], JSessionIdName) {
            FirstSessionPartAt(parts, k);
            cookies := Some(parts[k] + CookiePath);
            break;
          }
          k := k + 1;
        }
        if k == |parts| {
          FirstSessionPartSpec(parts);
        }
        assert cookies == Some(SetCookieValue(req.GetHeader("Cookie")));
      }
      if cookies.None? {
        cookies := Some(DummyCookie);
      }
      req.response.PutHeader("Set-Cookie", cookies.value);
    }
  }

  // ---------------------------------------------------------------------------
  // CORS
  // ---------------------------------------------------------------------------

  /** A year in seconds, as the preflight answer's cache lifetime. */
  const OneYearSeconds: nat := 365 * 24 * 60 * 60

  /** `setCORS`: allows the given origin, with credentials. */
  method SetCORS(resp: Response, origin: string)
    modifies resp
    ensures resp.headers == old(resp.headers)["Access-Control-Allow-Origin" := origin]
                                             ["Access-Control-Allow-Credentials" := "true"]
    ensures resp.statusCode == old(resp.statusCode) && resp.body == old(resp.body) && resp.ended == old(resp.ended)
  {
    resp.PutHeader("Access-Control-Allow-Origin", origin);
    resp.PutHeader("Access-Control-Allow-Credentials", "true");
  }

  /** The origin a preflight answer allows: the request's Origin, or any. */
  function AllowedOrigin(origin: Option<string>): string {
    match origin
    case Some(o) => o
    case None => "*"
  }

  /** The names of the headers a preflight answer sets before the cookie. */
  const PreflightNames: set<string> := {
    "Cache-Control", "Expires", "Allow", "Access-Control-Max-Age",
    "Access-Control-Allow-Origin", "Access-Control-Allow-Credentials"
  }

  /** The headers `h` after the preflight handler's puts, before the cookie;
      `expires` is the formatted date a year from now. */
  function WithPreflightHeaders(h: map<string, string>, methods: string, expires: string, origin: string): map<string, string> {
    h["Cache-Control" := "public,max-age=31536000"]
     ["Expires" := expires]
     ["Allow" := methods]
     ["Access-Control-Max-Age" := LongToString(OneYearSeconds)]
     ["Access-Control-Allow-Origin" := origin]
     ["Access-Control-Allow-Credentials" := "true"]
  }

  /** The preflight headers and their values: a year of caching, the allowed
      methods, a year as the `Access-Control-Max-Age`, the origin and
      credentials; every other header is kept. */
  lemma PreflightHeaderValues(h: map<string, string>, methods: string, expires: string, origin: string)
    ensures var r := WithPreflightHeaders(h, methods, expires, origin);
      && r.Keys == h.Keys + PreflightNames
      && r["Cache-Control"] == "public,max-age=31536000"
      && r["Expires"] == expires
      && r["Allow"] == methods
      && r["Access-Control-Max-Age"] == "31536000"
      && r["Access-Control-Allow-Origin"] == origin
      && r["Access-Control-Allow-Credentials"] == "true"
      && forall k :: k in h && k !in PreflightNames ==> r[k] == h[k]
  {
    PreflightNamesDistinct();
    SixPuts(h, "Cache-Control", "Expires", "Allow", "Access-Control-Max-Age",
            "Access-Control-Allow-Origin", "Access-Control-Allow-Credentials",
            "public,max-age=31536000", expires, methods, LongToString(OneYearSeconds), origin, "true");
    MaxAgeDigits();
  }

  /** The six preflight header names are different (their lengths are). */
  lemma PreflightNamesDistinct()
    ensures AllDifferent("Cache-Control", "Expires", "Allow", "Access-Control-Max-Age",
                         "Access-Control-Allow-Origin", "Access-Control-Allow-Credentials")
  {
    assert |"Cache-Control"| == 13 && |"Expires"| == 7 && |"Allow"| == 5;
    assert |"Access-Control-Max-Age"| == 22 && |"Access-Control-Allow-Origin"| == 27;
    assert |"Access-Control-Allow-Credentials"| == 32;
  }

  /** No two of six keys are equal. */
  predicate AllDifferent<K(==)>(k1: K, k2: K, k3: K, k4: K, k5: K, k6: K) {
    && k1 != k2 && k1 != k3 && k1 != k4 && k1 != k5 && k1 != k6
    && k2 != k3 && k2 != k4 && k2 != k5 && k2 != k6
    && k3 != k4 && k3 != k5 && k3 != k6
    && k4 != k5 && k4 != k6
    && k5 != k6
  }

  /** Six puts under six different names: the keys gain the six names, each
      name maps to its value, and every other key keeps its value. */
  lemma SixPuts<K, V>(h: map<K, V>, k1: K, k2: K, k3: K, k4: K, k5: K, k6: K,
                      v1: V, v2: V, v3: V, v4: V, v5: V, v6: V)
    requires AllDifferent(k1, k2, k3, k4, k5, k6)
    ensures var r := h[k1 := v1][k2 := v2][k3 := v3][k4 := v4][k5 := v5][k6 := v6];
      && r.Keys == h.Keys + {k1, k2, k3, k4, k5, k6}
      && r[k1] == v1 && r[k2] == v2 && r[k3] == v3 && r[k4] == v4 && r[k5] == v5 && r[k6] == v6
      && forall k :: k in h && k !in {k1, k2, k3, k4, k5, k6} ==> r[k] == h[k]
  {
  }

  /** A year in seconds is written `31536000`. */
  lemma MaxAgeDigits()
    ensures LongToString(OneYearSeconds) == "31536000"
  {
    assert OneYearSeconds == 31536000;
    LongToStringAppend(3, 1);
    LongToStringAppend(31, 5);
    LongToStringAppend(315, 3);
    LongToStringAppend(3153, 6);
    LongToStringAppend(31536, 0);
    LongToStringAppend(315360, 0);
    LongToStringAppend(3153600, 0);
  }

  /** The handler `createCORSOptionsHandler` returns, answering preflight
      (OPTIONS) requests. */
  class CORSOptionsHandler {
    const config: AppConfig
    const methods: string

    constructor (config: AppConfig, methods: string)
      ensures this.config == config && this.methods == methods
    {
      this.config := config;
      this.methods := methods;
    }

    /** Answers a preflight request: status 204 with the preflight headers,
        the request's Origin or `*` as the allowed origin, and the sticky
        cookie as `setJSESSIONID` sets it; then ends the response. `expires`
        is the formatted date a year after the current time. */
    method Handle(req: Request, expires: string)
      modifies req.response
      ensures req.response.statusCode == 204 && req.response.ended
      ensures req.response.body == old(req.response.body)
      ensures var preflight := WithPreflightHeaders(old(req.response.headers), methods, expires,
                                                    AllowedOrigin(req.GetHeader("Origin")));
        req.response.headers ==
          if config.insertJSESSIONID then preflight["Set-Cookie" := SetCookieValue(req.GetHeader("Cookie"))]
          else preflight
    {
      req.response.PutHeader("Cache-Control", "public,max-age=31536000");
      req.response.PutHeader("Expires", expires);
      req.response.PutHeader("Allow", methods);
      req.response.PutHeader("Access-Control-Max-Age", LongToString(OneYearSeconds));
      var origin := req.GetHeader("Origin");
      var allowed := if origin.Some? then origin.value else "*";
      SetCORS(req.response, allowed);
      SetJSESSIONID(config, req);
      req.response.statusCode := 204;
      req.response.End("");
      assert req.response.body == old(req.response.body) + "";
    }
  }

  /** `createCORSOptionsHandler` */
  method CreateCORSOptionsHandler(config: AppConfig, methods: string) returns (h: CORSOptionsHandler)
    ensures fresh(h) && h.config == config && h.methods == methods
  {
    h := new CORSOptionsHandler(config, methods);
  }

  // ---------------------------------------------------------------------------
  // The transport base
  // ---------------------------------------------------------------------------

  /** The state every transport shares: the registry of sessions and the
      configuration. */
  class BaseTransport {
    const sessions: SessionRegistry
    var config: AppConfig

    constructor (sessions: SessionRegistry, config: AppConfig)
      ensures this.sessions == sessions && this.config == config
    {
      this.sessions := sessions;
      this.config := config;
    }

    /** `getSession`: the session registered under the id, the timeout,
        heartbeat and handler arguments being ignored; or, when there is none,
        a new session made from them, whose close handler removes the id, and
        which is registered under the id with nothing else changed. */
    method GetSession(timeout: int, heartbeatPeriod: int, sessionID: string, sockHandler: SockHandler)
      returns (session: Session)
      modifies sessions
      ensures sessionID in old(sessions.sessions) ==>
        session == old(sessions.sessions[sessionID]) && sessions.sessions == old(sessions.sessions)
      ensures sessionID !in old(sessions.sessions) ==>
        && fresh(session)
        && sessions.sessions == old(sessions.sessions)[sessionID := session]
        && session.timeout == timeout && session.heartbeatPeriod == heartbeatPeriod
        && session.sockHandler == sockHandler
        && session.closeRegistry == sessions && session.closeId == sessionID
      ensures sessions.Get(sessionID) == Some(session)
      ensures old(sessions.Valid()) ==> sessions.Valid()
    {
      var found := sessions.Get(sessionID);
      if found.None? {
        session := new Session(timeout, heartbeatPeriod, sockHandler, sessions, sessionID);
        sessions.Put(sessionID, session);
      } else {
        session := found.value;
      }
    }

    /** Two calls with the same id return the same session, whatever the
        second call's other arguments. */
    method GetSessionTwice(timeout1: int, heartbeat1: int, handler1: SockHandler,
                           timeout2: int, heartbeat2: int, handler2: SockHandler, sessionID: string)
      returns (first: Session, second: Session)
      modifies sessions
      ensures first == second
      ensures sessions.sessions == old(sessions.sessions)[sessionID := first]
    {
      first := GetSession(timeout1, heartbeat1, sessionID, handler1);
      second := GetSession(timeout2, heartbeat2, sessionID, handler2);
    }

    /** After a session's close handler has run, no registry entry is the
        closed session, and the next call for its id makes a fresh one. */
    method GetSessionAfterClose(timeout: int, heartbeatPeriod: int, sessionID: string, sockHandler: SockHandler)
      returns (closed: Session, next: Session)
      requires sessions.Valid()
      modifies sessions
      ensures closed != next && fresh(next)
      ensures sessions.sessions == (old(sessions.sessions) - {sessionID})[sessionID := next]
      ensures forall id :: id in sessions.sessions ==> sessions.sessions[id] != closed
    {
      closed := GetSession(timeout, heartbeatPeriod, sessionID, sockHandler);
      closed.FireCloseHandler();
      next := GetSession(timeout, heartbeatPeriod, sessionID, sockHandler);
    }
  }
}
