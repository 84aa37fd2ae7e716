/**
 * Router.run as a pure function from the request line to what the
 * connection receives, with the framing of sendString, sendHtmlFile and
 * send404NotFound.
 */
module Router {
  import opened Wrappers
  import opened JavaLang
  import opened StringUtils
  import opened QueryParser

  // ---------------------------------------------------------------------------
  // Response framing
  // ---------------------------------------------------------------------------

  const CRLF: string := "\r\n"
  const OkStatus: string := "HTTP/1.0 200 OK"
  const NotFoundStatus: string := "HTTP/1.0 404 Not Found"
  const PlainTextType: string := "Content-Type: text/plain; charset=utf-8"
  const HtmlType: string := "Content-Type: text/html; charset=utf-8"
  const NotFoundPage: string := "<html><body><h2>404 Not Found</h2></body></html>"

  /** What PrintStream.print(String) writes: the text, or the four characters null. */
  function Printed(text: Option<string>): (r: string)
    ensures text.Some? ==> r == text.value
    ensures text.None? ==> r == "null"
  {
    match text
    case None => "null"
    case Some(t) => t
  }

  /** A response as a status line, one header line and a body. */
  datatype Message = Message(statusLine: string, headerLine: string, body: string)

  /** The wire form of a message: each of the two lines ends in CR LF, then an empty line. */
  function Frame(m: Message): string
  {
    m.statusLine + CRLF + m.headerLine + CRLF + CRLF + m.body
  }

  /** The text before the first CR and what follows its CR LF; None if that CR is not followed by LF. */
  function SplitLine(s: string): Option<(string, string)>
  {
    if '\r' in s then
      var i := IndexOf(s, '\r');
      if i + 1 < |s| && s[i + 1] == '\n' then Some((s[..i], s[i + 2..])) else None
    else None
  }

  /** Reads a status line, one header line, the empty line and the body back out of a response. */
  function ParseMessage(s: string): Option<Message>
  {
    match SplitLine(s)
    case None => None
    case Some((status, rest)) =>
      match SplitLine(rest)
      case None => None
      case Some((header, rest')) =>
        if |rest'| >= 2 && rest'[..2] == CRLF then Some(Message(status, header, rest'[2..])) else None
  }

  /** A line without CR followed by CR LF splits off exactly. */
  lemma SplitLineFirst(line: string, rest: string)
    requires '\r' !in line
    ensures SplitLine(line + CRLF + rest) == Some((line, rest))
  {
    var s := line + CRLF + rest;
    assert s == line + ['\r'] + (['\n'] + rest);
    IndexOfAfterFree(line, '\r', ['\n'] + rest);
    assert s[..|line|] == line;
    assert s[|line| + 2..] == rest;
  }

  /** Framing round trip: the header block ends at the first empty line, whatever the body holds. */
  lemma ParseFrame(m: Message)
    requires '\r' !in m.statusLine && '\r' !in m.headerLine
    ensures ParseMessage(Frame(m)) == Some(m)
  {
    var rest' := CRLF + m.body;
    var rest := m.headerLine + CRLF + rest';
    FrameLines(m);
    SplitLineFirst(m.statusLine, rest);
    SplitLineFirst(m.headerLine, rest');
    BlankLine(m.body);
  }

  /** The wire form read as the status line, then the header line, then the blank line and body. */
  lemma FrameLines(m: Message)
    ensures Frame(m) == m.statusLine + CRLF + (m.headerLine + CRLF + (CRLF + m.body))
  {
  }

  /** The blank line is the two characters in front of the body. */
  lemma BlankLine(body: string)
    ensures |CRLF + body| >= 2 && (CRLF + body)[..2] == CRLF && (CRLF + body)[2..] == body
  {
  }

  /** None of the fixed status and header lines contains a CR, so each ends at its own CR LF. */
  lemma OkStatusNoCR()
    ensures '\r' !in OkStatus
  {
  }

  lemma NotFoundStatusNoCR()
    ensures '\r' !in NotFoundStatus
  {
  }

  lemma PlainTextTypeNoCR()
    ensures '\r' !in PlainTextType
  {
  }

  lemma HtmlTypeNoCR()
    ensures '\r' !in HtmlType
  {
  }

  /**
   * sendString: the 200 status line, the plain-text content type, a blank
   * line, the text. Read back, it is a 200 plain-text message whose body is
   * exactly the text.
   */
  function PlainTextResponse(text: string): (r: string)
    ensures ParseMessage(r) == Some(Message(OkStatus, PlainTextType, text))
  {
    OkStatusNoCR();
    PlainTextTypeNoCR();
    ParseFrame(Message(OkStatus, PlainTextType, text));
    Frame(Message(OkStatus, PlainTextType, text))
  }

  /**
   * sendHtmlFile: the 200 status line, the HTML content type and a blank line,
   * then the file's contents. Read back, the body is exactly the contents.
   */
  function HtmlFileResponse(contents: string): (r: string)
    ensures ParseMessage(r) == Some(Message(OkStatus, HtmlType, contents))
  {
    OkStatusNoCR();
    HtmlTypeNoCR();
    ParseFrame(Message(OkStatus, HtmlType, contents));
    Frame(Message(OkStatus, HtmlType, contents))
  }

  /**
   * send404NotFound: the 404 status line, the HTML content type, a blank line
   * and the fixed page. Read back, it is a 404 HTML message with that page.
   */
  function NotFoundResponse(): (r: string)
    ensures ParseMessage(r) == Some(Message(NotFoundStatus, HtmlType, NotFoundPage))
  {
    NotFoundStatusNoCR();
    HtmlTypeNoCR();
    ParseFrame(Message(NotFoundStatus, HtmlType, NotFoundPage));
    Frame(Message(NotFoundStatus, HtmlType, NotFoundPage))
  }

  // ---------------------------------------------------------------------------
  // The request line
  // ---------------------------------------------------------------------------

  /**
   * The request target: the second token of the line, provided there is one
   * and the first token equals GET ignoring case; None otherwise.
   */
  function RequestTarget(line: string): (r: Option<string>)
    ensures r.Some? <==> |Tokens(line)| > 1 && EqualsIgnoreCase(Tokens(line)[0], "GET")
    ensures r.Some? ==> r.value == Tokens(line)[1] && IsToken(r.value)
  {
    var st := Tokens(line);
    if |st| > 0 && EqualsIgnoreCase(st[0], "GET") && |st| > 1 then Some(st[1]) else None
  }

  /** A token of the request line: non-empty and free of StringTokenizer delimiters. */
  predicate IsToken(t: string)
  {
    t != [] && forall i | 0 <= i < |t| :: !IsTokenDelimiter(t[i])
  }

  /**
   * For a line "method target ..." whose tokens are separated by runs of
   * delimiters, with optional runs before the first and after the last, the
   * target is the second token when the method is GET in any case, and absent
   * otherwise.
   */
  lemma RequestTargetOfLine(ts: seq<string>, gaps: seq<string>)
    requires |ts| > 1 && forall k | 0 <= k < |ts| :: IsToken(ts[k])
    requires |gaps| == |ts| + 1 && forall k | 0 <= k < |gaps| :: AllDelimiters(gaps[k])
    requires forall k | 0 < k < |ts| :: gaps[k] != []
    ensures RequestTarget(Spread(ts, gaps)) == if EqualsIgnoreCase(ts[0], "GET") then Some(ts[1]) else None
  {
    TokensSpread(ts, gaps);
  }

  // ---------------------------------------------------------------------------
  // Dispatch
  // ---------------------------------------------------------------------------

  /** What the router does with one connection. */
  datatype Outcome =
    | NoResponse               // an exception was caught: nothing is written
    | ServeFile(name: string)  // sendHtmlFile(out, name)
    | Reply(text: string)      // the complete response text

  /** The six routes; any other path gets the 404 response. */
  const Routes: seq<string> := ["/", "/words.html", "/echo", "/palindrome", "/duplicates", "/reverse"]

  /** "yes" or "no", as the palindrome and duplicates routes answer. */
  function YesNo(b: bool): string
  {
    if b then "yes" else "no"
  }

  /** The value of the word parameter; None stands for Java's null from Map.get. */
  function Word(params: map<string, string>): (r: Option<string>)
    ensures r.Some? <==> "word" in params
    ensures r.Some? ==> r.value == params["word"]
  {
    if "word" in params then Some(params["word"]) else None
  }

  /**
   * The if-chain of Router.run on the path. A null word makes the utilities
   * throw (NoResponse) but is printed as null by /echo; a character code of
   * 256 or more throws in /duplicates.
   */
  function Route(path: string, word: Option<string>): (r: Outcome)
    ensures r.ServeFile? <==> path == "/" || path == "/words.html"
    ensures path == "/" ==> r == ServeFile("index.html")
    ensures path == "/words.html" ==> r == ServeFile("words.html")
    ensures r == NoResponse ==> path in ["/palindrome", "/duplicates", "/reverse"]
    ensures path !in Routes ==> r == Reply(NotFoundResponse())
  {
    if path == "/" then ServeFile("index.html")
    else if path == "/words.html" then ServeFile("words.html")
    else if path == "/echo" then Reply(PlainTextResponse(Printed(word)))
    else if path == "/palindrome" then
      match word
      case None => NoResponse
      case Some(w) => Reply(PlainTextResponse(YesNo(IsPalindrome(w))))
    else if path == "/duplicates" then
      match word
      case None => NoResponse
      case Some(w) =>
        match DuplicateScan(w)
        case None => NoResponse
        case Some(b) => Reply(PlainTextResponse(YesNo(b)))
    else if path == "/reverse" then
      match word
      case None => NoResponse
      case Some(w) => Reply(PlainTextResponse(Reversed(w)))
    else Reply(NotFoundResponse())
  }

  /**
   * The target parsed and routed: the query parameters first (a throw there
   * is NoResponse), then the path, which is split("?")[0] of the target only
   * when the parameter map is not empty.
   */
  function Dispatch(target: string): (r: Outcome)
    ensures QueryParams(target).None? ==> r == NoResponse
    ensures QueryParams(target).Some? ==>
      var params := QueryParams(target).value;
      r == Route(if params != map[] then BeforeFirst(target, '?') else target, Word(params))
  {
    match QueryParams(target)
    case None => NoResponse
    case Some(params) =>
      var path :=
        if params != map[] then
          ParamsMeanQuestionMark(target);
          JavaSplit(target, '?')[0]
        else target;
      Route(path, Word(params))
  }

  /**
   * Router.run: a missing line (the client closed the connection) or a line
   * that is not "GET target" throws; otherwise the target is dispatched.
   */
  function Respond(line: Option<string>): (r: Outcome)
    ensures r != NoResponse ==>
      line.Some? && |Tokens(line.value)| > 1 && EqualsIgnoreCase(Tokens(line.value)[0], "GET")
    ensures line.Some? && RequestTarget(line.value).Some? ==> r == Dispatch(RequestTarget(line.value).value)
  {
    match line
    case None => NoResponse
    case Some(l) =>
      match RequestTarget(l)
      case None => NoResponse
      case Some(target) => Dispatch(target)
  }

  /**
   * What the client receives. Nothing for NoResponse; a served file arrives
   * as a 200 HTML message with the file as its body. A file that cannot be
   * opened (None) still gets the header and an empty body, because
   * sendHtmlFile prints the header before opening the file and the stream is
   * flushed when it is closed.
   */
  function Transmitted(outcome: Outcome, file: Option<string>): (r: string)
    ensures outcome == NoResponse ==> r == ""
    ensures outcome.Reply? ==> r == outcome.text
    ensures outcome.ServeFile? ==>
      ParseMessage(r) == Some(Message(OkStatus, HtmlType, if file.Some? then file.value else ""))
  {
    match outcome
    case NoResponse => ""
    case Reply(text) => text
    case ServeFile(_) =>
      match file
      case None => HtmlFileResponse("")
      case Some(contents) => HtmlFileResponse(contents)
  }

  // ---------------------------------------------------------------------------
  // Properties of the router
  // ---------------------------------------------------------------------------

  /** The HTTP 404 page is sent exactly for the paths outside the six routes. */
  lemma RouteNotFound(path: string, word: Option<string>)
    ensures Route(path, word) == Reply(NotFoundResponse()) <==> path !in Routes
  {
    InRoutes(path);
    if Route(path, word).Reply? {
      RouteWellFramed(path, word);
    }
  }

  // The next four lemmas state facts about literal strings that Dafny can
  // check directly, but only at a high cost when they hide inside a larger
  // goal; stated on their own they keep the route proofs within the
  // resource limit.

  /** The six route names are pairwise different. */
  lemma RouteNamesDiffer()
    ensures "/" != "/words.html" && "/" != "/echo" && "/" != "/palindrome" && "/" != "/duplicates" && "/" != "/reverse"
    ensures "/words.html" != "/echo" && "/words.html" != "/palindrome" && "/words.html" != "/duplicates"
    ensures "/words.html" != "/reverse" && "/echo" != "/palindrome" && "/echo" != "/duplicates" && "/echo" != "/reverse"
    ensures "/palindrome" != "/duplicates" && "/palindrome" != "/reverse" && "/duplicates" != "/reverse"
  {
    assert "/words.html"[1] != "/palindrome"[1] && "/words.html"[1] != "/duplicates"[1];
    assert "/palindrome"[1] != "/duplicates"[1];
  }

  /** Membership in the six routes, written out. */
  lemma InRoutes(path: string)
    ensures path in Routes <==>
      (path == "/" || path == "/words.html" || path == "/echo" ||
       path == "/palindrome" || path == "/duplicates" || path == "/reverse")
  {
    assert Routes[5] == "/reverse";
  }

  /** The 200 and 404 status lines differ. */
  lemma StatusesDiffer()
    ensures OkStatus != NotFoundStatus
  {
    assert OkStatus[9] != NotFoundStatus[9];
  }

  /** The yes and no answers are different responses: their bodies differ. */
  lemma YesNotNo()
    ensures PlainTextResponse("yes") != PlainTextResponse("no")
  {
    assert "yes" != "no" by {
      assert |"yes"| != |"no"|;
    }
  }

  /** Without a word, /echo answers null and the three utility routes throw. */
  lemma RouteWithoutWord(path: string)
    ensures Route("/echo", None) == Reply(PlainTextResponse("null"))
    ensures Route(path, None) == NoResponse <==> path in ["/palindrome", "/duplicates", "/reverse"]
  {
    RouteNamesDiffer();
    InRoutes(path);
    InRoutes("/echo");
    if path in ["/palindrome", "/duplicates", "/reverse"] {
      assert path == "/palindrome" || path == "/duplicates" || path == "/reverse";
    }
  }

  /** /echo writes the word back, or null without one. */
  lemma RouteEcho(w: string)
    ensures Route("/echo", Some(w)) == Reply(PlainTextResponse(w))
    ensures Route("/echo", None) == Reply(PlainTextResponse("null"))
  {
    RouteNamesDiffer();
    InRoutes("/echo");
  }

  /** /palindrome answers yes exactly for words equal to their mirror image, and no otherwise. */
  lemma RoutePalindrome(w: string)
    ensures Route("/palindrome", Some(w)) == Reply(PlainTextResponse(YesNo(IsPalindrome(w))))
    ensures Route("/palindrome", Some(w)) == Reply(PlainTextResponse("yes")) <==>
      forall k | 0 <= k < |w| :: w[k] == w[|w| - 1 - k]
    ensures Route("/palindrome", Some(w)) == Reply(PlainTextResponse("yes")) ||
      Route("/palindrome", Some(w)) == Reply(PlainTextResponse("no"))
  {
    RouteNamesDiffer();
    InRoutes("/palindrome");
    YesNotNo();
  }

  /**
   * /duplicates answers whether a character repeats when every character has
   * a flag, never answers yes falsely, and throws only for a character code of
   * 256 or more.
   */
  lemma RouteDuplicates(w: string)
    ensures (forall i | 0 <= i < |w| :: InFlagTable(w[i])) ==>
      Route("/duplicates", Some(w)) == Reply(PlainTextResponse(YesNo(HasDuplicate(w))))
    ensures Route("/duplicates", Some(w)) == Reply(PlainTextResponse("yes")) ==> HasDuplicate(w)
    ensures Route("/duplicates", Some(w)) == NoResponse ==> exists i | 0 <= i < |w| :: !InFlagTable(w[i])
  {
    DuplicatesRoute(w);
    if forall i | 0 <= i < |w| :: InFlagTable(w[i]) {
      DuplicateScanInTable(w);
    }
    YesNotNo();
  }

  /** The route /duplicates answers the scan's verdict, or nothing when the scan throws. */
  lemma DuplicatesRoute(w: string)
    ensures Route("/duplicates", Some(w)) ==
      match DuplicateScan(w)
      case None => NoResponse
      case Some(b) => Reply(PlainTextResponse(YesNo(b)))
  {
    RouteNamesDiffer();
    InRoutes("/duplicates");
  }

  /** /reverse answers a plain-text body whose reverse is the word. */
  lemma RouteReverse(w: string)
    ensures Route("/reverse", Some(w)) == Reply(PlainTextResponse(Reversed(w)))
    ensures Route("/reverse", Some(w)).Reply?
    ensures ParseMessage(Route("/reverse", Some(w)).text) == Some(Message(OkStatus, PlainTextType, Reversed(w)))
    ensures Reversed(ParseMessage(Route("/reverse", Some(w)).text).value.body) == w
  {
    RouteNamesDiffer();
    InRoutes("/reverse");
    ReversedTwice(w);
  }

  /** A well-formed 200 plain-text response or the 404 page. */
  predicate WellFramed(text: string)
  {
    var m := ParseMessage(text);
    m.Some? &&
    ((m.value.statusLine == OkStatus && m.value.headerLine == PlainTextType) ||
     (m.value.statusLine == NotFoundStatus && m.value.headerLine == HtmlType && m.value.body == NotFoundPage))
  }

  /** Every text a route writes is well framed. */
  lemma RouteWellFramed(path: string, word: Option<string>)
    requires Route(path, word).Reply?
    ensures WellFramed(Route(path, word).text)
    ensures ParseMessage(Route(path, word).text).value.statusLine == NotFoundStatus <==> path !in Routes
  {
    RouteNamesDiffer();
    StatusesDiffer();
    InRoutes(path);
    if path !in Routes {
      assert Route(path, word).text == NotFoundResponse();
    } else if path == "/echo" {
      assert Route(path, word).text == PlainTextResponse(Printed(word));
    } else if path == "/palindrome" {
      assert Route(path, word).text == PlainTextResponse(YesNo(IsPalindrome(word.value)));
    } else if path == "/duplicates" {
      assert Route(path, word).text == PlainTextResponse(YesNo(DuplicateScan(word.value).value));
    } else {
      assert path == "/reverse";
      assert Route(path, word).text == PlainTextResponse(Reversed(word.value));
    }
  }

  /** Every reply the router writes is a well-formed 200 plain-text or 404 HTML response. */
  lemma RespondWellFramed(line: Option<string>)
    requires Respond(line).Reply?
    ensures WellFramed(Respond(line).text)
  {
    var target := RequestTarget(line.value).value;
    var params := QueryParams(target).value;
    RouteWellFramed(if params != map[] then BeforeFirst(target, '?') else target, Word(params));
  }
}
