/**
 * The examples in the utilities' doc comments and end-to-end requests, as
 * facts about the model.
 */
module Examples {
  import opened Wrappers
  import opened JavaLang
  import opened StringUtils
  import opened QueryParser
  import opened Router

  lemma ReverseBanana()
    ensures Reversed("banana") == "ananab"
  {
  }

  lemma ReverseHtml()
    ensures Reversed("html") == "lmth"
  {
  }

  lemma ReverseHavalo()
    ensures Reversed("havalo") == "olavah"
  {
  }

  lemma PalindromeMadam()
    ensures IsPalindrome("madam")
  {
  }

  lemma PalindromeRacecar()
    ensures IsPalindrome("racecar")
  {
  }

  lemma PalindromeDog()
    ensures !IsPalindrome("dog")
  {
  }

  lemma Palindrome123321()
    ensures IsPalindrome("123321")
  {
  }

  lemma NoDuplicateCode()
    ensures DuplicateScan("code") == Some(false)
  {
  }

  lemma NoDuplicateAlphabet()
    ensures DuplicateScan("abcdefghijklmnopqrstuvwxyz") == Some(false)
  {
    var s := "abcdefghijklmnopqrstuvwxyz";
    var letters := seq(26, i requires 0 <= i < 26 => ('a' as int + i) as char);
    assert s == letters;
    assert Clean(letters);
  }

  lemma DuplicateJava()
    ensures DuplicateScan("java") == Some(true)
  {
    DuplicateScanInTable("java");
    assert "java"[1] == "java"[3];
  }

  lemma DuplicateMmmmm()
    ensures DuplicateScan("mmmmm") == Some(true)
  {
    DuplicateScanInTable("mmmmm");
    assert "mmmmm"[0] == "mmmmm"[1];
  }

  lemma Duplicate12341()
    ensures DuplicateScan("12341") == Some(true)
  {
    DuplicateScanInTable("12341");
    assert "12341"[0] == "12341"[4];
  }

  // ---------------------------------------------------------------------------
  // Query strings
  // ---------------------------------------------------------------------------

  /** Java's split of "a c b" on c, for c-free a and b with b non-empty, is [a, b]. */
  lemma SplitInTwo(a: string, c: char, b: string)
    requires c !in a && c !in b && b != []
    ensures JavaSplit(a + [c] + b, c) == [a, b]
  {
    var ps := [a, b];
    assert Join(ps[1..], c) == b;
    JavaSplitJoin(ps, c);
  }

  /** A key=value token with '='-free non-empty parts parses into that key and value. */
  lemma PairOf(key: string, value: string)
    requires '=' !in key && '=' !in value && value != []
    ensures ParsePair(key + ['='] + value) == Some((key, value))
  {
    SplitInTwo(key, '=', value);
  }

  /** Characters that delimit the parts of a query. */
  predicate PlainPart(s: string)
  {
    '?' !in s && '&' !in s && '=' !in s
  }

  /** "path?key=value" has the one parameter key, and path before its '?'. */
  lemma OneParam(path: string, key: string, value: string)
    requires '?' !in path && PlainPart(key) && PlainPart(value) && value != []
    ensures QueryParams(path + ['?'] + (key + ['='] + value)) == Some(map[key := value])
    ensures JavaSplit(path + ['?'] + (key + ['='] + value), '?') == [path, key + ['='] + value]
  {
    var token := key + ['='] + value;
    QueryParamsOf(path, token);
    assert JavaSplit(token, '&') == [token];
    PairOf(key, value);
    ParseAllSnoc([], token);
    assert [] + [token] == [token];
    var pairs := [(key, value)];
    assert pairs[..0] == [];
  }

  /** Two tokens that parse give their two pairs, in order. */
  lemma ParseTwo(t1: string, t2: string, p1: (string, string), p2: (string, string))
    requires ParsePair(t1) == Some(p1) && ParsePair(t2) == Some(p2)
    ensures ParseAll([t1, t2]) == Some([p1, p2])
  {
    ParseAllSnoc([], t1);
    assert [] + [t1] == [t1];
    assert [] + [p1] == [p1];
    ParseAllSnoc([t1], t2);
    assert [t1] + [t2] == [t1, t2];
    assert [p1] + [p2] == [p1, p2];
  }

  /** Two pairs are put in order: the second overwrites the first on the same key. */
  lemma PutTwo(p1: (string, string), p2: (string, string))
    ensures PutAll([p1, p2]) == map[p1.0 := p1.1][p2.0 := p2.1]
  {
    assert [p1, p2][..1] == [p1];
    assert [p1][..0] == [];
    assert PutAll([p1]) == map[p1.0 := p1.1];
    assert PutAll([p1, p2]) == PutAll([p1])[p2.0 := p2.1];
  }

  /** "path?k1=v1&k2=v2" puts k1 and then k2. */
  lemma TwoParams(path: string, k1: string, v1: string, k2: string, v2: string)
    requires '?' !in path && PlainPart(k1) && PlainPart(v1) && PlainPart(k2) && PlainPart(v2)
    requires v1 != [] && v2 != []
    ensures QueryParams(path + ['?'] + ((k1 + ['='] + v1) + ['&'] + (k2 + ['='] + v2))) ==
      Some(map[k1 := v1][k2 := v2])
  {
    var t1 := k1 + ['='] + v1;
    var t2 := k2 + ['='] + v2;
    QueryParamsOf(path, t1 + ['&'] + t2);
    SplitInTwo(t1, '&', t2);
    PairOf(k1, v1);
    PairOf(k2, v2);
    ParseTwo(t1, t2, (k1, v1), (k2, v2));
    PutTwo((k1, v1), (k2, v2));
  }

  /** "a/b?x=1&y=2" as path, '?' and query. Only splits a literal into its parts, which keeps literal-string goals within the resource limit. */
  lemma TwoKeysTarget()
    ensures "a/b?x=1&y=2" == "a/b" + ['?'] + (("x" + ['='] + "1") + ['&'] + ("y" + ['='] + "2"))
  {
  }

  lemma QueryTwoKeys()
    ensures QueryParams("a/b?x=1&y=2") == Some(map["x" := "1", "y" := "2"])
  {
    TwoKeysTarget();
    TwoParams("a/b", "x", "1", "y", "2");
  }

  lemma QueryNone()
    ensures QueryParams("a/b") == Some(map[])
  {
  }

  /** "a?x=1&x=2" as path, '?' and query. Only splits a literal into its parts, which keeps literal-string goals within the resource limit. */
  lemma LastWinsTarget()
    ensures "a?x=1&x=2" == "a" + ['?'] + (("x" + ['='] + "1") + ['&'] + ("x" + ['='] + "2"))
  {
  }

  lemma LastWinsPuts()
    ensures QueryParams("a?x=1&x=2") == Some(map["x" := "1"]["x" := "2"])
  {
    LastWinsTarget();
    TwoParams("a", "x", "1", "x", "2");
  }

  lemma QueryLastWins()
    ensures QueryParams("a?x=1&x=2") == Some(map["x" := "2"])
  {
    LastWinsPuts();
    Overwrite("x", "1", "2");
  }

  lemma Overwrite(k: string, v1: string, v2: string)
    ensures map[k := v1][k := v2] == map[k := v2]
  {
  }

  lemma QueryEmptyValue()
    ensures ParsePair("key=") == Some(("key", ""))
  {
    var token := "key=";
    assert token == "key" + ['='] + [];
    assert token[0] == 'k';
    IndexOfAfterFree("key", '=', []);
    assert BeforeFirst(token, '=') == "key";
    assert AfterFirst(token, '=') == [];
  }

  lemma QueryOnlyAmpersand()
    ensures QueryParams("/echo?&") == Some(map[])
  {
    assert "/echo?&" == "/echo" + ['?'] + "&";
    SplitInTwo("/echo", '?', "&");
    JavaSplitEmpty("&", '&');
  }

  /** A query whose some token is all '=' throws, whatever the tokens before it. */
  lemma ThrowingSecond(path: string, t1: string, t2: string)
    requires '?' !in path && '?' !in t1 && '&' !in t1 && t2 != [] && forall i | 0 <= i < |t2| :: t2[i] == '='
    ensures QueryParams(path + ['?'] + (t1 + ['&'] + t2)) == None
  {
    assert '?' !in t2 && '&' !in t2;
    QueryParamsOf(path, t1 + ['&'] + t2);
    SplitInTwo(t1, '&', t2);
    assert OnlyEquals(t2);
    NoneFromToken([t1, t2], 1);
  }

  /** "/echo?word=a&==" as path, '?' and query. Only splits a literal into its parts, which keeps literal-string goals within the resource limit. */
  lemma OnlyEqualsTarget()
    ensures "/echo?word=a&==" == "/echo" + ['?'] + ("word=a" + ['&'] + "==")
  {
  }

  lemma QueryOnlyEquals()
    ensures QueryParams("/echo?word=a&==") == None
  {
    OnlyEqualsTarget();
    ThrowingSecond("/echo", "word=a", "==");
  }

  /** "/echo?" has no second piece, and "/a??b" has the empty query, which puts the empty key. */
  lemma EmptyQueries()
    ensures QueryParams("/echo?") == Some(map[])
    ensures QueryParams("/a??b") == Some(map["" := ""])
  {
    assert "/echo?" == "/echo" + ['?'] + [];
    IndexOfAfterFree("/echo", '?', []);
    assert "/a??b" == "/a" + ['?'] + "?b";
    IndexOfAfterFree("/a", '?', "?b");
    assert "?b" == [] + ['?'] + "b";
    IndexOfAfterFree([], '?', "b");
    assert AfterFirst("/a??b", '?')[1] != '?';
  }

  // ---------------------------------------------------------------------------
  // Whole requests
  // ---------------------------------------------------------------------------

  /** Two words with one space between them, laid out as a line. */
  lemma SpaceBetween(a: string, b: string)
    ensures Spread([a, b], ["", " ", ""]) == a + [' '] + b
    ensures forall k | 0 <= k < 3 :: AllDelimiters(["", " ", ""][k])
  {
    assert Spread([b], [" ", ""]) == " " + (b + Spread([], [""]));
  }

  /** "GET target" is dispatched on the target. */
  lemma GetLine(target: string)
    requires IsToken(target)
    ensures Respond(Some("GET" + [' '] + target)) == Dispatch(target)
  {
    SpaceBetween("GET", target);
    RequestTargetOfLine(["GET", target], ["", " ", ""]);
  }

  /** "GET path?word=w" is routed on path with the word w. */
  lemma WordRequest(path: string, word: string)
    requires IsToken(path) && '?' !in path && PlainPart(word) && IsToken(word)
    ensures Respond(Some("GET" + [' '] + (path + ['?'] + ("word" + ['='] + word)))) == Route(path, Some(word))
  {
    assert IsToken("word") && PlainPart("word");
    TokenAround("word", '=', word);
    TokenAround(path, '?', "word" + ['='] + word);
    var target := path + ['?'] + ("word" + ['='] + word);
    GetLine(target);
    OneParam(path, "word", word);
  }

  /** Two tokens around a non-delimiter form one token. */
  lemma TokenAround(a: string, c: char, b: string)
    requires IsToken(a) && !IsTokenDelimiter(c) && IsToken(b)
    ensures IsToken(a + [c] + b)
  {
    var t := a + [c] + b;
    forall i | 0 <= i < |t| ensures !IsTokenDelimiter(t[i]) {
      if i < |a| {
        assert t[i] == a[i];
      } else if i > |a| {
        assert t[i] == b[i - |a| - 1];
      }
    }
  }

  /** the /palindrome request line as method, space and target. Only splits a literal into its parts, which keeps literal-string goals within the resource limit. */
  lemma PalindromeLine()
    ensures "GET /palindrome?word=racecar" == "GET" + [' '] + ("/palindrome" + ['?'] + ("word" + ['='] + "racecar"))
  {
  }

  lemma PalindromeRequest()
    ensures Respond(Some("GET /palindrome?word=racecar")) == Reply(PlainTextResponse("yes"))
  {
    PalindromeLine();
    WordRequest("/palindrome", "racecar");
    PalindromeRacecar();
    RoutePalindrome("racecar");
  }

  /** the /duplicates request line as method, space and target. Only splits a literal into its parts, which keeps literal-string goals within the resource limit. */
  lemma DuplicatesLine()
    ensures "GET /duplicates?word=code" == "GET" + [' '] + ("/duplicates" + ['?'] + ("word" + ['='] + "code"))
  {
  }

  lemma DuplicatesRequest()
    ensures Respond(Some("GET /duplicates?word=code")) == Reply(PlainTextResponse("no"))
  {
    DuplicatesLine();
    WordRequest("/duplicates", "code");
    NoDuplicateCode();
    DuplicatesRoute("code");
  }

  /** the /reverse request line as method, space and target. Only splits a literal into its parts, which keeps literal-string goals within the resource limit. */
  lemma ReverseLine()
    ensures "GET /reverse?word=banana" == "GET" + [' '] + ("/reverse" + ['?'] + ("word" + ['='] + "banana"))
  {
  }

  lemma ReverseRequest()
    ensures Respond(Some("GET /reverse?word=banana")) == Reply(PlainTextResponse("ananab"))
  {
    ReverseLine();
    WordRequest("/reverse", "banana");
    ReverseBanana();
    RouteReverse("banana");
  }

  /** the /nope request line as method, space and target. Only splits a literal into its parts, which keeps literal-string goals within the resource limit. */
  lemma UnknownPathLine()
    ensures "GET /nope" == "GET" + [' '] + "/nope"
  {
  }

  lemma UnknownPathRequest()
    ensures Respond(Some("GET /nope")) == Reply(NotFoundResponse())
  {
    UnknownPathLine();
    GetLine("/nope");
    UnknownPathNoQuery();
    UnknownPathOutside();
  }

  lemma UnknownPathNoQuery()
    ensures QueryParams("/nope") == Some(map[])
  {
    assert '?' !in "/nope";
  }

  lemma UnknownPathOutside()
    ensures "/nope" !in Routes
  {
    InRoutes("/nope");
    assert "/nope"[1] != "/echo"[1];
  }

  /** the POST request line as method, space and target. Only splits a literal into its parts, which keeps literal-string goals within the resource limit. */
  lemma PostLine()
    ensures "POST /echo?word=x" == "POST" + [' '] + "/echo?word=x"
  {
  }

  lemma PostRequest()
    ensures Respond(Some("POST /echo?word=x")) == NoResponse
  {
    PostLine();
    SpaceBetween("POST", "/echo?word=x");
    RequestTargetOfLine(["POST", "/echo?word=x"], ["", " ", ""]);
  }

  lemma ClosedConnection()
    ensures Respond(None) == NoResponse
  {
  }
}
