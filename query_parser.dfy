/**
 * Router.getQueryParams: the query string of a request target parsed into a
 * map from keys to values, the last occurrence of a key winning.
 */
module QueryParser {
  import opened Wrappers
  import opened JavaLang

  /** A non-empty token made of '=' characters only. */
  predicate OnlyEquals(token: string)
  {
    token != [] && forall i | 0 <= i < |token| :: token[i] == '='
  }

  /**
   * One token of the query, param.split("=") taken apart: the key is piece 0
   * and the value piece 1 or "". None when the split has no piece 0, which
   * throws ArrayIndexOutOfBoundsException in the source. That happens exactly
   * for a non-empty run of '='; any other token has as key the text before its
   * first '=' and as value the text between its first and second '=' (""
   * without a '=').
   */
  function ParsePair(token: string): (r: Option<(string, string)>)
    ensures r == None <==> OnlyEquals(token)
    ensures r.Some? ==>
      r.value.0 == BeforeFirst(token, '=') &&
      r.value.1 == (if '=' in token then BeforeFirst(AfterFirst(token, '='), '=') else "")
  {
    JavaSplitEmpty(token, '=');
    var pair := JavaSplit(token, '=');
    if |pair| == 0 then None
    else
      JavaSplitFirst(token, '=');
      SplitAllSecond(token, '=');
      Some((pair[0], if |pair| > 1 then pair[1] else ""))
  }

  /** Every token parsed, or None if some token fails. */
  function ParseAll(tokens: seq<string>): (r: Option<seq<(string, string)>>)
    ensures r.Some? ==> |r.value| == |tokens|
  {
    if tokens == [] then Some([])
    else
      match ParseAll(tokens[..|tokens| - 1])
      case None => None
      case Some(ps) =>
        match ParsePair(tokens[|tokens| - 1])
        case None => None
        case Some(p) => Some(ps + [p])
  }

  /** The parse succeeds exactly when every token parses. */
  lemma {:induction false} ParseAllSucceeds(tokens: seq<string>)
    ensures ParseAll(tokens).Some? <==> forall k | 0 <= k < |tokens| :: ParsePair(tokens[k]).Some?
    decreases |tokens|
  {
    if tokens != [] {
      var init := tokens[..|tokens| - 1];
      ParseAllSucceeds(init);
      assert forall k | 0 <= k < |init| :: init[k] == tokens[k];
    }
  }

  /** A successful parse holds each token's pair at the token's place. */
  lemma {:induction false} ParseAllPairs(tokens: seq<string>, k: nat)
    requires ParseAll(tokens).Some? && k < |tokens|
    ensures ParsePair(tokens[k]) == Some(ParseAll(tokens).value[k])
    decreases |tokens|
  {
    var init := tokens[..|tokens| - 1];
    ParseAllLast(tokens);
    if k < |init| {
      ParseAllPairs(init, k);
      assert init[k] == tokens[k];
    }
  }

  /** A successful parse is the parse of all but the last token, then the last token's pair. */
  lemma ParseAllLast(tokens: seq<string>)
    requires tokens != [] && ParseAll(tokens).Some?
    ensures ParseAll(tokens[..|tokens| - 1]).Some? && ParsePair(tokens[|tokens| - 1]).Some?
    ensures ParseAll(tokens).value ==
      ParseAll(tokens[..|tokens| - 1]).value + [ParsePair(tokens[|tokens| - 1]).value]
  {
  }

  /**
   * Entering the pairs in order into an empty map, later puts overwriting
   * earlier ones. The keys of the map are exactly the keys of the pairs.
   */
  function PutAll(pairs: seq<(string, string)>): (m: map<string, string>)
    ensures m.Keys == set k | 0 <= k < |pairs| :: pairs[k].0
  {
    if pairs == [] then map[]
    else
      var init := pairs[..|pairs| - 1];
      var last := pairs[|pairs| - 1];
      assert (set k | 0 <= k < |pairs| :: pairs[k].0) ==
        (set k | 0 <= k < |init| :: init[k].0) + {last.0} by {
        assert forall k | 0 <= k < |init| :: init[k] == pairs[k];
      }
      PutAll(init)[last.0 := last.1]
  }

  /** A key maps to the value of its last pair: the last write wins. */
  lemma {:induction false} PutAllLastWins(pairs: seq<(string, string)>, k: nat)
    requires k < |pairs|
    requires forall j | k < j < |pairs| :: pairs[j].0 != pairs[k].0
    ensures pairs[k].0 in PutAll(pairs) && PutAll(pairs)[pairs[k].0] == pairs[k].1
    decreases |pairs|
  {
    if k < |pairs| - 1 {
      var init := pairs[..|pairs| - 1];
      assert init[k] == pairs[k];
      PutAllLastWins(init, k);
    }
  }

  /**
   * The parameters of one query string: its '&' tokens parsed and put in
   * order. It throws exactly when some token is a run of '=', and otherwise
   * its keys are the texts before the first '=' of the tokens.
   */
  function QueryStringParams(query: string): (r: Option<map<string, string>>)
    ensures r.None? <==>
      exists k | 0 <= k < |JavaSplit(query, '&')| :: OnlyEquals(JavaSplit(query, '&')[k])
    ensures r.Some? ==>
      r.value.Keys == set k | 0 <= k < |JavaSplit(query, '&')| :: BeforeFirst(JavaSplit(query, '&')[k], '=')
  {
    QueryStringKeys(JavaSplit(query, '&'));
    match ParseAll(JavaSplit(query, '&'))
    case None => None
    case Some(pairs) => Some(PutAll(pairs))
  }

  /**
   * getQueryParams as a function: no piece after the first '?' gives the
   * empty map; otherwise piece 1 of the split on '?' is parsed as the query
   * string. So a target without '?' has no parameters, and a target with a
   * non-empty text between its first and second '?' has the parameters of
   * exactly that text. When that text is empty, only '?' characters after the
   * first '?' leave a single piece and the empty map; anything else makes
   * piece 1 the empty query, whose one token "" puts the empty key.
   */
  function QueryParams(url: string): (r: Option<map<string, string>>)
    ensures '?' !in url ==> r == Some(map[])
    ensures '?' in url && BeforeFirst(AfterFirst(url, '?'), '?') != [] ==>
      r == QueryStringParams(BeforeFirst(AfterFirst(url, '?'), '?'))
    ensures '?' in url && BeforeFirst(AfterFirst(url, '?'), '?') == [] ==>
      r == if forall i | 0 <= i < |AfterFirst(url, '?')| :: AfterFirst(url, '?')[i] == '?'
           then Some(map[]) else Some(map["" := ""])
  {
    QueryPiece(url);
    EmptyQuerySplit(url);
    EmptyQueryParams();
    var urlParts := JavaSplit(url, '?');
    if |urlParts| > 1 then QueryStringParams(urlParts[1])
    else Some(map[])
  }

  /**
   * The query string getQueryParams reads is the text between the first and
   * second '?', and it is read whenever that text is not empty.
   */
  lemma QueryPiece(url: string)
    ensures |JavaSplit(url, '?')| > 1 ==>
      '?' in url && JavaSplit(url, '?')[1] == BeforeFirst(AfterFirst(url, '?'), '?')
    ensures '?' in url && BeforeFirst(AfterFirst(url, '?'), '?') != [] ==> |JavaSplit(url, '?')| > 1
  {
    SplitAllSecond(url, '?');
  }

  /**
   * With nothing between the first and second '?', the split on '?' has a
   * second piece exactly when something other than '?' follows the first '?'.
   */
  lemma EmptyQuerySplit(url: string)
    ensures '?' in url && BeforeFirst(AfterFirst(url, '?'), '?') == [] ==>
      (|JavaSplit(url, '?')| > 1 <==>
       exists i | 0 <= i < |AfterFirst(url, '?')| :: AfterFirst(url, '?')[i] != '?')
  {
    if '?' in url && BeforeFirst(AfterFirst(url, '?'), '?') == [] {
      var after := AfterFirst(url, '?');
      var pieces := SplitAll(url, '?');
      var rest := SplitAll(after, '?');
      assert pieces == [BeforeFirst(url, '?')] + rest;
      if forall i | 0 <= i < |after| :: after[i] == '?' {
        SplitAllOnlyDelimiters(after, '?');
      } else if |JavaSplit(url, '?')| <= 1 {
        forall k | 0 <= k < |rest|
          ensures rest[k] == []
        {
          assert rest[k] == pieces[k + 1];
        }
        JoinOfEmpties(rest, '?');
        JoinSplitAll(after, '?');
        assert false;
      }
    }
  }

  /** The empty query string is the one token "", which puts the empty key with the empty value. */
  lemma EmptyQueryParams()
    ensures QueryStringParams("") == Some(map["" := ""])
  {
    assert JavaSplit("", '&') == [""];
    assert !OnlyEquals("");
    assert ParsePair("") == Some(("", ""));
    var none: seq<string> := [];
    ParseAllSnoc(none, "");
    assert none + [""] == [""];
    assert [("", "")][..0] == [];
  }

  /** A non-empty parameter map means a '?' occurs, and path piece 0 is the text before it. */
  lemma ParamsMeanQuestionMark(url: string)
    requires QueryParams(url).Some? && QueryParams(url).value != map[]
    ensures |JavaSplit(url, '?')| > 1
    ensures JavaSplit(url, '?')[0] == BeforeFirst(url, '?')
  {
    JavaSplitFirst(url, '?');
  }

  /**
   * getQueryParams: a '?' followed by a query string has its tokens put into
   * the map; otherwise the map stays empty.
   */
  method GetQueryParams(url: string) returns (r: Option<map<string, string>>)
    ensures r == QueryParams(url)
  {
    var urlParts := JavaSplit(url, '?');
    if |urlParts| > 1 {
      var query := urlParts[1];
      r := PutTokens(JavaSplit(query, '&'));
    } else {
      r := Some(map[]);
    }
  }

  /**
   * The loop of getQueryParams: walks the query tokens in order, putting each
   * key and value into the map; a token of '=' characters only throws (None).
   */
  method PutTokens(tokens: seq<string>) returns (r: Option<map<string, string>>)
    ensures r == match ParseAll(tokens) case None => None case Some(pairs) => Some(PutAll(pairs))
  {
    var params: map<string, string> := map[];
    var i := 0;
    while i < |tokens|
      invariant 0 <= i <= |tokens|
      invariant ParseAll(tokens[..i]).Some?
      invariant params == PutAll(ParseAll(tokens[..i]).value)
    {
      var pair := JavaSplit(tokens[i], '=');
      if |pair| == 0 {
        // pair[0] throws ArrayIndexOutOfBoundsException
        assert ParsePair(tokens[i]) == None;
        NoneFromToken(tokens, i);
        return None;
      }
      var key := pair[0];
      var value := "";
      if |pair| > 1 {
        value := pair[1];
      }
      assert ParsePair(tokens[i]) == Some((key, value));
      PutTokensStep(tokens, i, key, value);
      params := params[key := value];
      i := i + 1;
    }
    assert tokens[..i] == tokens;
    return Some(params);
  }

  /** One more parsed token puts its pair into the map of the tokens before it. */
  lemma PutTokensStep(tokens: seq<string>, i: nat, key: string, value: string)
    requires i < |tokens| && ParseAll(tokens[..i]).Some? && ParsePair(tokens[i]) == Some((key, value))
    ensures ParseAll(tokens[..i + 1]).Some?
    ensures PutAll(ParseAll(tokens[..i + 1]).value) == PutAll(ParseAll(tokens[..i]).value)[key := value]
  {
    var ps := ParseAll(tokens[..i]).value;
    assert tokens[..i + 1] == tokens[..i] + [tokens[i]];
    ParseAllSnoc(tokens[..i], tokens[i]);
    assert ParseAll(tokens[..i + 1]) == Some(ps + [(key, value)]);
    PutAllSnoc(ps, (key, value));
  }

  /** Putting one more pair overwrites its key in the map of the pairs before it. */
  lemma PutAllSnoc(ps: seq<(string, string)>, p: (string, string))
    ensures PutAll(ps + [p]) == PutAll(ps)[p.0 := p.1]
  {
    assert (ps + [p])[..|ps|] == ps;
  }

  /** Parsing one more token: a throw stays a throw, otherwise its pair is appended. */
  lemma ParseAllSnoc(tokens: seq<string>, token: string)
    ensures ParseAll(tokens + [token]) ==
      match ParseAll(tokens)
      case None => None
      case Some(ps) =>
        match ParsePair(token)
        case None => None
        case Some(p) => Some(ps + [p])
  {
    assert (tokens + [token])[..|tokens|] == tokens;
  }

  /** For "path?query" with no other '?', getQueryParams parses the tokens of the query. */
  lemma QueryParamsOf(path: string, query: string)
    requires '?' !in path && '?' !in query && query != []
    ensures JavaSplit(path + ['?'] + query, '?') == [path, query]
    ensures QueryParams(path + ['?'] + query) ==
      match ParseAll(JavaSplit(query, '&'))
      case None => None
      case Some(pairs) => Some(PutAll(pairs))
  {
    var ps := [path, query];
    assert Join(ps[1..], '?') == query;
    JavaSplitJoin(ps, '?');
  }

  /** The failure and the keys of parsing and putting the tokens. */
  lemma QueryStringKeys(tokens: seq<string>)
    ensures ParseAll(tokens).None? <==> exists k | 0 <= k < |tokens| :: OnlyEquals(tokens[k])
    ensures ParseAll(tokens).Some? ==>
      PutAll(ParseAll(tokens).value).Keys == set k | 0 <= k < |tokens| :: BeforeFirst(tokens[k], '=')
  {
    ParseAllSucceeds(tokens);
    if ParseAll(tokens).Some? {
      var ps := ParseAll(tokens).value;
      forall k | 0 <= k < |tokens|
        ensures ps[k].0 == BeforeFirst(tokens[k], '=')
      {
        ParseAllPairs(tokens, k);
      }
      assert (set k | 0 <= k < |ps| :: ps[k].0) == (set k | 0 <= k < |tokens| :: BeforeFirst(tokens[k], '='));
    }
  }

  /** One failing token makes the whole parse fail. */
  lemma NoneFromToken(tokens: seq<string>, i: nat)
    requires i < |tokens| && ParsePair(tokens[i]).None?
    ensures ParseAll(tokens).None?
  {
    ParseAllSucceeds(tokens);
  }
}
