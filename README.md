# HavaloCodingChallenge in Dafny

This is a model of the small HTTP/1.0 word server in `HavaloCodingChallenge.java`, with proofs about it. It covers:

- the three string utilities: `reverseWord`, `isPalindrome` and `containsDuplicateCharacters`;
- the query-string parser `getQueryParams`;
- how a `Router` thread turns one request line into the bytes it writes back.

Routing happens on six paths: `/`, `/words.html`, `/echo`, `/palindrome`, `/duplicates` and `/reverse`. Any other path gets the 404 page. An exception thrown before anything is printed is caught, and the client then receives nothing. An HTML file that `sendHtmlFile` cannot open throws after printing: the header is already buffered by then, so the client receives the header and an empty body.

Modules:

- `Wrappers` — `Option`. It stands for Java's `null` and for a thrown exception.
- `JavaLang` — the Java library behaviour the core relies on:
  - `String.split` with a one-character pattern (`JavaSplit`). The pieces between occurrences are returned with trailing empty pieces dropped, and `[s]` when the character does not occur.
  - The tokens of `StringTokenizer` with its default delimiters: space, tab, newline, carriage return and form feed.
  - `equalsIgnoreCase`.
- `StringUtils` — the utilities:
  - `ReverseWord` is an imperative method filling a fresh `array<char>` as the source does. It is proved equal to the reference function `Reversed`.
  - `IsPalindrome` compares the word with its reverse.
  - `ContainsDuplicateCharacters` is a loop over a 256-entry `array<bool>` of flags. It returns `None` where the source's table index overflows. It is proved equal to `DuplicateScan`, and that function is proved sound and complete against `HasDuplicate`.
- `QueryParser` — `GetQueryParams` and its loop `PutTokens` are proved equal to the function `QueryParams`. `QueryParams` is the parse of the tokens (`ParseAll`) folded into a map (`PutAll`). `None` is the `ArrayIndexOutOfBoundsException` that a token made only of `=` raises.
- `Router` — the response framing (`PlainTextResponse`, `HtmlFileResponse`, `NotFoundResponse`) and the request-line parse (`RequestTarget`). Above them sit:
  - the route chain `Route`;
  - `Dispatch`, which applies the path rule "`split("?")[0]` only when the parameter map is not empty";
  - the whole handler, `Respond`, which maps a request line (None for a closed connection) to an `Outcome`;
  - `Transmitted`, saying what reaches the client for an outcome.
- `Examples` — the examples in the utilities' doc comments, query strings, and whole requests.

Null handling follows the code:

- `Map.get("word")` gives `None` when no `word` parameter is present.
- `/echo` then prints the four characters `null`.
- `/palindrome`, `/duplicates` and `/reverse` throw a `NullPointerException`, so the client receives nothing.

A missing HTML file still produces a response. `sendHtmlFile` prints the 200 status line, the HTML content type and the blank line into the buffered `PrintStream` before it opens the `FileInputStream` (HavaloCodingChallenge.java:238-243). The `FileNotFoundException` is caught in `run` only after the try-with-resources block has closed the `PrintStream` (HavaloCodingChallenge.java:126-127, 204), and closing it flushes the buffered header to the client. So `Transmitted(ServeFile(_), None)` is the header with an empty body.

## Model

| member | source | states |
|---|---|---|
| JavaLang.IndexOf | HavaloCodingChallenge.java:211 | the position found holds the searched character and is its first occurrence |
| JavaLang.BeforeFirst | HavaloCodingChallenge.java:145 | the text before the first separator is a separator-free prefix, shorter than the input exactly when the separator occurs, and then followed by that separator |
| JavaLang.AfterFirst | HavaloCodingChallenge.java:213 | the text after the first separator is strictly shorter than the input |
| JavaLang.AroundFirst | HavaloCodingChallenge.java:211 | the text before the first separator, the separator and the text after it make up the input again |
| JavaLang.IndexOfAfterFree | HavaloCodingChallenge.java:215 | in a + [c] + b with no c in a, the first c sits right after a |
| JavaLang.SplitAll | HavaloCodingChallenge.java:211 | cutting at every separator gives at least one piece, and no piece contains the separator |
| JavaLang.JoinSplitAll | HavaloCodingChallenge.java:211 | gluing the pieces back with the separator restores the input |
| JavaLang.SplitAllJoin | HavaloCodingChallenge.java:214 | splitting a join of separator-free pieces gives back exactly those pieces |
| JavaLang.DropTrailingEmpty | HavaloCodingChallenge.java:214 | the result is a prefix of the pieces, only empty pieces are dropped, and its last piece is not empty |
| JavaLang.JavaSplit | HavaloCodingChallenge.java:211-215 | Java's split is a prefix of the full split that drops only trailing empty pieces and, with a separator present, is empty or ends in a non-empty piece; without a separator it is [s]; no piece holds the separator |
| JavaLang.SplitAllOnlyDelimiters | HavaloCodingChallenge.java:215 | a string made only of the separator splits into empty pieces only |
| JavaLang.JoinOfEmpties | HavaloCodingChallenge.java:215 | gluing empty pieces gives a string made only of the separator |
| JavaLang.JavaSplitEmpty | HavaloCodingChallenge.java:215-216 | Java's split has no piece exactly when the input is a non-empty run of the separator (both directions) |
| JavaLang.SplitAllSecond | HavaloCodingChallenge.java:213 | whenever the separator occurs there is a second piece, namely the text between the first and second separator |
| JavaLang.JavaSplitFirst | HavaloCodingChallenge.java:145 | piece 0 of a non-empty Java split is the text before the first separator |
| JavaLang.JavaSplitJoin | HavaloCodingChallenge.java:211-215 | Java's split of a join of two or more separator-free pieces, the last non-empty, is exactly those pieces |
| JavaLang.IsTokenDelimiter | HavaloCodingChallenge.java:133 | StringTokenizer's default delimiters (space, tab, newline, carriage return, form feed) all lie at or below U+0020, so no letter, digit or URL punctuation is one |
| JavaLang.DefaultDelimiters | HavaloCodingChallenge.java:133 | a character is a delimiter exactly when it occurs in the default delimiter string " \t\n\r\f" |
| JavaLang.TokenLength | HavaloCodingChallenge.java:133 | the leading token run has no delimiter and ends at a delimiter or at the end of the string |
| JavaLang.Tokens | HavaloCodingChallenge.java:133-138 | every token StringTokenizer hands out is non-empty and free of delimiters |
| JavaLang.TokenLengthOfWord | HavaloCodingChallenge.java:133 | a delimiter-free word followed by a delimiter or the end is one whole token |
| JavaLang.TokensSkip | HavaloCodingChallenge.java:133 | delimiters in front of a string produce no token |
| JavaLang.TokensSpread | HavaloCodingChallenge.java:133-138 | tokenizing words laid out with delimiter runs between them (non-empty between two words, optional before the first and after the last) gives back exactly the words, in order |
| JavaLang.IsGetIgnoringCase | HavaloCodingChallenge.java:136 | a token equals GET ignoring case exactly when it is three letters G, E, T in either case |
| JavaLang.EqualsIgnoreCase | HavaloCodingChallenge.java:136 | two strings are equal ignoring case exactly when their ASCII upper-casings are equal; equal strings are always equal ignoring case |
| StringUtils.Reversed | HavaloCodingChallenge.java:63-69 | the reference reversal keeps the length |
| StringUtils.ReversedAt | HavaloCodingChallenge.java:77-79 | position k of the reverse holds the character k places from the end |
| StringUtils.ReversedMirror | HavaloCodingChallenge.java:77-79 | every position of the reverse mirrors the input |
| StringUtils.ReversedTwice | HavaloCodingChallenge.java:63-82 | reversing twice gives the input back |
| StringUtils.ReverseWord | HavaloCodingChallenge.java:70-82 | the down-counting array fill returns the reversed word: same length, position k holds input position n-1-k |
| StringUtils.IsPalindrome | HavaloCodingChallenge.java:22-28 | the word equals its reverse exactly when every character equals its mirror image |
| StringUtils.ReversedPalindrome | HavaloCodingChallenge.java:22-28 | a word and its reverse are palindromes alike |
| StringUtils.CleanPrefix | HavaloCodingChallenge.java:51-58 | every prefix of a repeat-free word inside the flag table is too |
| StringUtils.ContainsDuplicateCharacters | HavaloCodingChallenge.java:39-61 | the flag-array loop answers as DuplicateScan: true at the first repeat; None when a code of 256 or more is met before any repeat; false otherwise |
| StringUtils.NoEarlierStop | HavaloCodingChallenge.java:52-54 | a repeat found with the whole prefix clean and in the table makes the scan answer true |
| StringUtils.DuplicateIffNotDistinct | HavaloCodingChallenge.java:30-31 | a word has a repeated character exactly when its characters are not pairwise distinct |
| StringUtils.DuplicateScanInTable | HavaloCodingChallenge.java:39-61 | for a word whose codes are all below 256 the answer is exactly whether a character repeats |
| StringUtils.DuplicateScan | HavaloCodingChallenge.java:39-61 | true means a repeat exists; false holds exactly when all codes are below 256 and there is no repeat; a throw (None) means some code is 256 or more |
| StringUtils.RepeatBeforeOutside | HavaloCodingChallenge.java:51-58 | a word the scan does not pass, in which no code of 256 or more follows a clean prefix, has a repeated character |
| StringUtils.FirstOutside | HavaloCodingChallenge.java:52 | a character outside the table has a first such position, with all codes before it inside the table |
| StringUtils.CleanUpTo | HavaloCodingChallenge.java:51-58 | a repeat-free word is clean up to any point before which all codes are inside the table |
| QueryParser.ParseAll | HavaloCodingChallenge.java:214-223 | a successful parse has one pair per token |
| QueryParser.ParseAllSucceeds | HavaloCodingChallenge.java:214-216 | the parse succeeds exactly when every token parses (both directions) |
| QueryParser.ParseAllPairs | HavaloCodingChallenge.java:214-220 | after a successful parse, the pair at position k is the pair of token k |
| QueryParser.ParseAllSnoc | HavaloCodingChallenge.java:214-222 | one token more: a throw stays a throw, and otherwise that token's pair is appended |
| QueryParser.NoneFromToken | HavaloCodingChallenge.java:215-216 | one failing token makes the whole parse fail |
| QueryParser.ParsePair | HavaloCodingChallenge.java:215-220 | a token fails exactly when it is a non-empty run of '='; otherwise the key is the text before the first '=' and the value the text between the first and second '=', or "" without a '=' |
| QueryParser.PutAllLastWins | HavaloCodingChallenge.java:222 | a key maps to the value of its last pair |
| QueryParser.PutAll | HavaloCodingChallenge.java:222 | the keys of the map are exactly the keys of the pairs |
| QueryParser.PutAllSnoc | HavaloCodingChallenge.java:222 | putting one more pair overwrites its key in the map of the pairs before it |
| QueryParser.QueryPiece | HavaloCodingChallenge.java:211-213 | when a query piece exists, a '?' occurs and the query is the text between the first and second '?' |
| QueryParser.QueryStringParams | HavaloCodingChallenge.java:213-223 | parsing and putting one query string throws exactly when some '&' token is a non-empty run of '=', and otherwise the keys are the texts before the first '=' of its tokens |
| QueryParser.QueryStringKeys | HavaloCodingChallenge.java:214-223 | for any tokens, the parse fails exactly when some token is a run of '=', and the keys put are the texts before each token's first '=' |
| QueryParser.QueryParams | HavaloCodingChallenge.java:209-226 | a target without '?' has the empty map; a target with non-empty text between its first and second '?' has the parameters of exactly that text; with empty text there, only '?' characters after the first '?' give the empty map and anything else gives the one entry "" to "" |
| QueryParser.EmptyQuerySplit | HavaloCodingChallenge.java:211-212 | with nothing between the first and second '?', the split on '?' has a second piece exactly when some character other than '?' follows the first '?' |
| QueryParser.EmptyQueryParams | HavaloCodingChallenge.java:213-222 | the empty query string is the single token "", which puts the empty key with the empty value |
| QueryParser.ParamsMeanQuestionMark | HavaloCodingChallenge.java:143-145 | a non-empty parameter map means the target splits on '?' into at least two pieces, piece 0 being the text before the first '?' |
| QueryParser.QueryParamsOf | HavaloCodingChallenge.java:211-215 | for path?query with no other '?' and a non-empty query, the split is [path, query] and the parameters are the parse of query's '&' tokens |
| QueryParser.GetQueryParams | HavaloCodingChallenge.java:209-226 | the method returns exactly QueryParams of the URL |
| QueryParser.PutTokens | HavaloCodingChallenge.java:214-223 | the loop returns the map of the parsed pairs put in order, or None when some token throws |
| Router.SplitLineFirst | HavaloCodingChallenge.java:229 | a CR-free line followed by CR LF splits off exactly |
| Router.ParseFrame | HavaloCodingChallenge.java:228-259 | a status line and a header line without CR, then a blank line and a body, read back as those three parts |
| Router.Printed | HavaloCodingChallenge.java:165 | print writes the text itself, or the four characters null for a null string |
| Router.PlainTextResponse | HavaloCodingChallenge.java:228-235 | sendString's output reads back as status 200, the plain-text type and exactly the text |
| Router.HtmlFileResponse | HavaloCodingChallenge.java:237-250 | sendHtmlFile's output reads back as status 200, the HTML type and exactly the file's contents |
| Router.NotFoundResponse | HavaloCodingChallenge.java:252-259 | send404NotFound's output reads back as status 404, the HTML type and the fixed page |
| Router.RequestTarget | HavaloCodingChallenge.java:133-141 | a target exists exactly when the line has two or more tokens and the first equals GET ignoring case; it is then the second token, non-empty and free of delimiters |
| Router.RequestTargetOfLine | HavaloCodingChallenge.java:132-141 | for tokens separated by delimiter runs, with optional runs before the first and after the last, the target is the second token when the first is GET in any case, and absent otherwise |
| Router.Word | HavaloCodingChallenge.java:162 | a word exists exactly when the map has the key word, and it is then that key's value |
| Router.Route | HavaloCodingChallenge.java:148-203 | files are served for / and /words.html alone, namely index.html and words.html; nothing is written only on /palindrome, /duplicates and /reverse; a path outside the six routes gets the 404 page |
| Router.Dispatch | HavaloCodingChallenge.java:143-146 | a throwing query writes nothing; the path routed on is the text before the first '?' when there are parameters, and the whole target otherwise |
| Router.Respond | HavaloCodingChallenge.java:125-206 | something is written only for a line whose first token is GET in any case and that has a second token; a line with a target is dispatched on it |
| Router.Transmitted | HavaloCodingChallenge.java:237-250 | nothing is written on a throw; a reply's text is written as it is; a served file reads back as a 200 HTML response whose body is the file's contents, empty when the file cannot be opened |
| Router.RouteNotFound | HavaloCodingChallenge.java:148-203 | the 404 page is sent exactly for the paths outside the six routes (both directions) |
| Router.RouteWithoutWord | HavaloCodingChallenge.java:152-198 | without a word, /echo answers null, and nothing is written exactly for /palindrome, /duplicates and /reverse |
| Router.RouteEcho | HavaloCodingChallenge.java:152-165 | /echo writes the word back, or null when it is missing |
| Router.RoutePalindrome | HavaloCodingChallenge.java:167-177 | /palindrome answers yes or no as IsPalindrome says, yes exactly when every character equals its mirror image, and no otherwise |
| Router.RouteDuplicates | HavaloCodingChallenge.java:179-189 | /duplicates answers whether a character repeats when all codes are below 256, never answers yes wrongly, and writes nothing only when some code is 256 or more |
| Router.DuplicatesRoute | HavaloCodingChallenge.java:179-189 | /duplicates writes the scan's verdict as yes or no, and nothing when the scan throws |
| Router.RouteReverse | HavaloCodingChallenge.java:191-198 | /reverse answers the reversed word as a 200 plain-text response whose body, reversed again, is the word |
| Router.RouteWellFramed | HavaloCodingChallenge.java:148-203 | every text a route writes is a 200 plain-text response or the 404 page, with the 404 status exactly for paths outside the six routes |
| Router.RespondWellFramed | HavaloCodingChallenge.java:129-203 | every reply the handler writes is a 200 plain-text response or the 404 page |
| Examples.PalindromeMadam | HavaloCodingChallenge.java:17 | "madam" is a palindrome |
| Examples.PalindromeRacecar | HavaloCodingChallenge.java:18 | "racecar" is a palindrome |
| Examples.PalindromeDog | HavaloCodingChallenge.java:19 | "dog" is not a palindrome |
| Examples.Palindrome123321 | HavaloCodingChallenge.java:20 | "123321" is a palindrome |
| Examples.NoDuplicateCode | HavaloCodingChallenge.java:33 | "code" has no repeated character |
| Examples.DuplicateJava | HavaloCodingChallenge.java:34 | "java" has a repeated character |
| Examples.DuplicateMmmmm | HavaloCodingChallenge.java:35 | "mmmmm" has a repeated character |
| Examples.NoDuplicateAlphabet | HavaloCodingChallenge.java:36 | the lower-case alphabet has no repeated character |
| Examples.Duplicate12341 | HavaloCodingChallenge.java:37 | "12341" has a repeated character |
| Examples.ReverseBanana | HavaloCodingChallenge.java:66 | "banana" reverses to "ananab" |
| Examples.ReverseHtml | HavaloCodingChallenge.java:67 | "html" reverses to "lmth" |
| Examples.ReverseHavalo | HavaloCodingChallenge.java:68 | "havalo" reverses to "olavah" |
| Examples.SplitInTwo | HavaloCodingChallenge.java:211 | a + [c] + b with c-free parts, b non-empty, splits into [a, b] |
| Examples.PairOf | HavaloCodingChallenge.java:215-220 | key=value with '='-free parts and a non-empty value parses into that key and value |
| Examples.OneParam | HavaloCodingChallenge.java:209-226 | path?key=value gives the one-entry map and the path piece |
| Examples.ParseTwo | HavaloCodingChallenge.java:214-220 | two tokens that parse give their two pairs, in order |
| Examples.PutTwo | HavaloCodingChallenge.java:222 | two pairs are put in order, the second overwriting the first on an equal key |
| Examples.TwoParams | HavaloCodingChallenge.java:209-226 | path?k1=v1&k2=v2 gives map[k1 := v1][k2 := v2] |
| Examples.QueryTwoKeys | HavaloCodingChallenge.java:209-226 | a/b?x=1&y=2 gives x to 1 and y to 2 |
| Examples.QueryNone | HavaloCodingChallenge.java:212 | a target without '?' gives the empty map |
| Examples.QueryLastWins | HavaloCodingChallenge.java:222 | a?x=1&x=2 gives x to 2 |
| Examples.QueryEmptyValue | HavaloCodingChallenge.java:217-220 | key= gives key with the empty value |
| Examples.QueryOnlyAmpersand | HavaloCodingChallenge.java:214 | /echo?& has no tokens and gives the empty map |
| Examples.ThrowingSecond | HavaloCodingChallenge.java:215-216 | a second token made only of '=' makes the query throw |
| Examples.QueryOnlyEquals | HavaloCodingChallenge.java:215-216 | /echo?word=a&== throws |
| Examples.EmptyQueries | HavaloCodingChallenge.java:209-226 | "/echo?" gives the empty map and "/a??b" gives the one entry "" to "" |
| Examples.GetLine | HavaloCodingChallenge.java:133-143 | "GET target" is dispatched on the target |
| Examples.TokenAround | HavaloCodingChallenge.java:133 | two tokens around a non-delimiter make one token |
| Examples.WordRequest | HavaloCodingChallenge.java:143-198 | "GET path?word=w" is routed on path with the word w |
| Examples.PalindromeRequest | HavaloCodingChallenge.java:167-177 | GET /palindrome?word=racecar answers yes |
| Examples.DuplicatesRequest | HavaloCodingChallenge.java:179-189 | GET /duplicates?word=code answers no |
| Examples.ReverseRequest | HavaloCodingChallenge.java:191-198 | GET /reverse?word=banana answers ananab |
| Examples.UnknownPathRequest | HavaloCodingChallenge.java:200-203 | GET /nope gets the 404 page |
| Examples.PostRequest | HavaloCodingChallenge.java:136-140 | a POST line writes nothing |
| Examples.ClosedConnection | HavaloCodingChallenge.java:129-133 | a null request line writes nothing |

## Left out

- `main`, `WebServer.start`, the accept loop and the thread per connection (HavaloCodingChallenge.java:87-122) are not modelled. Sockets, threads and the daemon flag are I/O and concurrency. Each connection is modelled as one call of `Router.Respond`.
- Reading the request line (`BufferedReader.readLine`) is not modelled. The line is a parameter, with None for end of stream.
- The logging to standard output and standard error is not modelled, because it is not sent to the client.
- Reading the HTML file is not modelled. The file system is a parameter of `Router.Transmitted`: the file's contents, or None when it cannot be opened. The 4096-byte buffer loop is not modelled, since it only copies the contents in order. A read that fails part-way (an `IOException` from `fis.read`, HavaloCodingChallenge.java:246) would send the header and part of the file; the file parameter cannot express that, so the model does not capture it.
- The UTF-8 encoding of the response is not modelled. Responses are sequences of characters.
- Java strings are sequences of UTF-16 code units, while Dafny strings are sequences of Unicode scalar values. A character outside the Basic Multilingual Plane is one Dafny character but a surrogate pair of two Java code units. Both code units are 0xD800 or above, so `containsDuplicateCharacters` throws on them just as `ContainsDuplicateCharacters` returns None. The other two utilities answer differently for such characters, as the next two lines say.
- StringUtils.IsPalindrome: Java compares code units, so a word such as the single character U+1D11E is a palindrome in the model but not in Java (its two code units differ), and `/palindrome` answers yes where Java answers no.
- StringUtils.ReverseWord: Java reverses code units, so a surrogate pair comes out in the wrong order, and `/reverse` answers a different text than the model's `Reversed`.
- Java's `null` word is not an input of the `StringUtils` members. What each route does with a null word is modelled in `Router.Route`.
- JavaLang.EqualsIgnoreCase: folds ASCII letters only. Java's `equalsIgnoreCase` also folds other letters, which can matter only for a first token that matches GET through a non-ASCII case mapping.
- JavaLang.JavaSplit: models `split` only for the one-character literal patterns the core uses ("?", "&", "=").
