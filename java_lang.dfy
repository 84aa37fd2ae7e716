/**
 * Models of the pieces of the Java library that the server relies on:
 * String.split with a one-character pattern, java.util.StringTokenizer with
 * its default delimiters, and String.equalsIgnoreCase.
 */
module JavaLang {

  // ---------------------------------------------------------------------------
  // Searching for a character
  // ---------------------------------------------------------------------------

  /** Position of the first occurrence of c in s. */
  function IndexOf(s: string, c: char): (i: nat)
    requires c in s
    ensures i < |s| && s[i] == c
    ensures c !in s[..i]
  {
    if s[0] == c then 0
    else
      var j := IndexOf(s[1..], c);
      assert s[..j + 1] == [s[0]] + s[1..][..j];
      1 + j
  }

  /** The text before the first c, or all of s when c does not occur. */
  function BeforeFirst(s: string, c: char): (r: string)
    ensures c !in r
    ensures r <= s
    ensures c in s <==> |r| < |s|
    ensures c in s ==> s[|r|] == c
  {
    if c in s then s[..IndexOf(s, c)] else s
  }

  /** The text after the first c. */
  function AfterFirst(s: string, c: char): (r: string)
    requires c in s
    ensures |r| < |s|
  {
    s[IndexOf(s, c) + 1..]
  }

  /** Cutting at the first c and gluing back together gives s again. */
  lemma AroundFirst(s: string, c: char)
    requires c in s
    ensures s == BeforeFirst(s, c) + [c] + AfterFirst(s, c)
  {
    var i := IndexOf(s, c);
    assert s == s[..i] + [s[i]] + s[i + 1..];
  }

  /** The first c of a + [c] + b is the one right after a, when a holds none. */
  lemma {:induction false} IndexOfAfterFree(a: string, c: char, b: string)
    requires c !in a
    ensures IndexOf(a + [c] + b, c) == |a|
    decreases |a|
  {
    if a != [] {
      assert (a + [c] + b)[1..] == a[1..] + [c] + b;
      IndexOfAfterFree(a[1..], c, b);
    }
  }

  // ---------------------------------------------------------------------------
  // String.split
  // ---------------------------------------------------------------------------

  /**
   * Every piece of s between occurrences of c, empty pieces included: one
   * piece more than there are occurrences of c.
   */
  function SplitAll(s: string, c: char): (r: seq<string>)
    ensures |r| > 0
    ensures forall k | 0 <= k < |r| :: c !in r[k]
    decreases |s|
  {
    if c in s then [BeforeFirst(s, c)] + SplitAll(AfterFirst(s, c), c) else [s]
  }

  /** The pieces ps glued with c between neighbours. */
  function Join(ps: seq<string>, c: char): string
    requires |ps| > 0
  {
    if |ps| == 1 then ps[0] else ps[0] + [c] + Join(ps[1..], c)
  }

  /** Joining the pieces restores the string. */
  lemma {:induction false} JoinSplitAll(s: string, c: char)
    ensures Join(SplitAll(s, c), c) == s
    decreases |s|
  {
    if c in s {
      var rest := AfterFirst(s, c);
      JoinSplitAll(rest, c);
      AroundFirst(s, c);
      assert SplitAll(s, c)[1..] == SplitAll(rest, c);
    }
  }

  /** Splitting a join of c-free pieces gives back the pieces. */
  lemma {:induction false} SplitAllJoin(ps: seq<string>, c: char)
    requires |ps| > 0
    requires forall k | 0 <= k < |ps| :: c !in ps[k]
    ensures SplitAll(Join(ps, c), c) == ps
    decreases |ps|
  {
    if |ps| > 1 {
      var s := Join(ps, c);
      var tail := Join(ps[1..], c);
      assert s == ps[0] + [c] + tail;
      assert s[|ps[0]|] == c;
      IndexOfAfterFree(ps[0], c, tail);
      assert BeforeFirst(s, c) == ps[0];
      assert AfterFirst(s, c) == tail;
      assert forall k | 0 <= k < |ps[1..]| :: c !in ps[1..][k];
      SplitAllJoin(ps[1..], c);
      assert SplitAll(s, c) == [ps[0]] + ps[1..];
    }
  }

  /** ps without the empty pieces at its end. */
  function DropTrailingEmpty(ps: seq<string>): (r: seq<string>)
    ensures r <= ps
    ensures forall j | |r| <= j < |ps| :: ps[j] == []
    ensures r == [] || r[|r| - 1] != []
  {
    if ps == [] then []
    else if ps[|ps| - 1] == [] then DropTrailingEmpty(ps[..|ps| - 1])
    else ps
  }

  /**
   * Java's s.split(p) where the pattern p matches exactly the character c:
   * no occurrence gives [s] (even for an empty s); otherwise the pieces
   * between occurrences with the empty pieces at the end removed.
   */
  function JavaSplit(s: string, c: char): (r: seq<string>)
    ensures r <= SplitAll(s, c)
    ensures forall j | |r| <= j < |SplitAll(s, c)| :: SplitAll(s, c)[j] == []
    ensures c in s ==> r == [] || r[|r| - 1] != []
    ensures c !in s ==> r == [s]
    ensures forall k | 0 <= k < |r| :: c !in r[k]
  {
    if c in s then DropTrailingEmpty(SplitAll(s, c)) else [s]
  }

  /** All pieces of a string made of c alone are empty. */
  lemma {:induction false} SplitAllOnlyDelimiters(s: string, c: char)
    requires forall i | 0 <= i < |s| :: s[i] == c
    ensures forall k | 0 <= k < |SplitAll(s, c)| :: SplitAll(s, c)[k] == []
    decreases |s|
  {
    if s != [] {
      assert s[0] == c;
      assert IndexOf(s, c) == 0;
      assert BeforeFirst(s, c) == [];
      assert AfterFirst(s, c) == s[1..];
      SplitAllOnlyDelimiters(s[1..], c);
      assert SplitAll(s, c) == [[]] + SplitAll(s[1..], c);
    }
  }

  /** Gluing empty pieces gives a run of c. */
  lemma {:induction false} JoinOfEmpties(ps: seq<string>, c: char)
    requires |ps| > 0
    requires forall k | 0 <= k < |ps| :: ps[k] == []
    ensures forall i | 0 <= i < |Join(ps, c)| :: Join(ps, c)[i] == c
    decreases |ps|
  {
    if |ps| > 1 {
      JoinOfEmpties(ps[1..], c);
    }
  }

  /** Java's split gives no piece at all exactly when s is a non-empty run of c. */
  lemma JavaSplitEmpty(s: string, c: char)
    ensures JavaSplit(s, c) == [] <==> s != [] && forall i | 0 <= i < |s| :: s[i] == c
  {
    if s != [] && forall i | 0 <= i < |s| :: s[i] == c {
      assert s[0] == c;
      SplitAllOnlyDelimiters(s, c);
    }
    if JavaSplit(s, c) == [] {
      JoinOfEmpties(SplitAll(s, c), c);
      JoinSplitAll(s, c);
    }
  }

  /** The second piece is the text between the first and the second c. */
  lemma SplitAllSecond(s: string, c: char)
    ensures c in s ==> |SplitAll(s, c)| > 1 && SplitAll(s, c)[1] == BeforeFirst(AfterFirst(s, c), c)
  {
  }

  /** The first piece of a non-empty Java split is the text before the first c. */
  lemma JavaSplitFirst(s: string, c: char)
    requires JavaSplit(s, c) != []
    ensures JavaSplit(s, c)[0] == BeforeFirst(s, c)
  {
  }

  /** Java's split of a join of c-free pieces whose last one is not empty is the pieces. */
  lemma JavaSplitJoin(ps: seq<string>, c: char)
    requires |ps| > 1
    requires forall k | 0 <= k < |ps| :: c !in ps[k]
    requires ps[|ps| - 1] != []
    ensures JavaSplit(Join(ps, c), c) == ps
  {
    SplitAllJoin(ps, c);
    var s := Join(ps, c);
    assert s == ps[0] + [c] + Join(ps[1..], c);
    assert c in s;
  }

  // ---------------------------------------------------------------------------
  // StringTokenizer with its default delimiters
  // ---------------------------------------------------------------------------

  /**
   * The default delimiters of StringTokenizer: space, tab, newline, carriage
   * return, form feed. All of them are at or below U+0020.
   */
  function IsTokenDelimiter(ch: char): (r: bool)
    ensures r ==> ch as int <= 0x20
  {
    ch == ' ' || ch == '\t' || ch == '\n' || ch == '\r' || ch == '\U{C}'
  }

  /** The delimiters are exactly the characters of StringTokenizer's default string " \t\n\r\f". */
  lemma DefaultDelimiters(ch: char)
    ensures IsTokenDelimiter(ch) <==> ch in " \t\n\r\U{C}"
  {
  }

  /** Length of the run of non-delimiters at the start of s. */
  function TokenLength(s: string): (n: nat)
    ensures n <= |s|
    ensures forall i | 0 <= i < n :: !IsTokenDelimiter(s[i])
    ensures n < |s| ==> IsTokenDelimiter(s[n])
  {
    if s == [] || IsTokenDelimiter(s[0]) then 0 else 1 + TokenLength(s[1..])
  }

  /** The tokens StringTokenizer(s) hands out: maximal non-empty runs of non-delimiters. */
  function Tokens(s: string): (ts: seq<string>)
    ensures forall k | 0 <= k < |ts| :: ts[k] != []
    ensures forall k, i | 0 <= k < |ts| && 0 <= i < |ts[k]| :: !IsTokenDelimiter(ts[k][i])
    decreases |s|
  {
    if s == [] then []
    else if IsTokenDelimiter(s[0]) then Tokens(s[1..])
    else
      var n := TokenLength(s);
      [s[..n]] + Tokens(s[n..])
  }

  /** A token sitting at the start of a string ends exactly where it ends. */
  lemma {:induction false} TokenLengthOfWord(t: string, rest: string)
    requires forall i | 0 <= i < |t| :: !IsTokenDelimiter(t[i])
    requires rest == [] || IsTokenDelimiter(rest[0])
    ensures TokenLength(t + rest) == |t|
    decreases |t|
  {
    if t != [] {
      assert (t + rest)[1..] == t[1..] + rest;
      TokenLengthOfWord(t[1..], rest);
    }
  }

  /** A run of delimiters only; it may be empty. */
  predicate AllDelimiters(d: string)
  {
    forall i | 0 <= i < |d| :: IsTokenDelimiter(d[i])
  }

  /** The words ts laid out with gap k before word k and gap |ts| after the last word. */
  function Spread(ts: seq<string>, gaps: seq<string>): string
    requires |gaps| == |ts| + 1
    decreases |ts|
  {
    if ts == [] then gaps[0] else gaps[0] + (ts[0] + Spread(ts[1..], gaps[1..]))
  }

  /** Delimiters in front of a string produce no token. */
  lemma {:induction false} TokensSkip(d: string, s: string)
    requires AllDelimiters(d)
    ensures Tokens(d + s) == Tokens(s)
    decreases |d|
  {
    if d != [] {
      assert (d + s)[0] == d[0] && IsTokenDelimiter(d[0]);
      assert (d + s)[1..] == d[1..] + s;
      TokensSkip(d[1..], s);
    } else {
      assert d + s == s;
    }
  }

  /**
   * StringTokenizer hands out exactly the words of a line, in order, however
   * many delimiters separate them and whether or not delimiters lead or trail:
   * the words are non-empty and delimiter-free, the gaps are delimiter runs,
   * and the gaps between two words are non-empty.
   */
  lemma {:induction false} TokensSpread(ts: seq<string>, gaps: seq<string>)
    requires |gaps| == |ts| + 1
    requires forall k | 0 <= k < |ts| :: ts[k] != []
    requires forall k, i | 0 <= k < |ts| && 0 <= i < |ts[k]| :: !IsTokenDelimiter(ts[k][i])
    requires forall k | 0 <= k < |gaps| :: AllDelimiters(gaps[k])
    requires forall k | 0 < k < |ts| :: gaps[k] != []
    ensures Tokens(Spread(ts, gaps)) == ts
    decreases |ts|
  {
    if ts == [] {
      TokensSkip(gaps[0], []);
      assert gaps[0] + [] == gaps[0];
    } else {
      var t := ts[0];
      var rest := Spread(ts[1..], gaps[1..]);
      TokensSkip(gaps[0], t + rest);
      assert rest == [] || IsTokenDelimiter(rest[0]) by {
        if |ts| > 1 {
          assert gaps[1..][0] == gaps[1] && gaps[1] != [];
          assert rest == gaps[1] + (ts[1] + Spread(ts[2..], gaps[2..])) by {
            assert ts[1..][1..] == ts[2..] && gaps[1..][1..] == gaps[2..];
          }
          assert AllDelimiters(gaps[1]);
        } else {
          assert rest == gaps[1];
          assert AllDelimiters(gaps[1]);
        }
      }
      assert forall i | 0 <= i < |t| :: !IsTokenDelimiter(t[i]) by {
        assert forall i | 0 <= i < |t| :: t[i] == ts[0][i];
      }
      TokenLengthOfWord(t, rest);
      assert (t + rest)[..|t|] == t;
      assert (t + rest)[|t|..] == rest;
      assert Tokens(t + rest) == [t] + Tokens(rest);
      TokensSpread(ts[1..], gaps[1..]);
    }
  }

  // ---------------------------------------------------------------------------
  // equalsIgnoreCase
  // ---------------------------------------------------------------------------

  /** Upper case of an ASCII letter; every other character is left alone. */
  function AsciiUpper(ch: char): char
  {
    if 'a' <= ch <= 'z' then (ch as int - 32) as char else ch
  }

  /** The string with its ASCII letters in upper case. */
  function UpperAscii(s: string): (u: string)
    ensures |u| == |s|
  {
    seq(|s|, i requires 0 <= i < |s| => AsciiUpper(s[i]))
  }

  /** Two strings read the same in upper case exactly when they agree character by character up to case. */
  lemma UpperAsciiEqual(a: string, b: string)
    ensures UpperAscii(a) == UpperAscii(b) <==>
      |a| == |b| && forall i | 0 <= i < |a| :: AsciiUpper(a[i]) == AsciiUpper(b[i])
  {
    if |a| == |b| && forall i | 0 <= i < |a| :: AsciiUpper(a[i]) == AsciiUpper(b[i]) {
      assert forall i | 0 <= i < |a| :: UpperAscii(a)[i] == UpperAscii(b)[i];
    }
    if UpperAscii(a) == UpperAscii(b) {
      forall i | 0 <= i < |a| ensures AsciiUpper(a[i]) == AsciiUpper(b[i]) {
        assert UpperAscii(a)[i] == UpperAscii(b)[i];
      }
    }
  }

  /**
   * a.equalsIgnoreCase(b), with ASCII case folding: same length and each
   * pair of characters equal up to case. It holds exactly when both strings
   * read the same in upper case, so it is reflexive.
   */
  predicate EqualsIgnoreCase(a: string, b: string): (r: bool)
    ensures r <==> UpperAscii(a) == UpperAscii(b)
    ensures a == b ==> r
  {
    UpperAsciiEqual(a, b);
    |a| == |b| && forall i | 0 <= i < |a| :: AsciiUpper(a[i]) == AsciiUpper(b[i])
  }

  /** A token matches "GET" ignoring case exactly when it spells G, E, T in either case. */
  lemma IsGetIgnoringCase(t: string)
    ensures EqualsIgnoreCase(t, "GET") <==>
      |t| == 3 && t[0] in "Gg" && t[1] in "Ee" && t[2] in "Tt"
  {
    if |t| == 3 && t[0] in "Gg" && t[1] in "Ee" && t[2] in "Tt" {
      forall i | 0 <= i < 3 ensures AsciiUpper(t[i]) == AsciiUpper("GET"[i]) {
      }
    }
    if EqualsIgnoreCase(t, "GET") {
      assert AsciiUpper(t[0]) == 'G';
      assert AsciiUpper(t[1]) == 'E';
      assert AsciiUpper(t[2]) == 'T';
    }
  }
}
