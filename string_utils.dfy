/**
 * The three string utilities of HavaloCodingChallenge: reverseWord,
 * isPalindrome and containsDuplicateCharacters. Java's null argument is not
 * part of their domain here; what a null word does is modelled by the router.
 */
module StringUtils {
  import opened Wrappers

  // ---------------------------------------------------------------------------
  // reverseWord
  // ---------------------------------------------------------------------------

  /** Reference definition of the reverse of a string. */
  function Reversed(s: string): (r: string)
    ensures |r| == |s|
  {
    if s == [] then [] else Reversed(s[1..]) + [s[0]]
  }

  /** Position k of the reverse holds the character k places from the end. */
  lemma {:induction false} ReversedAt(s: string, k: nat)
    requires k < |s|
    ensures Reversed(s)[k] == s[|s| - 1 - k]
    decreases |s|
  {
    if k < |s| - 1 {
      ReversedAt(s[1..], k);
    }
  }

  /** ReversedAt for every position at once. */
  lemma ReversedMirror(s: string)
    ensures forall k | 0 <= k < |s| :: Reversed(s)[k] == s[|s| - 1 - k]
  {
    forall k | 0 <= k < |s| ensures Reversed(s)[k] == s[|s| - 1 - k] {
      ReversedAt(s, k);
    }
  }

  /** Reversing twice gives the input back. */
  lemma ReversedTwice(s: string)
    ensures Reversed(Reversed(s)) == s
  {
    ReversedMirror(s);
    ReversedMirror(Reversed(s));
  }

  /**
   * reverseWord: fills a fresh character array from the last input character
   * down to the first, counting i from the length down to 1.
   */
  method ReverseWord(word: string) returns (r: string)
    ensures r == Reversed(word)
    ensures |r| == |word| && forall k | 0 <= k < |word| :: r[k] == word[|word| - 1 - k]
  {
    var n := |word|;
    var result := new char[n];
    var i := n;
    while i > 0
      invariant 0 <= i <= n
      invariant forall k | 0 <= k < n - i :: result[k] == word[n - 1 - k]
    {
      result[n - i] := word[i - 1];
      i := i - 1;
    }
    r := result[..];
    ReversedMirror(word);
  }

  // ---------------------------------------------------------------------------
  // isPalindrome
  // ---------------------------------------------------------------------------

  /**
   * isPalindrome: the word equals its reverse, compared exactly (case matters);
   * that is, every character equals its mirror image.
   */
  function IsPalindrome(word: string): (b: bool)
    ensures b <==> forall k | 0 <= k < |word| :: word[k] == word[|word| - 1 - k]
  {
    ReversedMirror(word);
    word == Reversed(word)
  }

  /** A palindrome's reverse is a palindrome. */
  lemma ReversedPalindrome(word: string)
    ensures IsPalindrome(Reversed(word)) == IsPalindrome(word)
  {
    ReversedTwice(word);
    if IsPalindrome(word) {
      assert Reversed(word) == word;
    }
  }

  // ---------------------------------------------------------------------------
  // containsDuplicateCharacters
  // ---------------------------------------------------------------------------

  /** The size of the flag table indexed by character code. */
  const FlagTableSize: nat := 256

  /** The character has an entry in the flag table. */
  predicate InFlagTable(ch: char)
  {
    ch as int < FlagTableSize
  }

  /** No character occurs twice. */
  predicate Distinct(s: string)
  {
    forall i, j | 0 <= i < j < |s| :: s[i] != s[j]
  }

  /** Some character occurs at two different positions. */
  predicate HasDuplicate(s: string)
  {
    exists i, j | 0 <= i < |s| && 0 <= j < |s| && i != j :: s[i] == s[j]
  }

  /** The scan passes every character of s: each is in the table and none repeats. */
  predicate Clean(s: string)
  {
    (forall i | 0 <= i < |s| :: InFlagTable(s[i])) && Distinct(s)
  }

  /**
   * What containsDuplicateCharacters does with a word: None when the left-to-
   * right scan reaches a character outside the flag table before any repeat
   * (ArrayIndexOutOfBoundsException), Some(true) when it reaches a repeat
   * first, and Some(false) when it passes the whole word. So a positive
   * answer is never a false alarm, a negative answer means the word is
   * distinct and fits the table, and a throw means a character outside the
   * table.
   */
  function DuplicateScan(word: string): (r: Option<bool>)
    ensures r == Some(true) ==> HasDuplicate(word)
    ensures r == Some(false) <==> (forall i | 0 <= i < |word| :: InFlagTable(word[i])) && !HasDuplicate(word)
    ensures r == None ==> exists i | 0 <= i < |word| :: !InFlagTable(word[i])
  {
    DuplicateIffNotDistinct(word);
    RepeatBeforeOutside(word);
    if Clean(word) then Some(false)
    else if exists k | 0 <= k < |word| :: Clean(word[..k]) && !InFlagTable(word[k]) then None
    else Some(true)
  }

  /** Clean is closed under prefixes. */
  lemma CleanPrefix(s: string, j: nat)
    requires j <= |s| && Clean(s)
    ensures Clean(s[..j])
  {
  }

  /**
   * containsDuplicateCharacters: scans the word left to right over 256
   * flags, one per character code, and stops at the first repeat. A code of
   * 256 or more indexes outside the flags, which the result None stands for.
   */
  method ContainsDuplicateCharacters(word: string) returns (r: Option<bool>)
    ensures r == DuplicateScan(word)
  {
    var flags := new bool[FlagTableSize](_ => false);
    var i := 0;
    while i < |word|
      invariant 0 <= i <= |word|
      invariant Clean(word[..i])
      invariant forall c | 0 <= c < FlagTableSize :: flags[c] <==> c as char in word[..i]
    {
      var code := word[i] as int;
      if code >= FlagTableSize {
        assert !Clean(word);
        return None;
      }
      if flags[code] {
        assert word[i] in word[..i];
        NoEarlierStop(word, i);
        return Some(true);
      }
      flags[code] := true;
      assert word[..i + 1] == word[..i] + [word[i]];
      i := i + 1;
    }
    assert word[..i] == word;
    return Some(false);
  }

  /** A repeat found at position i with a clean scan before it means no earlier throw. */
  lemma NoEarlierStop(word: string, i: nat)
    requires i < |word| && Clean(word[..i]) && InFlagTable(word[i]) && word[i] in word[..i]
    ensures DuplicateScan(word) == Some(true)
  {
    var j :| 0 <= j < i && word[..i][j] == word[i];
    assert !Distinct(word[..i + 1]) by {
      assert word[..i + 1][j] == word[..i + 1][i];
    }
    forall k | 0 <= k < |word| && Clean(word[..k]) ensures InFlagTable(word[k]) {
      if k < i {
        assert word[..i][k] == word[k];
      }
    }
  }

  /** HasDuplicate is exactly the failure of Distinct. */
  lemma DuplicateIffNotDistinct(s: string)
    ensures HasDuplicate(s) <==> !Distinct(s)
  {
    if !Distinct(s) {
      var i, j :| 0 <= i < j < |s| && s[i] == s[j];
      assert s[i] == s[j] && i != j;
    }
    if HasDuplicate(s) {
      var i, j :| 0 <= i < |s| && 0 <= j < |s| && i != j && s[i] == s[j];
      if j < i {
        assert s[j] == s[i];
      }
    }
  }

  /**
   * When every character has a flag, the scan never throws and answers
   * whether some character occurs twice.
   */
  lemma DuplicateScanInTable(word: string)
    requires forall i | 0 <= i < |word| :: InFlagTable(word[i])
    ensures DuplicateScan(word) == Some(HasDuplicate(word))
  {
    DuplicateIffNotDistinct(word);
  }

  /**
   * A word the scan does not pass, in which no character without a flag
   * follows a clean prefix, has a repeated character.
   */
  lemma RepeatBeforeOutside(word: string)
    ensures !Clean(word) && (forall k | 0 <= k < |word| && Clean(word[..k]) :: InFlagTable(word[k])) ==>
      HasDuplicate(word)
  {
    DuplicateIffNotDistinct(word);
    if !Clean(word) && (forall k | 0 <= k < |word| && Clean(word[..k]) :: InFlagTable(word[k])) && Distinct(word) {
      var k :| 0 <= k < |word| && !InFlagTable(word[k]);
      FirstOutside(word, k);
      var k0 :| 0 <= k0 <= k && !InFlagTable(word[k0]) && forall i | 0 <= i < k0 :: InFlagTable(word[i]);
      CleanUpTo(word, k0);
      assert false;
    }
  }

  /** If some character has no flag, there is a first such position. */
  lemma {:induction false} FirstOutside(word: string, k: nat)
    requires k < |word| && !InFlagTable(word[k])
    ensures exists k0 | 0 <= k0 <= k ::
      !InFlagTable(word[k0]) && forall i | 0 <= i < k0 :: InFlagTable(word[i])
    decreases k
  {
    if exists i | 0 <= i < k :: !InFlagTable(word[i]) {
      var i :| 0 <= i < k && !InFlagTable(word[i]);
      FirstOutside(word, i);
    }
  }

  /** A distinct word whose first k0 characters fit the table has a clean prefix of length k0. */
  lemma CleanUpTo(word: string, k0: nat)
    requires k0 <= |word| && Distinct(word)
    requires forall i | 0 <= i < k0 :: InFlagTable(word[i])
    ensures Clean(word[..k0])
  {
  }
}
