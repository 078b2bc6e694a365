/** The alphabet of each supported language: the characters a word or a user name
    may be made of. Only English has an entry. */
module ValidChars {
  import opened Common

  /** A language, identified by its code. */
  datatype Language = Language(code: string, name: string)

  const English: Language := Language("en", "English")
  const Spanish: Language := Language("es", "Spanish")

  /** The letters of the English alphabet, upper case first (written in four runs of
      13 so that the proofs below can take it apart). */
  const EnglishLetters: string := "ABCDEFGHIJKLM" + "NOPQRSTUVWXYZ" + "abcdefghijklm" + "nopqrstuvwxyz"

  /** The alphabet table, keyed by language code. */
  const Alphabets: map<string, string> := map["en" := EnglishLetters]

  /** `ValidCharsFactory.Get`: the alphabet of the language, or the empty string for
      a missing language or one without an entry. Every alphabet in the table is made
      of ASCII letters. */
  function Get(language: Option<Language>): (letters: string)
    ensures forall i | 0 <= i < |letters| :: IsAsciiLetter(letters[i])
  {
    UpperFirstHalf();
    UpperSecondHalf();
    LowerFirstHalf();
    LowerSecondHalf();
    RunsAreAsciiLetters("ABCDEFGHIJKLM", "NOPQRSTUVWXYZ", "abcdefghijklm", "nopqrstuvwxyz");
    if language.Some? && language.value.code in Alphabets then Alphabets[language.value.code] else ""
  }

  /** The `n` consecutive characters starting at `first`. */
  function Run(first: nat, n: nat): (s: string)
    requires first + n <= 0xD800
    ensures |s| == n
    ensures forall k | 0 <= k < n :: s[k] as int == first + k
    decreases n
  {
    if n == 0 then [] else [first as char] + Run(first + 1, n - 1)
  }

  /** Each of the four runs of 13 letters holds consecutive code points. */
  lemma UpperFirstHalf() ensures forall k | 0 <= k < 13 :: "ABCDEFGHIJKLM"[k] as int == 65 + k
  {
    assert "ABCDEFGHIJKLM" == Run(65, 13);
  }

  lemma UpperSecondHalf() ensures forall k | 0 <= k < 13 :: "NOPQRSTUVWXYZ"[k] as int == 78 + k
  {
    assert "NOPQRSTUVWXYZ" == Run(78, 13);
  }

  lemma LowerFirstHalf() ensures forall k | 0 <= k < 13 :: "abcdefghijklm"[k] as int == 97 + k
  {
    assert "abcdefghijklm" == Run(97, 13);
  }

  lemma LowerSecondHalf() ensures forall k | 0 <= k < 13 :: "nopqrstuvwxyz"[k] as int == 110 + k
  {
    assert "nopqrstuvwxyz" == Run(110, 13);
  }

  /** Four runs of 13 consecutive code points starting at A, N, a and n hold exactly
      the ASCII letters. */
  lemma RunsAreAsciiLetters(a: string, b: string, c: string, d: string)
    requires |a| == 13 && |b| == 13 && |c| == 13 && |d| == 13
    requires forall k | 0 <= k < 13 :: a[k] as int == 65 + k
    requires forall k | 0 <= k < 13 :: b[k] as int == 78 + k
    requires forall k | 0 <= k < 13 :: c[k] as int == 97 + k
    requires forall k | 0 <= k < 13 :: d[k] as int == 110 + k
    ensures forall x :: x in a + b + c + d <==> IsAsciiLetter(x)
  {
    var s := a + b + c + d;
    forall k | 0 <= k < 52
      ensures s[k] as int == if k < 26 then 65 + k else 71 + k
    {
      if k < 13 {
        assert s[k] == a[k];
      } else if k < 26 {
        assert s[k] == b[k - 13];
      } else if k < 39 {
        assert s[k] == c[k - 26];
      } else {
        assert s[k] == d[k - 39];
      }
    }
    forall x | IsAsciiLetter(x)
      ensures x in s
    {
      if 'A' <= x <= 'Z' {
        assert s[x as int - 65] == x;
      } else {
        assert s[x as int - 71] == x;
      }
    }
  }

  /** The English alphabet is exactly the ASCII letters, 52 of them. */
  lemma EnglishIsAsciiLetters()
    ensures |Get(Some(English))| == 52
    ensures forall c :: c in Get(Some(English)) <==> IsAsciiLetter(c)
  {
    UpperFirstHalf();
    UpperSecondHalf();
    LowerFirstHalf();
    LowerSecondHalf();
    RunsAreAsciiLetters("ABCDEFGHIJKLM", "NOPQRSTUVWXYZ", "abcdefghijklm", "nopqrstuvwxyz");
  }

  /** A missing language, and Spanish, which has no entry, have an empty alphabet. */
  lemma NoAlphabet()
    ensures Get(None) == ""
    ensures Get(Some(Spanish)) == ""
  {
    assert Spanish.code !in Alphabets;
  }

  /** Digits, the space and the keyword marker '*' are not English letters. */
  lemma NotEnglishLetters()
    ensures '0' !in Get(Some(English)) && '9' !in Get(Some(English))
    ensures ' ' !in Get(Some(English)) && '*' !in Get(Some(English))
  {
    EnglishIsAsciiLetters();
  }

  /** Every character of `word` is in the English alphabet. */
  predicate InEnglish(word: string)
  {
    forall i | 0 <= i < |word| :: word[i] in Get(Some(English))
  }

  /** A word is in the English alphabet exactly when it is made of ASCII letters. */
  lemma InEnglishIffAsciiLetters(word: string)
    ensures InEnglish(word) <==> forall i | 0 <= i < |word| :: IsAsciiLetter(word[i])
  {
    EnglishIsAsciiLetters();
  }

  /** A word whose first character is not a letter is not in the English alphabet. */
  lemma FirstNotEnglish(word: string)
    requires word != "" && !IsAsciiLetter(word[0])
    ensures !InEnglish(word)
  {
    InEnglishIffAsciiLetters(word);
  }
}
