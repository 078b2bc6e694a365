/** One round of play: the word the player typed is turned into exactly one command,
    trying in order the empty input, the keywords, the alphabet, the current reel, the
    dictionary and finally the letter scores. The classifier changes nothing: it only
    reads the panel and the dictionary. */
module PlayRound {
  import opened Common
  import opened ValidChars
  import opened Commands
  import opened Tries
  import opened ReelPanels

  /** `CheckSpecialInput`: the command a keyword stands for; the save-prompt answer is
      asked for only when the keyword is "*exit", and an exception it raises is caught
      like any other. */
  function SpecialInput(word: string, saveAnswer: Reply<bool>): (r: Option<Command>)
    ensures EqualsIgnoreCase(word, ExitKeyword) ==>
      r == Some(if saveAnswer.Ok? then Exit(saveAnswer.value) else UnexpectedError(saveAnswer.error))
    ensures EqualsIgnoreCase(word, ShuffleKeyword) ==> r == Some(Shuffle)
    ensures EqualsIgnoreCase(word, ShowWordsKeyword) ==> r == Some(ShowWords)
    ensures EqualsIgnoreCase(word, HelpKeyword) ==> r == Some(Help)
    ensures r.None? <==> !EqualsIgnoreCase(word, ExitKeyword) && !EqualsIgnoreCase(word, ShuffleKeyword)
                         && !EqualsIgnoreCase(word, ShowWordsKeyword) && !EqualsIgnoreCase(word, HelpKeyword)
  {
    KeywordsDistinct(word);
    if EqualsIgnoreCase(word, ExitKeyword) then
      Some(if saveAnswer.Ok? then Exit(saveAnswer.value) else UnexpectedError(saveAnswer.error))
    else if EqualsIgnoreCase(word, ShuffleKeyword) then Some(Shuffle)
    else if EqualsIgnoreCase(word, ShowWordsKeyword) then Some(ShowWords)
    else if EqualsIgnoreCase(word, HelpKeyword) then Some(Help)
    else None
  }

  /** No keyword is made of English letters only, so a keyword can never be mistaken
      for a playable word. */
  lemma KeywordsNotEnglish(word: string, saveAnswer: Reply<bool>)
    requires SpecialInput(word, saveAnswer).Some?
    ensures !InEnglish(word)
  {
    KeywordMarker(word);
    NotEnglishLetters();
    assert word[0] !in Get(Some(English));
  }

  /** `ValidateWordScore`: the first reason the word is refused, checking the alphabet,
      then the current reel (case-sensitive, see `ReelPanel.CheckWord`), then the
      dictionary (case-insensitive, see `Trie.Search`); none when it passes all three. */
  function ValidateWord(word: string, reel: seq<char>, words: set<string>): (r: Option<Reason>)
    ensures r.None? <==> InEnglish(word) && !IsBlank(word) && multiset(word) <= multiset(reel)
                         && LowerStr(word) in words
    ensures r.Some? ==> r.value in {WrongWordLanguage, WrongWordReel, WrongWordDictionary}
  {
    if !InEnglish(word) then Some(WrongWordLanguage)
    else if !(!IsBlank(word) && multiset(word) <= multiset(reel)) then Some(WrongWordReel)
    else if LowerStr(word) !in words then Some(WrongWordDictionary)
    else None
  }

  /** The points one character is worth: its entry in the table, or 0 without one. */
  function LetterPoints(c: char, scores: map<char, int>): int
  {
    if c in scores then scores[c] else 0
  }

  /** The points of a word: the sum of its characters' points. */
  function Points(word: string, scores: map<char, int>): int
  {
    if word == [] then 0 else Points(word[..|word| - 1], scores) + LetterPoints(word[|word| - 1], scores)
  }

  /** The points of two words joined are the sum of their points. */
  lemma {:induction false} PointsAppend(a: string, b: string, scores: map<char, int>)
    ensures Points(a + b, scores) == Points(a, scores) + Points(b, scores)
    decreases |b|
  {
    if b == [] {
      assert a + b == a;
    } else {
      var b' := b[..|b| - 1];
      assert (a + b)[..|a + b| - 1] == a + b';
      PointsAppend(a, b', scores);
    }
  }

  /** With a table of non-negative scores, no word is worth a negative number of
      points; characters outside the table are worth nothing. */
  lemma {:induction false} PointsBounds(word: string, scores: map<char, int>)
    ensures (forall c | c in scores :: scores[c] >= 0) ==> Points(word, scores) >= 0
    ensures (forall i | 0 <= i < |word| :: word[i] !in scores) ==> Points(word, scores) == 0
  {
    if word != [] {
      PointsBounds(word[..|word| - 1], scores);
    }
  }

  /** The round's command, given what the collaborators produce: the input line (or
      the exception reading it raised), the answer to the save prompt, the current
      reel, the dictionary's words and the letter-score table (or the exception
      loading it raised). */
  function Classify(input: Reply<Option<string>>, saveAnswer: Reply<bool>, reel: seq<char>,
                    words: set<string>, scores: Reply<map<char, int>>): (r: Command)
    ensures input.Threw? ==> r == UnexpectedError(input.error)
    ensures r.WordSubmitted? ==> input.Ok? && input.value == Some(r.value) && scores.Ok?
                                 && InEnglish(r.value) && !IsBlank(r.value)
                                 && multiset(r.value) <= multiset(reel) && LowerStr(r.value) in words
  {
    if input.Threw? then UnexpectedError(input.error)
    else if input.value.None? || input.value.value == "" then InvalidWord(EmptyWord)
    else
      var word := input.value.value;
      var special := SpecialInput(word, saveAnswer);
      if special.Some? then special.value
      else
        var invalid := ValidateWord(word, reel, words);
        if invalid.Some? then InvalidWord(invalid.value)
        else if scores.Threw? then UnexpectedError(scores.error)
        else WordSubmitted(word, Points(word, scores.value))
  }

  /** A submitted word is never empty, is made of English letters only, can be formed
      from the current reel, is in the dictionary, and scores its letters' points; and
      every input that passes all of these is submitted. */
  lemma SubmittedWordIsPlayable(input: Reply<Option<string>>, saveAnswer: Reply<bool>, reel: seq<char>,
                                words: set<string>, scores: Reply<map<char, int>>)
    ensures var c := Classify(input, saveAnswer, reel, words, scores);
      c.WordSubmitted? <==>
        input.Ok? && input.value.Some? && scores.Ok? && InEnglish(input.value.value)
        && !IsBlank(input.value.value) && multiset(input.value.value) <= multiset(reel)
        && LowerStr(input.value.value) in words
    ensures var c := Classify(input, saveAnswer, reel, words, scores);
      c.WordSubmitted? ==> c.value == input.value.value && c.score == Points(c.value, scores.value)
  {
    if input.Ok? && input.value.Some? && SpecialInput(input.value.value, saveAnswer).Some? {
      KeywordsNotEnglish(input.value.value, saveAnswer);
    }
  }

  /** Keywords are recognised before any validation: their command does not depend on
      the reel, the dictionary or the scores. */
  lemma KeywordsFirst(word: string, saveAnswer: Reply<bool>, reel: seq<char>,
                      words: set<string>, scores: Reply<map<char, int>>)
    requires EqualsIgnoreCase(word, ExitKeyword) || EqualsIgnoreCase(word, ShuffleKeyword)
          || EqualsIgnoreCase(word, ShowWordsKeyword) || EqualsIgnoreCase(word, HelpKeyword)
    ensures Classify(Ok(Some(word)), saveAnswer, reel, words, scores) == SpecialInput(word, saveAnswer).value
    ensures Classify(Ok(Some(word)), saveAnswer, reel, words, scores) in
      {Shuffle, ShowWords, Help, Exit(true), Exit(false)} + (if saveAnswer.Threw? then {UnexpectedError(saveAnswer.error)} else {})
  {
    KeywordMarker(word);
  }

  /** A round never produces a user-name outcome, and every refusal it produces names
      a word reason. */
  lemma RoundOutcomes(input: Reply<Option<string>>, saveAnswer: Reply<bool>, reel: seq<char>,
                      words: set<string>, scores: Reply<map<char, int>>)
    ensures var c := Classify(input, saveAnswer, reel, words, scores);
      !c.UserName? && !c.WrongName? && (c.InvalidWord? ==> c.reason != InvalidUserName)
  {
  }

  /** The reel is checked before the dictionary, and both after the alphabet: a word
      with a non-letter is refused for its language whatever the reel and dictionary,
      and a word the reel cannot form is refused for the reel whatever the dictionary. */
  lemma CheckOrder(word: string, saveAnswer: Reply<bool>, reel: seq<char>,
                   words: set<string>, scores: Reply<map<char, int>>)
    requires word != "" && SpecialInput(word, saveAnswer).None?
    ensures !InEnglish(word) ==>
      Classify(Ok(Some(word)), saveAnswer, reel, words, scores) == InvalidWord(WrongWordLanguage)
    ensures InEnglish(word) && !(multiset(word) <= multiset(reel)) ==>
      Classify(Ok(Some(word)), saveAnswer, reel, words, scores) == InvalidWord(WrongWordReel)
  {
  }

  /** `CalculateScore`: the points of the word, summed letter by letter. */
  method CalculateScore(word: string, scores: map<char, int>) returns (points: int)
    ensures points == Points(word, scores)
  {
    points := 0;
    for i := 0 to |word|
      invariant points == Points(word[..i], scores)
    {
      assert word[..i + 1][..i] == word[..i];
      if word[i] in scores {
        points := points + scores[word[i]];
      }
    }
    assert word[..|word|] == word;
  }

  /** `Execute`: the round's command, read from the live panel and dictionary. Neither
      is changed. */
  method Execute(input: Reply<Option<string>>, saveAnswer: Reply<bool>, panel: ReelPanel, trie: Trie,
                 scores: Reply<map<char, int>>) returns (command: Command)
    requires panel.Valid() && trie.Valid()
    ensures command == Classify(input, saveAnswer, panel.CurrentRow(), trie.words, scores)
  {
    if input.Threw? {
      return UnexpectedError(input.error);
    }
    if input.value.None? || input.value.value == "" {
      return InvalidWord(EmptyWord);
    }
    var word := input.value.value;
    var special := SpecialInput(word, saveAnswer);
    if special.Some? {
      return special.value;
    }
    if !InEnglish(word) {
      return InvalidWord(WrongWordLanguage);
    }
    var onReel := panel.CheckWord(word);
    if !onReel {
      return InvalidWord(WrongWordReel);
    }
    var known := trie.Search(word);
    if !known {
      return InvalidWord(WrongWordDictionary);
    }
    if scores.Threw? {
      return UnexpectedError(scores.error);
    }
    var points := CalculateScore(word, scores.value);
    return WordSubmitted(word, points);
  }

  /** The dictionary and reel of the round tests: words pet, hat, can and cat, and the
      current reel "tca". */
  const TestWords: set<string> := {"pet", "hat", "can", "cat"}
  const TestReel: seq<char> := "tca"
  const TestScores: map<char, int> := map['c' := 3, 'a' := 1, 't' := 2]

  /** "cat" is worth 3 + 1 + 2 = 6 points with the test table. */
  lemma CatPoints()
    ensures Points("cat", TestScores) == 6
  {
    assert "cat"[..2] == "ca" && "ca"[..1] == "c" && "c"[..0] == "";
  }

  /** No word shorter than four characters is a keyword. */
  lemma ShortWordNotKeyword(word: string, saveAnswer: Reply<bool>)
    requires |word| < 4
    ensures SpecialInput(word, saveAnswer).None?
  {
    assert |LowerStr(word)| == |word|;
    assert |LowerStr(ExitKeyword)| == 5 && |LowerStr(ShuffleKeyword)| == 4;
    assert |LowerStr(ShowWordsKeyword)| == 6 && |LowerStr(HelpKeyword)| == 5;
  }

  /** The round test "123" is refused for its language, whatever the reel and the
      dictionary. */
  lemma DigitsRefused(saveAnswer: Reply<bool>, reel: seq<char>, words: set<string>, scores: Reply<map<char, int>>)
    ensures Classify(Ok(Some("123")), saveAnswer, reel, words, scores) == InvalidWord(WrongWordLanguage)
  {
    ShortWordNotKeyword("123", saveAnswer);
    FirstNotEnglish("123");
    CheckOrder("123", saveAnswer, reel, words, scores);
  }

  /** The round test "xxx" is made of letters but is refused for the reel on any reel
      with fewer than three 'x's, whatever the dictionary. */
  lemma OffReelRefused(saveAnswer: Reply<bool>, reel: seq<char>, words: set<string>, scores: Reply<map<char, int>>)
    requires multiset(reel)['x'] < 3
    ensures Classify(Ok(Some("xxx")), saveAnswer, reel, words, scores) == InvalidWord(WrongWordReel)
  {
    ShortWordNotKeyword("xxx", saveAnswer);
    InEnglishIffAsciiLetters("xxx");
    assert multiset("xxx")['x'] == 3;
    CheckOrder("xxx", saveAnswer, reel, words, scores);
  }

  /** The round test "ca" is on a reel holding a 'c' and an 'a' but is refused when the
      dictionary does not hold it. */
  lemma UnknownWordRefused(saveAnswer: Reply<bool>, reel: seq<char>, words: set<string>, scores: Reply<map<char, int>>)
    requires 'c' in reel && 'a' in reel && "ca" !in words
    ensures Classify(Ok(Some("ca")), saveAnswer, reel, words, scores) == InvalidWord(WrongWordDictionary)
  {
    ShortWordNotKeyword("ca", saveAnswer);
    InEnglishIffAsciiLetters("ca");
    assert multiset("ca") == multiset{'c', 'a'};
    assert LowerStr("ca") == "ca";
  }

  /** The round test "cat" on a reel holding its letters, with a dictionary holding it
      and the test's score table, is submitted for 3 + 1 + 2 = 6 points. */
  lemma CatSubmitted(saveAnswer: Reply<bool>, reel: seq<char>, words: set<string>)
    requires multiset("cat") <= multiset(reel) && "cat" in words
    ensures Classify(Ok(Some("cat")), saveAnswer, reel, words, Ok(TestScores)) == WordSubmitted("cat", 6)
  {
    InEnglishIffAsciiLetters("cat");
    assert LowerStr("cat") == "cat";
    SubmittedWordIsPlayable(Ok(Some("cat")), saveAnswer, reel, words, Ok(TestScores));
    CatPoints();
  }

  /** The test reel and dictionary meet the conditions above. */
  lemma TestFixtureFacts()
    ensures multiset(TestReel)['x'] < 3
    ensures 'c' in TestReel && 'a' in TestReel && "ca" !in TestWords
    ensures multiset("cat") <= multiset(TestReel) && "cat" in TestWords
  {
    assert TestReel == ['t', 'c', 'a'];
    assert multiset(TestReel) == multiset{'t', 'c', 'a'};
    assert multiset("cat") == multiset{'c', 'a', 't'};
  }

  /** The round tests, on reel "tca" with the words pet, hat, can and cat. */
  lemma RoundTests(saveAnswer: Reply<bool>, scores: Reply<map<char, int>>)
    ensures Classify(Ok(Some("123")), saveAnswer, TestReel, TestWords, scores) == InvalidWord(WrongWordLanguage)
    ensures Classify(Ok(Some("xxx")), saveAnswer, TestReel, TestWords, scores) == InvalidWord(WrongWordReel)
    ensures Classify(Ok(Some("ca")), saveAnswer, TestReel, TestWords, scores) == InvalidWord(WrongWordDictionary)
    ensures Classify(Ok(Some("cat")), saveAnswer, TestReel, TestWords, Ok(TestScores)) == WordSubmitted("cat", 6)
  {
    TestFixtureFacts();
    DigitsRefused(saveAnswer, TestReel, TestWords, scores);
    OffReelRefused(saveAnswer, TestReel, TestWords, scores);
    UnknownWordRefused(saveAnswer, TestReel, TestWords, scores);
    CatSubmitted(saveAnswer, TestReel, TestWords);
  }

  /** A missing or empty input is refused as empty, and an exception raised while
      reading the input is passed on; none of it depends on the reel or dictionary. */
  lemma NoWordRefused(saveAnswer: Reply<bool>, reel: seq<char>, words: set<string>,
                      scores: Reply<map<char, int>>, error: string)
    ensures Classify(Ok(Some("")), saveAnswer, reel, words, scores) == InvalidWord(EmptyWord)
    ensures Classify(Ok(None), saveAnswer, reel, words, scores) == InvalidWord(EmptyWord)
    ensures Classify(Threw(error), saveAnswer, reel, words, scores) == UnexpectedError(error)
  {
  }

  /** The keyword tests: "*exit" gives Exit with the save answer, "*mix" a shuffle and
      "*words" the played-words list, whatever the reel, dictionary and scores; the
      case of a keyword does not matter. */
  lemma KeywordTests(save: bool, reel: seq<char>, words: set<string>, scores: Reply<map<char, int>>)
    ensures Classify(Ok(Some("*exit")), Ok(save), reel, words, scores) == Exit(save)
    ensures Classify(Ok(Some("*EXIT")), Ok(save), reel, words, scores) == Exit(save)
    ensures Classify(Ok(Some("*mix")), Ok(save), reel, words, scores) == Shuffle
    ensures Classify(Ok(Some("*words")), Ok(save), reel, words, scores) == ShowWords
  {
    LowerStrOfLower(ExitKeyword);
    LowerStrOfLower(ShuffleKeyword);
    LowerStrOfLower(ShowWordsKeyword);
    assert LowerStr("*EXIT") == ExitKeyword;
    KeywordsFirst("*exit", Ok(save), reel, words, scores);
    KeywordsFirst("*EXIT", Ok(save), reel, words, scores);
    KeywordsFirst("*mix", Ok(save), reel, words, scores);
    KeywordsFirst("*words", Ok(save), reel, words, scores);
  }

  /** An upper-case word is refused for the reel even when its lower-case form is on
      the reel and in the dictionary: the reel holds lower-case letters and is
      compared case-sensitively. */
  lemma UpperCaseRefusedByReel(saveAnswer: Reply<bool>, reel: seq<char>, words: set<string>, scores: Reply<map<char, int>>)
    requires 'C' !in reel
    ensures Classify(Ok(Some("CAT")), saveAnswer, reel, words, scores) == InvalidWord(WrongWordReel)
  {
    ShortWordNotKeyword("CAT", saveAnswer);
    InEnglishIffAsciiLetters("CAT");
    assert multiset("CAT")['C'] == 1;
    CheckOrder("CAT", saveAnswer, reel, words, scores);
  }
}
