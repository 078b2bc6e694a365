/** The outcomes the use cases hand to the game manager, the reasons an input is
    refused, and the keywords a player may type instead of a word or a name. */
module Commands {
  import opened Common

  /** Why a word or a user name was refused. */
  datatype Reason =
    | EmptyWord            // nothing was typed
    | WrongWordLanguage    // a character outside the English alphabet
    | WrongWordReel        // the letters are not on the current reel
    | WrongWordDictionary  // not a dictionary word
    | InvalidUserName      // a user name with a character outside the alphabet

  /** One outcome of a round or of a user-name prompt. An unexpected error carries
      the message of the exception that was caught. */
  datatype Command =
    | Exit(saveGame: bool)
    | WrongName(reason: Reason)
    | UserName(name: string)
    | Shuffle
    | ShowWords
    | Help
    | InvalidWord(reason: Reason)
    | WordSubmitted(value: string, score: int)
    | UnexpectedError(error: string)

  /** The keywords, matched ignoring case. */
  const ExitKeyword: string := "*exit"
  const ShuffleKeyword: string := "*mix"
  const ShowWordsKeyword: string := "*words"
  const HelpKeyword: string := "*help"

  /** The message of the exception raised when a method is called on a missing
      string or object. */
  const NullReference: string := "Object reference not set to an instance of an object."

  /** Every keyword starts with the marker '*', whatever the case of the input. */
  lemma {:induction false} KeywordMarker(word: string)
    requires EqualsIgnoreCase(word, ExitKeyword) || EqualsIgnoreCase(word, ShuffleKeyword)
          || EqualsIgnoreCase(word, ShowWordsKeyword) || EqualsIgnoreCase(word, HelpKeyword)
    ensures |word| > 0 && word[0] == '*'
  {
    var lw := LowerStr(word);
    assert |lw| == |word|;
    assert lw[0] == '*';
    assert Lower(word[0]) == '*';
  }

  /** No input matches two keywords, so the order in which they are tried does not
      matter. */
  lemma KeywordsDistinct(word: string)
    ensures !(EqualsIgnoreCase(word, ExitKeyword) && EqualsIgnoreCase(word, ShuffleKeyword))
    ensures !(EqualsIgnoreCase(word, ExitKeyword) && EqualsIgnoreCase(word, ShowWordsKeyword))
    ensures !(EqualsIgnoreCase(word, ExitKeyword) && EqualsIgnoreCase(word, HelpKeyword))
    ensures !(EqualsIgnoreCase(word, ShuffleKeyword) && EqualsIgnoreCase(word, ShowWordsKeyword))
    ensures !(EqualsIgnoreCase(word, ShuffleKeyword) && EqualsIgnoreCase(word, HelpKeyword))
    ensures !(EqualsIgnoreCase(word, ShowWordsKeyword) && EqualsIgnoreCase(word, HelpKeyword))
  {
    LowerStrOfLower(ExitKeyword);
    LowerStrOfLower(ShuffleKeyword);
    LowerStrOfLower(ShowWordsKeyword);
    LowerStrOfLower(HelpKeyword);
  }
}
