/** The user-name prompt: the line typed is turned into exactly one command, trying the
    keywords "*exit" and "*help" first and then the alphabet of the name. */
module GetUser {
  import opened Common
  import opened ValidChars
  import opened Commands

  /** `CheckSpecialInput` of the user-name prompt: only "*exit" and "*help" are
      keywords here; the save-prompt answer is asked for only on "*exit". */
  function NameSpecialInput(name: string, saveAnswer: Reply<bool>): (r: Option<Command>)
    ensures r.None? <==> !EqualsIgnoreCase(name, ExitKeyword) && !EqualsIgnoreCase(name, HelpKeyword)
    ensures r.Some? ==> r.value.Exit? || r.value.Help? || r.value.UnexpectedError?
  {
    if EqualsIgnoreCase(name, ExitKeyword) then
      Some(if saveAnswer.Ok? then Exit(saveAnswer.value) else UnexpectedError(saveAnswer.error))
    else if EqualsIgnoreCase(name, HelpKeyword) then Some(Help)
    else None
  }

  /** `Execute`: the command for the typed line. A missing line fails when it is
      compared with the keywords, and that exception, like one raised while reading,
      becomes an unexpected error. */
  function ClassifyName(input: Reply<Option<string>>, saveAnswer: Reply<bool>): (r: Command)
    ensures input.Threw? ==> r == UnexpectedError(input.error)
    ensures r.UserName? ==> input.Ok? && input.value == Some(r.name) && InEnglish(r.name)
    ensures !r.Shuffle? && !r.ShowWords? && !r.InvalidWord? && !r.WordSubmitted?
  {
    if input.Threw? then UnexpectedError(input.error)
    else if input.value.None? then UnexpectedError(NullReference)
    else
      var name := input.value.value;
      var special := NameSpecialInput(name, saveAnswer);
      if special.Some? then special.value
      else if !InEnglish(name) then WrongName(InvalidUserName)
      else UserName(name)
  }

  /** The prompt accepts a name exactly when a line was read and it is made of ASCII
      letters only (the empty line included), and then the name is the line
      unchanged; every other outcome is a keyword's, a refusal or an error. */
  lemma AcceptedNames(input: Reply<Option<string>>, saveAnswer: Reply<bool>)
    ensures var c := ClassifyName(input, saveAnswer);
      c.UserName? <==> input.Ok? && input.value.Some?
                       && forall i | 0 <= i < |input.value.value| :: IsAsciiLetter(input.value.value[i])
    ensures var c := ClassifyName(input, saveAnswer);
      c.UserName? ==> c.name == input.value.value
    ensures var c := ClassifyName(input, saveAnswer);
      c.UserName? || c.Exit? || c.Help? || c == WrongName(InvalidUserName) || c.UnexpectedError?
  {
    if input.Ok? && input.value.Some? {
      var name := input.value.value;
      InEnglishIffAsciiLetters(name);
      if NameSpecialInput(name, saveAnswer).Some? {
        KeywordMarker(name);
        FirstNotEnglish(name);
      }
    }
  }

  /** The user-name tests on keywords: "*exit" gives Exit with the save answer (the
      default answer, false, in the test), and "*help" gives Help. */
  lemma KeywordNameTests(save: bool)
    ensures ClassifyName(Ok(Some("*exit")), Ok(save)) == Exit(save)
    ensures ClassifyName(Ok(Some("*help")), Ok(save)) == Help
  {
    LowerStrOfLower(ExitKeyword);
    LowerStrOfLower(HelpKeyword);
  }

  /** "*hello" is not a keyword and is refused as a user name. */
  lemma StarNameRefused(saveAnswer: Reply<bool>)
    ensures ClassifyName(Ok(Some("*hello")), saveAnswer) == WrongName(InvalidUserName)
  {
    assert |LowerStr("*hello")| == 6;
    FirstNotEnglish("*hello");
  }

  /** A name of letters, such as "martha", is accepted as typed; a missing line is an
      unexpected error. */
  lemma PlainNameAccepted(saveAnswer: Reply<bool>)
    ensures ClassifyName(Ok(Some("martha")), saveAnswer) == UserName("martha")
    ensures ClassifyName(Ok(None), saveAnswer) == UnexpectedError(NullReference)
  {
    AcceptedNames(Ok(Some("martha")), saveAnswer);
  }
}
