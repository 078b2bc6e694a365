/** The game manager: it applies each command a use case returns to the session (the
    user, the exit flag, the game's score, played words and grid), and loops over the
    user-name prompt and over the rounds until a command stops it. */
module GameManager {
  import opened Common
  import opened Matrices
  import opened CharExtensions
  import opened ReelPanels
  import opened Games
  import opened Commands
  import opened Settings

  /** What a command can change, seen as a value: the user, the exit flag, how many
      times the game was saved, and, when there is a game, its score and played words. */
  datatype Session = Session(user: Option<string>, exit: bool, saves: nat, hasGame: bool,
                             score: int, playedWords: seq<Word>)

  /** The message of the error raised for a command the manager does not handle. */
  const UnknownCommand: string := "Unknonw command."

  /** `CommandHandler` on the session: the new session and whether to stop, or the
      exception it raises. Only Exit stops; a command that needs the game fails without
      one; an unexpected error is not handled and is raised as an unknown command. */
  function Handle(s: Session, penalty: int, c: Command): (r: Reply<(Session, bool)>)
    ensures r.Ok? ==> r.value.0.hasGame == s.hasGame && s.playedWords <= r.value.0.playedWords
                      && |r.value.0.playedWords| <= |s.playedWords| + 1
                      && s.saves <= r.value.0.saves <= s.saves + 1
    ensures r.Ok? && r.value.1 ==> r.value.0.exit
  {
    match c
    case Exit(save) => Ok((s.(exit := true, saves := if save then s.saves + 1 else s.saves), true))
    case WrongName(_) => Ok((s, false))
    case UserName(name) => Ok((s.(user := Some(name)), false))
    case Shuffle =>
      if !s.hasGame then Threw(NullReference) else Ok((s.(score := SubtractedScore(s.score, penalty)), false))
    case ShowWords => if !s.hasGame then Threw(NullReference) else Ok((s, false))
    case Help => Ok((s, false))
    case InvalidWord(_) => Ok((s, false))
    case WordSubmitted(w, points) =>
      if !s.hasGame then Threw(NullReference)
      else Ok((s.(score := AddedScore(s.score, points), playedWords := s.playedWords + [Word(w, points)]), false))
    case UnexpectedError(_) => Threw(UnknownCommand)
  }

  /** What one command does to a session: it stops exactly on Exit, fails exactly on an
      unexpected error or on a game command without a game, never lowers the number of
      saves or drops a played word, keeps the score non-negative, and saves at most
      once, only on Exit with the save answer. */
  lemma HandleProperties(s: Session, penalty: int, c: Command)
    ensures Handle(s, penalty, c).Ok? && Handle(s, penalty, c).value.1 <==> c.Exit?
    ensures Handle(s, penalty, c).Threw? <==>
      c.UnexpectedError? || (!s.hasGame && (c.Shuffle? || c.ShowWords? || c.WordSubmitted?))
    ensures Handle(s, penalty, c).Ok? ==>
      var t := Handle(s, penalty, c).value.0;
      t.hasGame == s.hasGame
      && t.playedWords[..|s.playedWords|] == s.playedWords
      && (s.score >= 0 ==> t.score >= 0)
      && t.saves == (if c.Exit? && c.saveGame then s.saves + 1 else s.saves)
      && (t.user != s.user ==> c.UserName?)
      && (t.exit != s.exit ==> c.Exit?)
  {
    if c.Shuffle? && s.hasGame {
      SubtractFloorsAtZero(s.score, penalty);
    }
  }

  /** A loop of the manager over the commands a use case returns: each is handled in
      turn until one stops the loop or raises; the user-name loop also ends as soon as
      there is a user. The result is the session and whether it was stopped. */
  function Loop(s: Session, penalty: int, cmds: seq<Command>, untilUser: bool): (r: Reply<(Session, bool)>)
    ensures r.Ok? ==> r.value.0.hasGame == s.hasGame && s.playedWords <= r.value.0.playedWords
                      && |r.value.0.playedWords| <= |s.playedWords| + |cmds|
                      && s.saves <= r.value.0.saves <= s.saves + |cmds|
    ensures r.Ok? && r.value.1 ==> r.value.0.exit
    decreases |cmds|
  {
    if cmds == [] || (untilUser && s.user.Some?) then Ok((s, false))
    else
      match Handle(s, penalty, cmds[0])
      case Threw(e) => Threw(e)
      case Ok((t, stop)) => if stop then Ok((t, true)) else Loop(t, penalty, cmds[1..], untilUser)
  }

  /** A loop keeps the score non-negative: from a non-negative score, whatever the
      commands, a loop that completes leaves a non-negative score. */
  lemma {:induction false} LoopKeepsScore(s: Session, penalty: int, cmds: seq<Command>, untilUser: bool)
    requires s.score >= 0
    ensures Loop(s, penalty, cmds, untilUser).Ok? ==> Loop(s, penalty, cmds, untilUser).value.0.score >= 0
    decreases |cmds|
  {
    if !(cmds == [] || (untilUser && s.user.Some?)) {
      HandleProperties(s, penalty, cmds[0]);
      var h := Handle(s, penalty, cmds[0]);
      if h.Ok? && !h.value.1 {
        LoopKeepsScore(h.value.0, penalty, cmds[1..], untilUser);
      }
    }
  }

  /** The rounds loop stops exactly when an Exit is among the commands before any that
      raises. */
  lemma {:induction false} LoopStopsOnExit(s: Session, penalty: int, cmds: seq<Command>)
    requires forall i | 0 <= i < |cmds| :: !cmds[i].UnexpectedError?
    requires s.hasGame
    ensures Loop(s, penalty, cmds, false).Ok?
    ensures Loop(s, penalty, cmds, false).value.1 <==> exists i | 0 <= i < |cmds| :: cmds[i].Exit?
    decreases |cmds|
  {
    if cmds != [] {
      HandleProperties(s, penalty, cmds[0]);
      var h := Handle(s, penalty, cmds[0]);
      if !h.value.1 {
        LoopStopsOnExit(h.value.0, penalty, cmds[1..]);
        if exists i | 0 <= i < |cmds| :: cmds[i].Exit? {
          var i :| 0 <= i < |cmds| && cmds[i].Exit?;
          assert cmds[1..][i - 1].Exit?;
        }
        if exists i | 0 <= i < |cmds[1..]| :: cmds[1..][i].Exit? {
          var i :| 0 <= i < |cmds[1..]| && cmds[1..][i].Exit?;
          assert cmds[i + 1].Exit?;
        }
      }
    }
  }

  /** The session before the user is known, and the one a new game starts from. */
  const Initial: Session := Session(None, false, 0, false, 0, [])

  /** The manager test: the user "martha" is taken, then a new game plays three
      refused words, "cat" for 6 points and Exit with saving; the score is 6, "cat" is
      the one played word, and the game was saved once. */
  lemma CompleteGameTest()
    ensures Loop(Initial, DefaultShufflePenalty, [UserName("martha")], true) ==
      Ok((Initial.(user := Some("martha")), false))
    ensures var named := Initial.(user := Some("martha"), hasGame := true);
      Loop(named, DefaultShufflePenalty,
           [InvalidWord(WrongWordLanguage), InvalidWord(WrongWordReel), InvalidWord(WrongWordDictionary),
            WordSubmitted("cat", 6), Exit(true)], false) ==
      Ok((named.(score := 6, playedWords := [Word("cat", 6)], saves := 1, exit := true), true))
  {
    var named := Initial.(user := Some("martha"), hasGame := true);
    var cmds := [InvalidWord(WrongWordLanguage), InvalidWord(WrongWordReel), InvalidWord(WrongWordDictionary),
                 WordSubmitted("cat", 6), Exit(true)];
    var last := named.(score := 6, playedWords := [Word("cat", 6)], saves := 1, exit := true);
    var played := named.(score := 6, playedWords := [Word("cat", 6)]);
    assert Loop(played, DefaultShufflePenalty, [Exit(true)], false) == Ok((last, true));
    assert Loop(named, DefaultShufflePenalty, [WordSubmitted("cat", 6), Exit(true)], false) == Ok((last, true)) by {
      assert [WordSubmitted("cat", 6), Exit(true)][1..] == [Exit(true)];
      assert named.playedWords + [Word("cat", 6)] == [Word("cat", 6)];
      assert Handle(named, DefaultShufflePenalty, WordSubmitted("cat", 6)) == Ok((played, false));
    }
    assert cmds[1..][1..][1..] == [WordSubmitted("cat", 6), Exit(true)];
    assert Loop(named, DefaultShufflePenalty, cmds[1..][1..], false) == Ok((last, true));
    assert Loop(named, DefaultShufflePenalty, cmds[1..], false) == Ok((last, true));
  }

  /** The manager test where the player exits at the user-name prompt: the loop stops
      with the exit flag set and nothing saved, before any game exists. */
  lemma ExitAtStartTest()
    ensures Loop(Initial, DefaultShufflePenalty, [Exit(false)], true) ==
      Ok((Initial.(exit := true), true))
  {
  }

  /** Draws a shuffle of `n` cells can use: one per step, each a cell index. */
  predicate ShuffleDraws(draws: seq<int>, n: nat)
  {
    |draws| >= n - 1 && forall k | 0 <= k < n - 1 :: 0 <= draws[k] < n
  }

  class Manager {
    /** The word size and the shuffle penalty, read from configuration. */
    const defaultWordSize: int
    const penaltyPoints: int
    var game: Game?
    var user: Option<string>
    var exit: bool
    /** How many times the game was saved (saving itself is not modelled). */
    var saves: nat

    /** A game's panel has a grid. */
    ghost predicate Valid()
      reads this
    {
      game != null ==> game.reelPanel.Valid()
    }

    /** The session as a value. */
    ghost function State(): Session
      reads this, game
    {
      if game == null then Session(user, exit, saves, false, 0, [])
      else Session(user, exit, saves, true, game.score, game.playedWords)
    }

    /** The objects the handler may change: the manager, its game and the game's grid. */
    ghost function Footprint(): set<object>
      reads this
    {
      {this} + (if game != null then {game, game.reelPanel.matrix.data} else {})
    }

    /** The constructor: no game, no user; the word size and the penalty are the
        configured values when they parse, 7 and 2 otherwise. */
    constructor (wordSizeConfig: Option<string>, penaltyConfig: Option<string>)
      ensures defaultWordSize == Setting(wordSizeConfig, DefaultWordSize)
      ensures penaltyPoints == Setting(penaltyConfig, DefaultShufflePenalty)
      ensures State() == Initial && Valid()
    {
      defaultWordSize := Setting(wordSizeConfig, DefaultWordSize);
      penaltyPoints := Setting(penaltyConfig, DefaultShufflePenalty);
      game := null;
      user := None;
      exit := false;
      saves := 0;
    }

    /** `CommandHandler`: the session changes as `Handle` says; a shuffle shuffles the
        grid with the given draws and a submitted word scrolls its letters' columns;
        every other command leaves the grid alone. The game itself is not replaced. */
    method CommandHandler(c: Command, draws: seq<int>) returns (r: Reply<bool>)
      requires Valid()
      requires game != null && c.Shuffle? ==> ShuffleDraws(draws, |game.reelPanel.matrix.Cells()|)
      modifies Footprint()
      ensures game == old(game) && Valid()
      ensures Handle(old(State()), penaltyPoints, c).Ok? ==>
        r == Ok(Handle(old(State()), penaltyPoints, c).value.1) && State() == Handle(old(State()), penaltyPoints, c).value.0
      ensures Handle(old(State()), penaltyPoints, c).Threw? ==>
        r == Threw(Handle(old(State()), penaltyPoints, c).error) && State() == old(State())
      ensures game != null && c.Shuffle? ==>
        game.reelPanel.matrix.Cells() == Swaps(old(game.reelPanel.matrix.Cells()), draws, |game.reelPanel.matrix.Cells()| - 1)
      ensures game != null && c.WordSubmitted? ==>
        game.reelPanel.Grid() == ScrollColumns(old(game.reelPanel.Grid()), game.reelPanel.ColumnCount(),
                                               LastIndexes(old(game.reelPanel.CurrentRow()), c.value))
      ensures game != null && !c.Shuffle? && !c.WordSubmitted? ==> unchanged(game.reelPanel.matrix.data)
    {
      match c
      case Exit(save) =>
        if save {
          saves := saves + 1;
        }
        exit := true;
        return Ok(true);
      case WrongName(_) =>
        return Ok(false);
      case UserName(name) =>
        user := Some(name);
        return Ok(false);
      case Shuffle =>
        if game == null {
          return Threw(NullReference);
        }
        game.Shuffle(draws);
        game.SubtractScore(penaltyPoints);
        return Ok(false);
      case ShowWords =>
        if game == null {
          return Threw(NullReference);
        }
        return Ok(false);
      case Help =>
        return Ok(false);
      case InvalidWord(_) =>
        return Ok(false);
      case WordSubmitted(w, points) =>
        if game == null {
          return Threw(NullReference);
        }
        game.AddScore(points, w);
        game.reelPanel.ScrollLetters(w);
        return Ok(false);
      case UnexpectedError(_) =>
        return Threw(UnknownCommand);
    }

    /** The loops of `GetUserName` (with `untilUser`) and `PlayRound` (without), over the
        commands the use case returns one per iteration, with the draws for a shuffle
        in that iteration. The session ends as `Loop` says; when the commands run out
        the loop ends unstopped. */
    method RunLoop(cmds: seq<Command>, draws: seq<seq<int>>, untilUser: bool) returns (r: Reply<bool>)
      requires Valid()
      requires |draws| >= |cmds|
      requires game != null ==> forall i | 0 <= i < |cmds| :: ShuffleDraws(draws[i], |game.reelPanel.matrix.Cells()|)
      modifies Footprint()
      ensures game == old(game) && Valid()
      ensures Loop(old(State()), penaltyPoints, cmds, untilUser).Ok? ==>
        r == Ok(Loop(old(State()), penaltyPoints, cmds, untilUser).value.1)
        && State() == Loop(old(State()), penaltyPoints, cmds, untilUser).value.0
      ensures Loop(old(State()), penaltyPoints, cmds, untilUser).Threw? ==>
        r == Threw(Loop(old(State()), penaltyPoints, cmds, untilUser).error)
    {
      ghost var goal := Loop(State(), penaltyPoints, cmds, untilUser);
      var exitLoop := false;
      var i := 0;
      while !exitLoop && i < |cmds| && !(untilUser && user.Some?)
        invariant 0 <= i <= |cmds|
        invariant game == old(game) && Valid()
        invariant Footprint() == old(Footprint())
        invariant !exitLoop ==> goal == Loop(State(), penaltyPoints, cmds[i..], untilUser)
        invariant exitLoop ==> goal == Ok((State(), true))
        decreases |cmds| - i
      {
        var handled := CommandHandler(cmds[i], draws[i]);
        if handled.Threw? {
          return Threw(handled.error);
        }
        assert cmds[i..][1..] == cmds[i + 1..];
        exitLoop := handled.value;
        i := i + 1;
      }
      return Ok(exitLoop);
    }
  }
}
