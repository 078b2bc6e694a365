/** The game aggregate: who plays, on which reel panel, the words played so far and
    the score. The score only grows through positive word scores and is floored at
    zero when a penalty is subtracted. */
module Games {
  import opened Common
  import opened Matrices
  import opened ReelPanels

  /** A played word with the points it was worth; two words are equal when both the
      text and the points agree. */
  datatype Word = Word(value: string, score: int)

  /** A point in time (`DateTime`), as a tick count. */
  datatype Instant = Instant(ticks: int)

  /** The score after `AddScore(points, _)`: raised by `points` only when positive. */
  function AddedScore(score: int, points: int): int
  {
    if points > 0 then score + points else score
  }

  /** The score after `SubtractScore(points)`: the difference, or 0 when the
      difference is not positive. */
  function SubtractedScore(score: int, points: int): int
  {
    var res := score - points;
    if res <= 0 then 0 else res
  }

  /** Adding never lowers the score, and it rises exactly when the points are
      positive. */
  lemma AddNeverLowers(score: int, points: int)
    ensures AddedScore(score, points) >= score
    ensures AddedScore(score, points) > score <==> points > 0
  {
  }

  /** Subtracting yields the larger of 0 and the difference: never negative, and
      never above the old score when the penalty is not negative. */
  lemma SubtractFloorsAtZero(score: int, points: int)
    ensures SubtractedScore(score, points) >= 0
    ensures SubtractedScore(score, points) == 0 <==> score <= points
    ensures score > points ==> SubtractedScore(score, points) == score - points
    ensures points >= 0 && score >= 0 ==> SubtractedScore(score, points) <= score
  {
  }

  /** One change of score, as the game manager applies them. */
  datatype ScoreChange = Added(points: int) | Subtracted(points: int)

  /** The score after a sequence of changes, applied first to last. */
  function ApplyChanges(score: int, changes: seq<ScoreChange>): int
  {
    if changes == [] then score
    else
      var prev := ApplyChanges(score, changes[..|changes| - 1]);
      match changes[|changes| - 1]
      case Added(p) => AddedScore(prev, p)
      case Subtracted(p) => SubtractedScore(prev, p)
  }

  /** From a non-negative score, no sequence of additions and subtractions can make
      the score negative. */
  lemma {:induction false} ScoreStaysNonNegative(score: int, changes: seq<ScoreChange>)
    requires score >= 0
    ensures ApplyChanges(score, changes) >= 0
  {
    if changes != [] {
      ScoreStaysNonNegative(score, changes[..|changes| - 1]);
    }
  }

  class Game {
    /** The session id. */
    const id: string
    const userId: string
    const createdOn: Instant
    const reelPanel: ReelPanel
    var playedWords: seq<Word>
    var score: int

    /** `Game.Create`: every field as given, with no validation. */
    constructor Create(id: string, userId: string, createdOn: Instant, reelPanel: ReelPanel,
                       playedWords: seq<Word>, score: int)
      ensures this.id == id && this.userId == userId && this.createdOn == createdOn
      ensures this.reelPanel == reelPanel && this.playedWords == playedWords && this.score == score
    {
      this.id := id;
      this.userId := userId;
      this.createdOn := createdOn;
      this.reelPanel := reelPanel;
      this.playedWords := playedWords;
      this.score := score;
    }

    /** `AddScore`: the word is always recorded with its points, whatever their sign;
        the score rises only by positive points. */
    method AddScore(points: int, word: string)
      modifies this
      ensures playedWords == old(playedWords) + [Word(word, points)]
      ensures score == AddedScore(old(score), points)
    {
      playedWords := playedWords + [Word(word, points)];
      if points > 0 {
        score := score + points;
      }
    }

    /** `SubtractScore`: the score drops by the penalty, but not below zero; the played
        words are kept. */
    method SubtractScore(points: int)
      modifies this
      ensures score == SubtractedScore(old(score), points)
      ensures playedWords == old(playedWords)
    {
      var res := score - points;
      if res <= 0 {
        score := 0;
      } else {
        score := res;
      }
    }

    /** `Shuffle`: shuffles the panel's grid (see `ReelPanel.Shuffle`). */
    method Shuffle(draws: seq<int>)
      requires reelPanel.Valid()
      requires |draws| >= |reelPanel.matrix.Cells()| - 1
      requires forall k | 0 <= k < |reelPanel.matrix.Cells()| - 1 :: 0 <= draws[k] < |reelPanel.matrix.Cells()|
      modifies reelPanel.matrix.data
      ensures reelPanel.matrix.Cells() == Swaps(old(reelPanel.matrix.Cells()), draws, |reelPanel.matrix.Cells()| - 1)
      ensures multiset(reelPanel.matrix.Cells()) == multiset(old(reelPanel.matrix.Cells()))
    {
      reelPanel.Shuffle(draws);
    }
  }

  /** `CreateNew`: a blank user id, or a missing panel or one without rows, raises an
      argument exception naming the parameter; otherwise a game starts with score 0,
      no played words, the given user and panel, and the id and time the caller
      drew. */
  method CreateNew(userId: string, reelPanel: ReelPanel?, newId: string, now: Instant) returns (r: Reply<Game>)
    ensures r.Threw? <==> IsBlank(userId) || reelPanel == null || reelPanel.RowCount() == 0
    ensures r.Threw? && IsBlank(userId) ==> r.error == "userId"
    ensures r.Threw? && !IsBlank(userId) ==> r.error == "reelPanel"
    ensures r.Ok? ==> fresh(r.value)
    ensures r.Ok? ==> r.value.score == 0 && r.value.playedWords == [] && r.value.userId == userId
    ensures r.Ok? ==> r.value.reelPanel == reelPanel && r.value.id == newId && r.value.createdOn == now
  {
    if forall i | 0 <= i < |userId| :: IsWhiteSpace(userId[i]) {
      return Threw("userId");
    }
    if reelPanel == null || reelPanel.matrix.GetLength(0) == 0 {
      return Threw("reelPanel");
    }
    var game := new Game.Create(newId, userId, now, reelPanel, [], 0);
    return Ok(game);
  }
}
