/** The mapping between a game and the record it is stored as: the id, the user, the
    creation time, the score, the played words as (value, score) pairs and the grid as
    its rows, top to bottom. */
module GameMapper {
  import opened Common
  import opened Matrices
  import opened ReelPanels
  import opened Games

  /** A played word as stored. */
  datatype WordDto = WordDto(value: string, score: int)

  /** A game as stored. */
  datatype GameDto = GameDto(id: string, user: string, reels: seq<seq<char>>, score: int,
                             createdOn: Instant, playedWords: seq<WordDto>)

  /** The message of the exception raised when the first row of an empty list is read. */
  const IndexOutOfRange: string := "Index was out of range."

  /** The played words as stored, in order. */
  function WordsToDtos(words: seq<Word>): (r: seq<WordDto>)
    ensures |r| == |words|
    ensures forall i | 0 <= i < |words| :: r[i].value == words[i].value && r[i].score == words[i].score
  {
    seq(|words|, i requires 0 <= i < |words| => WordDto(words[i].value, words[i].score))
  }

  /** The stored words as played words, in order. */
  function DtosToWords(dtos: seq<WordDto>): (r: seq<Word>)
    ensures |r| == |dtos|
    ensures forall i | 0 <= i < |dtos| :: r[i].value == dtos[i].value && r[i].score == dtos[i].score
  {
    seq(|dtos|, i requires 0 <= i < |dtos| => Word(dtos[i].value, dtos[i].score))
  }

  /** Storing the played words and reading them back gives them unchanged, and the
      other way round. */
  lemma WordsRoundTrip(words: seq<Word>, dtos: seq<WordDto>)
    ensures DtosToWords(WordsToDtos(words)) == words
    ensures WordsToDtos(DtosToWords(dtos)) == dtos
  {
  }

  /** A row of `width` blank cells. */
  function BlankRow(width: nat): (r: seq<char>)
    ensures |r| == width && forall j | 0 <= j < width :: r[j] == Blank
  {
    seq(width, j => Blank)
  }

  /** The grid `ToDomainEntity` builds from stored rows: as many columns as the first
      row; each row of that length lower-cased, each other row left blank. */
  function LoadedGrid(reels: seq<seq<char>>): (g: seq<seq<char>>)
    requires |reels| > 0
    ensures |g| == |reels| && Rectangular(g, |reels[0]|)
    ensures forall i | 0 <= i < |reels| :: g[i] == if |reels[i]| == |reels[0]| then LowerStr(reels[i]) else BlankRow(|reels[0]|)
  {
    seq(|reels|, i requires 0 <= i < |reels| =>
      if |reels[i]| == |reels[0]| then LowerStr(reels[i]) else BlankRow(|reels[0]|))
  }

  /** A grid whose rows are lower-case is rebuilt unchanged from its rows. */
  lemma LoadedGridOfLower(g: seq<seq<char>>)
    requires |g| > 0 && Rectangular(g, |g[0]|)
    requires forall i | 0 <= i < |g| :: IsLowerStr(g[i])
    ensures LoadedGrid(g) == g
  {
    forall i | 0 <= i < |g|
      ensures LoadedGrid(g)[i] == g[i]
    {
      LowerStrOfLower(g[i]);
    }
  }

  /** A stored row with a length other than the first row's is silently dropped: it
      comes back blank. */
  lemma MisfitRowBlank(reels: seq<seq<char>>, i: nat)
    requires 0 < i < |reels| && |reels[i]| != |reels[0]|
    ensures forall j | 0 <= j < |reels[0]| :: LoadedGrid(reels)[i][j] == Blank
  {
  }

  /** The grid while `ToDomainEntity` fills it: the first `k` rows loaded, the others
      still blank. */
  function LoadedPrefix(reels: seq<seq<char>>, k: nat): (g: seq<seq<char>>)
    requires |reels| > 0 && k <= |reels|
    ensures |g| == |reels| && Rectangular(g, |reels[0]|)
    ensures forall i | 0 <= i < k :: g[i] == LoadedGrid(reels)[i]
    ensures forall i | k <= i < |reels| :: g[i] == BlankRow(|reels[0]|)
  {
    var full := LoadedGrid(reels);
    var g := seq(|reels|, i requires 0 <= i < |reels| => if i < k then full[i] else BlankRow(|reels[0]|));
    assert forall r | 0 <= r < |g| :: |g[r]| == |reels[0]| by {
      forall r | 0 <= r < |g|
        ensures |g[r]| == |reels[0]|
      {
        assert r < k ==> |full[r]| == |reels[0]|;
        assert |BlankRow(|reels[0]|)| == |reels[0]|;
      }
    }
    g
  }

  /** Loading row `k` (or leaving it blank when its length does not fit) extends the
      loaded prefix by one row; all rows loaded is the loaded grid. */
  lemma LoadedPrefixStep(reels: seq<seq<char>>, k: nat)
    requires |reels| > 0 && k < |reels|
    ensures |reels[k]| == |reels[0]| ==> LoadedPrefix(reels, k)[k := LowerStr(reels[k])] == LoadedPrefix(reels, k + 1)
    ensures |reels[k]| != |reels[0]| ==> LoadedPrefix(reels, k) == LoadedPrefix(reels, k + 1)
    ensures LoadedPrefix(reels, |reels|) == LoadedGrid(reels)
  {
  }

  /** A grid whose cells are all blank is the prefix with no row loaded. */
  lemma BlankGridOf(g: seq<seq<char>>, reels: seq<seq<char>>)
    requires |g| == |reels| > 0 && Rectangular(g, |reels[0]|)
    requires forall i, j | 0 <= i < |g| && 0 <= j < |reels[0]| :: g[i][j] == Blank
    ensures g == LoadedPrefix(reels, 0)
  {
    forall i | 0 <= i < |g|
      ensures g[i] == LoadedPrefix(reels, 0)[i]
    {
    }
  }

  /** `ToDto`: a missing game raises an argument exception; otherwise the record holds
      the game's fields, its played words in order and its grid's rows in order. */
  method ToDto(game: Game?) returns (r: Reply<GameDto>)
    requires game != null ==> game.reelPanel.Valid()
    ensures r.Threw? <==> game == null
    ensures r.Threw? ==> r.error == "game"
    ensures r.Ok? ==> r.value.id == game.id && r.value.user == game.userId && r.value.createdOn == game.createdOn
    ensures r.Ok? ==> r.value.score == game.score && r.value.playedWords == WordsToDtos(game.playedWords)
    ensures r.Ok? ==> r.value.reels == game.reelPanel.Grid()
  {
    if game == null {
      return Threw("game");
    }
    var list: seq<seq<char>> := [];
    for i := 0 to game.reelPanel.matrix.GetLength(0)
      invariant list == game.reelPanel.Grid()[..i]
    {
      var row := game.reelPanel.GetReelByRow(i);
      list := list + [row[..]];
    }
    return Ok(GameDto(game.id, game.userId, list, game.score, game.createdOn, WordsToDtos(game.playedWords)));
  }

  /** `ToDomainEntity`: an empty list of rows fails on reading the first row, and a
      first row with no cells fails building the panel; otherwise a new game holds the
      record's fields and played words and a new panel holding `LoadedGrid`. */
  method ToDomainEntity(dto: GameDto) returns (r: Reply<Game>)
    ensures r.Threw? <==> |dto.reels| == 0 || |dto.reels[0]| == 0
    ensures r.Threw? && |dto.reels| == 0 ==> r.error == IndexOutOfRange
    ensures r.Threw? && |dto.reels| > 0 ==> r.error == BadDimensions
    ensures r.Ok? ==> fresh(r.value) && fresh(r.value.reelPanel.matrix.data) && r.value.reelPanel.Valid()
    ensures r.Ok? ==> r.value.id == dto.id && r.value.userId == dto.user && r.value.createdOn == dto.createdOn
    ensures r.Ok? ==> r.value.score == dto.score && r.value.playedWords == DtosToWords(dto.playedWords)
    ensures r.Ok? ==> r.value.reelPanel.Grid() == LoadedGrid(dto.reels)
  {
    if |dto.reels| == 0 {
      return Threw(IndexOutOfRange);
    }
    var rows := |dto.reels|;
    var columns := |dto.reels[0]|;
    var created := CreateEmpty(rows, columns);
    if created.Threw? {
      return Threw(created.error);
    }
    var panel := created.value;
    BlankGridOf(panel.Grid(), dto.reels);
    for idx := 0 to rows
      invariant panel.Valid() && panel.RowCount() == rows && panel.ColumnCount() == columns
      invariant panel.Grid() == LoadedPrefix(dto.reels, idx)
    {
      var reel := dto.reels[idx];
      var chars := new char[|reel|](j requires 0 <= j < |reel| => reel[j]);
      assert chars[..] == reel;
      panel.AddReel(idx, chars);
      LoadedPrefixStep(dto.reels, idx);
    }
    var game := new Game.Create(dto.id, dto.user, dto.createdOn, panel, DtosToWords(dto.playedWords), dto.score);
    return Ok(game);
  }

  /** Storing a game and loading it back gives a new game with the same id, user,
      creation time, score, played words and grid, provided the grid is in lower case
      (loading lower-cases every row). */
  method RoundTrip(game: Game) returns (loaded: Reply<Game>)
    requires game.reelPanel.Valid()
    requires forall i | 0 <= i < game.reelPanel.RowCount() :: IsLowerStr(game.reelPanel.Row(i))
    ensures loaded.Ok? && fresh(loaded.value)
    ensures loaded.value.id == game.id && loaded.value.userId == game.userId
    ensures loaded.value.createdOn == game.createdOn && loaded.value.score == game.score
    ensures loaded.value.playedWords == game.playedWords
    ensures loaded.value.reelPanel.Grid() == game.reelPanel.Grid()
  {
    var dto := ToDto(game);
    WordsRoundTrip(game.playedWords, []);
    ghost var g := game.reelPanel.Grid();
    assert g[0] == game.reelPanel.Row(0);
    LoadedGridOfLower(g);
    loaded := ToDomainEntity(dto.value);
  }
}
