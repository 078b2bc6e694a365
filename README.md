# ReelWords in Dafny

A verified model of the core of ReelWords, a console word game. The player sees a
panel of letter reels (a grid of letters) and forms words from the letters of the
bottom reel. A word scores the sum of its letters' points when it is written in
English letters, can be formed from the bottom reel, and is in the dictionary. The
letters used then scroll down their columns. A shuffle rearranges the whole panel and
costs a penalty, and the score never drops below zero.

The model follows the program's components one module each:

| module | file | what it models |
|---|---|---|
| `Common` | common.dfy | `Option`, `Reply` (a value or the message of an exception), ASCII lower-casing, white space, case-insensitive comparison |
| `Tries` | trie.dfy | `CharNode` and `Trie` as classes over mutable child maps, with a ghost map from each path to its node |
| `TrieProperties` | trie_properties.dfy | the dictionary's tested scenarios: node counts after insert and delete, and search results |
| `Matrices` | matrices.dfy | `Matrix<T>` over a 2-D array, with row-major Fisher–Yates `Shuffle` fed by a sequence of draws |
| `CharExtensions` | char_extensions.dfy | `RemoveLastFoundItem` and `GetLastCharIndexesOfWord` over arrays |
| `ReelPanels` | reel_panels.dfy | `ReelPanel`: adding reels, checking a word against the bottom reel, and scrolling columns |
| `Games` | games.dfy | the `Game` aggregate: score floored at zero, and an append-only list of played words |
| `ValidChars` | valid_chars.dfy | the alphabet table used by both classifiers |
| `Commands` | commands.dfy | the outcomes of a prompt (`ExitGameCommand`, `ShuffleCommand`, …) as one datatype, and the keywords |
| `PlayRound` | play_round.dfy | the round prompt's first-match classifier and its score loop |
| `GetUser` | get_user.dfy | the user-name prompt's classifier |
| `Settings` | settings.dfy | `int.TryParse` of the two configuration values, with their defaults |
| `GameManager` | game_manager.dfy | `ReelWordsGameManager`: the command handler and the prompt loops, as a class and as a pure reference |
| `GameMapper` | game_mapper.dfy | the conversion between a game and its stored record |

Imperative code stays imperative: tries, grids, panels, games and the manager are
classes whose methods update fields and arrays. Each such method is proved against a
ghost view: the trie's set of `words`, the panel's `Grid()`, the matrix's row-major
`Cells()` and the manager's `State()`. The properties the program promises are then
proved about those views. The two prompts are pure functions of what they read, with
input, the save-prompt answer and the score table passed as parameters. Reading those
inputs may raise an exception, which is modelled as a `Threw` reply.

## Model

| member | source | states |
|---|---|---|
| `Tries.CharNode.constructor` | Source/Scopely.Core/Structures/CharNode.cs:5-9 | a new node has no children and is not the end of a word |
| `Tries.CharNode.CreateChild` | Source/Scopely.Core/Structures/CharNode.cs:16-20 | for an absent lower-cased key, a fresh empty node is added under it; nothing else changes |
| `Tries.CharNode.SetIsEndOfWord` | Source/Scopely.Core/Structures/CharNode.cs:22-23 | only the end-of-word flag changes |
| `Tries.CharNode.RemoveChildNode` | Source/Scopely.Core/Structures/CharNode.cs:25-26 | the lower-cased key is dropped with its subtree; an absent key changes nothing |
| `Tries.CharNode.GetTotalChildNodesCount` | Source/Scopely.Core/Structures/CharNode.cs:28-34 | the recursive count equals the number of paths strictly below the node |
| `Tries.BelowStep` | Source/Scopely.Core/Structures/CharNode.cs:31-32 | counting one more child adds that child and its whole subtree, and the subtree is strictly smaller |
| `Tries.BelowViaAll` | Source/Scopely.Core/Structures/CharNode.cs:30-33 | once every child key is counted, every path below the node is counted |
| `Tries.BelowRoot` | Source/Scopely.Core/Structures/CharNode.cs:28-34 | below the root lie all paths but the empty one, so the root's count is the number of nodes minus one |
| `Tries.Trie.constructor` | Source/Scopely.Core/Structures/Trie.cs:5 | a new trie has the root only and stores no word |
| `Tries.Trie.Insert` | Source/Scopely.Core/Structures/Trie.cs:14-32 | an empty word changes nothing; otherwise the lower-cased word is added to the words, the new paths are exactly its missing prefixes, and existing nodes are reused |
| `Tries.Trie.Search` | Source/Scopely.Core/Structures/Trie.cs:34-48 | found exactly when the lower-cased word is a stored word, so the empty word, a broken path and a bare prefix are not found |
| `Tries.Trie.Delete` | Source/Scopely.Core/Structures/Trie.cs:50-79 | true exactly when the word is non-empty and its path exists; the word leaves the words and every other word stays; the removed paths are exactly those below the last key node on the word's path, and only when the word's node has no children |
| `Tries.Trie.UnmarkAndPrune` | Source/Scopely.Core/Structures/Trie.cs:71-76 | unmarking the word and pruning below the last key node removes the word and exactly the pruned paths |
| `Tries.Trie.RemoveSubtree` | Source/Scopely.Core/Structures/Trie.cs:76 | removing a child of a node removes exactly the paths through it and no word |
| `Tries.Trie.LastKeyDepthBounds` | Source/Scopely.Core/Structures/Trie.cs:57-62 | the last key node before depth i lies above it, and no node between them is a key node |
| `Tries.CreateFromListOfWords` | Source/Scopely.Core/Structures/Trie.cs:7-12 | the stored words are exactly the lower-cased non-empty words of the list |
| `TrieProperties.SoleWordPruned` | Source/Scopely.Core/Structures/Trie.cs:61-76 | deleting the only word prunes every path but the root |
| `TrieProperties.LongerWordPruned` | Source/Scopely.Core/Structures/Trie.cs:61-76 | deleting a word that extends another stored word prunes only the part below the shorter word |
| `TrieProperties.SiblingPruned` | Source/Scopely.Core/Structures/Trie.cs:61-76 | deleting one of two words that differ only in their last letter prunes only that last node |
| `TrieProperties.PrefixOfPathPruned` | Source/Scopely.Core/Structures/Trie.cs:75-76 | deleting a word whose node has children prunes nothing |
| `TrieProperties.FindChildIgnoresCase` | Source/Scopely.Core/Structures/CharNode.cs:11-14 | looking up a letter and its lower-case form finds the same child |
| `TrieProperties.CountAll` | Source/Scopely.Core/Structures/CharNode.cs:28-34 | the root's recursive count is the number of nodes below the root |
| `TrieProperties.InsertEmpty` | Test/Scopely.Core.Tests/ValueObjects/TrieTests.cs:8-15 | inserting the empty word creates no node |
| `TrieProperties.InsertCat` | Test/Scopely.Core.Tests/ValueObjects/TrieTests.cs:18-25 | "cat" alone gives three nodes below the root, and it is found |
| `TrieProperties.InsertUpUpload` | Test/Scopely.Core.Tests/ValueObjects/TrieTests.cs:28-41 | "up" then "upload" share nodes: six below the root |
| `TrieProperties.SearchMissing` | Test/Scopely.Core.Tests/ValueObjects/TrieTests.cs:53-58 | a word that was never inserted is not found |
| `TrieProperties.DeleteMissing` | Source/Scopely.Core/Structures/Trie.cs:50-66 | deleting the empty word, or a word whose path breaks, returns false |
| `TrieProperties.DeleteOnlyWord` | Test/Scopely.Core.Tests/ValueObjects/TrieTests.cs:69-79 | deleting the only word empties the trie |
| `TrieProperties.DeleteBesideSibling` | Test/Scopely.Core.Tests/ValueObjects/TrieTests.cs:82-94 | with "car" and "can", deleting "car" keeps "can" and three nodes |
| `TrieProperties.DeleteLongerWord` | Test/Scopely.Core.Tests/ValueObjects/TrieTests.cs:97-109 | with "car" and "cartoon", deleting "cartoon" keeps "car" and three nodes |
| `TrieProperties.DeleteShorterWord` | Test/Scopely.Core.Tests/ValueObjects/TrieTests.cs:112-124 | with "car" and "cartoon", deleting "car" keeps "cartoon" and seven nodes |
| `TrieProperties.CreateThenFind` | Source/Scopely.Core/Structures/CharNode.cs:16-20 | a created child is the one found afterwards, and the child count rises to one |
| `TrieProperties.SearchAfterCreate` | Source/Scopely.Core/Structures/Trie.cs:7-12 | every non-empty word of the list is found in the trie built from it |
| `TrieProperties.DeleteKeepsOthers` | Source/Scopely.Core/Structures/Trie.cs:50-79 | deleting one listed word makes it unfound and leaves any other listed word found |
| `Matrices.NewMatrix` | Source/Scopely.Core/Structures/Matrix.cs:7-13 | construction fails with the dimension message unless both dimensions are positive, and otherwise has those dimensions |
| `Matrices.Matrix.constructor` | Source/Scopely.Core/Structures/Matrix.cs:7-13 | a grid of the given dimensions with every cell holding the default value |
| `Matrices.Matrix.Get` | Source/Scopely.Core/Structures/Matrix.cs:15-17 | the indexer's getter returns the cell at flat index row × columns + column of the row-major cells |
| `Matrices.Matrix.Set` | Source/Scopely.Core/Structures/Matrix.cs:15-19 | the written cell holds the value and every other cell is unchanged |
| `Matrices.Matrix.GetLength` | Source/Scopely.Core/Structures/Matrix.cs:21 | dimension 0 is the number of rows and dimension 1 the number of columns |
| `Matrices.Matrix.CellOf` | Source/Scopely.Core/Structures/Matrix.cs:34-37 | flat index k is the cell at row k / columns and column k % columns (row-major) |
| `Matrices.RowMajor` | Source/Scopely.Core/Structures/Matrix.cs:34-37 | the flat index of a cell maps back to that same row and column |
| `Matrices.Matrix.SwapCells` | Source/Scopely.Core/Structures/Matrix.cs:34-39 | the swap exchanges the two flat positions and no other cell |
| `Matrices.Matrix.Shuffle` | Source/Scopely.Core/Structures/Matrix.cs:23-41 | the cells become the N−1 swaps of Fisher–Yates with the given draws, and they are a permutation of the old cells |
| `Matrices.SwapsPermute` | Source/Scopely.Core/Structures/Matrix.cs:30-40 | any number of swaps keeps the multiset of cells |
| `Matrices.OneCellShuffle` | Source/Scopely.Core/Structures/Matrix.cs:30 | a one-cell grid makes no swap, so it is unchanged |
| `Matrices.ShuffleTwoByTwo` | Test/Scopely.Core.Tests/ValueObjects/MatrixTests.cs:9-25 | [[1,2],[3,4]] with draws 3, 2, 1, 0 becomes [[4,2],[3,1]] |
| `CharExtensions.LastIndexOf` | Source/Scopely.Core/Extensions/CharExtensions.cs:7 | −1 exactly when the item is absent, otherwise the index of its last occurrence |
| `CharExtensions.RemoveLastFoundItem` | Source/Scopely.Core/Extensions/CharExtensions.cs:5-19 | returns the last index of the item; when absent nothing changes; otherwise the resized array is the old one without that index, in order |
| `CharExtensions.RemoveAtMultiset` | Source/Scopely.Core/Extensions/CharExtensions.cs:11-14 | removing an index removes exactly one copy of its item |
| `CharExtensions.RemoveFromAbc` | Test/Scopely.Core.Tests/Extensions/CharExtensionsTests.cs:10-30 | an absent letter gives −1 and leaves the array; a present one gives its index and the rest of the array |
| `CharExtensions.LastFreeMatch` | Source/Scopely.Core/Extensions/CharExtensions.cs:26-34 | the scan from the right returns the greatest index whose letter matches ignoring case and that is not chosen yet, or −1 |
| `CharExtensions.LastIndexes` | Source/Scopely.Core/Extensions/CharExtensions.cs:21-37 | the chosen indexes are in bounds, pairwise distinct and at most one per letter of the word |
| `CharExtensions.LastIndexesBounded` | Source/Scopely.Core/Extensions/CharExtensions.cs:21-37 | there are never more chosen indexes than cells |
| `CharExtensions.ChosenHoldLetters` | Source/Scopely.Core/Extensions/CharExtensions.cs:28-31 | every chosen index holds, ignoring case, a letter of the word |
| `CharExtensions.AllLettersFound` | Source/Scopely.Core/Extensions/CharExtensions.cs:24-35 | when the reel holds the word's letters (ignoring case), every letter gets an index, in order, holding that letter |
| `CharExtensions.GetLastCharIndexesOfWord` | Source/Scopely.Core/Extensions/CharExtensions.cs:21-37 | the nested loops return exactly `LastIndexes` of the array |
| `CharExtensions.AvacaCava` | Test/Scopely.Core.Tests/Extensions/CharExtensionsTests.cs:33-42 | "avaca" with "cava" gives [3, 4, 1, 2] |
| `ReelPanels.CreateEmpty` | Source/ReelWords.Domain/ValueObjects/ReelPanel.cs:15-19 | fails with the grid's dimension message unless both dimensions are positive; otherwise every cell is blank |
| `ReelPanels.ReelPanel.AddReel` | Source/ReelWords.Domain/ValueObjects/ReelPanel.cs:21-28 | a null array or one of the wrong length changes nothing; otherwise that row becomes the lower-cased letters and no other row changes |
| `ReelPanels.ConsumeLetters` | Source/ReelWords.Domain/ValueObjects/ReelPanel.cs:46-52 | removing the word's letters one by one succeeds exactly when the word's multiset fits in the row's (exact comparison) |
| `ReelPanels.ReelPanel.CheckWord` | Source/ReelWords.Domain/ValueObjects/ReelPanel.cs:37-53 | true exactly when the word is not blank and its letters, counted with case, fit in the bottom row; the grid is not changed |
| `ReelPanels.ReelPanel.GetReelByRow` | Source/ReelWords.Domain/ValueObjects/ReelPanel.cs:70-76 | a fresh array holding the row |
| `ReelPanels.ReelPanel.GetCurrentReel` | Source/ReelWords.Domain/ValueObjects/ReelPanel.cs:55 | a fresh array holding the bottom row |
| `ReelPanels.ReelPanel.ScrollColumnOf` | Source/ReelWords.Domain/ValueObjects/ReelPanel.cs:63-66 | the column rotates down by one: row r takes row r−1 and row 0 takes the bottom row; other columns are unchanged |
| `ReelPanels.ReelPanel.ScrollLetters` | Source/ReelWords.Domain/ValueObjects/ReelPanel.cs:57-68 | the grid becomes the old grid with every column chosen by `GetLastCharIndexesOfWord` on the old bottom row rotated once |
| `ReelPanels.ScrollColumnsCells` | Source/ReelWords.Domain/ValueObjects/ReelPanel.cs:59-66 | after scrolling, a chosen column holds the cell above (circularly) and an unchosen one is unchanged |
| `ReelPanels.ScrolledColumn` | Source/ReelWords.Domain/ValueObjects/ReelPanel.cs:63-66 | a chosen column is its old contents rotated by one, and an unchosen one is unchanged |
| `ReelPanels.ScrollKeepsColumnLetters` | Source/ReelWords.Domain/ValueObjects/ReelPanel.cs:63-66 | scrolling keeps each column's multiset of letters |
| `ReelPanels.ScrollOneRow` | Source/ReelWords.Domain/ValueObjects/ReelPanel.cs:63-66 | on a one-row panel scrolling changes nothing |
| `ReelPanels.ReelPanel.Shuffle` | Source/ReelWords.Domain/ValueObjects/ReelPanel.cs:30 | the panel's cells are shuffled as the grid's, a permutation |
| `ReelPanels.ScrollYaw` | Test/ReelWords.Domain.Tests/ValueObjects/ReelPanelTests.cs:8-46 | rows "umbn" and "yayw" scrolled for "yaw" become "uayw" and "ymbn" |
| `ReelPanels.ScrollWee` | Test/ReelWords.Domain.Tests/ValueObjects/ReelPanelTests.cs:8-46 | rows "amca" and "ewre" scrolled for "wee" become "ewce" and "amra" |
| `Games.CreateNew` | Source/ReelWords.Domain/Entities/Game.cs:22-40 | fails on a blank user id, then on a missing or rowless panel; otherwise a fresh game with score 0, no played words, the given user and panel, and the supplied id and time |
| `Games.Game.Create` | Source/ReelWords.Domain/Entities/Game.cs:42-57 | every field is stored as given, with no validation |
| `Games.Game.AddScore` | Source/ReelWords.Domain/Entities/Game.cs:59-64 | the word is appended with its points whatever their sign, and the score rises by them only when they are positive |
| `Games.Game.SubtractScore` | Source/ReelWords.Domain/Entities/Game.cs:66-73 | the score becomes the difference, floored at zero; the played words are unchanged |
| `Games.AddNeverLowers` | Source/ReelWords.Domain/Entities/Game.cs:62-63 | adding never lowers the score, and raises it exactly for positive points |
| `Games.SubtractFloorsAtZero` | Source/ReelWords.Domain/Entities/Game.cs:68-72 | subtracting never goes below zero, gives zero exactly when the points reach the score, and otherwise subtracts exactly |
| `Games.ScoreStaysNonNegative` | Source/ReelWords.Domain/Entities/Game.cs:59-73 | any sequence of additions and subtractions from a non-negative score stays non-negative |
| `Games.Game.Shuffle` | Source/ReelWords.Domain/Entities/Game.cs:75 | the game's panel is shuffled, a permutation of its cells |
| `ValidChars.Get` | Source/ReelWords.Domain/Factories/ValidCharsFactory.cs:14-20 | every alphabet the table can return, and the empty fallback, is made of ASCII letters only |
| `ValidChars.EnglishIsAsciiLetters` | Source/ReelWords.Domain/Factories/ValidCharsFactory.cs:11 | the English alphabet has 52 characters, and a character is in it exactly when it is an ASCII letter |
| `ValidChars.NoAlphabet` | Source/ReelWords.Domain/Factories/ValidCharsFactory.cs:16-19 | no language and Spanish both get the empty string |
| `ValidChars.NotEnglishLetters` | Source/ReelWords.Domain/Factories/ValidCharsFactory.cs:11 | digits, the space and '*' are not English letters |
| `ValidChars.InEnglishIffAsciiLetters` | Source/ReelWords/UseCases/Implementations/PlayRoundUseCase.cs:70-72 | a word passes the alphabet check exactly when all its characters are ASCII letters |
| `Commands.KeywordMarker` | Source/ReelWords/Constants/UserKeyWords.cs:5-8 | a word equal to a keyword, ignoring case, starts with '*' |
| `Commands.KeywordsDistinct` | Source/ReelWords/Constants/UserKeyWords.cs:5-8 | no word matches two keywords |
| `PlayRound.SpecialInput` | Source/ReelWords/UseCases/Implementations/PlayRoundUseCase.cs:51-66 | "*exit" gives Exit with the save answer (or the error from asking), "*mix" Shuffle, "*words" ShowWords, "*help" Help, all ignoring case; anything else gives nothing |
| `PlayRound.KeywordsNotEnglish` | Source/ReelWords/UseCases/Implementations/PlayRoundUseCase.cs:38-42 | a keyword could never pass the alphabet check, so checking keywords first hides no word |
| `PlayRound.ValidateWord` | Source/ReelWords/UseCases/Implementations/PlayRoundUseCase.cs:68-81 | no reason exactly when the word is in English letters, fits the bottom reel and is in the dictionary; otherwise a language, reel or dictionary reason |
| `PlayRound.CheckOrder` | Source/ReelWords/UseCases/Implementations/PlayRoundUseCase.cs:70-78 | the alphabet check comes before the reel check, and the reel check before the dictionary check |
| `PlayRound.PointsAppend` | Source/ReelWords/UseCases/Implementations/PlayRoundUseCase.cs:87-89 | the points of two joined words are the sum of their points |
| `PlayRound.PointsBounds` | Source/ReelWords/UseCases/Implementations/PlayRoundUseCase.cs:88-89 | with non-negative scores the points are non-negative, and letters missing from the table give zero |
| `PlayRound.CalculateScore` | Source/ReelWords/UseCases/Implementations/PlayRoundUseCase.cs:83-92 | the loop sums the table score of each letter found in the table |
| `PlayRound.SubmittedWordIsPlayable` | Source/ReelWords/UseCases/Implementations/PlayRoundUseCase.cs:30-49 | a word is submitted exactly when it was read, the scores were read, and it passes all three checks; it is submitted unchanged with its points |
| `PlayRound.Classify` | Source/ReelWords/UseCases/Implementations/PlayRoundUseCase.cs:30-49 | an exception reading the line becomes an unexpected error with its message; a submitted word is the line as typed, the score table was read, and it passed the alphabet, reel and dictionary checks |
| `PlayRound.KeywordsFirst` | Source/ReelWords/UseCases/Implementations/PlayRoundUseCase.cs:38-40 | a keyword gives its special outcome before any validation |
| `PlayRound.RoundOutcomes` | Source/ReelWords/UseCases/Implementations/PlayRoundUseCase.cs:30-49 | the round prompt never gives a user name or a wrong-name outcome |
| `PlayRound.Execute` | Source/ReelWords/UseCases/Implementations/PlayRoundUseCase.cs:30-49 | the outcome is the classification of the input against the bottom reel and the stored words; the panel is not changed |
| `PlayRound.NoWordRefused` | Test/ReelWordsTests/Main/PlayRoundUseCaseUseCaseTests.cs:71-88 | an empty or missing word is refused as empty, and an exception while reading becomes an unexpected error |
| `PlayRound.KeywordTests` | Test/ReelWordsTests/Main/PlayRoundUseCaseUseCaseTests.cs:25-69 | "*exit" in any case gives Exit with the answer; "*mix" and "*words" give Shuffle and ShowWords |
| `PlayRound.RoundTests` | Test/ReelWordsTests/Main/PlayRoundUseCaseUseCaseTests.cs:90-148 | on reel "tca": "123" is refused for its language, "xxx" by the reel and "ca" by the dictionary, and "cat" is submitted for 6 points |
| `PlayRound.UpperCaseRefusedByReel` | Source/ReelWords.Domain/ValueObjects/ReelPanel.cs:46-49 | "CAT" passes the alphabet check but is refused by a reel without a capital C |
| `GetUser.NameSpecialInput` | Source/ReelWords/UseCases/Implementations/GetUserUseCase.cs:40-49 | only "*exit" and "*help" are keywords at the name prompt |
| `GetUser.ClassifyName` | Source/ReelWords/UseCases/Implementations/GetUserUseCase.cs:21-37 | an exception reading the line becomes an unexpected error with its message; an accepted name is the line as typed and is in English letters; the name prompt never gives a round outcome (shuffle, show words, invalid or submitted word) |
| `GetUser.AcceptedNames` | Source/ReelWords/UseCases/Implementations/GetUserUseCase.cs:21-59 | a name is accepted exactly when a line was read and it is all ASCII letters, and it is kept unchanged; any other outcome is a keyword's, a wrong name or an error |
| `GetUser.KeywordNameTests` | Test/ReelWordsTests/Main/GetUserUseCaseTests.cs:13-39 | "*exit" gives Exit with the answer and "*help" gives Help |
| `GetUser.StarNameRefused` | Test/ReelWordsTests/Main/GetUserUseCaseTests.cs:42-53 | "*hello" is refused as a user name |
| `GetUser.PlainNameAccepted` | Source/ReelWords/UseCases/Implementations/GetUserUseCase.cs:25-37 | "martha" is accepted as typed, and a missing line becomes an unexpected error |
| `Settings.TryParseInt` | Source/ReelWords/Main/ReelWordsGameManager.cs:63-64 | a parsed value always fits a 32-bit signed integer, and a missing value does not parse |
| `Settings.Setting` | Source/ReelWords/Main/ReelWordsGameManager.cs:63-64 | a missing setting gives the default, and any other result is the default or a 32-bit value |
| `Settings.ParseDecimal` | Source/ReelWords/Main/ReelWordsGameManager.cs:63-64 | every 32-bit value written in decimal parses back to itself |
| `Settings.MissingSettings` | Source/ReelWords/Main/ReelWordsGameManager.cs:63-64 | missing settings give word size 7 and penalty 2 |
| `Settings.UnparsableSettings` | Source/ReelWords/Main/ReelWordsGameManager.cs:63-64 | "seven" and "" do not parse and give the defaults |
| `Settings.ConfiguredSettings` | Test/ReelWordsTests/TestFixture/ReelWordsFixture.cs:37-48 | the fixture's "3" gives 3 and its "2" gives 2; " 2 " also gives 2 once the spaces are skipped |
| `GameManager.Handle` | Source/ReelWords/Main/ReelWordsGameManager.cs:125-168 | a handled command keeps whether there is a game, keeps the played words as a prefix and adds at most one, adds at most one save, and a stop sets the exit flag |
| `GameManager.HandleProperties` | Source/ReelWords/Main/ReelWordsGameManager.cs:125-168 | only Exit stops; unexpected errors, and game commands without a game, raise; played words only grow, a non-negative score stays so, saves count the exits that ask to save, and only UserName and Exit change the user and the exit flag |
| `GameManager.Loop` | Source/ReelWords/Main/ReelWordsGameManager.cs:99-123 | a loop that completes keeps whether there is a game, keeps the played words as a prefix, adds at most one word and one save per command, and a stopped loop has set the exit flag |
| `GameManager.LoopKeepsScore` | Source/ReelWords/Main/ReelWordsGameManager.cs:99-112 | a round loop never makes a non-negative score negative |
| `GameManager.LoopStopsOnExit` | Source/ReelWords/Main/ReelWordsGameManager.cs:99-112 | with a game and no unexpected error, the round loop stops exactly when an Exit comes |
| `GameManager.CompleteGameTest` | Test/ReelWordsTests/Main/ReelWordsGameManagerTests.cs:27-81 | a name, three refused words, "cat" for 6 and an exit that saves give score 6, one played word, one save and a stop |
| `GameManager.ExitAtStartTest` | Test/ReelWordsTests/Main/ReelWordsGameManagerTests.cs:84-134 | an exit at the name prompt stops without a save |
| `GameManager.Manager.constructor` | Source/ReelWords/Main/ReelWordsGameManager.cs:40-65 | the word size and the penalty are the configured values or 7 and 2; no user, no game, no exit |
| `GameManager.Manager.CommandHandler` | Source/ReelWords/Main/ReelWordsGameManager.cs:125-168 | the new state and the stop flag are those of `Handle`, or the state is unchanged with the exception; a shuffle shuffles the grid, a submitted word scrolls its columns, and other commands leave the grid alone |
| `GameManager.Manager.RunLoop` | Source/ReelWords/Main/ReelWordsGameManager.cs:99-123 | the handler loop ends in the state and stop flag of `Loop` |
| `GameMapper.WordsRoundTrip` | Source/ReelWords.Infrastructure/Mappers/GameMapper.cs:24-28 | played words stored and read back are unchanged, and so are stored words read and stored again |
| `GameMapper.LoadedGrid` | Source/ReelWords.Infrastructure/Mappers/GameMapper.cs:35-39 | as many columns as the first row; a row of that length is lower-cased, any other row stays blank |
| `GameMapper.LoadedGridOfLower` | Source/ReelWords.Infrastructure/Mappers/GameMapper.cs:35-39 | a lower-case rectangular grid is rebuilt unchanged |
| `GameMapper.MisfitRowBlank` | Source/ReelWords.Infrastructure/Mappers/GameMapper.cs:38-39 | a stored row of the wrong length comes back blank |
| `GameMapper.ToDto` | Source/ReelWords.Infrastructure/Mappers/GameMapper.cs:9-31 | a missing game raises; otherwise the record holds the id, user, time, score, the played words in order and the grid's rows in order |
| `GameMapper.ToDomainEntity` | Source/ReelWords.Infrastructure/Mappers/GameMapper.cs:33-48 | no rows or an empty first row raise; otherwise a fresh game holds the record's fields and words, and its panel holds `LoadedGrid` |
| `GameMapper.RoundTrip` | Source/ReelWords.Infrastructure/Mappers/GameMapper.cs:9-48 | storing and loading a game with a lower-case grid gives the same id, user, time, score, played words and grid |

## Left out

- Console I/O, colours, logging and the process entry point are not part of this model. What the prompts read becomes a parameter: the typed line, the save-prompt answer and the score table. Each is a `Reply`, so a failed read is an exception message.
- File storage and JSON serialisation (the game repository, the file services) are left out. `GameMapper` stops at the record.
- `Start`, `LoadGameData`, `GetSavedGame`, `CreateNewGame` and `Save` in ReelWordsGameManager.cs call use cases that read and write files, and they are not modelled. The manager's state records that a game exists (`hasGame`), and it counts save requests rather than performing them.
- Randomness is a parameter. `Matrix.Shuffle` takes one draw per step. `Game.CreateNew` takes the new id and the creation time, which the source takes from `Guid.NewGuid()` and `DateTime.Now`.
- `char.ToLower` and case-insensitive comparison are modelled for ASCII letters only. Other characters are left as they are.
- Exceptions are modelled by their message strings (`Reply.Threw`), not by their .NET types. A null `Trie`, `Game` or panel passed where the source does not check for one is not modelled. The null-reference exceptions the source would raise in those places are not modelled either.
- Tries.CharNode.CreateChild: requires the lower-cased key to be absent, where `Dictionary.Add` throws on a duplicate key; `Trie.Insert`, its only caller, creates a child only after `FindChild` found none.
- Matrices.Matrix.Get: requires the cell to be in range, where the matrix indexer throws; every caller indexes inside the grid.
- Matrices.Matrix.Set: requires the cell to be in range, where the matrix indexer throws; every caller indexes inside the grid.
- ReelPanels.ReelPanel.AddReel: requires the row to lie inside the grid, where the source throws on a row outside it when the array length fits; every caller (the mapper and the panel file service) passes rows 0 to the row count minus one.
- ReelPanels.ReelPanel.GetReelByRow: requires a valid row, where the source throws on a bad row; every caller (the mapper and `ToString`) passes rows 0 to the row count minus one.
- The shown `Matrix.Shuffle()` takes no random source, while its test passes one. The model follows the test and takes the draws as a parameter.
- `RemoveLastFoundItem` takes its array by value, while `CheckWord` passes it by reference. The model returns the resized array, which is the by-reference behaviour `CheckWord` relies on.
- The stored record of a game declares no `PlayedWords`, yet the mapper fills them. The model's `GameDto` holds them.
- `Messages.EmptyWordLanguage` and `Messages.InvalidUserName` are used but not declared in Messages.cs. The outcomes carry a `Reason` instead of message text, and no message text is modelled.
- The tests call the round prompt `PlayRound`; the implementation calls it `Execute`. The model follows the implementation (`PlayRound.Execute`).
- GameManager.Manager.RunLoop: the loop ends when the given commands run out, where the program would block for more input. The grid effects are stated per handler call (`CommandHandler`), not for the whole loop.
- `Trie.CreateFromListOfWords` with a null word in the list, and `ToDomainEntity` with a null row list or null rows, are not modelled. A null row would be skipped, like a row of the wrong length.
- The letter-score service is declared with `GetAll()` returning letters keyed by character, while `PlayRoundUseCase` and its tests call `Get()` and use a map from character to points. The model follows the use case and the tests: the score table is a `map<char, int>`.
- `PlayRound.Points` and `Games.Game.AddScore` use unbounded integers. The source's 32-bit `int` could wrap on enormous score tables, and that is not modelled.
- Settings.TrimStart: white space is modelled exactly as `int.TryParse` with integer number style skips it: tab to carriage return and the space. Two quirks of .NET parsing are not modelled: trailing `'\0'` characters are accepted, and the sign symbols come from the current culture (the model accepts `+` and `-` only).
