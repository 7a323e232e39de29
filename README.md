# Wordle game engine of wordlebot, in Dafny

This project models the game engine of wordlebot, a Telegram bot that plays
Wordle. A player guesses words against a hidden target word. Each guess gets one
mark per letter: `Correct`, `CorrectButWrongPosition` or `Wrong`. The game is won
when the target is guessed. It is lost after six guesses that miss.

The repository has the engine twice, and both versions are modelled:

- `src/wordle.rs` (module `WordleEngine`) is the newer engine. Its `assess`
  works in two passes. Pass 1 marks each position and counts, per letter, how
  many marks claim that the letter is in the target. Pass 2 walks left to right.
  It demotes `CorrectButWrongPosition` marks of a letter to `Wrong` while that
  letter's claim counter is above the letter's count in the target.
- `src/game.rs` (module `GameEngine`) is the engine the bot compiles. Its
  `assess` is the single positional pass, with no budget for repeated letters.

Both files declare the same `State`, `Letter`, rendered `Game`, status rule and
`attempted_letters`. These are defined once, in module `Board` (`board.dfy`),
together with the positional marking that both assessors share and the letter
counts in which the duplicate rule is stated. `wordle_test.dfy` holds the
repository's own test case and more worked assessments. `comparison.dfy`
relates the two assessors.

How the model is built:

- `Wordle` is a class in each engine module. It has the source's two public
  fields, `targetWord` and `attempts`. `PlayTurn` is the only method that changes
  it, by appending to `attempts`.
- `Valid()` is the invariant of every game built by `New` and changed only by
  `PlayTurn`. It says the target has at least 3 upper-case characters, there are
  at most 6 attempts, each attempt is upper-case with the target's length, and no
  attempt comes after one equal to the target. `New` establishes it and
  `PlayTurn` keeps it.
- `PlayTurn` does not require `Valid()`, because the source accepts any stored
  record. A record whose attempts have the wrong length makes the view fail, and
  `PlayTurn` passes that failure on, as the source's `self.game()?` does.
- Each `assess` is a pure specification function (`AssessTwoPass`,
  `AssessSinglePass`) and a `Wordle.Assess` method that computes it as the
  source does. The two-pass method runs the counting fold, pass 1 and pass 2
  (`CountLetters`, `MarkPositions`, `DemoteOverclaimed`), with maps as the
  letter counters.
- `game` is the pure function `GameView` of the stored pair (target, attempts).
  Restoring a persisted record with the constructor therefore yields the same
  view and the same status.

Two consequences of the code that the proofs make explicit:

- Pass 2 demotes the leftmost wrong-position marks of an overclaimed letter and
  keeps the later ones (`DemotionIsLeftmost`). Exact matches anywhere in the guess
  are served first, because the counter already includes them (`HelloLolly`).
  The common Wordle convention keeps the leftmost wrong-position mark instead.
  The model follows the code.
- For target ERASE and guess ELOPE both Es are `Correct`, since ERASE also ends
  in E (`EraseElope`).

## Model

| member | source | states |
|---|---|---|
| Board.ToUpperIdempotent | src/wordle.rs:156-166 | upper-casing a stored, already upper-cased attempt changes nothing, so re-assessing it in `game` assesses the submitted word |
| Board.ClassifiedClaims | src/wordle.rs:116-129 | pass 1 claims a letter once per guessed occurrence if the target contains it, and never otherwise |
| Board.ExactWithinTarget | src/wordle.rs:119-121 | a letter is never marked `Correct` more often than the target contains it |
| Board.Classify | src/wordle.rs:117-129 | the mark of one guessed letter carries it, and is `Correct` iff it is the target's letter there, `CorrectButWrongPosition` iff the target has it but not there, `Wrong` iff the target lacks it |
| Board.Classified | src/game.rs:84-94 | one positional mark per letter of the upper-cased guess, carrying that letter, `Correct` iff it matches the target there and `Wrong` iff the target lacks it |
| Board.Status | src/wordle.rs:80-86 | `Won` iff the target is among the attempts, `Lost` iff it is not and there are 6 or more, `Playing` otherwise |
| Board.AppendKeepsWellFormed | src/wordle.rs:155-168 | appending an upper-cased word of the target's length to a game still `Playing` keeps at most 6 attempts and none after a win |
| Board.WonEndsWithTarget | src/wordle.rs:80-81 | in a game played from `new`, a won game's last attempt is the target |
| Board.LostAfterAllMisses | src/wordle.rs:82-83 | in a game played from `new`, a lost game holds exactly 6 attempts, none equal to the target |
| Board.Carried | src/wordle.rs:39-48 | the flattened letters contain exactly the characters carried by some entry of some row |
| Board.Insert | src/wordle.rs:49 | inserting keeps the multiset (plus the new element) and keeps an ascending sequence ascending |
| Board.Sort | src/wordle.rs:49 | the result is ascending and a permutation of the input |
| Board.Dedup | src/wordle.rs:50 | the result holds the same elements, and is strictly ascending when the input is ascending |
| Board.AttemptedLetters | src/wordle.rs:38-52 | the result is strictly ascending and holds exactly the characters of all entries of all rows |
| WordleEngine.AssessTwoPass | src/wordle.rs:101-151 | fails exactly on a length mismatch; otherwise one mark per position carrying the upper-cased guessed letter, `Correct` iff it equals the target's letter there, `Wrong` for any letter absent from the target |
| WordleEngine.Settle | src/wordle.rs:137-145 | pass 2 at one position keeps the letter and changes the mark only by turning a wrong-position mark `Wrong`, exactly while fewer wrong-position marks of that letter lie to its left than the letter is overclaimed |
| WordleEngine.Settled | src/wordle.rs:133-148 | pass 2 keeps the row length, and each mark is either kept or a wrong-position mark turned `Wrong` |
| WordleEngine.DemotedCount | src/wordle.rs:133-148 | pass 2 never changes `Correct` marks and demotes exactly max(0, claims − target count) wrong-position marks of each letter |
| WordleEngine.DuplicateBudget | src/wordle.rs:110-148 | each letter's final number of `Correct` plus `CorrectButWrongPosition` marks is min(claims, count in target), which is min(count in guess, count in target) for letters of the target and 0 for others |
| WordleEngine.DemotionIsLeftmost | src/wordle.rs:137-145 | of two wrong-position marks of a letter, if the later one is demoted then so is the earlier one |
| WordleEngine.WithinBudgetUnchanged | src/wordle.rs:137-144 | when no wrong-position letter is overclaimed, pass 2 leaves every mark as pass 1 set it |
| WordleEngine.CountLetters | src/wordle.rs:110-113 | the counting fold maps each letter to its number of occurrences in the target |
| WordleEngine.MarkPositions | src/wordle.rs:116-129 | the loop produces the positional marks and, per letter, the number of marks claiming it |
| WordleEngine.DemoteOverclaimed | src/wordle.rs:133-148 | the decrementing walk produces exactly the declarative pass-2 result |
| WordleEngine.DemoteStep | src/wordle.rs:137-145 | the test "counter above target count" demotes exactly where the declarative rule does, and decrementing keeps the counter accurate |
| WordleEngine.Rows | src/wordle.rs:88 | one assessed row per attempt, in order; fails exactly when some attempt has the wrong length |
| WordleEngine.GameView | src/wordle.rs:79-94 | `Won` iff the target is among the attempts; otherwise `Lost` iff there are 6 or more; otherwise `Playing`; and row i is the assessment of attempt i |
| WordleEngine.WellFormedViewOk | src/wordle.rs:88-93 | the view of a game played from `new` never fails |
| WordleEngine.AttemptedLettersOfView | src/wordle.rs:38-52 | the attempted letters of a view are exactly the upper-cased characters of the stored attempts |
| WordleEngine.WinningTurn | src/wordle.rs:155-168 | appending the target (in any case) to any game whose view succeeds and is being played makes it `Won`, and the new row is all `Correct` |
| WordleEngine.Wordle.constructor | src/wordle.rs:57-63 | a game holds exactly the two given fields |
| WordleEngine.Wordle.New | src/wordle.rs:67-76 | fails with `TooShort` iff the target has fewer than 3 characters; otherwise a fresh game with the upper-cased target, no attempts, and the invariant |
| WordleEngine.Wordle.Game | src/wordle.rs:79-94 | the view of the stored fields fails exactly when some stored attempt has the wrong length, and otherwise reports the status rule and one row per attempt |
| WordleEngine.Wordle.Assess | src/wordle.rs:101-151 | the count-map implementation returns exactly `AssessTwoPass` |
| WordleEngine.Wordle.PlayTurn | src/wordle.rs:155-168 | on a length mismatch, a failing view or a finished game it returns the error and leaves both fields unchanged; otherwise it appends exactly the upper-cased word, returns the new view, and keeps the invariant |
| WordleTest.ItWorks | src/wordle_test.rs:4-22 | a game made by `New("hello")` and played with "bolle" shows a first row of five marks starting `Wrong('B')`, `CorrectButWrongPosition('O')`, `Correct('L')` |
| WordleTest.HelloBolle | src/wordle_test.rs:8-21 | target HELLO, guess "bolle": `Wrong('B')`, `CorrectButWrongPosition('O')`, `Correct('L')`, `Correct('L')`, `CorrectButWrongPosition('E')` |
| WordleTest.HelloLolly | src/wordle.rs:133-148 | target HELLO, guess "lolly": the first L is demoted because both Ls of HELLO are matched exactly |
| WordleTest.EraseElope | src/wordle.rs:117-121 | target ERASE, guess ELOPE: both Es are `Correct` |
| GameEngine.AssessSinglePass | src/game.rs:77-97 | fails exactly on a length mismatch; otherwise mark i carries the upper-cased letter and is `Correct` iff it equals target[i], `CorrectButWrongPosition` iff the target has it but not at i, `Wrong` iff the target lacks it |
| GameEngine.SinglePassClaims | src/game.rs:84-94 | without a budget, a letter of the target is claimed as often as it is guessed, whatever its count in the target |
| GameEngine.HelloLollyOverclaims | src/game.rs:84-94 | target HELLO, guess "lolly": three L marks claim the letter, while HELLO holds two |
| GameEngine.Rows | src/game.rs:69 | one assessed row per attempt, in order; fails exactly when some attempt has the wrong length |
| GameEngine.GameView | src/game.rs:60-75 | `Won` iff the target is among the attempts; otherwise `Lost` iff there are 6 or more; otherwise `Playing`; and row i is the assessment of attempt i |
| GameEngine.WellFormedViewOk | src/game.rs:69-74 | the view of a game played from `new` never fails |
| GameEngine.AttemptedLettersOfView | src/game.rs:24-38 | the attempted letters of a view are exactly the upper-cased characters of the stored attempts |
| GameEngine.WinningTurn | src/game.rs:99-112 | appending the target (in any case) to any game whose view succeeds and is being played makes it `Won`, and the new row is all `Correct` |
| GameEngine.Wordle.constructor | src/game.rs:42-46 | a game holds exactly the two given fields |
| GameEngine.Wordle.New | src/game.rs:49-58 | fails with `TooShort` iff the target has fewer than 3 characters; otherwise a fresh game with the upper-cased target, no attempts, and the invariant |
| GameEngine.Wordle.Game | src/game.rs:60-75 | the view of the stored fields fails exactly when some stored attempt has the wrong length, and otherwise reports the status rule and one row per attempt |
| GameEngine.Wordle.Assess | src/game.rs:77-97 | the pushing loop returns exactly `AssessSinglePass` |
| GameEngine.Wordle.PlayTurn | src/game.rs:99-112 | on a length mismatch, a failing view or a finished game it returns the error and leaves both fields unchanged; otherwise it appends exactly the upper-cased word, returns the new view, and keeps the invariant |
| EngineComparison.TwoPassOnlyDemotes | src/wordle.rs:133-148 | the two assessors fail on the same words, and each two-pass mark is the single-pass mark or a wrong-position mark turned `Wrong` |
| EngineComparison.EnginesAgreeWithinBudget | src/wordle.rs:110-148 | the engines give the same marks iff the single pass claims no letter more often than the target holds it |
| EngineComparison.SameStatus | src/game.rs:61-67 | both engines' views fail together and report the same status |

## Left out

- Upper-casing covers ASCII only: `Upper` maps `a`–`z` to `A`–`Z` and leaves every other character alone. Rust's `to_uppercase` also maps other letters, and can change a string's length.
- Lengths are counted in characters. The source compares byte lengths (`len()`) but walks characters, which agrees for ASCII only.
- Error messages (`anyhow` strings) are the variants `TooShort`, `LengthMismatch(expected)` and `GameOver`.
- The serde derives and the JSON save and load in src/app.rs are not modelled. The persisted record is the two fields, and the constructor rebuilds a game from them.
- src/app.rs is not part of this model: shared score and admin state behind async locks, the random choice of target words, the `f32` score percentage, word validation and move mapping.
- src/handlers.rs, src/main.rs and src/app_test.rs are not part of this model: Telegram transport, message rendering and escaping, command-line parsing, word-file reading and the async integration test.
