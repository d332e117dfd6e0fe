# Hangman game state, modelled in Dafny

This project models the game-state machine of a terminal hangman game
(`src/main.rs`). A `Hangman` value holds the secret word, the set of its
distinct letters, the set of letters guessed so far, a mask that starts as
all `_` and shows each guessed letter of the word, and a cursor over the
seven stage pictures of the `STATES` table. Its one mutator, `guess`, sorts a
letter into one of five responses (`AlreadyGuessed`, `Incorrect`, `Correct`,
`Win`, `Lose`) and updates the state in place.

Two modules:

- `Rules` (`rules.dfy`) describes the game on values. `State` is the game's
  state. `Valid` is the invariant every reachable state keeps:
  - the letters are those of the word;
  - the mask is `MaskOf(word, guessed)`: each position shows the word's
    letter when it has been guessed, `_` otherwise;
  - the cursor `wrong` equals the number of guessed letters not in the word;
  - the cursor is at most 7.

  `Step` is what one guess does, `Reveal` is what the mask update does, and
  `Run` plays a sequence of guesses. The lemmas state the game's rules.
- `Game` (`game.dfy`) is the object itself. The class `Hangman` has the
  fields the source updates in place. `Guess` is proved to do exactly
  `Rules.Step`. `UpdateRevealed`, the loop that rewrites the mask, is proved
  to compute `Rules.Reveal`.

The source's `Peekable` iterator over `STATES` is modelled as a counter
`wrong` of pictures consumed (0 to 7). `picture()` is `STATES[wrong]` while
`wrong < 7` and `None` afterwards; the model returns the stage index.

Where a reading of the game's intent might expect otherwise, the model
follows the code:

- `Hangman::new` accepts the empty word (`src/main.rs:73-81`). Such a game
  can only be lost: `Win` is only ever answered to a correct letter, and an
  empty word has none (`Rules.EmptyWordNeverWins`).
- The game is lost on the seventh distinct wrong letter, not the sixth.
  After six wrong letters the last picture, `STATES[6]`, is still shown
  (`src/main.rs:124-126`; `Rules.LoseOnSeventhWrongLetter`).
- A won game is not frozen. The guard at `src/main.rs:109` only asks
  whether the pictures are used up, so a new wrong letter after `Win` still
  consumes a picture (`Rules.WinDoesNotFreeze`). Once the pictures are used
  up, every guess answers `Lose` and changes nothing, whether or not the word
  was revealed before (`Rules.LostGame`).
- A word containing `_` has those positions shown from the start. The win
  test compares the mask with the word, so the win condition is "every letter
  of the word other than `_` has been guessed" (`Rules.MaskCompleteIff`).

## Model

| member | source | states |
|---|---|---|
| `Rules.Init` | src/main.rs:73-81 | a new game satisfies the invariant and still has a picture to show |
| `Rules.FreshGame` | src/main.rs:73-81 | a new game has an all-`_` mask as long as the word, no guessed letters, the word's characters as its letters, and the first stage picture |
| `Game.Hangman.constructor` | src/main.rs:73-81 | the object built from any word, the empty word included, is the new game `Rules.Init(w)` and satisfies the invariant |
| `Rules.Step` | src/main.rs:108-132 | a guess never changes the word or its letters, and the mask stays as long as the word |
| `Game.Hangman.Guess` | src/main.rs:108-132 | the new state and the response are those of `Rules.Step`; the invariant is kept; `Lose` is answered exactly when no picture is left; guessed letters and the cursor never decrease |
| `Game.Hangman.UpdateRevealed` | src/main.rs:134-140 | the loop writes `c` at every position where the word holds `c` and leaves every other position as it was |
| `Rules.MaskShape` | src/main.rs:134-140 | every shown mask position holds the word's letter and that letter was guessed; an unguessed letter other than `_` is hidden; the mask is as long as the word |
| `Rules.MaskOfNothing` | src/main.rs:78 | with nothing guessed the mask is all `_` |
| `Rules.RevealExtendsMask` | src/main.rs:134-140 | revealing `c` in the mask of the guessed set gives the mask of the guessed set plus `c` |
| `Rules.MaskCompleteIff` | src/main.rs:118 | the mask equals the word exactly when every letter of the word other than `_` has been guessed |
| `Rules.StepPreservesValid` | src/main.rs:108-131 | a guess keeps the invariant (mask matches the guessed letters, cursor counts the wrong letters and is at most 7); guessed letters and the cursor never decrease |
| `Rules.LostGame` | src/main.rs:109-110 | with the pictures used up, a guess answers `Lose` and changes nothing |
| `Rules.RepeatedLetter` | src/main.rs:111-112 | a letter already guessed answers `AlreadyGuessed` and changes nothing |
| `Rules.NewLetterRecorded` | src/main.rs:113-115 | a new letter in a game not lost is added to the guessed set, which grows by exactly one, right letter or wrong |
| `Rules.CorrectLetter` | src/main.rs:116-122 | a new correct letter shows `c` wherever the word holds `c`, keeps every other position and the cursor, and answers `Win` exactly when the mask now equals the word (every letter other than `_` guessed), `Correct` otherwise |
| `Rules.WrongLetter` | src/main.rs:123-130 | a new wrong letter advances the cursor by exactly one and keeps the mask; it answers `Lose` exactly when all 7 pictures are now consumed, `Incorrect` otherwise |
| `Rules.LoseIffNoPicture` | src/main.rs:108-131 | from a valid state, a guess answers `Lose` exactly when no picture is left afterwards |
| `Rules.WinDoesNotFreeze` | src/main.rs:109-129 | after the word is revealed, a new wrong letter still advances the cursor |
| `Rules.RunPreservesValid` | src/main.rs:108-131 | any sequence of guesses keeps the invariant and the word, gives one response per guess, and never shrinks the guessed set or the cursor |
| `Rules.LostGameStaysLost` | src/main.rs:109-110 | once the pictures are used up, any sequence of guesses changes nothing and every response is `Lose` |
| `Rules.WrongLetters` | src/main.rs:123-130 | distinct wrong letters each advance the cursor by one and leave the mask alone; the one that consumes the last picture answers `Lose`, the others `Incorrect` |
| `Rules.LoseOnSeventhWrongLetter` | src/main.rs:124-126 | from a new game, seven distinct wrong letters answer `Incorrect` six times and then `Lose`, leaving no picture |
| `Rules.CorrectLetters` | src/main.rs:113-122 | distinct new correct letters keep the cursor, are all added to the guessed set, and each answers `Correct` or `Win` |
| `Rules.CorrectLettersWin` | src/main.rs:116-122 | the last of a run of distinct correct letters answers `Win` exactly when the guessed letters then cover every letter of the word other than `_` |
| `Rules.EmptyWordNeverWins` | src/main.rs:116-130 | in a game on the empty word no guess ever answers `Win` |
| `Rules.CatRepeated` | src/main.rs:111-117 | on the word "cat", guessing `c` twice answers `Correct` then `AlreadyGuessed`, and the mask stays `c__` with no picture consumed |
| `Game.Hangman.Picture` | src/main.rs:96-98 | there is no picture exactly when all 7 are consumed; otherwise the stage shown is below 7 and equals the number of wrong letters guessed |
| `Game.Hangman.PartiallyRevealed` | src/main.rs:100-102 | the mask is as long as the word and shows each guessed letter of the word, `_` elsewhere |
| `Game.Hangman.Word` | src/main.rs:104-106 | the word returned has exactly the game's letters and is as long as the mask |

## Left out

- `main` (`src/main.rs:157-182`): the word list, the random choice of a word, printing and the game loop. This is I/O and a foreign random number generator.
- `read_alphabetic_char` (`src/main.rs:143-155`): a stdin/stdout loop that uses Unicode `is_alphabetic`. This is I/O plus a library predicate. `Guess` accepts any character.
- The ASCII-art text of `STATES` (`src/main.rs:9-59`): only its length, 7 (`Rules.StageCount`), is modelled.
- Game.Hangman.Picture: returns the stage index into `STATES` rather than the picture text, and is a read-only function although the source's `picture` takes `&mut self` to peek the iterator (peeking changes nothing observable).
- `HashSet` internals and the capacity hint (`src/main.rs:76`): sets are mathematical sets.
- Byte versus character indexing: the word is a sequence of characters and the mask has one `_` per character. The source's `"_".repeat(word.len())` and `replace_range` count bytes, so for a word with non-ASCII characters the source's mask is longer than the word. The model matches the source for ASCII words only.
- The lifetime and iterator type parameters of the Rust struct: the word is a value the game owns, and the iterator is the counter `wrong`.
