# Hangman guess engine in Dafny

This project models the game engine of a small Java Hangman game. The engine exists twice
in the source, with slight differences:

- the console game, `Hangman.handleHangmanGame`;
- the Swing game, `HangmanUI.startGame` / `handleGuess`.

Both use the same state: the secret word, the mask of what has been found so far (`*` for
a hidden position), the `boolean[26]` record of letters entered before, and the lives
left. A guess of a letter `c` in `a`..`z` that was not entered before reveals every
position of the word equal to `c`. It costs one life when no position matches, and it
marks `c` as entered. Any other character, and a repeated letter, change nothing. The
word is won when the mask equals it. It is lost when lives run out first, and the win
test comes first.

Modules:

- `Mask`: the helpers both files define identically. These are `encodeWordWithStars`,
  `getWordFoundSoFar`, and the reveal `for` loop, which is written as the recursive
  `RevealFrom`.
- `GuessEngine`: the game state and the shared step `Guess`. It also holds the round
  invariant `Consistent`: the mask shows exactly the guessed positions, only `a`..`z`
  are ever marked, and one life has gone per missed letter. The lemmas about single
  steps live here too.
- `Hangman`: the console front end. It reads a token, lower-cases it and takes the
  first character. The index range check is the only validation. The loop runs while
  lives remain and exits on a win. The game-over message follows from `handleGameOver`.
- `HangmanUI`: the Swing front end. `startGame` resets to 7 lives. `handleGuess` rejects
  text that is not one letter, and the index guard then silently ignores letters outside
  `a`..`z`. A session runs until the win or loss dialog.
- `Scenarios`: worked rounds on the words "letter", "dog" and "Letter".

Matching uses exact character equality against the word as given, as in the code
(`word.charAt(i) == currLetter`). Nothing requires the word to be lower-case. The round
invariant holds for any word. For a word over `a`..`z`, the mask equals the word exactly
when every letter has been entered. A word with any other character can never be won,
unless that character is `*`. Examples are an upper-case letter or the space in a
two-word name. Guessing never matches such a character, so its position stays masked.
Matching is case-sensitive (Hangman.java:67, HangmanUI.java:132).

Progress lemmas connect input to outcome for each front end. On a non-empty word over
`a`..`z`, a run whose letters name every letter of the word, with fewer distinct wrong
letters than the starting lives, ends won. A run whose first letters are as many distinct
wrong letters as there are starting lives ends lost with 0 lives. The console needs at
least one token for either; with none, the run ends waiting for input. The empty word is
excluded because its mask already equals it: after the first accepted guess the round ends won,
whatever the letter cost.

## Model

| member | source | states |
|---|---|---|
| Mask.EncodeWordWithStars | src/main/java/HangmanUI.java:195-201 | the starting mask has the word's length and is all `*` (same code at Hangman.java:102-108) |
| Mask.GetWordFoundSoFar | src/main/java/Hangman.java:121-124 | replacing index `i` keeps the length, puts `letter` at `i` and leaves every other index unchanged (same code at HangmanUI.java:204-206) |
| Mask.RevealFrom | src/main/java/HangmanUI.java:131-136 | the reveal loop sets every position from `from` on that equals the letter to the letter and leaves all other positions as they were; `found` is true exactly when some such position exists |
| GuessEngine.ToLower | src/main/java/HangmanUI.java:116 | an ASCII capital becomes the letter of the alphabet with the same index; every other character is unchanged |
| GuessEngine.InAlphabet | src/main/java/Hangman.java:60 | the index guard `0 <= c - 'a' < 26` on the 26-slot array admits exactly the characters `a`..`z` (same guard at HangmanUI.java:129) |
| GuessEngine.LowerString | src/main/java/HangmanUI.java:116 | lower-cased text keeps its length, contains no capital, and text without capitals comes back unchanged |
| GuessEngine.LowerStringIsIdempotent | src/main/java/HangmanUI.java:116 | lower-casing twice is lower-casing once |
| GuessEngine.StatusOf | src/main/java/HangmanUI.java:147-151 | the status is Won iff the mask equals the word, even with no lives left (the win test comes first); Lost only with lives at or below 0 and the word unrevealed; Playing otherwise |
| GuessEngine.Start | src/main/java/Hangman.java:52-53 | a round starts with the given lives, no letter entered, and a mask of `*` as long as the word |
| GuessEngine.Guess | src/main/java/Hangman.java:60-78 | a character outside `a`..`z` or a letter entered before leaves the state unchanged; a new letter is marked, every position holding it is revealed and no other changes, lives stay when the letter is in the word and drop by exactly one when it is not; the verdict selects the console's message |
| GuessEngine.StartIsConsistent | src/main/java/Hangman.java:52-53 | the start state satisfies the round invariant for its lives |
| GuessEngine.GuessKeepsConsistent | src/main/java/Hangman.java:65-78 | every guess keeps the round invariant: the mask shows a position's character iff it was guessed, and lives equal the start minus the number of missed letters |
| GuessEngine.GuessIsMonotone | src/main/java/HangmanUI.java:129-140 | a guess costs at most one life and never gives one back, the entered letters only grow, and a revealed position is never hidden again |
| GuessEngine.GuessTwiceIsGuessOnce | src/main/java/HangmanUI.java:129 | guessing the same character a second time changes nothing and is reported as entered before (or not in the alphabet) |
| GuessEngine.MissRevealsNothing | src/main/java/Hangman.java:66-74 | a guess that costs a life leaves the mask exactly as it was |
| GuessEngine.WonIffEveryLetterGuessed | src/main/java/HangmanUI.java:147 | for a word over `a`..`z` in an invariant state, the mask equals the word iff every letter of the word was entered |
| GuessEngine.ForeignCharacterIsNeverRevealed | src/main/java/HangmanUI.java:132 | a position holding a character outside `a`..`z` (other than `*`) stays masked, so that word is never won |
| GuessEngine.GuessMissesOnlyItsLetter | src/main/java/Hangman.java:65-75 | a guess of `c` adds to the missed letters at most `c` itself, and only when `c` is an alphabet letter outside the word |
| GuessEngine.GuessCoversItsLetter | src/main/java/HangmanUI.java:129-140 | after guessing `c`, every alphabet letter of the word that was entered before or equals `c` is marked as entered |
| GuessEngine.WinPremisesCarry | src/main/java/Hangman.java:60-78 | after one guess on the way to a win, the invariant still holds, every word letter is entered or among the letters still to come, the misses stay below the starting lives, and lives remain before and after the guess |
| GuessEngine.FreshMissStep | src/main/java/Hangman.java:65-75 | a fresh wrong letter costs exactly one life, reveals nothing, and leaves the following wrong letters fresh |
| GuessEngine.LivesNeverExceedStart | src/main/java/Hangman.java:72-74 | in an invariant state lives never exceed the start, and equal it iff no letter was missed |
| Hangman.FirstLetter | src/main/java/Hangman.java:55-56 | the console letter is the lower-cased first character of the token; it passes the index guard iff that character is in `a`..`z` or `A`..`Z` |
| Hangman.Letters | src/main/java/Hangman.java:89 | one letter per token is read; no capital is left among the letters read, and a token's letter passes the index guard iff the token starts with a letter in `a`..`z` or `A`..`Z` |
| Hangman.LettersAppend | src/main/java/Hangman.java:89 | reading two runs of tokens one after the other yields the first run's letters followed by the second's |
| Hangman.LettersOfFirstAndRest | src/main/java/Hangman.java:55-56 | the letters of a non-empty input are the letter of the token read before the loop, followed by those read inside it |
| Hangman.HandleGameOver | src/main/java/Hangman.java:156-160 | the game-over message is printed exactly when the status is not Won |
| Hangman.Loop | src/main/java/Hangman.java:58-92 | the loop exits only on a win or with lives at or below 0; it waits for input only while lives remain and the word is unrevealed; lives never rise and never go below 0 from a non-negative start; from an unrevealed word the game-over message is printed iff lives end at exactly 0 |
| Hangman.MissRevealsNothingWhenWon | src/main/java/Hangman.java:72-85 | a guess that completes a previously incomplete mask did not cost a life |
| Hangman.HandleHangmanGame | src/main/java/Hangman.java:50-95 | a console round keeps the word and ends only on a win or with no lives left |
| Hangman.LoopKeepsConsistent | src/main/java/Hangman.java:58-92 | every iteration of the console loop keeps the round invariant |
| Hangman.ConsoleRound | src/main/java/Hangman.java:50-95 | over a whole console round the invariant holds and 0 <= lives <= start; for a word not equal to its own mask, `handleGameOver` prints the loss message iff lives reached 0 (Hangman.java:156-160) |
| Hangman.LoopWins | src/main/java/Hangman.java:58-92 | from a consistent state, if every letter of an `a`..`z` word is entered or still to come and the misses stay below the starting lives, the loop ends with the word revealed |
| Hangman.LoopLoses | src/main/java/Hangman.java:58-92 | from an unrevealed state, if the next `lives` letters are distinct fresh wrong letters, the loop ends with 0 lives and nothing more revealed |
| Hangman.ConsoleWins | src/main/java/Hangman.java:50-95 | a console round on an `a`..`z` word whose tokens name every letter of the word and fewer distinct wrong letters than the starting lives ends won |
| Hangman.ConsoleLoses | src/main/java/Hangman.java:50-95 | a console round on a non-empty `a`..`z` word whose first tokens are `lives` distinct wrong letters ends with 0 lives and the game-over message |
| HangmanUI.StartGame | src/main/java/HangmanUI.java:70-73 | a Swing round starts with 7 lives, no letter entered and an all-`*` mask of the word's length, in an invariant state |
| HangmanUI.HandleGuess | src/main/java/HangmanUI.java:115-152 | the error is shown iff the text is not one letter after lower-casing, and then nothing changes; otherwise the engine step is applied (a letter outside `a`..`z` changes nothing), and the win dialog is shown iff the mask equals the word, the loss dialog iff it does not and lives are at or below 0 |
| HangmanUI.Accepted | src/main/java/HangmanUI.java:116-119 | at most one letter per text; a character occurs among them iff some text is a single character whose lower case is a letter and is that character; each satisfies `isLetter` and none is a capital |
| HangmanUI.AcceptedFollowsHandleGuess | src/main/java/HangmanUI.java:115-123 | the accepted letters begin with the first text's lower-cased character exactly when `handleGuess` does not show the error for it, and continue with those of the remaining texts |
| HangmanUI.Play | src/main/java/HangmanUI.java:147-151 | a session of guesses stops at the first dialog: it ended won iff the word is fully revealed, lost only with lives at or below 0, lives never rise, and a session still waiting has shown no win dialog and still has lives |
| HangmanUI.PlayKeepsConsistent | src/main/java/HangmanUI.java:129-151 | from an invariant state with lives left, a session keeps the invariant, lives stay in 0..current, a waiting session still has lives, an ended one was won iff the word is revealed, and a loss ends with exactly 0 lives |
| HangmanUI.SwingRound | src/main/java/HangmanUI.java:68-152 | the same for a whole round started by `startGame`: lives stay within 0..7 |
| HangmanUI.PlayWins | src/main/java/HangmanUI.java:124-151 | from an unrevealed consistent state, if the accepted letters cover every letter of an `a`..`z` word and miss fewer than 7 times in all, the session ends with the win dialog |
| HangmanUI.PlayLoses | src/main/java/HangmanUI.java:124-151 | from an unrevealed state, if the next `lives` accepted letters are distinct fresh wrong letters, the session ends with the loss dialog, 0 lives and nothing more revealed |
| HangmanUI.SwingWins | src/main/java/HangmanUI.java:68-152 | a Swing round on a non-empty `a`..`z` word whose accepted letters name every letter of it and fewer than 7 distinct wrong letters ends with the win dialog |
| HangmanUI.SwingLoses | src/main/java/HangmanUI.java:68-152 | a Swing round on a non-empty `a`..`z` word whose first 7 accepted letters are distinct wrong letters ends with the loss dialog and 0 lives |
| Scenarios.LetterFirstGuess | src/main/java/Hangman.java:60-78 | on "letter" with 7 lives, guessing `e` gives the mask `*e**e*` and keeps 7 lives |
| Scenarios.LetterRepeatAndMiss | src/main/java/Hangman.java:65-75 | repeating `e` changes nothing; guessing `z` costs one life |
| Scenarios.LetterGuessT | src/main/java/Hangman.java:66-71 | `t` reveals both t's |
| Scenarios.LetterGuessL | src/main/java/Hangman.java:66-71 | `l` reveals the first position |
| Scenarios.LetterGuessR | src/main/java/HangmanUI.java:147-148 | `r` completes "letter" and the round is won with 6 lives |
| Scenarios.DogRound | src/main/java/HangmanUI.java:149-150 | on "dog" with one life, a single miss loses the round |
| Scenarios.CapitalisedWordStaysMasked | src/main/java/Hangman.java:53-67 | on "Letter" (the example in the mask comment), guessing `L`, `l`, `e`, `t` still leaves the mask different from the word |

## Left out

- Reading and picking the word (`getRandomWordFromFile`: file I/O, `Random`, `System.exit`) is not modelled. The word is a parameter.
- The Swing widgets are not modelled: the menu, the labels, the text field, `updateUI`, `JOptionPane` and `endGame`'s `System.exit`. A session simply stops at the first dialog.
- The display-only `alreadyGuessedCharacters` string is not modelled.
- The console's message texts (`printCurrSituation`, the "not in the alphabet" and win/loss lines) are not modelled. Only which message is chosen is modelled, as `Verdict`, and the game-over condition as `HandleGameOver`.
- The console input stream is a finite sequence of non-empty tokens. When it runs out, the run ends in `InputExhausted`, where the scanner would throw.
- `main`'s starting lives of 7 in Hangman.java is not modelled. `handleHangmanGame` takes lives as a parameter, and so does the model.
- GuessEngine.ToLower: only ASCII `A`..`Z` are lower-cased. Java's `toLowerCase` also maps other scripts and can change a string's length. For example, the Kelvin sign becomes `k`, and a dotted capital I becomes two characters.
- Hangman.FirstLetter: its guard result assumes ASCII lower-casing. In Java a token starting with the Kelvin sign (U+212A) lowers to `k`, and one starting with U+0130 lowers to `i` followed by a combining dot. Both then pass the index guard at Hangman.java:60, while the model leaves those characters unchanged and ignores them.
- GuessEngine.LowerString: the length claim holds only for the ASCII model. Java's `toLowerCase` turns U+0130 into two characters.
- HangmanUI.HandleGuess: Java rejects the text "İ" (U+0130) with the error message, because its lower case has length 2 (HangmanUI.java:117-118). The model does not reject it; it accepts it and the index guard then ignores it.
- `toLowerCase()` follows the default locale. The model assumes a locale without special casing rules. Under a Turkish locale `I` lowers to the dotless `ı`, which is outside `a`..`z`, while the model guesses `i`.
- A Java `String` is modelled as a Dafny `string`, a sequence of Unicode scalar values, not of UTF-16 code units. A character outside the Basic Multilingual Plane is one element in the model but two `char`s in Java. Lives, reveals and the win/loss outcome do not depend on this. Two results do, listed in the next two lines.
- Mask.EncodeWordWithStars: for a word holding a character outside the Basic Multilingual Plane, Java's mask has one `*` per UTF-16 unit (two for that character, HangmanUI.java:197, Hangman.java:104), while the model's has one per scalar value.
- HangmanUI.HandleGuess: a single character outside the Basic Multilingual Plane has `length()` 2 in Java and is rejected at HangmanUI.java:117, while the model sees one character. The model rejects it only when `isLetter` is false for it, so `isLetter` must be false outside the Basic Multilingual Plane for the model to reject what Java rejects.
- `Character.isLetter` is not defined in the model. It is a parameter `isLetter` of `HandleGuess`, so the Swing results hold for any letter classification.
- Lives are unbounded integers. The 32-bit `lives--` cannot wrap, because both front ends stop once lives reach 0.
