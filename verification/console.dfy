/**
 The console game of Hangman.java: one letter is read before the loop, and the loop
 runs while lives remain, applying the guess engine, stopping at a win and reading
 the next letter only while lives remain. The input is a finite sequence of tokens.
 */
module Hangman {
  import opened Mask
  import opened GuessEngine

  /** A whitespace-delimited token as the scanner returns it: never empty. */
  type Token = t: string | |t| > 0 witness "a"

  /** The letter the console takes from a token: the first character of the
      lower-cased token. */
  function FirstLetter(token: Token): (c: char)
    ensures c == ToLower(token[0])
    ensures InAlphabet(c) <==> InAlphabet(token[0]) || 'A' <= token[0] <= 'Z'
  {
    LowerString(token)[0]
  }

  /** How the console game ends: the loop exits, or the input runs out while the
      game still waits for a letter (the scanner would then throw). */
  datatype Run = Over(state: GameState) | InputExhausted(state: GameState)

  /** The game-over message is printed exactly when the mask differs from the word. */
  predicate HandleGameOver(s: GameState): (printed: bool)
    ensures printed <==> StatusOf(s) != Won
  {
    s.word != s.found
  }

  /** The letters the console takes from a sequence of tokens, in order: no capital is
      left among them, and the one taken from a token passes the index guard exactly
      when the token starts with a letter of either case. */
  function Letters(tokens: seq<Token>): (letters: string)
    ensures |letters| == |tokens|
    ensures forall i :: 0 <= i < |tokens| ==> letters[i] == FirstLetter(tokens[i])
    ensures forall i :: 0 <= i < |letters| ==> !('A' <= letters[i] <= 'Z')
    ensures forall i :: 0 <= i < |tokens| ==>
              (InAlphabet(letters[i]) <==> InAlphabet(tokens[i][0]) || 'A' <= tokens[i][0] <= 'Z')
  {
    seq(|tokens|, i requires 0 <= i < |tokens| => FirstLetter(tokens[i]))
  }

  /** Reading two runs of tokens one after the other yields the letters of the first run
      followed by those of the second. */
  lemma LettersAppend(a: seq<Token>, b: seq<Token>)
    ensures Letters(a + b) == Letters(a) + Letters(b)
  {
    assert forall i :: 0 <= i < |a + b| ==> Letters(a + b)[i] == (Letters(a) + Letters(b))[i];
  }

  /** The letters of a non-empty token sequence: the first token's letter, then the rest. */
  lemma LettersOfFirstAndRest(tokens: seq<Token>)
    requires |tokens| > 0
    ensures Letters(tokens) == [FirstLetter(tokens[0])] + Letters(tokens[1..])
  {
    LettersAppend(tokens[..1], tokens[1..]);
    assert tokens[..1] + tokens[1..] == tokens;
  }

  /** The loop from the `while (lives > 0)` test, with `letter` already read and
      `rest` still to come. */
  function Loop(s: GameState, letter: char, rest: seq<Token>): (r: Run)
    requires |s.found| == |s.word|
    ensures r.state.word == s.word && |r.state.found| == |s.word|
    ensures r.state.lives <= s.lives
    ensures r.Over? ==> r.state.found == r.state.word || r.state.lives <= 0
    ensures r.InputExhausted? ==> r.state.found != r.state.word && r.state.lives > 0
    ensures s.lives >= 0 ==> r.state.lives >= 0
    ensures s.lives >= 0 && s.found != s.word && r.Over? ==>
              (HandleGameOver(r.state) <==> r.state.lives == 0)
    decreases |rest|
  {
    if s.lives <= 0 then Over(s)
    else
      var next := Guess(s, letter).next;
      if next.word == next.found then
        MissRevealsNothingWhenWon(s, letter);
        Over(next)
      else if next.lives > 0 then
        if |rest| == 0 then InputExhausted(next)
        else Loop(next, FirstLetter(rest[0]), rest[1..])
      else
        // the loop test fails on the next iteration
        Over(next)
  }

  /** A guess that completes a mask which was not complete cannot have been a miss. */
  lemma MissRevealsNothingWhenWon(s: GameState, c: char)
    requires |s.found| == |s.word|
    ensures Guess(s, c).next.found == s.word && s.found != s.word ==>
              Guess(s, c).next.lives == s.lives
  {
    if Guess(s, c).verdict == NotInWord {
      MissRevealsNothing(s, c);
    }
  }

  /** `handleHangmanGame(lives, word)`: start the round, read the first letter, run
      the loop. */
  function HandleHangmanGame(lives: int, word: string, input: seq<Token>): (r: Run)
    ensures r.state.word == word
    ensures r.Over? ==> r.state.found == word || r.state.lives <= 0
  {
    var s := Start(word, lives);
    if |input| == 0 then InputExhausted(s) else Loop(s, FirstLetter(input[0]), input[1..])
  }

  /** The loop keeps the round invariant. */
  lemma {:induction false} LoopKeepsConsistent(s: GameState, initialLives: int, letter: char, rest: seq<Token>)
    requires Consistent(s, initialLives)
    ensures Consistent(Loop(s, letter, rest).state, initialLives)
    decreases |rest|
  {
    if s.lives > 0 {
      var next := Guess(s, letter).next;
      GuessKeepsConsistent(s, initialLives, letter);
      if next.word != next.found && next.lives > 0 && |rest| > 0 {
        LoopKeepsConsistent(next, initialLives, FirstLetter(rest[0]), rest[1..]);
      }
    }
  }

  /** Over a whole console round: the mask shows exactly the guessed positions, one
      life has gone per missed letter and lives stay within 0..start; the loop exits
      only on a win or with no lives left; and, for a word that is not already equal
      to its own mask, the game-over message is printed exactly when lives reached 0. */
  lemma ConsoleRound(lives: int, word: string, input: seq<Token>)
    requires lives >= 0
    ensures Consistent(HandleHangmanGame(lives, word, input).state, lives)
    ensures 0 <= HandleHangmanGame(lives, word, input).state.lives <= lives
    ensures (exists i :: 0 <= i < |word| && word[i] != Star) && HandleHangmanGame(lives, word, input).Over? ==>
              (HandleGameOver(HandleHangmanGame(lives, word, input).state)
               <==> HandleHangmanGame(lives, word, input).state.lives == 0)
  {
    var s := Start(word, lives);
    StartIsConsistent(word, lives);
    if |input| > 0 {
      LoopKeepsConsistent(s, lives, FirstLetter(input[0]), input[1..]);
      if exists i :: 0 <= i < |word| && word[i] != Star {
        var i :| 0 <= i < |word| && word[i] != Star;
        assert s.found[i] != s.word[i];
      }
    }
  }

  /** From a consistent state, if every letter of an `a`..`z` word is entered before or
      among the letters still to come, and those letters miss fewer times than the round
      started with lives, the loop ends with the word revealed. */
  lemma {:induction false} LoopWins(s: GameState, initialLives: int, letter: char, rest: seq<Token>)
    requires Consistent(s, initialLives)
    requires forall i :: 0 <= i < |s.word| ==> InAlphabet(s.word[i])
    requires forall i :: 0 <= i < |s.word| ==> s.word[i] in s.guessed || s.word[i] in [letter] + Letters(rest)
    requires |Missed(s) + MissedIn([letter] + Letters(rest), s.word)| < initialLives
    ensures Loop(s, letter, rest).Over? && Loop(s, letter, rest).state.found == s.word
    decreases |rest|
  {
    WinPremisesCarry(s, initialLives, letter, Letters(rest));
    var next := Guess(s, letter).next;
    if next.found != next.word {
      if |rest| == 0 {
        WonIffEveryLetterGuessed(next, initialLives);
        assert false;
      }
      LettersOfFirstAndRest(rest);
      LoopWins(next, initialLives, FirstLetter(rest[0]), rest[1..]);
    }
  }

  /** From an unrevealed state with lives left, if the next `lives` letters are distinct
      letters that are neither in the word nor entered before, the loop ends with no
      lives left and nothing more revealed. */
  lemma {:induction false} LoopLoses(s: GameState, letter: char, rest: seq<Token>)
    requires |s.found| == |s.word| && s.found != s.word && s.lives > 0
    requires FreshMisses(s, [letter] + Letters(rest), s.lives)
    ensures Loop(s, letter, rest).Over?
    ensures Loop(s, letter, rest).state.lives == 0 && Loop(s, letter, rest).state.found == s.found
    decreases |rest|
  {
    var letters := [letter] + Letters(rest);
    FreshMissStep(s, letters, s.lives);
    var next := Guess(s, letter).next;
    if next.lives > 0 {
      LettersOfFirstAndRest(rest);
      LoopLoses(next, FirstLetter(rest[0]), rest[1..]);
    }
  }

  /** A console round on an `a`..`z` word is won when the tokens name every letter of the
      word and fewer distinct wrong letters than the starting lives. */
  lemma ConsoleWins(lives: int, word: string, input: seq<Token>)
    requires |input| > 0
    requires forall i :: 0 <= i < |word| ==> InAlphabet(word[i]) && word[i] in Letters(input)
    requires |MissedIn(Letters(input), word)| < lives
    ensures HandleHangmanGame(lives, word, input).Over?
    ensures HandleHangmanGame(lives, word, input).state.found == word
  {
    var s := Start(word, lives);
    StartIsConsistent(word, lives);
    assert Missed(s) == {};
    LettersOfFirstAndRest(input);
    LoopWins(s, lives, FirstLetter(input[0]), input[1..]);
  }

  /** A console round on a non-empty `a`..`z` word is lost, with the game-over message,
      when the first tokens name as many distinct letters outside the word as there are
      starting lives. */
  lemma ConsoleLoses(lives: int, word: string, input: seq<Token>)
    requires lives > 0 && |word| > 0
    requires forall i :: 0 <= i < |word| ==> InAlphabet(word[i])
    requires FreshMisses(Start(word, lives), Letters(input), lives)
    ensures HandleHangmanGame(lives, word, input).Over?
    ensures HandleHangmanGame(lives, word, input).state.lives == 0
    ensures HandleGameOver(HandleHangmanGame(lives, word, input).state)
  {
    var s := Start(word, lives);
    assert s.found[0] != s.word[0];
    LettersOfFirstAndRest(input);
    LoopLoses(s, FirstLetter(input[0]), input[1..]);
  }
}
