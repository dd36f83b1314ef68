/**
 The Swing game of HangmanUI.java: `startGame` resets the round, `handleGuess`
 validates the text field and applies the guess engine, and the round ends at the
 first win or loss. `Character.isLetter` is a parameter of the model.
 */
module HangmanUI {
  import opened Mask
  import opened GuessEngine

  /** Lives a Swing round starts with. */
  const InitialLives: int := 7

  /** `startGame` once the word is chosen: all-star mask, full lives, no letter entered. */
  function StartGame(word: string): (s: GameState)
    ensures s.word == word && s.lives == InitialLives && s.guessed == {}
    ensures |s.found| == |word| && forall i :: 0 <= i < |word| ==> s.found[i] == Star
    ensures Consistent(s, InitialLives)
  {
    StartIsConsistent(word, InitialLives);
    Start(word, InitialLives)
  }

  /** What the player sees after pressing Guess: the error message for rejected input,
      nothing more while the game goes on, or the win or loss dialog. */
  datatype Reply = Rejected | Continue | WonDialog | LostDialog

  datatype Handled = Handled(next: GameState, reply: Reply)

  /** `handleGuess` on the text `text`. Input that is not a single letter once
      lower-cased is rejected before anything else; a letter outside 'a'..'z' passes
      validation but the index guard ignores it; then the win test comes before the
      loss test. */
  function HandleGuess(s: GameState, text: string, isLetter: char -> bool): (h: Handled)
    requires |s.found| == |s.word|
    ensures h.next.word == s.word && |h.next.found| == |s.found|
    ensures h.reply == Rejected <==> |text| != 1 || !isLetter(ToLower(text[0]))
    ensures h.reply == Rejected ==> h.next == s
    ensures h.reply != Rejected ==>
              && |text| == 1 && isLetter(ToLower(text[0]))
              && h.next == Guess(s, ToLower(text[0])).next
              && (h.reply == WonDialog <==> h.next.found == s.word)
              && (h.reply == LostDialog <==> h.next.found != s.word && h.next.lives <= 0)
    ensures h.reply != Rejected && !InAlphabet(ToLower(text[0])) ==> h.next == s
  {
    var input := LowerString(text);
    if |input| != 1 || !isLetter(input[0]) then Handled(s, Rejected)
    else
      var next := Guess(s, input[0]).next;
      var reply := match StatusOf(next)
        case Won => WonDialog
        case Lost => LostDialog
        case Playing => Continue;
      Handled(next, reply)
  }

  /** The letters of the texts that `handleGuess` accepts, in order: a letter occurs
      exactly when some text is a single character whose lower case is a letter, and
      no capital is left among them. */
  function Accepted(texts: seq<string>, isLetter: char -> bool): (letters: string)
    ensures |letters| <= |texts|
    ensures forall c :: c in letters ==> isLetter(c) && !('A' <= c <= 'Z')
    ensures forall c :: c in letters <==>
              exists i :: 0 <= i < |texts| && |texts[i]| == 1 && isLetter(ToLower(texts[i][0]))
                          && c == ToLower(texts[i][0])
    decreases |texts|
  {
    if |texts| == 0 then ""
    else if |texts[0]| == 1 && isLetter(ToLower(texts[0][0])) then
      [ToLower(texts[0][0])] + Accepted(texts[1..], isLetter)
    else Accepted(texts[1..], isLetter)
  }

  /** `Accepted` takes from each text exactly the letter `handleGuess` goes on to guess
      with, and nothing from a text it rejects. */
  lemma AcceptedFollowsHandleGuess(s: GameState, texts: seq<string>, isLetter: char -> bool)
    requires |s.found| == |s.word| && |texts| > 0
    ensures Accepted(texts, isLetter) ==
              (if HandleGuess(s, texts[0], isLetter).reply != Rejected then [ToLower(texts[0][0])] else "")
              + Accepted(texts[1..], isLetter)
  {
  }

  /** A round of the Swing game: guesses are handled in order until a dialog ends it
      (`endGame` exits), or the texts run out while the game still waits. */
  datatype Session = Ended(state: GameState, won: bool) | Waiting(state: GameState)

  function Play(s: GameState, texts: seq<string>, isLetter: char -> bool): (r: Session)
    requires |s.found| == |s.word|
    ensures r.state.word == s.word && |r.state.found| == |s.word|
    ensures r.Ended? ==> (r.won <==> r.state.found == s.word)
    ensures r.Ended? && !r.won ==> r.state.lives <= 0
    ensures r.state.lives <= s.lives
    ensures r.Waiting? && s.found != s.word ==> r.state.found != s.word
    ensures r.Waiting? && s.lives > 0 ==> r.state.lives > 0
    decreases |texts|
  {
    if |texts| == 0 then Waiting(s)
    else
      var h := HandleGuess(s, texts[0], isLetter);
      match h.reply
      case WonDialog => Ended(h.next, true)
      case LostDialog => Ended(h.next, false)
      case _ => Play(h.next, texts[1..], isLetter)
  }

  /** Playing on from a consistent state that still has lives keeps the invariant and
      the lives above zero until a dialog ends the round. */
  lemma {:induction false} PlayKeepsConsistent(s: GameState, texts: seq<string>, isLetter: char -> bool)
    requires Consistent(s, InitialLives) && s.lives > 0
    ensures Consistent(Play(s, texts, isLetter).state, InitialLives)
    ensures 0 <= Play(s, texts, isLetter).state.lives <= s.lives
    ensures Play(s, texts, isLetter).Waiting? ==> Play(s, texts, isLetter).state.lives > 0
    ensures Play(s, texts, isLetter).Ended? ==>
              (Play(s, texts, isLetter).won <==> Play(s, texts, isLetter).state.found == s.word)
    ensures Play(s, texts, isLetter).Ended? && !Play(s, texts, isLetter).won ==>
              Play(s, texts, isLetter).state.lives == 0
    decreases |texts|
  {
    if |texts| > 0 {
      var h := HandleGuess(s, texts[0], isLetter);
      if h.reply != Rejected {
        GuessKeepsConsistent(s, InitialLives, ToLower(texts[0][0]));
        GuessIsMonotone(s, InitialLives, ToLower(texts[0][0]));
      }
      if h.reply == Rejected || h.reply == Continue {
        PlayKeepsConsistent(h.next, texts[1..], isLetter);
      }
    }
  }

  /** Over a whole Swing round from `startGame`: the round invariant holds, lives stay
      within 0..7, a round that ended was won exactly when the word is fully revealed
      and lost with exactly zero lives. */
  lemma SwingRound(word: string, texts: seq<string>, isLetter: char -> bool)
    ensures Consistent(Play(StartGame(word), texts, isLetter).state, InitialLives)
    ensures 0 <= Play(StartGame(word), texts, isLetter).state.lives <= InitialLives
    ensures Play(StartGame(word), texts, isLetter).Ended? ==>
              (Play(StartGame(word), texts, isLetter).won
               <==> Play(StartGame(word), texts, isLetter).state.found == word)
    ensures Play(StartGame(word), texts, isLetter).Ended? && !Play(StartGame(word), texts, isLetter).won ==>
              Play(StartGame(word), texts, isLetter).state.lives == 0
  {
    PlayKeepsConsistent(StartGame(word), texts, isLetter);
  }

  /** From an unrevealed consistent state, if every letter of an `a`..`z` word is entered
      before or among the accepted letters still to come, and those letters miss fewer
      times than the starting lives, the session ends with the win dialog. */
  lemma {:induction false} PlayWins(s: GameState, texts: seq<string>, isLetter: char -> bool)
    requires Consistent(s, InitialLives) && s.found != s.word
    requires forall i :: 0 <= i < |s.word| ==> InAlphabet(s.word[i])
    requires forall i :: 0 <= i < |s.word| ==>
               s.word[i] in s.guessed || s.word[i] in Accepted(texts, isLetter)
    requires |Missed(s) + MissedIn(Accepted(texts, isLetter), s.word)| < InitialLives
    ensures Play(s, texts, isLetter) == Ended(Play(s, texts, isLetter).state, true)
    ensures Play(s, texts, isLetter).state.found == s.word
    decreases |texts|
  {
    var letters := Accepted(texts, isLetter);
    if |texts| == 0 {
      WonIffEveryLetterGuessed(s, InitialLives);
      assert false;
    }
    var h := HandleGuess(s, texts[0], isLetter);
    if h.reply == Rejected {
      PlayWins(s, texts[1..], isLetter);
    } else {
      var c := ToLower(texts[0][0]);
      assert letters == [c] + Accepted(texts[1..], isLetter);
      WinPremisesCarry(s, InitialLives, c, Accepted(texts[1..], isLetter));
      if h.next.found != s.word {
        PlayWins(h.next, texts[1..], isLetter);
      }
    }
  }

  /** From an unrevealed state with lives left, if the next `lives` accepted letters are
      distinct letters neither in the word nor entered before, the session ends with the
      loss dialog, no lives left and nothing more revealed. */
  lemma {:induction false} PlayLoses(s: GameState, texts: seq<string>, isLetter: char -> bool)
    requires |s.found| == |s.word| && s.found != s.word && s.lives > 0
    requires FreshMisses(s, Accepted(texts, isLetter), s.lives)
    ensures Play(s, texts, isLetter) == Ended(Play(s, texts, isLetter).state, false)
    ensures Play(s, texts, isLetter).state.lives == 0
    ensures Play(s, texts, isLetter).state.found == s.found
    decreases |texts|
  {
    var letters := Accepted(texts, isLetter);
    var h := HandleGuess(s, texts[0], isLetter);
    if h.reply == Rejected {
      PlayLoses(s, texts[1..], isLetter);
    } else {
      var c := ToLower(texts[0][0]);
      assert letters == [c] + Accepted(texts[1..], isLetter);
      FreshMissStep(s, letters, s.lives);
      if h.next.lives > 0 {
        PlayLoses(h.next, texts[1..], isLetter);
      }
    }
  }

  /** A Swing round on a non-empty `a`..`z` word is won when the accepted letters name
      every letter of the word and fewer than 7 distinct wrong letters. */
  lemma SwingWins(word: string, texts: seq<string>, isLetter: char -> bool)
    requires |word| > 0
    requires forall i :: 0 <= i < |word| ==> InAlphabet(word[i]) && word[i] in Accepted(texts, isLetter)
    requires |MissedIn(Accepted(texts, isLetter), word)| < InitialLives
    ensures Play(StartGame(word), texts, isLetter) == Ended(Play(StartGame(word), texts, isLetter).state, true)
    ensures Play(StartGame(word), texts, isLetter).state.found == word
  {
    var s := StartGame(word);
    assert s.found[0] != s.word[0];
    assert Missed(s) == {};
    PlayWins(s, texts, isLetter);
  }

  /** A Swing round on a non-empty `a`..`z` word is lost when the first 7 accepted letters
      are distinct letters outside the word. */
  lemma SwingLoses(word: string, texts: seq<string>, isLetter: char -> bool)
    requires |word| > 0
    requires forall i :: 0 <= i < |word| ==> InAlphabet(word[i])
    requires FreshMisses(StartGame(word), Accepted(texts, isLetter), InitialLives)
    ensures Play(StartGame(word), texts, isLetter) == Ended(Play(StartGame(word), texts, isLetter).state, false)
    ensures Play(StartGame(word), texts, isLetter).state.lives == 0
  {
    var s := StartGame(word);
    assert s.found[0] != s.word[0];
    PlayLoses(s, texts, isLetter);
  }
}
