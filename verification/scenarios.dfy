/**
 Worked rounds of the guess engine on concrete words. Each lemma takes the word as a
 parameter fixed by its precondition rather than as a literal: with a literal argument
 the verifier unfolds `RevealFrom` and `EncodeWordWithStars` on the literal and the
 proofs outgrow the resource limit.
 */
module Scenarios {
  import opened GuessEngine

  /** A new letter in the alphabet turns the mask into any `mask` that agrees with the
      word on the letter's positions and with the old mask elsewhere. */
  lemma GuessRevealsMask(s: GameState, c: char, mask: string)
    requires |s.found| == |s.word| && InAlphabet(c) && c !in s.guessed && |mask| == |s.word|
    requires forall i :: 0 <= i < |s.word| ==> mask[i] == (if s.word[i] == c then c else s.found[i])
    ensures Guess(s, c).next.found == mask
  {
  }

  /** "letter" with 7 lives: 'e' reveals both e's and keeps the lives. */
  lemma LetterFirstGuess(w: string)
    requires w == "letter"
    ensures Guess(Start(w, 7), 'e') == Turn(GameState(w, "*e**e*", {'e'}, 7), InWord)
  {
    var s := Start(w, 7);
    assert s.found == "******";
    assert w[1] == 'e';
    GuessRevealsMask(s, 'e', "*e**e*");
  }

  /** Then a repeated 'e' changes nothing, and 'z' costs a life. */
  lemma LetterRepeatAndMiss(w: string)
    requires w == "letter"
    ensures Guess(GameState(w, "*e**e*", {'e'}, 7), 'e')
            == Turn(GameState(w, "*e**e*", {'e'}, 7), EnteredBefore)
    ensures Guess(GameState(w, "*e**e*", {'e'}, 7), 'z')
            == Turn(GameState(w, "*e**e*", {'e', 'z'}, 6), NotInWord)
  {
    var s := GameState(w, "*e**e*", {'e'}, 7);
    assert 'z' !in w;
    GuessRevealsMask(s, 'z', "*e**e*");
  }

  /** Then 't' reveals both t's. */
  lemma LetterGuessT(w: string)
    requires w == "letter"
    ensures Guess(GameState(w, "*e**e*", {'e', 'z'}, 6), 't')
            == Turn(GameState(w, "*ette*", {'e', 'z', 't'}, 6), InWord)
  {
    assert w[2] == 't';
    GuessRevealsMask(GameState(w, "*e**e*", {'e', 'z'}, 6), 't', "*ette*");
  }

  /** Then 'l' reveals the first position. */
  lemma LetterGuessL(w: string)
    requires w == "letter"
    ensures Guess(GameState(w, "*ette*", {'e', 'z', 't'}, 6), 'l')
            == Turn(GameState(w, "lette*", {'e', 'z', 't', 'l'}, 6), InWord)
  {
    assert w[0] == 'l';
    GuessRevealsMask(GameState(w, "*ette*", {'e', 'z', 't'}, 6), 'l', "lette*");
  }

  /** Then 'r' completes the word, and the round is won with 6 lives left. */
  lemma LetterGuessR(w: string)
    requires w == "letter"
    ensures Guess(GameState(w, "lette*", {'e', 'z', 't', 'l'}, 6), 'r')
            == Turn(GameState(w, w, {'e', 'z', 't', 'l', 'r'}, 6), InWord)
    ensures StatusOf(Guess(GameState(w, "lette*", {'e', 'z', 't', 'l'}, 6), 'r').next) == Won
  {
    var s := GameState(w, "lette*", {'e', 'z', 't', 'l'}, 6);
    assert w[5] == 'r';
    GuessRevealsMask(s, 'r', w);
  }

  /** "dog" with one life: a single miss loses the round. */
  lemma DogRound(w: string)
    requires w == "dog"
    ensures StatusOf(Guess(Start(w, 1), 'x').next) == Lost
  {
    var s := Start(w, 1);
    assert s.found == "***";
    assert 'x' !in w;
    GuessRevealsMask(s, 'x', "***");
  }

  /** The capitalised "Letter": guessing every letter of it, in either case, leaves the
      capital masked, so the round is not won. */
  lemma CapitalisedWordStaysMasked(w: string)
    requires w == "Letter"
    ensures Guess(Guess(Guess(Guess(Start(w, 7), 'L').next, 'l').next, 'e').next, 't').next.found != w
  {
    var s := Start(w, 7);
    StartIsConsistent(w, 7);
    GuessKeepsConsistent(s, 7, 'L');
    s := Guess(s, 'L').next;
    GuessKeepsConsistent(s, 7, 'l');
    s := Guess(s, 'l').next;
    GuessKeepsConsistent(s, 7, 'e');
    s := Guess(s, 'e').next;
    GuessKeepsConsistent(s, 7, 't');
    s := Guess(s, 't').next;
    ForeignCharacterIsNeverRevealed(s, 7, 0);
  }
}
