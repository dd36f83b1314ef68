/**
 The guess engine shared by the console game (Hangman.java) and the Swing game
 (HangmanUI.java): the game state, the one-letter step both files perform, the
 win/loss status, and the round invariant that every sequence of steps keeps.
 */
module GuessEngine {
  import opened Mask

  /** Offset of `c` from 'a', as both Java files compute `currLetter - 'a'`. */
  function LetterIndex(c: char): int {
    c as int - 'a' as int
  }

  /** The index guard on the 26-slot `letterEnteredBefore` array: only 'a'..'z' pass. */
  predicate InAlphabet(c: char): (b: bool)
    ensures b <==> 'a' <= c <= 'z'
  {
    0 <= LetterIndex(c) < 26
  }

  /** Lower-casing of one character, restricted to the ASCII letters. */
  function ToLower(c: char): (r: char)
    ensures 'A' <= c <= 'Z' ==> InAlphabet(r) && LetterIndex(r) == c as int - 'A' as int
    ensures !('A' <= c <= 'Z') ==> r == c
    ensures !('A' <= r <= 'Z')
  {
    if 'A' <= c <= 'Z' then (c as int - 'A' as int + 'a' as int) as char else c
  }

  /** `String.toLowerCase` on ASCII text: each character lower-cased, length kept. No
      capital is left, and text without capitals comes back unchanged. */
  function LowerString(s: string): (r: string)
    ensures |r| == |s|
    ensures forall i :: 0 <= i < |s| ==> r[i] == ToLower(s[i])
    ensures forall i :: 0 <= i < |r| ==> !('A' <= r[i] <= 'Z')
    ensures (forall i :: 0 <= i < |s| ==> !('A' <= s[i] <= 'Z')) ==> r == s
  {
    seq(|s|, i requires 0 <= i < |s| => ToLower(s[i]))
  }

  /** Lower-casing twice is lower-casing once. */
  lemma LowerStringIsIdempotent(s: string)
    ensures LowerString(LowerString(s)) == LowerString(s)
  {
  }

  /** One game: the secret word, the mask of what has been found so far, the set of
      letters entered before (the `boolean[26]` array) and the lives left. */
  datatype GameState = GameState(word: string, found: string, guessed: set<char>, lives: int)

  /** Which of the console's messages a guess produces; the Swing game shows none of them. */
  datatype Verdict = NotInAlphabet | EnteredBefore | InWord | NotInWord

  /** The state after one guess, and what the guess turned out to be. */
  datatype Turn = Turn(next: GameState, verdict: Verdict)

  /** Status after a guess; the win test is made first. */
  datatype Status = Playing | Won | Lost

  function StatusOf(s: GameState): (r: Status)
    ensures r == Won <==> s.found == s.word
    // implied by the line above; kept to say outright that the win test comes first
    ensures s.found == s.word && s.lives <= 0 ==> r == Won
    ensures r == Lost ==> s.lives <= 0 && s.found != s.word
    ensures r == Playing ==> s.lives > 0 && s.found != s.word
  {
    if s.word == s.found then Won else if s.lives <= 0 then Lost else Playing
  }

  /** The state a round starts in: everything masked, nothing guessed, full lives. */
  function Start(word: string, lives: int): (s: GameState)
    ensures s.word == word && s.lives == lives && s.guessed == {}
    ensures |s.found| == |word| && forall i :: 0 <= i < |word| ==> s.found[i] == Star
  {
    GameState(word, EncodeWordWithStars(word), {}, lives)
  }

  /** One guess of the (already lower-cased) letter `c`. A character outside 'a'..'z'
      and a letter entered before change nothing. A new letter is marked as entered,
      every position of the word holding it is revealed, and a life is lost when
      none does. */
  function Guess(s: GameState, c: char): (t: Turn)
    requires |s.found| == |s.word|
    ensures t.next.word == s.word && |t.next.found| == |s.found|
    ensures !InAlphabet(c) ==> t == Turn(s, NotInAlphabet)
    ensures InAlphabet(c) && c in s.guessed ==> t == Turn(s, EnteredBefore)
    ensures InAlphabet(c) && c !in s.guessed ==>
              && t.next.guessed == s.guessed + {c}
              && (forall i :: 0 <= i < |s.word| ==>
                    t.next.found[i] == (if s.word[i] == c then c else s.found[i]))
              && (c in s.word ==> t.verdict == InWord && t.next.lives == s.lives)
              && (c !in s.word ==> t.verdict == NotInWord && t.next.lives == s.lives - 1)
  {
    if !InAlphabet(c) then Turn(s, NotInAlphabet)
    else if c in s.guessed then Turn(s, EnteredBefore)
    else
      var scan := RevealFrom(s.word, s.found, c, 0);
      var lives := if scan.found then s.lives else s.lives - 1;
      Turn(GameState(s.word, scan.mask, s.guessed + {c}, lives),
           if scan.found then InWord else NotInWord)
  }

  /** The letters entered so far that are not in the word: the guesses that cost a life. */
  function Missed(s: GameState): set<char> {
    set c | c in s.guessed && c !in s.word
  }

  /** The round invariant relative to the lives the round started with: the mask shows
      exactly the positions whose character has been guessed, only 'a'..'z' are ever
      marked, and one life has gone for each missed letter. */
  predicate Consistent(s: GameState, initialLives: int) {
    && |s.found| == |s.word|
    && (forall c :: c in s.guessed ==> InAlphabet(c))
    && (forall i :: 0 <= i < |s.word| ==>
          s.found[i] == (if s.word[i] in s.guessed then s.word[i] else Star))
    && s.lives == initialLives - |Missed(s)|
  }

  lemma StartIsConsistent(word: string, lives: int)
    ensures Consistent(Start(word, lives), lives)
  {
    assert Missed(Start(word, lives)) == {};
  }

  /** Every guess keeps the round invariant. */
  lemma GuessKeepsConsistent(s: GameState, initialLives: int, c: char)
    requires Consistent(s, initialLives)
    ensures Consistent(Guess(s, c).next, initialLives)
  {
    var n := Guess(s, c).next;
    if InAlphabet(c) && c !in s.guessed {
      if c in s.word {
        assert Missed(n) == Missed(s);
      } else {
        assert Missed(n) == Missed(s) + {c};
      }
    }
  }

  /** A guess never gives back a life, costs at most one, never forgets an entered
      letter, and never hides a revealed position again. */
  lemma GuessIsMonotone(s: GameState, initialLives: int, c: char)
    requires Consistent(s, initialLives)
    ensures s.lives - 1 <= Guess(s, c).next.lives <= s.lives
    ensures s.guessed <= Guess(s, c).next.guessed
    ensures forall i :: 0 <= i < |s.found| && s.found[i] != Star ==>
              Guess(s, c).next.found[i] == s.found[i]
  {
  }

  /** Guessing the same character again changes nothing and is reported as entered
      before (or, for a non-letter, as not in the alphabet). */
  lemma GuessTwiceIsGuessOnce(s: GameState, c: char)
    requires |s.found| == |s.word|
    ensures Guess(Guess(s, c).next, c).next == Guess(s, c).next
    ensures Guess(Guess(s, c).next, c).verdict == (if InAlphabet(c) then EnteredBefore else NotInAlphabet)
  {
  }

  /** A miss leaves the mask as it was, so a miss never completes the word. */
  lemma MissRevealsNothing(s: GameState, c: char)
    requires |s.found| == |s.word|
    requires Guess(s, c).verdict == NotInWord
    ensures Guess(s, c).next.found == s.found
  {
    var n := Guess(s, c).next;
    assert forall i :: 0 <= i < |s.word| ==> n.found[i] == s.found[i];
  }

  /** For a word over 'a'..'z' the mask equals the word exactly when every letter of
      the word has been entered. */
  lemma WonIffEveryLetterGuessed(s: GameState, initialLives: int)
    requires Consistent(s, initialLives)
    requires forall i :: 0 <= i < |s.word| ==> InAlphabet(s.word[i])
    ensures s.found == s.word <==> forall i :: 0 <= i < |s.word| ==> s.word[i] in s.guessed
  {
    if forall i :: 0 <= i < |s.word| ==> s.word[i] in s.guessed {
      assert forall i :: 0 <= i < |s.word| ==> s.found[i] == s.word[i];
    } else {
      var i :| 0 <= i < |s.word| && s.word[i] !in s.guessed;
      assert s.found[i] == Star;
    }
  }

  /** Matching is exact, so a character of the word outside 'a'..'z' (an upper-case
      letter, a space) is never revealed and such a word is never won, unless the
      character is the star itself. */
  lemma ForeignCharacterIsNeverRevealed(s: GameState, initialLives: int, i: int)
    requires Consistent(s, initialLives)
    requires 0 <= i < |s.word| && !InAlphabet(s.word[i]) && s.word[i] != Star
    ensures s.found[i] == Star
    ensures s.found != s.word
  {
  }

  /** Lives only run below the starting count by the number of missed letters. */
  lemma LivesNeverExceedStart(s: GameState, initialLives: int)
    requires Consistent(s, initialLives)
    ensures s.lives <= initialLives
    ensures s.lives == initialLives <==> Missed(s) == {}
  {
  }

  /** The letters among `letters` that a guess would accept but that are not in `word`:
      each of them costs a life the first time it is entered. */
  function MissedIn(letters: string, word: string): set<char> {
    set c | c in letters && InAlphabet(c) && c !in word
  }

  /** The first `n` of `letters` are distinct letters of the alphabet that are neither in
      the word nor entered before: each of them will cost a life. */
  predicate FreshMisses(s: GameState, letters: string, n: int) {
    && 0 <= n <= |letters|
    && (forall j :: 0 <= j < n ==>
          InAlphabet(letters[j]) && letters[j] !in s.word && letters[j] !in s.guessed)
    && (forall j, k :: 0 <= j < k < n ==> letters[j] != letters[k])
  }

  lemma CardinalityIsMonotone(a: set<char>, b: set<char>)
    requires a <= b
    ensures |a| <= |b|
  {
    assert b == a + (b - a);
  }

  /** The letters a guess of `c` adds to the missed ones are among `c`'s own misses. */
  lemma GuessMissesOnlyItsLetter(s: GameState, initialLives: int, c: char, letters: string)
    requires Consistent(s, initialLives)
    requires c in letters
    ensures Missed(Guess(s, c).next) <= Missed(s) + MissedIn(letters, s.word)
  {
  }

  /** After a guess of `c`, every character of the word that was entered before or is `c`
      itself (and in the alphabet) has been entered. */
  lemma GuessCoversItsLetter(s: GameState, c: char, i: int)
    requires |s.found| == |s.word| && 0 <= i < |s.word| && InAlphabet(s.word[i])
    requires s.word[i] in s.guessed || s.word[i] == c
    ensures s.word[i] in Guess(s, c).next.guessed
  {
  }

  /** One guess of `letter` on the way to a win: if every letter of an `a`..`z` word is
      entered or among `letter` and the letters `more` still to come, and those miss fewer
      times than the round started with lives, the same holds after the guess for `more`
      alone, and lives remain before and after it. */
  lemma WinPremisesCarry(s: GameState, initialLives: int, letter: char, more: string)
    requires Consistent(s, initialLives)
    requires forall i :: 0 <= i < |s.word| ==> InAlphabet(s.word[i])
    requires forall i :: 0 <= i < |s.word| ==> s.word[i] in s.guessed || s.word[i] in [letter] + more
    requires |Missed(s) + MissedIn([letter] + more, s.word)| < initialLives
    ensures Consistent(Guess(s, letter).next, initialLives)
    ensures forall i :: 0 <= i < |s.word| ==>
              s.word[i] in Guess(s, letter).next.guessed || s.word[i] in more
    ensures |Missed(Guess(s, letter).next) + MissedIn(more, s.word)| < initialLives
    ensures s.lives > 0 && Guess(s, letter).next.lives > 0
  {
    var letters := [letter] + more;
    var bound := Missed(s) + MissedIn(letters, s.word);
    var next := Guess(s, letter).next;
    CardinalityIsMonotone(Missed(s), bound);
    GuessKeepsConsistent(s, initialLives, letter);
    GuessMissesOnlyItsLetter(s, initialLives, letter, letters);
    forall i | 0 <= i < |s.word| && (s.word[i] in s.guessed || s.word[i] == letter)
      ensures s.word[i] in next.guessed
    {
      GuessCoversItsLetter(s, letter, i);
    }
    assert MissedIn(more, s.word) <= MissedIn(letters, s.word);
    CardinalityIsMonotone(Missed(next) + MissedIn(more, s.word), bound);
    CardinalityIsMonotone(Missed(next), Missed(next) + MissedIn(more, s.word));
  }

  /** A fresh miss costs exactly one life, reveals nothing, and leaves the remaining
      letters fresh misses for the state after it. */
  lemma FreshMissStep(s: GameState, letters: string, n: int)
    requires |s.found| == |s.word| && FreshMisses(s, letters, n) && n > 0
    ensures Guess(s, letters[0]).next.lives == s.lives - 1
    ensures Guess(s, letters[0]).next.found == s.found
    ensures FreshMisses(Guess(s, letters[0]).next, letters[1..], n - 1)
  {
    MissRevealsNothing(s, letters[0]);
  }
}
