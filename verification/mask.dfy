/**
 The string helpers that Hangman.java and HangmanUI.java each define identically:
 building the all-star mask of a word, replacing one character of the mask, and the
 `for` loop that reveals every position of the secret word holding a guessed letter.
 */
module Mask {

  /** The character that hides a position not yet guessed. */
  const Star: char := '*'

  /** The mask a game starts from: one star per character of `word`, built by
      appending a star for each character in turn. */
  function EncodeWordWithStars(word: string): (mask: string)
    ensures |mask| == |word|
    ensures forall i :: 0 <= i < |mask| ==> mask[i] == Star
  {
    if |word| == 0 then "" else EncodeWordWithStars(word[..|word| - 1]) + [Star]
  }

  /** The mask with the character at index `i` replaced by `letter`: the prefix before `i`,
      then `letter`, then the suffix after `i`. */
  function GetWordFoundSoFar(mask: string, letter: char, i: int): (r: string)
    requires 0 <= i < |mask|
    ensures |r| == |mask|
    ensures r[i] == letter
    ensures forall j :: 0 <= j < |mask| && j != i ==> r[j] == mask[j]
  {
    mask[..i] + [letter] + mask[i + 1..]
  }

  /** What the reveal loop leaves behind: the updated mask and whether any position matched. */
  datatype Scan = Scan(mask: string, found: bool)

  /** The reveal loop from position `from` to the end of `word`: every position whose
      character equals `letter` is revealed through GetWordFoundSoFar, and `found` is set
      once any position matched. Matching is exact character equality. */
  function RevealFrom(word: string, mask: string, letter: char, from: nat): (r: Scan)
    requires |mask| == |word| && from <= |word|
    ensures |r.mask| == |mask|
    ensures forall j :: 0 <= j < |mask| ==>
              r.mask[j] == (if from <= j && word[j] == letter then letter else mask[j])
    ensures r.found <==> exists j :: from <= j < |word| && word[j] == letter
    decreases |word| - from
  {
    if from == |word| then Scan(mask, false)
    else
      var next := if word[from] == letter then GetWordFoundSoFar(mask, letter, from) else mask;
      var rest := RevealFrom(word, next, letter, from + 1);
      Scan(rest.mask, rest.found || word[from] == letter)
  }
}
