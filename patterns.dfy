/** Reveal patterns: the template of revealed letters that one guess
    produces for one candidate word (createPattern, setDefaultPattern). */
module Patterns {

  /** The marker of an unrevealed position. */
  const Blank: char := '-'

  /** The all-blank pattern of length n that opens a round. */
  function AllBlank(n: nat): (r: string)
    ensures |r| == n
    ensures forall i :: 0 <= i < n ==> r[i] == Blank
  {
    if n == 0 then [] else AllBlank(n - 1) + [Blank]
  }

  /** What one position shows after guessing g, given the word's letter w
      there and the current pattern's character p there. */
  function RevealAt(w: char, p: char, g: char): (r: char)
  {
    if w == g then g else if p != Blank then w else Blank
  }

  /** The pattern word would show after guessing g on top of pat. */
  function Reveal(word: string, pat: string, g: char): (r: string)
    requires |word| == |pat|
  {
    seq(|word|, i requires 0 <= i < |word| => RevealAt(word[i], pat[i], g))
  }

  /** s has pat's length and shows pat's letter at every position pat reveals. */
  predicate Agrees(pat: string, s: string)
  {
    |s| == |pat| && forall i :: 0 <= i < |pat| && pat[i] != Blank ==> s[i] == pat[i]
  }

  /** The pattern a guess produces has the word's length and keeps every
      position the current pattern reveals, for a word that agrees with it. */
  lemma RevealKeepsRevealed(word: string, pat: string, g: char)
    requires Agrees(pat, word)
    ensures |Reveal(word, pat, g)| == |word|
    ensures Agrees(pat, Reveal(word, pat, g))
  {
  }

  /** A word agrees with the pattern it produces. */
  lemma WordAgreesWithReveal(word: string, pat: string, g: char)
    requires |word| == |pat|
    ensures Agrees(Reveal(word, pat, g), word)
  {
  }

  /** A word that agrees with pat and lacks g produces pat itself. */
  lemma RevealWithoutGuess(word: string, pat: string, g: char)
    requires Agrees(pat, word)
    requires g !in word
    ensures Reveal(word, pat, g) == pat
  {
    var r := Reveal(word, pat, g);
    forall i | 0 <= i < |pat|
      ensures r[i] == pat[i]
    {
      assert word[i] != g;
    }
  }

  /** A letter other than the blank marker shows in the produced pattern
      exactly when it occurs in the word. */
  lemma RevealShowsGuess(word: string, pat: string, g: char)
    requires |word| == |pat|
    requires g != Blank
    ensures g in Reveal(word, pat, g) <==> g in word
  {
    var r := Reveal(word, pat, g);
    if g in word {
      var i :| 0 <= i < |word| && word[i] == g;
      assert r[i] == g;
    }
  }

  /** Every letter the produced pattern reveals is g or was revealed by pat,
      for a word that agrees with pat. */
  lemma RevealedLettersOfReveal(word: string, pat: string, g: char, i: nat)
    requires Agrees(pat, word)
    requires i < |pat|
    ensures Reveal(word, pat, g)[i] != Blank ==>
              Reveal(word, pat, g)[i] == g || Reveal(word, pat, g)[i] == pat[i]
  {
  }
}
