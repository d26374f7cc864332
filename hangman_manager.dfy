/** The decision engine of evil hangman: a live pool of candidate words that
    every guess narrows to the family the adversary prefers, without ever
    committing to a secret word. */
module Hangman {
  import opened Patterns
  import opened Ranking
  import opened Partition
  import opened Scheduler
  import opened Guesses

  datatype Error = RepeatedGuess(letter: char) | NoWordsLeft

  datatype Result<T> = Ok(value: T) | Err(error: Error)

  /** The words of origin with exactly the given length. */
  function OfLength(origin: set<string>, length: int): (words: set<string>)
  {
    set w | w in origin && |w| == length
  }

  /** The round state as values: the pattern has the round's length, every
      live word is an origin word that agrees with the pattern, no word is
      live twice, and every revealed letter was guessed. */
  ghost predicate Consistent(bank: seq<string>, pat: string, guessed: set<char>, origin: set<string>, length: nat)
  {
    && |pat| == length
    && Live(bank, pat)
    && NoDuplicates(bank)
    && (forall w :: w in bank ==> w in origin)
    && (forall i :: 0 <= i < |pat| && pat[i] != Blank ==> pat[i] in guessed)
  }

  /** Committing a guess to one of its families keeps the round consistent. */
  lemma CommitConsistent(bank: seq<string>, pat: string, guessed: set<char>, origin: set<string>,
                         length: nat, g: char, p: string)
    requires Consistent(bank, pat, guessed, origin, length)
    requires p in Families(bank, pat, g)
    ensures Consistent(Families(bank, pat, g)[p], p, guessed + {g}, origin, length)
    ensures Agrees(pat, p)
    ensures 0 < |Families(bank, pat, g)[p]| <= |bank|
    ensures forall w :: w in Families(bank, pat, g)[p] ==> w in bank
  {
    ChosenFamily(bank, pat, g, p);
  }

  class HangmanManager {
    var debugOn: bool
    var originBank: set<string>
    var curBank: seq<string>
    var guessedCharBank: set<char>
    var curPattern: string
    var wordLen: nat
    var maxGuessLeft: int
    var hardestMax: Limit
    var curHardCount: nat
    var hardest: bool

    /** The round state is consistent and the mercy counter has not passed
        the tier's limit. */
    ghost predicate Valid()
      reads this
    {
      && Consistent(curBank, curPattern, guessedCharBank, originBank, wordLen)
      && (hardestMax.After? ==> curHardCount <= hardestMax.max)
    }

    constructor (words: set<string>, debugOn: bool)
      requires |words| > 0
      ensures Valid()
      ensures originBank == words && this.debugOn == debugOn
      ensures curBank == [] && guessedCharBank == {}
      ensures curPattern == [] && wordLen == 0 && maxGuessLeft == 0
      ensures hardestMax == After(0) && curHardCount == 0 && !hardest
    {
      this.debugOn := debugOn;
      originBank := words;
      curBank := [];
      guessedCharBank := {};
      curPattern := [];
      wordLen := 0;
      maxGuessLeft := 0;
      hardestMax := After(0);
      curHardCount := 0;
      hardest := false;
    }

    /** The same, with debugging off. */
    constructor WithoutDebug(words: set<string>)
      requires |words| > 0
      ensures Valid()
      ensures originBank == words && !debugOn
      ensures curBank == [] && guessedCharBank == {}
      ensures curPattern == [] && wordLen == 0 && maxGuessLeft == 0
      ensures hardestMax == After(0) && curHardCount == 0 && !hardest
    {
      debugOn := false;
      originBank := words;
      curBank := [];
      guessedCharBank := {};
      curPattern := [];
      wordLen := 0;
      maxGuessLeft := 0;
      hardestMax := After(0);
      curHardCount := 0;
      hardest := false;
    }

    /** The number of origin words of the given length. */
    method NumWords(length: int) returns (count: nat)
      ensures count == |OfLength(originBank, length)|
    {
      var rest := originBank;
      count := 0;
      while rest != {}
        invariant rest <= originBank
        invariant count == |OfLength(originBank - rest, length)|
        decreases rest
      {
        var w :| w in rest;
        ghost var before := OfLength(originBank - rest, length);
        assert w !in before;
        if |w| == length {
          assert OfLength(originBank - (rest - {w}), length) == before + {w};
          count := count + 1;
        } else {
          assert OfLength(originBank - (rest - {w}), length) == before;
        }
        rest := rest - {w};
      }
      assert originBank - rest == originBank;
    }

    /** Starts a round: all-blank pattern, the origin words of the length as
        the pool, nothing guessed, a fresh mercy counter and the tier's limit. */
    method PrepForRound(wordLen: nat, numGuesses: int, diff: Limit)
      modifies this
      ensures Valid()
      ensures this.wordLen == wordLen && maxGuessLeft == numGuesses
      ensures hardestMax == diff && curHardCount == 0
      ensures curPattern == AllBlank(wordLen)
      ensures forall w :: w in curBank <==> w in OfLength(originBank, wordLen)
      ensures |curBank| == |OfLength(originBank, wordLen)|
      ensures guessedCharBank == {}
      ensures originBank == old(originBank) && debugOn == old(debugOn)
      ensures hardest == old(hardest)
    {
      this.wordLen := wordLen;
      maxGuessLeft := numGuesses;
      curHardCount := 0;
      curPattern := SetDefaultPattern(wordLen);
      curBank := SetWordBank(wordLen);
      guessedCharBank := {};
      hardestMax := diff;
    }

    /** The blank pattern of the given length. */
    method SetDefaultPattern(wordLen: nat) returns (temp: string)
      ensures temp == AllBlank(wordLen)
    {
      temp := [];
      var x := 0;
      while x < wordLen
        invariant 0 <= x <= wordLen
        invariant temp == AllBlank(x)
      {
        temp := temp + [Blank];
        x := x + 1;
      }
    }

    /** The origin words of the given length, each once, in iteration order. */
    method SetWordBank(wordLen: nat) returns (temp: seq<string>)
      ensures forall w :: w in temp <==> w in OfLength(originBank, wordLen)
      ensures NoDuplicates(temp)
      ensures |temp| == |OfLength(originBank, wordLen)|
    {
      temp := [];
      var rest := originBank;
      while rest != {}
        invariant rest <= originBank
        invariant forall w :: w in temp <==> w in OfLength(originBank - rest, wordLen)
        invariant NoDuplicates(temp)
        invariant |temp| == |OfLength(originBank - rest, wordLen)|
        decreases rest
      {
        var curWord :| curWord in rest;
        ghost var before := OfLength(originBank - rest, wordLen);
        assert curWord !in before;
        if |curWord| == wordLen {
          assert OfLength(originBank - (rest - {curWord}), wordLen) == before + {curWord};
          temp := temp + [curWord];
        } else {
          assert OfLength(originBank - (rest - {curWord}), wordLen) == before;
        }
        rest := rest - {curWord};
      }
      assert originBank - rest == originBank;
    }

    function NumWordsCurrent(): (n: nat)
      reads this
    {
      |curBank|
    }

    function GetGuessesLeft(): (left: int)
      reads this
    {
      maxGuessLeft
    }

    function AlreadyGuessed(guess: char): (b: bool)
      reads this
    {
      guess in guessedCharBank
    }

    function GetPattern(): (pattern: string)
      reads this
    {
      curPattern
    }

    /** The guessed letters, ascending and each once, as "[a, c, e]"; "[]"
        when nothing has been guessed. */
    method GetGuessesMade() returns (s: string)
      ensures s == Render(Ascending(guessedCharBank))
    {
      var letters := AscendingLetters(guessedCharBank);
      s := RenderLetters(letters);
    }

    /** Commits one guess: on a letter already guessed an error and no change;
        otherwise the scheduler's family becomes the pattern and the pool, the
        letter is recorded, a guess the new pattern does not show costs one
        wrong guess, and the full pattern-to-size map is returned. */
    method MakeGuess(guess: char) returns (r: Result<map<string, int>>)
      requires Valid() && |curBank| > 0
      modifies this
      ensures Valid()
      ensures originBank == old(originBank) && wordLen == old(wordLen)
      ensures hardestMax == old(hardestMax) && debugOn == old(debugOn)
      ensures r.Ok? <==> guess !in old(guessedCharBank)
      ensures r.Err? ==> r.error == RepeatedGuess(guess) && unchanged(this)
      ensures r.Ok? ==> r.value == Frequency(Families(old(curBank), old(curPattern), guess))
      ensures r.Ok? ==> Chosen(hardestMax, old(curHardCount), r.value, curPattern)
      ensures r.Ok? ==> curBank == Families(old(curBank), old(curPattern), guess)[curPattern]
      ensures r.Ok? ==> curHardCount == NextCount(hardestMax, old(curHardCount))
      ensures r.Ok? ==> hardest == !IsMercy(hardestMax, old(curHardCount))
      ensures r.Ok? ==> guessedCharBank == old(guessedCharBank) + {guess}
      ensures r.Ok? ==> maxGuessLeft == if guess in curPattern then old(maxGuessLeft) else old(maxGuessLeft) - 1
      ensures r.Ok? ==> Agrees(old(curPattern), curPattern)
      ensures r.Ok? ==> 0 < |curBank| <= |old(curBank)| && forall w :: w in curBank ==> w in old(curBank)
    {
      if AlreadyGuessed(guess) {
        return Err(RepeatedGuess(guess));
      }
      var familyTree := SortFamilies(guess);
      var freq := SetFrequency(familyTree);
      FamiliesNonEmpty(curBank, curPattern, guess);
      assert freq.Keys == familyTree.Keys;
      var pattern := GetNewPattern(freq);
      CommitConsistent(curBank, curPattern, guessedCharBank, originBank, wordLen, guess, pattern);
      Commit(pattern, familyTree[pattern], guess);
      r := Ok(freq);
    }

    /** Records the guess and installs the chosen family as pattern and pool;
        a guess the new pattern does not show costs one wrong guess. */
    method Commit(pattern: string, family: seq<string>, guess: char)
      requires Consistent(family, pattern, guessedCharBank + {guess}, originBank, wordLen)
      requires hardestMax.After? ==> curHardCount <= hardestMax.max
      modifies this`curPattern, this`curBank, this`guessedCharBank, this`maxGuessLeft
      ensures Valid()
      ensures curPattern == pattern && curBank == family
      ensures guessedCharBank == old(guessedCharBank) + {guess}
      ensures maxGuessLeft == if guess in pattern then old(maxGuessLeft) else old(maxGuessLeft) - 1
    {
      curPattern := pattern;
      curBank := family;
      guessedCharBank := guessedCharBank + {guess};
      if guess !in curPattern {
        maxGuessLeft := maxGuessLeft - 1;
      }
    }

    /** The candidate family keys: the current pattern, then the pattern of
        each live word that contains the guess. */
    method FindPattern(guess: char) returns (temp: seq<string>)
      requires |curPattern| == wordLen && SameLength(curBank, curPattern)
      ensures temp == Partition.FindPattern(curBank, curPattern, guess)
    {
      temp := [curPattern];
      var x := 0;
      while x < |curBank|
        invariant 0 <= x <= |curBank|
        invariant SameLength(curBank[..x], curPattern)
        invariant temp == Partition.FindPattern(curBank[..x], curPattern, guess)
      {
        assert curBank[x] in curBank;
        FindPatternPrefix(curBank, x, curPattern, guess);
        if guess in curBank[x] {
          var p := CreatePattern(curBank[x], curPattern, guess);
          temp := temp + [p];
        }
        x := x + 1;
      }
      assert curBank[..|curBank|] == curBank;
    }

    /** The pattern word produces for guess on top of curPattern: the guess
        where the word has it, the word's letter where curPattern reveals
        one, the blank marker elsewhere. */
    method CreatePattern(word: string, curPattern: string, guess: char) returns (temp: string)
      requires |word| == wordLen && |curPattern| == wordLen
      ensures |temp| == wordLen
      ensures forall x :: 0 <= x < wordLen ==>
                temp[x] == (if word[x] == guess then guess
                            else if curPattern[x] != Blank then word[x]
                            else Blank)
      ensures temp == Reveal(word, curPattern, guess)
    {
      temp := [];
      var x := 0;
      while x < wordLen
        invariant 0 <= x <= wordLen
        invariant |temp| == x
        invariant forall i :: 0 <= i < x ==> temp[i] == RevealAt(word[i], curPattern[i], guess)
      {
        if word[x] == guess {
          temp := temp + [guess];
        } else if curPattern[x] != Blank {
          temp := temp + [word[x]];
        } else {
          temp := temp + [Blank];
        }
        x := x + 1;
      }
    }

    /** Each candidate key with a non-empty family, mapped to that family. */
    method SortFamilies(guess: char) returns (family: map<string, seq<string>>)
      requires |curPattern| == wordLen && SameLength(curBank, curPattern)
      ensures family == Families(curBank, curPattern, guess)
    {
      family := map[];
      var patterns := FindPattern(guess);
      var x := 0;
      while x < |patterns|
        invariant 0 <= x <= |patterns|
        invariant family == Partition.SortFamilies(patterns[..x], curBank, curPattern, guess)
      {
        var smallBank := CollectFamily(patterns[x], guess);
        SortFamiliesPrefix(patterns, x, curBank, curPattern, guess);
        if |smallBank| > 0 {
          family := family[patterns[x] := smallBank];
        }
        x := x + 1;
      }
      assert patterns[..|patterns|] == patterns;
    }

    /** The live words, in pool order, whose pattern for guess is key (the
        inner loop of sortFamilies). */
    method CollectFamily(key: string, guess: char) returns (smallBank: seq<string>)
      requires |curPattern| == wordLen && SameLength(curBank, curPattern)
      ensures smallBank == FamilyOf(curBank, curPattern, guess, key)
    {
      smallBank := [];
      var y := 0;
      while y < |curBank|
        invariant 0 <= y <= |curBank|
        invariant SameLength(curBank[..y], curPattern)
        invariant smallBank == FamilyOf(curBank[..y], curPattern, guess, key)
      {
        assert curBank[y] in curBank;
        FamilyOfPrefix(curBank, y, curPattern, guess, key);
        var p := CreatePattern(curBank[y], curPattern, guess);
        if key == p {
          smallBank := smallBank + [curBank[y]];
        }
        y := y + 1;
      }
      assert curBank[..|curBank|] == curBank;
    }

    /** Picks the next pattern: on a mercy pick the counter resets and the
        second-hardest family is chosen (the only one when there is just
        one); otherwise the counter grows and the hardest family is chosen. */
    method GetNewPattern(pattern: map<string, int>) returns (p: string)
      requires Valid() && |pattern| > 0
      modifies this`curHardCount, this`hardest
      ensures Valid()
      ensures p in pattern
      ensures Chosen(hardestMax, old(curHardCount), pattern, p)
      ensures curHardCount == NextCount(hardestMax, old(curHardCount))
      ensures hardest == !IsMercy(hardestMax, old(curHardCount))
    {
      var patterns := SortPattern(pattern);
      LastIsHardest(patterns, pattern);
      if IsMercy(hardestMax, curHardCount) {
        hardest := false;
        curHardCount := 0;
        if |patterns| == 1 {
          return patterns[|patterns| - 1].pattern;
        }
        SecondToLastIsSecondHardest(patterns, pattern);
        p := patterns[|patterns| - 2].pattern;
        ghost var h :| IsHardest(pattern, h) && h != p && IsHardest(pattern - {h}, p);
        assert p in pattern - {h};
        return p;
      }
      curHardCount := curHardCount + 1;
      hardest := true;
      return patterns[|patterns| - 1].pattern;
    }

    /** The families as (pattern, size) entries in ascending order of the
        comparator, easiest first. */
    method SortPattern(list: map<string, int>) returns (temp: seq<HardestList>)
      ensures SortedByRank(temp) && ListsFrequency(temp, list)
      ensures |temp| == |list|
    {
      temp := [];
      var rest := list.Keys;
      while rest != {}
        invariant rest <= list.Keys
        invariant SortedByRank(temp)
        invariant forall e :: e in temp <==> e.pattern in list.Keys - rest && list[e.pattern] == e.value
        invariant |temp| == |list.Keys - rest|
        decreases rest
      {
        var pattern :| pattern in rest;
        var e := HardestList(pattern, list[pattern]);
        assert (list.Keys - (rest - {pattern})) == (list.Keys - rest) + {pattern};
        temp := Insert(e, temp);
        rest := rest - {pattern};
      }
      assert list.Keys - rest == list.Keys;
    }

    /** The size of each family. */
    method SetFrequency(list: map<string, seq<string>>) returns (temp: map<string, int>)
      ensures temp == Frequency(list)
    {
      temp := map[];
      var rest := list.Keys;
      while rest != {}
        invariant rest <= list.Keys
        invariant temp.Keys == list.Keys - rest
        invariant forall p :: p in temp ==> temp[p] == |list[p]|
        decreases rest
      {
        var pattern :| pattern in rest;
        temp := temp[pattern := |list[pattern]|];
        rest := rest - {pattern};
      }
      assert temp.Keys == Frequency(list).Keys;
    }

    /** A live word: an error when the pool is empty, the sole word when one
        remains, some live word (Java's getSecretWord picks it with Math.random) otherwise. */
    method GetSecretWord() returns (r: Result<string>)
      ensures r.Err? <==> |curBank| == 0
      ensures r.Err? ==> r.error == NoWordsLeft
      ensures r.Ok? ==> r.value in curBank
      ensures |curBank| == 1 ==> r == Ok(curBank[0])
    {
      if NumWordsCurrent() == 0 {
        return Err(NoWordsLeft);
      }
      if |curBank| > 1 {
        var i :| 0 <= i < |curBank|;
        return Ok(curBank[i]);
      }
      return Ok(curBank[0]);
    }
  }
}
