/** Family partitioning: the live words grouped by the pattern a guess would
    produce for each of them (findPattern, sortFamilies, setFrequency). */
module Partition {
  import opened Patterns

  /** Every word of bank has the pattern's length. */
  predicate SameLength(bank: seq<string>, pat: string)
  {
    forall w :: w in bank ==> |w| == |pat|
  }

  /** Every word of bank agrees with the pattern at its revealed positions. */
  predicate Live(bank: seq<string>, pat: string)
  {
    forall w :: w in bank ==> Agrees(pat, w)
  }

  /** No word occurs twice. */
  predicate NoDuplicates(bank: seq<string>)
  {
    forall i, j :: 0 <= i < j < |bank| ==> bank[i] != bank[j]
  }

  /** The family of key: the words of bank, in their order, whose pattern
      for guess g is key. */
  function FamilyOf(bank: seq<string>, pat: string, g: char, key: string): (family: seq<string>)
    requires SameLength(bank, pat)
  {
    if bank == [] then []
    else
      var last := bank[|bank| - 1];
      assert forall w :: w in bank[..|bank| - 1] ==> w in bank;
      FamilyOf(bank[..|bank| - 1], pat, g, key) + (if Reveal(last, pat, g) == key then [last] else [])
  }

  /** A family holds exactly the words of the pool that produce its key. */
  lemma {:induction false} FamilyOfMembers(bank: seq<string>, pat: string, g: char, key: string)
    requires SameLength(bank, pat)
    ensures |FamilyOf(bank, pat, g, key)| <= |bank|
    ensures forall w :: w in FamilyOf(bank, pat, g, key) <==> w in bank && Reveal(w, pat, g) == key
  {
    if bank != [] {
      var init := bank[..|bank| - 1];
      assert forall w :: w in init ==> w in bank;
      assert forall w :: w in bank ==> w in init || w == bank[|bank| - 1];
      FamilyOfMembers(init, pat, g, key);
    }
  }

  /** The candidate keys: the current pattern first, then the pattern of
      each word that contains g. */
  function FindPattern(bank: seq<string>, pat: string, g: char): (keys: seq<string>)
    requires SameLength(bank, pat)
  {
    if bank == [] then [pat]
    else
      assert forall w :: w in bank[..|bank| - 1] ==> w in bank;
      FindPattern(bank[..|bank| - 1], pat, g) +
        (if g in bank[|bank| - 1] then [Reveal(bank[|bank| - 1], pat, g)] else [])
  }

  /** The keys start with the current pattern and include the pattern of
      every word that contains g. */
  lemma {:induction false} FindPatternCovers(bank: seq<string>, pat: string, g: char)
    requires SameLength(bank, pat)
    ensures |FindPattern(bank, pat, g)| >= 1 && FindPattern(bank, pat, g)[0] == pat
    ensures forall w :: w in bank && g in w ==> Reveal(w, pat, g) in FindPattern(bank, pat, g)
  {
    if bank != [] {
      var init := bank[..|bank| - 1];
      assert forall w :: w in init ==> w in bank;
      assert forall w :: w in bank ==> w in init || w == bank[|bank| - 1];
      FindPatternCovers(init, pat, g);
    }
  }

  /** Each key with a non-empty family, mapped to that family. */
  function SortFamilies(keys: seq<string>, bank: seq<string>, pat: string, g: char): (m: map<string, seq<string>>)
    requires SameLength(bank, pat)
  {
    if keys == [] then map[]
    else
      var key := keys[|keys| - 1];
      var m := SortFamilies(keys[..|keys| - 1], bank, pat, g);
      var f := FamilyOf(bank, pat, g, key);
      if |f| > 0 then m[key := f] else m
  }

  /** The family map has a key exactly for each candidate key whose family
      is non-empty, and maps it to that family. */
  lemma {:induction false} SortFamiliesEntries(keys: seq<string>, bank: seq<string>, pat: string, g: char)
    requires SameLength(bank, pat)
    ensures forall p :: p in SortFamilies(keys, bank, pat, g) <==> p in keys && |FamilyOf(bank, pat, g, p)| > 0
    ensures forall p :: p in SortFamilies(keys, bank, pat, g) ==>
              SortFamilies(keys, bank, pat, g)[p] == FamilyOf(bank, pat, g, p)
  {
    if keys != [] {
      var init := keys[..|keys| - 1];
      assert forall p :: p in keys ==> p in init || p == keys[|keys| - 1];
      SortFamiliesEntries(init, bank, pat, g);
    }
  }

  /** The families a guess of g produces from the live pool bank. */
  function Families(bank: seq<string>, pat: string, g: char): (m: map<string, seq<string>>)
    requires SameLength(bank, pat)
  {
    SortFamilies(FindPattern(bank, pat, g), bank, pat, g)
  }

  /** Pattern-to-size map of a family map. */
  function Frequency(fam: map<string, seq<string>>): (freq: map<string, int>)
  {
    map p | p in fam :: |fam[p]|
  }

  /** One more word of the pool extends its family by that word or not at all. */
  lemma FamilyOfPrefix(bank: seq<string>, y: nat, pat: string, g: char, key: string)
    requires SameLength(bank, pat) && y < |bank|
    ensures SameLength(bank[..y], pat) && SameLength(bank[..y + 1], pat)
    ensures FamilyOf(bank[..y + 1], pat, g, key) ==
              FamilyOf(bank[..y], pat, g, key) + (if Reveal(bank[y], pat, g) == key then [bank[y]] else [])
  {
    assert forall w :: w in bank[..y + 1] ==> w in bank;
    assert bank[..y + 1][..y] == bank[..y];
  }

  /** One more word of the pool adds its pattern to the keys when it contains g. */
  lemma FindPatternPrefix(bank: seq<string>, x: nat, pat: string, g: char)
    requires SameLength(bank, pat) && x < |bank|
    ensures SameLength(bank[..x], pat) && SameLength(bank[..x + 1], pat)
    ensures FindPattern(bank[..x + 1], pat, g) ==
              FindPattern(bank[..x], pat, g) + (if g in bank[x] then [Reveal(bank[x], pat, g)] else [])
  {
    assert forall w :: w in bank[..x + 1] ==> w in bank;
    assert bank[..x + 1][..x] == bank[..x];
  }

  /** One more key adds its family when that family is non-empty. */
  lemma SortFamiliesPrefix(keys: seq<string>, x: nat, bank: seq<string>, pat: string, g: char)
    requires SameLength(bank, pat) && x < |keys|
    ensures SortFamilies(keys[..x + 1], bank, pat, g) ==
              var f := FamilyOf(bank, pat, g, keys[x]);
              if |f| > 0 then SortFamilies(keys[..x], bank, pat, g)[keys[x] := f]
              else SortFamilies(keys[..x], bank, pat, g)
  {
    assert keys[..x + 1][..x] == keys[..x];
  }

  /** Exact partition: the families are non-empty, each word of a family
      produces that family's pattern, two distinct families share no word,
      and every live word is filed under the pattern it produces. */
  lemma FamiliesPartition(bank: seq<string>, pat: string, g: char)
    requires Live(bank, pat)
    ensures forall p :: p in Families(bank, pat, g) ==> |Families(bank, pat, g)[p]| > 0
    ensures forall p, w :: p in Families(bank, pat, g) && w in Families(bank, pat, g)[p] ==>
              w in bank && Reveal(w, pat, g) == p
    ensures forall p, q, w ::
              (p in Families(bank, pat, g) && q in Families(bank, pat, g) &&
               w in Families(bank, pat, g)[p] && w in Families(bank, pat, g)[q]) ==> p == q
    ensures forall w :: w in bank ==>
              Reveal(w, pat, g) in Families(bank, pat, g) &&
              w in Families(bank, pat, g)[Reveal(w, pat, g)]
  {
    var keys := FindPattern(bank, pat, g);
    FindPatternCovers(bank, pat, g);
    SortFamiliesEntries(keys, bank, pat, g);
    forall p | p in keys {
      FamilyOfMembers(bank, pat, g, p);
    }
    forall w | w in bank
      ensures Reveal(w, pat, g) in keys
    {
      FamilyOfMembers(bank, pat, g, Reveal(w, pat, g));
      if g !in w {
        RevealWithoutGuess(w, pat, g);
      }
    }
  }

  /** A family's pattern extends the current one, reveals nothing but the
      guess on top of it, and every word of the family agrees with it. */
  lemma FamilyPattern(bank: seq<string>, pat: string, g: char, p: string)
    requires Live(bank, pat)
    requires p in Families(bank, pat, g)
    ensures Agrees(pat, p)
    ensures forall i :: 0 <= i < |p| && p[i] != Blank ==> p[i] == g || p[i] == pat[i]
    ensures forall w :: w in Families(bank, pat, g)[p] ==> Agrees(p, w)
  {
    FamiliesPartition(bank, pat, g);
    var fam := Families(bank, pat, g)[p];
    var w0 := fam[0];
    assert w0 in fam;
    RevealKeepsRevealed(w0, pat, g);
    forall w | w in fam ensures Agrees(p, w) {
      WordAgreesWithReveal(w, pat, g);
    }
  }

  /** A family of a pool without duplicates has none either. */
  lemma {:induction false} FamilyOfNoDuplicates(bank: seq<string>, pat: string, g: char, key: string)
    requires SameLength(bank, pat) && NoDuplicates(bank)
    ensures NoDuplicates(FamilyOf(bank, pat, g, key))
  {
    if bank != [] {
      var init := bank[..|bank| - 1];
      assert forall w :: w in init ==> w in bank;
      FamilyOfNoDuplicates(init, pat, g, key);
      FamilyOfMembers(init, pat, g, key);
      var last := bank[|bank| - 1];
      assert last !in init;
    }
  }

  /** A live pool has at least one family. */
  lemma FamiliesNonEmpty(bank: seq<string>, pat: string, g: char)
    requires Live(bank, pat) && |bank| > 0
    ensures |Families(bank, pat, g)| > 0
  {
    FamiliesPartition(bank, pat, g);
    assert bank[0] in bank;
    assert Reveal(bank[0], pat, g) in Families(bank, pat, g);
  }

  /** Any family can become the new pool: it is a non-empty sub-pool without
      duplicates, live for its own pattern, and that pattern extends the
      current one by occurrences of the guess only. */
  lemma ChosenFamily(bank: seq<string>, pat: string, g: char, p: string)
    requires Live(bank, pat) && NoDuplicates(bank)
    requires p in Families(bank, pat, g)
    ensures 0 < |Families(bank, pat, g)[p]| <= |bank|
    ensures forall w :: w in Families(bank, pat, g)[p] ==> w in bank
    ensures Live(Families(bank, pat, g)[p], p) && NoDuplicates(Families(bank, pat, g)[p])
    ensures Agrees(pat, p)
    ensures forall i :: 0 <= i < |p| && p[i] != Blank ==> p[i] == g || p[i] == pat[i]
  {
    FamiliesPartition(bank, pat, g);
    FamilyPattern(bank, pat, g, p);
    SortFamiliesEntries(FindPattern(bank, pat, g), bank, pat, g);
    FamilyOfMembers(bank, pat, g, p);
    FamilyOfNoDuplicates(bank, pat, g, p);
  }

  /** Sum of the values of a map. */
  ghost function Total(freq: map<string, int>): (sum: int)
    decreases |freq|
  {
    if freq == map[] then 0
    else
      var p :| p in freq;
      assert (freq - {p}).Keys == freq.Keys - {p};
      freq[p] + Total(freq - {p})
  }

  /** Number of words of bank whose pattern for guess g lies in S. */
  function Matching(bank: seq<string>, pat: string, g: char, S: set<string>): (n: nat)
    requires SameLength(bank, pat)
  {
    if bank == [] then 0
    else
      assert forall w :: w in bank[..|bank| - 1] ==> w in bank;
      Matching(bank[..|bank| - 1], pat, g, S) + (if Reveal(bank[|bank| - 1], pat, g) in S then 1 else 0)
  }

  lemma {:induction false} MatchingSplit(bank: seq<string>, pat: string, g: char, S: set<string>, k: string)
    requires SameLength(bank, pat) && k in S
    ensures Matching(bank, pat, g, S) == Matching(bank, pat, g, {k}) + Matching(bank, pat, g, S - {k})
  {
    if bank != [] {
      assert forall w :: w in bank[..|bank| - 1] ==> w in bank;
      MatchingSplit(bank[..|bank| - 1], pat, g, S, k);
    }
  }

  lemma {:induction false} MatchingNone(bank: seq<string>, pat: string, g: char)
    requires SameLength(bank, pat)
    ensures Matching(bank, pat, g, {}) == 0
  {
    if bank != [] {
      assert forall w :: w in bank[..|bank| - 1] ==> w in bank;
      MatchingNone(bank[..|bank| - 1], pat, g);
    }
  }

  lemma {:induction false} MatchingAll(bank: seq<string>, pat: string, g: char, S: set<string>)
    requires SameLength(bank, pat)
    requires forall w :: w in bank ==> Reveal(w, pat, g) in S
    ensures Matching(bank, pat, g, S) == |bank|
  {
    if bank != [] {
      assert forall w :: w in bank[..|bank| - 1] ==> w in bank;
      MatchingAll(bank[..|bank| - 1], pat, g, S);
    }
  }

  lemma {:induction false} FamilyOfSize(bank: seq<string>, pat: string, g: char, key: string)
    requires SameLength(bank, pat)
    ensures |FamilyOf(bank, pat, g, key)| == Matching(bank, pat, g, {key})
  {
    if bank != [] {
      assert forall w :: w in bank[..|bank| - 1] ==> w in bank;
      FamilyOfSize(bank[..|bank| - 1], pat, g, key);
    }
  }

  lemma {:induction false} TotalIsMatching(freq: map<string, int>, bank: seq<string>, pat: string, g: char)
    requires SameLength(bank, pat)
    requires forall p :: p in freq ==> freq[p] == Matching(bank, pat, g, {p})
    ensures Total(freq) == Matching(bank, pat, g, freq.Keys)
    decreases |freq|
  {
    if freq == map[] {
      MatchingNone(bank, pat, g);
    } else {
      forall k | k in freq
        ensures freq[k] + Total(freq - {k}) == Matching(bank, pat, g, freq.Keys)
      {
        var rest := freq - {k};
        assert rest.Keys == freq.Keys - {k};
        TotalIsMatching(rest, bank, pat, g);
        MatchingSplit(bank, pat, g, freq.Keys, k);
      }
    }
  }

  /** The counts of the frequency map add up to the size of the live pool. */
  lemma FrequencySum(bank: seq<string>, pat: string, g: char)
    requires Live(bank, pat)
    ensures Total(Frequency(Families(bank, pat, g))) == |bank|
  {
    var fam := Families(bank, pat, g);
    var freq := Frequency(fam);
    SortFamiliesEntries(FindPattern(bank, pat, g), bank, pat, g);
    forall p | p in freq ensures freq[p] == Matching(bank, pat, g, {p}) {
      FamilyOfSize(bank, pat, g, p);
    }
    TotalIsMatching(freq, bank, pat, g);
    FamiliesPartition(bank, pat, g);
    assert freq.Keys == fam.Keys;
    MatchingAll(bank, pat, g, fam.Keys);
  }
}
