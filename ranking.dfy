/** Adversarial ranking of families: the HardestList comparator, the
    ascending order it induces, and which family is hardest. */
module Ranking {
  import opened Patterns

  /** Number of revealed (non-blank) characters of a pattern. */
  function TotalRevealed(s: string): (r: nat)
    ensures r <= |s|
  {
    if |s| == 0 then 0
    else TotalRevealed(s[..|s| - 1]) + (if s[|s| - 1] != Blank then 1 else 0)
  }

  /** The revealed positions of s. */
  function RevealedPositions(s: string): (positions: set<nat>)
  {
    set i: nat | i < |s| && s[i] != Blank
  }

  lemma {:induction false} TotalRevealedCountsPositions(s: string)
    ensures TotalRevealed(s) == |RevealedPositions(s)|
  {
    if |s| > 0 {
      var n := |s| - 1;
      TotalRevealedCountsPositions(s[..n]);
      var before := RevealedPositions(s[..n]);
      assert n !in before;
      if s[n] != Blank {
        assert RevealedPositions(s) == before + {n};
      } else {
        assert RevealedPositions(s) == before;
      }
    }
  }

  /** getTotalRevealed: a counting loop over the pattern's characters. */
  method GetTotalRevealed(word: string) returns (count: nat)
    ensures count == |RevealedPositions(word)|
  {
    count := 0;
    var x := 0;
    while x < |word|
      invariant 0 <= x <= |word|
      invariant count == TotalRevealed(word[..x])
    {
      assert word[..x + 1][..x] == word[..x];
      if word[x] != Blank {
        count := count + 1;
      }
      x := x + 1;
    }
    assert word[..|word|] == word;
    TotalRevealedCountsPositions(word);
  }

  /** Java's String.compareTo on strings of Basic Multilingual Plane
      characters: the difference of the first differing character codes,
      or else the difference of the lengths. */
  function StringCompare(s: string, t: string): (c: int)
  {
    if |s| == 0 || |t| == 0 then |s| - |t|
    else if s[0] != t[0] then s[0] as int - t[0] as int
    else StringCompare(s[1..], t[1..])
  }

  /** Lexicographic order on character codes: s is a proper prefix of t, or
      s has the smaller character at the first position where they differ. */
  predicate LexLess(s: string, t: string)
  {
    exists k :: 0 <= k <= |s| && k <= |t| && s[..k] == t[..k] &&
      ((k == |s| && k < |t|) || (k < |s| && k < |t| && s[k] < t[k]))
  }

  lemma {:induction false} StringCompareAntisymmetric(s: string, t: string)
    ensures StringCompare(t, s) == -StringCompare(s, t)
  {
    if |s| > 0 && |t| > 0 && s[0] == t[0] {
      StringCompareAntisymmetric(s[1..], t[1..]);
    }
  }

  lemma {:induction false} StringCompareZero(s: string, t: string)
    ensures StringCompare(s, t) == 0 <==> s == t
  {
    if |s| > 0 && |t| > 0 {
      if s[0] == t[0] {
        StringCompareZero(s[1..], t[1..]);
        if s[1..] == t[1..] {
          assert s == [s[0]] + s[1..] && t == [t[0]] + t[1..];
        }
      }
    }
  }

  /** A common first character does not affect the lexicographic order. */
  lemma LexLessTail(s: string, t: string)
    requires |s| > 0 && |t| > 0 && s[0] == t[0]
    ensures LexLess(s, t) <==> LexLess(s[1..], t[1..])
  {
    var s', t' := s[1..], t[1..];
    if LexLess(s, t) {
      var k :| 0 <= k <= |s| && k <= |t| && s[..k] == t[..k] &&
        ((k == |s| && k < |t|) || (k < |s| && k < |t| && s[k] < t[k]));
      assert k > 0;
      assert s'[..k - 1] == s[..k][1..];
      assert t'[..k - 1] == t[..k][1..];
      assert s'[..k - 1] == t'[..k - 1];
      assert k - 1 < |s'| ==> s'[k - 1] == s[k];
      assert k - 1 < |t'| ==> t'[k - 1] == t[k];
    }
    if LexLess(s', t') {
      var k :| 0 <= k <= |s'| && k <= |t'| && s'[..k] == t'[..k] &&
        ((k == |s'| && k < |t'|) || (k < |s'| && k < |t'| && s'[k] < t'[k]));
      assert s[..k + 1] == [s[0]] + s'[..k];
      assert t[..k + 1] == [t[0]] + t'[..k];
      assert s[..k + 1] == t[..k + 1];
    }
  }

  /** StringCompare is negative exactly for lexicographically smaller strings. */
  lemma {:induction false} StringCompareIsLex(s: string, t: string)
    ensures StringCompare(s, t) < 0 <==> LexLess(s, t)
  {
    if |s| == 0 || |t| == 0 {
      if StringCompare(s, t) < 0 {
        assert s[..0] == t[..0];
      }
    } else if s[0] != t[0] {
      if LexLess(s, t) {
        var k :| 0 <= k <= |s| && k <= |t| && s[..k] == t[..k] &&
          ((k == |s| && k < |t|) || (k < |s| && k < |t| && s[k] < t[k]));
        assert k == 0 || s[0] == s[..k][0];
      } else {
        assert s[..0] == t[..0];
      }
    } else {
      StringCompareIsLex(s[1..], t[1..]);
      LexLessTail(s, t);
    }
  }

  lemma {:induction false} StringCompareTransitive(s: string, t: string, u: string)
    requires StringCompare(s, t) < 0 && StringCompare(t, u) < 0
    ensures StringCompare(s, u) < 0
  {
    if |s| > 0 && |t| > 0 && |u| > 0 && s[0] == t[0] && t[0] == u[0] {
      StringCompareTransitive(s[1..], t[1..], u[1..]);
    }
  }

  /** One family reduced to its pattern and its member count. */
  datatype HardestList = HardestList(pattern: string, value: int)
  {
    /** The comparator that orders families from easiest to hardest. */
    function CompareTo(o: HardestList): (c: int)
    {
      if value - o.value == 0 then
        if TotalRevealed(o.pattern) - TotalRevealed(pattern) == 0 then
          StringCompare(o.pattern, pattern)
        else
          TotalRevealed(o.pattern) - TotalRevealed(pattern)
      else
        value - o.value
    }
  }

  /** a sorts strictly before b: a is the easier family. */
  predicate Easier(a: HardestList, b: HardestList)
  {
    a.CompareTo(b) < 0
  }

  lemma CompareToAntisymmetric(a: HardestList, b: HardestList)
    ensures b.CompareTo(a) == -a.CompareTo(b)
  {
    StringCompareAntisymmetric(b.pattern, a.pattern);
  }

  /** The comparator returns 0 only for the same count and the same pattern. */
  lemma CompareToZero(a: HardestList, b: HardestList)
    ensures a.CompareTo(b) == 0 <==> a.value == b.value && a.pattern == b.pattern
  {
    StringCompareZero(b.pattern, a.pattern);
  }

  /** The three keys, most significant first: fewer members is easier; on a
      tie more revealed characters is easier; on a further tie the
      lexicographically larger pattern is easier. */
  lemma EasierByKeys(a: HardestList, b: HardestList)
    ensures Easier(a, b) <==>
      a.value < b.value ||
      (a.value == b.value && TotalRevealed(a.pattern) > TotalRevealed(b.pattern)) ||
      (a.value == b.value && TotalRevealed(a.pattern) == TotalRevealed(b.pattern) &&
       LexLess(b.pattern, a.pattern))
  {
    StringCompareIsLex(b.pattern, a.pattern);
  }

  lemma EasierTransitive(a: HardestList, b: HardestList, c: HardestList)
    requires Easier(a, b) && Easier(b, c)
    ensures Easier(a, c)
  {
    if a.value == b.value == c.value &&
       TotalRevealed(a.pattern) == TotalRevealed(b.pattern) == TotalRevealed(c.pattern) {
      StringCompareTransitive(c.pattern, b.pattern, a.pattern);
    }
  }

  /** Any two different families are ordered one way or the other. */
  lemma EasierTotal(a: HardestList, b: HardestList)
    requires a != b
    ensures Easier(a, b) != Easier(b, a)
  {
    CompareToAntisymmetric(a, b);
    CompareToZero(a, b);
  }

  /** list is in strictly ascending order, easiest first (what
      Collections.sort produces for this comparator). */
  predicate SortedByRank(list: seq<HardestList>)
  {
    forall i, j :: 0 <= i < j < |list| ==> Easier(list[i], list[j])
  }

  /** One step of sorting: insert e at its place in an ascending list. */
  function Insert(e: HardestList, list: seq<HardestList>): (r: seq<HardestList>)
    requires SortedByRank(list) && e !in list
    ensures SortedByRank(r)
    ensures |r| == |list| + 1
    ensures forall x :: x in r <==> x == e || x in list
  {
    if list == [] then [e]
    else if Easier(e, list[0]) then
      assert forall j :: 0 < j < |list| ==> Easier(e, list[j]) by {
        forall j | 0 < j < |list| ensures Easier(e, list[j]) {
          EasierTransitive(e, list[0], list[j]);
        }
      }
      [e] + list
    else
      EasierTotal(e, list[0]);
      var rest := Insert(e, list[1..]);
      assert forall x :: x in list[1..] ==> Easier(list[0], x);
      [list[0]] + rest
  }

  /** The list holds exactly the entries of the frequency map. */
  ghost predicate ListsFrequency(list: seq<HardestList>, freq: map<string, int>)
  {
    forall e :: e in list <==> e.pattern in freq && freq[e.pattern] == e.value
  }

  /** p is the hardest family of freq: every other family ranks below it. */
  ghost predicate IsHardest(freq: map<string, int>, p: string)
  {
    p in freq &&
    forall q :: q in freq && q != p ==> Easier(HardestList(q, freq[q]), HardestList(p, freq[p]))
  }

  /** p is the second-hardest family: the hardest once the hardest is removed. */
  ghost predicate IsSecondHardest(freq: map<string, int>, p: string)
  {
    exists h :: IsHardest(freq, h) && h != p && IsHardest(freq - {h}, p)
  }

  /** The hardest family is unique. */
  lemma HardestUnique(freq: map<string, int>, p: string, q: string)
    requires IsHardest(freq, p) && IsHardest(freq, q)
    ensures p == q
  {
    if p != q {
      CompareToAntisymmetric(HardestList(p, freq[p]), HardestList(q, freq[q]));
    }
  }

  /** In an ascending list of freq's entries, entries at different positions
      have different patterns. */
  lemma DistinctPatterns(list: seq<HardestList>, freq: map<string, int>, i: nat, j: nat)
    requires SortedByRank(list) && ListsFrequency(list, freq)
    requires i < j < |list|
    ensures list[i].pattern != list[j].pattern
  {
    assert list[i] in list && list[j] in list;
    if list[i].pattern == list[j].pattern {
      CompareToZero(list[i], list[j]);
    }
  }

  /** The last entry of the ascending list is the hardest family. */
  lemma LastIsHardest(list: seq<HardestList>, freq: map<string, int>)
    requires SortedByRank(list) && ListsFrequency(list, freq) && |list| >= 1
    ensures IsHardest(freq, list[|list| - 1].pattern)
  {
    var n := |list| - 1;
    var last := list[n];
    assert last in list;
    forall q | q in freq && q != last.pattern
      ensures Easier(HardestList(q, freq[q]), HardestList(last.pattern, freq[last.pattern]))
    {
      var e := HardestList(q, freq[q]);
      assert e in list;
      var i :| 0 <= i < |list| && list[i] == e;
    }
  }

  /** With at least two families, the second-to-last entry is the second-hardest. */
  lemma SecondToLastIsSecondHardest(list: seq<HardestList>, freq: map<string, int>)
    requires SortedByRank(list) && ListsFrequency(list, freq) && |list| >= 2
    ensures IsSecondHardest(freq, list[|list| - 2].pattern)
  {
    var n := |list|;
    var h := list[n - 1].pattern;
    var p := list[n - 2].pattern;
    LastIsHardest(list, freq);
    DistinctPatterns(list, freq, n - 2, n - 1);
    assert list[n - 2] in list;
    var rest := freq - {h};
    forall q | q in rest && q != p
      ensures Easier(HardestList(q, rest[q]), HardestList(p, rest[p]))
    {
      var e := HardestList(q, freq[q]);
      assert e in list;
      var i :| 0 <= i < |list| && list[i] == e;
    }
    assert IsHardest(rest, p);
  }
}
