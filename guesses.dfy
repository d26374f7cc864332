/** The guessed-letter registry's display: the distinct guessed letters in
    ascending order, rendered as "[a, c, e]" (getGuessesMade). */
module Guesses {

  /** A non-empty set of characters has a least element. */
  lemma {:induction false} MinExists(s: set<char>)
    requires s != {}
    ensures exists m :: m in s && forall d :: d in s ==> m <= d
    decreases |s|
  {
    var x :| x in s;
    if s != {x} {
      MinExists(s - {x});
      var m :| m in s - {x} && forall d :: d in s - {x} ==> m <= d;
      var least := if x < m then x else m;
      forall d | d in s ensures least <= d {
        if d != x {
          assert d in s - {x};
        }
      }
      assert least in s;
    }
  }

  /** The least letter of a non-empty set. */
  ghost function Least(s: set<char>): (m: char)
    requires s != {}
    ensures m in s && forall d :: d in s ==> m <= d
  {
    MinExists(s);
    var m :| m in s && forall d :: d in s ==> m <= d; m
  }

  /** The letters of s in strictly ascending order. */
  ghost function Ascending(s: set<char>): (letters: seq<char>)
    decreases |s|
  {
    if s == {} then [] else [Least(s)] + Ascending(s - {Least(s)})
  }

  /** The enumeration holds exactly the letters of s. */
  lemma {:induction false} AscendingMembers(s: set<char>)
    ensures forall c :: c in Ascending(s) <==> c in s
    decreases |s|
  {
    if s != {} {
      var m := Least(s);
      AscendingMembers(s - {m});
      forall c ensures c in Ascending(s) <==> c in s {
        if c in s && c != m {
          assert c in s - {m};
        }
      }
    }
  }

  /** Each letter is smaller than the next ones. */
  predicate StrictlyAscending(r: seq<char>)
  {
    forall i, j :: 0 <= i < j < |r| ==> r[i] < r[j]
  }

  /** A letter below every letter of an ascending sequence can go in front. */
  lemma ConsAscending(m: char, t: seq<char>)
    requires StrictlyAscending(t) && forall c :: c in t ==> m < c
    ensures StrictlyAscending([m] + t)
  {
    var r := [m] + t;
    forall i, j | 0 <= i < j < |r| ensures r[i] < r[j] {
      assert r[j] == t[j - 1];
      if i > 0 {
        assert r[i] == t[i - 1];
      } else {
        assert t[j - 1] in t;
      }
    }
  }

  /** The enumeration is strictly increasing. */
  lemma {:induction false} AscendingSorted(s: set<char>)
    ensures StrictlyAscending(Ascending(s))
    decreases |s|
  {
    if s != {} {
      var m := Least(s);
      var t := Ascending(s - {m});
      AscendingSorted(s - {m});
      AscendingMembers(s - {m});
      forall c | c in t ensures m < c {
        assert c in s - {m};
      }
      ConsAscending(m, t);
    }
  }

  /** The ascending enumeration starts with the least letter. */
  lemma AscendingHead(s: set<char>, m: char)
    requires m in s && forall d :: d in s ==> m <= d
    ensures Ascending(s) == [m] + Ascending(s - {m})
  {
    assert Least(s) <= m && m <= Least(s);
  }

  /** The letters of s in ascending order, by repeatedly taking the least
      remaining one (the key order of a sorted registry). */
  method AscendingLetters(s: set<char>) returns (letters: seq<char>)
    ensures letters == Ascending(s)
  {
    letters := [];
    var rest := s;
    while rest != {}
      invariant rest <= s
      invariant letters + Ascending(rest) == Ascending(s)
      decreases rest
    {
      MinExists(rest);
      var m :| m in rest && forall d :: d in rest ==> m <= d;
      AscendingHead(rest, m);
      letters := letters + [m];
      rest := rest - {m};
    }
  }

  /** The letters separated by ", ". */
  function Joined(letters: seq<char>): (s: string)
    requires |letters| >= 1
  {
    if |letters| == 1 then [letters[0]]
    else Joined(letters[..|letters| - 1]) + ", " + [letters[|letters| - 1]]
  }

  /** "[]" for no letters, otherwise "[" + the letters separated by ", " + "]". */
  function Render(letters: seq<char>): (s: string)
  {
    if letters == [] then "[]" else "[" + Joined(letters) + "]"
  }

  /** The rendering built with a fencepost loop: the first letter, then
      ", " and the next letter for each further one. */
  method RenderLetters(letters: seq<char>) returns (s: string)
    ensures s == Render(letters)
  {
    if |letters| == 0 {
      return "[]";
    }
    var temp := "[" + [letters[0]];
    var i := 1;
    while i < |letters|
      invariant 1 <= i <= |letters|
      invariant temp == "[" + Joined(letters[..i])
    {
      ghost var prefix := letters[..i + 1];
      assert prefix[..i] == letters[..i];
      assert Joined(prefix) == Joined(letters[..i]) + ", " + [letters[i]];
      temp := temp + ", " + [letters[i]];
      i := i + 1;
    }
    assert letters[..|letters|] == letters;
    return temp + "]";
  }

  lemma {:induction false} JoinedLayout(letters: seq<char>)
    requires |letters| >= 1
    ensures |Joined(letters)| == 3 * |letters| - 2
    ensures forall i :: 0 <= i < |letters| ==> Joined(letters)[3 * i] == letters[i]
    ensures forall i :: 0 <= i < |letters| - 1 ==>
              Joined(letters)[3 * i + 1] == ',' && Joined(letters)[3 * i + 2] == ' '
  {
    if |letters| > 1 {
      JoinedLayout(letters[..|letters| - 1]);
    }
  }

  /** Where each character of the rendering sits: letter i at position
      3 * i + 1, separators between letters, brackets at both ends. */
  lemma RenderLayout(letters: seq<char>)
    requires |letters| >= 1
    ensures |Render(letters)| == 3 * |letters|
    ensures Render(letters)[0] == '[' && Render(letters)[3 * |letters| - 1] == ']'
    ensures forall i :: 0 <= i < |letters| ==> Render(letters)[3 * i + 1] == letters[i]
    ensures forall i :: 0 <= i < |letters| - 1 ==>
              Render(letters)[3 * i + 2] == ',' && Render(letters)[3 * i + 3] == ' '
  {
    JoinedLayout(letters);
  }

  /** Reads the letters back out of a rendering. */
  function Letters(r: string): (letters: seq<char>)
  {
    seq(|r| / 3, i requires 0 <= i < |r| / 3 => r[3 * i + 1])
  }

  /** Rendering loses nothing: the letters can be read back. */
  lemma RenderRoundTrip(letters: seq<char>)
    ensures Letters(Render(letters)) == letters
  {
    if letters != [] {
      RenderLayout(letters);
      var r := Render(letters);
      assert |r| / 3 == |letters|;
      var back := Letters(r);
      forall i | 0 <= i < |letters| ensures back[i] == letters[i] {
        assert back[i] == r[3 * i + 1];
      }
    }
  }
}
