/**
  Python's `str.replace(old, new)` without a count, on strings modelled as
  sequences of characters. The scan goes left to right: at each position it
  either finds the pattern (replaces it and resumes right after it, so matches
  never overlap) or copies one character and moves on.

  The pattern and its replacement are called `pat` and `rep` here, since
  `old` and `new` are Dafny keywords.
 */
module StrReplace {

  type Text = seq<char>

  /** `s` begins with `p`. */
  predicate StartsWith(s: Text, p: Text)
  {
    |p| <= |s| && s[..|p|] == p
  }

  /** `p` occurs in `s` starting at index `i`. */
  ghost predicate OccursAt(s: Text, p: Text, i: int)
  {
    0 <= i && i + |p| <= |s| && s[i..i + |p|] == p
  }

  /** Python's `p in s`. */
  ghost predicate Occurs(s: Text, p: Text)
  {
    exists i :: OccursAt(s, p, i)
  }

  /** `s.replace(pat, rep)`: every greedily chosen, non-overlapping
      occurrence of `pat`, leftmost first, is swapped for `rep`. A text in
      which `pat` does not occur, or a pattern replaced by itself, leaves the
      text as it is. */
  function ReplaceAll(s: Text, pat: Text, rep: Text): (r: Text)
    requires |pat| > 0
    ensures !Occurs(s, pat) ==> r == s
    ensures pat == rep ==> r == s
    decreases |s|
  {
    if s == [] then []
    else
      assert s == [s[0]] + s[1..];
      OccursCons(s[0], s[1..], pat);
      if StartsWith(s, pat) then
        assert OccursAt(s, pat, 0);
        assert pat == rep ==> s == rep + s[|pat|..];
        rep + ReplaceAll(s[|pat|..], pat, rep)
      else [s[0]] + ReplaceAll(s[1..], pat, rep)
  }

  /** `s.count(pat)`: the number of occurrences the same greedy scan finds;
      it is positive exactly when `pat` occurs in `s`. */
  function Count(s: Text, pat: Text): (c: nat)
    requires |pat| > 0
    ensures c > 0 <==> Occurs(s, pat)
    decreases |s|
  {
    if s == [] then 0
    else
      assert s == [s[0]] + s[1..];
      OccursCons(s[0], s[1..], pat);
      if StartsWith(s, pat) then
        assert OccursAt(s, pat, 0);
        1 + Count(s[|pat|..], pat)
      else Count(s[1..], pat)
  }

  /** `s.split(pat)`: the pieces of `s` between the greedily chosen
      occurrences of `pat`, in order; there is always one more piece than
      there are occurrences. */
  function Split(s: Text, pat: Text): (parts: seq<Text>)
    requires |pat| > 0
    ensures |parts| == Count(s, pat) + 1
    decreases |s|
  {
    if s == [] then [[]]
    else if StartsWith(s, pat) then [[]] + Split(s[|pat|..], pat)
    else
      var rest := Split(s[1..], pat);
      [[s[0]] + rest[0]] + rest[1..]
  }

  /** `sep.join(parts)`. */
  function Join(parts: seq<Text>, sep: Text): Text
    requires |parts| > 0
    decreases |parts|
  {
    if |parts| == 1 then parts[0] else parts[0] + sep + Join(parts[1..], sep)
  }

  /** The pieces are those of the greedy left-to-right scan: no occurrence of
      `pat` starts inside a piece that is followed by a match (the match that
      follows it is the leftmost one still available), and the last piece
      holds no occurrence at all. */
  ghost predicate GreedyPieces(parts: seq<Text>, pat: Text)
    requires |pat| > 0
  {
    && |parts| > 0
    && (forall i :: 0 <= i < |parts| - 1 ==> !Occurs(parts[i] + pat[..|pat| - 1], pat))
    && !Occurs(parts[|parts| - 1], pat)
  }

  // ---------------------------------------------------------------------
  // Occurrences

  /** An occurrence in `[c] + t` is either at its start or inside `t`. */
  lemma OccursCons(c: char, t: Text, p: Text)
    requires |p| > 0
    ensures Occurs([c] + t, p) <==> StartsWith([c] + t, p) || Occurs(t, p)
  {
    var s := [c] + t;
    if Occurs(s, p) && !StartsWith(s, p) {
      var i :| OccursAt(s, p, i);
      assert i != 0;
      assert s[i..i + |p|] == t[i - 1..i - 1 + |p|];
      assert OccursAt(t, p, i - 1);
    }
    if StartsWith(s, p) {
      assert OccursAt(s, p, 0);
    }
    if Occurs(t, p) {
      var i :| OccursAt(t, p, i);
      assert s[i + 1..i + 1 + |p|] == t[i..i + |p|];
      assert OccursAt(s, p, i + 1);
    }
  }

  /** A text shorter than the pattern holds no occurrence of it. */
  lemma ShortHasNoOccurrence(s: Text, p: Text)
    requires |s| < |p|
    ensures !Occurs(s, p)
  {
  }

  // ---------------------------------------------------------------------
  // Split and Join: the reference description of the greedy scan

  lemma JoinConsFirst(c: char, parts: seq<Text>, sep: Text)
    requires |parts| > 0
    ensures Join([[c] + parts[0]] + parts[1..], sep) == [c] + Join(parts, sep)
  {
    var q := [[c] + parts[0]] + parts[1..];
    assert q[1..] == parts[1..];
  }

  /** Cutting `s` at the greedy matches and gluing the pieces back with
      `pat` gives `s` again. */
  lemma {:induction false} SplitJoin(s: Text, pat: Text)
    requires |pat| > 0
    ensures Join(Split(s, pat), pat) == s
    decreases |s|
  {
    if s == [] {
    } else if StartsWith(s, pat) {
      SplitJoin(s[|pat|..], pat);
      var parts := Split(s, pat);
      assert parts[1..] == Split(s[|pat|..], pat);
      if |parts| == 1 {
        assert false;
      }
      assert s == pat + s[|pat|..];
    } else {
      SplitJoin(s[1..], pat);
      JoinConsFirst(s[0], Split(s[1..], pat), pat);
      assert s == [s[0]] + s[1..];
    }
  }

  /** `ReplaceAll` is `rep.join(s.split(pat))`. */
  lemma {:induction false} ReplaceAllIsJoinOfSplit(s: Text, pat: Text, rep: Text)
    requires |pat| > 0
    ensures ReplaceAll(s, pat, rep) == Join(Split(s, pat), rep)
    decreases |s|
  {
    if s == [] {
    } else if StartsWith(s, pat) {
      ReplaceAllIsJoinOfSplit(s[|pat|..], pat, rep);
      var parts := Split(s, pat);
      assert parts[1..] == Split(s[|pat|..], pat);
    } else {
      ReplaceAllIsJoinOfSplit(s[1..], pat, rep);
      JoinConsFirst(s[0], Split(s[1..], pat), rep);
    }
  }

  /** An empty piece in front of greedy pieces keeps them greedy. */
  lemma GreedyPiecesConsEmpty(rest: seq<Text>, pat: Text)
    requires |pat| > 0
    requires GreedyPieces(rest, pat)
    ensures GreedyPieces([[]] + rest, pat)
  {
    var parts := [[]] + rest;
    var n := |pat|;
    assert parts[0] + pat[..n - 1] == pat[..n - 1];
    ShortHasNoOccurrence(pat[..n - 1], pat);
    forall i | 0 <= i < |parts| - 1
      ensures !Occurs(parts[i] + pat[..n - 1], pat)
    {
      if i > 0 {
        assert parts[i] == rest[i - 1];
      }
    }
    assert parts[|parts| - 1] == rest[|rest| - 1];
  }

  /** Prepending a character that does not start a match to the text of
      greedy pieces keeps them greedy, with the character on the first piece. */
  lemma GreedyPiecesConsChar(c: char, rest: seq<Text>, pat: Text)
    requires |pat| > 0
    requires GreedyPieces(rest, pat)
    requires !StartsWith([c] + Join(rest, pat), pat)
    ensures GreedyPieces([[c] + rest[0]] + rest[1..], pat)
  {
    var parts := [[c] + rest[0]] + rest[1..];
    var n := |pat|;
    if |rest| == 1 {
      assert parts[0] == [c] + Join(rest, pat);
      OccursCons(c, rest[0], pat);
    } else {
      var x := rest[0] + pat[..n - 1];
      assert parts[0] + pat[..n - 1] == [c] + x;
      OccursCons(c, x, pat);
      forall i | 0 <= i < |parts| - 1
        ensures !Occurs(parts[i] + pat[..n - 1], pat)
      {
        if i > 0 {
          assert parts[i] == rest[i];
        }
      }
      assert parts[|parts| - 1] == rest[|rest| - 1];
    }
  }

  /** The pieces `Split` produces are those of the greedy scan. */
  lemma {:induction false} SplitIsGreedy(s: Text, pat: Text)
    requires |pat| > 0
    ensures GreedyPieces(Split(s, pat), pat)
    decreases |s|
  {
    if s == [] {
      ShortHasNoOccurrence([], pat);
    } else if StartsWith(s, pat) {
      SplitIsGreedy(s[|pat|..], pat);
      GreedyPiecesConsEmpty(Split(s[|pat|..], pat), pat);
    } else {
      SplitIsGreedy(s[1..], pat);
      SplitJoin(s[1..], pat);
      assert s == [s[0]] + s[1..];
      GreedyPiecesConsChar(s[0], Split(s[1..], pat), pat);
    }
  }

  /** A text with no occurrence of the pattern is a single piece. */
  lemma {:induction false} SplitNoOccurrence(s: Text, pat: Text)
    requires |pat| > 0
    requires !Occurs(s, pat)
    ensures Split(s, pat) == [s]
    decreases |s|
  {
    if s != [] {
      assert OccursAt(s, pat, 0) <== StartsWith(s, pat);
      OccursCons(s[0], s[1..], pat);
      assert s == [s[0]] + s[1..];
      SplitNoOccurrence(s[1..], pat);
    }
  }

  /** When the first occurrence of `pat` in `a + pat + b` starts right after
      `a`, splitting cuts there first and then splits `b`. */
  lemma {:induction false} SplitLeftmost(a: Text, b: Text, pat: Text)
    requires |pat| > 0
    requires !Occurs(a + pat[..|pat| - 1], pat)
    ensures Split(a + pat + b, pat) == [a] + Split(b, pat)
    decreases |a|
  {
    var n := |pat|;
    var s := a + pat + b;
    if a == [] {
      assert s == pat + b;
      assert s[n..] == b;
    } else {
      if StartsWith(s, pat) {
        assert (a + pat[..n - 1])[..n] == s[..n];
        assert OccursAt(a + pat[..n - 1], pat, 0);
        assert false;
      }
      assert a + pat[..n - 1] == [a[0]] + (a[1..] + pat[..n - 1]);
      OccursCons(a[0], a[1..] + pat[..n - 1], pat);
      assert s[1..] == a[1..] + pat + b;
      SplitLeftmost(a[1..], b, pat);
      assert [a[0]] + a[1..] == a;
    }
  }

  /** The greedy decomposition is unique: any pieces that satisfy
      `GreedyPieces` and glue back to `s` are `Split(s, pat)`. */
  lemma {:induction false} SplitUnique(parts: seq<Text>, pat: Text)
    requires |pat| > 0
    requires GreedyPieces(parts, pat)
    ensures Split(Join(parts, pat), pat) == parts
    decreases |parts|
  {
    if |parts| == 1 {
      SplitNoOccurrence(parts[0], pat);
    } else {
      var tail := parts[1..];
      assert !Occurs(parts[0] + pat[..|pat| - 1], pat);
      SplitLeftmost(parts[0], Join(tail, pat), pat);
      assert GreedyPieces(tail, pat) by {
        forall i | 0 <= i < |tail| - 1
          ensures !Occurs(tail[i] + pat[..|pat| - 1], pat)
        {
          assert tail[i] == parts[i + 1];
        }
        assert tail[|tail| - 1] == parts[|parts| - 1];
      }
      SplitUnique(tail, pat);
      assert parts == [parts[0]] + tail;
    }
  }

  // ---------------------------------------------------------------------
  // Properties of ReplaceAll

  /** The result is the original text cut at the greedy matches, with `rep`
      put where each match was: the text between matches is kept verbatim and
      in order, and nothing else changes. */
  lemma ReplaceAllSpec(s: Text, pat: Text, rep: Text)
    requires |pat| > 0
    ensures GreedyPieces(Split(s, pat), pat)
    ensures Join(Split(s, pat), pat) == s
    ensures ReplaceAll(s, pat, rep) == Join(Split(s, pat), rep)
  {
    SplitIsGreedy(s, pat);
    SplitJoin(s, pat);
    ReplaceAllIsJoinOfSplit(s, pat, rep);
  }

  /** The same, stated without `Split`: for every greedy decomposition of
      `s` around `pat`, replacing gives that decomposition glued with `rep`. */
  lemma ReplaceAllByPieces(parts: seq<Text>, pat: Text, rep: Text)
    requires |pat| > 0
    requires GreedyPieces(parts, pat)
    ensures ReplaceAll(Join(parts, pat), pat, rep) == Join(parts, rep)
  {
    SplitUnique(parts, pat);
    ReplaceAllIsJoinOfSplit(Join(parts, pat), pat, rep);
  }

  /** Leftmost first, non-overlapping: when the first occurrence of `pat` in
      `a + pat + b` starts right after `a`, the result keeps `a`, puts `rep`
      in place of that occurrence and goes on with `b` alone. */
  lemma ReplaceAllLeftmost(a: Text, b: Text, pat: Text, rep: Text)
    requires |pat| > 0
    requires !Occurs(a + pat[..|pat| - 1], pat)
    ensures ReplaceAll(a + pat + b, pat, rep) == a + rep + ReplaceAll(b, pat, rep)
  {
    SplitLeftmost(a, b, pat);
    ReplaceAllIsJoinOfSplit(a + pat + b, pat, rep);
    ReplaceAllIsJoinOfSplit(b, pat, rep);
    var parts := [a] + Split(b, pat);
    assert parts[1..] == Split(b, pat);
  }

  lemma MulSucc(k: int, d: int)
    ensures (1 + k) * d == d + k * d
  {
  }

  /** Length accounting: each of the `Count(s, pat)` matches changes the
      length by `|rep| - |pat|`. */
  lemma {:induction false} ReplaceAllLength(s: Text, pat: Text, rep: Text)
    requires |pat| > 0
    ensures |ReplaceAll(s, pat, rep)| == |s| + Count(s, pat) * (|rep| - |pat|)
    decreases |s|
  {
    if s == [] {
    } else if StartsWith(s, pat) {
      ReplaceAllLength(s[|pat|..], pat, rep);
      var k, d := Count(s[|pat|..], pat), |rep| - |pat|;
      var m := k * d;
      assert |ReplaceAll(s, pat, rep)| == |s| + d + m;
      MulSucc(k, d);
    } else {
      ReplaceAllLength(s[1..], pat, rep);
    }
  }

  /** With the same length, the first match is where the result differs. */
  lemma {:induction false} SameLengthReplaceChanges(s: Text, pat: Text, rep: Text)
    requires |pat| > 0 && |rep| == |pat| && rep != pat
    requires Count(s, pat) > 0
    ensures ReplaceAll(s, pat, rep) != s
  {
    ReplaceAllSpec(s, pat, rep);
    var parts := Split(s, pat);
    var a, sTail, rTail := parts[0], Join(parts[1..], pat), Join(parts[1..], rep);
    assert s == a + pat + sTail;
    var r := ReplaceAll(s, pat, rep);
    assert r == a + rep + rTail;
    assert r[|a|..|a| + |pat|] == rep;
    assert s[|a|..|a| + |pat|] == pat;
  }

  /** The text comes back unchanged exactly when the pattern does not occur
      in it or is replaced by itself. */
  lemma ReplaceAllUnchangedIff(s: Text, pat: Text, rep: Text)
    requires |pat| > 0
    ensures ReplaceAll(s, pat, rep) == s <==> !Occurs(s, pat) || pat == rep
  {
    if Occurs(s, pat) && pat != rep {
      if |rep| != |pat| {
        ReplaceAllLength(s, pat, rep);
        var k, d := Count(s, pat), |rep| - |pat|;
        assert k * d != 0;
      } else {
        SameLengthReplaceChanges(s, pat, rep);
      }
    }
  }
}
