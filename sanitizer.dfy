/**
  The sanitization pass: an ordered table of literal (old, new) pairs is
  applied to the text of one file, pair by pair in insertion order, each pair
  rewriting every occurrence of its key in the text left by the pairs before
  it. Reading and writing the file are not modelled: the pass takes the text
  and returns the new text.
 */
module Sanitizer {
  import opened StrReplace

  /** The ordered `replacements` table, as (key, value) pairs in insertion
      order. */
  type Mapping = seq<(Text, Text)>

  /** Every key is a non-empty literal. */
  predicate ValidMapping(m: Mapping)
  {
    forall i :: 0 <= i < |m| ==> |m[i].0| > 0
  }

  /** No key of the table occurs in `s`. */
  ghost predicate NoKeyOccurs(s: Text, m: Mapping)
  {
    forall i :: 0 <= i < |m| ==> !Occurs(s, m[i].0)
  }

  /** The left fold of `ReplaceAll` over the table: the first pair is applied
      to `s`, each later pair to the output of the earlier ones. A table whose
      every pair maps its key to itself leaves the text as it is. */
  function ApplyAll(s: Text, m: Mapping): (r: Text)
    requires ValidMapping(m)
    ensures (forall i :: 0 <= i < |m| ==> m[i].0 == m[i].1) ==> r == s
    decreases |m|
  {
    if m == [] then s
    else
      assert forall i :: 0 <= i < |m| - 1 ==> m[1..][i] == m[i + 1];
      ApplyAll(ReplaceAll(s, m[0].0, m[0].1), m[1..])
  }

  /** Sequential composition: applying `m1 + m2` is applying `m1` and then
      applying `m2` to its output. */
  lemma {:induction false} ApplyAllConcat(s: Text, m1: Mapping, m2: Mapping)
    requires ValidMapping(m1) && ValidMapping(m2)
    ensures ValidMapping(m1 + m2)
    ensures ApplyAll(s, m1 + m2) == ApplyAll(ApplyAll(s, m1), m2)
    decreases |m1|
  {
    if m1 == [] {
      assert m1 + m2 == m2;
    } else {
      var t := ReplaceAll(s, m1[0].0, m1[0].1);
      assert (m1 + m2)[1..] == m1[1..] + m2;
      ApplyAllConcat(t, m1[1..], m2);
    }
  }

  /** If no key occurs in the text, every pair leaves it as it is and so
      does the whole pass; with the empty table in particular. */
  lemma {:induction false} ApplyAllNoKeyOccurs(s: Text, m: Mapping)
    requires ValidMapping(m)
    requires NoKeyOccurs(s, m)
    ensures ApplyAll(s, m) == s
    decreases |m|
  {
    if m != [] {
      assert NoKeyOccurs(s, m[1..]) by {
        forall i | 0 <= i < |m[1..]|
          ensures !Occurs(s, m[1..][i].0)
        {
          assert m[1..][i] == m[i + 1];
        }
      }
      ApplyAllNoKeyOccurs(s, m[1..]);
    }
  }

  /** A pair whose value equals its key can be dropped from the table
      wherever it stands. */
  lemma ApplyAllDropSelfPair(s: Text, m1: Mapping, k: Text, m2: Mapping)
    requires ValidMapping(m1) && ValidMapping(m2) && |k| > 0
    ensures ValidMapping(m1 + [(k, k)] + m2) && ValidMapping(m1 + m2)
    ensures ApplyAll(s, m1 + [(k, k)] + m2) == ApplyAll(s, m1 + m2)
  {
    var t := ApplyAll(s, m1);
    ApplyAllConcat(s, m1, [(k, k)] + m2);
    assert m1 + [(k, k)] + m2 == m1 + ([(k, k)] + m2);
    assert ([(k, k)] + m2)[1..] == m2;
    ApplyAllConcat(s, m1, m2);
  }

  /** Order matters, shown on one example: under `[("a", "b"), ("b", "c")]`
      the text `"a"` becomes `"c"`, and with the two pairs swapped it becomes
      `"b"`. */
  lemma OrderMatters()
    ensures ApplyAll("a", [("a", "b"), ("b", "c")]) == "c"
    ensures ApplyAll("a", [("b", "c"), ("a", "b")]) == "b"
  {
    assert "a"[1..] == [] && "b"[1..] == [];
    assert ReplaceAll("a", "a", "b") == "b";
    assert ReplaceAll("b", "b", "c") == "c";
    assert ReplaceAll("a", "b", "c") == "a";
    assert [("a", "b"), ("b", "c")][1..] == [("b", "c")];
    assert [("b", "c"), ("a", "b")][1..] == [("a", "b")];
  }

  /** A second pass is not always a no-op: removing a key can join the text
      around it into a fresh occurrence of the same key. */
  lemma SecondPassCanChange()
    ensures ApplyAll("aabb", [("ab", "")]) == "ab"
    ensures ApplyAll("ab", [("ab", "")]) == ""
  {
    var m := [("ab", "")];
    assert m[1..] == [];
    assert "aabb"[1..] == "abb" && "abb"[2..] == "b" && "b"[1..] == [];
    assert "aabb"[..2][1] != "ab"[1];
    assert StartsWith("abb", "ab") && !StartsWith("aabb", "ab");
    assert ReplaceAll("b", "ab", "") == "b";
    assert ReplaceAll("abb", "ab", "") == "b";
    assert "ab"[2..] == [];
    assert ReplaceAll("ab", "ab", "") == "";
  }

  /** The loop over `replacements.items()`: `text` is rebound to
      `text.replace(old, new)` once per pair, in table order. */
  method Sanitize(text: Text, replacements: Mapping) returns (result: Text)
    requires ValidMapping(replacements)
    ensures result == ApplyAll(text, replacements)
    ensures NoKeyOccurs(text, replacements) ==> result == text
  {
    result := text;
    for i := 0 to |replacements|
      invariant result == ApplyAll(text, replacements[..i])
    {
      var (pat, rep) := replacements[i];
      ApplyAllConcat(text, replacements[..i], [(pat, rep)]);
      assert replacements[..i + 1] == replacements[..i] + [(pat, rep)];
      result := ReplaceAll(result, pat, rep);
    }
    assert replacements[..|replacements|] == replacements;
    if NoKeyOccurs(text, replacements) {
      ApplyAllNoKeyOccurs(text, replacements);
    }
  }
}
