# Test-framework log sanitizer, modelled in Dafny

`sanitize_test_framework.py` repairs garbled log messages in one JavaScript
file. It reads the file as text and walks an ordered table of literal
(old, new) pairs. For each pair, in insertion order, it rebinds the text to
`text.replace(old, new)`. Then it writes the text back.

The model has two modules:

- `StrReplace` (`str_replace.dfy`) gives Python's `str.replace` without a
  count as the recursive function `ReplaceAll` over `seq<char>`. The scan
  goes left to right. When the pattern starts at the current position, it
  emits the replacement and resumes after the match, so matches never overlap.
  Otherwise it copies one character. `Count` is the same scan counting
  matches, as `str.count` does. `Split` and `Join` describe the same scan as
  `str.split` and `str.join`. They serve as the reference definition:
  `ReplaceAll(s, pat, rep)` is `Join(Split(s, pat), rep)`. The lemmas prove
  that this decomposition is the greedy one and that it is unique.
  Because `old` and `new` are Dafny keywords, the pattern is called `pat`
  and its replacement `rep`.
- `Sanitizer` (`sanitizer.dfy`) holds the table as a sequence of pairs
  (`Mapping`), the left fold `ApplyAll`, and the imperative method
  `Sanitize`. Its `for` loop mirrors lines 31–32 of the script. Its loop
  invariant ties the text to `ApplyAll` over the part of the table
  processed so far.

The table is a parameter. `ValidMapping` requires every key to be non-empty,
and every key in the script's table is non-empty.

The pass does not promise idempotence: running it a second time can change
the text again. Deleting a key can join the text on either side into a new
occurrence of that key. `Sanitizer.SecondPassCanChange` shows this:
`"aabb".replace("ab", "")` gives `"ab"`, and a second pass gives `""`. So
the model states no idempotence lemma. It states the properties the code
does give.

## Model

| member | source | states |
|---|---|---|
| `StrReplace.ReplaceAll` | sanitize_test_framework.py:32 | `text.replace(old, new)` leaves the text unchanged when `old` does not occur in it or is replaced by itself; `ReplaceAllSpec`, `ReplaceAllByPieces` and `ReplaceAllLeftmost` pin down the rest of its result |
| `StrReplace.Count` | sanitize_test_framework.py:32 | the number of greedy non-overlapping matches is positive if and only if the pattern occurs in the text; `Split` has exactly one more piece than this count, and `ReplaceAllLength` is stated in it |
| `StrReplace.Split` | sanitize_test_framework.py:32 | splitting at the greedy matches yields exactly one more piece than the number of matches `Count` finds |
| `StrReplace.SplitJoin` | sanitize_test_framework.py:32 | gluing the pieces back with the pattern restores the original text (split/join round trip) |
| `StrReplace.ReplaceAllIsJoinOfSplit` | sanitize_test_framework.py:32 | `s.replace(pat, rep)` equals `rep.join(s.split(pat))`: the pieces between matches stay, and each match becomes `rep` |
| `StrReplace.SplitIsGreedy` | sanitize_test_framework.py:32 | no occurrence of the pattern starts inside a piece before its following match, so each match is the leftmost one still available; the last piece holds no occurrence |
| `StrReplace.SplitNoOccurrence` | sanitize_test_framework.py:32 | a text without the pattern splits into the single piece itself |
| `StrReplace.SplitLeftmost` | sanitize_test_framework.py:32 | if the leftmost occurrence in `a + pat + b` starts at `\|a\|`, the split is `[a]` followed by the split of `b` |
| `StrReplace.SplitUnique` | sanitize_test_framework.py:32 | any greedy decomposition that glues back to `s` is the one `Split` computes (uniqueness) |
| `StrReplace.ReplaceAllSpec` | sanitize_test_framework.py:32 | the result is the original cut at the greedy matches, with the text between matches kept verbatim and in order and `rep` at each match; nothing else changes |
| `StrReplace.ReplaceAllByPieces` | sanitize_test_framework.py:32 | for every greedy decomposition of the input around `pat`, the result is the same pieces glued with `rep` (independent of `Split`) |
| `StrReplace.ReplaceAllLeftmost` | sanitize_test_framework.py:32 | leftmost first, non-overlapping: with the first match at `\|a\|`, `(a + pat + b).replace(pat, rep) == a + rep + b.replace(pat, rep)` |
| `StrReplace.ReplaceAllLength` | sanitize_test_framework.py:32 | length accounting: the result length is `\|s\| + k * (\|rep\| - \|pat\|)` for the `k` greedy matches |
| `StrReplace.SameLengthReplaceChanges` | sanitize_test_framework.py:32 | a replacement of equal length but different content changes any text that holds a match |
| `StrReplace.ReplaceAllUnchangedIff` | sanitize_test_framework.py:32 | `replace` returns the text unchanged if and only if the pattern does not occur or is replaced by itself |
| `Sanitizer.ApplyAll` | sanitize_test_framework.py:31-32 | the left fold of `replace` over the table leaves the text unchanged when every pair maps its key to itself; `ApplyAllConcat` gives its sequential composition and `Sanitize` proves the loop computes it |
| `Sanitizer.ApplyAllConcat` | sanitize_test_framework.py:4-32 | sequential composition: applying the table `m1 + m2` equals applying `m1` and then `m2` to its output, so each pair sees the output of all earlier pairs |
| `Sanitizer.ApplyAllNoKeyOccurs` | sanitize_test_framework.py:31-32 | if no key of the table occurs in the text, the whole pass returns the text unchanged; the empty table is a special case |
| `Sanitizer.ApplyAllDropSelfPair` | sanitize_test_framework.py:31-32 | a pair whose value equals its key can be removed from any position in the table without changing the result |
| `Sanitizer.OrderMatters` | sanitize_test_framework.py:31-32 | one example of order sensitivity: `"a"` under `[("a","b"), ("b","c")]` becomes `"c"`, and with the two pairs swapped it becomes `"b"` |
| `Sanitizer.SecondPassCanChange` | sanitize_test_framework.py:31-32 | a second pass of the same table can still change the text, so the pass is not idempotent |
| `Sanitizer.Sanitize` | sanitize_test_framework.py:31-32 | the loop's result is the left fold of `replace` over the pairs in table order, and the text comes back unchanged when no key occurs in it |

## Left out

- Reading and writing the file (sanitize_test_framework.py:1-3, 33) are left out. This covers the fixed path, the UTF-8 decoding and encoding, the non-atomic overwrite and the I/O errors. It also covers the newline translation of `read_text` and `write_text`: on reading, `\r\n` and `\r` become `\n`. No key contains a line break, so the pass itself is unaffected. The pass is modelled as text in, text out.
- The literal contents of the table (sanitize_test_framework.py:5-29) are not reproduced. The table is a parameter. Several keys as written (lines 5, 8, 10, 23) contain an escaped backslash followed by a quote, which ends the string literal early. These keys cannot be transcribed with certainty. As written, the file is a Python syntax error: on line 5 the literal `"this.log('dY\\"` is followed by `, Initializing test framework ...`. So the script as shown never runs, and the model describes the loop it was evidently meant to execute.
- Python's `str.replace` with an empty `old` inserts `new` before the first character, between every two characters and after the last (`"ab".replace("", "-")` is `"-a-b-"`, and `"".replace("", "-")` is `"-"`). This is left out. `ReplaceAll` and `ValidMapping` require non-empty keys, and every key in the table is non-empty.
- A Python dict with a duplicate key keeps the last value at the first position. This is left out because the table repeats no key. The mapping is a plain sequence of pairs.
- Python strings are sequences of code points, and Dafny's `char` is a Unicode scalar value. Strings that contain lone surrogates are not modelled.
