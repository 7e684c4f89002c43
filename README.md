# Jaccard overlap of character arrays

This project models the Jaccard routine of `OverlapMeasures` (Taming Text,
`com.tamingtext.fuzzy`) and proves it correct. The routine scores two
character arrays by the Jaccard index of their distinct-character sets,
|A ∩ B| / |A ∪ B|. It builds those sets by hand:

- `findDuplicates` marks, in a caller-supplied boolean array, every position
  whose character already appeared earlier, and returns how many it marked.
- `jaccard` starts the union at the combined length and subtracts both
  duplicate counts. It then counts shared characters with a nested scan over
  unmarked positions that stops at the first match. It subtracts that count
  from the union and divides.

The model keeps this imperative form: Dafny methods over `array<char>` and
`array<bool>`, with loop invariants. The invariants tie the arrays and
counters to the specification functions of `CharSets`: the distinct set
`Elems`, the duplicate-position predicate `IsDuplicate` and the mark counter
`TrueCount`. The methods are proved to compute exactly |A ∩ B|, |A ∪ B| and the
Jaccard index `JaccardScore`. The properties of that index are lemmas in
`JaccardScores`: range, symmetry, identity, disjoint inputs, duplicate
invariance, the NaN case and four concrete scenarios.

Files:
- `char_sets.dfy` (module `CharSets`) defines the distinct set, duplicate
  positions, counting, deduplication and the lemmas connecting them.
- `jaccard_score.dfy` (module `JaccardScores`) defines the `Score` result
  and the Jaccard index on sets, with its properties.
- `overlap_measures.dfy` (module `OverlapMeasures`) holds the methods.
  `findDuplicates` is `FindDuplicates`; its inner marking loop (lines 78-82)
  is the method `MarkLaterCopies`. `jaccard` is split along its parts:
  - `Overlap` covers lines 50-55 and 68: it allocates the mark arrays,
    subtracts the duplicate counts and then the intersection.
  - `CountShared` is the outer intersection loop (lines 56-67).
  - `ScanForMatch` is its inner scan over `t` (lines 58-65).
  - `Jaccard` adds the division (line 69).

  In the Java code the inner scan increments `intersection` and then
  breaks. In the model, `ScanForMatch` stops at the same position and
  reports the match, and `CountShared` increments. The count is the same.

The Java code ends with `(float)intersection / union`. When both arrays are
empty this is 0/0, which gives NaN. The model returns the distinguished
result `Score.NaN` in that case and `Score.Value(r)` with a `real` ratio
otherwise. `Jaccard` is proved to return `NaN` exactly when both arrays are
empty. The Java code does not guard this case.

## Model

| member | source | states |
|---|---|---|
| OverlapMeasures.FindDuplicates | src/main/java/com/tamingtext/fuzzy/OverlapMeasures.java:72-86 | Given an all-false mark array as long as `s`, afterwards `sdup[i]` is true exactly when `s[i]` occurs at an earlier index. The result is the number of true marks, and it equals `s.Length` minus the number of distinct characters. The unmarked positions, read in order, spell `Dedup(s)`. `sdup[0]` is false, and the result is below `s.Length` when `s` is non-empty. `s` is not changed. |
| OverlapMeasures.MarkLaterCopies | src/main/java/com/tamingtext/fuzzy/OverlapMeasures.java:78-82 | Positions up to `si` keep their marks. Each later position ends up marked exactly when it was already marked or holds `s[si]`, so a mark is never cleared. |
| OverlapMeasures.Overlap | src/main/java/com/tamingtext/fuzzy/OverlapMeasures.java:49-68 | After the duplicate subtraction, the intersection count and the final `union -= intersection`, `intersection` is \|set(s) ∩ set(t)\| and `union` is \|set(s) ∪ set(t)\|. |
| OverlapMeasures.CountShared | src/main/java/com/tamingtext/fuzzy/OverlapMeasures.java:56-67 | Given marks that flag exactly the duplicate positions of `s` and `t`, the count is \|set(s) ∩ set(t)\|: each distinct character of `s` adds at most one. |
| OverlapMeasures.ScanForMatch | src/main/java/com/tamingtext/fuzzy/OverlapMeasures.java:58-65 | Scanning only the unmarked positions of `t` and stopping at the first match finds a match exactly when the character occurs in `t`. |
| OverlapMeasures.Jaccard | src/main/java/com/tamingtext/fuzzy/OverlapMeasures.java:49-70 | The result is the Jaccard index of the two distinct-character sets. It is NaN exactly when both arrays are empty; otherwise it is a ratio in [0, 1]. |
| CharSets.DistinctCount | src/main/java/com/tamingtext/fuzzy/OverlapMeasures.java:73-85 | If the marks flag exactly the duplicate positions, their count is the length minus the number of distinct characters. This is why subtracting the duplicate counts leaves the distinct-set sizes. |
| CharSets.FirstOccurrence | src/main/java/com/tamingtext/fuzzy/OverlapMeasures.java:78-81 | Every character of a sequence has a position holding it that is not a duplicate, namely its first occurrence. Marking never covers it. |
| CharSets.AbsentIfNoFirstOccurrenceMatches | src/main/java/com/tamingtext/fuzzy/OverlapMeasures.java:58-65 | If a character matches no unmarked position of `t`, it is not in `t` at all. So the inner scan may skip duplicates without missing a shared character. |
| CharSets.MarkStep | src/main/java/com/tamingtext/fuzzy/OverlapMeasures.java:74-84 | One outer iteration of findDuplicates keeps its loop invariant. Before it, passed positions are marked exactly when they are duplicates, and later ones exactly when their character occurs earlier. After it, the same holds one position further on. |
| CharSets.OverlapStep | src/main/java/com/tamingtext/fuzzy/OverlapMeasures.java:56-67 | One outer iteration of the intersection loop: a duplicate position of `s` adds nothing, and a first occurrence adds one exactly when it occurs in `t`. |
| CharSets.IntersectionStep | src/main/java/com/tamingtext/fuzzy/OverlapMeasures.java:56-67 | A character new to the scanned part of `s` increases the intersection by one exactly when it belongs to `t`'s set. This is the effect of `intersection++` followed by `break`. |
| CharSets.DedupProperties | src/main/java/com/tamingtext/fuzzy/OverlapMeasures.java:72-86 | Dropping the duplicate positions keeps the distinct set and leaves no duplicate position. |
| CharSets.UnmarkedIsDedup | src/main/java/com/tamingtext/fuzzy/OverlapMeasures.java:72-86 | If the marks flag exactly the duplicate positions, the characters at the unmarked positions, in order, are `Dedup(s)`. |
| CharSets.DedupLength | src/main/java/com/tamingtext/fuzzy/OverlapMeasures.java:72-86 | The deduplicated sequence has one position per distinct character. |
| CharSets.RepeatKeepsElems | src/main/java/com/tamingtext/fuzzy/OverlapMeasures.java:52-55 | Repeating a character in place leaves the distinct set unchanged. |
| JaccardScores.OverlapWithinUnion | src/main/java/com/tamingtext/fuzzy/OverlapMeasures.java:68 | 0 <= \|A ∩ B\| <= \|A\| <= \|A ∪ B\|. |
| JaccardScores.ScoreInRange | src/main/java/com/tamingtext/fuzzy/OverlapMeasures.java:68-69 | Whenever the index is defined (non-empty union), it lies in [0, 1]. |
| JaccardScores.NaNIffBothEmpty | src/main/java/com/tamingtext/fuzzy/OverlapMeasures.java:51-69 | The union is empty, and the index NaN, exactly when both inputs are empty. |
| JaccardScores.Symmetric | src/main/java/com/tamingtext/fuzzy/OverlapMeasures.java:49-70 | Swapping the two inputs does not change the index. |
| JaccardScores.SelfIsOne | src/main/java/com/tamingtext/fuzzy/OverlapMeasures.java:49-70 | A non-empty input compared with itself scores 1 (intersection equals union). |
| JaccardScores.DisjointIsZero | src/main/java/com/tamingtext/fuzzy/OverlapMeasures.java:56-69 | Inputs with no shared character, at least one non-empty, score 0. |
| JaccardScores.DedupInvariant | src/main/java/com/tamingtext/fuzzy/OverlapMeasures.java:52-55 | Removing the repeated characters from both inputs leaves the index unchanged. |
| JaccardScores.RepeatInvariant | src/main/java/com/tamingtext/fuzzy/OverlapMeasures.java:52-55 | Repeating a character of the first input in place leaves the index unchanged. The same holds for the second input by `Symmetric`. |
| JaccardScores.NightNacht | src/main/java/com/tamingtext/fuzzy/OverlapMeasures.java:49-70 | "night" against "nacht" scores 3/7. |
| JaccardScores.RepeatedCharacter | src/main/java/com/tamingtext/fuzzy/OverlapMeasures.java:49-70 | "aa" against "a" scores 1. |
| JaccardScores.NothingShared | src/main/java/com/tamingtext/fuzzy/OverlapMeasures.java:49-70 | "abc" against "xyz" scores 0. |
| JaccardScores.BothEmpty | src/main/java/com/tamingtext/fuzzy/OverlapMeasures.java:49-70 | Two empty inputs give NaN. |

## Left out

- `cosine` (OverlapMeasures.java:97-129) is left out. It only builds an in-memory Lucene index and runs a Lucene query, and it prints. Its behaviour belongs to the search library, which is not part of this model.
- The IEEE float division at OverlapMeasures.java:69 is replaced by a `real` ratio. Rounding to `float` is not modelled. NaN is the distinguished result `Score.NaN`.
- Java `int` arithmetic is modelled with unbounded integers. `s.length + t.length` can overflow in Java for huge arrays. Two's-complement wrap-around still gives the right final `union`, because the true union is at most 65536 distinct 16-bit `char` values.
- FindDuplicates: requires an all-false mark array exactly as long as `s`. Its only caller, `jaccard`, passes freshly allocated arrays of that length. Behaviour on a pre-marked or shorter array (the latter throws in Java) is not modelled.
- Null arrays are not modelled. In Java, `jaccard` with a null argument throws NullPointerException at `s.length` or `t.length` (line 51). Dafny's `array` type excludes null, so the model has no such path.
- Java `char` is a 16-bit code unit. Dafny's `char` is used instead; the routine only compares characters for equality, so the width does not matter.
