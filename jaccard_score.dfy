/**
 * The Jaccard index of two character sets, |A ∩ B| / |A ∪ B|, as the value
 * the routine computes, with the one degenerate case (an empty union, where
 * the float division 0/0 gives NaN) kept as a distinguished result.
 */
module JaccardScores {
  import opened CharSets

  /** The routine's result: a ratio, or NaN when the union of the two sets is empty. */
  datatype Score = NaN | Value(ratio: real)

  /** The Jaccard index of `A` and `B`. */
  ghost function JaccardScore(A: set<char>, B: set<char>): Score
  {
    if |A + B| == 0 then NaN else Value(|A * B| as real / |A + B| as real)
  }

  /** The two counts behind the index: the overlap never exceeds the union. */
  lemma {:induction false} OverlapWithinUnion(A: set<char>, B: set<char>)
    ensures |A * B| <= |A| <= |A + B|
  {
    SubsetCard(A * B, A);
    SubsetCard(A, A + B);
  }

  /** A subset is no larger than its superset. */
  lemma {:induction false} SubsetCard(X: set<char>, Y: set<char>)
    requires X <= Y
    ensures |X| <= |Y|
  {
    assert Y == X + (Y - X);
  }

  /** A count divided by a positive count no smaller than it lies in [0, 1]. */
  lemma RatioInUnit(i: real, u: real)
    requires 0.0 <= i <= u && 0.0 < u
    ensures 0.0 <= i / u <= 1.0
  {
    var q := i / u;
    assert q * u == i;
  }

  /** Whenever the index is defined it lies in [0, 1]. */
  lemma ScoreInRange(A: set<char>, B: set<char>)
    ensures JaccardScore(A, B).Value? ==> 0.0 <= JaccardScore(A, B).ratio <= 1.0
  {
    if |A + B| > 0 {
      OverlapWithinUnion(A, B);
      RatioInUnit(|A * B| as real, |A + B| as real);
    }
  }

  /** The index is NaN exactly when both sequences are empty. */
  lemma NaNIffBothEmpty(s: seq<char>, t: seq<char>)
    ensures JaccardScore(Elems(s), Elems(t)).NaN? <==> s == [] && t == []
  {
    if s != [] {
      assert s[0] in Elems(s) + Elems(t);
    } else if t != [] {
      assert t[0] in Elems(s) + Elems(t);
    } else {
      assert Elems(s) + Elems(t) == {};
    }
  }

  /** Symmetry: exchanging the two inputs does not change the index. */
  lemma Symmetric(A: set<char>, B: set<char>)
    ensures JaccardScore(A, B) == JaccardScore(B, A)
  {
    assert A * B == B * A;
    assert A + B == B + A;
  }

  /** Identity: a non-empty sequence compared with itself scores 1. */
  lemma SelfIsOne(s: seq<char>)
    requires s != []
    ensures JaccardScore(Elems(s), Elems(s)) == Value(1.0)
  {
    var A := Elems(s);
    assert A * A == A && A + A == A;
    assert s[0] in A;
    var n := |A| as real;
    assert n > 0.0;
    assert n / n == 1.0;
  }

  /** Disjoint sets: when the inputs share no character and one is non-empty, the index is 0. */
  lemma DisjointIsZero(s: seq<char>, t: seq<char>)
    requires Elems(s) * Elems(t) == {}
    requires s != [] || t != []
    ensures JaccardScore(Elems(s), Elems(t)) == Value(0.0)
  {
    NaNIffBothEmpty(s, t);
  }

  /**
   * Duplicate invariance: the index depends only on the distinct characters,
   * so removing the repetitions from both inputs leaves it unchanged.
   */
  lemma DedupInvariant(s: seq<char>, t: seq<char>)
    ensures JaccardScore(Elems(Dedup(s)), Elems(Dedup(t))) == JaccardScore(Elems(s), Elems(t))
  {
    DedupProperties(s);
    DedupProperties(t);
  }

  /** Duplicate invariance: repeating the character at position `i` of `s` leaves the index unchanged. */
  lemma RepeatInvariant(s: seq<char>, t: seq<char>, i: nat)
    requires i < |s|
    ensures JaccardScore(Elems(s[..i + 1] + s[i..]), Elems(t)) == JaccardScore(Elems(s), Elems(t))
  {
    RepeatKeepsElems(s, i);
  }

  /** "night" against "nacht": three shared characters out of seven, 3/7. */
  lemma NightNacht()
    ensures JaccardScore(Elems("night"), Elems("nacht")) == Value(3.0 / 7.0)
  {
    var A, B := Elems("night"), Elems("nacht");
    NightNachtSets();
    assert |A * B| == 3 && |A + B| == 7 by {
      NightNachtCounts();
    }
  }

  /** The distinct sets of "night" and "nacht". */
  lemma NightNachtSets()
    ensures Elems("night") == {'n', 'i', 'g', 'h', 't'}
    ensures Elems("nacht") == {'n', 'a', 'c', 'h', 't'}
  {
  }

  /** "night" and "nacht" share three characters and have seven between them. */
  lemma NightNachtCounts()
    ensures |{'n', 'i', 'g', 'h', 't'} * {'n', 'a', 'c', 'h', 't'}| == 3
    ensures |{'n', 'i', 'g', 'h', 't'} + {'n', 'a', 'c', 'h', 't'}| == 7
  {
    assert {'n', 'i', 'g', 'h', 't'} * {'n', 'a', 'c', 'h', 't'} == {'n', 'h', 't'};
    assert {'n', 'i', 'g', 'h', 't'} + {'n', 'a', 'c', 'h', 't'} == {'n', 'i', 'g', 'h', 't', 'a', 'c'};
  }

  /** "aa" against "a": the repeated `a` counts once, so the index is 1. */
  lemma RepeatedCharacter()
    ensures JaccardScore(Elems("aa"), Elems("a")) == Value(1.0)
  {
    assert Elems("aa") == {'a'};
    assert Elems("a") == {'a'};
  }

  /** "abc" against "xyz": nothing shared, so the index is 0. */
  lemma NothingShared()
    ensures JaccardScore(Elems("abc"), Elems("xyz")) == Value(0.0)
  {
    var A, B := Elems("abc"), Elems("xyz");
    AbcXyzSets();
    assert |A * B| == 0 && |A + B| == 6 by {
      AbcXyzCounts();
    }
  }

  /** The distinct sets of "abc" and "xyz". */
  lemma AbcXyzSets()
    ensures Elems("abc") == {'a', 'b', 'c'}
    ensures Elems("xyz") == {'x', 'y', 'z'}
  {
  }

  /** "abc" and "xyz" share no character and have six between them. */
  lemma AbcXyzCounts()
    ensures |{'a', 'b', 'c'} * {'x', 'y', 'z'}| == 0
    ensures |{'a', 'b', 'c'} + {'x', 'y', 'z'}| == 6
  {
    assert {'a', 'b', 'c'} * {'x', 'y', 'z'} == {};
    assert {'a', 'b', 'c'} + {'x', 'y', 'z'} == {'a', 'b', 'c', 'x', 'y', 'z'};
  }

  /** Two empty inputs leave the union empty: the degenerate NaN case. */
  lemma BothEmpty()
    ensures JaccardScore(Elems(""), Elems("")) == NaN
  {
    NaNIffBothEmpty("", "");
  }
}
