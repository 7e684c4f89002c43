/**
 * The set view of a character sequence that the Jaccard routine works with:
 * the distinct characters of a sequence, its duplicate positions (a position
 * whose character already occurs earlier), and the facts that tie the number
 * of duplicate positions to the number of distinct characters.
 */
module CharSets {

  /** The distinct-element set of `s`: every character occurring in it. */
  ghost function Elems(s: seq<char>): set<char>
  {
    set c | c in s
  }

  /** Position `i` of `s` is a duplicate: its character already occurs at an earlier index. */
  predicate IsDuplicate(s: seq<char>, i: nat)
    requires i < |s|
  {
    s[i] in s[..i]
  }

  /** The number of `true` entries of a boolean sequence. */
  function TrueCount(b: seq<bool>): (n: nat)
    ensures n <= |b|
  {
    if b == [] then 0 else TrueCount(b[..|b| - 1]) + (if b[|b| - 1] then 1 else 0)
  }

  /** Counting one more entry of `b` adds one exactly when that entry is true. */
  lemma TrueCountStep(b: seq<bool>, i: nat)
    requires i < |b|
    ensures TrueCount(b[..i + 1]) == TrueCount(b[..i]) + (if b[i] then 1 else 0)
  {
    assert b[..i + 1][..i] == b[..i];
  }

  /** The sequence `s` with every duplicate position removed; first occurrences keep their order. */
  function Dedup(s: seq<char>): seq<char>
  {
    if s == [] then []
    else
      var p := s[..|s| - 1];
      Dedup(p) + (if s[|s| - 1] in p then [] else [s[|s| - 1]])
  }

  /** Appending one character adds exactly that character to the distinct set. */
  lemma ElemsSnoc(s: seq<char>, c: char)
    ensures Elems(s + [c]) == Elems(s) + {c}
  {
    assert forall x :: x in s + [c] <==> x in s || x == c;
  }

  /** A character occurs in a prefix extended by one position exactly when it occurs in the prefix or at that position. */
  lemma PrefixMembershipStep(s: seq<char>, i: nat, x: char)
    requires i < |s|
    ensures (x in s[..i + 1]) == (x in s[..i] || x == s[i])
  {
    assert s[..i + 1] == s[..i] + [s[i]];
  }

  /**
   * One outer step of duplicate marking at position `i`: if, before it, the
   * positions below `i` are marked exactly when they are duplicates and the
   * later ones exactly when their character occurs before `i`, and the step
   * adds to the later marks the copies of `s[i]` unless `i` itself is marked,
   * then afterwards the same holds with `i + 1` in place of `i`.
   */
  lemma MarkStep(s: seq<char>, i: nat, before: seq<bool>, after: seq<bool>)
    requires i < |s| && |before| == |s| && |after| == |s|
    requires forall k :: 0 <= k < i ==> before[k] == IsDuplicate(s, k)
    requires forall k :: i <= k < |s| ==> before[k] == (s[k] in s[..i])
    requires forall k :: 0 <= k <= i ==> after[k] == before[k]
    requires forall k :: i < k < |s| ==> after[k] == (before[k] || (!before[i] && s[k] == s[i]))
    ensures forall k :: 0 <= k <= i ==> after[k] == IsDuplicate(s, k)
    ensures forall k :: i < k < |s| ==> after[k] == (s[k] in s[..i + 1])
    ensures after[..i] == before[..i]
  {
    forall k | i < k < |s|
      ensures after[k] == (s[k] in s[..i + 1])
    {
      PrefixMembershipStep(s, i, s[k]);
    }
  }

  /** The distinct set of a prefix extended by one more position of `s`. */
  lemma ElemsPrefixStep(s: seq<char>, i: nat)
    requires i < |s|
    ensures Elems(s[..i + 1]) == Elems(s[..i]) + {s[i]}
  {
    assert s[..i + 1] == s[..i] + [s[i]];
    ElemsSnoc(s[..i], s[i]);
  }

  /**
   * Counting duplicates counts the distinct characters: when `marks` flags
   * exactly the duplicate positions of `s`, the unflagged positions are as
   * many as the distinct characters of `s`.
   */
  lemma {:induction false} DistinctCount(s: seq<char>, marks: seq<bool>)
    requires |marks| == |s|
    requires forall i :: 0 <= i < |s| ==> marks[i] == IsDuplicate(s, i)
    ensures TrueCount(marks) == |s| - |Elems(s)|
  {
    if s != [] {
      var n := |s| - 1;
      var p, c := s[..n], s[n];
      forall i | 0 <= i < n
        ensures marks[..n][i] == IsDuplicate(p, i)
      {
        assert p[..i] == s[..i];
      }
      DistinctCount(p, marks[..n]);
      assert s == p + [c];
      ElemsSnoc(p, c);
      assert marks[n] == IsDuplicate(s, n) && s[..n] == p;
      if c in p {
        assert c in Elems(p);
        assert Elems(s) == Elems(p);
        assert TrueCount(marks) == TrueCount(marks[..n]) + 1;
      } else {
        assert c !in Elems(p);
        assert TrueCount(marks) == TrueCount(marks[..n]);
      }
    }
  }

  /** Every character of `t` has a first occurrence, which is not a duplicate position. */
  lemma {:induction false} FirstOccurrence(t: seq<char>, c: char)
    requires c in t
    ensures exists k :: 0 <= k < |t| && t[k] == c && !IsDuplicate(t, k)
  {
    var n := |t| - 1;
    var p := t[..n];
    if c in p {
      FirstOccurrence(p, c);
      var k :| 0 <= k < |p| && p[k] == c && !IsDuplicate(p, k);
      assert p[..k] == t[..k];
      assert t[k] == c && !IsDuplicate(t, k);
    } else {
      assert t == p + [t[n]];
      assert t[n] == c && !IsDuplicate(t, n);
    }
  }

  /**
   * A character that matches no non-duplicate position of `t` does not occur
   * in `t` at all: scanning the first occurrences suffices.
   */
  lemma AbsentIfNoFirstOccurrenceMatches(t: seq<char>, c: char)
    requires forall k :: 0 <= k < |t| ==> IsDuplicate(t, k) || t[k] != c
    ensures c !in Elems(t)
  {
    if c in t {
      FirstOccurrence(t, c);
    }
  }

  /**
   * Adding a character that is new to `A` grows `A`'s overlap with `B` by one
   * exactly when the character belongs to `B`.
   */
  lemma IntersectionStep(A: set<char>, B: set<char>, c: char)
    requires c !in A
    ensures |(A + {c}) * B| == |A * B| + (if c in B then 1 else 0)
  {
    if c in B {
      assert (A + {c}) * B == A * B + {c};
    } else {
      assert (A + {c}) * B == A * B;
    }
  }

  /**
   * One step of the intersection scan over `s`: a duplicate position adds
   * nothing, and a first occurrence adds one exactly when it was found in `B`.
   */
  lemma OverlapStep(s: seq<char>, i: nat, B: set<char>, dup: bool, found: bool)
    requires i < |s|
    requires dup == IsDuplicate(s, i)
    requires !dup ==> (found <==> s[i] in B)
    ensures |Elems(s[..i + 1]) * B| == |Elems(s[..i]) * B| + (if !dup && found then 1 else 0)
  {
    var A, c := Elems(s[..i]), s[i];
    ElemsPrefixStep(s, i);
    if dup {
      assert c in A;
      assert A + {c} == A;
    } else {
      assert c !in A;
      IntersectionStep(A, B, c);
    }
  }

  /** Removing duplicates keeps the distinct set and leaves no duplicate position. */
  lemma {:induction false} DedupProperties(s: seq<char>)
    ensures Elems(Dedup(s)) == Elems(s)
    ensures forall i :: 0 <= i < |Dedup(s)| ==> !IsDuplicate(Dedup(s), i)
  {
    if s != [] {
      var n := |s| - 1;
      var p, c := s[..n], s[n];
      var d := Dedup(p);
      DedupProperties(p);
      assert s == p + [c];
      ElemsSnoc(p, c);
      if c in p {
        assert c in Elems(p);
        assert Dedup(s) == d;
      } else {
        assert Dedup(s) == d + [c];
        ElemsSnoc(d, c);
        forall i | 0 <= i < |d + [c]|
          ensures !IsDuplicate(d + [c], i)
        {
          if i < |d| {
            assert (d + [c])[..i] == d[..i];
            assert !IsDuplicate(d, i);
          } else {
            assert (d + [c])[..i] == d;
            assert c !in Elems(d);
          }
        }
      }
    }
  }

  /** The characters at the unmarked positions of `s`, in order. */
  function Unmarked(s: seq<char>, marks: seq<bool>): (r: seq<char>)
    requires |marks| == |s|
    ensures |r| == |s| - TrueCount(marks)
  {
    if s == [] then []
    else
      var n := |s| - 1;
      Unmarked(s[..n], marks[..n]) + (if marks[n] then [] else [s[n]])
  }

  /**
   * When `marks` flags exactly the duplicate positions of `s`, the unmarked
   * positions, read in order, spell the deduplicated sequence.
   */
  lemma {:induction false} UnmarkedIsDedup(s: seq<char>, marks: seq<bool>)
    requires |marks| == |s|
    requires forall i :: 0 <= i < |s| ==> marks[i] == IsDuplicate(s, i)
    ensures Unmarked(s, marks) == Dedup(s)
  {
    if s != [] {
      var n := |s| - 1;
      var p := s[..n];
      forall i | 0 <= i < n
        ensures marks[..n][i] == IsDuplicate(p, i)
      {
        assert p[..i] == s[..i];
      }
      UnmarkedIsDedup(p, marks[..n]);
      assert marks[n] == IsDuplicate(s, n);
    }
  }

  /** The deduplicated sequence has exactly one position per distinct character. */
  lemma DedupLength(s: seq<char>)
    ensures |Dedup(s)| == |Elems(s)|
  {
    var marks := seq(|s|, i requires 0 <= i < |s| => IsDuplicate(s, i));
    UnmarkedIsDedup(s, marks);
    DistinctCount(s, marks);
  }

  /** Repeating the character at position `i` right after it leaves the distinct set unchanged. */
  lemma RepeatKeepsElems(s: seq<char>, i: nat)
    requires i < |s|
    ensures Elems(s[..i + 1] + s[i..]) == Elems(s)
  {
    var r := s[..i + 1] + s[i..];
    assert forall x :: x in r <==> x in s[..i + 1] || x in s[i..];
    assert s == s[..i + 1] + s[i + 1..];
    assert forall x :: x in s <==> x in s[..i + 1] || x in s[i + 1..];
    assert s[i..] == [s[i]] + s[i + 1..];
  }
}
