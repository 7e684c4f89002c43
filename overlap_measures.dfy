/**
 * The Jaccard overlap routine of OverlapMeasures: duplicate marking over a
 * character array, followed by a nested scan that counts the distinct
 * characters the two arrays share, each proved to compute the set-theoretic
 * quantity it stands for.
 */
module OverlapMeasures {
  import opened CharSets
  import opened JaccardScores

  /**
   * findDuplicates: flags in `sdup` every position of `s` whose character
   * already occurs earlier and returns how many it flagged. For each position
   * still unflagged (the first occurrence of its character), it scans the
   * later positions and flags those that are still unflagged and equal to it;
   * an entry is thus only written while it is false.
   */
  method FindDuplicates(s: array<char>, sdup: array<bool>) returns (ndup: nat)
    requires sdup.Length == s.Length
    requires forall i :: 0 <= i < sdup.Length ==> !sdup[i]
    modifies sdup
    ensures s[..] == old(s[..])
    ensures forall i :: 0 <= i < s.Length ==> sdup[i] == IsDuplicate(s[..], i)
    ensures ndup == TrueCount(sdup[..])
    ensures Unmarked(s[..], sdup[..]) == Dedup(s[..])
    ensures ndup == s.Length - |Elems(s[..])|
    ensures s.Length > 0 ==> !sdup[0] && ndup < s.Length
  {
    ghost var S := s[..];
    var n := s.Length;
    ndup := 0;
    for si := 0 to n
      // positions already passed are flagged exactly when they are duplicates
      invariant forall k :: 0 <= k < si ==> sdup[k] == IsDuplicate(S, k)
      // later positions are flagged exactly when their character occurs before `si`
      invariant forall k :: si <= k < n ==> sdup[k] == (S[k] in S[..si])
      invariant ndup == TrueCount(sdup[..si])
    {
      ghost var before := sdup[..];
      if sdup[si] {
        ndup := ndup + 1;
      } else {
        MarkLaterCopies(s, sdup, si);
      }
      MarkStep(S, si, before, sdup[..]);
      TrueCountStep(sdup[..], si);
    }
    assert sdup[..n] == sdup[..];
    DistinctCount(S, sdup[..]);
    UnmarkedIsDedup(S, sdup[..]);
    if n > 0 {
      assert S[0] in Elems(S);
    }
  }

  /**
   * The inner loop of findDuplicates for position `si`: every later position
   * that is still unmarked becomes marked exactly when it holds the same
   * character as `si`. Marked entries are never written, so none reverts.
   */
  method MarkLaterCopies(s: array<char>, sdup: array<bool>, si: nat)
    requires sdup.Length == s.Length && si < s.Length
    modifies sdup
    ensures forall k :: 0 <= k <= si ==> sdup[k] == old(sdup[k])
    ensures forall k :: si < k < s.Length ==> sdup[k] == (old(sdup[k]) || s[k] == s[si])
  {
    for si2 := si + 1 to s.Length
      invariant forall k :: 0 <= k <= si ==> sdup[k] == old(sdup[k])
      invariant forall k :: si < k < si2 ==> sdup[k] == (old(sdup[k]) || s[k] == s[si])
      invariant forall k :: si2 <= k < s.Length ==> sdup[k] == old(sdup[k])
    {
      if !sdup[si2] {
        sdup[si2] := s[si] == s[si2];
      }
    }
  }

  /**
   * The part of jaccard before the final division: the number of distinct
   * characters the two arrays share, and the number of distinct characters
   * in either. The union starts as the combined length, loses each array's
   * duplicate count and then the intersection.
   */
  method Overlap(s: array<char>, t: array<char>) returns (intersection: nat, union: nat)
    ensures intersection == |Elems(s[..]) * Elems(t[..])|
    ensures union == |Elems(s[..]) + Elems(t[..])|
  {
    ghost var S, T := s[..], t[..];
    ghost var B := Elems(T);
    var u := s.Length + t.Length;
    var sdup := new bool[s.Length](_ => false);
    var ds := FindDuplicates(s, sdup);
    u := u - ds;
    assert u == |Elems(S)| + |T|;
    var tdup := new bool[t.Length](_ => false);
    var dt := FindDuplicates(t, tdup);
    u := u - dt;
    assert u == |Elems(S)| + |B|;
    intersection := CountShared(s, t, sdup, tdup);
    union := u - intersection;
  }

  /**
   * The intersection count of jaccard: every unmarked position of `s` (a
   * first occurrence) that matches an unmarked position of `t` adds one.
   * Marked positions of `s` are skipped, so each distinct character of `s`
   * is counted at most once.
   */
  method CountShared(s: array<char>, t: array<char>, sdup: array<bool>, tdup: array<bool>)
    returns (intersection: nat)
    requires sdup.Length == s.Length && tdup.Length == t.Length
    requires forall k :: 0 <= k < s.Length ==> sdup[k] == IsDuplicate(s[..], k)
    requires forall k :: 0 <= k < t.Length ==> tdup[k] == IsDuplicate(t[..], k)
    ensures intersection == |Elems(s[..]) * Elems(t[..])|
  {
    ghost var S, B := s[..], Elems(t[..]);
    intersection := 0;
    for si := 0 to s.Length
      invariant intersection == |Elems(S[..si]) * B|
    {
      var found := false;
      if !sdup[si] {
        found := ScanForMatch(t, tdup, s[si]);
        if found {
          intersection := intersection + 1;
        }
      }
      OverlapStep(S, si, B, sdup[si], found);
    }
    assert S[..s.Length] == S;
  }

  /**
   * The inner scan of jaccard for one first occurrence `c` in `s`: it walks
   * the unmarked positions of `t` and stops at the first one holding `c`
   * (where jaccard increments the intersection and breaks). Skipping the
   * marked positions loses nothing, so a match is found exactly when `c`
   * occurs in `t`.
   */
  method ScanForMatch(t: array<char>, tdup: array<bool>, c: char) returns (found: bool)
    requires tdup.Length == t.Length
    requires forall k :: 0 <= k < t.Length ==> tdup[k] == IsDuplicate(t[..], k)
    ensures found <==> c in Elems(t[..])
  {
    ghost var T := t[..];
    found := false;
    for ti := 0 to t.Length
      invariant !found
      invariant forall k :: 0 <= k < ti ==> IsDuplicate(T, k) || T[k] != c
    {
      if !tdup[ti] {
        if c == t[ti] {
          assert T[ti] in T;
          found := true;
          break;
        }
      }
    }
    if !found {
      AbsentIfNoFirstOccurrenceMatches(T, c);
    }
  }

  /**
   * jaccard: the Jaccard index of the distinct characters of `s` and `t`,
   * or NaN when both are empty (the float division 0/0).
   */
  method Jaccard(s: array<char>, t: array<char>) returns (score: Score)
    ensures score == JaccardScore(Elems(s[..]), Elems(t[..]))
    ensures score.NaN? <==> s.Length == 0 && t.Length == 0
    ensures score.Value? ==> 0.0 <= score.ratio <= 1.0
  {
    var intersection, union := Overlap(s, t);
    score := if union == 0 then NaN else Value(intersection as real / union as real);
    NaNIffBothEmpty(s[..], t[..]);
    ScoreInRange(Elems(s[..]), Elems(t[..]));
  }
}
