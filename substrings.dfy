/**
 * Substring search and replacement as Go's `bytes.ReplaceAll` and
 * `strings.Contains` perform them: matches are found left to right and do
 * not overlap.
 */
module Substrings {

  /** `p` occurs in `s` starting at index `i`. */
  predicate OccursAt<T(==)>(s: seq<T>, p: seq<T>, i: int) {
    0 <= i && i + |p| <= |s| && s[i..i + |p|] == p
  }

  ghost predicate Occurs<T>(s: seq<T>, p: seq<T>) {
    exists i :: OccursAt(s, p, i)
  }

  /** Matches, each `len` long, are in increasing order and no two overlap. */
  predicate Disjoint(ms: seq<nat>, len: nat) {
    forall k, l :: 0 <= k < l < |ms| ==> ms[k] + len <= ms[l]
  }

  /** Index `j` lies inside one of the matches `ms`, each `len` long. */
  ghost predicate Covered(ms: seq<nat>, len: nat, j: int) {
    exists m :: m in ms && m <= j < m + len
  }

  /** The start indices, at or after `i`, of the matches a left-to-right scan replaces. */
  function MatchesFrom<T(==)>(s: seq<T>, p: seq<T>, i: nat): (ms: seq<nat>)
    requires |p| > 0 && i <= |s|
    ensures forall m :: m in ms ==> i <= m && m + |p| <= |s|
    decreases |s| - i
  {
    if |s| - i < |p| then []
    else if s[i..i + |p|] == p then [i] + MatchesFrom(s, p, i + |p|)
    else MatchesFrom(s, p, i + 1)
  }

  function Matches<T(==)>(s: seq<T>, p: seq<T>): seq<nat>
    requires |p| > 0
  {
    MatchesFrom(s, p, 0)
  }

  /** The part of `ReplaceAll` that starts at index `i`. */
  function ReplaceFrom<T(==)>(s: seq<T>, p: seq<T>, r: seq<T>, i: nat): seq<T>
    requires |p| > 0 && i <= |s|
    decreases |s| - i
  {
    if |s| - i < |p| then s[i..]
    else if s[i..i + |p|] == p then r + ReplaceFrom(s, p, r, i + |p|)
    else [s[i]] + ReplaceFrom(s, p, r, i + 1)
  }

  /** `bytes.ReplaceAll(s, pattern, replacement)` for a non-empty pattern. */
  function ReplaceAll<T(==)>(s: seq<T>, pattern: seq<T>, replacement: seq<T>): seq<T>
    requires |pattern| > 0
  {
    ReplaceFrom(s, pattern, replacement, 0)
  }

  function ContainsFrom(s: string, sub: string, i: nat): (b: bool)
    requires i <= |s|
    ensures b <==> exists j :: i <= j && OccursAt(s, sub, j)
    decreases |s| - i
  {
    if |s| - i < |sub| then false
    else if s[i..i + |sub|] == sub then
      assert OccursAt(s, sub, i);
      true
    else
      assert !OccursAt(s, sub, i);
      ContainsFrom(s, sub, i + 1)
  }

  /** `strings.Contains(s, sub)`. */
  function Contains(s: string, sub: string): (b: bool)
    ensures b <==> Occurs(s, sub)
  {
    ContainsFrom(s, sub, 0)
  }

  /** Every match the scan reports is an occurrence. */
  lemma {:induction false} MatchesFromOccur<T>(s: seq<T>, p: seq<T>, i: nat)
    requires |p| > 0 && i <= |s|
    ensures forall m :: m in MatchesFrom(s, p, i) ==> OccursAt(s, p, m)
    decreases |s| - i
  {
    if |s| - i >= |p| {
      if s[i..i + |p|] == p {
        MatchesFromOccur(s, p, i + |p|);
        OccurAtMatch(s, p, i);
      } else {
        MatchesFromOccur(s, p, i + 1);
        OccurAwayFromMatch(s, p, i);
      }
    }
  }

  lemma OccurAtMatch<T>(s: seq<T>, p: seq<T>, i: nat)
    requires |p| > 0 && i + |p| <= |s| && s[i..i + |p|] == p
    requires forall m :: m in MatchesFrom(s, p, i + |p|) ==> OccursAt(s, p, m)
    ensures forall m :: m in MatchesFrom(s, p, i) ==> OccursAt(s, p, m)
  {
    MatchesFromAtMatch(s, p, i);
    forall m | m in MatchesFrom(s, p, i) ensures OccursAt(s, p, m) {
      if m != i {
        InConsTail(i, MatchesFrom(s, p, i + |p|), m);
      }
    }
  }

  lemma OccurAwayFromMatch<T>(s: seq<T>, p: seq<T>, i: nat)
    requires |p| > 0 && i + |p| <= |s| && s[i..i + |p|] != p
    requires forall m :: m in MatchesFrom(s, p, i + 1) ==> OccursAt(s, p, m)
    ensures forall m :: m in MatchesFrom(s, p, i) ==> OccursAt(s, p, m)
  {
    MatchesFromNoMatchHere(s, p, i);
  }

  lemma DisjointCons(i: nat, rest: seq<nat>, len: nat)
    requires Disjoint(rest, len) && forall m :: m in rest ==> i + len <= m
    ensures Disjoint([i] + rest, len)
  {
    var ms := [i] + rest;
    forall k, l | 0 <= k < l < |ms| ensures ms[k] + len <= ms[l] {
      assert ms[l] == rest[l - 1];
      if k > 0 {
        assert ms[k] == rest[k - 1];
      } else {
        assert rest[l - 1] in rest;
      }
    }
  }

  /** Reported matches are in increasing order and do not overlap. */
  lemma {:induction false} MatchesFromDisjoint<T>(s: seq<T>, p: seq<T>, i: nat)
    requires |p| > 0 && i <= |s|
    ensures Disjoint(MatchesFrom(s, p, i), |p|)
    decreases |s| - i
  {
    if |s| - i >= |p| {
      if s[i..i + |p|] == p {
        MatchesFromDisjoint(s, p, i + |p|);
        DisjointAtMatch(s, p, i);
      } else {
        MatchesFromDisjoint(s, p, i + 1);
        MatchesFromNoMatchHere(s, p, i);
      }
    }
  }

  lemma DisjointAtMatch<T>(s: seq<T>, p: seq<T>, i: nat)
    requires |p| > 0 && i + |p| <= |s| && s[i..i + |p|] == p
    requires Disjoint(MatchesFrom(s, p, i + |p|), |p|)
    ensures Disjoint(MatchesFrom(s, p, i), |p|)
  {
    MatchesFromAtMatch(s, p, i);
    DisjointCons(i, MatchesFrom(s, p, i + |p|), |p|);
  }

  /** Every occurrence at or after `i` starts inside a reported match. */
  lemma MatchesFromCover<T>(s: seq<T>, p: seq<T>, i: nat)
    requires |p| > 0 && i <= |s|
    ensures forall j :: i <= j && OccursAt(s, p, j) ==> Covered(MatchesFrom(s, p, i), |p|, j)
  {
    forall j | i <= j && OccursAt(s, p, j) ensures Covered(MatchesFrom(s, p, i), |p|, j) {
      MatchesFromCoverAt(s, p, i, j);
    }
  }

  lemma {:induction false} MatchesFromCoverAt<T>(s: seq<T>, p: seq<T>, i: nat, j: nat)
    requires |p| > 0 && i <= j && OccursAt(s, p, j)
    ensures Covered(MatchesFrom(s, p, i), |p|, j)
    decreases |s| - i
  {
    if s[i..i + |p|] == p {
      if i + |p| <= j {
        MatchesFromCoverAt(s, p, i + |p|, j);
      }
      CoverAtMatch(s, p, i, j);
    } else {
      assert j != i;
      MatchesFromCoverAt(s, p, i + 1, j);
      MatchesFromNoMatchHere(s, p, i);
    }
  }

  lemma CoverAtMatch<T>(s: seq<T>, p: seq<T>, i: nat, j: nat)
    requires |p| > 0 && i <= j && i + |p| <= |s| && s[i..i + |p|] == p
    requires i + |p| <= j ==> Covered(MatchesFrom(s, p, i + |p|), |p|, j)
    ensures Covered(MatchesFrom(s, p, i), |p|, j)
  {
    MatchesFromAtMatch(s, p, i);
    CoveredCons(i, MatchesFrom(s, p, i + |p|), |p|, j);
  }

  /** Prepending a match keeps what was covered and covers the match itself. */
  lemma CoveredCons(i: nat, rest: seq<nat>, len: nat, j: int)
    requires i <= j < i + len || Covered(rest, len, j)
    ensures Covered([i] + rest, len, j)
  {
    if i <= j < i + len {
      assert i in [i] + rest;
    } else {
      var m :| m in rest && m <= j < m + len;
      assert m in [i] + rest;
    }
  }

  /**
   * The scan is greedy: matches are in increasing order, no two overlap, and every
   * occurrence at or after `i` starts inside some match.
   */
  lemma MatchesFromGreedy<T>(s: seq<T>, p: seq<T>, i: nat)
    requires |p| > 0 && i <= |s|
    ensures var ms := MatchesFrom(s, p, i);
      (forall m :: m in ms ==> OccursAt(s, p, m)) &&
      Disjoint(ms, |p|) &&
      (forall j :: i <= j && OccursAt(s, p, j) ==> Covered(ms, |p|, j))
  {
    MatchesFromOccur(s, p, i);
    MatchesFromDisjoint(s, p, i);
    MatchesFromCover(s, p, i);
  }

  /**
   * `Matches` lists exactly the matches a left-to-right, non-overlapping
   * scan finds: each is an occurrence, they are increasing and disjoint, and
   * every occurrence of the pattern starts inside one of them.
   */
  lemma MatchesGreedy<T>(s: seq<T>, p: seq<T>)
    requires |p| > 0
    ensures var ms := Matches(s, p);
      (forall k :: 0 <= k < |ms| ==> OccursAt(s, p, ms[k])) &&
      Disjoint(ms, |p|) &&
      (forall j :: OccursAt(s, p, j) ==> Covered(ms, |p|, j))
  {
    var ms := Matches(s, p);
    MatchesFromGreedy(s, p, 0);
    forall k | 0 <= k < |ms| ensures OccursAt(s, p, ms[k]) {
      assert ms[k] in ms;
    }
  }

  /** The pattern occurs at all exactly when the scan finds a match. */
  lemma OccursIffMatched<T>(s: seq<T>, p: seq<T>)
    requires |p| > 0
    ensures Occurs(s, p) <==> |Matches(s, p)| > 0
  {
    var ms := Matches(s, p);
    MatchesGreedy(s, p);
    if Occurs(s, p) {
      var j :| OccursAt(s, p, j);
      assert Covered(ms, |p|, j);
    }
    if |ms| > 0 {
      assert OccursAt(s, p, ms[0]);
    }
  }

  lemma MulSucc(c: int, d: int)
    ensures (c + 1) * d == c * d + d
  {
  }

  lemma {:induction false} ReplaceFromLength<T>(s: seq<T>, p: seq<T>, r: seq<T>, i: nat)
    requires |p| > 0 && i <= |s|
    ensures |ReplaceFrom(s, p, r, i)| == |s| - i + |MatchesFrom(s, p, i)| * (|r| - |p|)
    decreases |s| - i
  {
    if |s| - i < |p| {
    } else if s[i..i + |p|] == p {
      ReplaceFromLength(s, p, r, i + |p|);
      LengthAtMatch(s, p, r, i);
    } else {
      ReplaceFromLength(s, p, r, i + 1);
      LengthAwayFromMatch(s, p, r, i);
    }
  }

  lemma LengthAtMatch<T>(s: seq<T>, p: seq<T>, r: seq<T>, i: nat)
    requires |p| > 0 && i + |p| <= |s| && s[i..i + |p|] == p
    requires |ReplaceFrom(s, p, r, i + |p|)| == |s| - (i + |p|) + |MatchesFrom(s, p, i + |p|)| * (|r| - |p|)
    ensures |ReplaceFrom(s, p, r, i)| == |s| - i + |MatchesFrom(s, p, i)| * (|r| - |p|)
  {
    ReplaceFromAtMatch(s, p, r, i);
    MatchesFromAtMatch(s, p, i);
    MulSucc(|MatchesFrom(s, p, i + |p|)|, |r| - |p|);
  }

  lemma LengthAwayFromMatch<T>(s: seq<T>, p: seq<T>, r: seq<T>, i: nat)
    requires |p| > 0 && i + |p| <= |s| && s[i..i + |p|] != p
    requires |ReplaceFrom(s, p, r, i + 1)| == |s| - (i + 1) + |MatchesFrom(s, p, i + 1)| * (|r| - |p|)
    ensures |ReplaceFrom(s, p, r, i)| == |s| - i + |MatchesFrom(s, p, i)| * (|r| - |p|)
  {
    ReplaceFromNoMatchHere(s, p, r, i);
    MatchesFromNoMatchHere(s, p, i);
  }

  /** Every match changes the length by the difference of the two lengths. */
  lemma ReplaceAllLength<T>(s: seq<T>, pattern: seq<T>, replacement: seq<T>)
    requires |pattern| > 0
    ensures |ReplaceAll(s, pattern, replacement)|
         == |s| + |Matches(s, pattern)| * (|replacement| - |pattern|)
  {
    ReplaceFromLength(s, pattern, replacement, 0);
  }

  lemma {:induction false} ReplaceFromSameLength<T>(s: seq<T>, p: seq<T>, r: seq<T>, i: nat)
    requires |p| > 0 && i <= |s| && |r| == |p|
    ensures |ReplaceFrom(s, p, r, i)| == |s| - i
    decreases |s| - i
  {
    if |s| - i < |p| {
    } else if s[i..i + |p|] == p {
      ReplaceFromSameLength(s, p, r, i + |p|);
    } else {
      ReplaceFromSameLength(s, p, r, i + 1);
    }
  }

  /** One step of the scan at a match: the match, then those after it. */
  lemma MatchesFromAtMatch<T>(s: seq<T>, p: seq<T>, i: nat)
    requires |p| > 0 && i + |p| <= |s| && s[i..i + |p|] == p
    ensures MatchesFrom(s, p, i) == [i] + MatchesFrom(s, p, i + |p|)
  {
  }

  /** One step of the scan away from a match: the matches from the next index. */
  lemma MatchesFromNoMatchHere<T>(s: seq<T>, p: seq<T>, i: nat)
    requires |p| > 0 && i + |p| <= |s| && s[i..i + |p|] != p
    ensures MatchesFrom(s, p, i) == MatchesFrom(s, p, i + 1)
  {
  }

  /** One step of the scan at a match: the replacement, then the rest. */
  lemma ReplaceFromAtMatch<T>(s: seq<T>, p: seq<T>, r: seq<T>, i: nat)
    requires |p| > 0 && i + |p| <= |s| && s[i..i + |p|] == p
    ensures ReplaceFrom(s, p, r, i) == r + ReplaceFrom(s, p, r, i + |p|)
  {
  }

  /** One step of the scan away from a match: the byte, then the rest. */
  lemma ReplaceFromNoMatchHere<T>(s: seq<T>, p: seq<T>, r: seq<T>, i: nat)
    requires |p| > 0 && i + |p| <= |s| && s[i..i + |p|] != p
    ensures ReplaceFrom(s, p, r, i) == [s[i]] + ReplaceFrom(s, p, r, i + 1)
  {
  }

  /** Offset `d` of the match at `m` holds the replacement's byte `d`. */
  lemma ReplaceFromOverwrites<T>(s: seq<T>, p: seq<T>, r: seq<T>, i: nat, m: nat, d: nat)
    requires |p| > 0 && i <= |s| && |r| == |p|
    requires m in MatchesFrom(s, p, i) && d < |p|
    ensures |ReplaceFrom(s, p, r, i)| == |s| - i
    ensures ReplaceFrom(s, p, r, i)[m - i + d] == r[d]
  {
    ReplaceFromSameLength(s, p, r, i);
    OverwritesAt(s, p, r, i, m, d, m - i + d);
  }

  lemma {:induction false} OverwritesAt<T>(s: seq<T>, p: seq<T>, r: seq<T>, i: nat, m: nat, d: nat, j: nat)
    requires |p| > 0 && i <= |s| && |r| == |p|
    requires m in MatchesFrom(s, p, i) && d < |p| && j == m - i + d
    ensures j < |ReplaceFrom(s, p, r, i)| && ReplaceFrom(s, p, r, i)[j] == r[d]
    decreases |s| - i, 1
  {
    if s[i..i + |p|] == p {
      if m == i {
        OverwritesHere(s, p, r, i, d);
      } else {
        LaterMatch(s, p, i, m);
        ReplaceFromAtMatch(s, p, r, i);
        OverwritesPastMatch(s, p, r, i, m, d, j);
      }
    } else {
      OverwritesPastSkip(s, p, r, i, m, d, j);
    }
  }

  /**
   * `OverwritesAt` for a later match, when `i` starts a match of its own
   * (stated through the step of the replacement at that match).
   */
  lemma {:induction false} OverwritesPastMatch<T>(s: seq<T>, p: seq<T>, r: seq<T>, i: nat, m: nat, d: nat, j: nat)
    requires |p| > 0 && i + |p| <= |s| && |r| == |p|
    requires ReplaceFrom(s, p, r, i) == r + ReplaceFrom(s, p, r, i + |p|)
    requires m in MatchesFrom(s, p, i + |p|) && d < |p| && j == m - i + d
    ensures j < |ReplaceFrom(s, p, r, i)| && ReplaceFrom(s, p, r, i)[j] == r[d]
    decreases |s| - i, 0
  {
    OverwritesAt(s, p, r, i + |p|, m, d, j - |p|);
    IndexPastPrefix(r, ReplaceFrom(s, p, r, i + |p|), j);
  }

  /** `OverwritesAt` when no match starts at `i`. */
  lemma {:induction false} OverwritesPastSkip<T>(s: seq<T>, p: seq<T>, r: seq<T>, i: nat, m: nat, d: nat, j: nat)
    requires |p| > 0 && i + |p| <= |s| && |r| == |p| && s[i..i + |p|] != p
    requires m in MatchesFrom(s, p, i) && d < |p| && j == m - i + d
    ensures j < |ReplaceFrom(s, p, r, i)| && ReplaceFrom(s, p, r, i)[j] == r[d]
    decreases |s| - i, 0
  {
    MatchAfterSkip(s, p, i, m);
    OverwritesAt(s, p, r, i + 1, m, d, j - 1);
    OverwritesAfterSkip(s, p, r, i, j, r[d]);
  }

  /** A match other than the one at `i` is among the matches after it. */
  lemma LaterMatch<T>(s: seq<T>, p: seq<T>, i: nat, m: nat)
    requires |p| > 0 && i + |p| <= |s| && s[i..i + |p|] == p
    requires m in MatchesFrom(s, p, i) && m != i
    ensures m in MatchesFrom(s, p, i + |p|) && i + |p| <= m
  {
    MatchesFromAtMatch(s, p, i);
    InConsTail(i, MatchesFrom(s, p, i + |p|), m);
  }

  /** Without a match at `i`, every match is among those from `i + 1`. */
  lemma MatchAfterSkip<T>(s: seq<T>, p: seq<T>, i: nat, m: nat)
    requires |p| > 0 && i + |p| <= |s| && s[i..i + |p|] != p
    requires m in MatchesFrom(s, p, i)
    ensures m in MatchesFrom(s, p, i + 1) && i + 1 <= m
  {
    MatchesFromNoMatchHere(s, p, i);
  }

  lemma OverwritesHere<T>(s: seq<T>, p: seq<T>, r: seq<T>, i: nat, d: nat)
    requires |p| > 0 && i + |p| <= |s| && s[i..i + |p|] == p && d < |r|
    ensures d < |ReplaceFrom(s, p, r, i)| && ReplaceFrom(s, p, r, i)[d] == r[d]
  {
    ReplaceFromAtMatch(s, p, r, i);
    IndexInPrefix(r, ReplaceFrom(s, p, r, i + |p|), d);
  }

  lemma OverwritesAfterSkip<T>(s: seq<T>, p: seq<T>, r: seq<T>, i: nat, j: nat, v: T)
    requires |p| > 0 && i + |p| <= |s| && s[i..i + |p|] != p && 1 <= j
    requires j - 1 < |ReplaceFrom(s, p, r, i + 1)| && ReplaceFrom(s, p, r, i + 1)[j - 1] == v
    ensures j < |ReplaceFrom(s, p, r, i)| && ReplaceFrom(s, p, r, i)[j] == v
  {
    ReplaceFromNoMatchHere(s, p, r, i);
    IndexPastPrefix([s[i]], ReplaceFrom(s, p, r, i + 1), j);
  }

  lemma InConsTail(i: nat, rest: seq<nat>, m: nat)
    requires m in [i] + rest && m != i
    ensures m in rest
  {
  }

  lemma IndexInPrefix<T>(a: seq<T>, b: seq<T>, j: nat)
    requires j < |a|
    ensures (a + b)[j] == a[j]
  {
  }

  lemma IndexPastPrefix<T>(a: seq<T>, b: seq<T>, j: nat)
    requires |a| <= j < |a| + |b|
    ensures (a + b)[j] == b[j - |a|]
  {
  }

  /** An index outside every match keeps its byte. */
  lemma {:induction false} ReplaceFromKeeps<T>(s: seq<T>, p: seq<T>, r: seq<T>, i: nat, j: nat)
    requires |p| > 0 && i <= j < |s| && |r| == |p|
    requires !Covered(MatchesFrom(s, p, i), |p|, j)
    ensures |ReplaceFrom(s, p, r, i)| == |s| - i
    ensures ReplaceFrom(s, p, r, i)[j - i] == s[j]
    decreases |s| - i
  {
    ReplaceFromSameLength(s, p, r, i);
    var ms := MatchesFrom(s, p, i);
    if |s| - i < |p| {
    } else if s[i..i + |p|] == p {
      var ms' := MatchesFrom(s, p, i + |p|);
      assert ms == [i] + ms';
      assert i in ms;
      assert !Covered(ms', |p|, j) by {
        forall m | m in ms' ensures !(m <= j < m + |p|) {
          assert m in ms;
        }
      }
      ReplaceFromKeeps(s, p, r, i + |p|, j);
    } else if j > i {
      ReplaceFromKeeps(s, p, r, i + 1, j);
    }
  }

  /**
   * With a replacement as long as the pattern, `ReplaceAll` keeps the length,
   * writes the replacement over every match and leaves every byte outside
   * the matches as it was.
   */
  lemma ReplaceAllInPlace<T>(s: seq<T>, pattern: seq<T>, replacement: seq<T>)
    requires |pattern| > 0 && |replacement| == |pattern|
    ensures var out, ms := ReplaceAll(s, pattern, replacement), Matches(s, pattern);
      |out| == |s| &&
      (forall m :: m in ms ==> out[m..m + |pattern|] == replacement) &&
      (forall j :: 0 <= j < |s| && !Covered(ms, |pattern|, j) ==> out[j] == s[j])
  {
    var out, ms := ReplaceAll(s, pattern, replacement), Matches(s, pattern);
    ReplaceFromSameLength(s, pattern, replacement, 0);
    forall m | m in ms ensures out[m..m + |pattern|] == replacement {
      forall d | 0 <= d < |pattern| ensures out[m..m + |pattern|][d] == replacement[d] {
        ReplaceFromOverwrites(s, pattern, replacement, 0, m, d);
      }
    }
    forall j | 0 <= j < |s| && !Covered(ms, |pattern|, j) ensures out[j] == s[j] {
      ReplaceFromKeeps(s, pattern, replacement, 0, j);
    }
  }

  lemma {:induction false} ReplaceFromNoMatch<T>(s: seq<T>, p: seq<T>, r: seq<T>, i: nat)
    requires |p| > 0 && i <= |s| && MatchesFrom(s, p, i) == []
    ensures ReplaceFrom(s, p, r, i) == s[i..]
    decreases |s| - i
  {
    if |s| - i >= |p| {
      NoMatchHere(s, p, i);
      MatchesFromNoMatchHere(s, p, i);
      ReplaceFromNoMatch(s, p, r, i + 1);
      KeepAwayFromMatch(s, p, r, i);
    }
  }

  /** Where the scan reports no match, the pattern does not start at `i`. */
  lemma NoMatchHere<T>(s: seq<T>, p: seq<T>, i: nat)
    requires |p| > 0 && i + |p| <= |s| && MatchesFrom(s, p, i) == []
    ensures s[i..i + |p|] != p
  {
  }

  lemma KeepAwayFromMatch<T>(s: seq<T>, p: seq<T>, r: seq<T>, i: nat)
    requires |p| > 0 && i + |p| <= |s| && s[i..i + |p|] != p
    requires ReplaceFrom(s, p, r, i + 1) == s[i + 1..]
    ensures ReplaceFrom(s, p, r, i) == s[i..]
  {
    ReplaceFromNoMatchHere(s, p, r, i);
    SplitAt(s, i, i + 1);
  }

  /** Without an occurrence of the pattern, `ReplaceAll` returns its input unchanged. */
  lemma ReplaceAllAbsent<T>(s: seq<T>, pattern: seq<T>, replacement: seq<T>)
    requires |pattern| > 0 && !Occurs(s, pattern)
    ensures ReplaceAll(s, pattern, replacement) == s
  {
    OccursIffMatched(s, pattern);
    ReplaceFromNoMatch(s, pattern, replacement, 0);
  }

  lemma {:induction false} ReplaceFromSelf<T>(s: seq<T>, p: seq<T>, i: nat)
    requires |p| > 0 && i <= |s|
    ensures ReplaceFrom(s, p, p, i) == s[i..]
    decreases |s| - i
  {
    if |s| - i < |p| {
    } else if s[i..i + |p|] == p {
      ReplaceFromSelf(s, p, i + |p|);
      SelfAtMatch(s, p, i);
    } else {
      ReplaceFromSelf(s, p, i + 1);
      SelfAwayFromMatch(s, p, i);
    }
  }

  lemma SelfAtMatch<T>(s: seq<T>, p: seq<T>, i: nat)
    requires |p| > 0 && i + |p| <= |s| && s[i..i + |p|] == p
    requires ReplaceFrom(s, p, p, i + |p|) == s[i + |p|..]
    ensures ReplaceFrom(s, p, p, i) == s[i..]
  {
    ReplaceFromAtMatch(s, p, p, i);
    SplitAt(s, i, i + |p|);
  }

  lemma SelfAwayFromMatch<T>(s: seq<T>, p: seq<T>, i: nat)
    requires |p| > 0 && i + |p| <= |s| && s[i..i + |p|] != p
    requires ReplaceFrom(s, p, p, i + 1) == s[i + 1..]
    ensures ReplaceFrom(s, p, p, i) == s[i..]
  {
    ReplaceFromNoMatchHere(s, p, p, i);
    SplitAt(s, i, i + 1);
  }

  lemma SplitAt<T>(s: seq<T>, i: nat, k: nat)
    requires i <= k <= |s|
    ensures s[i..] == s[i..k] + s[k..]
  {
  }

  /** Replacing a pattern by itself changes nothing. */
  lemma ReplaceAllSelf<T>(s: seq<T>, pattern: seq<T>)
    requires |pattern| > 0
    ensures ReplaceAll(s, pattern, pattern) == s
  {
    ReplaceFromSelf(s, pattern, 0);
  }
}
