/**
 * Edit distance between two strings (`levenshtein_distance` in
 * new_scripts_5_10/utils.py): the fewest single-character insertions,
 * deletions and substitutions that turn one string into the other.
 *
 * `Distance` is the recursive definition over prefixes; the method computes
 * it the way the source does, one row of the dynamic-programming table at a
 * time, keeping only the previous row.
 */
module Levenshtein {

  import opened Arith

  function Min3(x: int, y: int, z: int): (m: int)
    ensures m <= x && m <= y && m <= z
    ensures m == x || m == y || m == z
  {
    if x <= y && x <= z then x else if y <= z then y else z
  }

  function Abs(x: int): nat
  {
    if x >= 0 then x else -x
  }

  /** 1 when the two characters differ, 0 when they are equal: `(c1 != c2)` used as a number. */
  function Cost(c1: char, c2: char): nat
  {
    if c1 != c2 then 1 else 0
  }

  /**
   * Unit-cost edit distance: an empty string is as far from another string as
   * that string is long; otherwise the last characters are deleted, inserted
   * or matched (at cost 0 or 1), whichever is cheapest.
   */
  function Distance(a: string, b: string): nat
    decreases |a| + |b|
  {
    if |a| == 0 then |b|
    else if |b| == 0 then |a|
    else
      Min3(Distance(a[..|a| - 1], b) + 1,
           Distance(a, b[..|b| - 1]) + 1,
           Distance(a[..|a| - 1], b[..|b| - 1]) + Cost(a[|a| - 1], b[|b| - 1]))
  }

  /** `levenshtein_distance`: the shorter string is the inner (column) one; an empty one costs the other's length. */
  method LevenshteinDistance(s1: string, s2: string) returns (d: nat)
    ensures d == Distance(s1, s2)
    decreases if |s1| < |s2| then 1 else 0
  {
    if |s1| < |s2| {
      d := LevenshteinDistance(s2, s1);
      DistanceSymmetric(s2, s1);
      return;
    }
    if |s2| == 0 {
      return |s1|;
    }
    var previous: seq<nat> := seq(|s2| + 1, j => j);
    forall j | 0 <= j <= |s2|
      ensures previous[j] == Distance(s1[..0], s2[..j])
    {
      DistanceFromEmpty(s2[..j]);
    }
    var i := 0;
    while i < |s1|
      invariant 0 <= i <= |s1|
      invariant |previous| == |s2| + 1
      invariant forall j :: 0 <= j <= |s2| ==> previous[j] == Distance(s1[..i], s2[..j])
    {
      previous := NextRow(s1, s2, i, previous);
      i := i + 1;
    }
    assert s1[..i] == s1 && s2[..|s2|] == s2;
    d := previous[|s2|];
  }

  /**
   * One pass of the outer loop: from the row of distances for s1[..i] it
   * builds the row for s1[..i + 1], left to right.
   */
  method NextRow(s1: string, s2: string, i: nat, previous: seq<nat>) returns (current: seq<nat>)
    requires i < |s1| && |previous| == |s2| + 1
    requires forall j :: 0 <= j <= |s2| ==> previous[j] == Distance(s1[..i], s2[..j])
    ensures |current| == |s2| + 1
    ensures forall j :: 0 <= j <= |s2| ==> current[j] == Distance(s1[..i + 1], s2[..j])
  {
    var c1 := s1[i];
    current := [i + 1];
    DistanceToEmpty(s1[..i + 1]);
    var j := 0;
    while j < |s2|
      invariant 0 <= j <= |s2|
      invariant |current| == j + 1
      invariant forall jj :: 0 <= jj <= j ==> current[jj] == Distance(s1[..i + 1], s2[..jj])
    {
      var insertions := previous[j + 1] + 1;
      var deletions := current[j] + 1;
      var substitutions := previous[j] + Cost(c1, s2[j]);
      DistanceStep(s1, s2, i, j);
      RowExtend(current, s1[..i + 1], s2, j, Min3(insertions, deletions, substitutions));
      current := current + [Min3(insertions, deletions, substitutions)];
      j := j + 1;
    }
  }

  /** Appending the entry for b[..j + 1] to a row that is right up to b[..j] gives a row right up to b[..j + 1]. */
  lemma RowExtend(row: seq<nat>, a: string, b: string, j: nat, v: nat)
    requires |row| == j + 1 && j < |b|
    requires forall jj :: 0 <= jj <= j ==> row[jj] == Distance(a, b[..jj])
    requires v == Distance(a, b[..j + 1])
    ensures forall jj :: 0 <= jj <= j + 1 ==> (row + [v])[jj] == Distance(a, b[..jj])
  {
  }

  /** The table entry for prefixes of lengths i + 1 and j + 1, from its three neighbours. */
  lemma DistanceStep(s1: string, s2: string, i: nat, j: nat)
    requires i < |s1| && j < |s2|
    ensures Distance(s1[..i + 1], s2[..j + 1]) ==
              Min3(Distance(s1[..i], s2[..j + 1]) + 1,
                   Distance(s1[..i + 1], s2[..j]) + 1,
                   Distance(s1[..i], s2[..j]) + Cost(s1[i], s2[j]))
  {
    var a, b := s1[..i + 1], s2[..j + 1];
    assert a[..|a| - 1] == s1[..i] && a[|a| - 1] == s1[i];
    assert b[..|b| - 1] == s2[..j] && b[|b| - 1] == s2[j];
  }

  /** The empty string is |b| edits from b. */
  lemma DistanceFromEmpty(b: string)
    ensures Distance([], b) == |b|
  {
  }

  /** A string is |a| edits from the empty string. */
  lemma DistanceToEmpty(a: string)
    ensures Distance(a, []) == |a|
  {
  }

  /** Edit distance does not depend on the order of its arguments. */
  lemma {:induction false} DistanceSymmetric(a: string, b: string)
    ensures Distance(a, b) == Distance(b, a)
    decreases |a| + |b|
  {
    if |a| > 0 && |b| > 0 {
      DistanceSymmetric(a[..|a| - 1], b);
      DistanceSymmetric(a, b[..|b| - 1]);
      DistanceSymmetric(a[..|a| - 1], b[..|b| - 1]);
    }
  }

  /** The distance lies between the difference of the lengths and the larger length. */
  lemma {:induction false} DistanceBounds(a: string, b: string)
    ensures Abs(|a| - |b|) <= Distance(a, b) <= Max(|a|, |b|)
    decreases |a| + |b|
  {
    if |a| > 0 && |b| > 0 {
      DistanceBounds(a[..|a| - 1], b);
      DistanceBounds(a, b[..|b| - 1]);
      DistanceBounds(a[..|a| - 1], b[..|b| - 1]);
    }
  }

  /** A string is at distance 0 from another exactly when they are equal. */
  lemma {:induction false} DistanceZeroIff(a: string, b: string)
    ensures Distance(a, b) == 0 <==> a == b
    decreases |a| + |b|
  {
    if |a| > 0 && |b| > 0 {
      var a', b' := a[..|a| - 1], b[..|b| - 1];
      DistanceZeroIff(a', b');
      if a == b {
        assert a' == b';
      }
      if Distance(a, b) == 0 {
        DistanceBounds(a', b);
        DistanceBounds(a, b');
        assert Distance(a', b') + Cost(a[|a| - 1], b[|b| - 1]) == 0;
        assert a == a' + [a[|a| - 1]] && b == b' + [b[|b| - 1]];
      }
    }
  }
}
