/** Levenshtein distance: the recursive definition, the two-row dynamic
    program that computes it, and the metric facts scoring relies on. */
module EditDistance {

  function Min3(x: nat, y: nat, z: nat): (m: nat)
    ensures m <= x && m <= y && m <= z
    ensures m == x || m == y || m == z
  {
    if x <= y && x <= z then x else if y <= z then y else z
  }

  /** The least number of single-character insertions, deletions and
      substitutions that turn `a` into `b`, by the last characters. */
  function Distance(a: string, b: string): nat
    decreases |a| + |b|
  {
    if |a| == 0 then |b|
    else if |b| == 0 then |a|
    else Min3(Distance(a[..|a| - 1], b) + 1,
              Distance(a, b[..|b| - 1]) + 1,
              Distance(a[..|a| - 1], b[..|b| - 1]) + (if a[|a| - 1] == b[|b| - 1] then 0 else 1))
  }

  /** `levenshtein(s1, s2)`: swaps so that `s1` is the longer string, then
      keeps one row of the table per character of `s1`. */
  method Levenshtein(s1: string, s2: string) returns (d: nat)
    ensures d == Distance(s1, s2)
    decreases if |s1| < |s2| then 1 else 0
  {
    if |s1| < |s2| {
      d := Levenshtein(s2, s1);
      DistanceSymmetric(s2, s1);
      return;
    }
    if |s2| == 0 {
      return |s1|;
    }
    var previous := seq(|s2| + 1, j => j);
    for i := 0 to |s1|
      invariant |previous| == |s2| + 1
      invariant forall j :: 0 <= j <= |s2| ==> previous[j] == Distance(s1[..i], s2[..j])
    {
      previous := NextRow(s1, s2, i, previous);
    }
    d := previous[|previous| - 1];
    assert d == Distance(s1[..|s1|], s2[..|s2|]);
    assert s1[..|s1|] == s1;
    assert s2[..|s2|] == s2;
  }

  /** One pass of the outer loop of `levenshtein`: the row of the table for
      the first `i + 1` characters of `s1`, built from the row for the first
      `i`. */
  method NextRow(s1: string, s2: string, i: nat, previous: seq<nat>) returns (current: seq<nat>)
    requires i < |s1| && |previous| == |s2| + 1
    requires forall j :: 0 <= j <= |s2| ==> previous[j] == Distance(s1[..i], s2[..j])
    ensures |current| == |s2| + 1
    ensures forall j :: 0 <= j <= |s2| ==> current[j] == Distance(s1[..i + 1], s2[..j])
  {
    current := [i + 1];
    for j := 0 to |s2|
      invariant |current| == j + 1
      invariant forall k :: 0 <= k <= j ==> current[k] == Distance(s1[..i + 1], s2[..k])
    {
      var insertions := previous[j + 1] + 1;
      var deletions := current[j] + 1;
      var substitutions := previous[j] + (if s1[i] != s2[j] then 1 else 0);
      DistanceStep(s1, s2, i, j, previous[j + 1], current[j], previous[j]);
      ghost var row := current;
      current := current + [Min3(insertions, deletions, substitutions)];
      assert forall k :: 0 <= k <= j ==> current[k] == row[k];
    }
  }

  /** One cell of the table from its three neighbours: above, to the left
      and diagonally above. */
  lemma DistanceStep(s1: string, s2: string, i: int, j: int, up: nat, left: nat, diagonal: nat)
    requires 0 <= i < |s1| && 0 <= j < |s2|
    requires up == Distance(s1[..i], s2[..j + 1])
    requires left == Distance(s1[..i + 1], s2[..j])
    requires diagonal == Distance(s1[..i], s2[..j])
    ensures Distance(s1[..i + 1], s2[..j + 1]) ==
              Min3(up + 1, left + 1, diagonal + (if s1[i] != s2[j] then 1 else 0))
  {
    var a, b := s1[..i + 1], s2[..j + 1];
    assert a[..|a| - 1] == s1[..i] && b[..|b| - 1] == s2[..j];
  }

  /** The distance does not depend on the order of its arguments. */
  lemma {:induction false} DistanceSymmetric(a: string, b: string)
    ensures Distance(a, b) == Distance(b, a)
    decreases |a| + |b|
  {
    if |a| != 0 && |b| != 0 {
      DistanceSymmetric(a[..|a| - 1], b);
      DistanceSymmetric(a, b[..|b| - 1]);
      DistanceSymmetric(a[..|a| - 1], b[..|b| - 1]);
    }
  }

  /** Against the empty string the distance is the other string's length. */
  lemma DistanceToEmpty(s: string)
    ensures Distance(s, []) == |s| && Distance([], s) == |s|
  {
  }

  /** The distance is at least the difference of the lengths and at most the
      longer length. */
  lemma {:induction false} DistanceBounds(a: string, b: string)
    ensures Distance(a, b) >= |a| - |b| && Distance(a, b) >= |b| - |a|
    ensures Distance(a, b) <= if |a| >= |b| then |a| else |b|
    decreases |a| + |b|
  {
    if |a| != 0 && |b| != 0 {
      DistanceBounds(a[..|a| - 1], b);
      DistanceBounds(a, b[..|b| - 1]);
      DistanceBounds(a[..|a| - 1], b[..|b| - 1]);
    }
  }

  /** The distance is zero exactly between equal strings. */
  lemma {:induction false} DistanceZeroIff(a: string, b: string)
    ensures Distance(a, b) == 0 <==> a == b
    decreases |a| + |b|
  {
    if |a| != 0 && |b| != 0 {
      var a', b' := a[..|a| - 1], b[..|b| - 1];
      DistanceZeroIff(a', b');
      DistanceBounds(a', b);
      DistanceBounds(a, b');
      if a == b {
        assert a' == b';
      }
      if a' == b' && a[|a| - 1] == b[|b| - 1] {
        assert a == a' + [a[|a| - 1]] && b == b' + [b[|b| - 1]];
      }
    }
  }
}
