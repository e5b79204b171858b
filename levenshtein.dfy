/**
  The edit-distance confirmer of the duplicate cascade: Levenshtein distance by
  the classic dynamic-programming table, and the normalised similarity
  `1 - distance / max(|a|, |b|)` computed on normalised texts.
 */
module Levenshtein {
  import opened Text

  function Max(x: nat, y: nat): nat {
    if x < y then y else x
  }

  function Min3(x: nat, y: nat, z: nat): (m: nat)
    ensures m <= x && m <= y && m <= z
    ensures m == x || m == y || m == z
  {
    if x <= y && x <= z then x else if y <= z then y else z
  }

  /** Levenshtein distance: the fewest single-character insertions,
      deletions and substitutions turning `a` into `b`, by the recurrence on
      the last characters of both strings. */
  function Distance(a: string, b: string): nat
    decreases |a| + |b|
  {
    if |a| == 0 then |b|
    else if |b| == 0 then |a|
    else
      var cost := if a[|a| - 1] == b[|b| - 1] then 0 else 1;
      Min3(Distance(a[..|a| - 1], b) + 1,
           Distance(a, b[..|b| - 1]) + 1,
           Distance(a[..|a| - 1], b[..|b| - 1]) + cost)
  }

  lemma {:induction false} DistanceSymmetric(a: string, b: string)
    ensures Distance(a, b) == Distance(b, a)
    decreases |a| + |b|
  {
    if |a| != 0 && |b| != 0 {
      DistanceSymmetric(a[..|a| - 1], b);
      DistanceSymmetric(a, b[..|b| - 1]);
      DistanceSymmetric(a[..|a| - 1], b[..|b| - 1]);
    }
  }

  lemma {:induction false} DistanceToItself(a: string)
    ensures Distance(a, a) == 0
    decreases |a|
  {
    if |a| != 0 {
      DistanceToItself(a[..|a| - 1]);
    }
  }

  /** Equal strings, and only equal strings, are at distance 0. */
  lemma {:induction false} DistanceZeroIffEqual(a: string, b: string)
    ensures Distance(a, b) == 0 <==> a == b
    decreases |a| + |b|
  {
    if |a| != 0 && |b| != 0 && Distance(a, b) == 0 {
      var a', b' := a[..|a| - 1], b[..|b| - 1];
      assert Distance(a', b') == 0 && a[|a| - 1] == b[|b| - 1];
      DistanceZeroIffEqual(a', b');
      assert a == a' + [a[|a| - 1]];
      assert b == b' + [b[|b| - 1]];
    } else if a == b {
      DistanceToItself(a);
    }
  }

  /** Substituting position by position and then inserting or deleting the
      rest never takes more than the longer length. */
  lemma {:induction false} DistanceAtMostMax(a: string, b: string)
    ensures Distance(a, b) <= Max(|a|, |b|)
    decreases |a| + |b|
  {
    if |a| != 0 && |b| != 0 {
      DistanceAtMostMax(a[..|a| - 1], b[..|b| - 1]);
    }
  }

  /** Each edit changes the length by at most one. */
  lemma {:induction false} DistanceAtLeastLengthGap(a: string, b: string)
    ensures Distance(a, b) >= |a| - |b| && Distance(a, b) >= |b| - |a|
    decreases |a| + |b|
  {
    if |a| != 0 && |b| != 0 {
      DistanceAtLeastLengthGap(a[..|a| - 1], b);
      DistanceAtLeastLengthGap(a, b[..|b| - 1]);
      DistanceAtLeastLengthGap(a[..|a| - 1], b[..|b| - 1]);
    }
  }

  /** One cell of the table: the recurrence on the prefixes `a[..i]`, `b[..j]`. */
  lemma DistanceOfPrefixes(a: string, b: string, i: nat, j: nat)
    requires 0 < i <= |a| && 0 < j <= |b|
    ensures Distance(a[..i], b[..j]) ==
      Min3(Distance(a[..i - 1], b[..j]) + 1,
           Distance(a[..i], b[..j - 1]) + 1,
           Distance(a[..i - 1], b[..j - 1]) + (if a[i - 1] == b[j - 1] then 0 else 1))
  {
    assert a[..i][..i - 1] == a[..i - 1];
    assert b[..j][..j - 1] == b[..j - 1];
  }

  /** A cell computed from its three neighbours holds the distance of its
      prefixes when the neighbours hold theirs. */
  lemma CellValue(a: string, b: string, i: nat, j: nat, up: nat, left: nat, diagonal: nat)
    requires 0 < i <= |a| && 0 < j <= |b|
    requires up == Distance(a[..i - 1], b[..j])
    requires left == Distance(a[..i], b[..j - 1])
    requires diagonal == Distance(a[..i - 1], b[..j - 1])
    ensures Min3(up + 1, left + 1, diagonal + (if a[i - 1] == b[j - 1] then 0 else 1)) == Distance(a[..i], b[..j])
  {
    DistanceOfPrefixes(a, b, i, j);
  }

  /** `matrix[a.length][b.length]` after filling the (|a|+1) x (|b|+1)
      table row by row: every cell `matrix[i][j]` holds the distance of the
      prefixes `a[..i]` and `b[..j]`. */
  method DistanceTable(a: string, b: string) returns (d: nat)
    ensures d == Distance(a, b)
  {
    var matrix := new nat[|a| + 1, |b| + 1];
    for i := 0 to |a| + 1
      invariant forall x :: 0 <= x < i ==> matrix[x, 0] == x
    {
      matrix[i, 0] := i;
    }
    for j := 0 to |b| + 1
      invariant forall x :: 0 <= x <= |a| ==> matrix[x, 0] == x
      invariant forall y :: 0 <= y < j ==> matrix[0, y] == y
    {
      matrix[0, j] := j;
    }
    assert forall y :: 0 <= y <= |b| ==> Distance(a[..0], b[..y]) == y;
    for i := 1 to |a| + 1
      invariant forall y :: 0 <= y <= |b| ==> matrix[i - 1, y] == Distance(a[..i - 1], b[..y])
      invariant forall x :: i <= x <= |a| ==> matrix[x, 0] == x
    {
      FillRow(a, b, matrix, i);
    }
    assert a[..|a|] == a && b[..|b|] == b;
    d := matrix[|a|, |b|];
  }

  /** The inner loop of the table: row `i` from the row above it. */
  method FillRow(a: string, b: string, matrix: array2<nat>, i: nat)
    requires matrix.Length0 == |a| + 1 && matrix.Length1 == |b| + 1 && 1 <= i <= |a|
    requires forall y :: 0 <= y <= |b| ==> matrix[i - 1, y] == Distance(a[..i - 1], b[..y])
    requires forall x :: i <= x <= |a| ==> matrix[x, 0] == x
    modifies matrix
    ensures forall y :: 0 <= y <= |b| ==> matrix[i, y] == Distance(a[..i], b[..y])
    ensures forall x :: i < x <= |a| ==> matrix[x, 0] == x
    ensures forall x, y :: 0 <= x <= |a| && 0 <= y <= |b| && x != i ==> matrix[x, y] == old(matrix[x, y])
  {
    assert Distance(a[..i], b[..0]) == i;
    for j := 1 to |b| + 1
      invariant forall y :: 0 <= y <= |b| ==> matrix[i - 1, y] == Distance(a[..i - 1], b[..y])
      invariant forall y :: 0 <= y < j ==> matrix[i, y] == Distance(a[..i], b[..y])
      invariant forall x :: i < x <= |a| ==> matrix[x, 0] == x
      invariant forall x, y :: 0 <= x <= |a| && 0 <= y <= |b| && x != i ==> matrix[x, y] == old(matrix[x, y])
    {
      var cost := if a[i - 1] == b[j - 1] then 0 else 1;
      var up, left, diagonal := matrix[i - 1, j], matrix[i, j - 1], matrix[i - 1, j - 1];
      CellValue(a, b, i, j, up, left, diagonal);
      matrix[i, j] := Min3(up + 1, left + 1, diagonal + cost);
    }
  }

  lemma RatioInUnitInterval(d: nat, m: nat)
    requires 0 < d <= m
    ensures 0.0 < (d as real) / (m as real) <= 1.0
  {
    var q := (d as real) / (m as real);
    assert q * (m as real) == d as real;
  }

  /** `levenshteinSimilarity` on texts that are already normalised. */
  function Similarity(x: string, y: string): (r: real)
    ensures 0.0 <= r <= 1.0
    ensures r == 1.0 <==> x == y
  {
    if x == y then 1.0
    else
      DistanceAtMostMax(x, y);
      DistanceZeroIffEqual(x, y);
      RatioInUnitInterval(Distance(x, y), Max(|x|, |y|));
      1.0 - (Distance(x, y) as real) / (Max(|x|, |y|) as real)
  }

  lemma SimilaritySymmetric(x: string, y: string)
    ensures Similarity(x, y) == Similarity(y, x)
  {
    DistanceSymmetric(x, y);
  }

  /** `levenshteinSimilarity(a, b)`: both texts are normalised; equal texts
      give 1 without building the table, otherwise the table's distance is
      divided by the longer length, which is then positive. */
  method LevenshteinSimilarity(a: string, b: string) returns (r: real)
    ensures r == Similarity(Normalize(a), Normalize(b))
    ensures 0.0 <= r <= 1.0
    ensures r == 1.0 <==> Normalize(a) == Normalize(b)
  {
    var x := Normalize(a);
    var y := Normalize(b);
    if x == y {
      return 1.0;
    }
    var distance := DistanceTable(x, y);
    r := 1.0 - (distance as real) / (Max(|x|, |y|) as real);
  }
}
