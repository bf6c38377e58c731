/**
 * Title similarity used by the library de-duplication scan: normalisation, the
 * Levenshtein edit distance (a dynamic-programming table filled row by row) and the
 * similarity ratio `(longer - distance) / longer`.
 */
module StringSimilarity {

  import opened Text

  function Min3(x: int, y: int, z: int): (m: int)
    ensures m <= x && m <= y && m <= z
    ensures m == x || m == y || m == z
  {
    if x <= y && x <= z then x else if y <= z then y else z
  }

  /**
   * Cell (i, j) of the distance table: the edit distance between the first i characters
   * of `b` (rows) and the first j characters of `a` (columns).
   */
  function Lev(a: string, b: string, i: nat, j: nat): nat
    requires i <= |b| && j <= |a|
    decreases i + j
  {
    if i == 0 then j
    else if j == 0 then i
    else if b[i - 1] == a[j - 1] then Lev(a, b, i - 1, j - 1)
    else 1 + Min3(Lev(a, b, i - 1, j - 1), Lev(a, b, i, j - 1), Lev(a, b, i - 1, j))
  }

  /** The distance between the whole strings: the last cell of the table. */
  function Distance(a: string, b: string): nat
  {
    Lev(a, b, |b|, |a|)
  }

  /** Swapping the two strings transposes the table. */
  lemma {:induction false} LevSymmetric(a: string, b: string, i: nat, j: nat)
    requires i <= |b| && j <= |a|
    ensures Lev(a, b, i, j) == Lev(b, a, j, i)
    decreases i + j
  {
    if i == 0 || j == 0 {
    } else if b[i - 1] == a[j - 1] {
      LevSymmetric(a, b, i - 1, j - 1);
    } else {
      LevSymmetric(a, b, i - 1, j - 1);
      LevSymmetric(a, b, i, j - 1);
      LevSymmetric(a, b, i - 1, j);
      Min3Swap(Lev(a, b, i - 1, j - 1), Lev(a, b, i, j - 1), Lev(a, b, i - 1, j));
    }
  }

  lemma Min3Swap(x: int, y: int, z: int)
    ensures Min3(x, y, z) == Min3(x, z, y)
  {
  }

  /** The distance never exceeds the longer prefix. */
  lemma {:induction false} LevUpper(a: string, b: string, i: nat, j: nat)
    requires i <= |b| && j <= |a|
    ensures Lev(a, b, i, j) <= i || Lev(a, b, i, j) <= j
    decreases i + j
  {
    if i == 0 || j == 0 {
    } else if b[i - 1] == a[j - 1] {
      LevUpper(a, b, i - 1, j - 1);
    } else {
      LevUpper(a, b, i - 1, j - 1);
    }
  }

  /** The distance is at least the difference of the prefix lengths. */
  lemma {:induction false} LevLower(a: string, b: string, i: nat, j: nat)
    requires i <= |b| && j <= |a|
    ensures Lev(a, b, i, j) + i >= j && Lev(a, b, i, j) + j >= i
    decreases i + j
  {
    if i == 0 || j == 0 {
    } else if b[i - 1] == a[j - 1] {
      LevLower(a, b, i - 1, j - 1);
    } else {
      LevLower(a, b, i - 1, j - 1);
      LevLower(a, b, i, j - 1);
      LevLower(a, b, i - 1, j);
    }
  }

  /** Both bounds together: `|i - j| <= Lev <= max(i, j)`. */
  lemma LevBounds(a: string, b: string, i: nat, j: nat)
    requires i <= |b| && j <= |a|
    ensures Lev(a, b, i, j) <= if i < j then j else i
    ensures Lev(a, b, i, j) >= if i < j then j - i else i - j
  {
    LevUpper(a, b, i, j);
    LevLower(a, b, i, j);
  }

  /** A cell is zero exactly when the two prefixes are the same string. */
  lemma {:induction false} LevZero(a: string, b: string, i: nat, j: nat)
    requires i <= |b| && j <= |a|
    ensures Lev(a, b, i, j) == 0 <==> (i == j && b[..i] == a[..j])
    decreases i + j
  {
    if i == 0 || j == 0 {
    } else if b[i - 1] == a[j - 1] {
      LevZero(a, b, i - 1, j - 1);
      assert b[..i] == b[..i - 1] + [b[i - 1]];
      assert a[..j] == a[..j - 1] + [a[j - 1]];
      if i == j && b[..i] == a[..j] {
        assert b[..i - 1] == b[..i][..i - 1];
        assert a[..j - 1] == a[..j][..j - 1];
      }
    }
  }

  /** Rows `0 .. i-1` of the table hold the distances of the corresponding prefixes. */
  ghost predicate RowsDone(m: array2<nat>, a: string, b: string, i: nat)
    requires m.Length0 == |b| + 1 && m.Length1 == |a| + 1 && i <= |b| + 1
    reads m
  {
    forall r, c {:trigger m[r, c]} :: 0 <= r < i && 0 <= c <= |a| ==> m[r, c] == Lev(a, b, r, c)
  }

  /** Fills row `i` of the table from row `i - 1` and its first cell. */
  method FillRow(m: array2<nat>, a: string, b: string, i: nat)
    requires m.Length0 == |b| + 1 && m.Length1 == |a| + 1 && 1 <= i <= |b|
    requires RowsDone(m, a, b, i) && m[i, 0] == i
    modifies m
    ensures RowsDone(m, a, b, i + 1)
    ensures forall r :: i < r <= |b| ==> m[r, 0] == old(m[r, 0])
  {
    var j := 1;
    while j <= |a|
      invariant 1 <= j <= |a| + 1
      invariant RowsDone(m, a, b, i)
      invariant forall c {:trigger m[i, c]} :: 0 <= c < j ==> m[i, c] == Lev(a, b, i, c)
      invariant forall r :: i < r <= |b| ==> m[r, 0] == old(m[r, 0])
    {
      var diag, left, up := m[i - 1, j - 1], m[i, j - 1], m[i - 1, j];
      assert diag == Lev(a, b, i - 1, j - 1) && up == Lev(a, b, i - 1, j) && left == Lev(a, b, i, j - 1);
      var v := if b[i - 1] == a[j - 1] then diag else Min3(diag + 1, left + 1, up + 1);
      assert v == Lev(a, b, i, j);
      m[i, j] := v;
      j := j + 1;
    }
  }

  /** `getLevenshteinDistance`: fills the (|b|+1) x (|a|+1) table row by row. */
  method LevenshteinDistance(a: string, b: string) returns (d: nat)
    ensures d == Distance(a, b)
  {
    var m := new nat[|b| + 1, |a| + 1];
    var i := 0;
    while i <= |b|
      invariant i <= |b| + 1
      invariant forall r :: 0 <= r < i ==> m[r, 0] == r
    {
      m[i, 0] := i;
      i := i + 1;
    }
    var j := 0;
    while j <= |a|
      invariant j <= |a| + 1
      invariant forall c :: 0 <= c < j ==> m[0, c] == c
      invariant forall r :: 1 <= r <= |b| ==> m[r, 0] == r
    {
      m[0, j] := j;
      j := j + 1;
    }
    i := 1;
    while i <= |b|
      invariant 1 <= i <= |b| + 1
      invariant RowsDone(m, a, b, i)
      invariant forall r :: i <= r <= |b| ==> m[r, 0] == r
    {
      FillRow(m, a, b, i);
      i := i + 1;
    }
    d := m[|b|, |a|];
  }

  /** A similarity score `num / den` with `den > 0`; kept as a fraction so thresholds compare exactly. */
  datatype Ratio = Ratio(num: nat, den: nat)

  /** `calculateSimilarity`: 1 for two equal normalised strings, 0 when exactly one is empty,
      otherwise the share of the longer string left after the edit distance. */
  function Similarity(s1: string, s2: string): (r: Ratio)
    ensures 0 < r.den && r.num <= r.den
  {
    var n1 := NormalizeStr(s1);
    var n2 := NormalizeStr(s2);
    if n1 == [] && n2 == [] then Ratio(1, 1)
    else if n1 == [] || n2 == [] then Ratio(0, 1)
    else if n1 == n2 then Ratio(1, 1)
    else
      var longer := if |n1| > |n2| then n1 else n2;
      LevBounds(n1, n2, |n2|, |n1|);
      Ratio(|longer| - Distance(n1, n2), |longer|)
  }

  /** `calculateSimilarity` as the program runs it: the distance comes from the table-filling method. */
  method CalculateSimilarity(s1: string, s2: string) returns (r: Ratio)
    ensures r == Similarity(s1, s2)
  {
    var n1 := NormalizeStr(s1);
    var n2 := NormalizeStr(s2);
    if n1 == [] && n2 == [] {
      return Ratio(1, 1);
    }
    if n1 == [] || n2 == [] {
      return Ratio(0, 1);
    }
    if n1 == n2 {
      return Ratio(1, 1);
    }
    var longer := if |n1| > |n2| then n1 else n2;
    var dist := LevenshteinDistance(n1, n2);
    LevBounds(n1, n2, |n2|, |n1|);
    r := Ratio(|longer| - dist, |longer|);
  }

  /** `sim > 0.7`. */
  predicate Above07(r: Ratio)
  {
    10 * r.num > 7 * r.den
  }

  /** `sim < 0.5`. */
  predicate Below05(r: Ratio)
  {
    2 * r.num < r.den
  }

  /** Similarity is 1 exactly when the two strings normalise to the same text. */
  lemma SimilarityOne(s1: string, s2: string)
    ensures Similarity(s1, s2).num == Similarity(s1, s2).den <==> NormalizeStr(s1) == NormalizeStr(s2)
  {
    var n1 := NormalizeStr(s1);
    var n2 := NormalizeStr(s2);
    if n1 != [] && n2 != [] && n1 != n2 {
      LevZero(n1, n2, |n2|, |n1|);
      LevBounds(n1, n2, |n2|, |n1|);
      assert n1[..|n1|] == n1 && n2[..|n2|] == n2;
    }
  }

  /** The score does not depend on the order of its arguments. */
  lemma SimilaritySymmetric(s1: string, s2: string)
    ensures Similarity(s1, s2) == Similarity(s2, s1)
  {
    var n1 := NormalizeStr(s1);
    var n2 := NormalizeStr(s2);
    LevSymmetric(n1, n2, |n2|, |n1|);
  }

  /** A string is fully similar to itself. */
  lemma SimilarityReflexive(s: string)
    ensures Similarity(s, s) == Ratio(1, 1)
  {
  }

  /** Two strings whose normalised forms differ in length by more than 30% of the longer one
      never pass the title threshold. */
  lemma LengthGapBlocksMatch(s1: string, s2: string)
    requires var n1, n2 := NormalizeStr(s1), NormalizeStr(s2);
             10 * (|n1| - |n2|) >= 3 * |n1| && |n2| < |n1|
    ensures !Above07(Similarity(s1, s2))
  {
    var n1 := NormalizeStr(s1);
    var n2 := NormalizeStr(s2);
    LevBounds(n1, n2, |n2|, |n1|);
  }
}
