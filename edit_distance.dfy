/**
 * The Levenshtein edit distance over sequences of Unicode scalar values,
 * stated as the textbook recurrence, together with the properties a caller
 * relies on: it is zero exactly on equal inputs, it equals the other length
 * when one input is empty, it is bounded by the lengths, it is symmetric and
 * it obeys the triangle inequality.
 *
 * A Dafny `char` is a Unicode scalar value, as a Rust `char` is, so a
 * `seq<char>` is exactly what `str::chars()` enumerates.
 */
module EditDistance {

  function Max(x: int, y: int): int { if x < y then y else x }

  function Min3(x: int, y: int, z: int): int
  {
    if x <= y && x <= z then x else if y <= z then y else z
  }

  /** Cost of matching one code point against another: 0 if equal, 1 for a substitution. */
  function SubstCost(c1: char, c2: char): nat { if c1 == c2 then 0 else 1 }

  /**
   * Levenshtein distance: the fewest unit-cost insertions, deletions and
   * substitutions that turn `a` into `b`.  The recurrence removes the LAST
   * code point of `a` (a deletion), of `b` (an insertion) or of both (a
   * match or substitution), so `Lev(a[..i], b[..j])` is the cell (i, j) of
   * the Wagner-Fischer matrix.
   */
  function Lev(a: seq<char>, b: seq<char>): nat
    decreases |a| + |b|
  {
    if |a| == 0 then |b|
    else if |b| == 0 then |a|
    else
      var a', b' := a[..|a| - 1], b[..|b| - 1];
      Min3(Lev(a', b) + 1,
           Lev(a, b') + 1,
           Lev(a', b') + SubstCost(a[|a| - 1], b[|b| - 1]))
  }

  /**
   * `row` holds row |a| of the Wagner-Fischer matrix for `a` against `b`:
   * cell j is the distance from `a` to the first j code points of `b`.
   */
  ghost predicate IsRow(row: array<nat>, a: seq<char>, b: seq<char>)
    reads row
  {
    row.Length == |b| + 1 && forall j :: 0 <= j <= |b| ==> row[j] == Lev(a, b[..j])
  }

  /** Identical inputs are at distance 0, which is what the fast path returns. */
  lemma {:induction false} LevSelf(a: seq<char>)
    ensures Lev(a, a) == 0
    decreases |a|
  {
    if |a| > 0 {
      LevSelf(a[..|a| - 1]);
    }
  }

  /** The distance is at least the difference of the lengths. */
  lemma {:induction false} LevLowerBound(a: seq<char>, b: seq<char>)
    ensures Lev(a, b) >= |a| - |b| && Lev(a, b) >= |b| - |a|
    decreases |a| + |b|
  {
    if |a| > 0 && |b| > 0 {
      var a', b' := a[..|a| - 1], b[..|b| - 1];
      LevLowerBound(a', b);
      LevLowerBound(a, b');
      LevLowerBound(a', b');
    }
  }

  /** The distance never exceeds the longer length: substitute, then insert or delete the rest. */
  lemma {:induction false} LevUpperBound(a: seq<char>, b: seq<char>)
    ensures Lev(a, b) <= Max(|a|, |b|)
    decreases |a| + |b|
  {
    if |a| > 0 && |b| > 0 {
      var a', b' := a[..|a| - 1], b[..|b| - 1];
      LevUpperBound(a', b');
    }
  }

  /** Distance 0 exactly when the two code-point sequences are identical. */
  lemma {:induction false} LevZeroIff(a: seq<char>, b: seq<char>)
    ensures Lev(a, b) == 0 <==> a == b
    decreases |a| + |b|
  {
    if Lev(a, b) == 0 {
      if |a| > 0 && |b| > 0 {
        var a', b' := a[..|a| - 1], b[..|b| - 1];
        LevZeroIff(a', b');
        assert a == a' + [a[|a| - 1]] && b == b' + [b[|b| - 1]];
      }
    } else if a == b {
      LevSelf(a);
    }
  }

  /** The distance does not depend on the order of the arguments. */
  lemma {:induction false} LevSymmetric(a: seq<char>, b: seq<char>)
    ensures Lev(a, b) == Lev(b, a)
    decreases |a| + |b|
  {
    if |a| > 0 && |b| > 0 {
      var a', b' := a[..|a| - 1], b[..|b| - 1];
      LevSymmetric(a', b);
      LevSymmetric(a, b');
      LevSymmetric(a', b');
    }
  }

  /** Triangle inequality: going through `y` is never shorter than going directly. */
  lemma {:induction false} LevTriangle(x: seq<char>, y: seq<char>, z: seq<char>)
    ensures Lev(x, z) <= Lev(x, y) + Lev(y, z)
    decreases |x| + |y| + |z|
  {
    if |x| == 0 {
      LevLowerBound(y, z);
    } else if |z| == 0 {
      LevLowerBound(x, y);
    } else if |y| == 0 {
      LevUpperBound(x, z);
    } else {
      var x', y', z' := x[..|x| - 1], y[..|y| - 1], z[..|z| - 1];
      var a, b, c := x[|x| - 1], y[|y| - 1], z[|z| - 1];
      // The last step of an optimal x-to-y edit and of an optimal y-to-z edit.
      if Lev(x, y) == Lev(x', y) + 1 {
        LevTriangle(x', y, z);
      } else if Lev(y, z) == Lev(y, z') + 1 {
        LevTriangle(x, y, z');
      } else if Lev(x, y) == Lev(x, y') + 1 {
        if Lev(y, z) == Lev(y', z) + 1 {
          LevTriangle(x, y', z);
        } else {
          LevTriangle(x, y', z');
        }
      } else {
        assert Lev(x, y) == Lev(x', y') + SubstCost(a, b);
        if Lev(y, z) == Lev(y', z) + 1 {
          LevTriangle(x', y', z);
        } else {
          LevTriangle(x', y', z');
        }
      }
    }
  }

  /**
   * The Wagner-Fischer step: cell (i + 1, j + 1) is the minimum of the cell
   * above plus a deletion, the cell to the left plus an insertion, and the
   * diagonal cell plus the substitution cost.
   */
  lemma {:induction false} CellStep(a: seq<char>, b: seq<char>, i: nat, j: nat, above: nat, left: nat, diagonal: nat)
    requires i < |a| && j < |b|
    requires above == Lev(a[..i], b[..j + 1])
    requires left == Lev(a[..i + 1], b[..j])
    requires diagonal == Lev(a[..i], b[..j])
    ensures Lev(a[..i + 1], b[..j + 1]) == Min3(above + 1, left + 1, diagonal + SubstCost(a[i], b[j]))
  {
    var a1, b1 := a[..i + 1], b[..j + 1];
    assert a1[..|a1| - 1] == a[..i] && a1[|a1| - 1] == a[i];
    assert b1[..|b1| - 1] == b[..j] && b1[|b1| - 1] == b[j];
  }
}
