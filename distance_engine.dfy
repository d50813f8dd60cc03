/**
 * The distance engine: Wagner-Fischer dynamic programming with two rolling
 * rows of length |s2| + 1, as `distance` in ext/levenshtein_rust/src/lib.rs
 * computes it, proved equal to the recurrence `EditDistance.Lev`.
 */
module DistanceEngine {
  import opened EditDistance

  /**
   * Fills `workspace` with the row after `distances`: row i + 1 of the
   * matrix, from row i and the code point s1[i].  Cell 0 costs i + 1
   * deletions; every other cell is the cheapest of a deletion, an insertion
   * and a match or substitution.
   */
  method NextRow(s1: seq<char>, s2: seq<char>, i: nat, distances: array<nat>, workspace: array<nat>)
    requires i < |s1|
    requires distances != workspace && workspace.Length == |s2| + 1
    requires IsRow(distances, s1[..i], s2)
    modifies workspace
    ensures IsRow(workspace, s1[..i + 1], s2)
  {
    var m := |s2|;
    ghost var done := s1[..i + 1];
    workspace[0] := i + 1;
    for j := 0 to m
      invariant IsRow(distances, s1[..i], s2)
      invariant forall k :: 0 <= k <= j ==> workspace[k] == Lev(done, s2[..k])
    {
      var deletionCost := distances[j + 1] + 1;
      var insertionCost := workspace[j] + 1;
      var substitutionCost := distances[j] + SubstCost(s1[i], s2[j]);
      CellStep(s1, s2, i, j, distances[j + 1], workspace[j], distances[j]);
      workspace[j + 1] := Min3(deletionCost, insertionCost, substitutionCost);
    }
  }

  /**
   * Edit distance between two code-point sequences.  Returns early when
   * either side is empty or both are identical; otherwise `distances` holds
   * the previous row of the matrix, `workspace` receives the next one, and
   * the two buffers trade places after every code point of `s1`.
   */
  method Distance(s1: seq<char>, s2: seq<char>) returns (d: nat)
    ensures d == Lev(s1, s2)
    ensures |s1| == 0 || |s2| == 0 ==> d == Max(|s1|, |s2|)
    ensures d == 0 <==> s1 == s2
  {
    LevZeroIff(s1, s2);
    var n, m := |s1|, |s2|;
    if n == 0 || m == 0 {
      return Max(n, m);
    }
    if s1 == s2 {
      return 0;
    }

    var distances := new nat[m + 1](j => j);
    var workspace := new nat[m + 1];
    for i := 0 to n
      invariant distances != workspace && fresh(distances) && fresh(workspace)
      invariant workspace.Length == m + 1
      invariant IsRow(distances, s1[..i], s2)
    {
      NextRow(s1, s2, i, distances, workspace);
      distances, workspace := workspace, distances;
    }

    assert s1[..n] == s1 && s2[..m] == s2;
    d := distances[distances.Length - 1];
  }
}
