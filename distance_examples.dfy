/**
 * The concrete cases of the unit tests in ext/levenshtein_rust/src/lib.rs,
 * stated about the recurrence and, through `Distance`'s contract, about the
 * engine.
 */
module DistanceExamples {
  import opened EditDistance
  import opened DistanceEngine

  /** Empty inputs: the distance is the other side's length. */
  lemma EmptinessCases()
    ensures Lev("", "") == 0 && Lev("a", "") == 1 && Lev("", "a") == 1
  {
  }

  /** One substitution: "abc" to "azc". */
  lemma SubstitutionCase()
    ensures Lev("abc", "azc") == 1
  {
    assert "abc"[..2] == "ab" && "azc"[..2] == "az";
    assert "ab"[..1] == "a" && "az"[..1] == "a";
    LevSelf("a");
    LevZeroIff("abc", "azc");
  }

  /** A swap of two neighbours costs two edits: the distance has no transpositions. */
  lemma NoTranspositionCase()
    ensures Lev("abc", "acb") == 2
  {
    assert "abc"[..2] == "ab" && "acb"[..2] == "ac";
    assert Lev("ab", "ac") == 1 by {
      assert "ab"[..1] == "a" && "ac"[..1] == "a";
      LevSelf("a");
      LevZeroIff("ab", "ac");
    }
    LevLowerBound("ab", "acb");
    LevLowerBound("abc", "ac");
    LevZeroIff("ab", "acb");
    LevZeroIff("abc", "ac");
  }

  /** One deletion: "abc" to "ac". */
  lemma DeletionCase()
    ensures Lev("abc", "ac") == 1
  {
    assert "abc"[..2] == "ab" && "ac"[..1] == "a" && "ab"[..1] == "a";
    LevSelf("a");
    LevLowerBound("abc", "ac");
  }

  /** One insertion: "ac" to "abc". */
  lemma InsertionCase()
    ensures Lev("ac", "abc") == 1
  {
    DeletionCase();
    LevSymmetric("ac", "abc");
  }

  /** A multi-byte code point is one unit: "la" to "l" + U+00E0, and one crab to a lion. */
  lemma CodePointCases()
    ensures Lev("la", "l\U{00E0}") == 1
    ensures Lev("\U{1F980}", "\U{1F981}") == 1
  {
  }

  /** The unit tests' cases, answered by the engine itself. */
  method EngineCases()
  {
    var d := Distance("", "");
    assert d == 0;
    d := Distance("a", "");
    assert d == 1;
    d := Distance("abc", "azc");
    assert d == 1 by { SubstitutionCase(); }
    d := Distance("abc", "acb");
    assert d == 2 by { NoTranspositionCase(); }
    d := Distance("abc", "ac");
    assert d == 1 by { DeletionCase(); }
    d := Distance("ac", "abc");
    assert d == 1 by { InsertionCase(); }
    d := Distance("la", "l\U{00E0}");
    assert d == 1 by { CodePointCases(); }
  }
}
