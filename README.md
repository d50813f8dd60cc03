# Levenshtein distance over Unicode code points

This project models the distance engine of the `levenshtein_rust` Ruby extension. That engine is the
function `distance` in `ext/levenshtein_rust/src/lib.rs`. It computes the Levenshtein edit distance
between two strings. Each string is read as a sequence of Unicode scalar values (`chars()`), not as
bytes, so an accented letter or an emoji counts as one edit unit. Insertion, deletion and
substitution each cost 1, and equal code points cost 0. The algorithm is Wagner-Fischer with two
rolling rows of length `|s2| + 1`. It has two fast paths:
- when either input is empty, it returns the larger length;
- when the inputs are identical, it returns 0.

The model has three modules:

- `EditDistance` (`edit_distance.dfy`) gives the textbook recurrence `Lev` as the specification.
  It drops the last code point of one side or of both, so `Lev(a[..i], b[..j])` is exactly cell
  (i, j) of the Wagner-Fischer matrix. The module also proves what callers rely on:
  - `Lev` is zero exactly on equal inputs;
  - it lies between the difference of the lengths and the larger length, so it equals the other
    length when one side is empty;
  - it is symmetric;
  - it obeys the triangle inequality;
  - one matrix cell follows from its three neighbours.
- `DistanceEngine` (`distance_engine.dfy`) is the imperative algorithm. It allocates the two
  buffers `distances` and `workspace` as arrays. `NextRow` fills `workspace` in place from
  `distances`. `Distance` exchanges the two array references after every code point of `s1`, as
  `std::mem::swap` does, and then reads the last cell.
- `DistanceExamples` (`distance_examples.dfy`) restates the cases of the crate's unit tests. It
  also holds a client method, `EngineCases`, that obtains the same answers from `Distance`'s
  contract.

Inputs are `seq<char>`. A Dafny `char` is a Unicode scalar value, as a Rust `char` is, so a
`seq<char>` is exactly the sequence `str::chars()` enumerates. The source's fast path `s1 == s2`
compares the UTF-8 bytes of the two strings. UTF-8 encoding is injective, so that comparison
agrees with equality of the code-point sequences, which is what the model compares.

## Model

| member | source | states |
|---|---|---|
| DistanceEngine.Distance | ext/levenshtein_rust/src/lib.rs:5-39 | returns exactly the Levenshtein distance `Lev(s1, s2)` over code points; when either side is empty the result is the larger length; the result is 0 if and only if the inputs are identical |
| DistanceEngine.NextRow | ext/levenshtein_rust/src/lib.rs:20-32 | if `distances` holds row i of the matrix (cell j = distance from the first i code points of `s1` to the first j of `s2`), then afterwards `workspace` holds row i + 1, starting with `i + 1`; only `workspace` changes, and every index `j`, `j + 1` used stays within the `|s2| + 1` cells |
| EditDistance.CellStep | ext/levenshtein_rust/src/lib.rs:24-31 | cell (i + 1, j + 1) of the matrix is the minimum of the cell above plus one deletion, the cell to the left plus one insertion, and the diagonal cell plus the substitution cost (0 for equal code points, 1 otherwise) |
| EditDistance.LevSelf | ext/levenshtein_rust/src/lib.rs:13-15 | identical inputs are at distance 0, so the fast path agrees with the full recurrence |
| EditDistance.LevZeroIff | ext/levenshtein_rust/src/lib.rs:13-15 | the distance is 0 if and only if the two code-point sequences are equal (both directions) |
| EditDistance.LevLowerBound | ext/levenshtein_rust/src/lib.rs:9-11 | the distance is at least the difference of the two lengths; with one side empty, the early return `max(len1, len2)` is therefore also the least possible value |
| EditDistance.LevUpperBound | ext/levenshtein_rust/src/lib.rs:9-11 | the distance never exceeds the larger of the two lengths, the value the early return gives for an empty side |
| EditDistance.LevSymmetric | ext/levenshtein_rust/src/lib.rs:3 | the edit distance does not depend on the order of the arguments, although the buffers are sized by the second one |
| EditDistance.LevTriangle | ext/levenshtein_rust/src/lib.rs:3 | the edit distance obeys the triangle inequality `Lev(x, z) <= Lev(x, y) + Lev(y, z)` |
| DistanceExamples.EmptinessCases | ext/levenshtein_rust/src/lib.rs:61-65 | ("", "") gives 0, ("a", "") gives 1 and ("", "a") gives 1 |
| DistanceExamples.SubstitutionCase | ext/levenshtein_rust/src/lib.rs:69 | ("abc", "azc") gives 1: one substitution |
| DistanceExamples.NoTranspositionCase | ext/levenshtein_rust/src/lib.rs:70 | ("abc", "acb") gives 2: swapping two neighbours is not a single edit |
| DistanceExamples.DeletionCase | ext/levenshtein_rust/src/lib.rs:71 | ("abc", "ac") gives 1: one deletion |
| DistanceExamples.InsertionCase | ext/levenshtein_rust/src/lib.rs:72 | ("ac", "abc") gives 1: one insertion |
| DistanceExamples.CodePointCases | ext/levenshtein_rust/src/lib.rs:76-78 | "la" against "l" + U+00E0 gives 1, and U+1F980 against U+1F981 gives 1: a multi-byte code point is one edit unit |

## Left out

- `distance_ruby` (lib.rs:41-46) converts Ruby strings through the `magnus` library's `try_convert`, which validates UTF-8. That library is not part of this model. The model takes already decoded code-point sequences, so it has no error path, and invalid encodings and embedded NUL bytes cannot arise in it.
- `init` (lib.rs:49-54) registers the Ruby module and method. It is host binding with no logic, so it is not modelled.
- `ext/levenshtein_rust/build.rs` does build-time linker discovery. It is I/O only, so it is not modelled.
- `spec/levenshtein_rust_spec.rb` tests a version constant and a `hello` method. Neither concerns the distance, so the file is not modelled.
- DistanceEngine.Distance: the buffers hold unbounded `nat` rather than `usize`. Every value in them is at most `max(|s1|, |s2|) + 1`, so no overflow can occur for strings that fit in memory.
- The unit test at lib.rs:77 shows its second string as a two-character mis-encoding. The model uses the intended single accented code point U+00E0 instead.
