/** The routines the node calls but does not implement: `Math.sqrt`, `Math.pow` with
    exponent 2 as the stats view calls it, and the five
    string distances of Apache Commons Lang/Text. They are parameters of the model;
    each predicate below states the one property of a routine a lemma relies on. */
module Library {

  datatype Library = Library(
    sqrt: real -> real,
    square: real -> real,
    levenshtein: (string, string) -> real,
    jaroWinkler: (string, string) -> real,
    hamming: (string, string) -> real,
    jaccard: (string, string) -> real,
    longestCommonSubsequence: (string, string) -> real)

  /** `Math.sqrt` on non-negative arguments: the non-negative square root, 0 at 0. */
  ghost predicate LawfulSqrt(lib: Library)
  {
    && lib.sqrt(0.0) == 0.0
    && forall x: real :: x >= 0.0 ==> lib.sqrt(x) >= 0.0 && lib.sqrt(x) * lib.sqrt(x) == x
  }

  /** `Math.pow(x, 2)`: the product of `x` with itself. */
  ghost predicate LawfulSquare(lib: Library)
  {
    forall x: real :: lib.square(x) == x * x
  }

  /** The one property of `Math.pow(x, 2)` the statistics rely on: it is never negative. */
  ghost predicate NonNegativeSquare(lib: Library)
  {
    forall x: real :: lib.square(x) >= 0.0
  }

  ghost predicate Symmetric(f: (string, string) -> real)
  {
    forall a, b :: f(a, b) == f(b, a)
  }

  ghost predicate ZeroOnIdentity(f: (string, string) -> real)
  {
    forall a :: f(a, a) == 0.0
  }
}
