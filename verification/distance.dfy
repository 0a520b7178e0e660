/** `euclideanDistance` (also spelt `euclidianDistance` in one revision): the mixed
    Euclidean distance between two feature vectors. Every dimension has unit weight;
    dimension counts must agree type by type. */
module Distance {
  import opened Wrappers
  import opened Errors
  import opened Library
  import opened Numbers
  import opened Features
  import SD = StringDistance

  /** Java `int` subtraction wraps around at 32 bits before it is widened to `double`. */
  function Wrap32(x: int): (r: int)
    ensures -0x8000_0000 <= r < 0x8000_0000
    ensures (x - r) % 0x1_0000_0000 == 0
  {
    (x + 0x8000_0000) % 0x1_0000_0000 - 0x8000_0000
  }

  lemma Wrap32Negate(x: int)
    ensures Wrap32(-x) * Wrap32(-x) == Wrap32(x) * Wrap32(x)
  {
    var r := Wrap32(x);
    var q := (x + 0x8000_0000) / 0x1_0000_0000;
    assert x + 0x8000_0000 == q * 0x1_0000_0000 + (r + 0x8000_0000);
    if r == -0x8000_0000 {
      assert -x + 0x8000_0000 == (1 - q) * 0x1_0000_0000 + 0;
      assert Wrap32(-x) == -0x8000_0000;
    } else {
      assert -x + 0x8000_0000 == (-q) * 0x1_0000_0000 + (-r + 0x8000_0000);
      assert Wrap32(-x) == -r;
    }
  }

  /** Sum of squared string distances, pair by pair from the first dimension; the first
      failing pair ends the computation. */
  function StringTerms(lib: Library, m: SD.Method, s: seq<string>, s2: seq<string>): Result<real, Error>
    requires |s| == |s2|
    decreases |s|
  {
    if |s| == 0 then Ok(0.0)
    else
      var n := |s| - 1;
      var prefix :- StringTerms(lib, m, s[..n], s2[..n]);
      var d :- SD.Distance(lib, m, s[n], s2[n]);
      Ok(prefix + d * d)
  }

  function DoubleTerms(d: seq<real>, d2: seq<real>): real
    requires |d| == |d2|
    decreases |d|
  {
    if |d| == 0 then 0.0
    else
      var n := |d| - 1;
      DoubleTerms(d[..n], d2[..n]) + (d[n] - d2[n]) * (d[n] - d2[n])
  }

  function IntTerms(i: seq<int>, i2: seq<int>): real
    requires |i| == |i2|
    decreases |i|
  {
    if |i| == 0 then 0.0
    else
      var n := |i| - 1;
      IntTerms(i[..n], i2[..n]) + WrappedSquare(i[n] - i2[n])
  }

  /** Square, as a `double`, of an `int` difference after 32-bit wrap-around. */
  function WrappedSquare(x: int): (r: real)
    ensures r >= 0.0
  {
    var w := Wrap32(x) as real;
    w * w
  }

  lemma WrappedSquareNegate(x: int)
    ensures WrappedSquare(-x) == WrappedSquare(x)
  {
    Wrap32Negate(x);
    var w := Wrap32(x);
    var w' := Wrap32(-x);
    assert (w' as real) * (w' as real) == (w' * w') as real;
    assert (w as real) * (w as real) == (w * w) as real;
  }

  predicate SameDimensions(a: FeatureVector, b: FeatureVector)
  {
    |a.strings| == |b.strings| && |a.doubles| == |b.doubles| && |a.ints| == |b.ints|
  }

  /** Whether every string pair suits the method (only Hamming constrains lengths). */
  predicate StringsCompatible(m: SD.Method, s: seq<string>, s2: seq<string>)
    requires |s| == |s2|
  {
    m == SD.Hamming ==> forall k :: 0 <= k < |s| ==> SD.Utf16Length(s[k]) == SD.Utf16Length(s2[k])
  }

  /** The distance: the string, double and integer dimension counts are checked in that
      order, then the square root of the summed squared differences is returned. */
  function EuclideanDistance(lib: Library, m: SD.Method, a: FeatureVector, b: FeatureVector): (r: Result<real, Error>)
    ensures |a.strings| != |b.strings| ==> r == Err(StringDimensionMismatch(|a.strings|, |b.strings|))
    ensures |a.strings| == |b.strings| && |a.doubles| != |b.doubles| ==>
              r == Err(DoubleDimensionMismatch(|a.doubles|, |b.doubles|))
    ensures |a.strings| == |b.strings| && |a.doubles| == |b.doubles| && |a.ints| != |b.ints| ==>
              r == Err(IntDimensionMismatch(|a.ints|, |b.ints|))
    ensures r.Ok? <==> SameDimensions(a, b) && StringsCompatible(m, a.strings, b.strings)
    ensures r.Ok? && LawfulSqrt(lib) ==> r.value >= 0.0
    ensures r.Ok? ==> StringTerms(lib, m, a.strings, b.strings).Ok?
                      && r.value == lib.sqrt(SquaredDistance(lib, m, a, b))
  {
    if |a.strings| != |b.strings| then Err(StringDimensionMismatch(|a.strings|, |b.strings|))
    else if |a.doubles| != |b.doubles| then Err(DoubleDimensionMismatch(|a.doubles|, |b.doubles|))
    else if |a.ints| != |b.ints| then Err(IntDimensionMismatch(|a.ints|, |b.ints|))
    else
      StringTermsOk(lib, m, a.strings, b.strings);
      DoubleTermsNonNegative(a.doubles, b.doubles);
      IntTermsNonNegative(a.ints, b.ints);
      var st :- StringTerms(lib, m, a.strings, b.strings);
      Ok(lib.sqrt(st + DoubleTerms(a.doubles, b.doubles) + IntTerms(a.ints, b.ints)))
  }

  /** The squared sum behind a successful distance. */
  function SquaredDistance(lib: Library, m: SD.Method, a: FeatureVector, b: FeatureVector): (sq: real)
    requires SameDimensions(a, b)
    requires StringTerms(lib, m, a.strings, b.strings).Ok?
  {
    StringTerms(lib, m, a.strings, b.strings).value + DoubleTerms(a.doubles, b.doubles) + IntTerms(a.ints, b.ints)
  }

  lemma {:induction false} StringTermsOk(lib: Library, m: SD.Method, s: seq<string>, s2: seq<string>)
    requires |s| == |s2|
    ensures StringTerms(lib, m, s, s2).Ok? <==> StringsCompatible(m, s, s2)
    ensures StringTerms(lib, m, s, s2).Ok? ==> StringTerms(lib, m, s, s2).value >= 0.0
    decreases |s|
  {
    if |s| > 0 {
      var n := |s| - 1;
      StringTermsOk(lib, m, s[..n], s2[..n]);
      if StringTerms(lib, m, s[..n], s2[..n]).Ok? {
        var d := SD.Distance(lib, m, s[n], s2[n]);
        if d.Ok? {
          assert d.value * d.value >= 0.0;
        }
      }
      if m == SD.Hamming && StringsCompatible(m, s[..n], s2[..n]) && SD.Utf16Length(s[n]) == SD.Utf16Length(s2[n]) {
        assert forall k :: 0 <= k < |s| ==> SD.Utf16Length(s[k]) == SD.Utf16Length(s2[k]) by {
          forall k | 0 <= k < |s| ensures SD.Utf16Length(s[k]) == SD.Utf16Length(s2[k]) {
            if k < n { assert s[..n][k] == s[k] && s2[..n][k] == s2[k]; }
          }
        }
      }
    }
  }

  lemma {:induction false} DoubleTermsNonNegative(d: seq<real>, d2: seq<real>)
    requires |d| == |d2|
    ensures DoubleTerms(d, d2) >= 0.0
    decreases |d|
  {
    if |d| > 0 {
      var n := |d| - 1;
      DoubleTermsNonNegative(d[..n], d2[..n]);
      assert (d[n] - d2[n]) * (d[n] - d2[n]) >= 0.0;
    }
  }

  lemma {:induction false} IntTermsNonNegative(i: seq<int>, i2: seq<int>)
    requires |i| == |i2|
    ensures IntTerms(i, i2) >= 0.0
    decreases |i|
  {
    if |i| > 0 {
      var n := |i| - 1;
      IntTermsNonNegative(i[..n], i2[..n]);
    }
  }

  lemma {:induction false} StringTermsSymmetric(lib: Library, m: SD.Method, s: seq<string>, s2: seq<string>)
    requires |s| == |s2|
    requires SD.SymmetricMethod(lib, m)
    ensures StringTerms(lib, m, s, s2).Ok? <==> StringTerms(lib, m, s2, s).Ok?
    ensures StringTerms(lib, m, s, s2).Ok? ==> StringTerms(lib, m, s, s2).value == StringTerms(lib, m, s2, s).value
    decreases |s|
  {
    if |s| > 0 {
      var n := |s| - 1;
      StringTermsSymmetric(lib, m, s[..n], s2[..n]);
      SD.DistanceSymmetric(lib, m, s[n], s2[n]);
    }
  }

  lemma {:induction false} DoubleTermsSymmetric(d: seq<real>, d2: seq<real>)
    requires |d| == |d2|
    ensures DoubleTerms(d, d2) == DoubleTerms(d2, d)
    decreases |d|
  {
    if |d| > 0 {
      var n := |d| - 1;
      DoubleTermsSymmetric(d[..n], d2[..n]);
      assert (d[n] - d2[n]) * (d[n] - d2[n]) == (d2[n] - d[n]) * (d2[n] - d[n]);
    }
  }

  lemma {:induction false} IntTermsSymmetric(i: seq<int>, i2: seq<int>)
    requires |i| == |i2|
    ensures IntTerms(i, i2) == IntTerms(i2, i)
    decreases |i|
  {
    if |i| > 0 {
      var n := |i| - 1;
      IntTermsSymmetric(i[..n], i2[..n]);
      WrappedSquareNegate(i[n] - i2[n]);
      assert i2[n] - i[n] == -(i[n] - i2[n]);
    }
  }

  /** The distance is symmetric whenever the chosen string distance is: both directions
      fail together, and otherwise agree. */
  lemma DistanceSymmetric(lib: Library, m: SD.Method, a: FeatureVector, b: FeatureVector)
    requires SD.SymmetricMethod(lib, m)
    ensures EuclideanDistance(lib, m, a, b).Ok? <==> EuclideanDistance(lib, m, b, a).Ok?
    ensures EuclideanDistance(lib, m, a, b).Ok? ==>
              EuclideanDistance(lib, m, a, b).value == EuclideanDistance(lib, m, b, a).value
  {
    if SameDimensions(a, b) {
      StringTermsSymmetric(lib, m, a.strings, b.strings);
      DoubleTermsSymmetric(a.doubles, b.doubles);
      IntTermsSymmetric(a.ints, b.ints);
    }
  }

  lemma {:induction false} StringTermsSelf(lib: Library, m: SD.Method, s: seq<string>)
    requires SD.IdentityMethod(lib, m)
    ensures StringTerms(lib, m, s, s) == Ok(0.0)
    decreases |s|
  {
    if |s| > 0 {
      var n := |s| - 1;
      StringTermsSelf(lib, m, s[..n]);
      assert SD.Routine(lib, m)(s[n], s[n]) == 0.0;
    }
  }

  lemma {:induction false} DoubleTermsSelf(d: seq<real>)
    ensures DoubleTerms(d, d) == 0.0
    decreases |d|
  {
    if |d| > 0 {
      DoubleTermsSelf(d[..|d| - 1]);
    }
  }

  lemma {:induction false} IntTermsSelf(i: seq<int>)
    ensures IntTerms(i, i) == 0.0
    decreases |i|
  {
    if |i| > 0 {
      IntTermsSelf(i[..|i| - 1]);
      assert Wrap32(0) == 0;
    }
  }

  /** A feature vector is at distance 0 from itself, for every method that is zero on equal
      strings (all but Jaro-Winkler, whose routine is a similarity). */
  lemma DistanceToSelf(lib: Library, m: SD.Method, a: FeatureVector)
    requires LawfulSqrt(lib) && SD.IdentityMethod(lib, m)
    ensures EuclideanDistance(lib, m, a, a) == Ok(0.0)
  {
    StringTermsSelf(lib, m, a.strings);
    DoubleTermsSelf(a.doubles);
    IntTermsSelf(a.ints);
  }
}
