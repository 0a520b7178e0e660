/** `getStringDistance`: the selector of the string-distance method and the dispatch
    to the library routine it names. */
module StringDistance {
  import opened Wrappers
  import opened Errors
  import opened Library

  datatype Method = Levenshtein | JaroWinkler | Hamming | Jaccard | LongestCommonSubsequence

  /** The selector strings offered to the user, in the order of `STRING_CALC_METHODS`. */
  const MethodNames: seq<string> :=
    ["Levenshtein", "Jaro-Winkler", "Hamming", "Jaccard", "Longest Common Subsequence"]

  function MethodAt(k: nat): Method
    requires k < 5
  {
    [Levenshtein, JaroWinkler, Hamming, Jaccard, LongestCommonSubsequence][k]
  }

  /** Picks the method whose name equals the selector; anything else falls back to Levenshtein. */
  function SelectMethod(selector: string): (m: Method)
    ensures forall k :: 0 <= k < 5 && selector == MethodNames[k] ==> m == MethodAt(k)
    ensures (forall k :: 0 <= k < 5 ==> selector != MethodNames[k]) ==> m == Levenshtein
  {
    if selector == MethodNames[0] then Levenshtein
    else if selector == MethodNames[1] then JaroWinkler
    else if selector == MethodNames[2] then Hamming
    else if selector == MethodNames[3] then Jaccard
    else if selector == MethodNames[4] then LongestCommonSubsequence
    else Levenshtein
  }

  /** The library routine behind a method. */
  function Routine(lib: Library, m: Method): (string, string) -> real
  {
    match m
    case Levenshtein => lib.levenshtein
    case JaroWinkler => lib.jaroWinkler
    case Hamming => lib.hamming
    case Jaccard => lib.jaccard
    case LongestCommonSubsequence => lib.longestCommonSubsequence
  }

  /** Java's `String.length()`: the number of UTF-16 code units, two for each character
      outside the Basic Multilingual Plane. */
  function Utf16Length(s: string): (n: nat)
    ensures |s| <= n <= 2 * |s|
  {
    if |s| == 0 then 0
    else Utf16Length(s[..|s| - 1]) + (if s[|s| - 1] as int < 0x1_0000 then 1 else 2)
  }

  /** The Java length is the number of characters exactly when every character lies in the
      Basic Multilingual Plane. */
  lemma {:induction false} Utf16LengthBmp(s: string)
    ensures Utf16Length(s) == |s| <==> forall k :: 0 <= k < |s| ==> s[k] as int < 0x1_0000
  {
    if |s| > 0 {
      var init := s[..|s| - 1];
      Utf16LengthBmp(init);
      assert forall k :: 0 <= k < |init| ==> init[k] == s[k];
    }
  }

  /** The distance between two strings under method `m`. Hamming distance of strings of
      different Java lengths is an error; every other method always answers. */
  function Distance(lib: Library, m: Method, s1: string, s2: string): (r: Result<real, Error>)
    ensures r.Err? <==> m == Hamming && Utf16Length(s1) != Utf16Length(s2)
    ensures r.Err? ==> r.error == HammingLengthMismatch(Utf16Length(s1), Utf16Length(s2))
    ensures r.Ok? ==> r.value == Routine(lib, m)(s1, s2)
  {
    if m == Hamming && Utf16Length(s1) != Utf16Length(s2) then
      Err(HammingLengthMismatch(Utf16Length(s1), Utf16Length(s2)))
    else Ok(Routine(lib, m)(s1, s2))
  }

  /** Lengths are counted in UTF-16 units: one emoji and two letters have the same Java
      length, so Hamming compares them, while two strings of one character each differ
      when only one of them lies outside the Basic Multilingual Plane. */
  lemma HammingCountsCodeUnits(lib: Library)
    ensures Distance(lib, Hamming, "\U{1F600}", "ab").Ok?
    ensures Distance(lib, Hamming, "\U{1F600}", "a").Err?
  {
    assert "\U{1F600}"[..0] == "" && "ab"[..1][..0] == "" && "a"[..0] == "";
    assert "ab"[..1] == "a";
  }

  /** What the distance lemmas need of a method: a symmetric routine... */
  ghost predicate SymmetricMethod(lib: Library, m: Method)
  {
    Symmetric(Routine(lib, m))
  }

  /** ...and, except for Jaro-Winkler (a similarity, 1 on equal strings), zero on equal strings. */
  ghost predicate IdentityMethod(lib: Library, m: Method)
  {
    m != JaroWinkler && ZeroOnIdentity(Routine(lib, m))
  }

  lemma DistanceSymmetric(lib: Library, m: Method, s1: string, s2: string)
    requires SymmetricMethod(lib, m)
    ensures Distance(lib, m, s1, s2).Err? <==> Distance(lib, m, s2, s1).Err?
    ensures Distance(lib, m, s1, s2).Ok? ==> Distance(lib, m, s1, s2).value == Distance(lib, m, s2, s1).value
  {
    assert Routine(lib, m)(s1, s2) == Routine(lib, m)(s2, s1);
  }
}
