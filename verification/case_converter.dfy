/**
  `CaseConverter`: upper-casing of identifiers before they are compared or
  embedded in SQL. PHP's `strtoupper` works byte by byte and, from PHP 8.2 on
  (or in the default C locale before it), changes only the ASCII letters
  `a`-`z`.
*/
module CaseConverter {

  predicate IsLower(c: char) {
    'a' <= c <= 'z'
  }

  predicate IsUpper(c: char) {
    'A' <= c <= 'Z'
  }

  /** The ASCII upper-case counterpart of a lower-case letter; every other character is its own. */
  function UpperChar(c: char): (r: char)
    ensures !IsLower(r)
    ensures IsLower(c) ==> IsUpper(r) && r as int + 32 == c as int
    ensures !IsLower(c) ==> r == c
  {
    if IsLower(c) then (c as int - 32) as char else c
  }

  /** Two characters that `strtoupper` cannot tell apart, stated without it: equal, or one letter in its two cases. */
  predicate SameLetterIgnoringCase(c: char, d: char) {
    c == d
    || (IsLower(c) && d as int + 32 == c as int)
    || (IsLower(d) && c as int + 32 == d as int)
  }

  predicate EqualIgnoringCase(a: string, b: string) {
    |a| == |b| && forall i :: 0 <= i < |a| ==> SameLetterIgnoringCase(a[i], b[i])
  }

  predicate HasNoLower(s: string) {
    forall i :: 0 <= i < |s| ==> !IsLower(s[i])
  }

  /** `CaseConverter::stringToUpper` */
  function StringToUpper(s: string): (r: string)
    ensures |r| == |s|
    ensures forall i :: 0 <= i < |s| ==> r[i] == UpperChar(s[i])
    ensures HasNoLower(r)
  {
    if s == [] then [] else [UpperChar(s[0])] + StringToUpper(s[1..])
  }

  /** `CaseConverter::arrayToUpper`: element-wise, in order. */
  function ArrayToUpper(ss: seq<string>): (r: seq<string>)
    ensures |r| == |ss|
    ensures forall i :: 0 <= i < |ss| ==> r[i] == StringToUpper(ss[i])
  {
    if ss == [] then [] else [StringToUpper(ss[0])] + ArrayToUpper(ss[1..])
  }

  /** A string with no lower-case letter is left exactly as it is. */
  lemma UpperOfUpper(s: string)
    requires HasNoLower(s)
    ensures StringToUpper(s) == s
  {
  }

  /** Upper-casing twice is upper-casing once. */
  lemma StringToUpperIdempotent(s: string)
    ensures StringToUpper(StringToUpper(s)) == StringToUpper(s)
  {
    UpperOfUpper(StringToUpper(s));
  }

  /** The result is the only string without lower-case letters that matches the input up to case. */
  lemma StringToUpperCharacterized(s: string, r: string)
    ensures StringToUpper(s) == r <==> HasNoLower(r) && EqualIgnoringCase(s, r)
  {
    if HasNoLower(r) && EqualIgnoringCase(s, r) {
      forall i | 0 <= i < |s|
        ensures StringToUpper(s)[i] == r[i]
      {
        assert SameLetterIgnoringCase(s[i], r[i]);
      }
    }
  }

  lemma UpperCharAgrees(c: char, d: char)
    ensures UpperChar(c) == UpperChar(d) <==> SameLetterIgnoringCase(c, d)
  {
  }

  /** Two strings upper-case to the same string exactly when they are equal up to ASCII case. */
  lemma StringToUpperEqualIff(a: string, b: string)
    ensures StringToUpper(a) == StringToUpper(b) <==> EqualIgnoringCase(a, b)
  {
    if StringToUpper(a) == StringToUpper(b) {
      forall i | 0 <= i < |a|
        ensures SameLetterIgnoringCase(a[i], b[i])
      {
        assert StringToUpper(a)[i] == StringToUpper(b)[i];
        UpperCharAgrees(a[i], b[i]);
      }
    }
    if EqualIgnoringCase(a, b) {
      forall i | 0 <= i < |a|
        ensures StringToUpper(a)[i] == StringToUpper(b)[i]
      {
        UpperCharAgrees(a[i], b[i]);
      }
    }
  }

  /** Upper-casing distributes over concatenation. */
  lemma StringToUpperAppend(a: string, b: string)
    ensures StringToUpper(a + b) == StringToUpper(a) + StringToUpper(b)
  {
  }

  /** `arrayToUpper` distributes over concatenation: order is kept and nothing moves between elements. */
  lemma ArrayToUpperAppend(a: seq<string>, b: seq<string>)
    ensures ArrayToUpper(a + b) == ArrayToUpper(a) + ArrayToUpper(b)
  {
  }

  lemma ArrayToUpperIdempotent(ss: seq<string>)
    ensures ArrayToUpper(ArrayToUpper(ss)) == ArrayToUpper(ss)
  {
    forall i | 0 <= i < |ss|
      ensures ArrayToUpper(ArrayToUpper(ss))[i] == ArrayToUpper(ss)[i]
    {
      StringToUpperIdempotent(ss[i]);
    }
  }

  /* ---------------------------------------------------------------------- */
  /* Test cases of tests/Unit/Utils/CaseConverterTest.php                   */
  /* ---------------------------------------------------------------------- */

  /** `testMe_man` becomes `TESTME_MAN`: lower-case letters rise, `_` and upper-case letters stay. */
  lemma StringToUpperVector()
    ensures StringToUpper("testMe_man") == "TESTME_MAN"
  {
    TestMeHalves();
    StringToUpperAppend("testMe", "_man");
    TestMeSplit();
  }

  lemma TestMeHalves()
    ensures StringToUpper("testMe") == "TESTME"
    ensures StringToUpper("_man") == "_MAN"
  {
    StringToUpperCharacterized("testMe", "TESTME");
    StringToUpperCharacterized("_man", "_MAN");
  }

  lemma TestMeSplit()
    ensures "testMe" + "_man" == "testMe_man"
    ensures "TESTME" + "_MAN" == "TESTME_MAN"
  {
  }

  lemma MixedCaseHalves()
    ensures StringToUpper("CoLuMn") == "COLUMN"
    ensures StringToUpper("_xYZ-0") == "_XYZ-0"
  {
    MixedCaseFirstHalf();
    MixedCaseSecondHalf();
  }

  lemma MixedCaseFirstHalf()
    ensures StringToUpper("CoLuMn") == "COLUMN"
  {
    StringToUpperCharacterized("CoLuMn", "COLUMN");
  }

  lemma MixedCaseSecondHalf()
    ensures StringToUpper("_xYZ-0") == "_XYZ-0"
  {
    StringToUpperCharacterized("_xYZ-0", "_XYZ-0");
  }

  lemma MixedCaseSplit()
    ensures "CoLuMn" + "_xYZ-0" == "CoLuMn_xYZ-0"
  {
  }

  lemma MixedCaseUpperSplit()
    ensures "COLUMN" + "_XYZ-0" == "COLUMN_XYZ-0"
  {
  }

  /** Digits, `_` and `-` are untouched: `CoLuMn_xYZ-0` becomes `COLUMN_XYZ-0`. */
  lemma MixedCaseVector()
    ensures StringToUpper("CoLuMn_xYZ-0") == "COLUMN_XYZ-0"
  {
    MixedCaseHalves();
    StringToUpperAppend("CoLuMn", "_xYZ-0");
    MixedCaseSplit();
    MixedCaseUpperSplit();
  }

  /** An already upper-case name such as `COLUMN_X` is unchanged. */
  lemma UpperCaseVector()
    ensures StringToUpper("COLUMN_X") == "COLUMN_X"
  {
    UpperOfUpper("COLUMN_X");
  }

  lemma ArrayToUpperOfThree(a: string, b: string, c: string)
    ensures ArrayToUpper([a, b, c]) == [StringToUpper(a), StringToUpper(b), StringToUpper(c)]
  {
  }

  /** `['testMe_man', 'COLUMN_X', 'CoLuMn_xYZ-0']` becomes `['TESTME_MAN', 'COLUMN_X', 'COLUMN_XYZ-0']`. */
  lemma ArrayToUpperVector()
    ensures ArrayToUpper(["testMe_man", "COLUMN_X", "CoLuMn_xYZ-0"]) == ["TESTME_MAN", "COLUMN_X", "COLUMN_XYZ-0"]
  {
    StringToUpperVector();
    UpperCaseVector();
    MixedCaseVector();
    ArrayToUpperOfThree("testMe_man", "COLUMN_X", "CoLuMn_xYZ-0");
  }
}
