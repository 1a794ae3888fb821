/**
 * The few string operations the two scripts rely on: `str.lower()`,
 * `str.upper()` and `str.endswith(...)`, restricted to ASCII case mapping.
 */
module AsciiText {

  predicate IsLowerLetter(c: char) { 'a' <= c <= 'z' }

  predicate IsUpperLetter(c: char) { 'A' <= c <= 'Z' }

  /** The ASCII part of Python's `str.lower()` on one character. */
  function LowerChar(c: char): (r: char)
    ensures !IsUpperLetter(r)
    ensures IsUpperLetter(c) <==> r != c
  {
    if IsUpperLetter(c) then (c as int + 32) as char else c
  }

  /** The ASCII part of Python's `str.upper()` on one character. */
  function UpperChar(c: char): (r: char)
    ensures !IsLowerLetter(r)
    ensures IsLowerLetter(c) <==> r != c
  {
    if IsLowerLetter(c) then (c as int - 32) as char else c
  }

  /** ASCII `s.lower()`, character by character; see `LowerIsCaseMapping`. */
  function Lower(s: string): (r: string)
    ensures |r| == |s|
  {
    seq(|s|, i requires 0 <= i < |s| => LowerChar(s[i]))
  }

  /** ASCII `s.upper()`, character by character; see `UpperIsCaseMapping`. */
  function Upper(s: string): (r: string)
    ensures |r| == |s|
  {
    seq(|s|, i requires 0 <= i < |s| => UpperChar(s[i]))
  }

  /** Python's `s.endswith(suffix)`: `s` is some prefix followed by `suffix`. */
  predicate EndsWith(s: string, suffix: string)
    ensures EndsWith(s, suffix) <==> exists p :: s == p + suffix
  {
    |suffix| <= |s| &&
    var p := s[..|s| - |suffix|];
    assert s == p + s[|s| - |suffix|..];
    s[|s| - |suffix|..] == suffix
  }

  /** The ASCII alphabet in both cases, letter for letter. */
  const Capitals: string := "ABCDEFGHIJKLMNOPQRSTUVWXYZ"
  const Smalls: string := "abcdefghijklmnopqrstuvwxyz"

  /** Each capital lower-cases to the small letter at the same place, and back. */
  lemma CaseTable()
    ensures |Capitals| == |Smalls| == 26
    ensures forall i :: 0 <= i < 26 ==> IsUpperLetter(Capitals[i]) && IsLowerLetter(Smalls[i])
    ensures forall i :: 0 <= i < 26 ==> LowerChar(Capitals[i]) == Smalls[i] && UpperChar(Smalls[i]) == Capitals[i]
  {
  }

  /**
   * `lower()` turns each capital into its small letter, leaves no upper-case
   * letter, and changes nothing but the upper-case letters.
   */
  lemma LowerIsCaseMapping(s: string)
    ensures forall i, j :: 0 <= i < |s| && 0 <= j < 26 && s[i] == Capitals[j] ==> Lower(s)[i] == Smalls[j]
    ensures forall i :: 0 <= i < |s| ==> !IsUpperLetter(Lower(s)[i])
    ensures forall i :: 0 <= i < |s| ==> (Lower(s)[i] == s[i] <==> !IsUpperLetter(s[i]))
  {
    CaseTable();
  }

  /**
   * `upper()` turns each small letter into its capital, leaves no lower-case
   * letter, and changes nothing but the lower-case letters.
   */
  lemma UpperIsCaseMapping(s: string)
    ensures forall i, j :: 0 <= i < |s| && 0 <= j < 26 && s[i] == Smalls[j] ==> Upper(s)[i] == Capitals[j]
    ensures forall i :: 0 <= i < |s| ==> !IsLowerLetter(Upper(s)[i])
    ensures forall i :: 0 <= i < |s| ==> (Upper(s)[i] == s[i] <==> !IsLowerLetter(s[i]))
  {
    CaseTable();
  }

  /** Lower-casing distributes over concatenation. */
  lemma LowerAppend(a: string, b: string)
    ensures Lower(a + b) == Lower(a) + Lower(b)
  {
    assert forall i :: 0 <= i < |a + b| ==> Lower(a + b)[i] == (Lower(a) + Lower(b))[i];
  }
}
