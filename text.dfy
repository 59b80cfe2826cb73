/**
 * Character-level string helpers shared by the back end and the client:
 * ASCII case mapping (PHP's `strtolower`/`toupper` and, restricted to ASCII,
 * JavaScript's `toLowerCase`/`toUpperCase`) and substring search
 * (JavaScript's `String.prototype.includes`).
 */
module Text {

  predicate IsUpper(c: char) { 'A' <= c <= 'Z' }

  predicate IsLower(c: char) { 'a' <= c <= 'z' }

  /** ASCII lower-casing of one character; every other character is left alone. */
  function LowerChar(c: char): char
  {
    if IsUpper(c) then (c as int + 32) as char else c
  }

  /** ASCII upper-casing of one character; every other character is left alone. */
  function UpperChar(c: char): char
  {
    if IsLower(c) then (c as int - 32) as char else c
  }

  /** Two characters are equal up to ASCII letter case. */
  predicate SameLetterIgnoringCase(a: char, b: char)
  {
    LowerChar(a) == LowerChar(b)
  }

  /** The case maps change letters only, map each case onto the other, and undo each other. */
  lemma CaseMaps(c: char)
    ensures !IsUpper(LowerChar(c)) && !IsLower(UpperChar(c))
    ensures IsLower(c) ==> LowerChar(UpperChar(c)) == c
    ensures IsUpper(c) ==> UpperChar(LowerChar(c)) == c
    ensures LowerChar(UpperChar(c)) == LowerChar(c) && UpperChar(LowerChar(c)) == UpperChar(c)
    ensures !IsLower(c) && !IsUpper(c) ==> LowerChar(c) == c && UpperChar(c) == c
  {
  }

  /** Lower-cases every character; the string keeps its length. */
  function Lower(s: string): (r: string)
    ensures |r| == |s|
    ensures forall i :: 0 <= i < |s| ==> r[i] == LowerChar(s[i])
  {
    seq(|s|, i requires 0 <= i < |s| => LowerChar(s[i]))
  }

  /** Upper-cases every character; the string keeps its length. */
  function Upper(s: string): (r: string)
    ensures |r| == |s|
    ensures forall i :: 0 <= i < |s| ==> r[i] == UpperChar(s[i])
  {
    seq(|s|, i requires 0 <= i < |s| => UpperChar(s[i]))
  }

  /** Lower-casing twice is lower-casing once, and it erases any earlier case change. */
  lemma {:induction false} LowerIdempotent(s: string)
    ensures Lower(Lower(s)) == Lower(s)
    ensures Lower(Upper(s)) == Lower(s)
  {
    forall i | 0 <= i < |s|
      ensures Lower(Lower(s))[i] == Lower(s)[i] && Lower(Upper(s))[i] == Lower(s)[i]
    {
      CaseMaps(s[i]);
    }
  }

  /** `needle` occurs in `hay` starting at position `i`. */
  predicate OccursAt(hay: string, needle: string, i: int)
  {
    0 <= i <= |hay| - |needle| && hay[i..i + |needle|] == needle
  }

  /** `hay.includes(needle)`: `needle` occurs in `hay` at some position. */
  predicate Contains(hay: string, needle: string)
  {
    exists i | 0 <= i <= |hay| - |needle| :: OccursAt(hay, needle, i)
  }

  /** The empty string occurs in every string, and every string occurs in itself and in any extension of itself. */
  lemma ContainsBasics(hay: string, prefix: string, needle: string, suffix: string)
    ensures Contains(hay, "")
    ensures Contains(prefix + needle + suffix, needle)
  {
    assert OccursAt(hay, "", 0);
    assert OccursAt(prefix + needle + suffix, needle, |prefix|);
  }

  /** Text appended after an occurrence does not remove it. */
  lemma ContainsExtended(hay: string, more: string, needle: string)
    requires Contains(hay, needle)
    ensures Contains(hay + more, needle)
  {
    var i :| 0 <= i <= |hay| - |needle| && OccursAt(hay, needle, i);
    assert (hay + more)[i..i + |needle|] == hay[i..i + |needle|];
    assert OccursAt(hay + more, needle, i);
  }
}
