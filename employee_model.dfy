/**
 * The `Employee` model: its mass-assignment whitelist (`$fillable`) and its
 * `name` set-mutator, which stores `ucwords(strtolower($value))`.
 */
module EmployeeModel {

  import opened Text
  import opened Payload

  /** The delimiters of PHP's `ucwords` by default: space, tab, CR, LF, form feed, vertical tab. */
  predicate IsWordDelimiter(c: char)
  {
    c == ' ' || c == '\t' || c == '\r' || c == '\n' || c as int == 0x0C || c as int == 0x0B
  }

  /** Position `i` of `s` starts a word: it is the first character or follows a delimiter. */
  predicate StartsWord(s: string, i: int)
    requires 0 <= i < |s|
  {
    i == 0 || IsWordDelimiter(s[i - 1])
  }

  /** PHP's `strtolower` (ASCII letters only, as in PHP 8). */
  function StrToLower(s: string): string
  {
    Lower(s)
  }

  /** PHP's `ucwords`: upper-cases the first character of every word, leaves the rest alone. */
  function UcWords(s: string): string
  {
    seq(|s|, i requires 0 <= i < |s| => if StartsWord(s, i) then UpperChar(s[i]) else s[i])
  }

  /** The value the `name` mutator stores for `value`. */
  function NormalizeName(value: string): (r: string)
    ensures |r| == |value| && IsTitleCase(r)
  {
    UcWords(StrToLower(value))
  }

  /** Title case: no word starts with a lower-case letter and no other letter is upper-case. */
  predicate IsTitleCase(s: string)
  {
    forall i :: 0 <= i < |s| ==> if StartsWord(s, i) then !IsLower(s[i]) else !IsUpper(s[i])
  }

  /** Lower-casing keeps every delimiter where it is, so it keeps the word starts. */
  lemma LowerKeepsWordStarts(s: string)
    ensures forall i :: 0 <= i < |s| ==> (StartsWord(Lower(s), i) <==> StartsWord(s, i))
  {
  }

  /**
   * The stored name has the input's length, is in title case, and equals the
   * input up to letter case; so every delimiter stays in place.
   */
  lemma {:induction false} NormalizeNameIsTitleCase(value: string)
    ensures |NormalizeName(value)| == |value|
    ensures IsTitleCase(NormalizeName(value))
    ensures Lower(NormalizeName(value)) == Lower(value)
    ensures forall i :: 0 <= i < |value| && IsWordDelimiter(value[i]) ==> NormalizeName(value)[i] == value[i]
  {
    var r := NormalizeName(value);
    LowerKeepsWordStarts(value);
    forall i | 0 <= i < |value|
      ensures StartsWord(r, i) <==> StartsWord(value, i)
      ensures (if StartsWord(r, i) then !IsLower(r[i]) else !IsUpper(r[i])) && LowerChar(r[i]) == LowerChar(value[i])
    {
      CaseMaps(value[i]);
      CaseMaps(LowerChar(value[i]));
      if i > 0 {
        CaseMaps(value[i - 1]);
      }
    }
  }

  /**
   * Title case pins the letter case of every position, so at most one
   * title-cased string is equal to a given string up to case: the stored name.
   */
  lemma {:induction false} TitleCaseIsUnique(value: string, t: string)
    requires IsTitleCase(t) && Lower(t) == Lower(value)
    ensures t == NormalizeName(value)
  {
    NormalizeNameIsTitleCase(value);
    var r := NormalizeName(value);
    assert |t| == |value|;
    forall i | 0 <= i < |t|
      ensures t[i] == r[i]
    {
      assert Lower(t)[i] == Lower(r)[i];
      LowerKeepsWordStarts(t);
      LowerKeepsWordStarts(r);
      assert Lower(t) == Lower(r);
      assert StartsWord(t, i) == StartsWord(r, i) by {
        if i > 0 {
          CaseMaps(t[i - 1]);
          CaseMaps(r[i - 1]);
        }
      }
      CaseMaps(t[i]);
      CaseMaps(r[i]);
    }
  }

  /** Normalising an already-normalised name returns it unchanged. */
  lemma NormalizeNameIdempotent(value: string)
    ensures NormalizeName(NormalizeName(value)) == NormalizeName(value)
  {
    var r := NormalizeName(value);
    NormalizeNameIsTitleCase(value);
    TitleCaseIsUnique(r, r);
  }

  /** Inputs that differ only in letter case are stored as the same name. */
  lemma NormalizeNameIgnoresCase(a: string, b: string)
    requires Lower(a) == Lower(b)
    ensures NormalizeName(a) == NormalizeName(b)
  {
    NormalizeNameIsTitleCase(a);
    TitleCaseIsUnique(b, NormalizeName(a));
  }

  /** "john doe" is stored as "John Doe". */
  lemma NormalizeNameExample()
    ensures NormalizeName("john doe") == "John Doe"
  {
  }

  /** A hyphen does not start a word. */
  lemma NormalizeNameHyphenExample()
    ensures NormalizeName("mary-jane") == "Mary-jane"
  {
    assert StrToLower("mary-jane") == "mary-jane";
  }

  /** A tab starts a word, as a space does. */
  lemma NormalizeNameTabExample()
    ensures NormalizeName("JO\tDOE") == "Jo\tDoe"
  {
  }

  /** `$fillable`: the only attributes mass assignment takes. */
  const Fillable: set<string> := {"name", "email", "position", "salary", "department_id"}

  /**
   * Mass assignment (`Employee::create($attributes)` / `update`): keeps the
   * whitelisted attributes only, each with its value, except that a string
   * `name` passes through the mutator.
   */
  function Fill(attributes: Attributes): (r: Attributes)
    ensures r.Keys == attributes.Keys * Fillable
    ensures forall k :: k in r && k != "name" ==> r[k] == attributes[k]
    ensures "name" in r ==> r["name"] == match attributes["name"] {
              case Text(s) => Text(NormalizeName(s))
              case other => other
            }
  {
    map k | k in attributes && k in Fillable ::
      if k == "name" && attributes[k].Text? then Text(NormalizeName(attributes[k].s)) else attributes[k]
  }

  /** Keys outside the whitelist, such as `id`, are ignored. */
  lemma FillIgnoresUnlisted(attributes: Attributes)
    requires "id" in attributes && "name" in attributes && attributes["name"] == Text("jane roe")
    ensures "id" !in Fill(attributes)
    ensures Fill(attributes)["name"] == Text("Jane Roe")
  {
    assert "id" !in Fillable;
    assert NormalizeName("jane roe") == "Jane Roe";
  }
}
