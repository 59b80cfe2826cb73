/**
 * What the two list pages of the client share: the records the API returns,
 * the notification bar's state, `Array.prototype.filter`, and the avatar
 * initials both pages compute with the same expression.
 */
module ClientCommon {

  import opened Text
  import opened Sequences

  datatype Department = Department(id: int, name: string)

  /** An employee as the API lists it, with its department inlined. */
  datatype Employee = Employee(id: int, name: string, email: string, position: string, department: Department)

  datatype Severity = Success | Warning | Error

  /** The `snackbar` state object. */
  datatype Snackbar = Snackbar(open: bool, message: string, severity: Severity)

  const ClosedSnackbar := Snackbar(false, "", Success)

  /**
   * `s.filter(keep)`: exactly the elements that satisfy `keep`, each as often
   * as it occurs in `s`, in their original order; everything is kept exactly
   * when everything satisfies it.
   */
  function Keep<T(==, !new)>(s: seq<T>, keep: T -> bool): (r: seq<T>)
    ensures forall x :: x in r <==> x in s && keep(x)
    ensures IsSubsequence(r, s)
    ensures |r| <= |s|
    ensures |r| == |s| <==> forall i :: 0 <= i < |s| ==> keep(s[i])
  {
    if s == [] then []
    else
      var rest := Keep(s[1..], keep);
      assert forall x :: x in s <==> x == s[0] || x in s[1..];
      if keep(s[0]) then
        assert ([s[0]] + rest)[1..] == rest;
        [s[0]] + rest
      else
        SubsequenceDropFirst(rest, s);
        rest
  }

  /** `filter` keeps every element that passes as often as it occurs, and no other. */
  lemma {:induction false} KeepCounts<T(!new)>(s: seq<T>, keep: T -> bool)
    ensures forall x :: multiset(Keep(s, keep))[x] == if keep(x) then multiset(s)[x] else 0
  {
    if s != [] {
      KeepCounts(s[1..], keep);
      assert s == [s[0]] + s[1..];
      assert multiset(s) == multiset{s[0]} + multiset(s[1..]);
    }
  }

  /** Keeping by a test that every element passes keeps the whole sequence. */
  lemma {:induction false} KeepEverything<T(!new)>(s: seq<T>, keep: T -> bool)
    requires forall i :: 0 <= i < |s| ==> keep(s[i])
    ensures Keep(s, keep) == s
  {
    if s != [] {
      KeepEverything(s[1..], keep);
    }
  }

  /** Keeping by two tests that agree on every element gives the same result. */
  lemma {:induction false} KeepAgrees<T(!new)>(s: seq<T>, keep: T -> bool, other: T -> bool)
    requires forall i :: 0 <= i < |s| ==> keep(s[i]) == other(s[i])
    ensures Keep(s, keep) == Keep(s, other)
  {
    if s != [] {
      KeepAgrees(s[1..], keep, other);
    }
  }

  /** `s.split(sep)`: the pieces between occurrences of `sep`, empty pieces included; never no piece. */
  function Split(s: string, sep: char): (r: seq<string>)
    ensures |r| >= 1
  {
    if s == [] then [[]]
    else
      var rest := Split(s[1..], sep);
      if s[0] == sep then [[]] + rest else [[s[0]] + rest[0]] + rest[1..]
  }

  /** `words.map((word) => word[0]).join('')`: an empty word contributes nothing (`undefined` joins as ""). */
  function FirstChars(words: seq<string>): string
  {
    if words == [] then [] else (if words[0] == [] then [] else [words[0][0]]) + FirstChars(words[1..])
  }

  /**
   * `getInitials`: the first character of each space-separated word,
   * upper-cased, at most two of them.
   */
  function Initials(name: string): (r: string)
    ensures |r| <= 2
  {
    var firsts := Upper(FirstChars(Split(name, ' ')));
    if |firsts| <= 2 then firsts else firsts[..2]
  }

  /**
   * The characters of `s` that start a word: not a space, and first in `s`
   * (when `atStart`) or right after a space.
   */
  function WordStarts(s: string, atStart: bool): string
  {
    if s == [] then []
    else (if atStart && s[0] != ' ' then [s[0]] else []) + WordStarts(s[1..], s[0] == ' ')
  }

  lemma {:induction false} SplitFirstPiece(s: string)
    ensures Split(s, ' ')[0] == [] <==> (s == [] || s[0] == ' ')
    ensures s != [] && s[0] != ' ' ==> Split(s, ' ')[0][0] == s[0]
  {
  }

  lemma {:induction false} FirstCharsOfLaterPieces(s: string)
    ensures FirstChars(Split(s, ' ')[1..]) == WordStarts(s, false)
  {
    if s != [] {
      var rest := Split(s[1..], ' ');
      FirstCharsOfLaterPieces(s[1..]);
      if s[0] == ' ' {
        assert Split(s, ' ')[1..] == rest;
        assert FirstChars(rest) == FirstChars(rest[..1]) + FirstChars(rest[1..]) by {
          assert rest == [rest[0]] + rest[1..];
        }
        SplitFirstPiece(s[1..]);
        assert FirstChars(rest[..1]) == (if s[1..] != [] && s[1] != ' ' then [s[1]] else []) by {
          assert rest[..1] == [rest[0]];
          assert FirstChars(rest[..1][1..]) == [];
        }
        WordStartsHead(s[1..]);
      } else {
        assert Split(s, ' ')[1..] == rest[1..];
      }
    }
  }

  lemma {:induction false} WordStartsHead(s: string)
    ensures WordStarts(s, true) == (if s != [] && s[0] != ' ' then [s[0]] else []) + WordStarts(s, false)
  {
    if s != [] {
      assert WordStarts(s, false) == WordStarts(s[1..], s[0] == ' ');
    }
  }

  /**
   * The initials are the word-starting characters of the name, upper-cased,
   * at most two of them: splitting on spaces and keeping first characters
   * picks exactly the characters that start a word.
   */
  lemma {:induction false} InitialsAreWordStarts(name: string)
    ensures FirstChars(Split(name, ' ')) == WordStarts(name, true)
    ensures var w := Upper(WordStarts(name, true));
      Initials(name) == if |w| <= 2 then w else w[..2]
  {
    var pieces := Split(name, ' ');
    assert pieces == [pieces[0]] + pieces[1..];
    assert FirstChars(pieces) == (if pieces[0] == [] then [] else [pieces[0][0]]) + FirstChars(pieces[1..]);
    SplitFirstPiece(name);
    FirstCharsOfLaterPieces(name);
    WordStartsHead(name);
  }

  lemma InitialsExamples()
    ensures Initials("hr ops") == "HO"
    ensures Initials(" it") == "I"
  {
    InitialsAreWordStarts("hr ops");
    InitialsAreWordStarts(" it");
  }
}
