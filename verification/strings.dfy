/** The effect of `strings.Split` with a one-character separator and of
    `strings.Join`, as the UUID parser uses them. */
module Strings {

  /** Position of the first occurrence of `c` in `s`. */
  function IndexOf(s: string, c: char): (i: nat)
    requires c in s
    ensures i < |s| && s[i] == c
    ensures forall j :: 0 <= j < i ==> s[j] != c
  {
    if s[0] == c then 0 else 1 + IndexOf(s[1..], c)
  }

  /** `strings.Split(s, sep)`: the pieces between occurrences of `sep`.
      There is always at least one piece (the empty text gives [""]). */
  function Split(s: string, sep: char): (parts: seq<string>)
    ensures |parts| >= 1
    decreases |s|
  {
    if sep in s then
      var i := IndexOf(s, sep);
      [s[..i]] + Split(s[i + 1..], sep)
    else [s]
  }

  /** No piece of a split contains the separator. */
  lemma {:induction false} SplitPiecesLackSeparator(s: string, sep: char)
    ensures forall k :: 0 <= k < |Split(s, sep)| ==> sep !in Split(s, sep)[k]
    decreases |s|
  {
    if sep in s {
      var i := IndexOf(s, sep);
      assert sep !in s[..i];
      SplitPiecesLackSeparator(s[i + 1..], sep);
      assert Split(s, sep)[1..] == Split(s[i + 1..], sep);
    }
  }

  /** `strings.Join(parts, sep)`. */
  function Join(parts: seq<string>, sep: string): (s: string)
    ensures |parts| == 0 ==> s == ""
  {
    if |parts| == 0 then ""
    else if |parts| == 1 then parts[0]
    else parts[0] + sep + Join(parts[1..], sep)
  }

  /** Joining the pieces of a split with the separator gives back the text. */
  lemma {:induction false} JoinSplit(s: string, sep: char)
    ensures Join(Split(s, sep), [sep]) == s
    decreases |s|
  {
    if sep in s {
      var i := IndexOf(s, sep);
      var rest := Split(s[i + 1..], sep);
      JoinSplit(s[i + 1..], sep);
      assert Split(s, sep)[1..] == rest;
      assert s == s[..i] + [sep] + s[i + 1..];
    }
  }

  /** A split into more than one piece: the first piece ends at the first
      separator and the others are the split of what follows it. */
  lemma SplitFront(s: string, sep: char)
    requires |Split(s, sep)| > 1
    ensures sep in s
    ensures Split(s, sep)[0] == s[..IndexOf(s, sep)]
    ensures Split(s, sep)[1..] == Split(s[IndexOf(s, sep) + 1..], sep)
  {
  }

  /** A split into one piece: the text has no separator. */
  lemma SplitSingle(s: string, sep: char)
    requires |Split(s, sep)| == 1
    ensures sep !in s && Split(s, sep) == [s]
  {
  }

  /** A text without the separator splits into itself. */
  lemma SplitNoSeparator(s: string, sep: char)
    requires forall j :: 0 <= j < |s| ==> s[j] != sep
    ensures Split(s, sep) == [s]
  {
  }

  /** Split at a known first separator. */
  lemma SplitAtFirst(s: string, sep: char, i: nat)
    requires i < |s| && s[i] == sep
    requires forall j :: 0 <= j < i ==> s[j] != sep
    ensures Split(s, sep) == [s[..i]] + Split(s[i + 1..], sep)
  {
    assert IndexOf(s, sep) == i;
  }

  /** With the empty separator, joining prepends the first piece. */
  lemma JoinConcatStep(parts: seq<string>)
    requires |parts| >= 2
    ensures Join(parts, "") == parts[0] + Join(parts[1..], "")
  {
    assert parts[0] + "" == parts[0];
  }

  /** Joining five pieces with the empty separator concatenates them. */
  lemma JoinFive(parts: seq<string>)
    requires |parts| == 5
    ensures Join(parts, "") == parts[0] + parts[1] + parts[2] + parts[3] + parts[4]
  {
    JoinConcatStep(parts);
    JoinFour(parts[1..]);
  }

  lemma JoinFour(parts: seq<string>)
    requires |parts| == 4
    ensures Join(parts, "") == parts[0] + (parts[1] + parts[2] + parts[3])
  {
    JoinConcatStep(parts);
    JoinThree(parts[1..]);
  }

  lemma JoinThree(parts: seq<string>)
    requires |parts| == 3
    ensures Join(parts, "") == parts[0] + (parts[1] + parts[2])
  {
    JoinConcatStep(parts);
    JoinConcatStep(parts[1..]);
    assert parts[2..] == [parts[2]];
  }
}
