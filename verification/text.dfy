/** String operations the Ruby code relies on, restated over `seq<char>`:
    substring and prefix tests, ASCII case mapping, `String#split` with a
    one-character separator (including Ruby's removal of trailing empty
    fields), `Array#join`, and the line split used on `git branch -r`. */
module Text {

  /** The characters Ruby's `\s` class matches: space, tab, line feed,
      vertical tab, form feed and carriage return. */
  predicate IsSpace(c: char) {
    c == ' ' || c == '\t' || c == '\n' || c == '\U{000B}' || c == '\U{000C}' || c == '\r'
  }

  predicate StartsWith(s: string, prefix: string) {
    |prefix| <= |s| && s[..|prefix|] == prefix
  }

  /** `t` occurs somewhere in `s` (an unanchored regular expression without
      metacharacters, or `String#include?`). */
  predicate Contains(s: string, t: string) {
    exists i :: 0 <= i <= |s| - |t| && StartsWith(s[i..], t)
  }

  lemma ContainsWitness(s: string, t: string, i: int)
    requires 0 <= i <= |s| - |t| && s[i..i + |t|] == t
    ensures Contains(s, t)
  {
    assert StartsWith(s[i..], t);
  }

  /** `t` occurs inside any string that embeds it. */
  lemma {:induction false} ContainsInfix(a: string, t: string, b: string)
    ensures Contains(a + t + b, t)
  {
    var s := a + t + b;
    assert s[|a|..|a| + |t|] == t;
    ContainsWitness(s, t, |a|);
  }

  /** Conversely, a string that contains `t` embeds it between a prefix and
      a suffix. */
  lemma ContainsDecomposes(s: string, t: string)
    requires Contains(s, t)
    ensures exists a, b :: s == a + t + b
  {
    var i :| 0 <= i <= |s| - |t| && StartsWith(s[i..], t);
    assert s == s[..i] + t + s[i + |t|..];
  }

  // ---------------------------------------------------------------------
  // ASCII case mapping (`String#downcase`, `String#capitalize`, `/.../i`)

  function Lower(c: char): char {
    if 'A' <= c <= 'Z' then (c as int + 32) as char else c
  }

  function Upper(c: char): char {
    if 'a' <= c <= 'z' then (c as int - 32) as char else c
  }

  function Downcase(s: string): (r: string)
    ensures |r| == |s|
    ensures forall i :: 0 <= i < |s| ==> r[i] == Lower(s[i])
  {
    seq(|s|, i requires 0 <= i < |s| => Lower(s[i]))
  }

  /** Ruby's `String#capitalize`: first character upper-cased, the rest
      lower-cased. */
  function Capitalize(s: string): (r: string)
    ensures |r| == |s|
    ensures |s| > 0 ==> r[0] == Upper(s[0])
    ensures forall i :: 0 < i < |s| ==> r[i] == Lower(s[i])
  {
    if |s| == 0 then "" else [Upper(s[0])] + Downcase(s[1..])
  }

  /** Case mapping only ever changes letters, so it cannot create or
      remove a space. */
  lemma CaseMappingKeepsSpace(c: char)
    ensures Lower(c) == ' ' <==> c == ' '
    ensures Upper(c) == ' ' <==> c == ' '
  {
  }

  /** A case-insensitive match of a literal pattern. */
  predicate ContainsIgnoringCase(s: string, t: string) {
    Contains(Downcase(s), Downcase(t))
  }

  // ---------------------------------------------------------------------
  // Splitting and joining on a one-character separator

  /** Every field between separators, empty ones included (Ruby's
      `String#split(sep, -1)`). */
  function Split(s: string, sep: char): (r: seq<string>)
    ensures |r| >= 1
    ensures forall k :: 0 <= k < |r| ==> sep !in r[k]
    decreases |s|
  {
    if |s| == 0 then [""]
    else
      var rest := Split(s[1..], sep);
      if s[0] == sep then [""] + rest
      else [[s[0]] + rest[0]] + rest[1..]
  }

  /** `Array#join(sep)`. */
  function Join(parts: seq<string>, sep: char): string
    decreases |parts|
  {
    if |parts| == 0 then ""
    else if |parts| == 1 then parts[0]
    else parts[0] + [sep] + Join(parts[1..], sep)
  }

  lemma {:induction false} SplitWithoutSeparator(w: string, sep: char)
    requires sep !in w
    ensures Split(w, sep) == [w]
    decreases |w|
  {
    if |w| > 0 {
      SplitWithoutSeparator(w[1..], sep);
      assert [w[0]] + w[1..] == w;
    }
  }

  lemma {:induction false} SplitAtFirstSeparator(w: string, sep: char, t: string)
    requires sep !in w
    ensures Split(w + [sep] + t, sep) == [w] + Split(t, sep)
    decreases |w|
  {
    var s := w + [sep] + t;
    if |w| == 0 {
      assert s[1..] == t;
    } else {
      assert s[1..] == w[1..] + [sep] + t;
      SplitAtFirstSeparator(w[1..], sep, t);
      assert [w[0]] + w[1..] == w;
    }
  }

  /** Joining fields that contain no separator and splitting the result
      recovers the fields. */
  lemma {:induction false} SplitJoin(parts: seq<string>, sep: char)
    requires |parts| >= 1
    requires forall k :: 0 <= k < |parts| ==> sep !in parts[k]
    ensures Split(Join(parts, sep), sep) == parts
    decreases |parts|
  {
    if |parts| == 1 {
      SplitWithoutSeparator(parts[0], sep);
    } else {
      SplitAtFirstSeparator(parts[0], sep, Join(parts[1..], sep));
      SplitJoin(parts[1..], sep);
      assert [parts[0]] + parts[1..] == parts;
    }
  }

  /** The fields left once trailing empty fields are removed. */
  function DropTrailingEmpty(fields: seq<string>): (r: seq<string>)
    ensures r <= fields
    ensures |r| == 0 || r[|r| - 1] != ""
    ensures forall k :: |r| <= k < |fields| ==> fields[k] == ""
    decreases |fields|
  {
    if |fields| > 0 && fields[|fields| - 1] == "" then DropTrailingEmpty(fields[..|fields| - 1])
    else fields
  }

  /** Ruby's `String#split(sep)` for a one-character, non-space separator:
      every field, except that trailing empty fields are removed (so the
      empty string splits into no fields at all). */
  function RubySplit(s: string, sep: char): seq<string> {
    DropTrailingEmpty(Split(s, sep))
  }

  /** Drops one carriage return at the end of a line. */
  function ChompCr(line: string): string {
    if |line| > 0 && line[|line| - 1] == '\r' then line[..|line| - 1] else line
  }

  /** Ruby's `split(/\r?\n/)`: the separator is a line feed together with
      at most one carriage return before it; trailing empty lines are
      removed. */
  function Lines(s: string): seq<string> {
    DropTrailingEmpty(ChompLines(Split(s, '\n')))
  }

  /** Every field but the last was followed by a line feed; those lose one
      carriage return before it. */
  function ChompLines(fields: seq<string>): (r: seq<string>)
    ensures |r| == |fields|
    ensures forall i :: 0 <= i < |fields| - 1 ==> r[i] == ChompCr(fields[i])
    ensures |fields| > 0 ==> r[|fields| - 1] == fields[|fields| - 1]
  {
    seq(|fields|, i requires 0 <= i < |fields| => if i < |fields| - 1 then ChompCr(fields[i]) else fields[i])
  }

  /** A character other than the separator occurs in a join only if it
      occurs in one of the parts. */
  lemma {:induction false} JoinAvoids(parts: seq<string>, sep: char, c: char)
    requires c != sep
    requires forall k :: 0 <= k < |parts| ==> c !in parts[k]
    ensures c !in Join(parts, sep)
    decreases |parts|
  {
    if |parts| > 1 {
      JoinAvoids(parts[1..], sep, c);
    }
  }

  /** Every field of a split is empty exactly when the string consists of
      separators only. */
  lemma {:induction false} SplitAllEmpty(s: string, sep: char)
    ensures (forall k :: 0 <= k < |Split(s, sep)| ==> Split(s, sep)[k] == "") <==>
      (forall i :: 0 <= i < |s| ==> s[i] == sep)
    decreases |s|
  {
    if |s| > 0 {
      SplitAllEmpty(s[1..], sep);
      var rest := Split(s[1..], sep);
      assert forall i :: 0 <= i < |s[1..]| ==> s[1..][i] == s[i + 1];
      if s[0] == sep {
        var fields := Split(s, sep);
        assert fields == [""] + rest;
        assert forall k :: 0 <= k < |rest| ==> fields[k + 1] == rest[k];
      } else {
        assert Split(s, sep)[0] == [s[0]] + rest[0];
      }
    }
  }

  /** Ruby's split yields no field at all exactly when the string consists
      of separators only (the empty string included). */
  lemma RubySplitEmpty(s: string, sep: char)
    ensures RubySplit(s, sep) == [] <==> forall i :: 0 <= i < |s| ==> s[i] == sep
  {
    SplitAllEmpty(s, sep);
  }

  /** Ruby's split of a join of separator-free fields whose last field is
      non-empty gives the fields back. */
  lemma RubySplitJoin(parts: seq<string>, sep: char)
    requires |parts| >= 1 && parts[|parts| - 1] != ""
    requires forall k :: 0 <= k < |parts| ==> sep !in parts[k]
    ensures RubySplit(Join(parts, sep), sep) == parts
  {
    SplitJoin(parts, sep);
  }
}
