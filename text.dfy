/**
 * String primitives the core relies on: JavaScript's `trim()`, ASCII lower-casing
 * (standing for SQL `LOWER`, JavaScript `toLowerCase` and Python `lower`), splitting on a
 * single separator character (JavaScript `split(',')`, Postgres `string_to_array(s, ' ')`),
 * joining (Python `','.join`), prefix tests and Python's `str.replace(pattern, "")`.
 */
module Text {

  /** The characters JavaScript's `trim()` removes: WhiteSpace and LineTerminator. */
  predicate IsJsSpace(c: char) {
    c == '\t' || c == '\n' || c == '\U{000B}' || c == '\U{000C}' || c == '\r' || c == ' ' ||
    c == '\U{00A0}' || c == '\U{1680}' || ('\U{2000}' <= c <= '\U{200A}') ||
    c == '\U{2028}' || c == '\U{2029}' || c == '\U{202F}' || c == '\U{205F}' || c == '\U{3000}' ||
    c == '\U{FEFF}'
  }

  predicate IsBlank(s: string) {
    forall i :: 0 <= i < |s| ==> IsJsSpace(s[i])
  }

  /** `s` with its leading JavaScript white space removed. */
  function TrimStart(s: string): (r: string)
    ensures |r| <= |s| && r == s[|s| - |r|..]
    ensures r == [] || !IsJsSpace(r[0])
    ensures forall i :: 0 <= i < |s| - |r| ==> IsJsSpace(s[i])
    decreases |s|
  {
    if s != [] && IsJsSpace(s[0]) then TrimStart(s[1..]) else s
  }

  /** `s` with its trailing JavaScript white space removed. */
  function TrimEnd(s: string): (r: string)
    ensures |r| <= |s| && r == s[..|r|]
    ensures r == [] || !IsJsSpace(r[|r| - 1])
    ensures forall i :: |r| <= i < |s| ==> IsJsSpace(s[i])
    decreases |s|
  {
    if s != [] && IsJsSpace(s[|s| - 1]) then TrimEnd(s[..|s| - 1]) else s
  }

  /** JavaScript `s.trim()`. */
  function Trim(s: string): string {
    TrimEnd(TrimStart(s))
  }

  /** `trim()` yields the empty string exactly for blank input, and otherwise a string that
      neither starts nor ends with white space. */
  lemma TrimCharacterised(s: string)
    ensures Trim(s) == [] <==> IsBlank(s)
    ensures Trim(s) != [] ==> !IsJsSpace(Trim(s)[0]) && !IsJsSpace(Trim(s)[|Trim(s)| - 1])
  {
    var t := TrimStart(s);
    if Trim(s) == [] {
      assert t == [];
    } else {
      assert !IsJsSpace(t[0]);
      assert Trim(s)[0] == t[0];
    }
  }

  /** A string without white space at either end is its own trim. */
  lemma TrimOfTrimmed(s: string)
    requires s == [] || (!IsJsSpace(s[0]) && !IsJsSpace(s[|s| - 1]))
    ensures Trim(s) == s
  {
    if s != [] {
      assert TrimStart(s) == s;
      assert TrimEnd(s) == s;
    }
  }

  lemma TrimIdempotent(s: string)
    ensures Trim(Trim(s)) == Trim(s)
  {
    TrimCharacterised(s);
    TrimOfTrimmed(Trim(s));
  }

  /** ASCII lower-casing of one character; other characters are left as they are. */
  function Lower(c: char): char {
    if 'A' <= c <= 'Z' then (c as int + 32) as char else c
  }

  function LowerStr(s: string): (r: string)
    ensures |r| == |s|
    ensures forall i :: 0 <= i < |s| ==> r[i] == Lower(s[i])
  {
    seq(|s|, i requires 0 <= i < |s| => Lower(s[i]))
  }

  /** Lower-casing neither creates nor removes white space. */
  lemma LowerKeepsSpace(c: char)
    ensures IsJsSpace(Lower(c)) <==> IsJsSpace(c)
    ensures IsJsSpace(c) ==> Lower(c) == c
  {
  }

  predicate IsLowerStr(s: string) {
    forall i :: 0 <= i < |s| ==> !('A' <= s[i] <= 'Z')
  }

  /** Lower-casing produces lower-case text, is idempotent and keeps every non-letter. */
  lemma LowerStrProperties(s: string)
    ensures IsLowerStr(LowerStr(s))
    ensures LowerStr(LowerStr(s)) == LowerStr(s)
    ensures IsLowerStr(s) ==> LowerStr(s) == s
  {
  }

  /** `s.split(sep)`: the maximal pieces between occurrences of `sep`; never an empty list. */
  function Split(s: string, sep: char): (parts: seq<string>)
    ensures |parts| >= 1
    decreases |s|
  {
    if s == [] then [[]]
    else if s[0] == sep then [[]] + Split(s[1..], sep)
    else
      var rest := Split(s[1..], sep);
      [[s[0]] + rest[0]] + rest[1..]
  }

  /** `sep.join(parts)`. */
  function Join(parts: seq<string>, sep: char): string
    decreases |parts|
  {
    if |parts| == 0 then []
    else if |parts| == 1 then parts[0]
    else parts[0] + [sep] + Join(parts[1..], sep)
  }

  predicate Excludes(s: string, c: char) {
    forall i :: 0 <= i < |s| ==> s[i] != c
  }

  /** No piece produced by `Split` contains the separator. */
  lemma {:induction false} SplitPiecesExcludeSeparator(s: string, sep: char)
    ensures forall k :: 0 <= k < |Split(s, sep)| ==> Excludes(Split(s, sep)[k], sep)
    decreases |s|
  {
    if s != [] {
      SplitPiecesExcludeSeparator(s[1..], sep);
    }
  }

  /** Joining the pieces with the separator gives back the original string. */
  lemma {:induction false} JoinSplit(s: string, sep: char)
    ensures Join(Split(s, sep), sep) == s
    decreases |s|
  {
    if s != [] {
      var rest := Split(s[1..], sep);
      JoinSplit(s[1..], sep);
      if s[0] == sep {
        assert Split(s, sep) == [[]] + rest;
        assert Join([[]] + rest, sep) == [] + [sep] + Join(rest, sep);
      } else {
        var parts := [[s[0]] + rest[0]] + rest[1..];
        if |rest| == 1 {
          assert Join(parts, sep) == [s[0]] + rest[0];
        } else {
          assert parts[1..] == rest[1..];
          assert Join(rest, sep) == rest[0] + [sep] + Join(rest[1..], sep);
          assert Join(parts, sep) == ([s[0]] + rest[0]) + [sep] + Join(rest[1..], sep);
        }
      }
    }
  }

  lemma {:induction false} SplitWithoutSeparator(a: string, sep: char)
    requires Excludes(a, sep)
    ensures Split(a, sep) == [a]
    decreases |a|
  {
    if a != [] {
      SplitWithoutSeparator(a[1..], sep);
      assert [a[0]] + a[1..] == a;
    }
  }

  lemma {:induction false} SplitAtSeparator(a: string, b: string, sep: char)
    requires Excludes(a, sep)
    ensures Split(a + [sep] + b, sep) == [a] + Split(b, sep)
    decreases |a|
  {
    if a == [] {
      assert a + [sep] + b == [sep] + b;
      assert ([sep] + b)[1..] == b;
    } else {
      assert (a + [sep] + b)[1..] == a[1..] + [sep] + b;
      SplitAtSeparator(a[1..], b, sep);
      assert [a[0]] + a[1..] == a;
    }
  }

  /** Splitting a join of separator-free pieces gives back the pieces. */
  lemma {:induction false} SplitJoin(parts: seq<string>, sep: char)
    requires |parts| >= 1
    requires forall k :: 0 <= k < |parts| ==> Excludes(parts[k], sep)
    ensures Split(Join(parts, sep), sep) == parts
    decreases |parts|
  {
    if |parts| == 1 {
      SplitWithoutSeparator(parts[0], sep);
    } else {
      SplitJoin(parts[1..], sep);
      SplitAtSeparator(parts[0], Join(parts[1..], sep), sep);
      assert [parts[0]] + parts[1..] == parts;
    }
  }

  predicate StartsWith(s: string, prefix: string) {
    |prefix| <= |s| && s[..|prefix|] == prefix
  }

  /** `pattern` occurs somewhere in `s`. */
  predicate Contains(s: string, pattern: string)
    decreases |s|
  {
    StartsWith(s, pattern) || (s != [] && Contains(s[1..], pattern))
  }

  /** Python `s.replace(pattern, "")`: occurrences are removed left to right, without overlap. */
  function RemoveAll(s: string, pattern: string): (r: string)
    requires |pattern| > 0
    ensures |r| <= |s|
    decreases |s|
  {
    if |s| < |pattern| then s
    else if s[..|pattern|] == pattern then RemoveAll(s[|pattern|..], pattern)
    else [s[0]] + RemoveAll(s[1..], pattern)
  }

  /** A string without the pattern is left untouched. */
  lemma {:induction false} RemoveAllNoOccurrence(s: string, pattern: string)
    requires |pattern| > 0 && !Contains(s, pattern)
    ensures RemoveAll(s, pattern) == s
    decreases |s|
  {
    if |s| >= |pattern| {
      RemoveAllNoOccurrence(s[1..], pattern);
      assert [s[0]] + s[1..] == s;
    }
  }

  /** A leading occurrence is dropped and the scan resumes right after it. */
  lemma RemoveAllLeading(pattern: string, rest: string)
    requires |pattern| > 0
    ensures RemoveAll(pattern + rest, pattern) == RemoveAll(rest, pattern)
  {
    assert (pattern + rest)[..|pattern|] == pattern;
    assert (pattern + rest)[|pattern|..] == rest;
  }
}
