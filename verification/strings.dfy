/** Character-level string operations the transcriber relies on: Python's
    `str.strip()` with no argument, `str.split(sep)`, and writing a sequence
    of lines each followed by a newline. */
module Strings {

  /** Python's `str.isspace()` for one code point: the characters whose
      bidirectional class is WS, B or S, or whose category is Zs. U+3000,
      the ideographic space common in Japanese text, is one of them. */
  predicate IsSpace(c: char) {
    || ('\t' <= c <= '\r')
    || ('\U{1C}' <= c <= '\U{1F}')
    || c == ' '
    || c == '\U{85}'
    || c == '\U{A0}'
    || c == '\U{1680}'
    || ('\U{2000}' <= c <= '\U{200A}')
    || c == '\U{2028}'
    || c == '\U{2029}'
    || c == '\U{202F}'
    || c == '\U{205F}'
    || c == '\U{3000}'
  }

  /** The characters of `s` from index `i` up to, not including, `j` are
      all whitespace. */
  predicate SpaceBetween(s: string, i: nat, j: nat)
    requires i <= j <= |s|
  {
    forall k :: i <= k < j ==> IsSpace(s[k])
  }

  /** Every character of `s` is whitespace. */
  predicate AllSpace(s: string) {
    SpaceBetween(s, 0, |s|)
  }

  /** Neither end of `s` is whitespace (vacuously true of the empty string). */
  predicate Trimmed(s: string) {
    s == [] || (!IsSpace(s[0]) && !IsSpace(s[|s| - 1]))
  }

  /** The first index at or after `i` that does not hold whitespace
      (`|s|` if there is none). */
  function SkipSpace(s: string, i: nat): (r: nat)
    requires i <= |s|
    ensures i <= r <= |s| && SpaceBetween(s, i, r)
    ensures r == |s| || !IsSpace(s[r])
    decreases |s| - i
  {
    if i < |s| && IsSpace(s[i]) then SkipSpace(s, i + 1) else i
  }

  /** The last index at or before `j` that follows a non-space character
      (0 if there is none). */
  function SkipSpaceBack(s: string, j: nat): (r: nat)
    requires j <= |s|
    ensures r <= j && SpaceBetween(s, r, j)
    ensures r == 0 || !IsSpace(s[r - 1])
  {
    if j > 0 && IsSpace(s[j - 1]) then SkipSpaceBack(s, j - 1) else j
  }

  /** Python's `s.strip()`: removes whitespace at both ends; a string of
      whitespace only strips to "". */
  function Strip(s: string): (r: string)
    ensures Trimmed(r) && |r| <= |s|
  {
    var i := SkipSpace(s, 0);
    var j := SkipSpaceBack(s, |s|);
    if i < j then s[i..j] else ""
  }

  /** The stripped string is an infix of `s` with only whitespace around it. */
  lemma StripInfix(s: string)
    ensures exists i :: 0 <= i <= |s| - |Strip(s)| && Strip(s) == s[i..i + |Strip(s)|]
                        && SpaceBetween(s, 0, i) && SpaceBetween(s, i + |Strip(s)|, |s|)
  {
    var i := SkipSpace(s, 0);
    var j := SkipSpaceBack(s, |s|);
    if i < j {
      assert Strip(s) == s[i..j];
      assert SpaceBetween(s, 0, i) && SpaceBetween(s, j, |s|);
    } else {
      assert Strip(s) == "";
      assert i == |s|;
      assert s[0..0] == "";
      assert SpaceBetween(s, 0, 0);
    }
  }

  /** `SkipSpace` stops exactly at the first non-space character. */
  lemma {:induction false} SkipSpaceAt(s: string, from: nat, i: nat)
    requires from <= i <= |s| && SpaceBetween(s, from, i)
    requires i == |s| || !IsSpace(s[i])
    ensures SkipSpace(s, from) == i
    decreases i - from
  {
    if from < i {
      SkipSpaceAt(s, from + 1, i);
    }
  }

  /** `SkipSpaceBack` stops exactly after the last non-space character. */
  lemma {:induction false} SkipSpaceBackAt(s: string, j: nat, upto: nat)
    requires j <= upto <= |s| && SpaceBetween(s, j, upto)
    requires j == 0 || !IsSpace(s[j - 1])
    ensures SkipSpaceBack(s, upto) == j
    decreases upto
  {
    if j < upto {
      SkipSpaceBackAt(s, j, upto - 1);
    }
  }

  /** Stripping is characterised by its contract: any infix of `s` that is
      surrounded by whitespace only and has no whitespace at either end is
      the stripped string. */
  lemma StripUnique(s: string, i: nat, j: nat)
    requires i <= j <= |s|
    requires SpaceBetween(s, 0, i) && SpaceBetween(s, j, |s|)
    requires Trimmed(s[i..j])
    ensures Strip(s) == s[i..j]
  {
    if i < j {
      assert !IsSpace(s[i]) && !IsSpace(s[j - 1]) by {
        assert s[i] == s[i..j][0];
        assert s[j - 1] == s[i..j][j - 1 - i];
      }
      SkipSpaceAt(s, 0, i);
      SkipSpaceBackAt(s, j, |s|);
    } else {
      assert AllSpace(s) by {
        forall k | 0 <= k < |s| ensures IsSpace(s[k]) {
          if k >= j {
            assert j <= k < |s|;
          }
        }
      }
      SkipSpaceAt(s, 0, |s|);
      SkipSpaceBackAt(s, 0, |s|);
    }
  }

  /** Stripping twice is the same as stripping once. */
  lemma StripIdempotent(s: string)
    ensures Strip(Strip(s)) == Strip(s)
  {
    var r := Strip(s);
    assert r[0..|r|] == r;
    StripUnique(r, 0, |r|);
  }

  /** A string made only of whitespace strips to the empty string. */
  lemma StripAllSpace(s: string)
    requires AllSpace(s)
    ensures Strip(s) == ""
  {
    StripUnique(s, 0, 0);
  }

  /** Python's `s.split(sep)`: the pieces of `s` between occurrences of
      `sep`; there is always one more piece than there are separators. */
  function SplitOn(s: string, sep: char): (r: seq<string>)
    ensures |r| >= 1
    ensures forall k :: 0 <= k < |r| ==> sep !in r[k]
  {
    if |s| == 0 then [""]
    else
      var rest := SplitOn(s[1..], sep);
      assert s == [s[0]] + s[1..];
      if s[0] == sep then [""] + rest
      else [[s[0]] + rest[0]] + rest[1..]
  }

  /** A string without the separator splits into itself alone. */
  lemma {:induction false} SplitNoSep(s: string, sep: char)
    requires sep !in s
    ensures SplitOn(s, sep) == [s]
  {
    if |s| > 0 {
      assert s[0] in s;
      assert forall c :: c in s[1..] ==> c in s;
      SplitNoSep(s[1..], sep);
      assert [s[0]] + s[1..] == s;
    }
  }

  /** The first piece ends at the first separator. */
  lemma {:induction false} SplitAfter(a: string, b: string, sep: char)
    requires sep !in a
    ensures SplitOn(a + [sep] + b, sep) == [a] + SplitOn(b, sep)
  {
    if |a| == 0 {
      assert (a + [sep] + b)[1..] == b;
    } else {
      assert (a + [sep] + b)[1..] == a[1..] + [sep] + b;
      SplitAfter(a[1..], b, sep);
      assert [a[0]] + a[1..] == a;
    }
  }

  /** Writes each line followed by a newline, as a sequence of
      `file.write(f"{line}\n")` calls does. */
  function Lines(ls: seq<string>): string
  {
    if |ls| == 0 then "" else ls[0] + "\n" + Lines(ls[1..])
  }

  /** Newline-terminated lines are the lines plus one empty piece joined by
      newlines, so `split("\n")` recovers the lines and a final "". */
  lemma {:induction false} LinesSplit(ls: seq<string>)
    requires forall k :: 0 <= k < |ls| ==> '\n' !in ls[k]
    ensures SplitOn(Lines(ls), '\n') == ls + [""]
  {
    if |ls| == 0 {
    } else {
      LinesSplit(ls[1..]);
      SplitAfter(ls[0], Lines(ls[1..]), '\n');
      assert ls == [ls[0]] + ls[1..];
    }
  }

  /** Writing two groups of lines one after the other. */
  lemma {:induction false} LinesAppend(a: seq<string>, b: seq<string>)
    ensures Lines(a + b) == Lines(a) + Lines(b)
  {
    if |a| > 0 {
      LinesAppend(a[1..], b);
      assert (a + b)[1..] == a[1..] + b;
    } else {
      assert a + b == b;
    }
  }

  /** A character in neither part is not in their concatenation. */
  lemma NotInConcat(a: string, b: string, c: char)
    requires c !in a && c !in b
    ensures c !in a + b
  {
  }

  /** Concatenation is associative. */
  lemma AppendAssoc<T>(a: seq<T>, b: seq<T>, c: seq<T>)
    ensures a + (b + c) == (a + b) + c
  {
  }
}
