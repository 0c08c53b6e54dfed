/** The string primitives the record codec relies on: Python's `str.strip()`,
    `str.split(sep)` and `sep.join(parts)`, for a single-character separator. */
module Text {

  /** Whitespace as `str.isspace` sees it on the characters a Latin-1 read can
      produce: tab, line feed, vertical tab, form feed, carriage return, the four
      information separators, space, NEL and no-break space. */
  predicate IsSpace(c: char) {
    c == ' ' || c == '\t' || c == '\n' || c == '\r' || c == '\U{0B}' || c == '\U{0C}'
    || c == '\U{1C}' || c == '\U{1D}' || c == '\U{1E}' || c == '\U{1F}'
    || c == '\U{85}' || c == '\U{A0}'
  }

  predicate AllSpace(s: string) {
    forall k :: 0 <= k < |s| ==> IsSpace(s[k])
  }

  predicate NoLeadingSpace(s: string) {
    |s| == 0 || !IsSpace(s[0])
  }

  predicate NoTrailingSpace(s: string) {
    |s| == 0 || !IsSpace(s[|s| - 1])
  }

  /** The length of the whitespace run at the start of `s`. */
  function LeadingSpace(s: string): (n: nat)
    ensures n <= |s| && AllSpace(s[..n]) && NoLeadingSpace(s[n..])
    decreases |s|
  {
    if |s| > 0 && IsSpace(s[0]) then
      var n := 1 + LeadingSpace(s[1..]);
      assert forall k :: 1 <= k < n ==> s[..n][k] == s[1..][..n - 1][k - 1];
      assert s[n..] == s[1..][n - 1..];
      n
    else 0
  }

  /** The length of the whitespace run at the end of `s`. */
  function TrailingSpace(s: string): (n: nat)
    ensures n <= |s| && AllSpace(s[|s| - n..]) && NoTrailingSpace(s[..|s| - n])
    decreases |s|
  {
    if |s| > 0 && IsSpace(s[|s| - 1]) then
      var init := s[..|s| - 1];
      var n := 1 + TrailingSpace(init);
      assert s[..|s| - n] == init[..|init| - (n - 1)];
      n
    else 0
  }

  /** Python's `s.strip()`: the infix of `s` left once whitespace is removed
      from both ends. */
  function Strip(s: string): (r: string)
    ensures NoLeadingSpace(r) && NoTrailingSpace(r)
    ensures exists i :: 0 <= i <= |s| - |r| && r == s[i..i + |r|]
                        && AllSpace(s[..i]) && AllSpace(s[i + |r|..])
  {
    var i := LeadingSpace(s);
    var rest := s[i..];
    var r := rest[..|rest| - TrailingSpace(rest)];
    StripInfix(s, i, r);
    r
  }

  /** The text between a leading and a trailing whitespace run is an infix
      with whitespace only on either side of it. */
  lemma StripInfix(s: string, i: nat, r: string)
    requires i <= |s| && AllSpace(s[..i])
    requires var rest := s[i..];
      |r| <= |rest| && r == rest[..|r|] && AllSpace(rest[|r|..])
    ensures exists i :: 0 <= i <= |s| - |r| && r == s[i..i + |r|]
                        && AllSpace(s[..i]) && AllSpace(s[i + |r|..])
  {
    assert r == s[i..i + |r|];
    assert s[i + |r|..] == s[i..][|r|..];
  }

  /** A line whose content has no whitespace at either end loses exactly its
      line terminator to `strip()`. */
  lemma StripLine(body: string)
    requires NoLeadingSpace(body) && NoTrailingSpace(body)
    ensures Strip(body + "\n") == body
  {
    var s := body + "\n";
    if |body| == 0 {
      assert LeadingSpace(s) == 1;
    } else {
      assert LeadingSpace(s) == 0;
      assert s[0..] == s;
      assert s[..|s| - 1] == body;
      assert TrailingSpace(s) == 1;
    }
  }

  /** Python's `sep.join(parts)`. */
  function Join(parts: seq<string>, sep: char): string
  {
    if |parts| == 0 then ""
    else if |parts| == 1 then parts[0]
    else parts[0] + [sep] + Join(parts[1..], sep)
  }

  /** Position of the first occurrence of `c` in `s`. */
  function IndexOf(s: string, c: char): (i: nat)
    requires c in s
    ensures i < |s| && s[i] == c && c !in s[..i]
  {
    if s[0] == c then 0 else 1 + IndexOf(s[1..], c)
  }

  /** Python's `s.split(sep)`: the pieces between separators, never empty, and
      joining them back with `sep` gives `s` again. */
  function Split(s: string, sep: char): (parts: seq<string>)
    ensures |parts| >= 1
    ensures forall k :: 0 <= k < |parts| ==> sep !in parts[k]
    ensures Join(parts, sep) == s
    decreases |s|
  {
    if sep !in s then [s]
    else
      var i := IndexOf(s, sep);
      var rest := Split(s[i + 1..], sep);
      var parts := [s[..i]] + rest;
      assert parts[1..] == rest;
      assert s == s[..i] + [sep] + s[i + 1..];
      parts
  }

  /** Splitting undoes joining when no piece contains the separator. */
  lemma {:induction false} SplitJoin(parts: seq<string>, sep: char)
    requires |parts| >= 1
    requires forall k :: 0 <= k < |parts| ==> sep !in parts[k]
    ensures Split(Join(parts, sep), sep) == parts
    decreases |parts|
  {
    if |parts| > 1 {
      var head := parts[0];
      var tail := Join(parts[1..], sep);
      var s := Join(parts, sep);
      assert s == head + [sep] + tail;
      assert sep in s by { assert s[|head|] == sep; }
      assert IndexOf(s, sep) == |head|;
      assert s[..|head|] == head;
      assert s[|head| + 1..] == tail;
      SplitJoin(parts[1..], sep);
    }
  }

  /** Joining a concatenation of two non-empty lists puts one separator
      between the two joined halves. */
  lemma {:induction false} JoinAppend(a: seq<string>, b: seq<string>, sep: char)
    requires |a| >= 1 && |b| >= 1
    ensures Join(a + b, sep) == Join(a, sep) + [sep] + Join(b, sep)
    decreases |a|
  {
    if |a| == 1 {
      assert (a + b)[1..] == b;
    } else {
      assert (a + b)[1..] == a[1..] + b;
      JoinAppend(a[1..], b, sep);
    }
  }

  /** The joined text starts like the first piece when that piece is not empty. */
  lemma JoinFirstChar(parts: seq<string>, sep: char)
    requires |parts| >= 1 && |parts[0]| >= 1
    ensures |Join(parts, sep)| >= 1 && Join(parts, sep)[0] == parts[0][0]
  {
  }

  /** With a non-space separator, the joined text ends in whitespace only if
      the last piece does. */
  lemma {:induction false} JoinNoTrailingSpace(parts: seq<string>, sep: char)
    requires |parts| >= 1 && !IsSpace(sep)
    requires NoTrailingSpace(parts[|parts| - 1])
    ensures NoTrailingSpace(Join(parts, sep))
    decreases |parts|
  {
    if |parts| > 1 {
      JoinNoTrailingSpace(parts[1..], sep);
    }
  }
}
