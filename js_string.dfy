/**
 * The JavaScript string operations the handlers and views rely on. A Dafny string is a
 * sequence of code points; `Utf16Length` recovers JavaScript's `.length`, which counts
 * UTF-16 code units.
 */
module JsString {

  /** The WhiteSpace and LineTerminator code points of ECMAScript: what `trim()` strips. */
  predicate IsWhitespace(c: char) {
    || c == '\t' || c == '\n' || c == '\U{000B}' || c == '\U{000C}' || c == '\r' || c == ' '
    || c == '\U{00A0}' || c == '\U{1680}' || ('\U{2000}' <= c <= '\U{200A}')
    || c == '\U{2028}' || c == '\U{2029}' || c == '\U{202F}' || c == '\U{205F}'
    || c == '\U{3000}' || c == '\U{FEFF}'
  }

  predicate AllWhitespace(s: string) {
    forall k :: 0 <= k < |s| ==> IsWhitespace(s[k])
  }

  /** The number of whitespace code points `trimStart()` drops. */
  function LeadingBlanks(s: string): (n: nat)
    ensures n <= |s|
    ensures forall k :: 0 <= k < n ==> IsWhitespace(s[k])
    ensures n < |s| ==> !IsWhitespace(s[n])
    decreases |s|
  {
    if s != [] && IsWhitespace(s[0]) then 1 + LeadingBlanks(s[1..]) else 0
  }

  /** The number of whitespace code points `trimEnd()` drops. */
  function TrailingBlanks(s: string): (n: nat)
    ensures n <= |s|
    ensures forall k :: |s| - n <= k < |s| ==> IsWhitespace(s[k])
    ensures n < |s| ==> !IsWhitespace(s[|s| - n - 1])
    decreases |s|
  {
    if s != [] && IsWhitespace(s[|s| - 1]) then 1 + TrailingBlanks(s[..|s| - 1]) else 0
  }

  /** Drops leading whitespace. */
  function TrimStart(s: string): string {
    s[LeadingBlanks(s)..]
  }

  /** Drops trailing whitespace. */
  function TrimEnd(s: string): string {
    s[..|s| - TrailingBlanks(s)]
  }

  /** `String.prototype.trim`. */
  function Trim(s: string): (r: string)
    ensures |r| <= |s|
    ensures r != [] ==> !IsWhitespace(r[0]) && !IsWhitespace(r[|r| - 1])
  {
    TrimEnd(TrimStart(s))
  }

  /** Trimming pads of whitespace around a core without outer whitespace gives back the core. */
  lemma {:induction false} TrimOfPadded(pre: string, core: string, post: string)
    requires AllWhitespace(pre) && AllWhitespace(post)
    requires core != [] ==> !IsWhitespace(core[0]) && !IsWhitespace(core[|core| - 1])
    ensures Trim(pre + core + post) == core
  {
    if core == [] {
      assert pre + core + post == pre + post;
      assert AllWhitespace(pre + post);
      TrimEmptyIffBlank(pre + post);
    } else {
      assert (pre + core + post) == pre + (core + post);
      TrimStartOfPadded(pre, core + post);
      TrimEndOfPadded(core, post);
    }
  }

  /** A string with no whitespace at either end is its own trim. */
  lemma TrimOfUnpadded(s: string)
    requires s != [] && !IsWhitespace(s[0]) && !IsWhitespace(s[|s| - 1])
    ensures Trim(s) == s
  {
    assert [] + s + [] == s;
    TrimOfPadded([], s, []);
  }

  lemma {:induction false} TrimStartOfPadded(pre: string, rest: string)
    requires AllWhitespace(pre)
    requires rest != [] ==> !IsWhitespace(rest[0])
    ensures TrimStart(pre + rest) == rest
    decreases |pre|
  {
    if pre == [] {
      assert pre + rest == rest;
    } else {
      assert (pre + rest)[1..] == pre[1..] + rest;
      TrimStartOfPadded(pre[1..], rest);
    }
  }

  lemma {:induction false} TrimEndOfPadded(rest: string, post: string)
    requires AllWhitespace(post)
    requires rest != [] ==> !IsWhitespace(rest[|rest| - 1])
    ensures TrimEnd(rest + post) == rest
    decreases |post|
  {
    if post == [] {
      assert rest + post == rest;
    } else {
      var s := rest + post;
      assert s[..|s| - 1] == rest + post[..|post| - 1];
      TrimEndOfPadded(rest, post[..|post| - 1]);
    }
  }

  /** `trim()` is idempotent: a trimmed value is stored unchanged by a second trim. */
  lemma TrimIdempotent(s: string)
    ensures Trim(Trim(s)) == Trim(s)
  {
    var t := Trim(s);
    if t != [] {
      TrimOfUnpadded(t);
    }
  }

  /** The trim is empty exactly when the input is blank. */
  lemma TrimEmptyIffBlank(s: string)
    ensures Trim(s) == [] <==> AllWhitespace(s)
  {
    var a := LeadingBlanks(s);
    var t := TrimStart(s);
    if Trim(s) == [] {
      assert |t| == 0;
    } else {
      assert !IsWhitespace(Trim(s)[0]);
      assert Trim(s)[0] == s[a];
    }
  }

  /** `.length` of a JavaScript string: code points above U+FFFF take two UTF-16 units. */
  function Utf16Length(s: string): (n: nat)
    ensures |s| <= n <= 2 * |s|
    ensures n == 0 <==> s == []
  {
    if s == [] then 0 else (if s[0] as int > 0xFFFF then 2 else 1) + Utf16Length(s[1..])
  }

  /** Within the Basic Multilingual Plane, `.length` is the number of code points. */
  lemma {:induction false} Utf16LengthBmp(s: string)
    requires forall k :: 0 <= k < |s| ==> s[k] as int <= 0xFFFF
    ensures Utf16Length(s) == |s|
  {
    if s != [] {
      assert s[0] as int <= 0xFFFF;
      Utf16LengthBmp(s[1..]);
    }
  }

  /** Case folding of a regular expression with the `i` flag, restricted to ASCII letters. */
  function UpperAscii(c: char): char {
    if 'a' <= c <= 'z' then (c as int - 32) as char else c
  }

  function FoldCase(s: string): (r: string)
    ensures |r| == |s| && forall k :: 0 <= k < |s| ==> r[k] == UpperAscii(s[k])
  {
    seq(|s|, k requires 0 <= k < |s| => UpperAscii(s[k]))
  }

  predicate StartsWith(s: string, prefix: string) {
    |prefix| <= |s| && s[..|prefix|] == prefix
  }

  /** `String.prototype.includes`: `t` occurs in `s` at some offset. */
  predicate Includes(s: string, t: string)
    decreases |s|
  {
    StartsWith(s, t) || (s != [] && Includes(s[1..], t))
  }

  lemma {:induction false} IncludesAt(s: string, t: string, i: nat)
    requires i + |t| <= |s| && s[i..i + |t|] == t
    ensures Includes(s, t)
    decreases i
  {
    if i > 0 {
      assert s[1..][i - 1..i - 1 + |t|] == s[i..i + |t|];
      IncludesAt(s[1..], t, i - 1);
    }
  }

  lemma {:induction false} IncludesShorter(s: string, t: string)
    requires Includes(s, t)
    ensures |t| <= |s|
    decreases |s|
  {
    if !StartsWith(s, t) {
      IncludesShorter(s[1..], t);
    }
  }

  /**
   * `new RegExp(pattern, 'i').test(subject)` for a pattern free of metacharacters: the
   * pattern is unanchored, so this is case-insensitive substring containment.
   */
  predicate MatchesIgnoreCase(pattern: string, subject: string) {
    Includes(FoldCase(subject), FoldCase(pattern))
  }

  /** A pattern longer than the subject never matches it. */
  lemma NoMatchWhenLonger(pattern: string, subject: string)
    requires |pattern| > |subject|
    ensures !MatchesIgnoreCase(pattern, subject)
  {
    if MatchesIgnoreCase(pattern, subject) {
      IncludesShorter(FoldCase(subject), FoldCase(pattern));
    }
  }

  /** Any subject containing the pattern matches it, whatever surrounds it. */
  lemma MatchesInfix(pre: string, mid: string, post: string)
    ensures MatchesIgnoreCase(mid, pre + mid + post)
  {
    var s := pre + mid + post;
    assert FoldCase(s)[|pre|..|pre| + |mid|] == FoldCase(mid);
    IncludesAt(FoldCase(s), FoldCase(mid), |pre|);
  }

  /** Strings equal up to ASCII case match one another. */
  lemma MatchesEqualIgnoringCase(a: string, b: string)
    requires FoldCase(a) == FoldCase(b)
    ensures MatchesIgnoreCase(a, b) && MatchesIgnoreCase(b, a)
  {
    assert FoldCase(a)[..|FoldCase(a)|] == FoldCase(a);
  }

  /** `s.split(sep)` for a one-character separator; the empty string splits into `[""]`. */
  function Split(s: string, sep: char): (parts: seq<string>)
    ensures |parts| >= 1
    ensures forall i :: 0 <= i < |parts| ==> sep !in parts[i]
  {
    if s == [] then [""]
    else
      var rest := Split(s[1..], sep);
      if s[0] == sep then [""] + rest else [[s[0]] + rest[0]] + rest[1..]
  }

  /** `parts.join(sep)`. */
  function Join(parts: seq<string>, sep: char): string {
    if |parts| == 0 then ""
    else if |parts| == 1 then parts[0]
    else parts[0] + [sep] + Join(parts[1..], sep)
  }

  /** Splitting and joining on the same separator restores the input. */
  lemma {:induction false} JoinSplit(s: string, sep: char)
    ensures Join(Split(s, sep), sep) == s
  {
    if s != [] {
      var rest := Split(s[1..], sep);
      JoinSplit(s[1..], sep);
      if s[0] == sep {
        assert Split(s, sep)[1..] == rest;
      } else if |rest| == 1 {
        assert Split(s, sep) == [[s[0]] + rest[0]];
      } else {
        var parts := Split(s, sep);
        assert parts[1..] == rest[1..];
        assert Join(rest, sep) == rest[0] + [sep] + Join(rest[1..], sep);
      }
    }
  }

  /** Joining splits at any cut point: the first `k` parts, the separator, then the rest. */
  lemma {:induction false} JoinCut(parts: seq<string>, k: nat, sep: char)
    requires 0 < k < |parts|
    ensures Join(parts, sep) == Join(parts[..k], sep) + [sep] + Join(parts[k..], sep)
    decreases k
  {
    if k > 1 {
      JoinCut(parts[1..], k - 1, sep);
      assert parts[1..][..k - 1] == parts[..k][1..];
      assert parts[1..][k - 1..] == parts[k..];
    }
  }

  /** Splitting at a separator splits the two sides independently. */
  lemma {:induction false} SplitConcat(a: string, b: string, sep: char)
    ensures Split(a + [sep] + b, sep) == Split(a, sep) + Split(b, sep)
    decreases |a|
  {
    if a == [] {
      assert a + [sep] + b == [sep] + b;
      assert ([sep] + b)[1..] == b;
    } else {
      var s := a + [sep] + b;
      assert s[0] == a[0];
      assert s[1..] == a[1..] + [sep] + b;
      SplitConcat(a[1..], b, sep);
    }
  }

  /** Text without the separator is one part. */
  lemma {:induction false} SplitWithoutSeparator(s: string, sep: char)
    requires sep !in s
    ensures Split(s, sep) == [s]
  {
    if s != [] {
      assert sep !in s[1..];
      SplitWithoutSeparator(s[1..], sep);
      assert [s[0]] + s[1..] == s;
    }
  }

  /** Splitting a join of separator-free parts gives the parts back, the converse of `JoinSplit`. */
  lemma {:induction false} SplitJoin(parts: seq<string>, sep: char)
    requires |parts| >= 1
    requires forall i :: 0 <= i < |parts| ==> sep !in parts[i]
    ensures Split(Join(parts, sep), sep) == parts
  {
    if |parts| == 1 {
      SplitWithoutSeparator(parts[0], sep);
    } else {
      SplitWithoutSeparator(parts[0], sep);
      SplitJoin(parts[1..], sep);
      SplitConcat(parts[0], Join(parts[1..], sep), sep);
      assert [parts[0]] + parts[1..] == parts;
    }
  }
}
