/** The three Python string builtins the record splitter relies on:
    `str.strip()` with no argument, `str.startswith` with a one-character
    prefix, and `''.join`. Strings are sequences of code points. */
module PyStr {

  /** Python's `str.isspace()` for a single code point: the characters that
      `str.strip()` with no argument removes. */
  predicate IsWhitespace(c: char) {
    var n := c as int;
    (0x09 <= n <= 0x0D) || (0x1C <= n <= 0x20) || n == 0x85 || n == 0xA0 || n == 0x1680
    || (0x2000 <= n <= 0x200A) || n == 0x2028 || n == 0x2029 || n == 0x202F || n == 0x205F
    || n == 0x3000
  }

  predicate AllWhitespace(s: string) {
    forall k {:trigger IsWhitespace(s[k])} :: 0 <= k < |s| ==> IsWhitespace(s[k])
  }

  /** Neither end of `t` is whitespace: what `strip()` leaves behind. */
  predicate Trimmed(t: string) {
    t == [] || (!IsWhitespace(t[0]) && !IsWhitespace(t[|t| - 1]))
  }

  /** `s.lstrip()`: `s` without its leading whitespace. */
  function LStrip(s: string): (r: string) {
    if s != [] && IsWhitespace(s[0]) then LStrip(s[1..]) else s
  }

  /** `s.rstrip()`: `s` without its trailing whitespace. */
  function RStrip(s: string): (r: string) {
    if s != [] && IsWhitespace(s[|s| - 1]) then RStrip(s[..|s| - 1]) else s
  }

  /** `s.strip()`: `s` without its leading and trailing whitespace. What it
      removes and what it leaves are stated by `StripParts` and
      `StripUnique`. */
  function Strip(s: string): (r: string) {
    RStrip(LStrip(s))
  }

  /** `lstrip()` removes an all-whitespace prefix and leaves a string that
      does not start with whitespace. */
  lemma {:induction false} LStripSpec(s: string)
    ensures |LStrip(s)| <= |s| && LStrip(s) == s[|s| - |LStrip(s)|..]
    ensures AllWhitespace(s[..|s| - |LStrip(s)|])
    ensures LStrip(s) == [] || !IsWhitespace(LStrip(s)[0])
  {
    if s != [] && IsWhitespace(s[0]) {
      LStripSpec(s[1..]);
      var r := LStrip(s[1..]);
      assert s[..|s| - |r|] == [s[0]] + s[1..][..|s| - 1 - |r|];
    }
  }

  /** `rstrip()` removes an all-whitespace suffix and leaves a string that
      does not end with whitespace. */
  lemma {:induction false} RStripSpec(s: string)
    ensures |RStrip(s)| <= |s| && RStrip(s) == s[..|RStrip(s)|]
    ensures AllWhitespace(s[|RStrip(s)|..])
    ensures RStrip(s) == [] || !IsWhitespace(RStrip(s)[|RStrip(s)| - 1])
  {
    if s != [] && IsWhitespace(s[|s| - 1]) {
      RStripSpec(s[..|s| - 1]);
      var r := RStrip(s[..|s| - 1]);
      assert s[|r|..] == s[..|s| - 1][|r|..] + [s[|s| - 1]];
    }
  }

  /** `s.startswith(c)` for a one-character prefix `c`. */
  predicate StartsWith(s: string, c: char) {
    |s| > 0 && s[0] == c
  }

  /** `''.join(parts)`: the parts concatenated with no separator. */
  function Concat(parts: seq<string>): (joined: string) {
    if parts == [] then "" else Concat(parts[..|parts| - 1]) + parts[|parts| - 1]
  }

  lemma {:induction false} ConcatAppend(a: seq<string>, b: seq<string>)
    ensures Concat(a + b) == Concat(a) + Concat(b)
    decreases |b|
  {
    if b == [] {
      assert a + b == a;
    } else {
      var b', x := b[..|b| - 1], b[|b| - 1];
      assert (a + b)[..|a + b| - 1] == a + b';
      assert Concat(a + b) == Concat(a + b') + x;
      ConcatAppend(a, b');
      assert Concat(b) == Concat(b') + x;
    }
  }

  lemma ConcatSingle(s: string)
    ensures Concat([s]) == s
  {
    assert [s][..0] == [];
  }

  /** Whatever surrounds the stripped text, as long as it is whitespace and
      the text has no whitespace at either end, `strip()` returns that text. */
  lemma StripUnique(w1: string, t: string, w2: string)
    requires AllWhitespace(w1) && AllWhitespace(w2) && Trimmed(t)
    ensures Strip(w1 + t + w2) == t
  {
    var s := w1 + t + w2;
    var l := LStrip(s);
    LStripSpec(s);
    if t == [] {
      assert AllWhitespace(s);
      assert l == [];
    } else {
      assert s[|w1|] == t[0];
      assert l == t + w2;
      RStripSpec(l);
      assert l[|t| - 1] == t[|t| - 1];
    }
  }

  /** A string with no whitespace at either end is its own stripped form. */
  lemma StripTrimmed(s: string)
    requires Trimmed(s)
    ensures Strip(s) == s
  {
    StripUnique([], s, []);
    assert [] + s + [] == s;
  }

  /** Stripping a stripped line changes nothing. */
  lemma StripIdempotent(s: string)
    ensures Strip(Strip(s)) == Strip(s)
  {
    var pre, post := StripParts(s);
    StripUnique([], Strip(s), []);
    assert [] + Strip(s) + [] == Strip(s);
  }

  /** `s` is its stripped form with whitespace on either side, and the
      stripped form has no whitespace at either end. */
  lemma StripParts(s: string) returns (pre: string, post: string)
    ensures s == pre + Strip(s) + post
    ensures AllWhitespace(pre) && AllWhitespace(post)
    ensures Trimmed(Strip(s))
  {
    var l := LStrip(s);
    LStripSpec(s);
    var r := RStrip(l);
    RStripSpec(l);
    pre, post := s[..|s| - |l|], l[|r|..];
    assert s == pre + l;
    assert l == r + post;
    if r != [] {
      assert r[0] == l[0];
    }
  }

  /** Whitespace added around a line, such as indentation, does not change
      what `strip()` returns for it. */
  lemma StripIgnoresSurroundingWhitespace(w1: string, s: string, w2: string)
    requires AllWhitespace(w1) && AllWhitespace(w2)
    ensures Strip(w1 + s + w2) == Strip(s)
  {
    var pre, post := StripParts(s);
    var r := Strip(s);
    assert w1 + s + w2 == (w1 + pre) + r + (post + w2) by {
      SeqRegroup(w1, pre, r, post, w2);
    }
    AllWhitespaceAppend(w1, pre);
    AllWhitespaceAppend(post, w2);
    StripUnique(w1 + pre, r, post + w2);
  }

  lemma SeqRegroup(a: string, b: string, c: string, d: string, e: string)
    ensures a + (b + c + d) + e == (a + b) + c + (d + e)
  {
  }

  lemma AllWhitespaceAppend(a: string, b: string)
    requires AllWhitespace(a) && AllWhitespace(b)
    ensures AllWhitespace(a + b)
  {
  }

  /** A line strips to the empty string exactly when it is all whitespace. */
  lemma StripEmptyIffWhitespace(s: string)
    ensures Strip(s) == [] <==> AllWhitespace(s)
  {
    var pre, post := StripParts(s);
    if Strip(s) == [] {
      assert s == pre + post;
      AllWhitespaceAppend(pre, post);
    }
    if AllWhitespace(s) {
      StripUnique(s, [], []);
      assert s + [] + [] == s;
    }
  }
}
