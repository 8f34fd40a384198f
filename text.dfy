/** The pieces of Rust's string library that basic_table relies on:
    `char::is_whitespace` (used by `str::trim_end`), `str::len` (a UTF-8
    byte count) and left-justified padding by `{:width$}` (a character
    count). Strings are sequences of Unicode scalar values. */
module Text {

  function Max(a: nat, b: nat): nat { if a < b then b else a }

  function Min(a: nat, b: nat): nat { if a < b then a else b }

  /** Unicode White_Space, the property `char::is_whitespace` tests. */
  predicate IsWhitespace(c: char) {
    var n := c as int;
    (0x09 <= n <= 0x0D) || n == 0x20 || n == 0x85 || n == 0xA0 || n == 0x1680
    || (0x2000 <= n <= 0x200A) || n == 0x2028 || n == 0x2029 || n == 0x202F
    || n == 0x205F || n == 0x3000
  }

  /** Every character of `s` is whitespace (true of the empty string). */
  predicate Blank(s: string) {
    forall p :: 0 <= p < |s| ==> IsWhitespace(s[p])
  }

  predicate IsAscii(s: string) {
    forall p :: 0 <= p < |s| ==> s[p] as int < 0x80
  }

  /** `str::trim_end`: the longest prefix that does not end in whitespace
      and leaves only whitespace behind it. */
  function TrimEnd(s: string): (r: string)
    ensures |r| <= |s| && r == s[..|r|]
    ensures r == [] || !IsWhitespace(r[|r| - 1])
    ensures forall p :: |r| <= p < |s| ==> IsWhitespace(s[p])
  {
    if s != [] && IsWhitespace(s[|s| - 1]) then TrimEnd(s[..|s| - 1]) else s
  }

  /** The three properties in TrimEnd's contract determine its result. */
  lemma TrimEndUnique(s: string, r: string)
    requires |r| <= |s| && r == s[..|r|]
    requires r == [] || !IsWhitespace(r[|r| - 1])
    requires forall p :: |r| <= p < |s| ==> IsWhitespace(s[p])
    ensures TrimEnd(s) == r
  {
  }

  /** A string is its own trim exactly when it does not end in whitespace. */
  lemma TrimEndFixed(s: string)
    ensures TrimEnd(s) == s <==> (s == [] || !IsWhitespace(s[|s| - 1]))
  {
  }

  /** Appending only whitespace does not change the trimmed text. */
  lemma TrimEndBlankSuffix(s: string, t: string)
    requires Blank(t)
    ensures TrimEnd(s + t) == TrimEnd(s)
  {
    var r := TrimEnd(s);
    forall p | |r| <= p < |s + t|
      ensures IsWhitespace((s + t)[p])
    {
      if p >= |s| { assert (s + t)[p] == t[p - |s|]; }
    }
    assert r == (s + t)[..|r|];
    TrimEndUnique(s + t, r);
  }

  /** Appending text with a visible character keeps what came before
      whole and trims only the appended part. */
  lemma TrimEndVisibleSuffix(s: string, t: string)
    requires !Blank(t)
    ensures TrimEnd(s + t) == s + TrimEnd(t)
  {
    var u := TrimEnd(t);
    var r := s + u;
    assert r[|r| - 1] == u[|u| - 1];
    forall p | |r| <= p < |s + t|
      ensures IsWhitespace((s + t)[p])
    {
      assert (s + t)[p] == t[p - |s|];
    }
    assert r == (s + t)[..|r|] by {
      assert u == t[..|u|];
    }
    TrimEndUnique(s + t, r);
  }

  /** Trimming a prefix that ends in whitespace drops that character. */
  lemma TrimEndDropLast(s: string, n: nat)
    requires 0 < n <= |s| && IsWhitespace(s[n - 1])
    ensures TrimEnd(s[..n]) == TrimEnd(s[..n - 1])
  {
    assert s[..n][..n - 1] == s[..n - 1];
  }

  /** A character that is not whitespace survives trimming. */
  lemma TrimEndKeeps(s: string, p: nat)
    requires p < |s| && !IsWhitespace(s[p])
    ensures p < |TrimEnd(s)|
  {
  }

  /** A stretch that ends in a visible character survives trimming whole. */
  lemma TrimEndSlice(s: string, o: nat, e: nat)
    requires o < e <= |s| && !IsWhitespace(s[e - 1])
    ensures e <= |TrimEnd(s)| && TrimEnd(s)[o..e] == s[o..e]
  {
    TrimEndKeeps(s, e - 1);
  }

  /** Number of bytes in the UTF-8 encoding of `c`. */
  function Utf8Len(c: char): (n: nat)
    ensures 1 <= n <= 4
    ensures n == 1 <==> c as int < 0x80
  {
    var v := c as int;
    if v < 0x80 then 1 else if v < 0x800 then 2 else if v < 0x10000 then 3 else 4
  }

  /** `str::len`: the length of the UTF-8 encoding, in bytes. It is never
      less than the number of characters, and equal to it exactly for
      ASCII text. */
  function ByteLen(s: string): (n: nat)
    ensures n >= |s|
    ensures n == |s| <==> IsAscii(s)
  {
    if s == [] then 0 else ByteLen(s[..|s| - 1]) + Utf8Len(s[|s| - 1])
  }

  function Spaces(n: nat): (r: string)
    ensures |r| == n && forall p :: 0 <= p < n ==> r[p] == ' '
  {
    if n == 0 then [] else Spaces(n - 1) + [' ']
  }

  /** `{:width$}` applied to a string: left-justified, filled with spaces
      up to `width` characters, never truncated. */
  function PadRight(s: string, width: nat): (r: string)
    ensures |r| == Max(|s|, width)
    ensures r[..|s|] == s
    ensures forall p :: |s| <= p < |r| ==> r[p] == ' '
  {
    if |s| >= width then s else s + Spaces(width - |s|)
  }

  lemma BlankConcat(a: string, b: string)
    ensures Blank(a + b) <==> Blank(a) && Blank(b)
  {
    if Blank(a + b) {
      assert forall p :: 0 <= p < |a| ==> a[p] == (a + b)[p];
      assert forall p :: 0 <= p < |b| ==> b[p] == (a + b)[|a| + p];
    }
  }

  /** Padding adds only spaces. */
  lemma PadBlank(s: string, width: nat)
    ensures Blank(PadRight(s, width)) <==> Blank(s)
  {
    var r := PadRight(s, width);
    assert r == s + r[|s|..];
    BlankConcat(s, r[|s|..]);
  }

  lemma SliceOfPrefix(a: string, b: string, o: nat, e: nat)
    requires o <= e <= |a|
    ensures (a + b)[o..e] == a[o..e]
  {
  }

  lemma ConcatAssoc(a: string, b: string, c: string)
    ensures a + b + c == a + (b + c)
  {
  }

  /** How many newline characters `s` holds. */
  function NewlineCount(s: string): nat
  {
    if s == [] then 0 else NewlineCount(s[..|s| - 1]) + (if s[|s| - 1] == '\n' then 1 else 0)
  }

  lemma {:induction false} NewlineCountConcat(a: string, b: string)
    ensures NewlineCount(a + b) == NewlineCount(a) + NewlineCount(b)
  {
    if b != [] {
      assert (a + b)[..|a + b| - 1] == a + b[..|b| - 1];
      NewlineCountConcat(a, b[..|b| - 1]);
    } else {
      assert a + b == a;
    }
  }

  /** Padding and trimming add no newlines. */
  lemma {:induction false} NewlineCountSpaces(n: nat)
    ensures NewlineCount(Spaces(n)) == 0
  {
    if n > 0 {
      NewlineCountSpaces(n - 1);
      assert Spaces(n)[..n - 1] == Spaces(n - 1);
    }
  }

  lemma NewlineCountPad(s: string, width: nat)
    ensures NewlineCount(PadRight(s, width)) == NewlineCount(s)
  {
    if |s| < width {
      NewlineCountConcat(s, Spaces(width - |s|));
      NewlineCountSpaces(width - |s|);
    }
  }

  lemma NewlineCountTrim(s: string)
    ensures NewlineCount(TrimEnd(s)) <= NewlineCount(s)
  {
    var r := TrimEnd(s);
    assert s == r + s[|r|..];
    NewlineCountConcat(r, s[|r|..]);
  }

  /** A string has no newlines exactly when none of its characters is one. */
  lemma {:induction false} NewlineFree(s: string)
    ensures NewlineCount(s) == 0 <==> forall p :: 0 <= p < |s| ==> s[p] != '\n'
  {
    if s != [] {
      var front := s[..|s| - 1];
      NewlineFree(front);
      assert forall p :: 0 <= p < |front| ==> front[p] == s[p];
    }
  }
}
