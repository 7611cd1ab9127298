/** Text handling shared by the page and the item: the whitespace trimming that
    `String.prototype.trim` performs, and the blank-text test built on it
    (`if (s.trim())` is false exactly when the trimmed string is empty). */
module Text {

  /** The code points ECMAScript's `trim` removes: the WhiteSpace production
      (tab, vertical tab, form feed, space, no-break space, the byte order mark
      and every Unicode space separator) and the LineTerminator production
      (line feed, carriage return, line and paragraph separator). */
  predicate IsWhitespace(c: char) {
    var n := c as int;
    n == 0x09 || n == 0x0A || n == 0x0B || n == 0x0C || n == 0x0D
    || n == 0x20 || n == 0xA0 || n == 0x1680
    || (0x2000 <= n <= 0x200A)
    || n == 0x2028 || n == 0x2029 || n == 0x202F || n == 0x205F
    || n == 0x3000 || n == 0xFEFF
  }

  predicate AllWhitespace(s: string) {
    forall i :: 0 <= i < |s| ==> IsWhitespace(s[i])
  }

  /** Drops the leading whitespace. */
  function TrimStart(s: string): string {
    if s == [] || !IsWhitespace(s[0]) then s else TrimStart(s[1..])
  }

  /** Drops the trailing whitespace. */
  function TrimEnd(s: string): string {
    if s == [] || !IsWhitespace(s[|s| - 1]) then s else TrimEnd(s[..|s| - 1])
  }

  /** `String.prototype.trim`: whitespace removed from both ends. */
  function Trim(s: string): string {
    TrimEnd(TrimStart(s))
  }

  /** `TrimStart` keeps a suffix of `s` that is empty or starts with a
      non-whitespace character, and what it drops is all whitespace. */
  lemma {:induction false} TrimStartSpec(s: string)
    ensures |TrimStart(s)| <= |s| && TrimStart(s) == s[|s| - |TrimStart(s)|..]
    ensures TrimStart(s) == [] || !IsWhitespace(TrimStart(s)[0])
    ensures AllWhitespace(s[..|s| - |TrimStart(s)|])
  {
    if s != [] && IsWhitespace(s[0]) {
      TrimStartSpec(s[1..]);
      var r := TrimStart(s[1..]);
      assert s[..|s| - |r|] == [s[0]] + s[1..][..|s| - 1 - |r|];
    }
  }

  /** `TrimEnd` keeps a prefix of `s` that is empty or ends with a
      non-whitespace character, and what it drops is all whitespace. */
  lemma {:induction false} TrimEndSpec(s: string)
    ensures |TrimEnd(s)| <= |s| && TrimEnd(s) == s[..|TrimEnd(s)|]
    ensures TrimEnd(s) == [] || !IsWhitespace(TrimEnd(s)[|TrimEnd(s)| - 1])
    ensures AllWhitespace(s[|TrimEnd(s)|..])
  {
    if s != [] && IsWhitespace(s[|s| - 1]) {
      TrimEndSpec(s[..|s| - 1]);
      var r := TrimEnd(s[..|s| - 1]);
      assert s[|r|..] == s[..|s| - 1][|r|..] + [s[|s| - 1]];
    }
  }

  /** The trimmed string is the slice of `s` left once the leading and the
      trailing whitespace are dropped: what lies before it and after it is all
      whitespace, and, when not empty, it begins and ends with a
      non-whitespace character. */
  lemma TrimSpec(s: string)
    ensures
      var a := |s| - |TrimStart(s)|;
      && 0 <= a && a + |Trim(s)| <= |s|
      && Trim(s) == s[a..a + |Trim(s)|]
      && AllWhitespace(s[..a])
      && AllWhitespace(s[a + |Trim(s)|..])
    ensures Trim(s) != [] ==> !IsWhitespace(Trim(s)[0]) && !IsWhitespace(Trim(s)[|Trim(s)| - 1])
  {
    TrimStartSpec(s);
    var t := TrimStart(s);
    var a := |s| - |t|;
    TrimEndSpec(t);
    var r := TrimEnd(t);
    assert s[a + |r|..] == t[|r|..];
    assert r == t[..|r|] == s[a..a + |r|];
  }

  /** The condition `!s.trim()`: the trimmed string is empty (and so falsy). */
  predicate IsBlank(s: string) {
    Trim(s) == []
  }

  /** A string is blank exactly when every character of it is whitespace; in
      particular the empty string is blank. */
  lemma BlankIffAllWhitespace(s: string)
    ensures IsBlank(s) <==> AllWhitespace(s)
  {
    TrimStartSpec(s);
    var a := TrimStart(s);
    TrimEndSpec(a);
    if a == [] {
      assert s[..|s|] == s;
    } else {
      assert !IsWhitespace(s[|s| - |a|]);
      assert TrimEnd(a) != [];
    }
  }

  /** A string with a non-whitespace character is not blank. */
  lemma NotBlankWhenVisible(s: string, i: nat)
    requires i < |s| && !IsWhitespace(s[i])
    ensures !IsBlank(s)
  {
    BlankIffAllWhitespace(s);
  }
}
