/** The string tests the domain crate applies to text fields. */
module Text {
  import opened Bytes

  /** The characters that Rust's `str::trim` removes: the Unicode White_Space property. */
  predicate IsWhitespace(c: char) {
    || '\t' <= c <= '\r'
    || c == ' '
    || c == '\U{85}'
    || c == '\U{A0}'
    || c == '\U{1680}'
    || '\U{2000}' <= c <= '\U{200A}'
    || c == '\U{2028}'
    || c == '\U{2029}'
    || c == '\U{202F}'
    || c == '\U{205F}'
    || c == '\U{3000}'
  }

  /** `trim` leaves nothing. */
  predicate Blank(s: string) {
    forall i :: 0 <= i < |s| ==> IsWhitespace(s[i])
  }

  /** `trim` changes nothing. */
  predicate Trimmed(s: string) {
    s != "" ==> !IsWhitespace(s[0]) && !IsWhitespace(s[|s| - 1])
  }

  predicate HasNul(s: string) {
    '\0' in s
  }

  /** Length of the UTF-8 encoding. */
  function Utf8Length(s: string): nat {
    if s == "" then 0 else
      Utf8Length(s[..|s| - 1]) +
      var c := s[|s| - 1];
      if c < '\U{80}' then 1 else if c < '\U{800}' then 2 else if c < '\U{10000}' then 3 else 4
  }

  // -- what the tests mean --------------------------------------------------------------------

  /** The code points with the White_Space property, one by one. */
  ghost const WHITE_SPACE: set<int> := {
    0x09, 0x0A, 0x0B, 0x0C, 0x0D, 0x20, 0x85, 0xA0, 0x1680,
    0x2000, 0x2001, 0x2002, 0x2003, 0x2004, 0x2005, 0x2006, 0x2007, 0x2008, 0x2009, 0x200A,
    0x2028, 0x2029, 0x202F, 0x205F, 0x3000
  }

  lemma WhitespaceExactly(c: char)
    ensures IsWhitespace(c) <==> c as int in WHITE_SPACE
  {
  }

  function TrimStart(s: string): string {
    if s != "" && IsWhitespace(s[0]) then TrimStart(s[1..]) else s
  }

  function TrimEnd(s: string): string {
    if s != "" && IsWhitespace(s[|s| - 1]) then TrimEnd(s[..|s| - 1]) else s
  }

  function Trim(s: string): string {
    TrimEnd(TrimStart(s))
  }

  lemma {:induction false} TrimEndFacts(s: string)
    ensures |TrimEnd(s)| <= |s| && (TrimEnd(s) == "" <==> Blank(s))
    ensures s != "" && !IsWhitespace(s[|s| - 1]) ==> TrimEnd(s) == s
    ensures s != "" && IsWhitespace(s[|s| - 1]) ==> |TrimEnd(s)| < |s|
  {
    if s == "" {
    } else if IsWhitespace(s[|s| - 1]) {
      TrimEndFacts(s[..|s| - 1]);
      assert s == s[..|s| - 1] + [s[|s| - 1]];
    } else {
      assert !Blank(s);
    }
  }

  lemma {:induction false} TrimStartFacts(s: string)
    ensures |TrimStart(s)| <= |s| && (Blank(TrimStart(s)) <==> Blank(s))
    ensures s != "" && IsWhitespace(s[0]) ==> |TrimStart(s)| < |s|
  {
    if s == "" || !IsWhitespace(s[0]) {
    } else {
      TrimStartFacts(s[1..]);
      assert s == [s[0]] + s[1..];
      assert Blank(s) <==> Blank(s[1..]) by {
        assert forall i :: 0 <= i < |s| - 1 ==> s[1..][i] == s[i + 1];
      }
    }
  }

  /** A blank text is one that trimming empties; a trimmed text is one that trimming keeps. */
  lemma TrimExactly(s: string)
    ensures Blank(s) <==> Trim(s) == ""
    ensures Trimmed(s) <==> Trim(s) == s
  {
    TrimStartFacts(s);
    TrimEndFacts(TrimStart(s));
  }

  /** The encoding of section 3 of RFC 3629. */
  function Utf8Char(c: char): seq<Byte> {
    var n := c as int;
    if n < 0x80 then [n]
    else if n < 0x800 then [0xC0 + n / 0x40, 0x80 + n % 0x40]
    else if n < 0x10000 then [0xE0 + n / 0x1000, 0x80 + n / 0x40 % 0x40, 0x80 + n % 0x40]
    else [0xF0 + n / 0x40000, 0x80 + n / 0x1000 % 0x40, 0x80 + n / 0x40 % 0x40, 0x80 + n % 0x40]
  }

  function Utf8(s: string): seq<Byte> {
    if s == "" then [] else Utf8(s[..|s| - 1]) + Utf8Char(s[|s| - 1])
  }

  lemma {:induction false} Utf8LengthExactly(s: string)
    ensures Utf8Length(s) == |Utf8(s)|
  {
    if s == "" {
    } else {
      Utf8LengthExactly(s[..|s| - 1]);
    }
  }
}
