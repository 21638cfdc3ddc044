/** UUID text: the printed form (section 4 of RFC 9562) and the forms the parser of the uuid crate takes. */
module UuidText {
  import opened Wrappers
  import opened Bytes
  import opened Uuids

  function HexDigit(n: nat): char
    requires n < 16
  {
    if n < 10 then '0' + n as char else 'a' + (n - 10) as char
  }

  function HexValue(c: char): Option<nat> {
    if '0' <= c <= '9' then Some((c - '0') as nat)
    else if 'a' <= c <= 'f' then Some((c - 'a') as nat + 10)
    else if 'A' <= c <= 'F' then Some((c - 'A') as nat + 10)
    else None
  }

  function Hex(bytes: seq<Byte>): string {
    if bytes == [] then "" else [HexDigit(bytes[0] / 16), HexDigit(bytes[0] % 16)] + Hex(bytes[1..])
  }

  function ParseHex(s: string): Option<seq<Byte>> {
    if s == "" then Some([])
    else if |s| == 1 then None
    else
      match (HexValue(s[0]), HexValue(s[1]), ParseHex(s[2..]))
      case (Some(hi), Some(lo), Some(rest)) => if hi < 16 && lo < 16 then Some([hi * 16 + lo] + rest) else None
      case _ => None
  }

  /** 8-4-4-4-12 lower-case digits. */
  function Hyphenated(id: Uuid): string {
    Hex(id[0..4]) + "-" + Hex(id[4..6]) + "-" + Hex(id[6..8]) + "-" + Hex(id[8..10]) + "-" + Hex(id[10..16])
  }

  function ParseDigits(s: string): Option<Uuid> {
    match ParseHex(s)
    case Some(bytes) => if |bytes| == 16 then Some(bytes) else None
    case None => None
  }

  function ParseHyphenated(s: string): Option<Uuid>
    requires |s| == 36
  {
    if s[8] != '-' || s[13] != '-' || s[18] != '-' || s[23] != '-' then None
    else ParseDigits(s[0..8] + s[9..13] + s[14..18] + s[19..23] + s[24..36])
  }

  /** Plain digits, the hyphenated form, and the hyphenated form in braces or behind the URN prefix. */
  function ParseUuid(s: string): Option<Uuid> {
    if |s| == 32 then ParseDigits(s)
    else if |s| == 36 then ParseHyphenated(s)
    else if |s| == 38 && s[0] == '{' && s[37] == '}' then ParseHyphenated(s[1..37])
    else if |s| == 45 && s[..9] == "urn:uuid:" then ParseHyphenated(s[9..])
    else None
  }

  // -- printing and parsing -------------------------------------------------------------------

  predicate Plain(c: char) {
    '0' <= c <= '9' || 'a' <= c <= 'f' || c == '-'
  }

  lemma HexDigitReads(n: nat)
    requires n < 16
    ensures HexValue(HexDigit(n)) == Some(n) && Plain(HexDigit(n)) && HexDigit(n) != '-'
  {
  }

  lemma {:induction false} HexLength(bytes: seq<Byte>)
    ensures |Hex(bytes)| == 2 * |bytes|
  {
    if bytes == [] {
    } else {
      HexLength(bytes[1..]);
    }
  }

  predicate AllPlain(s: string) {
    forall i :: 0 <= i < |s| ==> Plain(s[i])
  }

  lemma {:induction false} HexPlain(bytes: seq<Byte>)
    ensures AllPlain(Hex(bytes))
  {
    if bytes == [] {
    } else {
      HexPlain(bytes[1..]);
      HexDigitReads(bytes[0] / 16);
      HexDigitReads(bytes[0] % 16);
    }
  }

  lemma {:induction false} HexParses(bytes: seq<Byte>)
    ensures ParseHex(Hex(bytes)) == Some(bytes)
  {
    if bytes == [] {
    } else {
      var b, rest := bytes[0], bytes[1..];
      HexParses(rest);
      HexDigitReads(b / 16);
      HexDigitReads(b % 16);
      assert Hex(bytes)[2..] == Hex(rest);
      assert bytes == [b] + rest;
    }
  }

  lemma {:induction false} HexAppend(a: seq<Byte>, b: seq<Byte>)
    ensures Hex(a + b) == Hex(a) + Hex(b)
  {
    if a == [] {
      assert a + b == b;
    } else {
      HexAppend(a[1..], b);
      assert (a + b)[1..] == a[1..] + b;
    }
  }

  /** Where the five groups of the hyphenated form lie. */
  lemma Groups(a: string, b: string, c: string, d: string, e: string)
    requires |a| == 8 && |b| == 4 && |c| == 4 && |d| == 4 && |e| == 12
    ensures var s := a + "-" + b + "-" + c + "-" + d + "-" + e;
      && |s| == 36 && s[8] == '-' && s[13] == '-' && s[18] == '-' && s[23] == '-'
      && s[0..8] == a && s[9..13] == b && s[14..18] == c && s[19..23] == d && s[24..36] == e
  {
  }

  lemma GroupLengths(id: Uuid)
    ensures |Hex(id[0..4])| == 8 && |Hex(id[4..6])| == 4 && |Hex(id[6..8])| == 4
    ensures |Hex(id[8..10])| == 4 && |Hex(id[10..16])| == 12
  {
    HexLength(id[0..4]);
    HexLength(id[4..6]);
    HexLength(id[6..8]);
    HexLength(id[8..10]);
    HexLength(id[10..16]);
  }

  lemma HexGroups(id: Uuid)
    ensures Hex(id[0..4]) + Hex(id[4..6]) + Hex(id[6..8]) + Hex(id[8..10]) + Hex(id[10..16]) == Hex(id)
  {
    HexAppend(id[0..4], id[4..6]);
    HexAppend(id[0..4] + id[4..6], id[6..8]);
    HexAppend(id[0..4] + id[4..6] + id[6..8], id[8..10]);
    HexAppend(id[0..4] + id[4..6] + id[6..8] + id[8..10], id[10..16]);
    assert id[0..4] + id[4..6] + id[6..8] + id[8..10] + id[10..16] == id;
  }

  /** Every UUID parses back from its printed form. */
  lemma PrintedParses(id: Uuid)
    ensures |Hyphenated(id)| == 36
    ensures ParseUuid(Hyphenated(id)) == Some(id)
  {
    GroupLengths(id);
    Groups(Hex(id[0..4]), Hex(id[4..6]), Hex(id[6..8]), Hex(id[8..10]), Hex(id[10..16]));
    HexGroups(id);
    HexParses(id);
  }

  lemma PrintedPlain(id: Uuid)
    ensures |Hyphenated(id)| == 36 && AllPlain(Hyphenated(id))
  {
    GroupLengths(id);
    HexPlain(id[0..4]);
    HexPlain(id[4..6]);
    HexPlain(id[6..8]);
    HexPlain(id[8..10]);
    HexPlain(id[10..16]);
    PlainGroups(Hex(id[0..4]), Hex(id[4..6]), Hex(id[6..8]), Hex(id[8..10]), Hex(id[10..16]));
  }

  lemma PlainGroups(a: string, b: string, c: string, d: string, e: string)
    requires AllPlain(a) && AllPlain(b) && AllPlain(c) && AllPlain(d) && AllPlain(e)
    ensures AllPlain(a + "-" + b + "-" + c + "-" + d + "-" + e)
  {
    PlainPair(a, b);
    PlainPair(a + "-" + b, c);
    PlainPair(a + "-" + b + "-" + c, d);
    PlainPair(a + "-" + b + "-" + c + "-" + d, e);
  }

  lemma PlainPair(a: string, b: string)
    requires AllPlain(a) && AllPlain(b)
    ensures AllPlain(a + "-" + b)
  {
  }

  lemma PrintedInjective(a: Uuid, b: Uuid)
    requires Hyphenated(a) == Hyphenated(b)
    ensures a == b
  {
    PrintedParses(a);
    PrintedParses(b);
  }
}
