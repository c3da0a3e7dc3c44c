/**
  UUIDs: the canonical text form of section 4 of RFC 9562, and a parser for
  the spellings of it that callers use (hyphenated, braced, `urn:uuid:`,
  unhyphenated, each in either letter case).
 */
module Uuid {
  import opened Prelude

  type Uuid = u: seq<Byte> | |u| == 16 witness seq(16, _ => 0)

  function HexDigit(d: nat): char
    requires d < 16
  {
    if d < 10 then ('0' as int + d) as char else ('a' as int + d - 10) as char
  }

  function HexValue(c: char): Option<nat> {
    if '0' <= c <= '9' then Some(c as int - '0' as int)
    else if 'a' <= c <= 'f' then Some(c as int - 'a' as int + 10)
    else if 'A' <= c <= 'F' then Some(c as int - 'A' as int + 10)
    else None
  }

  predicate IsLowerHex(c: char) {
    '0' <= c <= '9' || 'a' <= c <= 'f'
  }

  /** `hex.EncodeToString`. */
  function HexEncode(bytes: seq<Byte>): (s: string)
    ensures |s| == 2 * |bytes|
  {
    if bytes == [] then []
    else [HexDigit(bytes[0] / 16), HexDigit(bytes[0] % 16)] + HexEncode(bytes[1..])
  }

  function HexDecode(s: string): (r: Option<seq<Byte>>)
    ensures r.Some? ==> |s| == 2 * |r.value|
  {
    if |s| == 0 then Some([])
    else if |s| == 1 then None
    else
      match (HexValue(s[0]), HexValue(s[1]), HexDecode(s[2..]))
      case (Some(high), Some(low), Some(rest)) =>
        assert high < 16 && low < 16;
        Some([16 * high + low] + rest)
      case _ => None
  }

  function Hyphenate(h: string): (s: string)
    requires |h| == 32
    ensures |s| == 36
  {
    h[..8] + "-" + h[8..12] + "-" + h[12..16] + "-" + h[16..20] + "-" + h[20..]
  }

  predicate HasHyphens(s: string)
    requires |s| == 36
  {
    s[8] == '-' && s[13] == '-' && s[18] == '-' && s[23] == '-'
  }

  function Unhyphenate(s: string): (h: string)
    requires |s| == 36
    ensures |h| == 32
  {
    s[..8] + s[9..13] + s[14..18] + s[19..23] + s[24..]
  }

  /** `UUID.String`: lowercase, hyphenated 8-4-4-4-12. */
  function Print(u: Uuid): (s: string)
    ensures |s| == 36
  {
    Hyphenate(HexEncode(u))
  }

  function ParseHyphenated(s: string): Option<Uuid>
    requires |s| == 36
  {
    if HasHyphens(s) then HexDecode(Unhyphenate(s)) else None
  }

  function Parse(s: string): Option<Uuid> {
    if |s| == 32 then HexDecode(s)
    else if |s| == 36 then ParseHyphenated(s)
    else if |s| == 38 && s[0] == '{' && s[37] == '}' then ParseHyphenated(s[1..37])
    else if |s| == 45 && s[..9] == "urn:uuid:" then ParseHyphenated(s[9..])
    else None
  }

  // ---- What the parser accepts, stated without parsing ----

  function LowerChar(c: char): char {
    if 'A' <= c <= 'Z' then (c as int - 'A' as int + 'a' as int) as char else c
  }

  function Lower(s: string): (r: string)
    ensures |r| == |s|
  {
    seq(|s|, i requires 0 <= i < |s| => LowerChar(s[i]))
  }

  /** `body` is the hyphenated form of `u` in any mixture of letter cases. */
  predicate SpellsBody(body: string, u: Uuid) {
    Lower(body) == Print(u)
  }

  /** `s` is one of the accepted spellings of `u`. */
  predicate Spells(s: string, u: Uuid) {
    || Lower(s) == HexEncode(u)
    || SpellsBody(s, u)
    || (|s| == 38 && s == "{" + s[1..37] + "}" && SpellsBody(s[1..37], u))
    || (|s| == 45 && s == "urn:uuid:" + s[9..] && SpellsBody(s[9..], u))
  }

  lemma HexValueIffLower(c: char, d: nat)
    requires d < 16
    ensures HexValue(c) == Some(d) <==> LowerChar(c) == HexDigit(d)
  {
  }

  /** Hex digits count alike in both letter cases, and no other character is one. */
  lemma HexValueIff(c: char, d: nat)
    requires d < 16
    ensures HexValue(c) == Some(d) <==> c == "0123456789abcdef"[d] || c == "0123456789ABCDEF"[d]
  {
  }

  lemma HexDecodeStep(s: string, b: seq<Byte>)
    requires |s| >= 2 && b != []
    ensures HexDecode(s) == Some(b) <==>
            && HexValue(s[0]) == Some(b[0] / 16)
            && HexValue(s[1]) == Some(b[0] % 16)
            && HexDecode(s[2..]) == Some(b[1..])
  {
    if HexDecode(s) == Some(b) {
      assert b[1..] == HexDecode(s[2..]).value;
    }
    assert b == [b[0]] + b[1..];
  }

  lemma HexEncodeStep(s: string, b: seq<Byte>)
    requires |s| >= 2 && b != []
    ensures Lower(s) == HexEncode(b) <==>
            && LowerChar(s[0]) == HexDigit(b[0] / 16)
            && LowerChar(s[1]) == HexDigit(b[0] % 16)
            && Lower(s[2..]) == HexEncode(b[1..])
  {
    var first := [HexDigit(b[0] / 16), HexDigit(b[0] % 16)];
    var rest := HexEncode(b[1..]);
    assert Lower(s) == [LowerChar(s[0]), LowerChar(s[1])] + Lower(s[2..]);
    assert (first + rest)[..2] == first && (first + rest)[2..] == rest;
    var l := Lower(s);
    assert l[..2] == [LowerChar(s[0]), LowerChar(s[1])] && l[2..] == Lower(s[2..]);
    if l == HexEncode(b) {
      assert l[..2] == first;
      assert first[0] == l[0] && first[1] == l[1];
    }
  }

  lemma {:induction false} HexDecodeIff(s: string, b: seq<Byte>)
    ensures HexDecode(s) == Some(b) <==> Lower(s) == HexEncode(b)
  {
    if |s| < 2 || b == [] {
    } else {
      HexDecodeIff(s[2..], b[1..]);
      HexValueIffLower(s[0], b[0] / 16);
      HexValueIffLower(s[1], b[0] % 16);
      HexDecodeStep(s, b);
      HexEncodeStep(s, b);
    }
  }

  lemma HyphenateUnhyphenate(s: string, h: string)
    requires |s| == 36 && |h| == 32
    ensures Hyphenate(h) == s <==> HasHyphens(s) && Unhyphenate(s) == h
  {
    if Hyphenate(h) == s {
      assert s[..8] == h[..8] && s[9..13] == h[8..12] && s[14..18] == h[12..16];
      assert s[19..23] == h[16..20] && s[24..] == h[20..];
      assert Unhyphenate(s) == h;
    }
    if HasHyphens(s) && Unhyphenate(s) == h {
      assert h[..8] == s[..8] && h[8..12] == s[9..13] && h[12..16] == s[14..18];
      assert h[16..20] == s[19..23] && h[20..] == s[24..];
      forall i | 0 <= i < 36
        ensures Hyphenate(h)[i] == s[i]
      {
      }
    }
  }

  lemma ParseHyphenatedIff(s: string, u: Uuid)
    requires |s| == 36
    ensures ParseHyphenated(s) == Some(u) <==> SpellsBody(s, u)
  {
    HexDecodeIff(Unhyphenate(s), u);
    HyphenateUnhyphenate(Lower(s), HexEncode(u));
    assert Lower(Unhyphenate(s)) == Unhyphenate(Lower(s));
    assert HasHyphens(s) <==> HasHyphens(Lower(s));
  }

  /** The parser accepts exactly the listed spellings, and reads each as the UUID it spells. */
  lemma ParseIffSpells(s: string, u: Uuid)
    ensures Parse(s) == Some(u) <==> Spells(s, u)
  {
    if |s| == 32 {
      HexDecodeIff(s, u);
    } else if |s| == 36 {
      ParseHyphenatedIff(s, u);
    } else if |s| == 38 {
      ParseHyphenatedIff(s[1..37], u);
    } else if |s| == 45 {
      ParseHyphenatedIff(s[9..], u);
    }
  }

  lemma {:induction false} HexEncodeIsLowerHex(bytes: seq<Byte>)
    ensures forall i :: 0 <= i < |HexEncode(bytes)| ==> IsLowerHex(HexEncode(bytes)[i])
  {
    if bytes == [] {
    } else {
      HexEncodeIsLowerHex(bytes[1..]);
    }
  }

  lemma {:induction false} HexEncodeAt(bytes: seq<Byte>, i: nat)
    requires i < |bytes|
    ensures HexEncode(bytes)[2 * i] == "0123456789abcdef"[bytes[i] / 16]
    ensures HexEncode(bytes)[2 * i + 1] == "0123456789abcdef"[bytes[i] % 16]
  {
    if i == 0 {
    } else {
      HexEncodeAt(bytes[1..], i - 1);
    }
  }

  /** Where the two digits of byte `i` stand in the canonical form. */
  function DigitsAt(i: nat): nat
    requires i < 16
  {
    2 * i + if i < 4 then 0 else if i < 6 then 1 else if i < 8 then 2 else if i < 10 then 3 else 4
  }

  /**
    The canonical form of section 4 of RFC 9562: each byte's high digit before
    its low digit, bytes in order, hyphens between the groups of 4, 2, 2, 2 and 6.
   */
  lemma PrintLayout(u: Uuid, i: nat)
    requires i < 16
    ensures Print(u)[8] == Print(u)[13] == Print(u)[18] == Print(u)[23] == '-'
    ensures Print(u)[DigitsAt(i)] == "0123456789abcdef"[u[i] / 16]
    ensures Print(u)[DigitsAt(i) + 1] == "0123456789abcdef"[u[i] % 16]
  {
    HexEncodeAt(u, i);
  }

  lemma PrintIsLower(u: Uuid)
    ensures Lower(Print(u)) == Print(u)
  {
    var h := HexEncode(u);
    HexEncodeIsLowerHex(u);
    forall i | 0 <= i < 36
      ensures LowerChar(Print(u)[i]) == Print(u)[i]
    {
      assert Print(u)[i] == '-' || Print(u)[i] in h;
    }
  }

  /** Reading a spelling and printing it repeats it exactly when it has 36 characters and no capital letter. */
  lemma PrintRepeatsIff(s: string, u: Uuid)
    requires Parse(s) == Some(u)
    ensures Print(u) == s <==> |s| == 36 && Lower(s) == s
  {
    PrintIsLower(u);
    if |s| == 36 {
      ParseHyphenatedIff(s, u);
    }
  }

  /** Parsing what was printed gives the UUID back, so printing never repeats. */
  lemma ParsePrint(u: Uuid)
    ensures Parse(Print(u)) == Some(u)
  {
    PrintIsLower(u);
    ParseIffSpells(Print(u), u);
  }

  /**
    A parser that reads the canonical form back. It is all the protocol needs
    of its UUID parser, so the protocol's theorems hold for every such parser.
   */
  ghost predicate Lawful(parse: string -> Option<Uuid>) {
    forall u: Uuid :: parse(Print(u)) == Some(u)
  }

  lemma ParseIsLawful()
    ensures Lawful(Parse)
  {
    forall u: Uuid
      ensures Parse(Print(u)) == Some(u)
    {
      ParsePrint(u);
    }
  }

  /** `canonicalBidID`: a parseable ID in canonical form, any other ID unchanged. */
  function Canonical(parse: string -> Option<Uuid>, id: string): string {
    match parse(id)
    case Some(u) => Print(u)
    case None => id
  }

  /** A canonical form is its own canonical form. */
  lemma CanonicalIdempotent(parse: string -> Option<Uuid>, id: string)
    requires Lawful(parse)
    ensures Canonical(parse, Canonical(parse, id)) == Canonical(parse, id)
    ensures parse(Canonical(parse, id)) == parse(id)
  {
  }

  lemma PrintInjective(u: Uuid, v: Uuid)
    requires Print(u) == Print(v)
    ensures u == v
  {
    ParsePrint(u);
    ParsePrint(v);
  }

  /** Two IDs canonicalise alike exactly when they spell one UUID or are the same string. */
  lemma CanonicalEqualIff(parse: string -> Option<Uuid>, a: string, b: string)
    requires Lawful(parse)
    ensures Canonical(parse, a) == Canonical(parse, b)
       <==> a == b || (parse(a).Some? && parse(a) == parse(b))
  {
    if parse(a).Some? && parse(b).Some? && Print(parse(a).value) == Print(parse(b).value) {
      PrintInjective(parse(a).value, parse(b).value);
    }
  }

  /** A canonical form equals a printed UUID exactly when the ID parses to that UUID. */
  lemma CanonicalIsPrintIff(parse: string -> Option<Uuid>, id: string, u: Uuid)
    requires Lawful(parse)
    ensures Canonical(parse, id) == Print(u) <==> parse(id) == Some(u)
  {
    CanonicalEqualIff(parse, id, Print(u));
  }
}
