/** Percent-encoding of internal/s3/sign.go and its inverse (section 2.1 of RFC 3986). */
module UriEncode {
  import opened Basics
  import opened Text

  /** Go strings are byte strings: one char per byte. */
  predicate IsBytes(s: string) {
    forall i :: 0 <= i < |s| ==> s[i] as int < 256
  }

  /** The unreserved characters of section 2.3 of RFC 3986. */
  predicate Unreserved(c: char) {
    'A' <= c <= 'Z' || 'a' <= c <= 'z' || '0' <= c <= '9' || c == '-' || c == '_' || c == '.' || c == '~'
  }

  function HexDigit(n: int): (c: char)
    requires 0 <= n < 16
    ensures '0' <= c <= '9' || 'A' <= c <= 'F'
  {
    if n < 10 then ('0' as int + n) as char else ('A' as int + n - 10) as char
  }

  function HexValue(c: char): int {
    if '0' <= c <= '9' then c as int - '0' as int else if 'A' <= c <= 'F' then c as int - 'A' as int + 10 else 0
  }

  function EncodeChar(c: char, keepSlash: bool): string
    requires c as int < 256
  {
    if Unreserved(c) then [c]
    else if c == '/' && keepSlash then ['/']
    else ['%', HexDigit(c as int / 16), HexDigit(c as int % 16)]
  }

  function Encode(s: string, keepSlash: bool): string
    requires IsBytes(s)
  {
    if s == [] then [] else EncodeChar(s[0], keepSlash) + Encode(s[1..], keepSlash)
  }

  /** uriEncode's loop over a string builder. */
  method UriEncode(s: string, keepSlash: bool) returns (b: string)
    requires IsBytes(s)
    ensures b == Encode(s, keepSlash)
  {
    b := "";
    for i := 0 to |s|
      invariant b == Encode(s[..i], keepSlash)
    {
      var ch := s[i];
      EncodeSnoc(s[..i], ch, keepSlash);
      assert s[..i + 1] == s[..i] + [ch];
      if Unreserved(ch) {
        b := b + [ch];
      } else if ch == '/' && keepSlash {
        b := b + ['/'];
      } else {
        b := b + ['%', HexDigit(ch as int / 16), HexDigit(ch as int % 16)];
      }
    }
    assert s[..|s|] == s;
  }

  lemma {:induction false} EncodeSnoc(s: string, c: char, keepSlash: bool)
    requires IsBytes(s) && c as int < 256
    ensures Encode(s + [c], keepSlash) == Encode(s, keepSlash) + EncodeChar(c, keepSlash)
  {
    if s == [] {
      assert s + [c] == [c] && [c][1..] == [];
    } else {
      EncodeSnoc(s[1..], c, keepSlash);
      assert (s + [c])[1..] == s[1..] + [c];
      ConcatAssociative(EncodeChar(s[0], keepSlash), Encode(s[1..], keepSlash), EncodeChar(c, keepSlash));
    }
  }

  /** Percent-decoding. */
  function Decode(s: string): string {
    if s == [] then []
    else if s[0] == '%' && |s| >= 3 then [((HexValue(s[1]) * 16 + HexValue(s[2])) % 256) as char] + Decode(s[3..])
    else [s[0]] + Decode(s[1..])
  }

  lemma DecodeChar(c: char, keepSlash: bool, rest: string)
    requires c as int < 256
    ensures Decode(EncodeChar(c, keepSlash) + rest) == [c] + Decode(rest)
  {
    var head := EncodeChar(c, keepSlash);
    var e := head + rest;
    if |head| == 3 {
      HexBack(c);
      assert e[0] == '%' && e[1] == head[1] && e[2] == head[2] && e[3..] == rest;
    } else {
      assert e[0] == c && e[1..] == rest;
    }
  }

  lemma {:induction false} DecodeEncode(s: string, keepSlash: bool)
    requires IsBytes(s)
    ensures Decode(Encode(s, keepSlash)) == s
  {
    if s != [] {
      DecodeEncode(s[1..], keepSlash);
      DecodeChar(s[0], keepSlash, Encode(s[1..], keepSlash));
      assert s == [s[0]] + s[1..];
    }
  }

  lemma HexBack(c: char)
    requires c as int < 256
    ensures HexValue(HexDigit(c as int / 16)) * 16 + HexValue(HexDigit(c as int % 16)) == c as int
  {}

  /** What encoding leaves: unreserved characters, '%', and '/' if kept. */
  lemma {:induction false} EncodedAlphabet(s: string, keepSlash: bool)
    requires IsBytes(s)
    ensures forall c :: c in Encode(s, keepSlash) ==> Unreserved(c) || c == '%' || (c == '/' && keepSlash)
  {
    if s != [] { EncodedAlphabet(s[1..], keepSlash); }
  }

  /** canonicalURI. */
  function CanonicalURI(path: string): (r: string)
    requires IsBytes(path)
  {
    if path == "" then "/" else Encode(path, true)
  }

  /** Two paths sign alike only if they are the same, the empty one being the root. */
  lemma CanonicalURIInjective(a: string, b: string)
    requires IsBytes(a) && IsBytes(b)
    ensures CanonicalURI(a) == CanonicalURI(b) <==> a == b || (a == "" && b == "/") || (a == "/" && b == "")
  {
    DecodeEncode(a, true);
    DecodeEncode(b, true);
    assert Encode("/", true) == "/" by { assert "/"[1..] == ""; }
    DecodeEncode("/", true);
  }

  /** An upper-case hexadecimal digit and its value. */
  ghost predicate IsHex(c: char, n: int) { 0 <= n < 16 && c == "0123456789ABCDEF"[n] }

  /** A letter, a digit, one of -_.~ and a slash that is kept stand for themselves; any
      other byte is spelled in hexadecimal behind a percent sign. */
  ghost predicate Spells(c: char, keepSlash: bool, e: string) {
    if 'A' <= c <= 'Z' || 'a' <= c <= 'z' || '0' <= c <= '9' || c in "-_.~" || (c == '/' && keepSlash) then e == [c]
    else |e| == 3 && e[0] == '%' && exists high, low :: IsHex(e[1], high) && IsHex(e[2], low) && 16 * high + low == c as int
  }

  ghost predicate SpellsAll(s: string, keepSlash: bool, pieces: seq<string>) {
    |pieces| == |s| && forall i :: 0 <= i < |s| ==> Spells(s[i], keepSlash, pieces[i])
  }

  lemma DigitIsHex(n: int)
    requires 0 <= n < 16
    ensures IsHex(HexDigit(n), n)
  {}

  lemma CharSpelled(c: char, keepSlash: bool)
    requires c as int < 256
    ensures Spells(c, keepSlash, EncodeChar(c, keepSlash))
  {
    var high, low, e := c as int / 16, c as int % 16, EncodeChar(c, keepSlash);
    DigitIsHex(high);
    DigitIsHex(low);
    if |e| == 3 { assert IsHex(e[1], high) && IsHex(e[2], low) && 16 * high + low == c as int; }
  }

  /** Encoding spells the string byte by byte. */
  lemma {:induction false} EncodedExactly(s: string, keepSlash: bool) returns (pieces: seq<string>)
    requires IsBytes(s)
    ensures SpellsAll(s, keepSlash, pieces) && Encode(s, keepSlash) == Flatten(pieces)
  {
    pieces := [];
    if s != [] {
      var rest := EncodedExactly(s[1..], keepSlash);
      var first := EncodeChar(s[0], keepSlash);
      pieces := [first] + rest;
      CharSpelled(s[0], keepSlash);
      SpellsCons(s, keepSlash, first, rest);
      FlattenCons(first, rest);
    }
  }

  lemma SpellsCons(s: string, keepSlash: bool, first: string, rest: seq<string>)
    requires s != [] && Spells(s[0], keepSlash, first) && SpellsAll(s[1..], keepSlash, rest)
    ensures SpellsAll(s, keepSlash, [first] + rest)
  {
    var pieces := [first] + rest;
    forall i | 0 <= i < |s| ensures Spells(s[i], keepSlash, pieces[i]) {
      if i > 0 { assert s[i] == s[1..][i - 1] && pieces[i] == rest[i - 1]; }
    }
  }
}
