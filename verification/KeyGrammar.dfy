/**
 The grammar of terminal input the decoder reads, stated on its own: plain
 bytes, UTF-8 runes (section 3 of RFC 3629), control sequences (section 5.4 of
 ECMA-48), SS3 sequences and a bare Escape. The decoder computes the one and
 only reading of a buffer in this grammar.
 */
module KeyGrammar {
  import opened Basics
  import opened KeyDecoder

  // ------------------------------------------------------------------ UTF-8

  ghost predicate IsScalar(cp: int) {
    0x80 <= cp <= 0x10FFFF && !(0xD800 <= cp <= 0xDFFF)
  }

  /** UTF-8 of a scalar value outside ASCII, six bits a byte from the end. */
  ghost function Utf8(cp: int): seq<byte>
    requires IsScalar(cp)
  {
    var low, q := (0x80 + cp % 64) as byte, cp / 64;
    if cp < 0x800 then [(0xC0 + q) as byte, low]
    else
      var mid, r := (0x80 + q % 64) as byte, q / 64;
      if cp < 0x10000 then [(0xE0 + r) as byte, mid, low]
      else [(0xF0 + r / 64) as byte, (0x80 + r % 64) as byte, mid, low]
  }

  ghost function ScalarAt(buf: seq<byte>): int
    requires buf != [] && buf[0] >= 0x80 && RuneSize(buf) > 1
  {
    var n := RuneSize(buf);
    if n == 2 then Join(buf[0] as int - 0xC0, buf[1])
    else if n == 3 then Join(Join(buf[0] as int - 0xE0, buf[1]), buf[2])
    else Join(Join(Join(buf[0] as int - 0xF0, buf[1]), buf[2]), buf[3])
  }

  ghost function Join(high: int, b: byte): int { high * 64 + (b as int - 0x80) }

  lemma JoinSplits(high: int, b: byte)
    requires Continues(b)
    ensures Join(high, b) / 64 == high && Join(high, b) % 64 == b as int - 0x80
  {}

  lemma Rune2IsUtf8(buf: seq<byte>)
    requires buf != [] && buf[0] >= 0x80 && RuneSize(buf) == 2
    ensures IsScalar(ScalarAt(buf)) && Utf8(ScalarAt(buf)) == buf[..2]
  {
    JoinSplits(buf[0] as int - 0xC0, buf[1]);
  }

  lemma Rune3IsUtf8(buf: seq<byte>)
    requires buf != [] && buf[0] >= 0x80 && RuneSize(buf) == 3
    ensures IsScalar(ScalarAt(buf)) && Utf8(ScalarAt(buf)) == buf[..3]
  {
    var high := Join(buf[0] as int - 0xE0, buf[1]);
    JoinSplits(buf[0] as int - 0xE0, buf[1]);
    JoinSplits(high, buf[2]);
    assert ScalarAt(buf) == Join(high, buf[2]);
    assert 0x20 <= high < 0x400 && !(0x360 <= high < 0x380);
  }

  lemma Rune4IsUtf8(buf: seq<byte>)
    requires buf != [] && buf[0] >= 0x80 && RuneSize(buf) == 4
    ensures IsScalar(ScalarAt(buf)) && Utf8(ScalarAt(buf)) == buf[..4]
  {
    var lead := buf[0] as int - 0xF0;
    var top := Join(lead, buf[1]);
    var high := Join(top, buf[2]);
    var cp := Join(high, buf[3]);
    assert ScalarAt(buf) == cp;
    assert 0x10 <= top < 0x110;
    assert 0x400 <= high < 0x4400;
    assert 0x10000 <= cp < 0x110000;
    assert top / 64 == lead && top % 64 == buf[1] as int - 0x80 by { JoinSplits(lead, buf[1]); }
    assert high / 64 == top && high % 64 == buf[2] as int - 0x80 by { JoinSplits(top, buf[2]); }
    assert cp / 64 == high && cp % 64 == buf[3] as int - 0x80 by { JoinSplits(high, buf[3]); }
  }

  lemma RuneIsUtf8(buf: seq<byte>)
    requires buf != [] && buf[0] >= 0x80 && RuneSize(buf) > 1
    ensures IsScalar(ScalarAt(buf)) && Utf8(ScalarAt(buf)) == buf[..RuneSize(buf)]
  {
    var n := RuneSize(buf);
    if n == 2 { Rune2IsUtf8(buf); } else if n == 3 { Rune3IsUtf8(buf); } else { Rune4IsUtf8(buf); }
  }

  lemma Utf8Shape(cp: int)
    requires IsScalar(cp)
    ensures var u := Utf8(cp); u[0] >= 0x80 && RuneSize(u) == |u| > 1 && ScalarAt(u) == cp
  {
    var q := cp / 64;
    assert cp == q * 64 + cp % 64;
    if cp >= 0x800 {
      var r := q / 64;
      assert q == r * 64 + q % 64;
      if cp >= 0x10000 { Utf8Shape4(cp); } else { Utf8Shape3(cp); }
    }
  }

  lemma Utf8Shape3(cp: int)
    requires IsScalar(cp) && 0x800 <= cp < 0x10000
    ensures var u := Utf8(cp); u[0] >= 0x80 && RuneSize(u) == |u| == 3 && ScalarAt(u) == cp
  {
    var q := cp / 64;
    var r := q / 64;
    assert cp == q * 64 + cp % 64 && q == r * 64 + q % 64;
    assert 0x20 <= q < 0x400 && !(0x360 <= q < 0x380);
    assert r == 0 ==> q % 64 >= 0x20;
    assert r == 13 ==> q % 64 < 0x20;
  }

  lemma Utf8Shape4(cp: int)
    requires IsScalar(cp) && cp >= 0x10000
    ensures var u := Utf8(cp); u[0] >= 0x80 && RuneSize(u) == |u| == 4 && ScalarAt(u) == cp
  {
    var q := cp / 64;
    var r := q / 64;
    var t := r / 64;
    assert cp == q * 64 + cp % 64 && q == r * 64 + q % 64 && r == t * 64 + r % 64;
    assert 0x10 <= r < 0x110;
    assert t == 0 ==> r % 64 >= 0x10;
    assert t == 4 ==> r % 64 < 0x10;
  }

  lemma Utf8IsRune(cp: int, buf: seq<byte>)
    requires IsScalar(cp) && Utf8(cp) <= buf
    ensures buf[0] >= 0x80 && RuneSize(buf) == |Utf8(cp)| > 1 && ScalarAt(buf) == cp
  {
    Utf8Shape(cp);
    RunePrefix(Utf8(cp), buf);
  }

  lemma RunePrefix(u: seq<byte>, buf: seq<byte>)
    requires u != [] && u <= buf && u[0] >= 0x80 && RuneSize(u) == |u| > 1
    ensures RuneSize(buf) == |u| && ScalarAt(buf) == ScalarAt(u)
  {
    assert forall i :: 0 <= i < |u| ==> buf[i] == u[i];
  }

  // ----------------------------------------------------------------- tokens

  datatype Token =
    | Plain(b: byte)
    | Rune(cp: int)
    | Csi(mid: seq<byte>, final: byte)
    | Ss3(b: byte)
    | Escape

  ghost predicate WellFormed(t: Token) {
    match t
    case Plain(b) => b < 0x80 && b != ESC
    case Rune(cp) => IsScalar(cp)
    case Csi(mid, final) => IsFinal(final) && forall i :: 0 <= i < |mid| ==> !IsFinal(mid[i])
    case Ss3(_) => true
    case Escape => true
  }

  ghost function Spelling(t: Token): seq<byte>
    requires WellFormed(t)
  {
    match t
    case Plain(b) => [b]
    case Rune(cp) => Utf8(cp)
    case Csi(mid, final) => [ESC, 0x5B] + mid + [final]
    case Ss3(b) => [ESC, 0x4F, b]
    case Escape => [ESC]
  }

  /** A bare Escape is recognised only by what follows it. */
  ghost predicate FollowedBy(t: Token, next: seq<byte>) {
    t.Escape? ==> next != [] && next[0] != 0x5B && next[0] != 0x4F
  }

  ghost predicate Starts(t: Token, buf: seq<byte>) {
    WellFormed(t) && Spelling(t) <= buf && FollowedBy(t, buf[|Spelling(t)|..])
  }

  /** The digits of the first parameter: those before any semicolon. */
  ghost function FirstParam(mid: seq<byte>): seq<byte> {
    if mid == [] then []
    else
      var init, c := mid[..|mid| - 1], mid[|mid| - 1];
      if IsDigit(c) && SEMICOLON !in init then FirstParam(init) + [c] else FirstParam(init)
  }

  ghost function Numeral(digits: seq<byte>): int {
    if digits == [] then 0 else Numeral(digits[..|digits| - 1]) * 10 + (digits[|digits| - 1] as int - 0x30)
  }

  /** What a token means as a key: the parameter is a 64-bit number. */
  ghost function KeyOf(t: Token): int {
    match t
    case Plain(b) => b as int
    case Rune(_) => KEY_UNKNOWN
    case Csi(mid, final) =>
      if final != TILDE then CsiKey(final)
      else if FirstParam(mid) == [] then KEY_UNKNOWN
      else TildeKey(Wrap64(Numeral(FirstParam(mid))))
    case Ss3(b) => CsiKey(b)
    case Escape => KEY_ESCAPE
  }

  lemma WrapStep(x: int, d: int)
    ensures Wrap64(Wrap64(Wrap64(x) * 10) + d) == Wrap64(x * 10 + d)
  {
    var m := 0x1_0000_0000_0000_0000;
    var k := (x + 0x8000_0000_0000_0000) / m;
    assert Wrap64(x) == x - k * m;
    WrapShift(x * 10, -(k * 10));
    var y := Wrap64(x) * 10;
    assert y == x * 10 + -(k * 10) * m;
    var j := (y + 0x8000_0000_0000_0000) / m;
    assert Wrap64(y) == y - j * m;
    WrapShift(y + d, -j);
    WrapShift(x * 10 + d, -(k * 10));
  }

  lemma WrapShift(x: int, k: int)
    ensures Wrap64(x + k * 0x1_0000_0000_0000_0000) == Wrap64(x)
  {}

  lemma FirstParamSnoc(init: seq<byte>, c: byte)
    ensures FirstParam(init + [c]) == if IsDigit(c) && SEMICOLON !in init then FirstParam(init) + [c] else FirstParam(init)
  {
    assert (init + [c])[..|init|] == init;
  }

  lemma NumeralSnoc(digits: seq<byte>, c: byte)
    ensures Numeral(digits + [c]) == Numeral(digits) * 10 + (c as int - 0x30)
  {
    assert (digits + [c])[..|digits|] == digits;
  }

  /** The scan so far stands for the first parameter so far. */
  ghost predicate Stands(s: Scan, mid: seq<byte>) {
    && (s.sawSemi <==> SEMICOLON in mid)
    && (s.haveParam <==> FirstParam(mid) != [])
    && s.param == Wrap64(Numeral(FirstParam(mid)))
  }

  lemma StandsNext(s: Scan, init: seq<byte>, c: byte)
    requires Stands(s, init)
    ensures Stands(ScanByte(s, c), init + [c])
  {
    FirstParamSnoc(init, c);
    if IsDigit(c) && !s.sawSemi {
      NumeralSnoc(FirstParam(init), c);
      WrapStep(Numeral(FirstParam(init)), c as int - 0x30);
    }
  }

  /** The running scan agrees with reading the first parameter at once. */
  lemma {:induction false} ScanReadsFirstParam(mid: seq<byte>)
    ensures Stands(ScanAll(mid), mid)
  {
    if mid != [] {
      var init, c := mid[..|mid| - 1], mid[|mid| - 1];
      ScanReadsFirstParam(init);
      StandsNext(ScanAll(init), init, c);
      assert mid == init + [c];
    }
  }

  /** The token a complete front spells. */
  ghost function TokenAt(buf: seq<byte>): Token
    requires buf != [] && NextKey(buf).Some?
  {
    if buf[0] < 0x80 && buf[0] != ESC then Plain(buf[0])
    else if buf[0] != ESC then Rune(ScalarAt(buf))
    else if buf[1] == 0x5B then var k := FinalIndex(buf, 2); Csi(buf[2..k], buf[k])
    else if buf[1] == 0x4F then Ss3(buf[2])
    else Escape
  }

  lemma TokenAtStarts(buf: seq<byte>)
    requires buf != [] && NextKey(buf).Some?
    ensures Starts(TokenAt(buf), buf)
    ensures NextKey(buf) == Some((KeyOf(TokenAt(buf)), |Spelling(TokenAt(buf))|))
  {
    if buf[0] >= 0x80 {
      RuneIsUtf8(buf);
    } else if buf[0] == ESC && buf[1] == 0x5B {
      var k := FinalIndex(buf, 2);
      ScanReadsFirstParam(buf[2..k]);
      assert [ESC, 0x5B] + buf[2..k] + [buf[k]] == buf[..k + 1];
    }
  }

  lemma StartsIsTokenAt(t: Token, buf: seq<byte>)
    requires Starts(t, buf)
    ensures buf != [] && NextKey(buf).Some? && TokenAt(buf) == t
  {
    match t {
      case Plain(b) => assert buf[0] == Spelling(t)[0];
      case Rune(cp) => Utf8IsRune(cp, buf);
      case Csi(mid, final) =>
        var k := |mid| + 2;
        assert forall i :: 0 <= i <= k ==> buf[i] == Spelling(t)[i];
        FinalIs(buf, k);
        assert buf[2..k] == mid;
      case Ss3(b) => assert forall i :: 0 <= i < 3 ==> buf[i] == Spelling(t)[i];
      case Escape => assert buf[0] == Spelling(t)[0];
    }
  }

  // --------------------------------------------------------------- readings

  /** `ts` reads a prefix of `buf`, leaving `rest`, and no token starts there. */
  ghost predicate Reads(ts: seq<Token>, buf: seq<byte>, rest: seq<byte>)
    decreases |ts|
  {
    if ts == [] then buf == rest && forall t :: !Starts(t, buf)
    else Starts(ts[0], buf) && Reads(ts[1..], buf[|Spelling(ts[0])|..], rest)
  }

  ghost function KeysOf(ts: seq<Token>): seq<int> {
    if ts == [] then [] else [KeyOf(ts[0])] + KeysOf(ts[1..])
  }

  ghost function Tokens(buf: seq<byte>): seq<Token>
    decreases |buf|
  {
    if buf == [] || NextKey(buf).None? then [] else [TokenAt(buf)] + Tokens(buf[NextKey(buf).value.1..])
  }

  ghost function SpellingOf(ts: seq<Token>): seq<byte> {
    if ts == [] then [] else (if WellFormed(ts[0]) then Spelling(ts[0]) else []) + SpellingOf(ts[1..])
  }

  /** decodeKeys computes a reading of the buffer: its keys are the meanings of
      the tokens, and what it holds back is what no token starts. */
  lemma {:induction false} DecodeReads(buf: seq<byte>)
    ensures Reads(Tokens(buf), buf, Decode(buf).rest)
    ensures Decode(buf).keys == KeysOf(Tokens(buf))
    decreases |buf|
  {
    if buf == [] || NextKey(buf).None? {
      forall t ensures !Starts(t, buf) {
        if Starts(t, buf) { StartsIsTokenAt(t, buf); }
      }
    } else {
      TokenAtStarts(buf);
      var n := NextKey(buf).value.1;
      DecodeReads(buf[n..]);
      var ts := Tokens(buf);
      assert ts[0] == TokenAt(buf) && ts[1..] == Tokens(buf[n..]);
    }
  }

  /** There is no other reading, so no other keys. */
  lemma {:induction false} ReadingIsUnique(ts: seq<Token>, buf: seq<byte>, rest: seq<byte>)
    requires Reads(ts, buf, rest)
    ensures ts == Tokens(buf) && rest == Decode(buf).rest && KeysOf(ts) == Decode(buf).keys
    decreases |ts|
  {
    if ts == [] {
      if buf != [] && NextKey(buf).Some? {
        TokenAtStarts(buf);
        assert false;
      }
    } else {
      StartsIsTokenAt(ts[0], buf);
      TokenAtStarts(buf);
      ReadingIsUnique(ts[1..], buf[|Spelling(ts[0])|..], rest);
    }
  }

  lemma PrefixAndRest(head: seq<byte>, tail: seq<byte>, rest: seq<byte>, buf: seq<byte>)
    requires head <= buf && buf[|head|..] == tail + rest
    ensures buf == head + tail + rest
  {
    assert buf == head + buf[|head|..];
  }

  /** Every byte belongs to exactly one token or is held back. */
  lemma {:induction false} BytesAccounted(ts: seq<Token>, buf: seq<byte>, rest: seq<byte>)
    requires Reads(ts, buf, rest)
    ensures buf == SpellingOf(ts) + rest
    decreases |ts|
  {
    if ts != [] {
      var head, tail := Spelling(ts[0]), SpellingOf(ts[1..]);
      BytesAccounted(ts[1..], buf[|head|..], rest);
      PrefixAndRest(head, tail, rest, buf);
    }
  }

  // ------------------------------------------------------- what is held back

  /** Bytes some continuation could turn into a key. */
  ghost predicate Completable(held: seq<byte>) {
    exists more: seq<byte> :: held + more != [] && NextKey(held + more).Some?
  }

  /** A proper beginning of some UTF-8 sequence. */
  predicate RuneBeginning(held: seq<byte>)
    requires held != []
  {
    && |held| < AnnouncedLength(held[0])
    && (|held| >= 2 ==> SecondFits(held[0], held[1]))
    && (|held| >= 3 ==> Continues(held[2]))
  }

  /** Which held bytes can still complete: an escape sequence always, other
      bytes exactly when they begin a UTF-8 sequence. */
  lemma CompletableExactly(held: seq<byte>)
    requires held != [] && NextKey(held).None?
    ensures Completable(held) <==> held[0] == ESC || RuneBeginning(held)
  {
    if held[0] == ESC {
      EscapeCompletes(held);
    } else if RuneBeginning(held) {
      BeginningCompletes(held);
    } else {
      forall more: seq<byte> ensures NextKey(held + more).None? {
        var buf := held + more;
        assert forall i :: 0 <= i < |held| ==> buf[i] == held[i];
        assert RuneSize(held) == 1;
        assert RuneSize(buf) == 1;
      }
    }
  }

  lemma EscapeCompletes(held: seq<byte>)
    requires held != [] && held[0] == ESC && NextKey(held).None?
    ensures Completable(held)
  {
    var more: seq<byte> := [0x41, 0x41];
    var buf := held + more;
    if |held| >= 2 && held[1] == 0x5B {
      assert IsFinal(buf[|held|]) && FinalIndex(buf, 2) < |buf|;
    }
    assert NextKey(held + more).Some?;
  }

  lemma BeginningCompletes(held: seq<byte>)
    requires held != [] && held[0] >= 0x80 && RuneBeginning(held)
    ensures Completable(held)
  {
    var n := AnnouncedLength(held[0]);
    var second: byte := if held[0] == 0xE0 then 0xA0 else if held[0] == 0xF0 then 0x90 else 0x80;
    var more: seq<byte> := [second, 0x80, 0x80];
    if |held| > 1 { more := [0x80, 0x80]; }
    var buf := held + more;
    assert buf[1] == if |held| > 1 then held[1] else second;
    assert RuneSize(buf) == n;
    assert NextKey(held + more).Some?;
  }

  /** Bytes that can never complete swallow everything typed after them,
      the quit and interrupt keys included. */
  lemma WedgedForever(a: seq<byte>, b: seq<byte>)
    requires Decode(a).rest != [] && !Completable(Decode(a).rest)
    ensures Decode(a + b) == Decoded(Decode(a).keys, Decode(a).rest + b)
  {
    var held := Decode(a).rest;
    DecodeSplit(a, b);
    assert NextKey(held + b).None?;
    AfterNothing(Decode(a).keys, held + b);
  }

  /** The smallest such input: one stray byte 0xFF. */
  lemma StrayByteWedges(b: seq<byte>)
    ensures DecodeStream([0xFF] + b) == []
  {
    assert Decode([0xFF]) == Decoded([], [0xFF]);
    CompletableExactly([0xFF]);
    WedgedForever([0xFF], b);
  }

  // ---------------------------------------------------------- the named keys

  /** The keys that end a sequence with a letter: the arrows, End and Home. */
  ghost const LETTER_KEYS: map<byte, int> :=
    map[0x41 := 0x100, 0x42 := 0x101, 0x43 := 0x102, 0x44 := 0x103, 0x46 := 0x107, 0x48 := 0x106]

  /** The keys that are numbered: Home, End, page up, page down, Home, End. */
  ghost const NUMBER_KEYS: map<int, int> := map[1 := 0x106, 4 := 0x107, 5 := 0x104, 6 := 0x105, 7 := 0x106, 8 := 0x107]

  lemma NamedKeys(c: byte, n: int)
    ensures CsiKey(c) == if c in LETTER_KEYS then LETTER_KEYS[c] else 0x109
    ensures TildeKey(n) == if n in NUMBER_KEYS then NUMBER_KEYS[n] else 0x109
  {}

  /** A letter sequence of either kind is its key, whatever follows. */
  lemma LettersRead(c: byte, rest: seq<byte>)
    requires 0x40 <= c < 0x7E
    ensures var key := if c in LETTER_KEYS then LETTER_KEYS[c] else 0x109;
      NextKey([0x1B, 0x5B, c] + rest) == NextKey([0x1B, 0x4F, c] + rest) == Some((key, 3))
  {
    NamedKeys(c, 0);
    var buf := [0x1B, 0x5B, c] + rest;
    FinalIs(buf, 2);
    assert buf[2] == c;
  }

  /** So is a numbered one. */
  lemma NumbersRead(d: byte, rest: seq<byte>)
    requires 0 <= d < 10
    ensures NextKey([0x1B, 0x5B, 0x30 + d, 0x7E] + rest) == Some((if d as int in NUMBER_KEYS then NUMBER_KEYS[d as int] else 0x109, 4))
  {
    NamedKeys(0, d as int);
    var buf := [0x1B, 0x5B, 0x30 + d, 0x7E] + rest;
    FinalIs(buf, 3);
    assert buf[2..3] == [] + [0x30 + d];
    ScanSnoc([], 0x30 + d);
  }

  lemma ModifierScanned(d: byte, modifier: byte)
    requires 0 <= d < 10 && 0 <= modifier < 10
    ensures ScanAll([0x30 + d, 0x3B, 0x30 + modifier]) == Scan(d as int, true, true)
  {
    ScanSnoc([], 0x30 + d);
    ScanSnoc([0x30 + d], 0x3B);
    ScanSnoc([0x30 + d, 0x3B], 0x30 + modifier);
    assert [] + [0x30 + d] == [0x30 + d] && [0x30 + d] + [0x3B] == [0x30 + d, 0x3B];
    assert [0x30 + d, 0x3B] + [0x30 + modifier] == [0x30 + d, 0x3B, 0x30 + modifier];
  }

  /** And one with a modifier behind a semicolon. */
  lemma ModifiedRead(d: byte, modifier: byte, rest: seq<byte>)
    requires 0 <= d < 10 && 0 <= modifier < 10
    ensures NextKey([0x1B, 0x5B, 0x30 + d, 0x3B, 0x30 + modifier, 0x7E] + rest)
         == Some((if d as int in NUMBER_KEYS then NUMBER_KEYS[d as int] else 0x109, 6))
  {
    NamedKeys(0, d as int);
    var buf := [0x1B, 0x5B, 0x30 + d, 0x3B, 0x30 + modifier, 0x7E] + rest;
    FinalIs(buf, 5);
    assert buf[2..5] == [0x30 + d, 0x3B, 0x30 + modifier];
    ModifierScanned(d, modifier);
  }
}
