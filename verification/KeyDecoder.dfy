/**
 The streaming key decoder of internal/watch/keycode.go: raw terminal bytes to
 keypresses, holding back an incomplete sequence between reads.
 */
module KeyDecoder {
  import opened Basics

  const ESC: byte := 0x1b
  const KEY_UP := 0x100
  const KEY_DOWN := 0x101
  const KEY_RIGHT := 0x102
  const KEY_LEFT := 0x103
  const KEY_PAGE_UP := 0x104
  const KEY_PAGE_DOWN := 0x105
  const KEY_HOME := 0x106
  const KEY_END := 0x107
  const KEY_ESCAPE := 0x108
  const KEY_UNKNOWN := 0x109

  /** csiKeys: the final byte of a sequence without parameters. */
  function CsiKey(c: byte): int {
    if c == 0x41 then KEY_UP else if c == 0x42 then KEY_DOWN else if c == 0x43 then KEY_RIGHT
    else if c == 0x44 then KEY_LEFT else if c == 0x48 then KEY_HOME else if c == 0x46 then KEY_END
    else KEY_UNKNOWN
  }

  /** tildeKeys: the parameter of a sequence that ends in '~'. */
  function TildeKey(param: int): int {
    if param == 1 || param == 7 then KEY_HOME else if param == 4 || param == 8 then KEY_END
    else if param == 5 then KEY_PAGE_UP else if param == 6 then KEY_PAGE_DOWN
    else KEY_UNKNOWN
  }

  // ------------------------------------------------------------------ UTF-8

  /** The length a lead byte announces, 0 for a byte that leads nothing. */
  function AnnouncedLength(lead: byte): nat {
    if 0xC2 <= lead <= 0xDF then 2 else if 0xE0 <= lead <= 0xEF then 3 else if 0xF0 <= lead <= 0xF4 then 4 else 0
  }

  predicate Continues(b: byte) { 0x80 <= b <= 0xBF }

  predicate SecondFits(lead: byte, b: byte) {
    && Continues(b)
    && (lead == 0xE0 ==> 0xA0 <= b) && (lead == 0xED ==> b <= 0x9F)
    && (lead == 0xF0 ==> 0x90 <= b) && (lead == 0xF4 ==> b <= 0x8F)
  }

  /** The size utf8.DecodeRune reports for a lead byte outside ASCII: 1 both for
      an incomplete and for an invalid sequence. */
  function RuneSize(buf: seq<byte>): (n: nat)
    requires buf != [] && buf[0] >= 0x80
    ensures 1 <= n <= 4 && n <= |buf|
  {
    var n := AnnouncedLength(buf[0]);
    if n == 0 || |buf| < n then 1
    else if !SecondFits(buf[0], buf[1]) then 1
    else if n >= 3 && !Continues(buf[2]) then 1
    else if n >= 4 && !Continues(buf[3]) then 1
    else n
  }

  // --------------------------------------------------------------- decoding

  /** The key at the front of the buffer and the bytes it takes, if complete. */
  type Front = Option<(int, nat)>

  predicate IsDigit(c: byte) { 0x30 <= c <= 0x39 }

  predicate IsFinal(c: byte) { 0x40 <= c <= 0x7E }

  const SEMICOLON: byte := 0x3B
  const TILDE: byte := 0x7E

  /** Go's int: 64-bit two's complement. */
  function Wrap64(x: int): int {
    (x + 0x8000_0000_0000_0000) % 0x1_0000_0000_0000_0000 - 0x8000_0000_0000_0000
  }

  /** The parameter scan of decodeCSI: the value so far, whether a digit was
      seen, and whether a semicolon was. */
  datatype Scan = Scan(param: int, haveParam: bool, sawSemi: bool)

  function ScanByte(s: Scan, c: byte): Scan {
    if IsDigit(c) then
      if s.sawSemi then s else s.(param := Wrap64(Wrap64(s.param * 10) + (c as int - 0x30)), haveParam := true)
    else if c == SEMICOLON then s.(sawSemi := true)
    else s
  }

  function ScanAll(mid: seq<byte>): Scan {
    if mid == [] then Scan(0, false, false) else ScanByte(ScanAll(mid[..|mid| - 1]), mid[|mid| - 1])
  }

  function CsiResult(s: Scan, final: byte): int {
    if final == TILDE then (if s.haveParam then TildeKey(s.param) else KEY_UNKNOWN) else CsiKey(final)
  }

  /** The index of the byte that ends the control sequence, or the length. */
  function FinalIndex(buf: seq<byte>, i: nat): (k: nat)
    requires i <= |buf|
    ensures i <= k <= |buf|
    ensures k < |buf| ==> IsFinal(buf[k])
    ensures forall j :: i <= j < k ==> !IsFinal(buf[j])
    decreases |buf| - i
  {
    if i == |buf| || IsFinal(buf[i]) then i else FinalIndex(buf, i + 1)
  }

  function CsiFront(buf: seq<byte>): Front
    requires |buf| >= 2
  {
    var k := FinalIndex(buf, 2);
    if k == |buf| then None else Some((CsiResult(ScanAll(buf[2..k]), buf[k]), k + 1))
  }

  function EscapeFront(buf: seq<byte>): Front
    requires buf != []
  {
    if |buf| == 1 then None
    else if buf[1] == 0x5B then CsiFront(buf)
    else if buf[1] == 0x4F then (if |buf| < 3 then None else Some((CsiKey(buf[2]), 3)))
    else Some((KEY_ESCAPE, 1))
  }

  function NextKey(buf: seq<byte>): (f: Front)
    requires buf != []
    ensures f.Some? ==> 0 < f.value.1 <= |buf|
  {
    if buf[0] == ESC then EscapeFront(buf)
    else if buf[0] < 0x80 then Some((buf[0] as int, 1))
    else if RuneSize(buf) == 1 then None
    else Some((KEY_UNKNOWN, RuneSize(buf)))
  }

  datatype Decoded = Decoded(keys: seq<int>, rest: seq<byte>)

  /** decodeKeys: the keys in a buffer and the bytes held for the next read. */
  function Decode(buf: seq<byte>): Decoded
    decreases |buf|
  {
    if buf == [] then Decoded([], [])
    else match NextKey(buf)
      case None => Decoded([], buf)
      case Some((key, n)) => var d := Decode(buf[n..]); Decoded([key] + d.keys, d.rest)
  }

  /** What a stream means as a whole: a lone ESC left at the end is Escape. */
  function DecodeStream(buf: seq<byte>): seq<int> {
    var d := Decode(buf);
    d.keys + (if d.rest == [ESC] then [KEY_ESCAPE] else [])
  }

  // ------------------------------------------- the loops, against the meaning

  method DecodeCSI(buf: seq<byte>) returns (f: Front)
    requires |buf| >= 2
    ensures f == CsiFront(buf)
  {
    var param, haveParam, sawSemi := 0, false, false;
    for i := 2 to |buf|
      invariant forall j :: 2 <= j < i ==> !IsFinal(buf[j])
      invariant Scan(param, haveParam, sawSemi) == ScanAll(buf[2..i])
    {
      var c := buf[i];
      ScanSnoc(buf[2..i], c);
      assert buf[2..i + 1] == buf[2..i] + [c];
      if IsDigit(c) {
        if !sawSemi {
          param := Wrap64(Wrap64(param * 10) + (c as int - 0x30));
          haveParam := true;
        }
        continue;
      }
      if c == SEMICOLON {
        sawSemi := true;
        continue;
      }
      if c == TILDE {
        FinalIs(buf, i);
        return Some((if haveParam then TildeKey(param) else KEY_UNKNOWN, i + 1));
      }
      if 0x40 <= c && c <= TILDE {
        FinalIs(buf, i);
        return Some((CsiKey(c), i + 1));
      }
    }
    FinalIs(buf, |buf|);
    f := None;
  }

  lemma ScanSnoc(mid: seq<byte>, c: byte)
    ensures ScanAll(mid + [c]) == ScanByte(ScanAll(mid), c)
  {
    assert (mid + [c])[..|mid|] == mid;
  }

  lemma FinalIs(buf: seq<byte>, k: nat)
    requires 2 <= k <= |buf|
    requires forall j :: 2 <= j < k ==> !IsFinal(buf[j])
    requires k < |buf| ==> IsFinal(buf[k])
    ensures FinalIndex(buf, 2) == k
  {}

  /** A result with keys emitted before it. */
  function After(keys: seq<int>, d: Decoded): Decoded {
    Decoded(keys + d.keys, d.rest)
  }

  lemma Advance(keys: seq<int>, todo: seq<byte>, key: int, n: nat)
    requires todo != [] && NextKey(todo) == Some((key, n))
    ensures After(keys, Decode(todo)) == After(keys + [key], Decode(todo[n..]))
  {
    var d := Decode(todo[n..]);
    assert Decode(todo).keys == [key] + d.keys;
    assert keys + ([key] + d.keys) == keys + [key] + d.keys;
  }

  lemma AfterNothing(keys: seq<int>, rest: seq<byte>)
    requires rest == [] || NextKey(rest).None?
    ensures After(keys, Decode(rest)) == Decoded(keys, rest)
  {
    assert keys + [] == keys;
  }

  method DecodeKeys(buf: seq<byte>) returns (keys: seq<int>, rest: seq<byte>)
    ensures Decoded(keys, rest) == Decode(buf)
  {
    keys, rest := [], buf;
    var i := 0;
    assert [] + Decode(buf).keys == Decode(buf).keys;
    while i < |buf|
      invariant 0 <= i <= |buf| && rest == buf[i..]
      invariant Decode(buf) == After(keys, Decode(rest))
    {
      var front := DecodeFront(rest);
      if front.None? {
        AfterNothing(keys, rest);
        return;
      }
      Advance(keys, rest, front.value.0, front.value.1);
      assert rest[front.value.1..] == buf[i + front.value.1..];
      keys, i := keys + [front.value.0], i + front.value.1;
      rest := buf[i..];
    }
    AfterNothing(keys, rest);
  }

  /** One turn of the loop: an ASCII byte, a whole rune, or an escape sequence. */
  method DecodeFront(buf: seq<byte>) returns (f: Front)
    requires buf != []
    ensures f == NextKey(buf)
  {
    var b := buf[0];
    if b != ESC {
      if b < 0x80 {
        return Some((b as int, 1));
      }
      var size := RuneSize(buf);
      if size == 1 {
        return None;
      }
      return Some((KEY_UNKNOWN, size));
    }
    f := DecodeEscape(buf);
  }

  method DecodeEscape(buf: seq<byte>) returns (f: Front)
    requires buf != []
    ensures f == EscapeFront(buf)
  {
    if |buf| == 1 {
      return None;
    }
    if buf[1] == 0x5B {
      f := DecodeCSI(buf);
    } else if buf[1] == 0x4F {
      f := if |buf| < 3 then None else Some((CsiKey(buf[2]), 3));
    } else {
      f := Some((KEY_ESCAPE, 1));
    }
  }

  /** readKeys: `chunks` are the chunks src.Read delivers before it fails. However
      the stream is cut, the keys are those of the stream as a whole. */
  method ReadKeys(chunks: seq<seq<byte>>) returns (keys: seq<int>)
    ensures keys == DecodeStream(Flatten(chunks))
  {
    keys := [];
    var held: seq<byte> := [];
    for k := 0 to |chunks|
      invariant Decoded(keys, held) == Decode(Flatten(chunks[..k]))
    {
      ghost var before := Flatten(chunks[..k]);
      FlattenSnoc(chunks[..k], chunks[k]);
      assert chunks[..k + 1] == chunks[..k] + [chunks[k]];
      DecodeSplit(before, chunks[k]);
      if |chunks[k]| > 0 {
        var more;
        more, held := DecodeKeys(held + chunks[k]);
        keys := keys + more;
      } else {
        assert before + chunks[k] == before;
      }
    }
    assert chunks[..|chunks|] == chunks;
    if |held| == 1 && held[0] == ESC {
      keys := keys + [KEY_ESCAPE];
    }
  }

  // ---------------------------------------------------- split independence

  /** A complete key stays what it is when more bytes arrive. */
  lemma NextKeyStable(a: seq<byte>, b: seq<byte>)
    requires a != [] && NextKey(a).Some?
    ensures NextKey(a + b) == NextKey(a)
  {
    if a[0] == ESC && a[1] == 0x5B {
      var k := FinalIndex(a, 2);
      FinalIs(a + b, k);
      assert (a + b)[2..k] == a[2..k];
    }
  }

  lemma AfterAfter(key: int, keys: seq<int>, d: Decoded)
    ensures After([key] + keys, d) == After([key], After(keys, d))
    ensures After([], d) == d
  {
    assert [key] + keys + d.keys == [key] + (keys + d.keys);
  }

  lemma DecodeUnfold(buf: seq<byte>)
    requires buf != [] && NextKey(buf).Some?
    ensures var (key, n) := NextKey(buf).value; Decode(buf) == After([key], Decode(buf[n..]))
  {}

  /** Decoding in two pieces, carrying the held bytes over, is decoding at once. */
  lemma {:induction false} DecodeSplit(a: seq<byte>, b: seq<byte>)
    ensures Decode(a + b) == After(Decode(a).keys, Decode(Decode(a).rest + b))
    decreases |a|
  {
    if a == [] || NextKey(a).None? {
      assert Decode(a) == Decoded([], a);
      AfterAfter(0, [], Decode(a + b));
    } else {
      var (key, n) := NextKey(a).value;
      NextKeyStable(a, b);
      calc {
        Decode(a + b);
        { DecodeUnfold(a + b); assert (a + b)[n..] == a[n..] + b; }
        After([key], Decode(a[n..] + b));
        { DecodeSplit(a[n..], b); }
        After([key], After(Decode(a[n..]).keys, Decode(Decode(a[n..]).rest + b)));
        { AfterAfter(key, Decode(a[n..]).keys, Decode(Decode(a[n..]).rest + b)); DecodeUnfold(a); }
        After(Decode(a).keys, Decode(Decode(a).rest + b));
      }
    }
  }
}
