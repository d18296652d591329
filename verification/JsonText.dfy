/** The bytes of JSON text, and the characters that the printer and the parser single out. */
module JsonText {
  import opened Options

  type Byte = x: int | 0 <= x < 256
  type Text = seq<Byte>

  const TAB: Byte := 9
  const LF: Byte := 10
  const CR: Byte := 13
  const SPACE: Byte := 32
  const QUOTE: Byte := 34
  const COMMA: Byte := 44
  const SLASH: Byte := 47
  const COLON: Byte := 58
  const LEFT_BRACKET: Byte := 91
  const BACKSLASH: Byte := 92
  const RIGHT_BRACKET: Byte := 93
  const LOWER_U: Byte := 117
  const LEFT_BRACE: Byte := 123
  const RIGHT_BRACE: Byte := 125

  // null, true and false
  const NULL_TEXT: Text := [110, 117, 108, 108]
  const TRUE_TEXT: Text := [116, 114, 117, 101]
  const FALSE_TEXT: Text := [102, 97, 108, 115, 101]

  predicate IsSpace(b: Byte) {
    b == SPACE || b == TAB || b == LF || b == CR
  }

  /** 0 to 9. */
  predicate IsDigit(b: Byte) {
    48 <= b <= 57
  }

  /** A digit or a minus sign. */
  predicate StartsNumber(b: Byte) {
    IsDigit(b) || b == 45
  }

  /** Digits, plus, minus, point, E and e. */
  predicate IsNumberByte(b: Byte) {
    IsDigit(b) || b == 43 || b == 45 || b == 46 || b == 69 || b == 101
  }

  /** 0 to 9, A to F, a to f. */
  predicate IsHex(b: Byte) {
    IsDigit(b) || 65 <= b <= 70 || 97 <= b <= 102
  }

  function HexValue(b: Byte): (n: nat)
    requires IsHex(b)
    ensures n < 16
  {
    if IsDigit(b) then b - 48 else if b <= 70 then b - 55 else b - 87
  }

  /** Lower case, as the printer's %04x writes it. */
  function HexDigit(n: nat): (b: Byte)
    requires n < 16
    ensures IsHex(b) && HexValue(b) == n
  {
    if n < 10 then 48 + n else 87 + n
  }

  /** What a one-letter escape stands for: quote, backslash and slash for themselves, then b, f, n, r and t. */
  function Unescaped(b: Byte): Option<Byte> {
    if b == QUOTE || b == BACKSLASH || b == SLASH then Some(b)
    else if b == 98 then Some(8)
    else if b == 102 then Some(12)
    else if b == 110 then Some(LF)
    else if b == 114 then Some(CR)
    else if b == 116 then Some(TAB)
    else None
  }

  // ----- The same told by characters.

  /** The bytes of a text whose characters are below 256. */
  function Bytes(s: string): Text
    requires forall k :: 0 <= k < |s| ==> s[k] < 256 as char
  {
    seq(|s|, k requires 0 <= k < |s| => s[k] as int)
  }

  lemma CharactersAre()
    ensures [LEFT_BRACKET, RIGHT_BRACKET, LEFT_BRACE, RIGHT_BRACE, COMMA, COLON] == Bytes("[]{},:")
    ensures [QUOTE, BACKSLASH, SLASH, LOWER_U] == Bytes("\"\\/u") && [SPACE, TAB, LF, CR] == Bytes(" \t\n\r")
    ensures NULL_TEXT == Bytes("null") && TRUE_TEXT == Bytes("true") && FALSE_TEXT == Bytes("false")
  {
  }

  lemma ClassesAre(b: Byte)
    ensures IsSpace(b) <==> b as char in " \t\n\r"
    ensures IsDigit(b) <==> b as char in "0123456789"
    ensures StartsNumber(b) <==> b as char in "-0123456789"
    ensures IsNumberByte(b) <==> b as char in "0123456789+-.eE"
  {
  }

  /** `b` is the hexadecimal digit for `d`, in either case. */
  predicate DigitFor(b: Byte, d: nat) {
    d < 16 && (b == "0123456789abcdef"[d] as int || b == "0123456789ABCDEF"[d] as int)
  }

  lemma HexValueIff(b: Byte, d: nat)
    ensures IsHex(b) && HexValue(b) == d <==> DigitFor(b, d)
  {
  }

  lemma IsHexIff(b: Byte)
    ensures IsHex(b) <==> b as char in "0123456789abcdefABCDEF"
  {
  }

  lemma HexDigitIs(d: nat)
    requires d < 16
    ensures HexDigit(d) == "0123456789abcdef"[d] as int
  {
  }

  /** `b` stands after the backslash in the one-letter escape of `c`. */
  predicate LetterFor(b: Byte, c: Byte) {
    (b as char, c as int) in
    [('"', 0x22), ('\\', 0x5c), ('/', 0x2f), ('b', 0x08), ('f', 0x0c), ('n', 0x0a), ('r', 0x0d), ('t', 0x09)]
  }

  lemma UnescapedIff(b: Byte, c: Byte)
    ensures Unescaped(b) == Some(c) <==> LetterFor(b, c)
  {
  }

  /** Where the first line ends: at its line break, or at the end of the text. */
  function LineEnd(u: Text): (n: nat)
    ensures n <= |u| && (n < |u| ==> u[n] == LF)
    ensures forall k :: 0 <= k < n ==> u[k] != LF
  {
    if u == [] || u[0] == LF then 0 else 1 + LineEnd(u[1..])
  }

  function SkipSpaces(u: Text): (r: Text)
    ensures |r| <= |u|
    ensures r != [] ==> !IsSpace(r[0])
  {
    if u != [] && IsSpace(u[0]) then SkipSpaces(u[1..]) else u
  }

  predicate AllSpaces(s: Text) {
    forall k :: 0 <= k < |s| ==> IsSpace(s[k])
  }

  lemma {:induction false} SkipSpacesPast(s: Text, u: Text)
    requires AllSpaces(s)
    ensures SkipSpaces(s + u) == SkipSpaces(u)
  {
    if s == [] {
      assert s + u == u;
    } else {
      assert (s + u)[1..] == s[1..] + u;
      SkipSpacesPast(s[1..], u);
    }
  }
}

/** UTF-8 as section 3 of RFC 3629 defines it, and the \u escapes of section 7 of RFC 8259. */
module Utf8 {
  import opened Options
  import opened JsonText

  predicate IsScalar(c: nat) {
    c < 0xd800 || 0xe000 <= c < 0x110000
  }

  predicate IsHighSurrogate(c: nat) {
    0xd800 <= c < 0xdc00
  }

  predicate IsLowSurrogate(c: nat) {
    0xdc00 <= c < 0xe000
  }

  predicate IsSurrogate(c: nat) {
    IsHighSurrogate(c) || IsLowSurrogate(c)
  }

  function FromPair(high: nat, low: nat): (c: nat)
    requires IsHighSurrogate(high) && IsLowSurrogate(low)
    ensures 0x10000 <= c < 0x110000
  {
    (high - 0xd800) * 0x400 + (low - 0xdc00) + 0x10000
  }

  /** The two units of a code point above 0xffff: the upper and the lower ten bits of what it exceeds 0x10000 by. */
  predicate UnitsOf(c: nat, high: nat, low: nat) {
    0x10000 <= c < 0x110000 && high == 0xd800 + (c - 0x10000) / 0x400 && low == 0xdc00 + (c - 0x10000) % 0x400
  }

  lemma FromPairIff(high: nat, low: nat, c: nat)
    ensures IsHighSurrogate(high) && IsLowSurrogate(low) && FromPair(high, low) == c <==> UnitsOf(c, high, low)
  {
  }

  /** The bytes the parser appends for a code point; its shifts and masks are divisions and remainders here. */
  function Encode(c: nat): (s: Text)
    requires c < 0x110000
    ensures s != []
  {
    if c < 0x80 then [c]
    else if c < 0x800 then [0xc0 + c / 0x40, 0x80 + c % 0x40]
    else if c < 0x10000 then [0xe0 + c / 0x1000, 0x80 + c / 0x40 % 0x40, 0x80 + c % 0x40]
    else [0xf0 + c / 0x40000, 0x80 + c / 0x1000 % 0x40, 0x80 + c / 0x40 % 0x40, 0x80 + c % 0x40]
  }

  predicate IsTail(s: Text, k: nat) {
    k < |s| && 0x80 <= s[k] < 0xc0
  }

  /** How far the byte at `k` lies above `base`. */
  function Above(s: Text, k: nat, base: nat): int
    requires k < |s|
  {
    s[k] as int - base
  }

  /** A strict decoder: no overlong form, no surrogate, nothing above 0x10ffff. */
  function Decode(s: Text): Option<(nat, Text)> {
    if s == [] then None
    else if s[0] < 0x80 then Some((s[0], s[1..]))
    else if 0xc0 <= s[0] < 0xe0 && IsTail(s, 1) then
      var c := Above(s, 0, 0xc0) * 0x40 + Above(s, 1, 0x80);
      if c < 0x80 then None else Some((c, s[2..]))
    else if 0xe0 <= s[0] < 0xf0 && IsTail(s, 1) && IsTail(s, 2) then
      var c := Above(s, 0, 0xe0) * 0x1000 + Above(s, 1, 0x80) * 0x40 + Above(s, 2, 0x80);
      if c < 0x800 || !IsScalar(c) then None else Some((c, s[3..]))
    else if 0xf0 <= s[0] < 0xf8 && IsTail(s, 1) && IsTail(s, 2) && IsTail(s, 3) then
      var c := Above(s, 0, 0xf0) * 0x40000 + Above(s, 1, 0x80) * 0x1000 + Above(s, 2, 0x80) * 0x40 + Above(s, 3, 0x80);
      if c < 0x10000 || !IsScalar(c) then None else Some((c, s[4..]))
    else None
  }

  /** What the parser appends for a scalar value decodes back to it, and is the only form that does. */
  lemma DecodeIffEncoded(s: Text, c: nat, tail: Text)
    ensures Decode(s) == Some((c, tail)) <==> IsScalar(c) && s == Encode(c) + tail
  {
    if IsScalar(c) && s == Encode(c) + tail {
      EncodedDecodes(c, tail);
    }
    if Decode(s) == Some((c, tail)) {
      DecodedIsEncoding(s, c, tail);
    }
  }

  lemma EncodedDecodes(c: nat, tail: Text)
    requires IsScalar(c)
    ensures Decode(Encode(c) + tail) == Some((c, tail))
  {
    var s := Encode(c) + tail;
    assert s[|Encode(c)|..] == tail;
    if 0x800 <= c {
      assert c / 0x1000 == c / 0x40 / 0x40;
    }
    if 0x10000 <= c {
      assert c / 0x40000 == c / 0x1000 / 0x40;
    }
  }

  lemma TwoBytes(a: nat, b: nat)
    requires a < 0x20 && b < 0x40 && a * 0x40 + b >= 0x80
    ensures Encode(a * 0x40 + b) == [0xc0 + a, 0x80 + b]
  {
  }

  lemma ThreeBytes(a: nat, b: nat, d: nat)
    requires a < 0x10 && b < 0x40 && d < 0x40 && a * 0x1000 + b * 0x40 + d >= 0x800
    ensures Encode(a * 0x1000 + b * 0x40 + d) == [0xe0 + a, 0x80 + b, 0x80 + d]
  {
    var c := a * 0x1000 + b * 0x40 + d;
    assert c / 0x40 == a * 0x40 + b;
  }

  lemma FourBytes(a: nat, b: nat, d: nat, e: nat)
    requires a < 8 && b < 0x40 && d < 0x40 && e < 0x40
    requires 0x10000 <= a * 0x40000 + b * 0x1000 + d * 0x40 + e < 0x110000
    ensures Encode(a * 0x40000 + b * 0x1000 + d * 0x40 + e) == [0xf0 + a, 0x80 + b, 0x80 + d, 0x80 + e]
  {
    var c := a * 0x40000 + b * 0x1000 + d * 0x40 + e;
    assert c / 0x40 == (a * 0x40 + b) * 0x40 + d;
    assert c / 0x1000 == a * 0x40 + b;
  }

  lemma DecodedIsEncoding(s: Text, c: nat, tail: Text)
    requires Decode(s) == Some((c, tail))
    ensures IsScalar(c) && s == Encode(c) + tail
  {
    var n := |s| - |tail|;
    assert s == s[..n] + tail;
    if s[0] < 0x80 {
      assert s[..n] == [s[0]];
    } else if s[0] < 0xe0 {
      assert s[..n] == [s[0], s[1]];
      TwoBytes(Above(s, 0, 0xc0), Above(s, 1, 0x80));
    } else if s[0] < 0xf0 {
      assert s[..n] == [s[0], s[1], s[2]];
      ThreeBytes(Above(s, 0, 0xe0), Above(s, 1, 0x80), Above(s, 2, 0x80));
    } else {
      assert s[..n] == [s[0], s[1], s[2], s[3]];
      FourBytes(Above(s, 0, 0xf0), Above(s, 1, 0x80), Above(s, 2, 0x80), Above(s, 3, 0x80));
    }
  }
}
