/** Which \u escapes the parser accepts, and what they decode to. */
module JsonEscapes {
  import opened Options
  import opened JsonText
  import opened JsonPrinter
  import opened JsonGrammar
  import Utf8

  predicate FourHex(u: Text) {
    |u| >= 4 && IsHex(u[0]) && IsHex(u[1]) && IsHex(u[2]) && IsHex(u[3])
  }

  /** The number that the first four bytes spell in hexadecimal. */
  function HexNumber(u: Text): nat
    requires FourHex(u)
  {
    HexValue(u[0]) * 0x1000 + HexValue(u[1]) * 0x100 + HexValue(u[2]) * 0x10 + HexValue(u[3])
  }

  lemma Tails(u: Text)
    ensures |u| >= 2 ==> u[1..][1..] == u[2..]
    ensures |u| >= 3 ==> u[2..][1..] == u[3..]
    ensures |u| >= 4 ==> u[3..][1..] == u[4..]
  {
  }

  lemma QuadHexReads(u: Text)
    ensures QuadHex(u, 0, 0).verdict.Accepted? <==> FourHex(u)
    ensures FourHex(u) ==> QuadHex(u, 0, 0) == Accept(HexNumber(u), u[4..])
  {
    Tails(u);
    if u != [] && IsHex(u[0]) {
      var c1 := AddHex(0, 0, u[0]);
      assert QuadHex(u, 0, 0) == QuadHex(u[1..], 1, c1);
      if |u| >= 2 && IsHex(u[1]) {
        var c2 := AddHex(1, c1, u[1]);
        assert QuadHex(u[1..], 1, c1) == QuadHex(u[2..], 2, c2);
        if |u| >= 3 && IsHex(u[2]) {
          var c3 := AddHex(2, c2, u[2]);
          assert QuadHex(u[2..], 2, c2) == QuadHex(u[3..], 3, c3);
          if |u| >= 4 && IsHex(u[3]) {
            assert QuadHex(u[3..], 3, c3) == QuadHex(u[4..], 4, AddHex(3, c3, u[3]));
          }
        }
      }
    }
  }

  /** The first four bytes are the hexadecimal digits of `c`, each in either case. */
  ghost predicate SpellsUnit(u: Text, c: nat) {
    && |u| >= 4
    && exists d0: nat, d1: nat, d2: nat, d3: nat ::
      DigitFor(u[0], d0) && DigitFor(u[1], d1) && DigitFor(u[2], d2) && DigitFor(u[3], d3)
      && c == d0 * 0x1000 + d1 * 0x100 + d2 * 0x10 + d3
  }

  lemma SpellsUnitIff(u: Text, c: nat)
    ensures SpellsUnit(u, c) <==> FourHex(u) && HexNumber(u) == c
  {
    if SpellsUnit(u, c) {
      var d0: nat, d1: nat, d2: nat, d3: nat :|
        DigitFor(u[0], d0) && DigitFor(u[1], d1) && DigitFor(u[2], d2) && DigitFor(u[3], d3)
        && c == d0 * 0x1000 + d1 * 0x100 + d2 * 0x10 + d3;
      HexValueIff(u[0], d0);
      HexValueIff(u[1], d1);
      HexValueIff(u[2], d2);
      HexValueIff(u[3], d3);
    }
    if FourHex(u) && HexNumber(u) == c {
      HexValueIff(u[0], HexValue(u[0]));
      HexValueIff(u[1], HexValue(u[1]));
      HexValueIff(u[2], HexValue(u[2]));
      HexValueIff(u[3], HexValue(u[3]));
    }
  }

  /** Four hexadecimal digits of either case are read at the number they spell, and nothing else is accepted. */
  lemma QuadHexIff(u: Text, c: nat, rest: Text)
    ensures QuadHex(u, 0, 0) == Accept(c, rest) <==> SpellsUnit(u, c) && rest == u[4..]
    ensures QuadHex(u, 0, 0).verdict.Accepted? <==> exists d :: SpellsUnit(u, d)
  {
    QuadHexReads(u);
    SpellsUnitIff(u, c);
    if FourHex(u) {
      SpellsUnitIff(u, HexNumber(u));
    }
    if d :| SpellsUnit(u, d) {
      SpellsUnitIff(u, d);
    }
  }

  /** The first of the four places where no hexadecimal digit stands. */
  predicate NoDigitAt(u: Text, k: nat) {
    k < 4 && k <= |u| && (forall m :: 0 <= m < k ==> IsHex(u[m])) && (k == |u| || !IsHex(u[k]))
  }

  /** A rejected unit is left at that place. */
  lemma QuadHexStops(u: Text, k: nat)
    requires NoDigitAt(u, k)
    ensures QuadHex(u, 0, 0) == RejectAt(u[k..])
  {
    StopsLater(u, 0, 0, k);
  }

  lemma {:induction false} StopsLater(u: Text, n: nat, c: nat, k: nat)
    requires n <= 4 && c < HexBound(n) && n + k < 4 && k <= |u|
    requires (forall m :: 0 <= m < k ==> IsHex(u[m])) && (k == |u| || !IsHex(u[k]))
    ensures QuadHex(u, n, c) == RejectAt(u[k..])
    decreases k
  {
    if k > 0 {
      StopsLater(u[1..], n + 1, AddHex(n, c, u[0]), k - 1);
      assert u[1..][k - 1..] == u[k..];
    } else {
      assert u[0..] == u;
    }
  }

  /** After `\u`, the text spells the scalar value `c`: as one code unit, or as a surrogate pair of two. */
  predicate Spells(u: Text, c: nat, tail: Text) {
    || (FourHex(u) && HexNumber(u) == c && !Utf8.IsSurrogate(c) && tail == u[4..])
    || (|u| >= 10 && FourHex(u) && Utf8.IsHighSurrogate(HexNumber(u)) && u[4] == BACKSLASH && u[5] == LOWER_U
        && FourHex(u[6..]) && Utf8.IsLowSurrogate(HexNumber(u[6..]))
        && c == Utf8.FromPair(HexNumber(u), HexNumber(u[6..])) && tail == u[10..])
  }

  /** The same by the digits alone: those of `c`, or those of the two units that its bits make. */
  lemma SpellsIff(u: Text, c: nat, tail: Text)
    ensures Spells(u, c, tail) <==>
            || (SpellsUnit(u, c) && (c < 0xd800 || 0xe000 <= c) && tail == u[4..])
            || (SpellsPair(u, c) && tail == u[10..])
  {
    SpellsUnitIff(u, c);
    SpellsPairIff(u, c);
  }

  ghost predicate SpellsPair(u: Text, c: nat) {
    |u| >= 10 && u[4..6] == Bytes("\\u") && SpellTwo(u, u[6..], c)
  }

  ghost predicate SpellTwo(u: Text, w: Text, c: nat) {
    exists high: nat, low: nat :: Utf8.UnitsOf(c, high, low) && SpellsUnit(u, high) && SpellsUnit(w, low)
  }

  predicate PairOf(u: Text, w: Text, c: nat) {
    && FourHex(u) && FourHex(w) && Utf8.IsHighSurrogate(HexNumber(u)) && Utf8.IsLowSurrogate(HexNumber(w))
    && Utf8.FromPair(HexNumber(u), HexNumber(w)) == c
  }

  lemma SpelledIsPair(u: Text, w: Text, c: nat)
    requires SpellTwo(u, w, c)
    ensures PairOf(u, w, c)
  {
    var high: nat, low: nat :| Utf8.UnitsOf(c, high, low) && SpellsUnit(u, high) && SpellsUnit(w, low);
    Utf8.FromPairIff(high, low, c);
    SpellsUnitIff(u, high);
    SpellsUnitIff(w, low);
  }

  lemma PairIsSpelled(u: Text, w: Text, c: nat)
    requires PairOf(u, w, c)
    ensures SpellTwo(u, w, c)
  {
    Utf8.FromPairIff(HexNumber(u), HexNumber(w), c);
    SpellsUnitIff(u, HexNumber(u));
    SpellsUnitIff(w, HexNumber(w));
  }

  lemma SpellTwoIff(u: Text, w: Text, c: nat)
    ensures SpellTwo(u, w, c) <==> PairOf(u, w, c)
  {
    if SpellTwo(u, w, c) {
      SpelledIsPair(u, w, c);
    }
    if PairOf(u, w, c) {
      PairIsSpelled(u, w, c);
    }
  }

  predicate MoreFollows(u: Text) {
    |u| >= 10 && u[4] == BACKSLASH && u[5] == LOWER_U
  }

  lemma MoreFollowsIff(u: Text)
    requires |u| >= 10
    ensures MoreFollows(u) <==> u[4..6] == Bytes("\\u")
  {
    assert u[4..6] == [u[4], u[5]];
  }

  lemma SpellsPairIff(u: Text, c: nat)
    ensures SpellsPair(u, c) <==> MoreFollows(u) && PairOf(u, u[6..], c)
  {
    if |u| >= 10 {
      MoreFollowsIff(u);
      SpellTwoIff(u, u[6..], c);
    }
  }

  lemma SpelledIsScalar(u: Text, c: nat, tail: Text)
    requires Spells(u, c, tail)
    ensures Utf8.IsScalar(c)
  {
  }

  /** What `Codepoint` makes of its input, decided by the spelling alone. */
  lemma CodepointCases(u: Text)
    ensures !FourHex(u) ==> Codepoint(u).verdict == Rejected
    ensures FourHex(u) && !Utf8.IsSurrogate(HexNumber(u)) ==> Codepoint(u) == Accept(Utf8.Encode(HexNumber(u)), u[4..])
    ensures FourHex(u) && Utf8.IsLowSurrogate(HexNumber(u)) ==> Codepoint(u).verdict == Rejected
    ensures FourHex(u) && Utf8.IsHighSurrogate(HexNumber(u)) ==> Codepoint(u) == LowHalf(HexNumber(u), u[4..])
  {
    QuadHexReads(u);
  }

  lemma LowHalfCases(high: nat, u: Text)
    requires Utf8.IsHighSurrogate(high)
    ensures if |u| >= 2 && u[0] == BACKSLASH && u[1] == LOWER_U && FourHex(u[2..])
            && Utf8.IsLowSurrogate(HexNumber(u[2..]))
            then LowHalf(high, u) == Accept(Utf8.Encode(Utf8.FromPair(high, HexNumber(u[2..]))), u[6..])
            else LowHalf(high, u).verdict == Rejected
  {
    if |u| >= 2 {
      assert u[1..][1..] == u[2..];
      QuadHexReads(u[2..]);
      if FourHex(u[2..]) { assert u[2..][4..] == u[6..]; }
    }
  }

  /**
   An escape is accepted exactly when it spells a scalar value, and then it appends that scalar's UTF-8 form; every
   other use of a surrogate is rejected.
   */
  lemma EscapeIff(u: Text, c: nat, tail: Text)
    requires Utf8.IsScalar(c)
    ensures Codepoint(u) == Accept(Utf8.Encode(c), tail) <==> Spells(u, c, tail)
    ensures Codepoint(u).verdict.Accepted? <==> exists d, rest :: Spells(u, d, rest)
  {
    CodepointCases(u);
    if FourHex(u) && !Utf8.IsSurrogate(HexNumber(u)) {
      assert Spells(u, HexNumber(u), u[4..]);
      EncodeInjective(c, HexNumber(u));
    } else if FourHex(u) && Utf8.IsHighSurrogate(HexNumber(u)) {
      PairIff(u, c, tail);
    }
  }

  lemma PairIff(u: Text, c: nat, tail: Text)
    requires FourHex(u) && Utf8.IsHighSurrogate(HexNumber(u)) && Utf8.IsScalar(c)
    ensures LowHalf(HexNumber(u), u[4..]) == Accept(Utf8.Encode(c), tail) <==> Spells(u, c, tail)
    ensures LowHalf(HexNumber(u), u[4..]).verdict.Accepted? <==> exists d, rest :: Spells(u, d, rest)
  {
    var high, v := HexNumber(u), u[4..];
    LowHalfCases(high, v);
    if |v| >= 2 {
      assert v[2..] == u[6..];
      if FourHex(v[2..]) {
        assert v[6..] == u[10..];
        if v[0] == BACKSLASH && v[1] == LOWER_U && Utf8.IsLowSurrogate(HexNumber(v[2..])) {
          assert Spells(u, Utf8.FromPair(high, HexNumber(v[2..])), u[10..]);
          EncodeInjective(c, Utf8.FromPair(high, HexNumber(v[2..])));
        }
      }
    }
  }

  lemma EncodeInjective(c: nat, d: nat)
    requires Utf8.IsScalar(c) && Utf8.IsScalar(d)
    ensures Utf8.Encode(c) == Utf8.Encode(d) ==> c == d
  {
    Utf8.DecodeIffEncoded(Utf8.Encode(c) + [], c, []);
    Utf8.DecodeIffEncoded(Utf8.Encode(d) + [], d, []);
  }

  /** An accepted escape decodes, as UTF-8, to the scalar value it spells. */
  lemma EscapeDecodes(u: Text)
    requires Codepoint(u).verdict.Accepted?
    ensures exists c: nat :: Spells(u, c, Codepoint(u).rest) && Utf8.Decode(Codepoint(u).verdict.value) == Some((c, []))
  {
    EscapeIff(u, 0, []);
    var c, rest :| Spells(u, c, rest);
    EscapeIff(u, c, rest);
    Utf8.DecodeIffEncoded(Utf8.Encode(c), c, []);
    assert Utf8.Encode(c) + [] == Utf8.Encode(c);
  }

  function Hex4(c: nat): (s: Text)
    requires c < 0x10000
    ensures |s| == 4
  {
    [HexDigit(c / 0x1000), HexDigit(c / 0x100 % 0x10), HexDigit(c / 0x10 % 0x10), HexDigit(c % 0x10)]
  }

  lemma DigitsOf(c: nat)
    ensures c == c / 0x1000 * 0x1000 + c / 0x100 % 0x10 * 0x100 + c / 0x10 % 0x10 * 0x10 + c % 0x10
  {
    var d := c / 0x10;
    assert c / 0x100 == d / 0x10 && c / 0x1000 == d / 0x10 / 0x10;
  }

  lemma Hex4Number(c: nat, tail: Text)
    requires c < 0x10000
    ensures FourHex(Hex4(c) + tail) && HexNumber(Hex4(c) + tail) == c && (Hex4(c) + tail)[4..] == tail
  {
    var s := Hex4(c) + tail;
    assert s[0] == HexDigit(c / 0x1000) && s[1] == HexDigit(c / 0x100 % 0x10);
    assert s[2] == HexDigit(c / 0x10 % 0x10) && s[3] == HexDigit(c % 0x10);
    DigitsOf(c);
  }

  lemma PairNumbers(c: nat) returns (high: nat, low: nat)
    requires 0x10000 <= c < 0x110000
    ensures Utf8.IsHighSurrogate(high) && Utf8.IsLowSurrogate(low) && c == Utf8.FromPair(high, low)
  {
    high, low := 0xd800 + (c - 0x10000) / 0x400, 0xdc00 + c % 0x400;
  }

  lemma PairSpells(high: nat, low: nat) returns (u: Text)
    requires Utf8.IsHighSurrogate(high) && Utf8.IsLowSurrogate(low)
    ensures Spells(u, Utf8.FromPair(high, low), [])
  {
    var second := [BACKSLASH, LOWER_U] + Hex4(low);
    u := Hex4(high) + second;
    Hex4Number(high, second);
    Hex4Number(low, []);
    assert u[6..] == Hex4(low) + [] && u[10..] == [];
  }

  /** Every scalar value has a spelling, below 0x10000 as one unit and above as a pair. */
  lemma EveryScalarIsSpelled(c: nat) returns (u: Text)
    requires Utf8.IsScalar(c)
    ensures Spells(u, c, []) && Codepoint(u) == Accept(Utf8.Encode(c), [])
  {
    if c < 0x10000 {
      u := Hex4(c);
      Hex4Number(c, []);
      assert Hex4(c) + [] == u;
    } else {
      var high, low := PairNumbers(c);
      u := PairSpells(high, low);
    }
    EscapeIff(u, c, []);
  }

  /**
   The printer's escapes: a letter where there is one, otherwise four lower-case digits for a control byte and for
   0x7f; every other byte as it is.
   */
  lemma EscapeForm(b: Byte)
    ensures forall l :: LetterFor(l, b) ==> Escape(b) == [BACKSLASH, l]
    ensures (forall l :: !LetterFor(l, b)) && (b < 0x20 || b == 0x7f) ==>
              Escape(b) == Bytes(['\\', 'u', '0', '0', "0123456789abcdef"[b / 16], "0123456789abcdef"[b % 16]])
    ensures (forall l :: !LetterFor(l, b)) && !(b < 0x20 || b == 0x7f) ==> Escape(b) == [b]
  {
    forall l | LetterFor(l, b)
      ensures Escape(b) == [BACKSLASH, l]
    {
      LetterEscaped(l, b);
    }
    if forall l :: !LetterFor(l, b) {
      NoLetter(b);
    }
    HexDigitIs(b / 16);
    HexDigitIs(b % 16);
  }

  lemma LetterEscaped(l: Byte, b: Byte)
    requires LetterFor(l, b)
    ensures Escape(b) == [BACKSLASH, l]
  {
  }

  lemma NoLetter(b: Byte)
    requires forall l :: !LetterFor(l, b)
    ensures b !in [QUOTE, BACKSLASH, SLASH, 8, 12, LF, CR, TAB]
  {
    assert LetterFor(34, 34) && LetterFor(92, 92) && LetterFor(47, 47);
    assert LetterFor(98, 8) && LetterFor(102, 12) && LetterFor(110, 10) && LetterFor(114, 13) && LetterFor(116, 9);
  }
}
