/** Where the validating and the default context agree: exactly where no number that is read overflows. */
module JsonContexts {
  import opened Options
  import opened Sequences
  import opened JsonText
  import opened JsonPrinter
  import opened JsonGrammar
  import opened JsonSyntax
  import Utf8

  /** The same outcome, but for the value, with the same bytes unread. */
  predicate Same<T, U>(a: Parsed<T>, b: Parsed<U>) {
    && a.rest == b.rest && a.pushed == b.pushed
    && (a.verdict.Accepted? <==> b.verdict.Accepted?) && (a.verdict.Rejected? <==> b.verdict.Rejected?)
  }

  lemma {:induction false} LiteralSame<T, U>(u: Text, text: Text, a: T, b: U)
    ensures Same(Literal(u, text, a), Literal(u, text, b)) && !Literal(u, text, a).verdict.Thrown?
    decreases text
  {
    if text != [] && Begins(u, text[0]) {
      LiteralSame(u[1..], text[1..], a, b);
    }
  }

  lemma KeywordSame<N>(b: Byte, u: Text)
    requires IsKeywordByte(b)
    ensures Same(Keyword<N>(b, u, Default), Keyword<N>(b, u, Validating))
            && !Keyword<N>(b, u, Validating).verdict.Thrown?
  {
    LiteralSame<Value<N>, Value<N>>(u, NULL_TEXT[1..], Null, Null);
    LiteralSame<Value<N>, Value<N>>(u, FALSE_TEXT[1..], Bool(false), Null);
    LiteralSame<Value<N>, Value<N>>(u, TRUE_TEXT[1..], Bool(true), Null);
    LiteralSame<Value<N>, Value<N>>(u, FALSE_TEXT[1..], Null, Null);
    LiteralSame<Value<N>, Value<N>>(u, TRUE_TEXT[1..], Null, Null);
  }

  lemma {:induction false} ValidatingNeverThrows<N>(u: Text, decode: Text -> Decoded<N>)
    ensures !ValueLit(u, decode, Validating).verdict.Thrown?
    decreases |u|, 0
  {
    var v := SkipSpaces(u);
    if v != [] {
      if IsKeywordByte(v[0]) {
        KeywordSame<N>(v[0], v[1..]);
      } else if v[0] == LEFT_BRACKET {
        ItemsNeverThrow(SkipSpaces(v[1..]), decode);
      } else if v[0] == LEFT_BRACE {
        MembersNeverThrow(SkipSpaces(v[1..]), decode);
      }
    }
  }

  lemma {:induction false} ItemsNeverThrow<N>(u: Text, decode: Text -> Decoded<N>)
    ensures !Items(u, [], decode, Validating).verdict.Thrown?
    decreases |u|, 1
  {
    ValidatingNeverThrows(u, decode);
    var r := ValueLit(u, decode, Validating);
    var v := SkipSpaces(r.rest);
    if r.verdict.Accepted? && Begins(v, COMMA) {
      ItemsNeverThrow(v[1..], decode);
    }
  }

  lemma {:induction false} MembersNeverThrow<N>(u: Text, decode: Text -> Decoded<N>)
    ensures !Members(u, [], decode, Validating).verdict.Thrown?
    decreases |u|, 1
  {
    var k := Key(u);
    if k.verdict.Accepted? {
      ValidatingNeverThrows(k.rest, decode);
      var r := ValueLit(k.rest, decode, Validating);
      var v := SkipSpaces(r.rest);
      if r.verdict.Accepted? && Begins(v, COMMA) {
        MembersNeverThrow(v[1..], decode);
      }
    }
  }

  lemma {:induction false} ValueSame<N>(u: Text, decode: Text -> Decoded<N>)
    requires !ValueLit(u, decode, Default).verdict.Thrown?
    ensures Same(ValueLit(u, decode, Default), ValueLit(u, decode, Validating))
    decreases |u|, 0
  {
    var v := SkipSpaces(u);
    if v != [] {
      if IsKeywordByte(v[0]) {
        KeywordSame<N>(v[0], v[1..]);
      } else if v[0] == LEFT_BRACKET {
        var w := SkipSpaces(v[1..]);
        if !Begins(w, RIGHT_BRACKET) { ItemsSame(w, [], decode); }
      } else if v[0] == LEFT_BRACE {
        var w := SkipSpaces(v[1..]);
        if !Begins(w, RIGHT_BRACE) { MembersSame(w, [], decode); }
      }
    }
  }

  lemma {:induction false} ItemsSame<N>(u: Text, items: seq<Value<N>>, decode: Text -> Decoded<N>)
    requires !Items(u, items, decode, Default).verdict.Thrown?
    ensures Same(Items(u, items, decode, Default), Items(u, [], decode, Validating))
    decreases |u|, 1
  {
    ValueSame(u, decode);
    var r := ValueLit(u, decode, Default);
    if r.verdict.Accepted? {
      var v := SkipSpaces(r.rest);
      if Begins(v, COMMA) {
        ItemsSame(v[1..], items + [r.verdict.value], decode);
      }
    }
  }

  lemma {:induction false} MembersSame<N>(u: Text, entries: seq<Entry<N>>, decode: Text -> Decoded<N>)
    requires !Members(u, entries, decode, Default).verdict.Thrown?
    ensures Same(Members(u, entries, decode, Default), Members(u, [], decode, Validating))
    decreases |u|, 1
  {
    var k := Key(u);
    if k.verdict.Accepted? {
      ValueSame(k.rest, decode);
      var r := ValueLit(k.rest, decode, Default);
      if r.verdict.Accepted? {
        var v := SkipSpaces(r.rest);
        if Begins(v, COMMA) {
          MembersSame(v[1..], Put(entries, k.verdict.value, r.verdict.value), decode);
        }
      }
    }
  }

  // ----- When the default context throws.

  /** The number tokens that the validating parser converts, in order. */
  function Numbers<N>(u: Text, decode: Text -> Decoded<N>): seq<Text>
    decreases |u|, 0
  {
    var v := SkipSpaces(u);
    if Begins(v, LEFT_BRACKET) then
      var w := SkipSpaces(v[1..]);
      if Begins(w, RIGHT_BRACKET) then [] else ItemNumbers(w, decode)
    else if Begins(v, LEFT_BRACE) then
      var w := SkipSpaces(v[1..]);
      if Begins(w, RIGHT_BRACE) then [] else MemberNumbers(w, decode)
    else if v != [] && StartsNumber(v[0]) then [v[..NumberRun(v)]]
    else []
  }

  function ItemNumbers<N>(u: Text, decode: Text -> Decoded<N>): seq<Text>
    decreases |u|, 1
  {
    var r := ValueLit(u, decode, Validating);
    var v := SkipSpaces(r.rest);
    Numbers(u, decode) + if r.verdict.Accepted? && Begins(v, COMMA) then ItemNumbers(v[1..], decode) else []
  }

  function MemberNumbers<N>(u: Text, decode: Text -> Decoded<N>): seq<Text>
    decreases |u|, 1
  {
    var k := Key(u);
    if !k.verdict.Accepted? then []
    else
      var r := ValueLit(k.rest, decode, Validating);
      var v := SkipSpaces(r.rest);
      Numbers(k.rest, decode) + if r.verdict.Accepted? && Begins(v, COMMA) then MemberNumbers(v[1..], decode) else []
  }

  /** One of the tokens denotes a number out of range. */
  predicate SomeInfinite<N>(tokens: seq<Text>, decode: Text -> Decoded<N>) {
    exists t :: t in tokens && decode(t).Infinite?
  }

  lemma InfiniteInEither<N>(a: seq<Text>, b: seq<Text>, decode: Text -> Decoded<N>)
    ensures SomeInfinite(a + b, decode) <==> SomeInfinite(a, decode) || SomeInfinite(b, decode)
  {
    assert forall t :: t in a + b <==> t in a || t in b;
  }

  /** The default context throws exactly when one of the numbers read overflows. */
  lemma {:induction false} ThrowsIff<N>(u: Text, decode: Text -> Decoded<N>)
    ensures ValueLit(u, decode, Default).verdict.Thrown? <==> SomeInfinite(Numbers(u, decode), decode)
    decreases |u|, 0
  {
    var v := SkipSpaces(u);
    if Begins(v, LEFT_BRACKET) {
      var w := SkipSpaces(v[1..]);
      if !Begins(w, RIGHT_BRACKET) { ItemsThrowIff(w, [], decode); }
    } else if Begins(v, LEFT_BRACE) {
      var w := SkipSpaces(v[1..]);
      if !Begins(w, RIGHT_BRACE) { MembersThrowIff(w, [], decode); }
    } else if v != [] {
      LeafThrowsIff(v, decode);
    }
  }

  lemma NumberThrowsIff<N>(v: Text, decode: Text -> Decoded<N>)
    ensures NumberLit(v, decode, Default).verdict.Thrown? <==> decode(v[..NumberRun(v)]).Infinite?
  {
  }

  lemma OtherNeverThrows<N>(b: Byte, u: Text)
    ensures IsKeywordByte(b) ==> !Keyword<N>(b, u, Default).verdict.Thrown?
    ensures !StringValue<N>(u, Default).verdict.Thrown?
  {
    if IsKeywordByte(b) {
      KeywordSame<N>(b, u);
    }
  }

  lemma LeafIs<N>(v: Text, decode: Text -> Decoded<N>)
    requires v != [] && SkipSpaces(v) == v && v[0] != LEFT_BRACKET && v[0] != LEFT_BRACE
    ensures ValueLit(v, decode, Default) ==
            if IsKeywordByte(v[0]) then Keyword(v[0], v[1..], Default)
            else if v[0] == QUOTE then StringValue(v[1..], Default)
            else if StartsNumber(v[0]) then NumberLit(v, decode, Default)
            else RejectAt(v)
  {
  }

  lemma LeafThrowsIff<N>(v: Text, decode: Text -> Decoded<N>)
    requires v != [] && SkipSpaces(v) == v && v[0] != LEFT_BRACKET && v[0] != LEFT_BRACE
    ensures ValueLit(v, decode, Default).verdict.Thrown? <==> StartsNumber(v[0]) && decode(v[..NumberRun(v)]).Infinite?
  {
    LeafIs(v, decode);
    OtherNeverThrows<N>(v[0], v[1..]);
    NumberThrowsIff(v, decode);
  }

  lemma {:induction false} ItemsThrowIff<N>(u: Text, items: seq<Value<N>>, decode: Text -> Decoded<N>)
    ensures Items(u, items, decode, Default).verdict.Thrown? <==> SomeInfinite(ItemNumbers(u, decode), decode)
    decreases |u|, 1
  {
    ThrowsIff(u, decode);
    var r := ValueLit(u, decode, Default);
    var v := SkipSpaces(ValueLit(u, decode, Validating).rest);
    var later := if ValueLit(u, decode, Validating).verdict.Accepted? && Begins(v, COMMA) then ItemNumbers(v[1..],
                             decode) else [];
    InfiniteInEither(Numbers(u, decode), later, decode);
    if !r.verdict.Thrown? {
      ValueSame(u, decode);
      if r.verdict.Accepted? && Begins(v, COMMA) {
        ItemsThrowIff(v[1..], items + [r.verdict.value], decode);
      }
    }
  }

  lemma {:induction false} MembersThrowIff<N>(u: Text, entries: seq<Entry<N>>, decode: Text -> Decoded<N>)
    ensures Members(u, entries, decode, Default).verdict.Thrown? <==> SomeInfinite(MemberNumbers(u, decode), decode)
    decreases |u|, 1
  {
    var k := Key(u);
    if k.verdict.Accepted? {
      ThrowsIff(k.rest, decode);
      var r := ValueLit(k.rest, decode, Default);
      var r' := ValueLit(k.rest, decode, Validating);
      var v := SkipSpaces(r'.rest);
      var later := if r'.verdict.Accepted? && Begins(v, COMMA) then MemberNumbers(v[1..], decode) else [];
      InfiniteInEither(Numbers(k.rest, decode), later, decode);
      if !r.verdict.Thrown? {
        ValueSame(k.rest, decode);
        if r.verdict.Accepted? && Begins(v, COMMA) {
          MembersThrowIff(v[1..], Put(entries, k.verdict.value, r.verdict.value), decode);
        }
      }
    }
  }

  /**
   The two contexts accept or reject alike and stop in the same place exactly when no number that is read
   overflows. Otherwise only the default one throws.
   */
  lemma ContextsAgree<N>(u: Text, decode: Text -> Decoded<N>)
    ensures Same(ValueLit(u, decode, Default), ValueLit(u, decode, Validating)) <==>
              !SomeInfinite(Numbers(u, decode), decode)
    ensures ValueLit(u, decode, Default).verdict.Thrown? <==> SomeInfinite(Numbers(u, decode), decode)
    ensures !ValueLit(u, decode, Validating).verdict.Thrown?
  {
    ThrowsIff(u, decode);
    ValidatingNeverThrows(u, decode);
    if !ValueLit(u, decode, Default).verdict.Thrown? {
      ValueSame(u, decode);
    }
  }

  /** An input on which they part: 1e999, where it is out of range. Between quotes the same bytes are no number. */
  lemma ContextsPart<N>(decode: Text -> Decoded<N>)
    requires decode([49, 101, 57, 57, 57]).Infinite?
    ensures var u: Text := [49, 101, 57, 57, 57];
            && ValueLit(u, decode, Default).verdict.Thrown?
            && ValueLit(u, decode, Validating) == Parsed(Accepted(Null), [], false)
    ensures var q: Text := [QUOTE, 49, 101, 57, 57, 57, QUOTE];
            && Numbers(q, decode) == []
            && Same(ValueLit(q, decode, Default), ValueLit(q, decode, Validating))
  {
    var u: Text := [49, 101, 57, 57, 57];
    NumberRunOf(u, []);
    assert u + [] == u && u[..5] == u && u[5..] == [];
    ContextsAgree([QUOTE, 49, 101, 57, 57, 57, QUOTE], decode);
  }

  // ----- What a parse leaves unread.

  /** The unread input is always what is left of the input. */
  predicate Suffix(r: Text, u: Text) {
    |r| <= |u| && r == u[|u| - |r|..]
  }

  lemma SuffixOfSuffix(r: Text, s: Text, u: Text)
    requires Suffix(r, s) && Suffix(s, u)
    ensures Suffix(r, u)
  {
  }

  lemma SuffixTail(n: nat, u: Text)
    requires n <= |u|
    ensures Suffix(u[n..], u)
  {
  }

  lemma {:induction false} SpacesSuffix(u: Text)
    ensures Suffix(SkipSpaces(u), u)
  {
    if u != [] && IsSpace(u[0]) {
      SpacesSuffix(u[1..]);
    }
  }

  lemma {:induction false} LiteralSuffix<T>(u: Text, text: Text, value: T)
    ensures Suffix(Literal(u, text, value).rest, u)
    decreases text
  {
    if text != [] && Begins(u, text[0]) {
      LiteralSuffix(u[1..], text[1..], value);
    }
  }

  lemma {:induction false} QuadHexSuffix(u: Text, n: nat, c: nat)
    requires n <= 4 && c < HexBound(n)
    ensures Suffix(QuadHex(u, n, c).rest, u)
    decreases 4 - n
  {
    if n < 4 && u != [] && IsHex(u[0]) {
      QuadHexSuffix(u[1..], n + 1, AddHex(n, c, u[0]));
    }
  }

  lemma LowHalfSuffix(high: nat, u: Text)
    requires Utf8.IsHighSurrogate(high)
    ensures Suffix(LowHalf(high, u).rest, u)
  {
    if Begins(u, BACKSLASH) {
      SuffixTail(1, u);
      var v := u[1..];
      if Begins(v, LOWER_U) {
        QuadHexSuffix(v[1..], 0, 0);
        TailThen(QuadHex(v[1..], 0, 0).rest, v, u);
      }
    }
  }

  lemma CodepointSuffix(u: Text)
    ensures Suffix(Codepoint(u).rest, u)
  {
    var q := QuadHex(u, 0, 0);
    QuadHexSuffix(u, 0, 0);
    if q.verdict.Accepted? && Utf8.IsHighSurrogate(q.verdict.value) {
      LowHalfSuffix(q.verdict.value, q.rest);
      SuffixOfSuffix(LowHalf(q.verdict.value, q.rest).rest, q.rest, u);
    }
  }

  lemma EscapeSuffix(u: Text)
    ensures Suffix(EscapeLit(u).rest, u)
  {
    if u != [] && u[0] == LOWER_U {
      CodepointSuffix(u[1..]);
      TailThen(Codepoint(u[1..]).rest, u, u);
    }
  }

  lemma {:induction false} StringSuffix(u: Text, out: Text)
    ensures Suffix(StringLit(u, out).rest, u)
    decreases |u|
  {
    if u != [] && u[0] >= SPACE && u[0] != QUOTE {
      if u[0] != BACKSLASH {
        StringSuffix(u[1..], out + [u[0]]);
      } else {
        EscapeSuffix(u[1..]);
        var e := EscapeLit(u[1..]);
        if e.verdict.Accepted? {
          StringSuffix(e.rest, out + e.verdict.value);
        }
      }
    }
  }

  lemma TailThen(r: Text, v: Text, u: Text)
    requires v != [] && Suffix(v, u) && Suffix(r, v[1..])
    ensures Suffix(r, u)
  {
  }

  lemma KeySuffix(u: Text)
    ensures Suffix(Key(u).rest, u)
  {
    SpacesSuffix(u);
    var v := SkipSpaces(u);
    if Begins(v, QUOTE) {
      var rest := StringLit(v[1..], []).rest;
      StringSuffix(v[1..], []);
      TailThen(rest, v, u);
      ColonSuffix(rest, u);
    }
  }

  lemma ColonSuffix(rest: Text, u: Text)
    requires Suffix(rest, u)
    ensures Suffix(SkipSpaces(rest), u)
    ensures SkipSpaces(rest) != [] ==> Suffix(SkipSpaces(rest)[1..], u)
  {
    SpacesSuffix(rest);
    SuffixOfSuffix(SkipSpaces(rest), rest, u);
  }

  lemma KeywordSuffix<N>(b: Byte, u: Text, context: Context)
    requires IsKeywordByte(b)
    ensures Suffix(Keyword<N>(b, u, context).rest, u)
  {
    LiteralSuffix<Value<N>>(u, NULL_TEXT[1..], Null);
    LiteralSuffix<Value<N>>(u, FALSE_TEXT[1..], if context.Default? then Bool(false) else Null);
    LiteralSuffix<Value<N>>(u, TRUE_TEXT[1..], if context.Default? then Bool(true) else Null);
  }

  /** Without white space in front. */
  lemma {:induction false} OpenSuffix<N>(v: Text, decode: Text -> Decoded<N>, context: Context)
    requires SkipSpaces(v) == v
    ensures Suffix(ValueLit(v, decode, context).rest, v)
    decreases |v|, 0
  {
    if v != [] {
      if IsKeywordByte(v[0]) {
        KeywordSuffix<N>(v[0], v[1..], context);
        TailThen(Keyword<N>(v[0], v[1..], context).rest, v, v);
      } else if v[0] == QUOTE {
        StringSuffix(v[1..], []);
        TailThen(StringLit(v[1..], []).rest, v, v);
      } else if v[0] == LEFT_BRACKET {
        ArraySuffix(v[1..], decode, context);
        TailThen(ArrayLit(v[1..], decode, context).rest, v, v);
      } else if v[0] == LEFT_BRACE {
        ObjectSuffix(v[1..], decode, context);
        TailThen(ObjectLit(v[1..], decode, context).rest, v, v);
      }
    }
  }

  lemma SpacesFirst<N>(u: Text, decode: Text -> Decoded<N>, context: Context)
    ensures SkipSpaces(SkipSpaces(u)) == SkipSpaces(u)
    ensures ValueLit(u, decode, context) == ValueLit(SkipSpaces(u), decode, context)
  {
  }

  /** What a parse leaves unread is a suffix of its input, in either context and whatever the verdict. */
  lemma {:induction false} ValueSuffix<N>(u: Text, decode: Text -> Decoded<N>, context: Context)
    ensures Suffix(ValueLit(u, decode, context).rest, u)
    decreases |u|, 1
  {
    SpacesSuffix(u);
    SpacesFirst(u, decode, context);
    OpenSuffix(SkipSpaces(u), decode, context);
    SuffixOfSuffix(ValueLit(u, decode, context).rest, SkipSpaces(u), u);
  }

  lemma {:induction false} ArraySuffix<N>(u: Text, decode: Text -> Decoded<N>, context: Context)
    ensures Suffix(ArrayLit(u, decode, context).rest, u)
    decreases |u|, 3
  {
    var w := SkipSpaces(u);
    SpacesSuffix(u);
    if Begins(w, RIGHT_BRACKET) {
      TailThen(w[1..], w, u);
    } else {
      ItemsSuffix(w, [], decode, context);
      SuffixOfSuffix(Items(w, [], decode, context).rest, w, u);
    }
  }

  lemma {:induction false} ObjectSuffix<N>(u: Text, decode: Text -> Decoded<N>, context: Context)
    ensures Suffix(ObjectLit(u, decode, context).rest, u)
    decreases |u|, 3
  {
    var w := SkipSpaces(u);
    SpacesSuffix(u);
    if Begins(w, RIGHT_BRACE) {
      TailThen(w[1..], w, u);
    } else {
      MembersSuffix(w, [], decode, context);
      SuffixOfSuffix(Members(w, [], decode, context).rest, w, u);
    }
  }

  lemma {:induction false} ItemsSuffix<N>(u: Text, items: seq<Value<N>>, decode: Text -> Decoded<N>, context: Context)
    ensures Suffix(Items(u, items, decode, context).rest, u)
    decreases |u|, 2
  {
    ValueSuffix(u, decode, context);
    var r := ValueLit(u, decode, context);
    if r.verdict.Accepted? {
      var v := SkipSpaces(r.rest);
      ColonSuffix(r.rest, u);
      if Begins(v, COMMA) {
        var more := if context.Default? then items + [r.verdict.value] else [];
        ItemsSuffix(v[1..], more, decode, context);
        TailThen(Items(v[1..], more, decode, context).rest, v, u);
      }
    }
  }

  lemma {:induction false} MembersSuffix<N>(u: Text, entries: seq<Entry<N>>, decode: Text -> Decoded<N>,
                                            context: Context)
    ensures Suffix(Members(u, entries, decode, context).rest, u)
    decreases |u|, 2
  {
    var k := Key(u);
    KeySuffix(u);
    if k.verdict.Accepted? {
      ValueSuffix(k.rest, decode, context);
      var r := ValueLit(k.rest, decode, context);
      SuffixOfSuffix(r.rest, k.rest, u);
      if r.verdict.Accepted? {
        var v := SkipSpaces(r.rest);
        ColonSuffix(r.rest, u);
        if Begins(v, COMMA) {
          var more := if context.Default? then Put(entries, k.verdict.value, r.verdict.value) else [];
          MembersSuffix(v[1..], more, decode, context);
          TailThen(Members(v[1..], more, decode, context).rest, v, u);
        }
      }
    }
  }

  // ----- The tokens read stand in the input.

  /** Some place in the input starts a number, and the token is the run of number bytes from there on. */
  predicate StandsAt(token: Text, u: Text, i: nat) {
    i < |u| && StartsNumber(u[i]) && token == u[i..][..NumberRun(u[i..])]
  }

  ghost predicate AllStandIn(tokens: seq<Text>, u: Text) {
    forall t :: t in tokens ==> exists i: nat :: StandsAt(t, u, i)
  }

  lemma StandOutside(tokens: seq<Text>, s: Text, u: Text)
    requires AllStandIn(tokens, s) && Suffix(s, u)
    ensures AllStandIn(tokens, u)
  {
    forall t | t in tokens
      ensures exists i: nat :: StandsAt(t, u, i)
    {
      var i: nat :| StandsAt(t, s, i);
      var k := |u| - |s|;
      assert s[i..] == u[k + i..];
      assert StandsAt(t, u, k + i);
    }
  }

  lemma StandTogether(a: seq<Text>, b: seq<Text>, u: Text)
    requires AllStandIn(a, u) && AllStandIn(b, u)
    ensures AllStandIn(a + b, u)
  {
    assert forall t :: t in a + b <==> t in a || t in b;
  }

  lemma {:induction false} NumbersStand<N>(u: Text, decode: Text -> Decoded<N>)
    ensures AllStandIn(Numbers(u, decode), u)
    decreases |u|, 0
  {
    var v := SkipSpaces(u);
    SpacesSuffix(u);
    if Begins(v, LEFT_BRACKET) {
      var w := SkipSpaces(v[1..]);
      SpacesSuffix(v[1..]);
      TailThen(w, v, u);
      if !Begins(w, RIGHT_BRACKET) {
        ItemNumbersStand(w, decode);
        StandOutside(ItemNumbers(w, decode), w, u);
      }
    } else if Begins(v, LEFT_BRACE) {
      var w := SkipSpaces(v[1..]);
      SpacesSuffix(v[1..]);
      TailThen(w, v, u);
      if !Begins(w, RIGHT_BRACE) {
        MemberNumbersStand(w, decode);
        StandOutside(MemberNumbers(w, decode), w, u);
      }
    } else if v != [] && StartsNumber(v[0]) {
      assert v[0..] == v;
      assert StandsAt(v[..NumberRun(v)], v, 0);
      StandOutside([v[..NumberRun(v)]], v, u);
    }
  }

  lemma {:induction false} ItemNumbersStand<N>(u: Text, decode: Text -> Decoded<N>)
    ensures AllStandIn(ItemNumbers(u, decode), u)
    decreases |u|, 1
  {
    NumbersStand(u, decode);
    var r := ValueLit(u, decode, Validating);
    ValueSuffix(u, decode, Validating);
    ColonSuffix(r.rest, u);
    var v := SkipSpaces(r.rest);
    if r.verdict.Accepted? && Begins(v, COMMA) {
      ItemNumbersStand(v[1..], decode);
      StandOutside(ItemNumbers(v[1..], decode), v[1..], u);
      StandTogether(Numbers(u, decode), ItemNumbers(v[1..], decode), u);
    } else {
      StandTogether(Numbers(u, decode), [], u);
    }
  }

  lemma {:induction false} MemberNumbersStand<N>(u: Text, decode: Text -> Decoded<N>)
    ensures AllStandIn(MemberNumbers(u, decode), u)
    decreases |u|, 1
  {
    var k := Key(u);
    KeySuffix(u);
    if k.verdict.Accepted? {
      NumbersStand(k.rest, decode);
      StandOutside(Numbers(k.rest, decode), k.rest, u);
      var r := ValueLit(k.rest, decode, Validating);
      ValueSuffix(k.rest, decode, Validating);
      SuffixOfSuffix(r.rest, k.rest, u);
      ColonSuffix(r.rest, u);
      var v := SkipSpaces(r.rest);
      if r.verdict.Accepted? && Begins(v, COMMA) {
        MemberNumbersStand(v[1..], decode);
        StandOutside(MemberNumbers(v[1..], decode), v[1..], u);
        StandTogether(Numbers(k.rest, decode), MemberNumbers(v[1..], decode), u);
      } else {
        StandTogether(Numbers(k.rest, decode), [], u);
      }
    }
  }

  // ----- On the text of a tree the tokens read are the tree's.

  function Tokens<N>(t: Tree<N>): seq<Text>
    decreases t, 0
  {
    match t
    case Digits(token, _) => [token]
    case List(_, items) => ItemTokens(items)
    case Record(_, members) => MemberTokens(members)
    case _ => []
  }

  function ItemTokens<N>(items: seq<Item<N>>): seq<Text>
    decreases items
  {
    if items == [] then [] else Tokens(items[0].tree) + ItemTokens(items[1..])
  }

  function MemberTokens<N>(members: seq<Member<N>>): seq<Text>
    decreases members
  {
    if members == [] then [] else Tokens(members[0].value.tree) + MemberTokens(members[1..])
  }

  lemma NumbersSkip<N>(s: Text, u: Text, decode: Text -> Decoded<N>)
    requires AllSpaces(s)
    ensures Numbers(s + u, decode) == Numbers(u, decode)
  {
    SkipSpacesPast(s, u);
  }

  /** Of a text the parser accepts, the numbers read are those of its tree, in order. */
  lemma {:induction false} NumbersOfTree<N>(t: Tree<N>, decode: Text -> Decoded<N>, tail: Text)
    requires WellFormed(t, decode) && (t.Digits? ==> Ends(tail))
    ensures Numbers(Write(t, tail), decode) == Tokens(t)
    decreases t, 1
  {
    FirstByte(t, decode, tail);
    SkipNothing(Write(t, tail));
    match t {
      case Digits(token, _) =>
        NumberRunOf(token, tail);
        assert (token + tail)[..|token|] == token;
      case List(space, items) => NumbersOfList(t, space, items, decode, tail);
      case Record(space, members) => NumbersOfRecord(t, space, members, decode, tail);
      case _ =>
    }
  }

  lemma {:induction false} NumbersOfList<N>(t: Tree<N>, space: Text, items: seq<Item<N>>, decode: Text -> Decoded<N>,
                                            tail: Text)
    requires t == List(space, items) && WellFormed(t, decode)
    ensures Numbers(Write(t, tail), decode) == Tokens(t)
    decreases t, 0
  {
    var u := if items == [] then space + ([RIGHT_BRACKET] + tail) else WriteItems(items, [RIGHT_BRACKET] + tail);
    SkipTo([], LEFT_BRACKET, u);
    Associate([LEFT_BRACKET] + u, [], []);
    if items == [] {
      SkipTo(space, RIGHT_BRACKET, tail);
    } else {
      NumbersOfItems(items, decode, tail);
      ItemNumbersOpen(items, decode, [RIGHT_BRACKET] + tail);
    }
  }

  lemma ItemNumbersOpen<N>(items: seq<Item<N>>, decode: Text -> Decoded<N>, rest: Text)
    requires items != [] && ProperItem(items[0], decode)
    ensures var w := SkipSpaces(WriteItems(items, rest));
            !Begins(w, RIGHT_BRACKET) && ItemNumbers(w, decode) == ItemNumbers(WriteItems(items, rest), decode)
  {
    var item, more := items[0], if |items| == 1 then rest else [COMMA] + WriteItems(items[1..], rest);
    var w := Write(item.tree, item.after + more);
    assert WriteItems(items, rest) == item.before + w;
    SkipSpacesPast(item.before, w);
    FirstByte(item.tree, decode, item.after + more);
    SkipNothing(w);
    NumbersSkip(item.before, w, decode);
    ValueSkipsIn(item.before, w, decode, Validating);
  }

  lemma ValueSkipsIn<N>(s: Text, u: Text, decode: Text -> Decoded<N>, context: Context)
    requires AllSpaces(s)
    ensures ValueLit(s + u, decode, context) == ValueLit(u, decode, context)
  {
    SkipSpacesPast(s, u);
  }

  /** The numbers of one item, and how the validating parser goes on after it. */
  lemma {:induction false} NumbersOfItem<N>(item: Item<N>, decode: Text -> Decoded<N>, b: Byte, w: Text)
    requires ProperItem(item, decode) && (b == COMMA || b == RIGHT_BRACKET || b == RIGHT_BRACE)
    ensures var u := WriteItem(item, [b] + w);
            && Numbers(u, decode) == Tokens(item.tree)
            && ValueLit(u, decode, Validating).verdict.Accepted?
            && SkipSpaces(ValueLit(u, decode, Validating).rest) == [b] + w
    decreases item, 2
  {
    var u, tail := WriteItem(item, [b] + w), item.after + ([b] + w);
    ItemReads(item, decode, b, w);
    ValueSame(u, decode);
    assert Ends(tail) by {
      if item.after != [] { assert tail[0] == item.after[0]; }
    }
    NumbersSkip(item.before, Write(item.tree, tail), decode);
    NumbersOfTree(item.tree, decode, tail);
  }

  lemma ItemNumbersStep<N>(u: Text, decode: Text -> Decoded<N>, b: Byte, w: Text)
    requires ValueLit(u, decode, Validating).verdict.Accepted?
    requires SkipSpaces(ValueLit(u, decode, Validating).rest) == [b] + w
    ensures ItemNumbers(u, decode) == Numbers(u, decode) + if b == COMMA then ItemNumbers(w, decode) else []
  {
    assert ([b] + w)[1..] == w;
  }

  lemma {:induction false} NumbersOfItems<N>(items: seq<Item<N>>, decode: Text -> Decoded<N>, tail: Text)
    requires items != [] && forall i :: 0 <= i < |items| ==> ProperItem(items[i], decode)
    ensures ItemNumbers(WriteItems(items, [RIGHT_BRACKET] + tail), decode) == ItemTokens(items)
    decreases items
  {
    var u := WriteItems(items, [RIGHT_BRACKET] + tail);
    if |items| == 1 {
      NumbersOfItem(items[0], decode, RIGHT_BRACKET, tail);
      ItemNumbersStep(u, decode, RIGHT_BRACKET, tail);
      assert ItemTokens(items[1..]) == [];
    } else {
      var next := WriteItems(items[1..], [RIGHT_BRACKET] + tail);
      NumbersOfItem(items[0], decode, COMMA, next);
      ItemNumbersStep(u, decode, COMMA, next);
      NumbersOfItems(items[1..], decode, tail);
    }
  }

  lemma {:induction false} NumbersOfRecord<N>(t: Tree<N>, space: Text, members: seq<Member<N>>,
                                              decode: Text -> Decoded<N>, tail: Text)
    requires t == Record(space, members) && WellFormed(t, decode)
    ensures Numbers(Write(t, tail), decode) == Tokens(t)
    decreases t, 0
  {
    var u := if members == [] then space + ([RIGHT_BRACE] + tail) else WriteMembers(members, [RIGHT_BRACE] + tail);
    SkipTo([], LEFT_BRACE, u);
    Associate([LEFT_BRACE] + u, [], []);
    if members == [] {
      SkipTo(space, RIGHT_BRACE, tail);
    } else {
      NumbersOfMembers(members, decode, tail);
      MemberNumbersOpen(members, decode, [RIGHT_BRACE] + tail);
    }
  }

  lemma MemberNumbersOpen<N>(members: seq<Member<N>>, decode: Text -> Decoded<N>, rest: Text)
    requires members != [] && ProperMember(members[0], decode)
    ensures var w := SkipSpaces(WriteMembers(members, rest));
            !Begins(w, RIGHT_BRACE) && MemberNumbers(w, decode) == MemberNumbers(WriteMembers(members, rest), decode)
  {
    var m, more := members[0], if |members| == 1 then rest else [COMMA] + WriteMembers(members[1..], rest);
    var w := PartsText(m.key, [QUOTE] + (m.colon + ([COLON] + WriteItem(m.value, more))));
    assert WriteMembers(members, rest) == m.before + ([QUOTE] + w);
    SkipTo(m.before, QUOTE, w);
    SkipNothing([QUOTE] + w);
  }

  lemma MemberNumbersStep<N>(u: Text, decode: Text -> Decoded<N>, b: Byte, w: Text)
    requires Key(u).verdict.Accepted? && ValueLit(Key(u).rest, decode, Validating).verdict.Accepted?
    requires SkipSpaces(ValueLit(Key(u).rest, decode, Validating).rest) == [b] + w
    ensures MemberNumbers(u, decode) == Numbers(Key(u).rest, decode) + if b
            == COMMA then MemberNumbers(w, decode) else []
  {
    assert ([b] + w)[1..] == w;
  }

  lemma {:induction false} NumbersOfMember<N>(m: Member<N>, decode: Text -> Decoded<N>, b: Byte, w: Text)
    requires ProperMember(m, decode) && (b == COMMA || b == RIGHT_BRACE)
    ensures var u := WriteMember(m, [b] + w);
            MemberNumbers(u, decode) == Tokens(m.value.tree) + if b == COMMA then MemberNumbers(w, decode) else []
    decreases m, 3
  {
    KeyReads(m.before, m.key, m.colon, WriteItem(m.value, [b] + w));
    NumbersOfItem(m.value, decode, b, w);
    MemberNumbersStep(WriteMember(m, [b] + w), decode, b, w);
  }

  lemma {:induction false} NumbersOfMembers<N>(members: seq<Member<N>>, decode: Text -> Decoded<N>, tail: Text)
    requires members != [] && forall i :: 0 <= i < |members| ==> ProperMember(members[i], decode)
    ensures MemberNumbers(WriteMembers(members, [RIGHT_BRACE] + tail), decode) == MemberTokens(members)
    decreases members
  {
    if |members| == 1 {
      NumbersOfMember(members[0], decode, RIGHT_BRACE, tail);
      assert MemberTokens(members[1..]) == [];
    } else {
      NumbersOfMember(members[0], decode, COMMA, WriteMembers(members[1..], [RIGHT_BRACE] + tail));
      NumbersOfMembers(members[1..], decode, tail);
    }
  }
}
