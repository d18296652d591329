/** The converse: whatever the parser accepts is the text of a well-formed tree, read with the tree's meaning. */
module JsonAccepts {
  import opened Options
  import opened Sequences
  import opened JsonText
  import opened JsonPrinter
  import opened JsonGrammar
  import opened JsonEscapes
  import opened JsonSyntax
  import Utf8

  lemma SpaceInFront(b: Byte, s: Text, u: Text)
    requires IsSpace(b) && AllSpaces(s)
    ensures AllSpaces([b] + s) && [b] + s + u == [b] + (s + u)
  {
  }

  lemma {:induction false} SpacesBefore(u: Text) returns (s: Text)
    ensures AllSpaces(s) && u == s + SkipSpaces(u)
  {
    if u != [] && IsSpace(u[0]) {
      s := SpacesBefore(u[1..]);
      SpaceInFront(u[0], s, SkipSpaces(u[1..]));
      assert u == [u[0]] + u[1..];
      s := [u[0]] + s;
    } else {
      s := [];
      Associate(u, [], []);
    }
  }

  lemma SpacesThen(u: Text, b: Byte) returns (s: Text)
    requires Begins(SkipSpaces(u), b)
    ensures AllSpaces(s) && u == s + ([b] + SkipSpaces(u)[1..])
  {
    s := SpacesBefore(u);
    assert SkipSpaces(u) == [b] + SkipSpaces(u)[1..];
  }

  lemma FirstOfBoth(u: Text, text: Text, rest: Text)
    requires u != [] && text != [] && u[0] == text[0] && u[1..] == text[1..] + rest
    ensures u == text + rest
  {
  }

  lemma {:induction false} LiteralInverse<T>(u: Text, text: Text, value: T)
    requires Literal(u, text, value).verdict.Accepted?
    ensures Literal(u, text, value).verdict == Accepted(value) && u == text + Literal(u, text, value).rest
    decreases text
  {
    if text == [] {
      Associate([], u, []);
    } else {
      LiteralInverse(u[1..], text[1..], value);
      FirstOfBoth(u, text, Literal(u, text, value).rest);
    }
  }

  /** An accepted escape, as a part of a string. */
  lemma EscapeInverse(u: Text) returns (p: Part)
    requires EscapeLit(u).verdict.Accepted?
    ensures ProperPart(p) && EscapeLit(u).verdict.value == PartMeaning(p)
    ensures [BACKSLASH] + u == PartText(p) + EscapeLit(u).rest
  {
    assert [BACKSLASH] + u == [BACKSLASH, u[0]] + u[1..];
    if u[0] == LOWER_U {
      p := UnicodeInverse(u[1..]);
      Associate([BACKSLASH, LOWER_U], p.spelling, Codepoint(u[1..]).rest);
    } else {
      p := Letter(u[0]);
    }
  }

  lemma UnicodeInverse(u: Text) returns (p: Part)
    requires Codepoint(u).verdict.Accepted?
    ensures p.Unicode? && ProperPart(p) && PartMeaning(p) == Codepoint(u).verdict.value
    ensures u == p.spelling + Codepoint(u).rest
  {
    EscapeIff(u, 0, []);
    var c, rest :| Spells(u, c, rest);
    SpelledIsScalar(u, c, rest);
    EscapeIff(u, c, rest);
    var n := |u| - |rest|;
    p := Unicode(u[..n], c);
    SpellingAlone(u, c, rest);
  }

  lemma SpellingAlone(u: Text, c: nat, rest: Text)
    requires Spells(u, c, rest)
    ensures |rest| <= |u| && Spells(u[..|u| - |rest|], c, []) && u == u[..|u| - |rest|] + rest
  {
    var h := u[..|u| - |rest|];
    if |h| >= 10 {
      assert h[6..] == u[6..10];
    }
  }

  lemma PartsGrow(parts: seq<Part>, p: Part, rest: Text)
    ensures PartsText([p] + parts, rest) == PartText(p) + PartsText(parts, rest)
    ensures PartsMeaning([p] + parts) == PartMeaning(p) + PartsMeaning(parts)
  {
    assert ([p] + parts)[1..] == parts;
  }

  lemma {:induction false} StringInverse(u: Text, out: Text) returns (parts: seq<Part>)
    requires StringLit(u, out).verdict.Accepted?
    ensures ProperParts(parts) && u == PartsText(parts, [QUOTE] + StringLit(u, out).rest)
    ensures StringLit(u, out).verdict.value == out + PartsMeaning(parts)
    decreases |u|
  {
    if u[0] == QUOTE {
      parts := [];
      assert u == [QUOTE] + u[1..];
      Associate(out, [], []);
    } else if u[0] != BACKSLASH {
      parts := StringInverse(u[1..], out + [u[0]]);
      assert u == [u[0]] + u[1..];
      PartsGrow(parts, Plain(u[0]), [QUOTE] + StringLit(u, out).rest);
      Associate(out, [u[0]], PartsMeaning(parts));
      parts := [Plain(u[0])] + parts;
    } else {
      var e := EscapeLit(u[1..]);
      var p := EscapeInverse(u[1..]);
      parts := StringInverse(e.rest, out + e.verdict.value);
      assert u == [BACKSLASH] + u[1..];
      PartsGrow(parts, p, [QUOTE] + StringLit(u, out).rest);
      Associate(out, PartMeaning(p), PartsMeaning(parts));
      parts := [p] + parts;
    }
  }

  lemma {:induction false} NumberRunEnds(u: Text)
    ensures forall k :: 0 <= k < NumberRun(u) ==> IsNumberByte(u[k])
    ensures Ends(u[NumberRun(u)..])
  {
    if u != [] && IsNumberByte(u[0]) {
      NumberRunEnds(u[1..]);
      assert u[NumberRun(u)..] == u[1..][NumberRun(u[1..])..];
      assert u == [u[0]] + u[1..];
    }
  }

  lemma NumberInverse<N>(v: Text, decode: Text -> Decoded<N>) returns (t: Tree<N>)
    requires v != [] && StartsNumber(v[0]) && NumberLit(v, decode, Default).verdict.Accepted?
    ensures t.Digits? && WellFormed(t, decode)
            && Reads(NumberLit(v, decode, Default), Meaning(t), NumberLit(v, decode, Default).rest)
    ensures v == Write(t, NumberLit(v, decode, Default).rest) && Ends(NumberLit(v, decode, Default).rest)
  {
    var n := NumberRun(v);
    NumberRunEnds(v);
    assert v == v[..n] + v[n..];
    t := Digits(v[..n], decode(v[..n]).n);
  }

  lemma KeywordInverse<N>(b: Byte, u: Text) returns (t: Tree<N>)
    requires IsKeywordByte(b) && Keyword<N>(b, u, Default).verdict.Accepted?
    ensures (t.NullWord? || t.BoolWord?) && Keyword<N>(b, u, Default).verdict.value == Meaning(t)
    ensures [b] + u == Write(t, Keyword<N>(b, u, Default).rest)
  {
    var text: Text;
    if b == NULL_TEXT[0] {
      t, text := NullWord, NULL_TEXT;
    } else if b == FALSE_TEXT[0] {
      t, text := BoolWord(false), FALSE_TEXT;
    } else {
      t, text := BoolWord(true), TRUE_TEXT;
    }
    LiteralInverse<Value<N>>(u, text[1..], Meaning(t));
    assert text == [b] + text[1..];
    Associate([b], text[1..], Keyword<N>(b, u, Default).rest);
  }

  lemma CharsInverse<N>(u: Text, decode: Text -> Decoded<N>) returns (t: Tree<N>)
    requires StringValue<N>(u, Default).verdict.Accepted?
    ensures t.Chars? && WellFormed(t, decode) && StringValue<N>(u, Default).verdict.value == Meaning(t)
    ensures [QUOTE] + u == Write(t, StringValue<N>(u, Default).rest)
  {
    var parts := StringInverse(u, []);
    Associate(PartsMeaning(parts), [], []);
    t := Chars(parts);
  }

  /** Without white space in front, an accepted value is the text of a tree from its first byte on. */
  lemma {:induction false} TreeInverse<N>(v: Text, decode: Text -> Decoded<N>) returns (t: Tree<N>)
    requires SkipSpaces(v) == v && ValueLit(v, decode, Default).verdict.Accepted?
    ensures WellFormed(t, decode) && ValueLit(v, decode, Default).verdict.value == Meaning(t)
    ensures v == Write(t, ValueLit(v, decode, Default).rest)
    ensures t.Digits? ==> Ends(ValueLit(v, decode, Default).rest)
    decreases |v|, 0
  {
    assert v == [v[0]] + v[1..];
    if IsKeywordByte(v[0]) {
      t := KeywordInverse<N>(v[0], v[1..]);
    } else if v[0] == QUOTE {
      t := CharsInverse(v[1..], decode);
    } else if v[0] == LEFT_BRACKET {
      t := ListInverse(v[1..], decode);
    } else if v[0] == LEFT_BRACE {
      t := RecordInverse(v[1..], decode);
    } else {
      t := NumberInverse(v, decode);
    }
  }

  lemma {:induction false} ValueInverse<N>(u: Text, decode: Text -> Decoded<N>) returns (s: Text, t: Tree<N>)
    requires ValueLit(u, decode, Default).verdict.Accepted?
    ensures AllSpaces(s) && WellFormed(t, decode) && ValueLit(u, decode, Default).verdict.value == Meaning(t)
    ensures u == s + Write(t, ValueLit(u, decode, Default).rest)
    ensures t.Digits? ==> Ends(ValueLit(u, decode, Default).rest)
    decreases |u|, 1
  {
    s := SpacesBefore(u);
    var v := SkipSpaces(u);
    ValueSkips(s, v, decode);
    SkipNothing(v);
    t := TreeInverse(v, decode);
  }

  lemma {:induction false} ListInverse<N>(u: Text, decode: Text -> Decoded<N>) returns (t: Tree<N>)
    requires ArrayLit(u, decode, Default).verdict.Accepted?
    ensures t.List? && WellFormed(t, decode) && ArrayLit(u, decode, Default).verdict.value == Meaning(t)
    ensures [LEFT_BRACKET] + u == Write(t, ArrayLit(u, decode, Default).rest)
    decreases |u|, 3
  {
    var w := SkipSpaces(u);
    if Begins(w, RIGHT_BRACKET) {
      var s := SpacesThen(u, RIGHT_BRACKET);
      t := List(s, []);
    } else {
      var s := SpacesBefore(u);
      ItemsSkip(s, w, decode);
      var items := ItemsInverse(u, [], decode);
      assert [] + ItemMeanings(items) == ItemMeanings(items);
      t := List([], items);
    }
  }

  lemma ItemOf<N>(u: Text, s: Text, t: Tree<N>, rest: Text, b: Byte) returns (item: Item<N>)
    requires u == s + Write(t, rest) && Begins(SkipSpaces(rest), b)
    ensures item.before == s && item.tree == t && AllSpaces(item.after)
    ensures u == WriteItem(item, [b] + SkipSpaces(rest)[1..])
  {
    var after := SpacesThen(rest, b);
    item := Item(s, t, after);
  }

  lemma {:induction false} ItemsInverse<N>(u: Text, done: seq<Value<N>>, decode: Text -> Decoded<N>)
    returns (items: seq<Item<N>>)
    requires Items(u, done, decode, Default).verdict.Accepted?
    ensures items != [] && forall i :: 0 <= i < |items| ==> ProperItem(items[i], decode)
    ensures u == WriteItems(items, [RIGHT_BRACKET] + Items(u, done, decode, Default).rest)
    ensures Items(u, done, decode, Default).verdict.value == Array(done + ItemMeanings(items))
    decreases |u|, 2
  {
    var r := ValueLit(u, decode, Default);
    var s, t := ValueInverse(u, decode);
    var v, all := SkipSpaces(r.rest), Items(u, done, decode, Default).rest;
    if Begins(v, COMMA) {
      var item := ItemOf(u, s, t, r.rest, COMMA);
      items := ItemsInverse(v[1..], done + [r.verdict.value], decode);
      ItemsGrow(item, items, [RIGHT_BRACKET] + all);
      Associate(done, [Meaning(t)], ItemMeanings(items));
      items := [item] + items;
    } else {
      var item := ItemOf(u, s, t, r.rest, RIGHT_BRACKET);
      ItemAlone(item, [RIGHT_BRACKET] + all);
      items := [item];
    }
  }

  lemma {:induction false} RecordInverse<N>(u: Text, decode: Text -> Decoded<N>) returns (t: Tree<N>)
    requires ObjectLit(u, decode, Default).verdict.Accepted?
    ensures t.Record? && WellFormed(t, decode) && ObjectLit(u, decode, Default).verdict.value == Meaning(t)
    ensures [LEFT_BRACE] + u == Write(t, ObjectLit(u, decode, Default).rest)
    decreases |u|, 3
  {
    var w := SkipSpaces(u);
    if Begins(w, RIGHT_BRACE) {
      var s := SpacesThen(u, RIGHT_BRACE);
      t := Record(s, []);
    } else {
      var s := SpacesBefore(u);
      MembersSkip(s, w, decode);
      var members := MembersInverse(u, [], decode);
      t := Record([], members);
    }
  }

  lemma MembersSkip<N>(s: Text, u: Text, decode: Text -> Decoded<N>)
    requires AllSpaces(s)
    ensures Members(s + u, [], decode, Default) == Members(u, [], decode, Default)
  {
    SkipSpacesPast(s, u);
  }

  /** What an accepted key was: white space, a string, white space, a colon. */
  lemma KeyInverse(u: Text) returns (before: Text, key: seq<Part>, colon: Text)
    requires Key(u).verdict.Accepted?
    ensures AllSpaces(before) && ProperParts(key) && AllSpaces(colon) && Key(u).verdict.value == PartsMeaning(key)
    ensures u == before + ([QUOTE] + PartsText(key, [QUOTE] + (colon + ([COLON] + Key(u).rest))))
  {
    before := SpacesThen(u, QUOTE);
    var v := SkipSpaces(u)[1..];
    key := StringInverse(v, []);
    Associate(PartsMeaning(key), [], []);
    colon := SpacesThen(StringLit(v, []).rest, COLON);
  }

  lemma {:induction false} MembersInverse<N>(u: Text, done: seq<Entry<N>>, decode: Text -> Decoded<N>)
    returns (members: seq<Member<N>>)
    requires Members(u, done, decode, Default).verdict.Accepted?
    ensures members != [] && forall i :: 0 <= i < |members| ==> ProperMember(members[i], decode)
    ensures u == WriteMembers(members, [RIGHT_BRACE] + Members(u, done, decode, Default).rest)
    ensures Members(u, done, decode, Default).verdict.value == Object(MemberMeanings(done, members))
    decreases |u|, 2
  {
    var before, key, colon := KeyInverse(u);
    var w := Key(u).rest;
    var r := ValueLit(w, decode, Default);
    var s, t := ValueInverse(w, decode);
    var v, all := SkipSpaces(r.rest), Members(u, done, decode, Default).rest;
    if Begins(v, COMMA) {
      var item := ItemOf(w, s, t, r.rest, COMMA);
      var m := Member(before, key, colon, item);
      members := MembersInverse(v[1..], Put(done, Key(u).verdict.value, r.verdict.value), decode);
      MembersGrow(m, members, [RIGHT_BRACE] + all, done);
      members := [m] + members;
    } else {
      var item := ItemOf(w, s, t, r.rest, RIGHT_BRACE);
      var m := Member(before, key, colon, item);
      MemberAlone(m, [RIGHT_BRACE] + all, done);
      members := [m];
    }
  }

  /** White space, then the text of a well-formed tree that means `v`, then `tail`. */
  ghost predicate TextOf<N(!new)>(u: Text, v: Value<N>, tail: Text, decode: Text -> Decoded<N>) {
    exists s: Text, t: Tree<N> :: AllSpaces(s) && WellFormed(t, decode) && (t.Digits? ==> Ends(tail))
                         && u == s + Write(t, tail) && Meaning(t) == v
  }

  /** The parser accepts exactly the texts of well-formed trees, whatever their layout and escapes, at their meaning. */
  lemma AcceptsIff<N(!new)>(u: Text, v: Value<N>, tail: Text, decode: Text -> Decoded<N>)
    ensures Reads(ValueLit(u, decode, Default), v, tail) <==> TextOf(u, v, tail, decode)
  {
    if Reads(ValueLit(u, decode, Default), v, tail) {
      var s, t := ValueInverse(u, decode);
    }
    if TextOf(u, v, tail, decode) {
      var s: Text, t: Tree<N> :| AllSpaces(s) && WellFormed(t, decode) && (t.Digits? ==> Ends(tail))
                        && u == s + Write(t, tail) && Meaning(t) == v;
      TreeReads(t, decode, tail);
      ValueSkips(s, Write(t, tail), decode);
    }
  }
}
