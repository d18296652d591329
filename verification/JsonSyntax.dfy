/**
 JSON texts as derivation trees: what a tree's text is and what it means. The parser accepts exactly the texts of
 well-formed trees, with their meaning.
 */
module JsonSyntax {
  import opened Options
  import opened Sequences
  import opened JsonText
  import opened JsonPrinter
  import opened JsonGrammar
  import opened JsonEscapes
  import Utf8

  // ----- Strings.

  /** One character of a string: a byte as it is, a one-letter escape, or a \u escape of a scalar value. */
  datatype Part = Plain(b: Byte) | Letter(b: Byte) | Unicode(spelling: Text, c: nat)

  predicate ProperPart(p: Part) {
    match p
    case Plain(b) => b >= SPACE && b != QUOTE && b != BACKSLASH
    case Letter(b) => Unescaped(b).Some?
    case Unicode(spelling, c) => Spells(spelling, c, [])
  }

  predicate ProperParts(parts: seq<Part>) {
    forall k :: 0 <= k < |parts| ==> ProperPart(parts[k])
  }

  function PartText(p: Part): Text {
    match p
    case Plain(b) => [b]
    case Letter(b) => [BACKSLASH, b]
    case Unicode(spelling, c) => [BACKSLASH, LOWER_U] + spelling
  }

  /** What a proper character stands for. */
  function PartMeaning(p: Part): Text {
    match p
    case Plain(b) => [b]
    case Letter(b) => if Unescaped(b).Some? then [Unescaped(b).value] else []
    case Unicode(_, c) => if c < 0x110000 then Utf8.Encode(c) else []
  }

  /** The text of some characters, followed by `rest`. */
  function PartsText(parts: seq<Part>, rest: Text): Text {
    if parts == [] then rest else PartText(parts[0]) + PartsText(parts[1..], rest)
  }

  function PartsMeaning(parts: seq<Part>): Text {
    if parts == [] then [] else PartMeaning(parts[0]) + PartsMeaning(parts[1..])
  }

  // ----- Trees.

  /** White space may stand before and after every item; an empty list or record may hold white space. */
  datatype Tree<N> =
    | NullWord
    | BoolWord(b: bool)
    | Digits(token: Text, n: N)
    | Chars(parts: seq<Part>)
    | List(space: Text, items: seq<Item<N>>)
    | Record(space: Text, members: seq<Member<N>>)

  datatype Item<N> = Item(before: Text, tree: Tree<N>, after: Text)

  datatype Member<N> = Member(before: Text, key: seq<Part>, colon: Text, value: Item<N>)

  ghost predicate WellFormed<N>(t: Tree<N>, decode: Text -> Decoded<N>)
    decreases t
  {
    match t
    case NullWord => true
    case BoolWord(_) => true
    case Digits(token, n) =>
      && token != [] && StartsNumber(token[0])
      && (forall k :: 0 <= k < |token| ==> IsNumberByte(token[k]))
      && decode(token) == Finite(n)
    case Chars(parts) => ProperParts(parts)
    case List(space, items) => AllSpaces(space) && forall i :: 0 <= i < |items| ==> ProperItem(items[i], decode)
    case Record(space, members) => AllSpaces(space) && forall i :: 0 <= i < |members| ==> ProperMember(members[i],
                decode)
  }

  ghost predicate ProperItem<N>(item: Item<N>, decode: Text -> Decoded<N>)
    decreases item
  {
    AllSpaces(item.before) && WellFormed(item.tree, decode) && AllSpaces(item.after)
  }

  ghost predicate ProperMember<N>(m: Member<N>, decode: Text -> Decoded<N>)
    decreases m
  {
    AllSpaces(m.before) && ProperParts(m.key) && AllSpaces(m.colon) && ProperItem(m.value, decode)
  }

  /** The text of a tree, followed by `rest`. */
  function Write<N>(t: Tree<N>, rest: Text): Text
    decreases t, 0
  {
    match t
    case NullWord => NULL_TEXT + rest
    case BoolWord(b) => (if b then TRUE_TEXT else FALSE_TEXT) + rest
    case Digits(token, _) => token + rest
    case Chars(parts) => [QUOTE] + PartsText(parts, [QUOTE] + rest)
    case List(space, items) =>
      [LEFT_BRACKET]
        + (if items == [] then space + ([RIGHT_BRACKET] + rest) else WriteItems(items, [RIGHT_BRACKET] + rest))
    case Record(space, members) =>
      [LEFT_BRACE]
        + (if members == [] then space + ([RIGHT_BRACE] + rest) else WriteMembers(members, [RIGHT_BRACE] + rest))
  }

  function WriteItem<N>(item: Item<N>, rest: Text): Text
    decreases item, 1
  {
    item.before + Write(item.tree, item.after + rest)
  }

  function WriteItems<N>(items: seq<Item<N>>, rest: Text): Text
    requires items != []
    decreases items
  {
    WriteItem(items[0], if |items| == 1 then rest else [COMMA] + WriteItems(items[1..], rest))
  }

  /** The text of a member, followed by `rest`. */
  function WriteMember<N>(m: Member<N>, rest: Text): Text
    decreases m, 2
  {
    m.before + ([QUOTE] + PartsText(m.key, [QUOTE] + (m.colon + ([COLON] + WriteItem(m.value, rest)))))
  }

  function WriteMembers<N>(members: seq<Member<N>>, rest: Text): Text
    requires members != []
    decreases members
  {
    WriteMember(members[0], if |members| == 1 then rest else [COMMA] + WriteMembers(members[1..], rest))
  }

  function Meaning<N>(t: Tree<N>): Value<N>
    decreases t, 0
  {
    match t
    case NullWord => Null
    case BoolWord(b) => Bool(b)
    case Digits(_, n) => Number(n)
    case Chars(parts) => Str(PartsMeaning(parts))
    case List(_, items) => Array(ItemMeanings(items))
    case Record(_, members) => Object(MemberMeanings([], members))
  }

  function ItemMeanings<N>(items: seq<Item<N>>): seq<Value<N>>
    decreases items
  {
    if items == [] then [] else [Meaning(items[0].tree)] + ItemMeanings(items[1..])
  }

  /** Members are assigned in turn, so a later member with the same key wins. */
  function MemberMeanings<N>(entries: seq<Entry<N>>, members: seq<Member<N>>): seq<Entry<N>>
    decreases members
  {
    if members == [] then entries
    else MemberMeanings(Put(entries, PartsMeaning(members[0].key), Meaning(members[0].value.tree)), members[1..])
  }

  lemma ItemsGrow<N>(item: Item<N>, items: seq<Item<N>>, rest: Text)
    requires items != []
    ensures WriteItems([item] + items, rest) == WriteItem(item, [COMMA] + WriteItems(items, rest))
    ensures ItemMeanings([item] + items) == [Meaning(item.tree)] + ItemMeanings(items)
  {
    assert ([item] + items)[1..] == items;
  }

  lemma ItemAlone<N>(item: Item<N>, rest: Text)
    ensures WriteItems([item], rest) == WriteItem(item, rest) && ItemMeanings([item]) == [Meaning(item.tree)]
  {
    assert [item][1..] == [];
  }

  lemma MembersGrow<N>(m: Member<N>, members: seq<Member<N>>, rest: Text, entries: seq<Entry<N>>)
    requires members != []
    ensures WriteMembers([m] + members, rest) == WriteMember(m, [COMMA] + WriteMembers(members, rest))
    ensures MemberMeanings(entries, [m] + members)
         == MemberMeanings(Put(entries, PartsMeaning(m.key), Meaning(m.value.tree)), members)
  {
    assert ([m] + members)[1..] == members;
  }

  lemma MemberAlone<N>(m: Member<N>, rest: Text, entries: seq<Entry<N>>)
    ensures WriteMembers([m], rest) == WriteMember(m, rest)
    ensures MemberMeanings(entries, [m]) == Put(entries, PartsMeaning(m.key), Meaning(m.value.tree))
  {
    assert [m][1..] == [];
  }

  lemma {:induction false} ItemMeaningsAre<N>(items: seq<Item<N>>)
    ensures |ItemMeanings(items)| == |items|
    ensures forall k :: 0 <= k < |items| ==> ItemMeanings(items)[k] == Meaning(items[k].tree)
  {
    if items != [] {
      ItemMeaningsAre(items[1..]);
    }
  }

  predicate HasKey<N>(m: Member<N>, key: Text) {
    PartsMeaning(m.key) == key
  }

  predicate LastWithKey<N>(members: seq<Member<N>>, key: Text, k: nat) {
    k < |members| && HasKey(members[k], key) && forall m :: k < m < |members| ==> !HasKey(members[m], key)
  }

  lemma MeaningsStep<N>(entries: seq<Entry<N>>, members: seq<Member<N>>) returns (put: seq<Entry<N>>)
    requires members != []
    ensures put == Put(entries, PartsMeaning(members[0].key), Meaning(members[0].value.tree))
    ensures MemberMeanings(entries, members) == MemberMeanings(put, members[1..])
  {
    put := Put(entries, PartsMeaning(members[0].key), Meaning(members[0].value.tree));
  }

  lemma {:induction false} MeaningsAscend<N(!new)>(entries: seq<Entry<N>>, members: seq<Member<N>>)
    requires KeysAscend(entries)
    ensures KeysAscend(MemberMeanings(entries, members))
    decreases |members|
  {
    if members != [] {
      var put := MeaningsStep(entries, members);
      PutAssigns(entries, PartsMeaning(members[0].key), Meaning(members[0].value.tree), []);
      MeaningsAscend(put, members[1..]);
    }
  }

  /** A key that no member has holds what it held. */
  lemma {:induction false} OtherKeysStay<N(!new)>(entries: seq<Entry<N>>, members: seq<Member<N>>, key: Text)
    requires KeysAscend(entries) && forall m :: 0 <= m < |members| ==> !HasKey(members[m], key)
    ensures Get(MemberMeanings(entries, members), key) == Get(entries, key)
    decreases |members|
  {
    if members != [] {
      var put := MeaningsStep(entries, members);
      PutAssigns(entries, PartsMeaning(members[0].key), Meaning(members[0].value.tree), key);
      OtherKeysStay(put, members[1..], key);
    }
  }

  /** Of the members with one key the last one counts. */
  lemma {:induction false} LastMemberCounts<N(!new)>(entries: seq<Entry<N>>, members: seq<Member<N>>, key: Text, k: nat)
    requires KeysAscend(entries) && LastWithKey(members, key, k)
    ensures Get(MemberMeanings(entries, members), key) == Some(Meaning(members[k].value.tree))
    decreases |members|
  {
    var put := MeaningsStep(entries, members);
    PutAssigns(entries, PartsMeaning(members[0].key), Meaning(members[0].value.tree), key);
    if k == 0 {
      OtherKeysStay(put, members[1..], key);
    } else {
      LastMemberCounts(put, members[1..], key, k - 1);
    }
  }

  // ----- The parser accepts every text of a well-formed tree.

  lemma SpellsBefore(spelling: Text, c: nat, u: Text)
    requires Spells(spelling, c, [])
    ensures Codepoint(spelling + u) == Accept(Utf8.Encode(c), u) && Utf8.IsScalar(c)
  {
    SpelledIsScalar(spelling, c, []);
    var s := spelling + u;
    assert s[..|spelling|] == spelling;
    if |spelling| >= 10 {
      assert s[6..][..4] == spelling[6..][..4];
    }
    assert Spells(s, c, u);
    EscapeIff(s, c, u);
  }

  lemma EscapeReads(v: Text, b: Text, u: Text, out: Text)
    requires EscapeLit(v) == Accept(b, u)
    ensures StringLit([BACKSLASH] + v, out) == StringLit(u, out + b)
  {
    assert ([BACKSLASH] + v)[1..] == v;
  }

  lemma LetterReads(letter: Byte, u: Text, out: Text)
    requires Unescaped(letter).Some?
    ensures StringLit([BACKSLASH, letter] + u, out) == StringLit(u, out + [Unescaped(letter).value])
  {
    var v := [letter] + u;
    assert v[1..] == u && [BACKSLASH, letter] + u == [BACKSLASH] + v;
    EscapeReads(v, [Unescaped(letter).value], u, out);
  }

  lemma UnicodeText(spelling: Text, u: Text)
    ensures [BACKSLASH, LOWER_U] + spelling + u == [BACKSLASH] + ([LOWER_U] + (spelling + u))
    ensures ([LOWER_U] + (spelling + u))[1..] == spelling + u
  {
  }

  lemma UnicodeReads(spelling: Text, c: nat, u: Text, out: Text)
    requires Spells(spelling, c, [])
    ensures c < 0x110000 && StringLit([BACKSLASH, LOWER_U] + spelling + u, out) == StringLit(u, out + Utf8.Encode(c))
  {
    SpellsBefore(spelling, c, u);
    UnicodeText(spelling, u);
    EscapeReads([LOWER_U] + (spelling + u), Utf8.Encode(c), u, out);
  }

  lemma PartReads(p: Part, u: Text, out: Text)
    requires ProperPart(p)
    ensures StringLit(PartText(p) + u, out) == StringLit(u, out + PartMeaning(p))
  {
    match p {
      case Plain(b) => assert (PartText(p) + u)[1..] == u;
      case Letter(b) => LetterReads(b, u, out);
      case Unicode(spelling, c) => UnicodeReads(spelling, c, u, out);
    }
  }

  /** A string is read up to and with its closing quote. */
  lemma {:induction false} PartsRead(parts: seq<Part>, tail: Text, out: Text)
    requires ProperParts(parts)
    ensures StringLit(PartsText(parts, [QUOTE] + tail), out) == Accept(out + PartsMeaning(parts), tail)
  {
    if parts == [] {
      assert ([QUOTE] + tail)[1..] == tail;
      Associate(out, [], []);
    } else {
      PartReads(parts[0], PartsText(parts[1..], [QUOTE] + tail), out);
      PartsRead(parts[1..], tail, out + PartMeaning(parts[0]));
      Associate(out, PartMeaning(parts[0]), PartsMeaning(parts[1..]));
    }
  }

  /** What may follow a number: nothing that could be taken for more of it. */
  predicate Ends(tail: Text) {
    tail == [] || !IsNumberByte(tail[0])
  }

  /** A parse that is accepted with this value and leaves this rest. */
  predicate Reads<T(==)>(r: Parsed<T>, value: T, rest: Text) {
    r.verdict == Accepted(value) && r.rest == rest
  }

  lemma {:induction false} NumberRunOf(t: Text, tail: Text)
    requires Ends(tail) && forall k :: 0 <= k < |t| ==> IsNumberByte(t[k])
    ensures NumberRun(t + tail) == |t|
  {
    if t == [] {
      assert t + tail == tail;
    } else {
      assert (t + tail)[1..] == t[1..] + tail;
      NumberRunOf(t[1..], tail);
    }
  }

  lemma {:induction false} LiteralOf<T>(text: Text, tail: Text, value: T)
    ensures Literal(text + tail, text, value) == Accept(value, tail)
  {
    if text == [] {
      assert text + tail == tail;
    } else {
      assert (text + tail)[1..] == text[1..] + tail;
      LiteralOf(text[1..], tail, value);
    }
  }

  lemma KeywordReads<N>(text: Text, value: Value<N>, tail: Text, decode: Text -> Decoded<N>)
    requires text != [] && IsKeywordByte(text[0])
    requires Keyword<N>(text[0], text[1..] + tail, Default) == Literal(text[1..] + tail, text[1..], value)
    ensures Reads(ValueLit(text + tail, decode, Default), value, tail)
  {
    LiteralOf(text[1..], tail, value);
    assert (text + tail)[1..] == text[1..] + tail;
  }

  lemma DigitsRead<N>(token: Text, n: N, decode: Text -> Decoded<N>, tail: Text)
    requires WellFormed(Digits(token, n), decode) && Ends(tail)
    ensures Reads(ValueLit(token + tail, decode, Default), Number(n), tail)
  {
    NumberRunOf(token, tail);
    SkipNothing(token + tail);
    assert (token + tail)[..|token|] == token && (token + tail)[|token|..] == tail;
  }

  lemma CharsRead<N>(parts: seq<Part>, decode: Text -> Decoded<N>, tail: Text)
    requires ProperParts(parts)
    ensures Reads(ValueLit([QUOTE] + PartsText(parts, [QUOTE] + tail), decode, Default), Str(PartsMeaning(parts)), tail)
  {
    var u := [QUOTE] + PartsText(parts, [QUOTE] + tail);
    PartsRead(parts, tail, []);
    Associate(PartsMeaning(parts), [], []);
    assert u[1..] == PartsText(parts, [QUOTE] + tail);
    SkipNothing(u);
  }

  lemma SkipNothing(u: Text)
    requires u != [] && !IsSpace(u[0])
    ensures SkipSpaces(u) == u
  {
  }

  lemma SkipTo(s: Text, b: Byte, u: Text)
    requires AllSpaces(s) && !IsSpace(b)
    ensures SkipSpaces(s + ([b] + u)) == [b] + u && ([b] + u)[1..] == u
  {
    SkipSpacesPast(s, [b] + u);
    SkipNothing([b] + u);
  }

  lemma ValueSkips<N>(s: Text, u: Text, decode: Text -> Decoded<N>)
    requires AllSpaces(s)
    ensures ValueLit(s + u, decode, Default) == ValueLit(u, decode, Default)
  {
    SkipSpacesPast(s, u);
  }

  lemma ItemsSkip<N>(s: Text, u: Text, decode: Text -> Decoded<N>)
    requires AllSpaces(s)
    ensures Items(s + u, [], decode, Default) == Items(u, [], decode, Default)
  {
    ValueSkips(s, u, decode);
  }

  /** The text of a tree starts with a byte that is neither space nor a closing bracket. */
  lemma FirstByte<N>(t: Tree<N>, decode: Text -> Decoded<N>, rest: Text)
    requires WellFormed(t, decode)
    ensures Write(t, rest) != [] && !IsSpace(Write(t, rest)[0]) && Write(t, rest)[0] != RIGHT_BRACKET
  {
  }

  lemma {:induction false} TreeReads<N>(t: Tree<N>, decode: Text -> Decoded<N>, tail: Text)
    requires WellFormed(t, decode) && (t.Digits? ==> Ends(tail))
    ensures Reads(ValueLit(Write(t, tail), decode, Default), Meaning(t), tail)
    decreases t, 1
  {
    match t {
      case NullWord => KeywordReads(NULL_TEXT, Null, tail, decode);
      case BoolWord(b) => KeywordReads(if b then TRUE_TEXT else FALSE_TEXT, Bool(b), tail, decode);
      case Digits(token, n) => DigitsRead(token, n, decode, tail);
      case Chars(parts) => CharsRead(parts, decode, tail);
      case List(space, items) => ListReads(t, space, items, decode, tail);
      case Record(space, members) => RecordReads(t, space, members, decode, tail);
    }
  }

  lemma {:induction false} ListReads<N>(t: Tree<N>, space: Text, items: seq<Item<N>>, decode: Text -> Decoded<N>,
                                        tail: Text)
    requires t == List(space, items) && WellFormed(t, decode)
    ensures Reads(ValueLit(Write(t, tail), decode, Default), Meaning(t), tail)
    decreases t, 0
  {
    var u := if items == [] then space + ([RIGHT_BRACKET] + tail) else WriteItems(items, [RIGHT_BRACKET] + tail);
    SkipTo([], LEFT_BRACKET, u);
    Associate([LEFT_BRACKET] + u, [], []);
    assert ValueLit(Write(t, tail), decode, Default) == ArrayLit(u, decode, Default);
    if items == [] {
      SkipTo(space, RIGHT_BRACKET, tail);
    } else {
      ItemsRead(items, [], decode, tail);
      ItemsOpen(items, decode, [RIGHT_BRACKET] + tail);
      assert [] + ItemMeanings(items) == ItemMeanings(items);
    }
  }

  /** The items of a non-empty list do not begin with the closing bracket, and white space before them is skipped. */
  lemma ItemsOpen<N>(items: seq<Item<N>>, decode: Text -> Decoded<N>, rest: Text)
    requires items != [] && ProperItem(items[0], decode)
    ensures var u := WriteItems(items, rest);
            ArrayLit(u, decode, Default) == Items(u, [], decode, Default)
  {
    var item, more := items[0], if |items| == 1 then rest else [COMMA] + WriteItems(items[1..], rest);
    var w := Write(item.tree, item.after + more);
    assert WriteItems(items, rest) == item.before + w;
    SkipSpacesPast(item.before, w);
    FirstByte(item.tree, decode, item.after + more);
    SkipNothing(w);
    ItemsSkip(item.before, w, decode);
  }

  /** An item is read with the white space before it, and what follows it begins with a separator. */
  lemma {:induction false} ItemReads<N>(item: Item<N>, decode: Text -> Decoded<N>, b: Byte, w: Text)
    requires ProperItem(item, decode) && (b == COMMA || b == RIGHT_BRACKET || b == RIGHT_BRACE)
    ensures var r := ValueLit(WriteItem(item, [b] + w), decode, Default);
            r.verdict == Accepted(Meaning(item.tree)) && SkipSpaces(r.rest) == [b] + w
    decreases item, 2
  {
    var tail := item.after + ([b] + w);
    assert Ends(tail) by {
      if item.after != [] { assert tail[0] == item.after[0]; }
    }
    ValueSkips(item.before, Write(item.tree, tail), decode);
    TreeReads(item.tree, decode, tail);
    SkipTo(item.after, b, w);
  }

  lemma ItemsStep<N>(u: Text, done: seq<Value<N>>, decode: Text -> Decoded<N>, value: Value<N>, b: Byte, w: Text)
    requires ValueLit(u, decode, Default).verdict == Accepted(value)
    requires SkipSpaces(ValueLit(u, decode, Default).rest) == [b] + w
    ensures b == COMMA ==> Items(u, done, decode, Default) == Items(w, done + [value], decode, Default)
    ensures b == RIGHT_BRACKET ==> Items(u, done, decode, Default) == Accept(Array(done + [value]), w)
  {
    assert ([b] + w)[1..] == w;
  }

  lemma MeaningsSplit<N>(done: seq<Value<N>>, items: seq<Item<N>>)
    requires items != []
    ensures done + ItemMeanings(items) == done + [Meaning(items[0].tree)] + ItemMeanings(items[1..])
    ensures |items| == 1 ==> done + ItemMeanings(items) == done + [Meaning(items[0].tree)]
  {
    Associate(done, [Meaning(items[0].tree)], ItemMeanings(items[1..]));
    Associate(done + [Meaning(items[0].tree)], [], []);
  }

  lemma {:induction false} ItemsRead<N>(items: seq<Item<N>>, done: seq<Value<N>>, decode: Text -> Decoded<N>,
                                        tail: Text)
    requires items != [] && forall i :: 0 <= i < |items| ==> ProperItem(items[i], decode)
    ensures Reads(Items(WriteItems(items, [RIGHT_BRACKET] + tail), done, decode, Default),
              Array(done + ItemMeanings(items)), tail)
    decreases items
  {
    var u, value := WriteItems(items, [RIGHT_BRACKET] + tail), Meaning(items[0].tree);
    MeaningsSplit(done, items);
    if |items| == 1 {
      ItemReads(items[0], decode, RIGHT_BRACKET, tail);
      ItemsStep(u, done, decode, value, RIGHT_BRACKET, tail);
    } else {
      var next := WriteItems(items[1..], [RIGHT_BRACKET] + tail);
      ItemReads(items[0], decode, COMMA, next);
      ItemsStep(u, done, decode, value, COMMA, next);
      ItemsRead(items[1..], done + [value], decode, tail);
    }
  }

  lemma {:induction false} RecordReads<N>(t: Tree<N>, space: Text, members: seq<Member<N>>,
                                          decode: Text -> Decoded<N>, tail: Text)
    requires t == Record(space, members) && WellFormed(t, decode)
    ensures Reads(ValueLit(Write(t, tail), decode, Default), Meaning(t), tail)
    decreases t, 0
  {
    var u := if members == [] then space + ([RIGHT_BRACE] + tail) else WriteMembers(members, [RIGHT_BRACE] + tail);
    SkipTo([], LEFT_BRACE, u);
    Associate([LEFT_BRACE] + u, [], []);
    assert ValueLit(Write(t, tail), decode, Default) == ObjectLit(u, decode, Default);
    if members == [] {
      SkipTo(space, RIGHT_BRACE, tail);
    } else {
      MembersRead(members, [], decode, tail);
      MembersOpen(members, decode, [RIGHT_BRACE] + tail);
    }
  }

  lemma MembersOpen<N>(members: seq<Member<N>>, decode: Text -> Decoded<N>, rest: Text)
    requires members != [] && ProperMember(members[0], decode)
    ensures var u := WriteMembers(members, rest);
            ObjectLit(u, decode, Default) == Members(u, [], decode, Default)
  {
    var m, more := members[0], if |members| == 1 then rest else [COMMA] + WriteMembers(members[1..], rest);
    var w := PartsText(m.key, [QUOTE] + (m.colon + ([COLON] + WriteItem(m.value, more))));
    assert WriteMembers(members, rest) == m.before + ([QUOTE] + w);
    SkipTo(m.before, QUOTE, w);
    Associate([QUOTE] + w, [], []);
    SkipTo([], QUOTE, w);
  }

  lemma KeyReads(before: Text, key: seq<Part>, colon: Text, w: Text)
    requires AllSpaces(before) && ProperParts(key) && AllSpaces(colon)
    ensures Reads(Key(before + ([QUOTE] + PartsText(key, [QUOTE] + (colon + ([COLON] + w))))), PartsMeaning(key), w)
  {
    var after := colon + ([COLON] + w);
    SkipTo(before, QUOTE, PartsText(key, [QUOTE] + after));
    PartsRead(key, after, []);
    Associate(PartsMeaning(key), [], []);
    SkipTo(colon, COLON, w);
  }

  lemma MembersStep<N>(u: Text, done: seq<Entry<N>>, decode: Text -> Decoded<N>, key: Text, value: Value<N>, b: Byte,
                       w: Text)
    requires Key(u).verdict == Accepted(key) && ValueLit(Key(u).rest, decode, Default).verdict == Accepted(value)
    requires SkipSpaces(ValueLit(Key(u).rest, decode, Default).rest) == [b] + w
    ensures b == COMMA ==> Members(u, done, decode, Default) == Members(w, Put(done, key, value), decode, Default)
    ensures b == RIGHT_BRACE ==> Members(u, done, decode, Default) == Accept(Object(Put(done, key, value)), w)
  {
    assert ([b] + w)[1..] == w;
  }

  lemma {:induction false} MemberReads<N>(m: Member<N>, decode: Text -> Decoded<N>, b: Byte, w: Text)
    requires ProperMember(m, decode) && (b == COMMA || b == RIGHT_BRACE)
    ensures var k := Key(WriteMember(m, [b] + w));
            && k.verdict == Accepted(PartsMeaning(m.key))
            && ValueLit(k.rest, decode, Default).verdict == Accepted(Meaning(m.value.tree))
            && SkipSpaces(ValueLit(k.rest, decode, Default).rest) == [b] + w
    decreases m, 3
  {
    KeyReads(m.before, m.key, m.colon, WriteItem(m.value, [b] + w));
    ItemReads(m.value, decode, b, w);
  }

  lemma {:induction false} MembersRead<N>(members: seq<Member<N>>, done: seq<Entry<N>>, decode: Text -> Decoded<N>,
                                          tail: Text)
    requires members != [] && forall i :: 0 <= i < |members| ==> ProperMember(members[i], decode)
    ensures Reads(Members(WriteMembers(members, [RIGHT_BRACE] + tail), done, decode, Default),
                  Object(MemberMeanings(done, members)), tail)
    decreases members
  {
    var m, u := members[0], WriteMembers(members, [RIGHT_BRACE] + tail);
    var key, value := PartsMeaning(m.key), Meaning(m.value.tree);
    if |members| == 1 {
      MemberReads(m, decode, RIGHT_BRACE, tail);
      MembersStep(u, done, decode, key, value, RIGHT_BRACE, tail);
      assert members[1..] == [];
    } else {
      var next := WriteMembers(members[1..], [RIGHT_BRACE] + tail);
      MemberReads(m, decode, COMMA, next);
      MembersStep(u, done, decode, key, value, COMMA, next);
      MembersRead(members[1..], Put(done, key, value), decode, tail);
    }
  }
}
