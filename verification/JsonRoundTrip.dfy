/** What either printer writes is the text of a well-formed tree that means the value, so the parser reads it back. */
module JsonRoundTrip {
  import opened Options
  import opened Sequences
  import opened JsonText
  import opened JsonPrinter
  import opened JsonGrammar
  import opened JsonEscapes
  import opened JsonSyntax
  import Utf8

  /** A printed number starts like a number, has only number bytes, and decodes to what was printed. */
  ghost predicate NumberPrints<N>(n: N, show: N -> Text, decode: Text -> Decoded<N>) {
    WellFormed(Digits(show(n), n), decode)
  }

  /** Every number in the value prints so, and every object's keys ascend. */
  ghost predicate Printable<N(!new)>(v: Value<N>, show: N -> Text, decode: Text -> Decoded<N>)
    decreases v
  {
    match v
    case Number(n) => NumberPrints(n, show, decode)
    case Array(items) => forall i :: 0 <= i < |items| ==> Printable(items[i], show, decode)
    case Object(entries) => KeysAscend(entries) && forall i :: 0 <= i < |entries| ==> Printable(entries[i].value,
                show, decode)
    case _ => true
  }

  // ----- Printed strings.

  function PartOf(b: Byte): Part {
    var e := Escape(b);
    if |e| == 1 then Plain(b) else if |e| == 2 then Letter(e[1]) else Unicode(e[2..], b)
  }

  lemma PartOfByte(b: Byte)
    ensures ProperPart(PartOf(b)) && PartText(PartOf(b)) == Escape(b) && PartMeaning(PartOf(b)) == [b]
  {
    var e := Escape(b);
    if |e| == 6 {
      assert e == [BACKSLASH, LOWER_U] + e[2..];
      assert e[2..][4..] == [];
    } else if |e| == 2 {
      assert e == [BACKSLASH, e[1]];
    }
  }

  function PartsOf(s: Text): seq<Part> {
    if s == [] then [] else [PartOf(s[0])] + PartsOf(s[1..])
  }

  /** The escaped form of a string is a proper text of it. */
  lemma {:induction false} EscapedIs(s: Text, rest: Text)
    ensures ProperParts(PartsOf(s)) && PartsMeaning(PartsOf(s)) == s
    ensures PartsText(PartsOf(s), rest) == Escaped(s) + rest
  {
    if s == [] {
      Associate([], rest, []);
    } else {
      PartOfByte(s[0]);
      EscapedIs(s[1..], rest);
      assert PartsOf(s)[1..] == PartsOf(s[1..]) && s == [s[0]] + s[1..];
      Associate(Escape(s[0]), Escaped(s[1..]), rest);
    }
  }

  lemma QuotedIs(s: Text, rest: Text)
    ensures ProperParts(PartsOf(s)) && PartsMeaning(PartsOf(s)) == s
    ensures Quoted(s) + rest == [QUOTE] + PartsText(PartsOf(s), [QUOTE] + rest)
  {
    EscapedIs(s, [QUOTE] + rest);
    Associate([QUOTE] + Escaped(s), [QUOTE], rest);
    Associate([QUOTE], Escaped(s), [QUOTE] + rest);
  }

  // ----- Printed values.

  function Printed<N>(v: Value<N>, show: N -> Text, indent: Indent): Tree<N>
    decreases v
  {
    match v
    case Null => NullWord
    case Bool(b) => BoolWord(b)
    case Number(n) => Digits(show(n), n)
    case Str(s) => Chars(PartsOf(s))
    case Array(items) => List([], PrintedItems(items, show, Inner(indent), NewLine(indent)))
    case Object(entries) => Record([], PrintedMembers(entries, show, Inner(indent), NewLine(indent)))
  }

  function PrintedItems<N>(items: seq<Value<N>>, show: N -> Text, inner: Indent, close: Text): seq<Item<N>>
    decreases items
  {
    if items == [] then []
    else [Item(NewLine(inner), Printed(items[0], show, inner), if |items| == 1 then close else [])]
         + PrintedItems(items[1..], show, inner, close)
  }

  function PrintedMembers<N>(entries: seq<Entry<N>>, show: N -> Text, inner: Indent, close: Text): seq<Member<N>>
    decreases entries
  {
    if entries == [] then []
    else [PrintedMember(entries[0], show, inner, if |entries| == 1 then close else [])]
         + PrintedMembers(entries[1..], show, inner, close)
  }

  function PrintedMember<N>(e: Entry<N>, show: N -> Text, inner: Indent, after: Text): Member<N>
    decreases e, 1
  {
    Member(NewLine(inner), PartsOf(e.key), [],
           Item(if inner == -1 then [] else [SPACE], Printed(e.value, show, inner), after))
  }

  /** The printed tree is well-formed and means the value. */
  lemma {:induction false} PrintedMeans<N(!new)>(v: Value<N>, show: N -> Text, decode: Text -> Decoded<N>,
                                          indent: Indent)
    requires Printable(v, show, decode)
    ensures WellFormed(Printed(v, show, indent), decode) && Meaning(Printed(v, show, indent)) == v
    decreases v
  {
    match v {
      case Str(s) => EscapedIs(s, []);
      case Array(items) => PrintedItemsMean(items, show, decode, Inner(indent), NewLine(indent));
      case Object(entries) =>
        assert [] + entries == entries;
        PrintedMembersMean([], entries, show, decode, Inner(indent), NewLine(indent));
      case _ =>
    }
  }

  lemma {:induction false} PrintedItemsMean<N(!new)>(items: seq<Value<N>>, show: N -> Text,
                                              decode: Text -> Decoded<N>, inner: Indent, close: Text)
    requires AllSpaces(close) && forall i :: 0 <= i < |items| ==> Printable(items[i], show, decode)
    ensures var ts := PrintedItems(items, show, inner, close);
            (forall i :: 0 <= i < |ts| ==> ProperItem(ts[i], decode)) && ItemMeanings(ts) == items
    decreases items
  {
    if items != [] {
      PrintedMeans(items[0], show, decode, inner);
      PrintedItemsMean(items[1..], show, decode, inner, close);
      var ts := PrintedItems(items, show, inner, close);
      assert ts[1..] == PrintedItems(items[1..], show, inner, close) && items == [items[0]] + items[1..];
    }
  }

  lemma {:induction false} PrintedMembersMean<N(!new)>(done: seq<Entry<N>>, entries: seq<Entry<N>>, show: N -> Text,
                                                decode: Text -> Decoded<N>,
                                                      inner: Indent, close: Text)
    requires AllSpaces(close) && KeysAscend(done + entries)
    requires forall i :: 0 <= i < |entries| ==> Printable(entries[i].value, show, decode)
    ensures var ts := PrintedMembers(entries, show, inner, close);
            (forall i :: 0 <= i < |ts| ==> ProperMember(ts[i], decode)) && MemberMeanings(done, ts) == done + entries
    decreases entries
  {
    if entries == [] {
      assert done + entries == done;
    } else {
      var e := entries[0];
      KeyGoesLast(done, entries);
      assert done + entries == done + [e] + entries[1..];
      EscapedIs(e.key, []);
      PrintedMeans(e.value, show, decode, inner);
      PrintedMembersMean(done + [e], entries[1..], show, decode, inner, close);
      var ts := PrintedMembers(entries, show, inner, close);
      assert ts[1..] == PrintedMembers(entries[1..], show, inner, close);
    }
  }

  /** The text of the printed tree is what the printer writes. */
  lemma {:induction false} PrintedText<N>(v: Value<N>, show: N -> Text, indent: Indent, rest: Text)
    ensures Write(Printed(v, show, indent), rest) == Body(v, show, indent) + rest
    decreases v
  {
    match v {
      case Str(s) => QuotedIs(s, rest);
      case Array(items) =>
        ClosedText([LEFT_BRACKET], ItemsText(items, show, Inner(indent), true), NewLine(indent), [RIGHT_BRACKET], rest);
        if items != [] {
          PrintedItemsText(items, show, Inner(indent), NewLine(indent), [RIGHT_BRACKET] + rest);
        }
      case Object(entries) =>
        ClosedText([LEFT_BRACE], EntriesText(entries, show, Inner(indent), true), NewLine(indent), [RIGHT_BRACE], rest);
        if entries != [] {
          PrintedMembersText(entries, show, Inner(indent), NewLine(indent), [RIGHT_BRACE] + rest);
        }
      case _ =>
    }
  }

  lemma ClosedText(open: Text, text: Text, close: Text, bracket: Text, rest: Text)
    ensures open + text + close + bracket + rest == open + (text + (close + (bracket + rest)))
    ensures open + [] + [] + bracket + rest == open + ([] + (bracket + rest))
  {
  }

  lemma CommaFirst(c: Text, n: Text, b: Text, r: Text, rest: Text)
    ensures [] + n + b + r + rest == n + (b + (r + rest))
    ensures c + n + b + r == c + ([] + n + b + r)
  {
  }

  lemma ItemsTextIs<N>(items: seq<Value<N>>, show: N -> Text, inner: Indent, rest: Text)
    requires items != [] && inner != 0
    ensures ItemsText(items, show, inner, false) == [COMMA] + ItemsText(items, show, inner, true)
    ensures ItemsText(items, show, inner, true) + rest
         == NewLine(inner) + (Body(items[0], show, inner) + (ItemsText(items[1..], show, inner, false) + rest))
  {
    var b := Serialized(items[0], show, inner);
    assert b == Body(items[0], show, inner);
    CommaFirst([COMMA], NewLine(inner), b, ItemsText(items[1..], show, inner, false), rest);
  }

  ghost predicate ItemsPrinted<N>(items: seq<Value<N>>, show: N -> Text, inner: Indent, close: Text, rest: Text) {
    var ts := PrintedItems(items, show, inner, close);
    ts != [] && WriteItems(ts, rest) == ItemsText(items, show, inner, true) + (close + rest)
  }

  lemma LastItemPrinted<N>(items: seq<Value<N>>, show: N -> Text, inner: Indent, close: Text, rest: Text)
    requires inner != 0 && |items| == 1
    requires Write(Printed(items[0], show, inner), close + rest) == Body(items[0], show, inner) + (close + rest)
    ensures ItemsPrinted(items, show, inner, close, rest)
  {
    ItemsTextIs(items, show, inner, close + rest);
    Associate([], close + rest, []);
    ItemAlone(Item(NewLine(inner), Printed(items[0], show, inner), close), rest);
    assert PrintedItems(items[1..], show, inner, close) == [];
  }

  lemma ItemBeforePrinted<N>(items: seq<Value<N>>, show: N -> Text, inner: Indent, close: Text, rest: Text, more: Text)
    requires inner != 0 && |items| > 1 && ItemsPrinted(items[1..], show, inner, close, rest)
    requires more == [COMMA] + WriteItems(PrintedItems(items[1..], show, inner, close), rest)
    requires Write(Printed(items[0], show, inner), more) == Body(items[0], show, inner) + more
    ensures ItemsPrinted(items, show, inner, close, rest)
  {
    ItemsTextIs(items, show, inner, close + rest);
    ItemsTextIs(items[1..], show, inner, close + rest);
    ItemsGrow(Item(NewLine(inner), Printed(items[0], show, inner), []), PrintedItems(items[1..], show, inner, close),
              rest);
    Associate([COMMA], ItemsText(items[1..], show, inner, true), close + rest);
    Associate(more, [], []);
  }

  lemma {:induction false} PrintedItemsText<N>(items: seq<Value<N>>, show: N -> Text, inner: Indent, close: Text,
                                               rest: Text)
    requires inner != 0 && items != []
    ensures ItemsPrinted(items, show, inner, close, rest)
    decreases items
  {
    if |items| == 1 {
      PrintedText(items[0], show, inner, close + rest);
      LastItemPrinted(items, show, inner, close, rest);
    } else {
      PrintedItemsText(items[1..], show, inner, close, rest);
      var more := [COMMA] + WriteItems(PrintedItems(items[1..], show, inner, close), rest);
      PrintedText(items[0], show, inner, more);
      ItemBeforePrinted(items, show, inner, close, rest, more);
    }
  }

  lemma EntriesTextIs<N>(entries: seq<Entry<N>>, show: N -> Text, inner: Indent, rest: Text)
    requires entries != [] && inner != 0
    ensures EntriesText(entries, show, inner, false) == [COMMA] + EntriesText(entries, show, inner, true)
    ensures EntriesText(entries, show, inner, true) + rest
         == NewLine(inner) + (KeyText(entries[0].key, inner)
            + (Body(entries[0].value, show, inner) + (EntriesText(entries[1..], show, inner, false) + rest)))
  {
    var k, b := KeyText(entries[0].key, inner), Serialized(entries[0].value, show, inner);
    assert b == Body(entries[0].value, show, inner);
    CommaFirst([COMMA], NewLine(inner), k + b, EntriesText(entries[1..], show, inner, false), rest);
    Associate(k, b, EntriesText(entries[1..], show, inner, false) + rest);
  }

  lemma KeyTextIs(key: Text, inner: Indent, rest: Text)
    ensures [QUOTE]
            + PartsText(PartsOf(key), [QUOTE] + ([] + ([COLON] + ((if inner == -1 then [] else [SPACE]) + rest))))
         == KeyText(key, inner) + rest
  {
    var space := if inner == -1 then [] else [SPACE];
    var after := [COLON] + (space + rest);
    QuotedIs(key, after);
    Associate(after, [], []);
    assert Quoted(key) + [COLON] + space + rest == Quoted(key) + after;
  }

  /** One printed member, before what follows it. */
  lemma {:induction false} PrintedMemberText<N>(e: Entry<N>, show: N -> Text, inner: Indent, after: Text, rest: Text)
    ensures WriteMember(PrintedMember(e, show, inner, after), rest)
         == NewLine(inner) + (KeyText(e.key, inner) + (Body(e.value, show, inner) + (after + rest)))
    decreases e, 1
  {
    PrintedText(e.value, show, inner, after + rest);
    KeyTextIs(e.key, inner, Body(e.value, show, inner) + (after + rest));
  }

  ghost predicate EntriesPrinted<N>(entries: seq<Entry<N>>, show: N -> Text, inner: Indent, close: Text, rest: Text) {
    var ts := PrintedMembers(entries, show, inner, close);
    ts != [] && WriteMembers(ts, rest) == EntriesText(entries, show, inner, true) + (close + rest)
  }

  lemma OneEntryText<N>(e: Entry<N>, show: N -> Text, inner: Indent, rest: Text)
    requires inner != 0
    ensures EntriesText([e], show, inner, true) + rest
         == NewLine(inner) + (KeyText(e.key, inner) + (Body(e.value, show, inner) + rest))
  {
    var n, k, b := NewLine(inner), KeyText(e.key, inner), Body(e.value, show, inner);
    OneEntry(e, show, inner);
    Associate(n, k + b, rest);
    Associate(k, b, rest);
  }

  lemma OneEntry<N>(e: Entry<N>, show: N -> Text, inner: Indent)
    requires inner != 0
    ensures EntriesText([e], show, inner, true) == NewLine(inner) + (KeyText(e.key, inner) + Body(e.value, show, inner))
  {
    assert EntriesText([e][1..], show, inner, false) == [];
    Associate([], EntryText(e, show, inner, true), []);
    Associate(EntryText(e, show, inner, true), [], []);
    Associate(Body(e.value, show, inner), [], []);
    Associate(NewLine(inner), [], []);
  }

  lemma LastEntryPrinted<N>(e: Entry<N>, show: N -> Text, inner: Indent, close: Text, rest: Text)
    requires inner != 0
    requires WriteMember(PrintedMember(e, show, inner, close), rest)
          == NewLine(inner) + (KeyText(e.key, inner) + (Body(e.value, show, inner) + (close + rest)))
    ensures EntriesPrinted([e], show, inner, close, rest)
  {
    OneEntryText(e, show, inner, close + rest);
    MemberAlone(PrintedMember(e, show, inner, close), rest, []);
    assert [e][1..] == [] && PrintedMembers([e][1..], show, inner, close) == [];
  }

  lemma EntryBeforePrinted<N>(entries: seq<Entry<N>>, show: N -> Text, inner: Indent, close: Text, rest: Text,
                              more: Text)
    requires inner != 0 && |entries| > 1 && EntriesPrinted(entries[1..], show, inner, close, rest)
    requires more == [COMMA] + WriteMembers(PrintedMembers(entries[1..], show, inner, close), rest)
    requires WriteMember(PrintedMember(entries[0], show, inner, []), more)
          == NewLine(inner) + (KeyText(entries[0].key, inner) + (Body(entries[0].value, show, inner) + ([] + more)))
    ensures EntriesPrinted(entries, show, inner, close, rest)
  {
    EntriesTextIs(entries, show, inner, close + rest);
    EntriesTextIs(entries[1..], show, inner, close + rest);
    MembersGrow(PrintedMember(entries[0], show, inner, []), PrintedMembers(entries[1..], show, inner, close), rest, []);
    Associate([COMMA], EntriesText(entries[1..], show, inner, true), close + rest);
    Associate(more, [], []);
  }

  lemma {:induction false} PrintedMembersText<N>(entries: seq<Entry<N>>, show: N -> Text, inner: Indent, close: Text,
                                                 rest: Text)
    requires inner != 0 && entries != []
    ensures EntriesPrinted(entries, show, inner, close, rest)
    decreases entries
  {
    if |entries| == 1 {
      PrintedMemberText(entries[0], show, inner, close, rest);
      assert entries == [entries[0]];
      LastEntryPrinted(entries[0], show, inner, close, rest);
    } else {
      PrintedMembersText(entries[1..], show, inner, close, rest);
      var more := [COMMA] + WriteMembers(PrintedMembers(entries[1..], show, inner, close), rest);
      PrintedMemberText(entries[0], show, inner, [], more);
      EntryBeforePrinted(entries, show, inner, close, rest, more);
    }
  }

  lemma KeyGoesLast<N(!new)>(done: seq<Entry<N>>, entries: seq<Entry<N>>)
    requires entries != [] && KeysAscend(done + entries)
    ensures Put(done, entries[0].key, entries[0].value) == done + [entries[0]]
  {
    forall i | 0 <= i < |done|
      ensures KeyLess(done[i].key, entries[0].key)
    {
      assert (done + entries)[i] == done[i] && (done + entries)[|done|] == entries[0];
    }
    PutLast(done, entries[0].key, entries[0].value);
  }

  /**
   Parsing what the compact printer (indent -1) or the pretty printer (indent 0) wrote gives the value back; only
   the line break that ends the pretty form stays unread.
   */
  lemma RoundTrip<N(!new)>(v: Value<N>, show: N -> Text, decode: Text -> Decoded<N>)
    requires Printable(v, show, decode)
    ensures Reads(ValueLit(Serialized(v, show, -1), decode, Default), v, [])
    ensures Reads(ValueLit(Serialized(v, show, 0), decode, Default), v, [LF])
  {
    PrintedMeans(v, show, decode, -1);
    PrintedText(v, show, -1, []);
    TreeReads(Printed(v, show, -1), decode, []);
    PrintedMeans(v, show, decode, 0);
    PrintedText(v, show, 0, [LF]);
    TreeReads(Printed(v, show, 0), decode, [LF]);
  }
}

/** Whole numbers, which the printer writes as a decimal integer, meet what the round trip asks of a number. */
module JsonIntegers {
  import opened JsonText
  import opened JsonGrammar
  import opened JsonSyntax
  import opened JsonRoundTrip

  function Decimal(n: nat): (s: Text)
    ensures s != []
    ensures forall k :: 0 <= k < |s| ==> IsDigit(s[k])
  {
    if n < 10 then [48 + n] else Decimal(n / 10) + [48 + n % 10]
  }

  /** A minus sign for a negative number, then its digits. */
  function Show(n: int): Text {
    if n < 0 then [45] + Decimal(-n) else Decimal(n)
  }

  predicate IsDecimal(t: Text) {
    t != [] && forall k :: 0 <= k < |t| ==> IsDigit(t[k])
  }

  function DecimalValue(t: Text): nat
    requires forall k :: 0 <= k < |t| ==> IsDigit(t[k])
  {
    if t == [] then 0 else DecimalValue(t[..|t| - 1]) * 10 + HexValue(t[|t| - 1])
  }

  lemma {:induction false} DecimalRoundTrip(n: nat)
    ensures DecimalValue(Decimal(n)) == n
  {
    if n >= 10 {
      DecimalRoundTrip(n / 10);
      assert Decimal(n)[..|Decimal(n)| - 1] == Decimal(n / 10);
    }
  }

  lemma {:induction false} NoLeadingZero(n: nat)
    ensures n >= 10 ==> Decimal(n)[0] as char != '0'
    ensures n < 10 ==> |Decimal(n)| == 1
  {
    if n >= 10 {
      NoLeadingZero(n / 10);
    }
  }

  /** A number is written by its decimal digits without a leading zero, behind a minus sign when it is negative. */
  lemma ShowIs(n: int)
    ensures var digits := if n < 0 then Show(n)[1..] else Show(n);
            && IsDecimal(digits) && DecimalValue(digits) == (if n < 0 then -n else n)
            && (|digits| > 1 ==> digits[0] as char != '0')
    ensures n < 0 ==> Show(n)[0] as char == '-'
  {
    var m := if n < 0 then -n else n;
    DecimalRoundTrip(m);
    NoLeadingZero(m);
    assert n < 0 ==> Show(n)[1..] == Decimal(m);
  }

  /** Whole numbers below this bound are written as decimal integers. */
  const LIMIT := 0x20_0000_0000_0000

  /** A conversion that reads decimal integers below the bound, signed or not, at their value. */
  ghost predicate ReadsDecimals(decode: Text -> Decoded<int>) {
    forall t: Text :: IsDecimal(t) && DecimalValue(t) < LIMIT ==>
      decode(t) == Finite(DecimalValue(t)) && decode([45] + t) == Finite(-(DecimalValue(t) as int))
  }

  lemma IntegersPrint(n: int, decode: Text -> Decoded<int>)
    requires ReadsDecimals(decode) && -LIMIT < n < LIMIT
    ensures NumberPrints(n, Show, decode)
  {
    DecimalRoundTrip(if n < 0 then -n else n);
    assert IsDecimal(Decimal(if n < 0 then -n else n));
  }
}
