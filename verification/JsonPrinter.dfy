/** JSON values as the library stores them, and the compact and the pretty printer. */
module JsonPrinter {
  import opened Options
  import opened Sequences
  import opened JsonText

  /** An object is an ordered map: its entries stand in strictly ascending order of their keys. */
  datatype Value<N> =
    | Null
    | Bool(b: bool)
    | Number(n: N)
    | Str(s: Text)
    | Array(items: seq<Value<N>>)
    | Object(entries: seq<Entry<N>>)

  datatype Entry<N> = Entry(key: Text, value: Value<N>)

  /** The order of strings: byte by byte, a prefix before its extensions. */
  predicate KeyLess(a: Text, b: Text) {
    if b == [] then false
    else if a == [] then true
    else a[0] < b[0] || (a[0] == b[0] && KeyLess(a[1..], b[1..]))
  }

  /** Before the first `k` bytes, which agree, nothing differs; then one text ends, or its byte is the smaller one. */
  ghost predicate DiffersAt(a: Text, b: Text, k: nat) {
    k <= |a| && k <= |b| && a[..k] == b[..k] && (k == |a| < |b| || (k < |a| && k < |b| && a[k] < b[k]))
  }

  lemma {:induction false} KeyLessIff(a: Text, b: Text)
    ensures KeyLess(a, b) <==> exists k: nat :: DiffersAt(a, b, k)
  {
    if a == [] {
      assert b != [] ==> DiffersAt(a, b, 0);
    } else if b != [] && a[0] == b[0] {
      KeyLessIff(a[1..], b[1..]);
      if k: nat :| DiffersAt(a[1..], b[1..], k) {
        assert a[..k + 1] == [a[0]] + a[1..][..k] && b[..k + 1] == [b[0]] + b[1..][..k];
        assert DiffersAt(a, b, k + 1);
      }
      if k: nat :| DiffersAt(a, b, k) {
        assert a[..k][1..] == a[1..][..k - 1] && b[..k][1..] == b[1..][..k - 1];
        assert DiffersAt(a[1..], b[1..], k - 1);
      }
    } else if b != [] {
      assert a[0] < b[0] ==> DiffersAt(a, b, 0);
      if k: nat :| DiffersAt(a, b, k) && k > 0 {
        assert a[..k][0] == b[..k][0];
      }
    }
  }

  lemma {:induction false} KeyOrder(a: Text, b: Text)
    ensures KeyLess(a, b) || a == b || KeyLess(b, a)
    ensures !(KeyLess(a, b) && KeyLess(b, a)) && !KeyLess(a, a)
  {
    if a != [] && b != [] {
      KeyOrder(a[1..], b[1..]);
      assert a == [a[0]] + a[1..] && b == [b[0]] + b[1..];
    }
    if a != [] {
      KeyOrder(a[1..], a[1..]);
    }
  }

  lemma {:induction false} KeyTransitive(a: Text, b: Text, c: Text)
    requires KeyLess(a, b) && KeyLess(b, c)
    ensures KeyLess(a, c)
  {
    if a != [] && a[0] == b[0] && b[0] == c[0] {
      KeyTransitive(a[1..], b[1..], c[1..]);
    }
  }

  ghost predicate KeysAscend<N(!new)>(entries: seq<Entry<N>>) {
    forall i, j :: 0 <= i < j < |entries| ==> KeyLess(entries[i].key, entries[j].key)
  }

  /** Assigns to a key: a key that is there keeps its place, a new one goes where the order puts it. */
  function Put<N>(entries: seq<Entry<N>>, key: Text, value: Value<N>): seq<Entry<N>> {
    if entries == [] || KeyLess(key, entries[0].key) then [Entry(key, value)] + entries
    else if key == entries[0].key then [Entry(key, value)] + entries[1..]
    else [entries[0]] + Put(entries[1..], key, value)
  }

  function Get<N>(entries: seq<Entry<N>>, key: Text): Option<Value<N>> {
    if entries == [] then None
    else if entries[0].key == key then Some(entries[0].value)
    else Get(entries[1..], key)
  }

  lemma {:induction false} GetFinds<N>(entries: seq<Entry<N>>, key: Text)
    ensures Get(entries, key).Some? <==> exists i :: 0 <= i < |entries| && entries[i].key == key
    ensures Get(entries, key).Some? ==> Entry(key, Get(entries, key).value) in entries
  {
    if entries != [] {
      GetFinds(entries[1..], key);
      if Get(entries[1..], key).Some? {
        var i :| 0 <= i < |entries[1..]| && entries[1..][i].key == key;
        assert entries[i + 1].key == key;
      }
      if i :| 0 <= i < |entries| && entries[i].key == key && i > 0 {
        assert entries[1..][i - 1].key == key;
      }
    }
  }

  /** Assignment changes what one key holds and nothing else, and keeps the order. */
  lemma {:induction false} PutAssigns<N(!new)>(entries: seq<Entry<N>>, key: Text, value: Value<N>, other: Text)
    requires KeysAscend(entries)
    ensures KeysAscend(Put(entries, key, value))
    ensures Get(Put(entries, key, value), other) == if other == key then Some(value) else Get(entries, other)
    ensures forall e :: e in Put(entries, key, value) ==> e == Entry(key, value) || e in entries
  {
    if entries != [] {
      var head, rest := entries[0], entries[1..];
      KeyOrder(key, head.key);
      if KeyLess(key, head.key) {
        forall j | 0 <= j < |entries|
          ensures KeyLess(key, entries[j].key)
        {
          if j > 0 { KeyTransitive(key, head.key, entries[j].key); }
        }
      } else if key != head.key {
        PutAssigns(rest, key, value, other);
        var put := Put(rest, key, value);
        forall j | 0 <= j < |put|
          ensures KeyLess(head.key, put[j].key)
        {
          assert put[j] in put;
        }
      }
    }
  }

  /** A key above all others goes last. */
  lemma {:induction false} PutLast<N(!new)>(entries: seq<Entry<N>>, key: Text, value: Value<N>)
    requires forall i :: 0 <= i < |entries| ==> KeyLess(entries[i].key, key)
    ensures Put(entries, key, value) == entries + [Entry(key, value)]
  {
    if entries != [] {
      KeyOrder(entries[0].key, key);
      PutLast(entries[1..], key, value);
    }
  }

  // ----- What the printers write.

  /** One letter (b, f, n, r, t) where there is one, four hexadecimal digits for other control bytes and for 0x7f. */
  function Escape(b: Byte): (s: Text)
    ensures s != []
  {
    if b == QUOTE || b == BACKSLASH || b == SLASH then [BACKSLASH, b]
    else if b == 8 then [BACKSLASH, 98]
    else if b == 12 then [BACKSLASH, 102]
    else if b == LF then [BACKSLASH, 110]
    else if b == CR then [BACKSLASH, 114]
    else if b == TAB then [BACKSLASH, 116]
    else if b < 0x20 || b == 0x7f then [BACKSLASH, LOWER_U, 48, 48, HexDigit(b / 16), HexDigit(b % 16)]
    else [b]
  }

  function Escaped(s: Text): Text {
    if s == [] then [] else Escape(s[0]) + Escaped(s[1..])
  }

  function Quoted(s: Text): Text {
    [QUOTE] + Escaped(s) + [QUOTE]
  }

  /** The nesting depth of the pretty form; -1 is the compact form. */
  type Indent = i: int | i >= -1

  function Inner(indent: Indent): Indent {
    if indent == -1 then -1 else indent + 1
  }

  function Spaces(n: nat): Text {
    seq(n, _ => SPACE)
  }

  function NewLine(indent: Indent): (s: Text)
    ensures AllSpaces(s)
  {
    if indent == -1 then [] else [LF] + Spaces(2 * indent)
  }

  function Serialized<N>(v: Value<N>, show: N -> Text, indent: Indent): Text
    decreases v, 1
  {
    Body(v, show, indent) + if indent == 0 then [LF] else []
  }

  function Body<N>(v: Value<N>, show: N -> Text, indent: Indent): Text
    decreases v, 0
  {
    match v
    case Null => NULL_TEXT
    case Bool(b) => if b then TRUE_TEXT else FALSE_TEXT
    case Number(n) => show(n)
    case Str(s) => Quoted(s)
    case Array(items) =>
      [LEFT_BRACKET] + ItemsText(items, show, Inner(indent), true)
      + (if items == [] then [] else NewLine(indent)) + [RIGHT_BRACKET]
    case Object(entries) =>
      [LEFT_BRACE] + EntriesText(entries, show, Inner(indent), true)
      + (if entries == [] then [] else NewLine(indent)) + [RIGHT_BRACE]
  }

  /** An item with what stands between it and the one before. */
  function ItemText<N>(v: Value<N>, show: N -> Text, indent: Indent, first: bool): Text
    decreases v, 2
  {
    (if first then [] else [COMMA]) + NewLine(indent) + Serialized(v, show, indent)
  }

  function ItemsText<N>(items: seq<Value<N>>, show: N -> Text, indent: Indent, first: bool): Text
    decreases items
  {
    if items == [] then []
    else ItemText(items[0], show, indent, first) + ItemsText(items[1..], show, indent, false)
  }

  function KeyText(key: Text, indent: Indent): Text {
    Quoted(key) + [COLON] + (if indent == -1 then [] else [SPACE])
  }

  function EntryText<N>(e: Entry<N>, show: N -> Text, indent: Indent, first: bool): Text
    decreases e, 2
  {
    (if first then [] else [COMMA]) + NewLine(indent) + (KeyText(e.key, indent) + Serialized(e.value, show, indent))
  }

  function EntriesText<N>(entries: seq<Entry<N>>, show: N -> Text, indent: Indent, first: bool): Text
    decreases entries
  {
    if entries == [] then []
    else EntryText(entries[0], show, indent, first) + EntriesText(entries[1..], show, indent, false)
  }

  // ----- The layout, told by characters: what stands between the items of an array or an object.

  /** Texts with commas between them. */
  function Listed(texts: seq<Text>): Text {
    if texts == [] then [] else if |texts| == 1 then texts[0] else texts[0] + Bytes(",") + Listed(texts[1..])
  }

  /** Nothing in the compact form; a line break and two spaces a level in the pretty form. */
  function Lead(indent: Indent): Text {
    if indent == -1 then [] else Bytes("\n") + seq(indent, _ => ' ' as int) + seq(indent, _ => ' ' as int)
  }

  function Deeper(indent: Indent): Indent {
    if indent < 0 then indent else indent + 1
  }

  function ItemTexts<N>(items: seq<Value<N>>, show: N -> Text, indent: Indent): seq<Text> {
    seq(|items|, k requires 0 <= k < |items| => Lead(indent) + Serialized(items[k], show, indent))
  }

  function EntryTexts<N>(entries: seq<Entry<N>>, show: N -> Text, indent: Indent): seq<Text> {
    seq(|entries|, k requires 0 <= k < |entries| =>
      Lead(indent) + (Quoted(entries[k].key) + Bytes(if indent == -1 then ":" else ": ")
                      + Serialized(entries[k].value, show, indent)))
  }

  lemma LeadIs(indent: Indent)
    ensures Lead(indent) == NewLine(indent) && Deeper(indent) == Inner(indent)
  {
  }

  lemma ListedFirst(text: Text, texts: seq<Text>)
    ensures Listed([text] + texts) == text + (if texts == [] then [] else [COMMA] + Listed(texts))
  {
    assert ([text] + texts)[1..] == texts;
    if texts == [] {
      assert [text] + texts == [text];
    } else {
      assert Bytes(",") == [COMMA];
      Associate(text, [COMMA], Listed(texts));
    }
  }

  lemma ListedStep(comma: Text, lead: Text, body: Text, more: Text, texts: seq<Text>)
    requires more == (if texts == [] then [] else [COMMA]) + Listed(texts)
    ensures comma + lead + body + more == comma + Listed([lead + body] + texts)
  {
    ListedFirst(lead + body, texts);
    assert texts == [] ==> more == [];
    assert comma + lead + body + more == comma + ((lead + body) + more);
  }

  lemma ItemTextsFirst<N>(items: seq<Value<N>>, show: N -> Text, indent: Indent)
    requires items != []
    ensures ItemTexts(items, show, indent)
         == [Lead(indent) + Serialized(items[0], show, indent)] + ItemTexts(items[1..], show, indent)
  {
  }

  lemma {:induction false} ItemsListed<N>(items: seq<Value<N>>, show: N -> Text, indent: Indent, first: bool)
    ensures ItemsText(items, show, indent, first)
         == (if first || items == [] then [] else [COMMA]) + Listed(ItemTexts(items, show, indent))
  {
    if items != [] {
      ItemsListed(items[1..], show, indent, false);
      LeadIs(indent);
      ItemTextsFirst(items, show, indent);
      var texts := ItemTexts(items[1..], show, indent);
      ListedStep(if first then [] else [COMMA], NewLine(indent), Serialized(items[0], show, indent),
                 (if texts == [] then [] else [COMMA]) + Listed(texts), texts);
    }
  }

  /** A comma between the items, and before every item and the closing bracket the line break of its level. */
  lemma ArrayLayout<N>(items: seq<Value<N>>, show: N -> Text, indent: Indent)
    ensures Body(Array(items), show, indent)
         == Bytes("[") + Listed(ItemTexts(items, show, Deeper(indent))) + (if items == [] then [] else Lead(indent))
            + Bytes("]")
  {
    LeadIs(indent);
    ItemsInside(items, show, Inner(indent));
    ArrayBody(items, show, indent, Listed(ItemTexts(items, show, Inner(indent))));
  }

  lemma Brackets()
    ensures Bytes("[") == [LEFT_BRACKET] && Bytes("]") == [RIGHT_BRACKET]
    ensures Bytes("{") == [LEFT_BRACE] && Bytes("}") == [RIGHT_BRACE]
  {
  }

  lemma ItemsInside<N>(items: seq<Value<N>>, show: N -> Text, indent: Indent)
    ensures ItemsText(items, show, indent, true) == Listed(ItemTexts(items, show, indent))
  {
    ItemsListed(items, show, indent, true);
    Associate([], [], Listed(ItemTexts(items, show, indent)));
  }

  lemma EntriesInside<N>(entries: seq<Entry<N>>, show: N -> Text, indent: Indent)
    ensures EntriesText(entries, show, indent, true) == Listed(EntryTexts(entries, show, indent))
  {
    EntriesListed(entries, show, indent, true);
    Associate([], [], Listed(EntryTexts(entries, show, indent)));
  }

  lemma ArrayBody<N>(items: seq<Value<N>>, show: N -> Text, indent: Indent, inside: Text)
    requires inside == ItemsText(items, show, Inner(indent), true)
    ensures Body(Array(items), show, indent)
         == Bytes("[") + inside + (if items == [] then [] else NewLine(indent)) + Bytes("]")
  {
    Brackets();
  }

  lemma EntryTextsFirst<N>(entries: seq<Entry<N>>, show: N -> Text, indent: Indent)
    requires entries != []
    ensures EntryTexts(entries, show, indent)
         == [Lead(indent) + (KeyText(entries[0].key, indent) + Serialized(entries[0].value, show, indent))]
            + EntryTexts(entries[1..], show, indent)
  {
    KeyLead(entries[0].key, indent);
  }

  lemma {:induction false} EntriesListed<N>(entries: seq<Entry<N>>, show: N -> Text, indent: Indent, first: bool)
    ensures EntriesText(entries, show, indent, first)
         == (if first || entries == [] then [] else [COMMA]) + Listed(EntryTexts(entries, show, indent))
  {
    if entries != [] {
      EntriesListed(entries[1..], show, indent, false);
      LeadIs(indent);
      EntryTextsFirst(entries, show, indent);
      var texts := EntryTexts(entries[1..], show, indent);
      ListedStep(if first then [] else [COMMA], NewLine(indent),
                 KeyText(entries[0].key, indent) + Serialized(entries[0].value, show, indent),
                 (if texts == [] then [] else [COMMA]) + Listed(texts), texts);
    }
  }

  lemma KeyLead(key: Text, indent: Indent)
    ensures KeyText(key, indent) == Quoted(key) + Bytes(if indent == -1 then ":" else ": ")
  {
    assert Bytes(":") == [COLON] && Bytes(": ") == [COLON] + [SPACE];
  }

  /** The same for an object, with a colon after each key, and a space after that in the pretty form. */
  lemma ObjectLayout<N>(entries: seq<Entry<N>>, show: N -> Text, indent: Indent)
    ensures Body(Object(entries), show, indent)
         == Bytes("{") + Listed(EntryTexts(entries, show, Deeper(indent)))
            + (if entries == [] then [] else Lead(indent)) + Bytes("}")
  {
    LeadIs(indent);
    EntriesInside(entries, show, Inner(indent));
    ObjectBody(entries, show, indent, Listed(EntryTexts(entries, show, Inner(indent))));
  }

  lemma ObjectBody<N>(entries: seq<Entry<N>>, show: N -> Text, indent: Indent, inside: Text)
    requires inside == EntriesText(entries, show, Inner(indent), true)
    ensures Body(Object(entries), show, indent)
         == Bytes("{") + inside + (if entries == [] then [] else NewLine(indent)) + Bytes("}")
  {
    Brackets();
  }

  // ----- The printers, writing to an output iterator.

  class Output {
    var text: Text

    constructor ()
      ensures text == []
    {
      text := [];
    }

    method Write(s: Text)
      modifies this
      ensures text == old(text) + s
    {
      text := text + s;
    }
  }

  method SerializeStr(s: Text, oi: Output)
    modifies oi
    ensures oi.text == old(oi.text) + Quoted(s)
  {
    ghost var start := oi.text;
    oi.Write([QUOTE]);
    for n := 0 to |s|
      invariant oi.text + Escaped(s[n..]) == start + ([QUOTE] + Escaped(s))
    {
      ghost var written := oi.text;
      oi.Write(Escape(s[n]));
      assert s[n..][1..] == s[n + 1..];
      Associate(written, Escape(s[n]), Escaped(s[n + 1..]));
    }
    Associate(oi.text, [], []);
    oi.Write([QUOTE]);
    Associate(start, [QUOTE] + Escaped(s), [QUOTE]);
  }

  method WriteNewLine(oi: Output, indent: nat)
    modifies oi
    ensures oi.text == old(oi.text) + NewLine(indent)
  {
    oi.Write([LF]);
    for k := 0 to 2 * indent
      invariant oi.text == old(oi.text) + [LF] + Spaces(k)
    {
      oi.Write([SPACE]);
      assert Spaces(k + 1) == Spaces(k) + [SPACE];
    }
  }

  method Serialize<N>(v: Value<N>, show: N -> Text, indent: Indent, oi: Output)
    modifies oi
    ensures oi.text == old(oi.text) + Serialized(v, show, indent)
    decreases v, 1
  {
    ghost var start := oi.text;
    match v {
      case Null => oi.Write(NULL_TEXT);
      case Bool(b) => oi.Write(if b then TRUE_TEXT else FALSE_TEXT);
      case Number(n) => oi.Write(show(n));
      case Str(s) => SerializeStr(s, oi);
      case Array(items) => SerializeArray(v, items, show, indent, oi);
      case Object(entries) => SerializeObject(v, entries, show, indent, oi);
    }
    if indent == 0 {
      oi.Write([LF]);
    }
    Associate(start, Body(v, show, indent), if indent == 0 then [LF] else []);
  }

  method SerializeArray<N>(ghost v: Value<N>, items: seq<Value<N>>, show: N -> Text, indent: Indent, oi: Output)
    requires v == Array(items)
    modifies oi
    ensures oi.text == old(oi.text) + Body(v, show, indent)
    decreases v, 0
  {
    ghost var start, inside := oi.text, ItemsText(items, show, Inner(indent), true);
    oi.Write([LEFT_BRACKET]);
    SerializeItems(items, show, Inner(indent), oi);
    SerializeEnd(start, LEFT_BRACKET, inside, items == [], RIGHT_BRACKET, indent, oi);
  }

  method SerializeItems<N>(items: seq<Value<N>>, show: N -> Text, inner: Indent, oi: Output)
    modifies oi
    ensures oi.text == old(oi.text) + ItemsText(items, show, inner, true)
    decreases items
  {
    ghost var start, all := oi.text, ItemsText(items, show, inner, true);
    for n := 0 to |items|
      invariant oi.text + ItemsText(items[n..], show, inner, n == 0) == start + all
    {
      ghost var written, item := oi.text, ItemText(items[n], show, inner, n == 0);
      SerializeItem(items[n], show, inner, n == 0, oi);
      assert items[n..][1..] == items[n + 1..];
      Associate(written, item, ItemsText(items[n + 1..], show, inner, false));
    }
    Associate(oi.text, [], []);
  }

  /** The line break before a closing bracket, and the bracket. */
  method SerializeEnd(ghost start: Text, ghost open: Byte, ghost inside: Text, empty: bool, bracket: Byte,
                      indent: Indent, oi: Output)
    requires oi.text == start + [open] + inside
    modifies oi
    ensures oi.text == start + ([open] + inside + (if empty then [] else NewLine(indent)) + [bracket])
  {
    Associate(start, [open], inside);
    if indent != -1 && !empty {
      WriteNewLine(oi, indent);
    }
    oi.Write([bracket]);
  }

  method SerializeItem<N>(v: Value<N>, show: N -> Text, indent: Indent, first: bool, oi: Output)
    modifies oi
    ensures oi.text == old(oi.text) + ItemText(v, show, indent, first)
    decreases v, 2
  {
    Separate(indent, first, oi);
    Serialize(v, show, indent, oi);
    Associate(old(oi.text), (if first then [] else [COMMA]) + NewLine(indent), Serialized(v, show, indent));
  }

  method Separate(indent: Indent, first: bool, oi: Output)
    modifies oi
    ensures oi.text == old(oi.text) + ((if first then [] else [COMMA]) + NewLine(indent))
  {
    if !first {
      oi.Write([COMMA]);
    }
    if indent != -1 {
      WriteNewLine(oi, indent);
    }
  }

  method SerializeObject<N>(ghost v: Value<N>, entries: seq<Entry<N>>, show: N -> Text, indent: Indent, oi: Output)
    requires v == Object(entries)
    modifies oi
    ensures oi.text == old(oi.text) + Body(v, show, indent)
    decreases v, 0
  {
    ghost var start, inside := oi.text, EntriesText(entries, show, Inner(indent), true);
    oi.Write([LEFT_BRACE]);
    SerializeEntries(entries, show, Inner(indent), oi);
    SerializeEnd(start, LEFT_BRACE, inside, entries == [], RIGHT_BRACE, indent, oi);
  }

  method SerializeEntries<N>(entries: seq<Entry<N>>, show: N -> Text, inner: Indent, oi: Output)
    modifies oi
    ensures oi.text == old(oi.text) + EntriesText(entries, show, inner, true)
    decreases entries
  {
    ghost var start, all := oi.text, EntriesText(entries, show, inner, true);
    for n := 0 to |entries|
      invariant oi.text + EntriesText(entries[n..], show, inner, n == 0) == start + all
    {
      ghost var written, entry := oi.text, EntryText(entries[n], show, inner, n == 0);
      SerializeEntry(entries[n], show, inner, n == 0, oi);
      assert entries[n..][1..] == entries[n + 1..];
      Associate(written, entry, EntriesText(entries[n + 1..], show, inner, false));
    }
    Associate(oi.text, [], []);
  }

  method SerializeEntry<N>(e: Entry<N>, show: N -> Text, indent: Indent, first: bool, oi: Output)
    modifies oi
    ensures oi.text == old(oi.text) + EntryText(e, show, indent, first)
    decreases e, 2
  {
    Separate(indent, first, oi);
    ghost var before := oi.text;
    SerializeStr(e.key, oi);
    oi.Write([COLON]);
    if indent != -1 {
      oi.Write([SPACE]);
    }
    assert oi.text == before + KeyText(e.key, indent);
    Serialize(e.value, show, indent, oi);
    Associate(before, KeyText(e.key, indent), Serialized(e.value, show, indent));
    Associate(old(oi.text), (if first then [] else [COMMA]) + NewLine(indent),
         KeyText(e.key, indent) + Serialized(e.value, show, indent));
  }
}
