/** The parser itself: a cursor over the input with room for one pushed-back byte, and what reads from it. */
module JsonInput {
  import opened Options
  import opened Sequences
  import opened JsonText
  import opened JsonPrinter
  import opened JsonGrammar
  import Utf8

  function LineBreaks(s: Text): nat {
    if s == [] then 0 else LineBreaks(s[..|s| - 1]) + if s[|s| - 1] == LF then 1 else 0
  }

  /** The line that a cursor is in: a line break counts once a byte behind it has been read. */
  ghost predicate LineOf(data: Text, position: nat, line: nat) {
    position <= |data| && line == 1 + LineBreaks(data[..if position > 0 then position - 1 else 0])
  }

  lemma {:induction false} LineBreaksCounted(s: Text)
    ensures LineBreaks(s) == multiset(s)[LF]
  {
    if s != [] {
      LineBreaksCounted(s[..|s| - 1]);
      assert s == s[..|s| - 1] + [s[|s| - 1]];
    }
  }

  /** Where a parse leaves the cursor, behind a byte that was pushed back, and the line of that place. */
  ghost predicate StopsAt<T>(data: Text, r: Parsed<T>, position: nat, line: nat) {
    && LineOf(data, position, line)
    && (r.pushed ==> position > 0)
    && r.rest == data[if r.pushed then position - 1 else position..]
  }

  class Input {
    const data: Text
    var cur: nat
    var last: int
    var ungot: bool
    var line: nat

    /** The last byte read, if any, is the one before the cursor, and the line has been counted. */
    ghost predicate Valid()
      reads this
    {
      && cur <= |data|
      && (if last == -1 then cur == 0 || cur == |data| else cur > 0 && last == data[cur - 1])
      && (ungot ==> last != -1)
      && LineOf(data, cur, line)
    }


    ghost function Unread(): Text
      requires Valid()
      reads this
    {
      data[if ungot then cur - 1 else cur..]
    }

    constructor (data: Text)
      ensures this.data == data && Valid() && Unread() == data && !ungot && last == -1
    {
      this.data := data;
      cur, last, ungot, line := 0, -1, false, 1;
    }

    method GetC() returns (ch: int)
      requires Valid()
      modifies this
      ensures Valid() && !ungot && last == ch
      ensures ch == if old(Unread()) == [] then -1 else old(Unread())[0]
      ensures Unread() == if old(Unread()) == [] then [] else old(Unread())[1..]
    {
      if ungot {
        ungot := false;
        return last;
      }
      if cur == |data| {
        last := -1;
        return -1;
      }
      if last == LF {
        line := line + 1;
      }
      assert cur > 0 ==> data[..cur][..cur - 1] == data[..cur - 1];
      last := data[cur];
      cur := cur + 1;
      return last;
    }

    /** The precondition is the source's assertion: a byte is never pushed back over another. */
    method UngetC()
      requires Valid() && (last != -1 ==> !ungot)
      modifies this
      ensures Valid() && last == old(last)
      ensures Unread() == (if last == -1 then [] else [last]) + old(Unread())
      ensures ungot <==> last != -1
    {
      if last != -1 {
        ungot := true;
      }
    }

    method SkipWs()
      requires Valid()
      modifies this
      ensures Valid() && Unread() == SkipSpaces(old(Unread())) && (ungot <==> Unread() != [])
    {
      while true
        invariant Valid() && SkipSpaces(Unread()) == SkipSpaces(old(Unread()))
        decreases |Unread()|
      {
        var ch := GetC();
        if ch == -1 || !IsSpace(ch) {
          UngetC();
          break;
        }
      }
    }

    method Expect(b: Byte) returns (found: bool)
      requires Valid()
      modifies this
      ensures Valid() && (found <==> Begins(SkipSpaces(old(Unread())), b))
      ensures Unread() == if found then SkipSpaces(old(Unread()))[1..] else SkipSpaces(old(Unread()))
      ensures ungot <==> !found && Unread() != []
    {
      SkipWs();
      var ch := GetC();
      if ch != b {
        UngetC();
        return false;
      }
      return true;
    }

    method Match<T>(text: Text, value: T) returns (verdict: Verdict<T>)
      requires Valid() && !ungot
      modifies this
      ensures Valid() && Parsed(verdict, Unread(), ungot) == Literal(old(Unread()), text, value)
    {
      for k := 0 to |text|
        invariant Valid() && !ungot
        invariant Literal(Unread(), text[k..], value) == Literal(old(Unread()), text, value)
      {
        assert text[k..][1..] == text[k + 1..];
        var ch := GetC();
        if ch != text[k] {
          UngetC();
          return Rejected;
        }
      }
      return Accepted(value);
    }
  }

  /** One more hexadecimal digit, after `n` that denote `c`. */
  method ParseHex(input: Input, n: nat, c: nat) returns (ok: bool, c': nat)
    requires input.Valid() && !input.ungot && n < 4 && c < HexBound(n)
    modifies input
    ensures input.Valid()
    ensures ok ==> !input.ungot && c' < HexBound(n + 1)
    ensures ok ==> QuadHex(old(input.Unread()), n, c) == QuadHex(input.Unread(), n + 1, c')
    ensures !ok ==> Parsed(Rejected, input.Unread(), input.ungot) == QuadHex(old(input.Unread()), n, c)
  {
    ok, c' := false, c;
    var hex := input.GetC();
    if hex == -1 {
      return;
    }
    var b: Byte := hex;
    if !IsHex(b) {
      input.UngetC();
      return;
    }
    return true, AddHex(n, c, b);
  }

  method ParseQuadHex(input: Input) returns (verdict: Verdict<nat>)
    requires input.Valid() && !input.ungot
    modifies input
    ensures input.Valid() && Parsed(verdict, input.Unread(), input.ungot) == QuadHex(old(input.Unread()), 0, 0)
  {
    var c: nat := 0;
    ghost var all := QuadHex(input.Unread(), 0, 0);
    for i := 0 to 4
      invariant input.Valid() && !input.ungot && c < HexBound(i)
      invariant QuadHex(input.Unread(), i, c) == all
    {
      var ok;
      ok, c := ParseHex(input, i, c);
      if !ok {
        return Rejected;
      }
    }
    return Accepted(c);
  }

  method ParseCodepoint(input: Input) returns (verdict: Verdict<Text>)
    requires input.Valid() && !input.ungot
    modifies input
    ensures input.Valid() && Parsed(verdict, input.Unread(), input.ungot) == Codepoint(old(input.Unread()))
  {
    var first := ParseQuadHex(input);
    if !first.Accepted? {
      return Rejected;
    }
    var c := first.value;
    if 0xd800 <= c <= 0xdfff {
      if 0xdc00 <= c {
        return Rejected;
      }
      verdict := ParseLowHalf(input, c);
      return;
    }
    return Accepted(Utf8.Encode(c));
  }

  /** The start of the second escape; the first byte that differs is left unread. */
  method TakeBackslashU(input: Input) returns (found: bool)
    requires input.Valid() && !input.ungot
    modifies input
    ensures input.Valid()
    ensures var u := old(input.Unread());
            if !Begins(u, BACKSLASH) then !found && input.Unread() == u
            else if !Begins(u[1..], LOWER_U) then !found && input.Unread() == u[1..]
            else found && input.Unread() == u[1..][1..]
    ensures input.ungot <==> !found && input.Unread() != []
  {
    var ch := input.GetC();
    if ch == BACKSLASH {
      ch := input.GetC();
      if ch == LOWER_U {
        return true;
      }
    }
    input.UngetC();
    return false;
  }

  method ParseLowHalf(input: Input, high: nat) returns (verdict: Verdict<Text>)
    requires Utf8.IsHighSurrogate(high)
    requires input.Valid() && !input.ungot
    modifies input
    ensures input.Valid() && Parsed(verdict, input.Unread(), input.ungot) == LowHalf(high, old(input.Unread()))
  {
    var found := TakeBackslashU(input);
    if !found {
      return Rejected;
    }
    var second := ParseQuadHex(input);
    if !(second.Accepted? && 0xdc00 <= second.value <= 0xdfff) {
      return Rejected;
    }
    return Accepted(Utf8.Encode(Utf8.FromPair(high, second.value)));
  }

  method ParseEscape(input: Input) returns (verdict: Verdict<Text>)
    requires input.Valid() && !input.ungot
    modifies input
    ensures input.Valid() && Parsed(verdict, input.Unread(), input.ungot) == EscapeLit(old(input.Unread()))
  {
    var ch := input.GetC();
    if ch == -1 {
      return Rejected;
    }
    if ch == LOWER_U {
      verdict := ParseCodepoint(input);
      return;
    }
    match Unescaped(ch) {
      case Some(b) => return Accepted([b]);
      case None => return Rejected;
    }
  }

  /** One more character of a string, or its closing quote; `out` is what has been read of it. */
  method ParseChar(input: Input, out: Text) returns (verdict: Verdict<Text>, more: bool)
    requires input.Valid() && !input.ungot
    modifies input
    ensures input.Valid() && (more ==> verdict.Accepted? && !input.ungot && |input.Unread()| < |old(input.Unread())|)
    ensures StringLit(old(input.Unread()), out) ==
      if more then StringLit(input.Unread(), verdict.value) else Parsed(verdict, input.Unread(), input.ungot)
  {
    more, verdict := false, Rejected;
    var ch := input.GetC();
    if ch < SPACE {
      input.UngetC();
    } else if ch == QUOTE {
      verdict := Accepted(out);
    } else if ch == BACKSLASH {
      var e := ParseEscape(input);
      if e.Accepted? {
        more, verdict := true, Accepted(out + e.value);
      }
    } else {
      var b: Byte := ch;
      more, verdict := true, Accepted(out + [b]);
    }
  }

  method ParseString(input: Input) returns (verdict: Verdict<Text>)
    requires input.Valid() && !input.ungot
    modifies input
    ensures input.Valid() && Parsed(verdict, input.Unread(), input.ungot) == StringLit(old(input.Unread()), [])
  {
    var more := true;
    verdict := Accepted([]);
    ghost var all := StringLit(input.Unread(), []);
    while more
      invariant input.Valid() && (more ==> verdict.Accepted? && !input.ungot)
      invariant all
                == if more then StringLit(input.Unread(), verdict.value) else Parsed(verdict, input.Unread(),
                                          input.ungot)
      decreases more, |input.Unread()|
    {
      verdict, more := ParseChar(input, verdict.value);
    }
  }

  /** The next byte if it can belong to a number; any other byte is left unread. */
  method TakeNumberByte(input: Input) returns (taken: bool, b: Byte)
    requires input.Valid()
    modifies input
    ensures input.Valid()
    ensures taken ==> old(input.Unread()) == [b] + input.Unread() && IsNumberByte(b)
    ensures !taken ==> input.Unread() == old(input.Unread()) && NumberRun(input.Unread()) == 0
    ensures !taken ==> (input.ungot <==> input.Unread() != [])
  {
    taken, b := false, 0;
    var ch := input.GetC();
    if ch == -1 || !IsNumberByte(ch) {
      input.UngetC();
    } else {
      taken, b := true, ch;
    }
  }

  lemma NumberRunFirst(b: Byte, u: Text, token: Text)
    requires IsNumberByte(b)
    ensures NumberRun([b] + u) == 1 + NumberRun(u)
    ensures token + ([b] + u) == token + [b] + u
  {
    assert ([b] + u)[1..] == u;
  }

  lemma TokenIsPrefix(token: Text, rest: Text)
    ensures (token + rest)[..|token|] == token && (token + rest)[|token|..] == rest
  {
  }

  /** Reads on while the bytes can belong to a number. */
  method ReadNumber(input: Input) returns (token: Text)
    requires input.Valid()
    modifies input
    ensures input.Valid() && token == old(input.Unread())[..NumberRun(old(input.Unread()))]
    ensures input.Unread() == old(input.Unread())[NumberRun(old(input.Unread()))..]
    ensures input.ungot <==> input.Unread() != []
  {
    ghost var start, run := input.Unread(), NumberRun(input.Unread());
    token := [];
    var more := true;
    while more
      invariant input.Valid() && start == token + input.Unread()
      invariant |token| + NumberRun(input.Unread()) == run
      invariant !more ==> NumberRun(input.Unread()) == 0 && (input.ungot <==> input.Unread() != [])
      decreases more, |input.Unread()|
    {
      var b;
      more, b := TakeNumberByte(input);
      if more {
        NumberRunFirst(b, input.Unread(), token);
        token := token + [b];
      }
    }
    TokenIsPrefix(token, input.Unread());
  }

  method ParseNumber<N>(input: Input, decode: Text -> Decoded<N>, context: Context) returns (verdict: Verdict<Value<N>>)
    requires input.Valid()
    modifies input
    ensures input.Valid()
            && Parsed(verdict, input.Unread(), input.ungot) == NumberLit(old(input.Unread()), decode, context)
  {
    var token := ReadNumber(input);
    match decode(token) {
      case Bad => return Rejected;
      case Finite(n) => return Accepted(if context.Default? then Number(n) else Null);
      case Infinite => return if context.Default? then Thrown else Accepted(Null);
    }
  }

  method ParseKeyword<N>(input: Input, b: Byte, context: Context) returns (verdict: Verdict<Value<N>>)
    requires input.Valid() && !input.ungot && IsKeywordByte(b)
    modifies input
    ensures input.Valid() && Parsed(verdict, input.Unread(), input.ungot) == Keyword(b, old(input.Unread()), context)
  {
    if b == NULL_TEXT[0] {
      verdict := input.Match(NULL_TEXT[1..], Null);
    } else if b == FALSE_TEXT[0] {
      verdict := input.Match(FALSE_TEXT[1..], if context.Default? then Bool(false) else Null);
    } else {
      verdict := input.Match(TRUE_TEXT[1..], if context.Default? then Bool(true) else Null);
    }
  }

  method ParseStringValue<N>(input: Input, context: Context) returns (verdict: Verdict<Value<N>>)
    requires input.Valid() && !input.ungot
    modifies input
    ensures input.Valid() && Parsed(verdict, input.Unread(), input.ungot) == StringValue(old(input.Unread()), context)
  {
    var s := ParseString(input);
    if !s.Accepted? {
      return Rejected;
    }
    return Accepted(if context.Default? then Str(s.value) else Null);
  }

  method ParseValue<N>(input: Input, decode: Text -> Decoded<N>, context: Context) returns (verdict: Verdict<Value<N>>)
    requires input.Valid()
    modifies input
    ensures input.Valid()
            && Parsed(verdict, input.Unread(), input.ungot) == ValueLit(old(input.Unread()), decode, context)
    decreases |input.Unread()|, 0
  {
    input.SkipWs();
    ghost var v := input.Unread();
    verdict := Rejected;
    var ch := input.GetC();
    if ch == -1 {
      input.UngetC();
    } else if IsKeywordByte(ch) {
      verdict := ParseKeyword(input, ch, context);
    } else if ch == QUOTE {
      verdict := ParseStringValue(input, context);
    } else if ch == LEFT_BRACKET {
      verdict := ParseArray(input, decode, context);
    } else if ch == LEFT_BRACE {
      verdict := ParseObject(input, decode, context);
    } else {
      input.UngetC();
      assert input.Unread() == v;
      if StartsNumber(ch) {
        verdict := ParseNumber(input, decode, context);
      }
    }
  }

  /** One item, stored in the array that is being built, and the look for a comma after it. */
  method ParseItem<N>(input: Input, items: seq<Value<N>>, decode: Text -> Decoded<N>, context: Context)
    returns (verdict: Verdict<Value<N>>, more: seq<Value<N>>, comma: bool)
    requires input.Valid()
    modifies input
    ensures input.Valid() && (verdict.Accepted? ==> |input.Unread()| < |old(input.Unread())|)
    ensures Items(old(input.Unread()), items, decode, context) ==
      if !verdict.Accepted? then Parsed(verdict, input.Unread(), input.ungot)
      else if comma then Items(input.Unread(), more, decode, context)
      else Close(SkipSpaces(input.Unread()), RIGHT_BRACKET, if context.Default? then Array(more) else Null)
    decreases |input.Unread()|, 1
  {
    more, comma := items, false;
    verdict := ParseValue(input, decode, context);
    if verdict.Accepted? {
      if context.Default? {
        more := items + [verdict.value];
      } else {
        more := [];
      }
      comma := input.Expect(COMMA);
    }
  }

  method ParseArray<N>(input: Input, decode: Text -> Decoded<N>, context: Context) returns (verdict: Verdict<Value<N>>)
    requires input.Valid()
    modifies input
    ensures input.Valid()
            && Parsed(verdict, input.Unread(), input.ungot) == ArrayLit(old(input.Unread()), decode, context)
    decreases |input.Unread()|, 3
  {
    var closed := input.Expect(RIGHT_BRACKET);
    if closed {
      return Accepted(if context.Default? then Array([]) else Null);
    }
    var items: seq<Value<N>>, comma := [], true;
    ghost var start, all := input.Unread(), Items(input.Unread(), [], decode, context);
    while comma
      invariant input.Valid() && |input.Unread()| <= |start|
      invariant all == if comma then Items(input.Unread(), items, decode, context)
        else Close(SkipSpaces(input.Unread()), RIGHT_BRACKET, if context.Default? then Array(items) else Null)
      decreases comma, |input.Unread()|
    {
      verdict, items, comma := ParseItem(input, items, decode, context);
      if !verdict.Accepted? {
        return;
      }
    }
    closed := input.Expect(RIGHT_BRACKET);
    return if closed then Accepted(if context.Default? then Array(items) else Null) else Rejected;
  }

  method ParseKey(input: Input) returns (verdict: Verdict<Text>)
    requires input.Valid()
    modifies input
    ensures input.Valid() && Parsed(verdict, input.Unread(), input.ungot) == Key(old(input.Unread()))
  {
    var found := input.Expect(QUOTE);
    if !found {
      return Rejected;
    }
    verdict := ParseString(input);
    if verdict.Accepted? {
      found := input.Expect(COLON);
      if !found {
        return Rejected;
      }
    }
  }

  /** One member, assigned to its key, and the look for a comma after it. */
  method ParseMember<N>(input: Input, entries: seq<Entry<N>>, decode: Text -> Decoded<N>, context: Context)
    returns (verdict: Verdict<Value<N>>, more: seq<Entry<N>>, comma: bool)
    requires input.Valid()
    modifies input
    ensures input.Valid() && (verdict.Accepted? ==> |input.Unread()| < |old(input.Unread())|)
    ensures Members(old(input.Unread()), entries, decode, context) ==
      if !verdict.Accepted? then Parsed(verdict, input.Unread(), input.ungot)
      else if comma then Members(input.Unread(), more, decode, context)
      else Close(SkipSpaces(input.Unread()), RIGHT_BRACE, if context.Default? then Object(more) else Null)
    decreases |input.Unread()|, 1
  {
    more, comma := entries, false;
    var key := ParseKey(input);
    if !key.Accepted? {
      verdict := Rejected;
      return;
    }
    verdict := ParseValue(input, decode, context);
    if verdict.Accepted? {
      if context.Default? {
        more := Put(entries, key.value, verdict.value);
      } else {
        more := [];
      }
      comma := input.Expect(COMMA);
    }
  }

  method ParseObject<N>(input: Input, decode: Text -> Decoded<N>, context: Context) returns (verdict: Verdict<Value<N>>)
    requires input.Valid()
    modifies input
    ensures input.Valid()
            && Parsed(verdict, input.Unread(), input.ungot) == ObjectLit(old(input.Unread()), decode, context)
    decreases |input.Unread()|, 3
  {
    var closed := input.Expect(RIGHT_BRACE);
    if closed {
      return Accepted(if context.Default? then Object([]) else Null);
    }
    var entries: seq<Entry<N>>, comma := [], true;
    ghost var start, all := input.Unread(), Members(input.Unread(), [], decode, context);
    while comma
      invariant input.Valid() && |input.Unread()| <= |start|
      invariant all == if comma then Members(input.Unread(), entries, decode, context)
        else Close(SkipSpaces(input.Unread()), RIGHT_BRACE, if context.Default? then Object(entries) else Null)
      decreases comma, |input.Unread()|
    {
      verdict, entries, comma := ParseMember(input, entries, decode, context);
      if !verdict.Accepted? {
        return;
      }
    }
    closed := input.Expect(RIGHT_BRACE);
    return if closed then Accepted(if context.Default? then Object(entries) else Null) else Rejected;
  }

  method ParseFrom<N>(data: Text, decode: Text -> Decoded<N>, context: Context)
    returns (verdict: Verdict<Value<N>>, input: Input)
    ensures fresh(input) && input.Valid() && input.data == data
    ensures Parsed(verdict, input.Unread(), input.ungot) == ValueLit(data, decode, context)
  {
    input := new Input(data);
    verdict := ParseValue(input, decode, context);
  }

  /** The bytes of a text that the error message shows: none below the space. */
  function Shown(u: Text): Text {
    if u == [] then [] else (if u[0] >= SPACE then [u[0]] else []) + Shown(u[1..])
  }

  lemma {:induction false} ShownKeeps(u: Text)
    ensures Kept(Shown(u), u, b => b >= SPACE)
  {
    if u == [] {
      KeptNone<Byte>(b => b >= SPACE);
    } else {
      ShownKeeps(u[1..]);
      KeptTake(u[0], Shown(u[1..]), u[1..], b => b >= SPACE);
      assert u == [u[0]] + u[1..];
    }
  }

  function AfterLine(u: Text): Text {
    if LineEnd(u) == |u| then [] else u[LineEnd(u) + 1..]
  }

  /** What the error message shows of the first line. */
  function Near(u: Text): Text {
    Shown(u[..LineEnd(u)])
  }

  lemma LineStep(b: Byte, u: Text)
    requires b != LF
    ensures LineEnd([b] + u) == 1 + LineEnd(u) && AfterLine([b] + u) == AfterLine(u)
    ensures ([b] + u)[..LineEnd([b] + u)] == [b] + u[..LineEnd(u)]
  {
    assert ([b] + u)[1..] == u;
  }

  lemma ShownStep(b: Byte, u: Text)
    ensures Shown([b] + u) == (if b >= SPACE then [b] else []) + Shown(u)
  {
    assert ([b] + u)[1..] == u;
  }

  lemma NearStep(near: Text, b: Byte, u: Text)
    requires b != LF
    ensures AfterLine([b] + u) == AfterLine(u)
    ensures near + Near([b] + u) == near + (if b >= SPACE then [b] else []) + Near(u)
  {
    LineStep(b, u);
    ShownStep(b, u[..LineEnd(u)]);
  }

  lemma NearEnd(near: Text, u: Text)
    requires u == [] || u[0] == LF
    ensures near + Near(u) == near && AfterLine(u) == if u == [] then [] else u[1..]
  {
  }

  /** The next byte of the line; its end is consumed. */
  method TakeLineByte(input: Input) returns (more: bool, b: Byte)
    requires input.Valid()
    modifies input
    ensures input.Valid() && !input.ungot
    ensures var u := old(input.Unread());
            if more then u == [b] + input.Unread() && b != LF
            else (u == [] || u[0] == LF) && input.Unread() == if u == [] then [] else u[1..]
  {
    more, b := false, 0;
    var ch := input.GetC();
    if ch != -1 && ch != LF {
      more, b := true, ch;
    }
  }

  /** Reads on to the end of the line, for the error message. */
  method ReadNear(input: Input) returns (near: Text)
    requires input.Valid()
    modifies input
    ensures input.Valid() && !input.ungot && input.Unread() == AfterLine(old(input.Unread()))
    ensures near == Near(old(input.Unread()))
  {
    near := [];
    ghost var u, all, after := input.Unread(), Near(input.Unread()), AfterLine(input.Unread());
    var more := true;
    while more
      invariant input.Valid()
      invariant more ==> u == input.Unread() && AfterLine(u) == after && near + Near(u) == all
      invariant !more ==> !input.ungot && input.Unread() == after && near == all
      decreases more, |input.Unread()|
    {
      var b;
      more, b := TakeLineByte(input);
      if more {
        NearStep(near, b, input.Unread());
        near := near + if b >= SPACE then [b] else [];
        u := input.Unread();
      } else {
        NearEnd(near, u);
      }
    }
  }

  /**
   A parse of a whole text. Where it stops tells the line; a rejection reads on to the end of that line before the
   cursor is returned, and shows what it read.
   */
  method ParseText<N>(data: Text, decode: Text -> Decoded<N>, context: Context)
    returns (verdict: Verdict<Value<N>>, line: nat, near: Text, position: nat, ghost stopped: nat)
    ensures verdict == ValueLit(data, decode, context).verdict
    ensures StopsAt(data, ValueLit(data, decode, context), stopped, line)
    ensures if verdict.Rejected?
            then near == Near(ValueLit(data, decode, context).rest)
                 && position <= |data| && data[position..] == AfterLine(ValueLit(data, decode, context).rest)
            else near == [] && position == stopped
  {
    var input;
    verdict, input := ParseFrom(data, decode, context);
    near, line, position := [], input.line, input.cur;
    stopped := Stopped(input, ValueLit(data, decode, context), line);
    if verdict.Rejected? {
      near := ReadNear(input);
      position := input.cur;
    }
  }

  lemma Stopped<T>(input: Input, r: Parsed<T>, line: nat) returns (position: nat)
    requires input.Valid() && r.rest == input.Unread() && r.pushed == input.ungot && line == input.line
    ensures position == input.cur && StopsAt(input.data, r, position, line)
  {
    position := input.cur;
  }
}
