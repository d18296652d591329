/**
 What the recursive-descent parser does to the unread input: a parse is accepted with a value, rejected,
 or ends in the overflow exception, and leaves the rest unread, with its first byte pushed back or not.
 */
module JsonGrammar {
  import opened Options
  import opened JsonText
  import opened JsonPrinter
  import Utf8

  datatype Verdict<+T> = Accepted(value: T) | Rejected | Thrown

  datatype Parsed<+T> = Parsed(verdict: Verdict<T>, rest: Text, pushed: bool)

  /** The default context builds a value, the null context only validates. */
  datatype Context = Default | Validating

  /** What converting a number token gives: not a number, a finite number, or one out of range. */
  datatype Decoded<N> = Bad | Finite(n: N) | Infinite

  function Accept<T>(value: T, rest: Text): Parsed<T> {
    Parsed(Accepted(value), rest, false)
  }

  /** A rejection that puts the byte it stumbled over back; at the end of the input there is none. */
  function RejectAt<T>(u: Text): Parsed<T> {
    Parsed(Rejected, u, u != [])
  }

  predicate Begins(u: Text, b: Byte) {
    u != [] && u[0] == b
  }

  function Literal<T>(u: Text, text: Text, value: T): (r: Parsed<T>)
    ensures |r.rest| <= |u|
    decreases text
  {
    if text == [] then Accept(value, u)
    else if Begins(u, text[0]) then Literal(u[1..], text[1..], value)
    else RejectAt(u)
  }

  /** `u` and `text` agree in their first `k` bytes, and then `text` goes on in another way. */
  predicate PartsAt(u: Text, text: Text, k: nat) {
    k <= |u| && k < |text| && u[..k] == text[..k] && (k == |u| || u[k] != text[k])
  }

  /** A literal that is not there as a whole is left at the first byte that differs. */
  lemma {:induction false} LiteralStops<T>(u: Text, text: Text, value: T, k: nat)
    requires PartsAt(u, text, k)
    ensures Literal(u, text, value) == RejectAt(u[k..])
    decreases k
  {
    if k > 0 {
      assert u[0] == u[..k][0] && text[0] == text[..k][0];
      assert u[1..][..k - 1] == u[..k][1..] && text[1..][..k - 1] == text[..k][1..];
      LiteralStops(u[1..], text[1..], value, k - 1);
      assert u[1..][k - 1..] == u[k..];
    } else {
      assert u[0..] == u;
    }
  }

  function HexBound(n: nat): nat {
    if n == 0 then 1 else if n == 1 then 0x10 else if n == 2 then 0x100 else if n == 3 then 0x1000 else 0x10000
  }

  function AddHex(n: nat, c: nat, b: Byte): (c': nat)
    requires n < 4 && c < HexBound(n) && IsHex(b)
    ensures c' < HexBound(n + 1)
  {
    c * 16 + HexValue(b)
  }

  /** Reads hexadecimal digits until there are four; `n` have been read, `c` is their value. */
  function QuadHex(u: Text, n: nat, c: nat): (r: Parsed<nat>)
    requires n <= 4 && c < HexBound(n)
    ensures |r.rest| <= |u| && !r.verdict.Thrown?
    ensures r.verdict.Accepted? ==> r.verdict.value < 0x10000 && !r.pushed
    decreases 4 - n
  {
    if n == 4 then Accept(c, u)
    else if u == [] || !IsHex(u[0]) then RejectAt(u)
    else QuadHex(u[1..], n + 1, AddHex(n, c, u[0]))
  }

  /** A \u escape, after its letter: the bytes of its scalar value. */
  function Codepoint(u: Text): (r: Parsed<Text>)
    ensures |r.rest| <= |u| && !r.verdict.Thrown?
    ensures r.verdict.Accepted? ==> !r.pushed
  {
    var q := QuadHex(u, 0, 0);
    match q.verdict
    case Accepted(c) =>
      if Utf8.IsLowSurrogate(c) then Parsed(Rejected, q.rest, false)
      else if Utf8.IsHighSurrogate(c) then LowHalf(c, q.rest)
      else Accept(Utf8.Encode(c), q.rest)
    case _ => Parsed(Rejected, q.rest, q.pushed)
  }

  function LowHalf(high: nat, u: Text): (r: Parsed<Text>)
    requires Utf8.IsHighSurrogate(high)
    ensures |r.rest| <= |u| && !r.verdict.Thrown?
    ensures r.verdict.Accepted? ==> !r.pushed
  {
    if !Begins(u, BACKSLASH) then RejectAt(u)
    else if !Begins(u[1..], LOWER_U) then RejectAt(u[1..])
    else
      var q := QuadHex(u[1..][1..], 0, 0);
      if q.verdict.Accepted? && Utf8.IsLowSurrogate(q.verdict.value)
      then Accept(Utf8.Encode(Utf8.FromPair(high, q.verdict.value)), q.rest)
      else Parsed(Rejected, q.rest, q.pushed)
  }

  /** An escape, after its backslash. */
  function EscapeLit(u: Text): (r: Parsed<Text>)
    ensures |r.rest| <= |u| && !r.verdict.Thrown?
    ensures r.verdict.Accepted? ==> !r.pushed
  {
    if u == [] then Parsed(Rejected, u, false)
    else if u[0] == LOWER_U then Codepoint(u[1..])
    else
      match Unescaped(u[0])
      case Some(b) => Accept([b], u[1..])
      case None => Parsed(Rejected, u[1..], false)
  }

  /** A string, after its opening quote; `out` is what has been read of it. */
  function StringLit(u: Text, out: Text): (r: Parsed<Text>)
    ensures |r.rest| <= |u| && !r.verdict.Thrown?
    ensures r.verdict.Accepted? ==> |r.rest| < |u| && !r.pushed
    decreases |u|
  {
    if u == [] || u[0] < SPACE then RejectAt(u)
    else if u[0] == QUOTE then Accept(out, u[1..])
    else if u[0] != BACKSLASH then StringLit(u[1..], out + [u[0]])
    else
      var e := EscapeLit(u[1..]);
      if e.verdict.Accepted? then StringLit(e.rest, out + e.verdict.value) else e
  }

  /** The length of the run of number bytes at the front. */
  function NumberRun(u: Text): (n: nat)
    ensures n <= |u|
    ensures u != [] && IsNumberByte(u[0]) ==> n > 0
  {
    if u != [] && IsNumberByte(u[0]) then 1 + NumberRun(u[1..]) else 0
  }

  function NumberLit<N>(u: Text, decode: Text -> Decoded<N>, context: Context): (r: Parsed<Value<N>>)
    ensures |r.rest| == |u| - NumberRun(u)
  {
    var rest := u[NumberRun(u)..];
    match decode(u[..NumberRun(u)])
    case Bad => RejectAt(rest)
    case Finite(n) => Parsed(Accepted(if context.Default? then Number(n) else Null), rest, rest != [])
    case Infinite => Parsed(if context.Default? then Thrown else Accepted(Null), rest, rest != [])
  }

  predicate IsKeywordByte(b: Byte) {
    b == NULL_TEXT[0] || b == FALSE_TEXT[0] || b == TRUE_TEXT[0]
  }

  /** The rest of null, false or true, after its first byte. */
  function Keyword<N>(b: Byte, u: Text, context: Context): (r: Parsed<Value<N>>)
    requires IsKeywordByte(b)
    ensures |r.rest| <= |u|
  {
    if b == NULL_TEXT[0] then Literal(u, NULL_TEXT[1..], Null)
    else if b == FALSE_TEXT[0] then Literal(u, FALSE_TEXT[1..], if context.Default? then Bool(false) else Null)
    else Literal(u, TRUE_TEXT[1..], if context.Default? then Bool(true) else Null)
  }

  function StringValue<N>(u: Text, context: Context): (r: Parsed<Value<N>>)
    ensures |r.rest| <= |u|
  {
    var s := StringLit(u, []);
    match s.verdict
    case Accepted(t) => Accept(if context.Default? then Str(t) else Null, s.rest)
    case _ => Parsed(Rejected, s.rest, s.pushed)
  }

  /** A value: in the default context the one that is written, otherwise a dummy. */
  function ValueLit<N>(u: Text, decode: Text -> Decoded<N>, context: Context): (r: Parsed<Value<N>>)
    ensures |r.rest| <= |u|
    ensures r.verdict.Accepted? ==> |r.rest| < |u|
    decreases |u|, 0
  {
    var v := SkipSpaces(u);
    if v == [] then RejectAt(v)
    else if IsKeywordByte(v[0]) then Keyword(v[0], v[1..], context)
    else if v[0] == QUOTE then StringValue(v[1..], context)
    else if v[0] == LEFT_BRACKET then ArrayLit(v[1..], decode, context)
    else if v[0] == LEFT_BRACE then ObjectLit(v[1..], decode, context)
    else if StartsNumber(v[0]) then NumberLit(v, decode, context)
    else RejectAt(v)
  }

  function Close<N>(v: Text, bracket: Byte, value: Value<N>): (r: Parsed<Value<N>>)
    ensures |r.rest| <= |v|
  {
    if Begins(v, bracket) then Accept(value, v[1..]) else RejectAt(v)
  }

  function ArrayLit<N>(u: Text, decode: Text -> Decoded<N>, context: Context): (r: Parsed<Value<N>>)
    ensures |r.rest| <= |u|
    decreases |u|, 2
  {
    var v := SkipSpaces(u);
    if Begins(v, RIGHT_BRACKET) then Accept(if context.Default? then Array([]) else Null, v[1..])
    else Items(v, [], decode, context)
  }

  /** The items of an array, from one on; `items` are those before. */
  function Items<N>(u: Text, items: seq<Value<N>>, decode: Text -> Decoded<N>, context: Context): (r: Parsed<Value<N>>)
    ensures |r.rest| <= |u|
    decreases |u|, 1
  {
    var r := ValueLit(u, decode, context);
    match r.verdict
    case Accepted(value) =>
      var v := SkipSpaces(r.rest);
      var more := if context.Default? then items + [value] else [];
      if Begins(v, COMMA) then Items(v[1..], more, decode, context)
      else Close(v, RIGHT_BRACKET, if context.Default? then Array(more) else Null)
    case _ => r
  }

  function ObjectLit<N>(u: Text, decode: Text -> Decoded<N>, context: Context): (r: Parsed<Value<N>>)
    ensures |r.rest| <= |u|
    decreases |u|, 2
  {
    var v := SkipSpaces(u);
    if Begins(v, RIGHT_BRACE) then Accept(if context.Default? then Object([]) else Null, v[1..])
    else Members(v, [], decode, context)
  }

  /** A key and its colon. */
  function Key(u: Text): (r: Parsed<Text>)
    ensures |r.rest| <= |u| && !r.verdict.Thrown?
    ensures r.verdict.Accepted? ==> |r.rest| < |u|
  {
    var v := SkipSpaces(u);
    if !Begins(v, QUOTE) then RejectAt(v)
    else
      var s := StringLit(v[1..], []);
      if !s.verdict.Accepted? then s
      else
        var w := SkipSpaces(s.rest);
        if Begins(w, COLON) then Accept(s.verdict.value, w[1..]) else RejectAt(w)
  }

  /** The members of an object, from one on; `entries` are those before. A repeated key takes the later value. */
  function Members<N>(u: Text, entries: seq<Entry<N>>, decode: Text -> Decoded<N>,
                      context: Context): (r: Parsed<Value<N>>)
    ensures |r.rest| <= |u|
    decreases |u|, 1
  {
    var k := Key(u);
    if !k.verdict.Accepted? then Parsed(Rejected, k.rest, k.pushed)
    else
      var r := ValueLit(k.rest, decode, context);
      match r.verdict
      case Accepted(value) =>
        var v := SkipSpaces(r.rest);
        var more := if context.Default? then Put(entries, k.verdict.value, value) else [];
        if Begins(v, COMMA) then Members(v[1..], more, decode, context)
        else Close(v, RIGHT_BRACE, if context.Default? then Object(more) else Null)
      case _ => r
  }
}
