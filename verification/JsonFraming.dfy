/** Compact output never contains a line break, so a stream of lines carries exactly the messages that were sent. */
module JsonFraming {
  import opened Options
  import opened JsonText
  import opened JsonPrinter
  import opened JsonGrammar
  import opened JsonSyntax
  import opened JsonRoundTrip

  ghost predicate NoControl(s: Text) {
    forall k :: 0 <= k < |s| ==> s[k] >= SPACE
  }

  lemma {:induction false} EscapedNoControl(s: Text)
    ensures NoControl(Escaped(s))
  {
    if s != [] {
      EscapedNoControl(s[1..]);
      assert NoControl(Escape(s[0]));
    }
  }

  /** No byte below 0x20 in the compact form of any value. */
  lemma {:induction false} CompactNoControl<N(!new)>(v: Value<N>, show: N -> Text, decode: Text -> Decoded<N>)
    requires Printable(v, show, decode)
    ensures NoControl(Serialized(v, show, -1))
    decreases v
  {
    match v {
      case Str(s) => EscapedNoControl(s);
      case Array(items) => ItemsNoControl(items, show, decode, true);
      case Object(entries) => EntriesNoControl(entries, show, decode, true);
      case _ =>
    }
  }

  lemma {:induction false} ItemsNoControl<N(!new)>(items: seq<Value<N>>, show: N -> Text, decode: Text -> Decoded<N>,
                                            first: bool)
    requires forall i :: 0 <= i < |items| ==> Printable(items[i], show, decode)
    ensures NoControl(ItemsText(items, show, -1, first))
    decreases items
  {
    if items != [] {
      CompactNoControl(items[0], show, decode);
      ItemsNoControl(items[1..], show, decode, false);
    }
  }

  lemma {:induction false} EntriesNoControl<N(!new)>(entries: seq<Entry<N>>, show: N -> Text,
                                              decode: Text -> Decoded<N>, first: bool)
    requires forall i :: 0 <= i < |entries| ==> Printable(entries[i].value, show, decode)
    ensures NoControl(EntriesText(entries, show, -1, first))
    decreases entries
  {
    if entries != [] {
      EscapedNoControl(entries[0].key);
      CompactNoControl(entries[0].value, show, decode);
      EntriesNoControl(entries[1..], show, decode, false);
    }
  }

  /** Each message on a line of its own, as the engines send them. */
  function Stream<N>(messages: seq<Value<N>>, show: N -> Text): Text {
    if messages == [] then [] else Serialized(messages[0], show, -1) + [LF] + Stream(messages[1..], show)
  }

  /** The complete lines of a text, without their line breaks. */
  function Lines(u: Text): seq<Text> {
    if LineEnd(u) == |u| then [] else [u[..LineEnd(u)]] + Lines(u[LineEnd(u) + 1..])
  }

  lemma LinesOfOne(line: Text, rest: Text)
    requires NoControl(line)
    ensures Lines(line + [LF] + rest) == [line] + Lines(rest)
  {
    var u := line + [LF] + rest;
    assert u[|line|] == LF;
    assert forall k :: 0 <= k < |line| ==> u[k] == line[k];
    assert LineEnd(u) == |line|;
    assert u[..|line|] == line && u[|line| + 1..] == rest;
  }

  /** Splitting the stream at its line breaks and parsing each line recovers the messages, in order. */
  lemma {:induction false} LinesCarryMessages<N(!new)>(messages: seq<Value<N>>, show: N -> Text,
                                                decode: Text -> Decoded<N>)
    requires forall i :: 0 <= i < |messages| ==> Printable(messages[i], show, decode)
    ensures |Lines(Stream(messages, show))| == |messages|
    ensures forall k :: 0 <= k < |messages| ==>
              Reads(ValueLit(Lines(Stream(messages, show))[k], decode, Default), messages[k], [])
  {
    if messages != [] {
      var line, rest := Serialized(messages[0], show, -1), messages[1..];
      CompactNoControl(messages[0], show, decode);
      LinesOfOne(line, Stream(rest, show));
      LinesCarryMessages(rest, show, decode);
      RoundTrip(messages[0], show, decode);
      var lines := Lines(Stream(rest, show));
      assert Lines(Stream(messages, show)) == [line] + lines;
      forall k | 1 <= k < |messages|
        ensures Reads(ValueLit(([line] + lines)[k], decode, Default), messages[k], [])
      {
        assert ([line] + lines)[k] == lines[k - 1] && messages[k] == rest[k - 1];
      }
    }
  }

  // ----- The receiving end, which reads until a piece ends in a line break.

  ghost predicate AllNonEmpty(chunks: seq<Text>) {
    forall k :: 0 <= k < |chunks| ==> chunks[k] != []
  }

  function Joined(chunks: seq<Text>): Text {
    if chunks == [] then [] else chunks[0] + Joined(chunks[1..])
  }

  /** What has been received when a piece first ends in a line break; `None` when the reads fail before. */
  function Received(chunks: seq<Text>): Option<Text>
    requires AllNonEmpty(chunks)
  {
    if chunks == [] then None
    else if chunks[0][|chunks[0]| - 1] == LF then Some(chunks[0])
    else
      match Received(chunks[1..])
      case None => None
      case Some(more) => Some(chunks[0] + more)
  }

  ghost predicate EndsLine(chunk: Text) {
    chunk != [] && chunk[|chunk| - 1] == LF
  }

  /** The first piece that ends in a line break, and all before it. */
  ghost predicate ReceivedBy(chunks: seq<Text>, k: nat, out: Text) {
    k < |chunks| && EndsLine(chunks[k]) && (forall m :: 0 <= m < k ==> !EndsLine(chunks[m]))
    && out == Joined(chunks[..k + 1])
  }

  lemma {:induction false} ReceivedIff(chunks: seq<Text>, out: Text)
    requires AllNonEmpty(chunks)
    ensures Received(chunks) == Some(out) <==> exists k: nat :: ReceivedBy(chunks, k, out)
  {
    if chunks != [] {
      var rest := chunks[1..];
      if EndsLine(chunks[0]) {
        JoinedFirst(chunks, 0);
        assert chunks[0] + [] == chunks[0];
        assert ReceivedBy(chunks, 0, chunks[0]);
      } else {
        if Received(rest).Some? {
          ReceivedIff(rest, Received(rest).value);
          var k: nat :| ReceivedBy(rest, k, Received(rest).value);
          ReceivedLater(chunks, k, Received(rest).value);
        }
        if k: nat :| ReceivedBy(chunks, k, out) {
          ReceivedEarlier(chunks, k, out);
          ReceivedIff(rest, Joined(rest[..k]));
        }
      }
    }
  }

  lemma JoinedFirst(chunks: seq<Text>, k: nat)
    requires k < |chunks|
    ensures Joined(chunks[..k + 1]) == chunks[0] + Joined(chunks[1..][..k])
  {
    assert chunks[..k + 1][1..] == chunks[1..][..k];
  }

  lemma ReceivedLater(chunks: seq<Text>, k: nat, more: Text)
    requires chunks != [] && !EndsLine(chunks[0]) && ReceivedBy(chunks[1..], k, more)
    ensures ReceivedBy(chunks, k + 1, chunks[0] + more)
  {
    JoinedFirst(chunks, k + 1);
    forall m | 0 <= m < k + 1
      ensures !EndsLine(chunks[m])
    {
      assert m > 0 ==> chunks[m] == chunks[1..][m - 1];
    }
  }

  lemma ReceivedEarlier(chunks: seq<Text>, k: nat, out: Text)
    requires chunks != [] && !EndsLine(chunks[0]) && ReceivedBy(chunks, k, out)
    ensures k > 0 && ReceivedBy(chunks[1..], k - 1, Joined(chunks[1..][..k]))
    ensures out == chunks[0] + Joined(chunks[1..][..k])
  {
    JoinedFirst(chunks, k);
    assert chunks[1..][..k] == chunks[1..][..k - 1 + 1];
  }

  /** The reads succeed in turn, each with at least one byte, until they are used up. */
  method ReceiveString(chunks: seq<Text>) returns (out: Option<Text>)
    requires AllNonEmpty(chunks)
    ensures out == Received(chunks)
  {
    var got: Text := [];
    ReceivedStep([], [], Received(chunks));
    assert chunks[0..] == chunks;
    for n := 0 to |chunks|
      invariant Received(chunks) == ReceivedAfter(got, Received(chunks[n..]))
    {
      assert chunks[n..][1..] == chunks[n + 1..];
      ReceivedStep(got, chunks[n], Received(chunks[n + 1..]));
      got := got + chunks[n];
      if chunks[n][|chunks[n]| - 1] == LF {
        return Some(got);
      }
    }
    return None;
  }

  ghost function ReceivedAfter(got: Text, rest: Option<Text>): Option<Text> {
    if rest.None? then None else Some(got + rest.value)
  }

  lemma ReceivedStep(got: Text, piece: Text, rest: Option<Text>)
    ensures ReceivedAfter(got, ReceivedAfter(piece, rest)) == ReceivedAfter(got + piece, rest)
    ensures ReceivedAfter([], rest) == rest
  {
    if rest.Some? {
      assert got + (piece + rest.value) == got + piece + rest.value;
      assert [] + rest.value == rest.value;
    }
  }

  lemma PieceOf(line: Text, piece: Text, rest: Text)
    requires NoControl(line) && piece != [] && piece + rest == line + [LF]
    ensures if rest == [] then piece == line + [LF] && piece[|piece| - 1] == LF
            else |piece| <= |line| && piece[|piece| - 1] != LF && rest == line[|piece|..] + [LF]
  {
    var whole := line + [LF];
    assert whole[..|piece|] == piece && whole[|piece|..] == rest;
  }

  /** However a line without control bytes is cut into pieces, it is received whole and nothing is left to read. */
  lemma {:induction false} LineArrives(line: Text, chunks: seq<Text>)
    requires NoControl(line) && AllNonEmpty(chunks) && Joined(chunks) == line + [LF]
    ensures Received(chunks) == Some(line + [LF])
  {
    var piece, rest := chunks[0], chunks[1..];
    PieceOf(line, piece, Joined(rest));
    if Joined(rest) != [] {
      LineArrives(line[|piece|..], rest);
      assert piece + (line[|piece|..] + [LF]) == piece + Joined(rest);
    }
  }

  /** A message, however its line is cut into reads, arrives whole and is parsed to what was sent. */
  lemma MessageArrives<N(!new)>(v: Value<N>, show: N -> Text, decode: Text -> Decoded<N>, chunks: seq<Text>)
    requires Printable(v, show, decode) && AllNonEmpty(chunks) && Joined(chunks) == Serialized(v, show, -1) + [LF]
    ensures Received(chunks).Some? && Reads(ValueLit(Received(chunks).value, decode, Default), v, [LF])
  {
    CompactNoControl(v, show, decode);
    LineArrives(Serialized(v, show, -1), chunks);
    PrintedMeans(v, show, decode, -1);
    PrintedText(v, show, -1, [LF]);
    TreeReads(Printed(v, show, -1), decode, [LF]);
    assert Serialized(v, show, -1) == Body(v, show, -1);
  }
}
