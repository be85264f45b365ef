/**
 * The providers that print a model's answer as events (src/llm/providers) and the whole channel:
 * provider, relay, collector. Whatever the model says arrives unit for unit.
 */
module AnswerChannel {
  import opened Options
  import opened Sequences
  import opened Utf16
  import opened JsonString
  import opened SseFormat
  import opened LlmRelay

  /** What the OpenAI stream reports; every handler of the source falls in one of these kinds. */
  datatype ProviderEvent =
    | Delta(text: Text)      // output, tool-call and generic deltas: skipped when empty
    | WholeText(text: Text)  // a complete output text: written even when empty
    | Completed
    | Failed

  predicate IsTerminal(e: ProviderEvent) {
    e.Completed? || e.Failed?
  }

  /** The answer texts reported before the stream is closed. */
  function Accepted(events: seq<ProviderEvent>): seq<Text> {
    if events == [] || IsTerminal(events[0]) then []
    else if events[0].Delta? && events[0].text == [] then Accepted(events[1..])
    else [events[0].text] + Accepted(events[1..])
  }

  /** The body of the closing event, if the stream was closed. */
  function Closing(events: seq<ProviderEvent>): Option<Text> {
    if events == [] then None
    else if events[0].Completed? then Some(END_BODY)
    else if events[0].Failed? then Some(ERROR_BODY)
    else Closing(events[1..])
  }

  function ClosingFrame(closing: Option<Text>): Text {
    match closing
    case Some(body) => body + BREAK
    case None => []
  }

  /** What one event writes to an open stream. */
  function WireOf(e: ProviderEvent): Text {
    match e
    case Delta(text) => if text == [] then [] else Frame(text)
    case WholeText(text) => Frame(text)
    case Completed => END_BODY + BREAK
    case Failed => ERROR_BODY + BREAK
  }

  /** The whole text a provider writes for these events. */
  function Wire(events: seq<ProviderEvent>): Text {
    if events == [] then []
    else if IsTerminal(events[0]) then WireOf(events[0])
    else WireOf(events[0]) + Wire(events[1..])
  }

  lemma FrameInTwoWrites(text: Text)
    ensures Frame(text) == Ascii("event: answer\n") + (Ascii("data: ") + Stringify(text) + BREAK)
  {
    hide Stringify;
    assert ANSWER_HEAD == Ascii("event: answer\n") + Ascii("data: ");
    SeqAssoc(Ascii("event: answer\n"), Ascii("data: "), Stringify(text));
    SeqAssoc(Ascii("event: answer\n"), Ascii("data: ") + Stringify(text), BREAK);
  }

  class OpenAiStream {
    var written: Text
    var closed: bool

    constructor ()
      ensures written == [] && !closed
    {
      written, closed := [], false;
    }

    method SafeWrite(chunk: Text)
      modifies this`written
      ensures written == if closed then old(written) else old(written) + chunk
    {
      if !closed {
        written := written + chunk;
      }
    }

    method SafeEnd()
      modifies this`closed
      ensures closed
    {
      closed := true;
    }

    method WriteAnswer(text: Text)
      modifies this`written
      ensures written == if closed then old(written) else old(written) + Frame(text)
    {
      hide Frame, Stringify;
      SafeWrite(Ascii("event: answer\n"));
      SafeWrite(Ascii("data: ") + Stringify(text) + BREAK);
      FrameInTwoWrites(text);
      SeqAssoc(old(written), Ascii("event: answer\n"), Ascii("data: ") + Stringify(text) + BREAK);
    }

    method Handle(e: ProviderEvent)
      modifies this
      ensures old(closed) ==> written == old(written) && closed
      ensures !old(closed) ==> written == old(written) + WireOf(e) && closed == IsTerminal(e)
    {
      match e
      case Delta(text) =>
        if text != [] {
          WriteAnswer(text);
        }
      case WholeText(text) =>
        WriteAnswer(text);
      case Completed =>
        SafeWrite(END_BODY + BREAK);
        SafeEnd();
      case Failed =>
        SafeWrite(ERROR_BODY + BREAK);
        SafeEnd();
    }
  }

  /** However late events straggle in, the stream holds the accepted texts and at most one closing event, last. */
  method HandleAll(events: seq<ProviderEvent>) returns (s: OpenAiStream)
    ensures s.written == Wire(events)
    ensures s.closed <==> Closing(events).Some?
  {
    s := new OpenAiStream();
    assert Wire([]) == [];
    for i := 0 to |events|
      invariant s.written == Wire(events[..i])
      invariant s.closed <==> Closing(events[..i]).Some?
    {
      s.Handle(events[i]);
      assert events[..i + 1] == events[..i] + [events[i]];
      WireAppend(events[..i], events[i]);
    }
    assert events[..|events|] == events;
  }

  lemma {:induction false} WireAppend(events: seq<ProviderEvent>, e: ProviderEvent)
    ensures Closing(events).Some? ==> Closing(events + [e]) == Closing(events) && Wire(events + [e]) == Wire(events)
    ensures Closing(events).None? ==>
              Closing(events + [e]).Some? == IsTerminal(e) && Wire(events + [e]) == Wire(events) + WireOf(e)
  {
    hide WireOf, Accepted;
    if events == [] {
      assert events + [e] == [e] && [e][1..] == [];
      assert Wire([]) + WireOf(e) == WireOf(e) && WireOf(e) + Wire([]) == WireOf(e);
    } else if !IsTerminal(events[0]) {
      var rest := events[1..];
      assert (events + [e])[1..] == rest + [e];
      WireAppend(rest, e);
      SeqAssoc(WireOf(events[0]), Wire(rest), WireOf(e));
    }
  }

  /** The stream is the accepted texts, framed in order, and then the closing event if there was one. */
  lemma {:induction false} WireShape(events: seq<ProviderEvent>)
    ensures Wire(events) == Frames(Accepted(events)) + ClosingFrame(Closing(events))
  {
    hide Frame;
    if events == [] {
    } else if IsTerminal(events[0]) {
      assert Frames([]) + WireOf(events[0]) == WireOf(events[0]);
    } else {
      var rest, e := events[1..], events[0];
      WireShape(rest);
      if e.text == [] && e.Delta? {
        assert WireOf(e) + Wire(rest) == Wire(rest);
      } else {
        assert ([e.text] + Accepted(rest))[1..] == Accepted(rest);
        SeqAssoc(Frame(e.text), Frames(Accepted(rest)), ClosingFrame(Closing(rest)));
      }
    }
  }

  // Gemini: one complete text, sliced

  const CHUNK_UNITS := 400

  function Slices(text: Text): seq<Text>
    decreases |text|
  {
    if |text| == 0 then []
    else if |text| <= CHUNK_UNITS then [text]
    else [text[..CHUNK_UNITS]] + Slices(text[CHUNK_UNITS..])
  }

  /** Every slice has 400 units but the last, which has one at least; together they are the text. */
  lemma {:induction false} SlicesCover(text: Text)
    ensures Concat(Slices(text)) == text
    ensures forall s :: s in Slices(text) ==> 1 <= |s| <= 400
    ensures forall i :: 0 <= i < |Slices(text)| - 1 ==> |Slices(text)[i]| == 400
    decreases |text|
  {
    if |text| == 0 {
    } else if |text| <= CHUNK_UNITS {
      ConcatOne(text);
    } else {
      SlicesCover(text[CHUNK_UNITS..]);
      assert text == text[..CHUNK_UNITS] + text[CHUNK_UNITS..];
    }
  }

  method GeminiStream(finalText: Text) returns (written: Text)
    ensures written == Frames(Slices(finalText)) + (END_BODY + BREAK)
  {
    hide Frame, Slices, Frames;
    NoSlices();
    written := [];
    var i := 0;
    assert finalText[0..] == finalText;
    while i < |finalText|
      invariant 0 <= i
      invariant written + Frames(Slices(finalText[if i < |finalText| then i else |finalText|..]))
             == Frames(Slices(finalText))
    {
      var chunk := finalText[i..if i + CHUNK_UNITS < |finalText| then i + CHUNK_UNITS else |finalText|];
      SliceStep(finalText, i);
      FramesCons(finalText, i, chunk);
      SeqAssoc(written, Frame(chunk), Frames(Slices(finalText[i + |chunk|..])));
      written := written + Frame(chunk);
      i := i + CHUNK_UNITS;
    }
    assert finalText[|finalText|..] == [];
    written := written + (END_BODY + BREAK);
  }

  lemma NoSlices()
    ensures Frames(Slices([])) == []
  {
  }

  lemma SliceStep(text: Text, i: nat)
    requires i < |text|
    ensures var end := if i + CHUNK_UNITS < |text| then i + CHUNK_UNITS else |text|;
            Slices(text[i..]) == [text[i..end]] + Slices(text[end..])
  {
    if |text| - i > CHUNK_UNITS {
      assert text[i..][..CHUNK_UNITS] == text[i..i + CHUNK_UNITS];
      assert text[i..][CHUNK_UNITS..] == text[i + CHUNK_UNITS..];
    } else {
      assert text[i..|text|] == text[i..];
      assert Slices(text[|text|..]) == [];
    }
  }

  lemma FramesCons(text: Text, i: nat, chunk: Text)
    requires i < |text|
    requires chunk == text[i..if i + CHUNK_UNITS < |text| then i + CHUNK_UNITS else |text|]
    ensures var end := if i + CHUNK_UNITS < |text| then i + CHUNK_UNITS else |text|;
            Frames(Slices(text[i..])) == Frame(chunk) + Frames(Slices(text[end..]))
  {
    SliceStep(text, i);
  }

  // End to end

  lemma EndBody()
    ensures IsBlock(END_BODY) && !IsAnswer(END_BODY)
  {
    var first, second := Ascii("event: end"), Ascii("data: [DONE]");
    assert END_BODY == first + [LF] + second;
    OtherEvent(END_BODY, first, second);
  }

  /** What an event line must be for its block to hold no answer. */
  predicate NamesOther(line: Text) {
    && |line| > 7 && LF !in line && line[..6] == EVENT && line[6] == 0x20
    && IsTrimmed(line[7..]) && line[7] != ANSWER[0]
  }

  predicate IsDataLine(line: Text) {
    |line| > 5 && LF !in line && line[..5] == DATA
  }

  lemma ErrorLine()
    ensures NamesOther(Ascii("event: error"))
  {
  }

  lemma ErrorData()
    ensures IsDataLine(Ascii("data: ") + (Ascii("{\"message\":") + Ascii("\"Internal server error\"}")))
  {
    var head, a, b := Ascii("data: "), Ascii("{\"message\":"), Ascii("\"Internal server error\"}");
    assert LF !in head && LF !in a;
    assert LF !in b;
    assert (head + (a + b))[..5] == head[..5] == DATA;
  }

  lemma ErrorHead()
    ensures Ascii("event: error\ndata: ") == Ascii("event: error") + [LF] + Ascii("data: ")
  {
  }

  lemma ErrorBody()
    ensures IsBlock(ERROR_BODY) && !IsAnswer(ERROR_BODY)
  {
    hide IsBlock, IsAnswer, Ascii, NamesOther, IsDataLine;
    var first, payload := Ascii("event: error"), Ascii("{\"message\":") + Ascii("\"Internal server error\"}");
    ErrorLine();
    ErrorData();
    ErrorHead();
    SeqAssoc(first + [LF], Ascii("data: "), payload);
    SeqAssoc(Ascii("event: error\ndata: "), Ascii("{\"message\":"), Ascii("\"Internal server error\"}"));
    OtherEvent(ERROR_BODY, first, Ascii("data: ") + payload);
  }

  /** A two-line event under another name holds no answer. */
  lemma OtherEvent(body: Text, first: Text, second: Text)
    requires body == first + [LF] + second && NamesOther(first) && IsDataLine(second)
    ensures IsBlock(body) && !IsAnswer(body)
  {
    TwoLines(first, second);
    TwoLineEvent(first, second);
    assert first[6..] == [0x20] + first[7..];
    TrimmedValue(first[6..], first[7..]);
    assert first[7..][0] == first[7];
  }

  function FrameBodies(texts: seq<Text>): seq<Text> {
    if texts == [] then [] else [FrameBody(texts[0])] + FrameBodies(texts[1..])
  }

  lemma FrameThen(text: Text, more: Text)
    ensures Blocks(Frame(text) + more) == [FrameBody(text)] + Blocks(more)
  {
    FrameLines(text);
    BlockThenBreak(FrameBody(text), more);
  }

  lemma {:induction false} FramesBlocks(texts: seq<Text>, rest: Text)
    ensures Blocks(Frames(texts) + rest) == FrameBodies(texts) + Blocks(rest)
  {
    if texts == [] {
      assert Frames(texts) + rest == rest;
      assert FrameBodies(texts) + Blocks(rest) == Blocks(rest);
    } else {
      var tail := Frames(texts[1..]);
      SeqAssoc(Frame(texts[0]), tail, rest);
      FramesBlocks(texts[1..], rest);
      FrameThen(texts[0], tail + rest);
      SeqAssoc([FrameBody(texts[0])], FrameBodies(texts[1..]), Blocks(rest));
    }
  }

  lemma {:induction false} CountedFrames(texts: seq<Text>, other: Reader)
    ensures CountedInAll(FrameBodies(texts), other) == texts
    ensures forall b :: b in FrameBodies(texts) ==> IsBlock(b) && CountedIn(b, other) == ExtractedFrom(b, other)
  {
    hide FrameBody, CountedIn, ExtractedFrom, IsBlock;
    if texts != [] {
      var b := FrameBody(texts[0]);
      FrameLines(texts[0]);
      FrameRoundTrip(texts[0], other);
      CountedFrames(texts[1..], other);
      CountedInAllAppend([b], FrameBodies(texts[1..]), other);
      assert Init([b]) == [];
      assert texts == [texts[0]] + texts[1..];
    }
  }

  /**
   * The channel is faithful: for any provider events and any cut of the provider's text into chunks,
   * the relay counts, and the collector behind it stores, exactly the accepted texts in order.
   */
  lemma EndToEnd(events: seq<ProviderEvent>, chunks: seq<Text>, other: Reader)
    requires Concat(chunks) == Wire(events)
    ensures Counted(Concat(chunks), other) == Concat(Accepted(events))
    ensures Collected(Delivered(Concat(chunks)), other) == Concat(Accepted(events))
  {
    WireShape(events);
    ClosingKinds(events);
    FramesThenClosing(Accepted(events), Closing(events), other);
  }

  /** And so it does when the relay's writes reach the collector several at a time. */
  lemma CoalescedEndToEnd(events: seq<ProviderEvent>, groups: seq<seq<Text>>, other: Reader)
    requires Concat(groups) == Delivered(Wire(events))
    ensures Collected(Joined(groups), other) == Concat(Accepted(events))
  {
    hide Delivered, Wire, Joined;
    EndToEnd(events, [Wire(events)], other) by {
      ConcatOne(Wire(events));
    }
    ConcatOne(Wire(events));
    CoalescingIsFree(Wire(events), groups, other);
  }

  lemma {:induction false} ClosingKinds(events: seq<ProviderEvent>)
    ensures KnownClosing(Closing(events))
  {
    if events != [] {
      ClosingKinds(events[1..]);
    }
  }

  function ClosingBodies(closing: Option<Text>): seq<Text> {
    if closing.Some? then [closing.value] else []
  }

  predicate KnownClosing(closing: Option<Text>) {
    closing.None? || closing.value == END_BODY || closing.value == ERROR_BODY
  }

  lemma ChannelBlocks(texts: seq<Text>, closing: Option<Text>)
    requires KnownClosing(closing)
    ensures Blocks(Frames(texts) + ClosingFrame(closing)) == FrameBodies(texts) + ClosingBodies(closing) + [[]]
  {
    EndBody();
    ErrorBody();
    FramesBlocks(texts, ClosingFrame(closing));
    ClosingBlocks(closing);
    SeqAssoc(FrameBodies(texts), ClosingBodies(closing), [[]]);
  }

  lemma ChannelAnswers(texts: seq<Text>, closing: Option<Text>, other: Reader)
    requires KnownClosing(closing)
    ensures var done := FrameBodies(texts) + ClosingBodies(closing);
            && CountedInAll(done, other) == texts
            && forall b :: b in done ==> IsBlock(b) && CountedIn(b, other) == ExtractedFrom(b, other)
  {
    EndBody();
    ErrorBody();
    CountedFrames(texts, other);
    CountedInAllAppend(FrameBodies(texts), ClosingBodies(closing), other);
    if closing.Some? {
      assert Init([closing.value]) == [] && Last([closing.value]) == closing.value;
    }
    assert CountedInAll(ClosingBodies(closing), other) == [];
  }

  lemma FramesThenClosing(texts: seq<Text>, closing: Option<Text>, other: Reader)
    requires KnownClosing(closing)
    ensures var w := Frames(texts) + ClosingFrame(closing);
            Counted(w, other) == Concat(texts) && Collected(Delivered(w), other) == Concat(texts)
  {
    hide Blocks, Frames, FrameBodies, CountedIn, ExtractedFrom, IsBlock;
    var done := FrameBodies(texts) + ClosingBodies(closing);
    ChannelBlocks(texts, closing);
    ChannelAnswers(texts, closing, other);
    assert Init(done + [[]]) == done && Last(done + [[]]) == [];
    assert WithBreaks(done) + [] == WithBreaks(done);
    SameAnswers(done, other);
  }

  lemma ClosingBlocks(closing: Option<Text>)
    requires closing.Some? ==> IsBlock(closing.value)
    ensures Blocks(ClosingFrame(closing)) == ClosingBodies(closing) + [[]]
  {
    SplitWithoutBreak();
    if closing.Some? {
      BlockThenBreak(closing.value, []);
      assert closing.value + BREAK + [] == closing.value + BREAK;
    }
  }

  lemma {:induction false} SameAnswers(blocks: seq<Text>, other: Reader)
    requires forall b :: b in blocks ==> IsBlock(b) && CountedIn(b, other) == ExtractedFrom(b, other)
    ensures Collected(WithBreaks(blocks), other) == Concat(CountedInAll(blocks, other))
  {
    if blocks != [] {
      var b := Last(blocks);
      SameAnswers(Init(blocks), other);
      ExtractBlock(b, other);
      assert Init(WithBreaks(blocks)) == WithBreaks(Init(blocks)) && Last(WithBreaks(blocks)) == b + BREAK;
      ConcatAppend(CountedInAll(Init(blocks), other), CountedIn(b, other));
    }
  }

  /** Runs the whole channel for OpenAI; `chunks` is any cut of what the provider writes. */
  method RunChannel(events: seq<ProviderEvent>, chunks: seq<Text>, other: Reader) returns (answer: Text, counted: Text)
    requires Concat(chunks) == Wire(events)
    ensures answer == counted == Concat(Accepted(events))
  {
    var outer, outputText := RelayStream(chunks, other);
    answer := CollectAnswer(outer, other);
    counted := outputText;
    EndToEnd(events, chunks, other);
  }

  /** Gemini's whole answer is collected unit for unit, even where a slice ends inside a surrogate pair. */
  lemma GeminiEndToEnd(finalText: Text, chunks: seq<Text>, other: Reader)
    requires Concat(chunks) == Frames(Slices(finalText)) + (END_BODY + BREAK)
    ensures Counted(Concat(chunks), other) == finalText
    ensures Collected(Delivered(Concat(chunks)), other) == finalText
  {
    FramesThenClosing(Slices(finalText), Some(END_BODY), other);
    SlicesCover(finalText);
  }

  lemma {:induction false} FramesWellFormed(texts: seq<Text>)
    ensures IsWellFormed(Frames(texts))
  {
    if texts != [] {
      FramesWellFormed(texts[1..]);
      PrintedWellFormed(texts[0]);
      PlainPrefixWellFormed(ANSWER_HEAD, Stringify(texts[0]));
      PlainPrefixWellFormed(BREAK, []);
      assert BREAK + [] == BREAK;
      WellFormedAppend(FrameBody(texts[0]), BREAK);
      WellFormedAppend(Frame(texts[0]), Frames(texts[1..]));
    }
  }

  lemma ClosingWellFormed(closing: Option<Text>)
    requires KnownClosing(closing)
    ensures IsWellFormed(ClosingFrame(closing))
  {
    if closing.Some? {
      PlainPrefixWellFormed(ClosingFrame(closing), []);
      assert ClosingFrame(closing) + [] == ClosingFrame(closing);
    }
  }

  /** All a provider writes has a UTF-8 form, so no byte-level decoding on the way can damage it. */
  lemma WireWellFormed(events: seq<ProviderEvent>, finalText: Text)
    ensures IsWellFormed(Wire(events))
    ensures IsWellFormed(Frames(Slices(finalText)) + (END_BODY + BREAK))
  {
    hide Frames, ClosingFrame, IsWellFormed;
    WireShape(events);
    ClosingKinds(events);
    FramesWellFormed(Accepted(events));
    ClosingWellFormed(Closing(events));
    WellFormedAppend(Frames(Accepted(events)), ClosingFrame(Closing(events)));
    FramesWellFormed(Slices(finalText));
    ClosingWellFormed(Some(END_BODY));
    assert ClosingFrame(Some(END_BODY)) == END_BODY + BREAK by {
      ClosingOf(END_BODY);
    }
    WellFormedAppend(Frames(Slices(finalText)), END_BODY + BREAK);
  }

  lemma ClosingOf(body: Text)
    ensures ClosingFrame(Some(body)) == body + BREAK
  {
  }

  // Which texts are accepted, and how they are written

  function TextsOf(events: seq<ProviderEvent>): seq<Text>
    requires forall e :: e in events ==> e.Delta? || e.WholeText?
  {
    if events == [] then [] else [events[0].text] + TextsOf(events[1..])
  }

  /** The accepted texts are all those reported before the first closing event. */
  lemma {:induction false} AcceptedAre(before: seq<ProviderEvent>, rest: seq<ProviderEvent>)
    requires forall e :: e in before ==> e.Delta? || e.WholeText?
    requires rest == [] || rest[0].Completed? || rest[0].Failed?
    ensures Concat(Accepted(before + rest)) == Concat(TextsOf(before))
    ensures Closing(before + rest) ==
              if rest == [] then None else Some(if rest[0].Completed? then END_BODY else ERROR_BODY)
  {
    if before == [] {
      assert before + rest == rest;
    } else {
      var e, later := before[0], before[1..];
      assert e in before && forall x :: x in later ==> x in before;
      assert before + rest == [e] + (later + rest);
      hide Accepted, Closing;
      AcceptedAre(later, rest);
      AcceptedCons(e, later + rest);
    }
  }

  lemma AcceptedCons(e: ProviderEvent, later: seq<ProviderEvent>)
    requires e.Delta? || e.WholeText?
    ensures Concat(Accepted([e] + later)) == e.text + Concat(Accepted(later))
    ensures Closing([e] + later) == Closing(later)
  {
    var all := [e] + later;
    assert all[1..] == later;
    hide END_BODY, ERROR_BODY;
    if e.text == [] {
      assert [] + Concat(Accepted(later)) == Concat(Accepted(later));
    }
  }

  /** An answer without special units is written as it stands, between quotes, under its event name. */
  lemma PlainFrame(text: Text)
    requires forall c :: c in text ==> c >= 0x20 && c != QUOTE && c != BACKSLASH && !IsHigh(c) && !IsLow(c)
    ensures Frame(text) == Ascii("event: answer\ndata: ") + ([0x22] + text + [0x22]) + [0x0A, 0x0A]
  {
    PlainPrints(text);
  }
}
