/**
 * The event-stream text of the answer channel (a subset of section 9.2 of the WHATWG HTML standard),
 * and the two decoders the service holds: the one that counts output while relaying a model's
 * stream (src/llm/index.ts) and the one that collects the answer to store (src/utils/sse.ts).
 */
module SseFormat {
  import opened Options
  import opened Sequences
  import opened Utf16
  import opened JsonString

  const BREAK: Text := [LF, LF]

  const EVENT: Text := Ascii("event:")
  const DATA: Text := Ascii("data:")
  const ANSWER: Text := Ascii("answer")

  const ANSWER_HEAD: Text := Ascii("event: answer\ndata: ")
  const END_BODY: Text := Ascii("event: end\ndata: [DONE]")
  const ERROR_BODY: Text := Ascii("event: error\ndata: ") + Ascii("{\"message\":") + Ascii("\"Internal server error\"}")

  /** `JSON.parse` then `JSON.stringify` on a payload that is not a string literal, or the payload itself. */
  type Reader = Text -> Text

  function Blocks(s: Text): (r: seq<Text>)
    ensures r != []
  {
    Split(s, BREAK)
  }

  function Lines(block: Text): (r: seq<Text>)
    ensures r != []
  {
    Split(block, [LF])
  }

  predicate StartsWith(s: Text, prefix: Text) {
    |prefix| <= |s| && s[..|prefix|] == prefix
  }

  /** The trimmed value of the last `event:` line. */
  function EventName(lines: seq<Text>): Option<Text> {
    if lines == [] then None
    else if StartsWith(Last(lines), EVENT) then Some(Trim(Last(lines)[6..]))
    else EventName(Init(lines))
  }

  /** The untrimmed values of the `data:` lines, in order. */
  function DataValues(lines: seq<Text>): seq<Text> {
    if lines == [] then []
    else if StartsWith(Last(lines), DATA) then DataValues(Init(lines)) + [Last(lines)[5..]]
    else DataValues(Init(lines))
  }

  predicate IsAnswer(block: Text) {
    EventName(Lines(block)) == Some(ANSWER)
  }

  /** The text a payload stands for. */
  function Payload(raw: Text, other: Reader): Text {
    match ParseString(raw)
    case Some(s) => s
    case None => other(raw)
  }

  /** What the relay counts for one block: only the last data line is read. */
  function CountedIn(block: Text, other: Reader): seq<Text> {
    var data := DataValues(Lines(block));
    if IsAnswer(block) && data != [] && Trim(Last(data)) != [] then [Payload(Trim(Last(data)), other)] else []
  }

  /** What the collector extracts from one block: all data lines, joined. */
  function ExtractedFrom(block: Text, other: Reader): seq<Text> {
    var data := DataValues(Lines(block));
    if Trim(block) != [] && IsAnswer(block) && data != [] && Trim(Join(data, [LF])) != []
    then [Payload(Trim(Join(data, [LF])), other)] else []
  }

  function CountedInAll(blocks: seq<Text>, other: Reader): seq<Text> {
    if blocks == [] then [] else CountedInAll(Init(blocks), other) + CountedIn(Last(blocks), other)
  }

  function ExtractedFromAll(blocks: seq<Text>, other: Reader): seq<Text> {
    if blocks == [] then [] else ExtractedFromAll(Init(blocks), other) + ExtractedFrom(Last(blocks), other)
  }

  /** The answers in one delivery, as `extractAnswerText` returns them. */
  function Extract(chunk: Text, other: Reader): seq<Text> {
    if chunk == [] then [] else ExtractedFromAll(Blocks(chunk), other)
  }

  method ExtractAnswerText(sseChunk: Text, other: Reader) returns (results: seq<Text>)
    ensures results == Extract(sseChunk, other)
  {
    hide Lines, EventName, DataValues, Trim, Join, Blocks, StartsWith, Payload;
    if sseChunk == [] {
      return [];
    }
    var blocks := Blocks(sseChunk);
    results := [];
    for b := 0 to |blocks|
      invariant results == ExtractedFromAll(blocks[..b], other)
    {
      assert Init(blocks[..b + 1]) == blocks[..b] && Last(blocks[..b + 1]) == blocks[b];
      var block := blocks[b];
      if Trim(block) == [] {
        continue;
      }
      var lines := Lines(block);
      var eventName: Option<Text> := None;
      var dataLines: seq<Text> := [];
      NoLines();
      for l := 0 to |lines|
        invariant eventName == EventName(lines[..l])
        invariant dataLines == DataValues(lines[..l])
      {
        LinesStep(lines, l);
        EventIsNotData(lines[l]);
        if StartsWith(lines[l], EVENT) {
          eventName := Some(Trim(lines[l][6..]));
        } else if StartsWith(lines[l], DATA) {
          dataLines := dataLines + [lines[l][5..]];
        }
      }
      assert lines[..|lines|] == lines;
      if eventName == Some(ANSWER) && |dataLines| > 0 {
        var raw := Trim(Join(dataLines, [LF]));
        if raw == [] {
          continue;
        }
        results := results + [Payload(raw, other)];
      }
    }
    assert blocks[..|blocks|] == blocks;
  }

  lemma NoLines()
    ensures EventName([]) == None && DataValues([]) == []
  {
  }

  lemma LinesStep(lines: seq<Text>, l: nat)
    requires l < |lines|
    ensures StartsWith(lines[l], EVENT) ==> |lines[l]| >= 6 && EventName(lines[..l + 1]) == Some(Trim(lines[l][6..]))
    ensures !StartsWith(lines[l], EVENT) ==> EventName(lines[..l + 1]) == EventName(lines[..l])
    ensures StartsWith(lines[l], DATA) ==>
              |lines[l]| >= 5 && DataValues(lines[..l + 1]) == DataValues(lines[..l]) + [lines[l][5..]]
    ensures !StartsWith(lines[l], DATA) ==> DataValues(lines[..l + 1]) == DataValues(lines[..l])
  {
    hide Trim;
    assert Init(lines[..l + 1]) == lines[..l] && Last(lines[..l + 1]) == lines[l];
  }

  lemma EventIsNotData(line: Text)
    ensures !(StartsWith(line, EVENT) && StartsWith(line, DATA))
  {
    assert StartsWith(line, EVENT) ==> line[0] == EVENT[0];
    assert StartsWith(line, DATA) ==> line[0] == DATA[0];
  }

  // Blocks

  /** A text that `split` on a blank line leaves whole when a blank line follows it. */
  predicate IsBlock(b: Text) {
    Find(b, BREAK) == |b| && (b == [] || Last(b) != LF)
  }

  lemma BreakUnits(s: Text, k: int)
    ensures OccursAt(s, BREAK, k) <==> 0 <= k && k + 2 <= |s| && s[k] == LF && s[k + 1] == LF
  {
    if 0 <= k && k + 2 <= |s| {
      assert s[k..k + 2] == [s[k], s[k + 1]];
    }
  }

  lemma NoBreak(s: Text)
    requires forall k :: 0 <= k && k + 2 <= |s| ==> s[k] != LF || s[k + 1] != LF
    ensures Find(s, BREAK) == |s|
  {
    BreakUnits(s, Find(s, BREAK));
  }

  lemma FindAtBreak(b: Text, rest: Text)
    requires IsBlock(b)
    ensures Find(b + BREAK + rest, BREAK) == |b|
  {
    var s := b + BREAK + rest;
    var k := Find(s, BREAK);
    BreakUnits(s, |b|);
    BreakUnits(s, k);
    BreakUnits(b, k);
  }

  lemma BlockThenBreak(b: Text, rest: Text)
    requires IsBlock(b)
    ensures Blocks(b + BREAK + rest) == [b] + Blocks(rest)
  {
    var s := b + BREAK + rest;
    FindAtBreak(b, rest);
    SplitFound(s, BREAK);
    assert s[..|b|] == b;
    assert s[|b| + 2..] == rest;
  }

  /** Every part that `split` completed is a block; the last part may not be one yet, but holds no break. */
  lemma {:induction false} PartsAreBlocks(s: Text)
    ensures forall b :: b in Init(Blocks(s)) ==> IsBlock(b)
    ensures Find(Last(Blocks(s)), BREAK) == |Last(Blocks(s))|
    decreases |s|
  {
    var i := Find(s, BREAK);
    if i == |s| {
      assert Blocks(s) == [s];
      assert Init([s]) == [];
    } else {
      SplitFound(s, BREAK);
      var tail := Blocks(s[i + 2..]);
      PartsAreBlocks(s[i + 2..]);
      PrefixIsBlock(s, i);
      assert Init([s[..i]] + tail) == [s[..i]] + Init(tail);
      assert Last([s[..i]] + tail) == Last(tail);
    }
  }

  lemma PrefixIsBlock(s: Text, i: nat)
    requires i < |s| && i == Find(s, BREAK)
    ensures IsBlock(s[..i])
  {
    var b := s[..i];
    BreakUnits(s, i);
    BreakUnits(s, i - 1);
    forall k | 0 <= k && k + 2 <= |b| ensures b[k] != LF || b[k + 1] != LF {
      BreakUnits(s, k);
    }
    NoBreak(b);
  }

  // Frames

  /** One answer event, as every provider writes it. */
  function FrameBody(text: Text): Text {
    ANSWER_HEAD + Stringify(text)
  }

  function Frame(text: Text): Text {
    FrameBody(text) + BREAK
  }

  function Frames(texts: seq<Text>): Text {
    if texts == [] then [] else Frame(texts[0]) + Frames(texts[1..])
  }

  lemma UnitsOf(s: Text, c: Unit)
    ensures forall k :: OccursAt(s, [c], k) <==> 0 <= k < |s| && s[k] == c
  {
    forall k | 0 <= k < |s| ensures s[k..k + 1] == [s[k]] {}
  }

  lemma SplitWithout(s: Text, c: Unit)
    requires c !in s
    ensures Split(s, [c]) == [s]
  {
    UnitsOf(s, c);
  }

  lemma FirstLine(first: Text, rest: Text)
    requires LF !in first
    ensures Lines(first + [LF] + rest) == [first] + Lines(rest)
  {
    var s := first + [LF] + rest;
    UnitsOf(s, LF);
    assert OccursAt(s, [LF], |first|);
    assert Find(s, [LF]) == |first|;
    SplitFound(s, [LF]);
    assert s[..|first|] == first;
    assert s[|first| + 1..] == rest;
  }

  /** A text of exactly two lines, neither empty. */
  lemma TwoLines(first: Text, second: Text)
    requires first != [] && LF !in first && second != [] && LF !in second
    ensures Lines(first + [LF] + second) == [first, second]
    ensures IsBlock(first + [LF] + second)
  {
    FirstLine(first, second);
    SplitWithout(second, LF);
    NoBreak(first + [LF] + second);
  }

  lemma FrameLines(text: Text)
    ensures Lines(FrameBody(text)) == [Ascii("event: answer"), Ascii("data: ") + Stringify(text)]
    ensures IsBlock(FrameBody(text))
  {
    EscapedHasNoControl(text);
    var head, data := Ascii("event: answer"), Ascii("data: ") + Stringify(text);
    assert ANSWER_HEAD == head + [LF] + Ascii("data: ");
    assert FrameBody(text) == head + [LF] + data;
    TwoLines(head, data);
  }

  lemma TrimmedValue(padded: Text, value: Text)
    requires padded == [0x20] + value && value != [] && IsTrimmed(value)
    ensures Trim(padded) == value
  {
    assert padded[1..] == value;
    TrimNormal(value);
  }

  lemma TwoLineEvent(first: Text, second: Text)
    requires StartsWith(first, EVENT) && StartsWith(second, DATA)
    ensures EventName([first, second]) == Some(Trim(first[6..]))
    ensures DataValues([first, second]) == [second[5..]]
  {
    assert Init([first, second]) == [first] && Init([first]) == [];
    assert Last([first, second]) == second && Last([first]) == first;
    EventIsNotData(first);
    EventIsNotData(second);
    assert DataValues([first]) == DataValues([]);
  }

  /** Both decoders read back exactly the text a frame was printed from. */
  lemma FrameRoundTrip(text: Text, other: Reader)
    ensures CountedIn(FrameBody(text), other) == [text]
    ensures ExtractedFrom(FrameBody(text), other) == [text]
  {
    hide FrameBody, Lines, EscapeAll, IsTrimmed;
    var head, data := Ascii("event: answer"), Ascii("data: ") + Stringify(text);
    FrameLines(text);
    StringifyTrimmed(text);
    AnswerTrimmed();
    FrameNotBlank(text);
    assert head[..6] == EVENT && data[..5] == DATA;
    TwoLineEvent(head, data);
    TrimmedValue(head[6..], ANSWER) by { assert head[6..] == [0x20] + ANSWER; }
    TrimmedValue(data[5..], Stringify(text)) by { assert data[5..] == [0x20] + Stringify(text); }
    assert DataValues(Lines(FrameBody(text))) == [data[5..]];
    assert Join([data[5..]], [LF]) == data[5..];
    StringRoundTrip(text);
  }

  lemma AnswerTrimmed()
    ensures IsTrimmed(ANSWER)
  {
  }

  lemma StringifyTrimmed(text: Text)
    ensures IsTrimmed(Stringify(text))
  {
  }

  lemma FrameNotBlank(text: Text)
    ensures Trim(FrameBody(text)) != []
  {
    NotBlank(FrameBody(text), 0);
  }

  lemma {:induction false} NotBlank(s: Text, i: nat)
    requires i < |s| && !IsSpace(s[i])
    ensures Trim(s) != []
  {
    if i == 0 {
      TrimEndKeepsFirst(s);
    } else if IsSpace(s[0]) {
      NotBlank(s[1..], i - 1);
    } else {
      TrimEndKeepsFirst(s);
    }
  }

  // Which lines count

  /** Line `i` is the last that names an event. */
  ghost predicate IsLastEvent(lines: seq<Text>, i: nat) {
    && i < |lines| && StartsWith(lines[i], EVENT)
    && forall j :: i < j < |lines| ==> !StartsWith(lines[j], EVENT)
  }

  /** The last event line gives the name, trimmed. */
  lemma {:induction false} EventNameIs(lines: seq<Text>, i: nat)
    requires IsLastEvent(lines, i)
    ensures EventName(lines) == Some(Trim(lines[i][6..]))
  {
    hide StartsWith, Trim;
    if i < |lines| - 1 {
      EventNameIs(Init(lines), i);
    }
  }

  /** Without an event line there is no name, and nothing is answered. */
  lemma {:induction false} NoEventName(lines: seq<Text>)
    requires forall j :: 0 <= j < |lines| ==> !StartsWith(lines[j], EVENT)
    ensures EventName(lines) == None
  {
    hide StartsWith, Trim;
    if lines != [] {
      NoEventName(Init(lines));
    }
  }

  /** A block answers only if its last event line says so; the last data line counts, if it is not blank. */
  lemma CountedExactly(block: Text, other: Reader, i: nat)
    requires IsLastEvent(Lines(block), i)
    ensures Trim(Lines(block)[i][6..]) != Ascii("answer") ==>
              CountedIn(block, other) == [] == ExtractedFrom(block, other)
    ensures Trim(Lines(block)[i][6..]) == Ascii("answer") && DataValues(Lines(block)) != [] ==>
              var raw := Trim(Last(DataValues(Lines(block))));
              CountedIn(block, other) == if raw == [] then [] else [Payload(raw, other)]
  {
    hide Lines, Trim, DataValues, StartsWith, Payload, IsLastEvent;
    EventNameIs(Lines(block), i);
  }

  /** A payload that is a string literal stands for its value, any other for what `other` makes of it. */
  lemma PayloadIs(raw: Text, other: Reader)
    ensures ParseString(raw).Some? ==> Payload(raw, other) == ParseString(raw).value
    ensures ParseString(raw).None? ==> Payload(raw, other) == other(raw)
  {
  }
}
