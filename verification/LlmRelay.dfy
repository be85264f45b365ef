/**
 * The relay around a provider's stream (src/llm/index.ts): incoming text is re-cut at blank lines,
 * complete blocks go out at once, and the answer they carry is accumulated on the way.
 */
module LlmRelay {
  import opened Options
  import opened Sequences
  import opened Utf16
  import opened JsonString
  import opened SseFormat

  function WithBreaks(blocks: seq<Text>): seq<Text> {
    if blocks == [] then [] else WithBreaks(Init(blocks)) + [Last(blocks) + BREAK]
  }

  /** The answer text a relay has counted once it has received `w`. */
  function Counted(w: Text, other: Reader): Text {
    Concat(CountedInAll(Init(Blocks(w)), other))
  }

  /** Everything a relay writes for a stream whose whole text is `w`. */
  function Delivered(w: Text): seq<Text> {
    WithBreaks(Init(Blocks(w))) + if Last(Blocks(w)) == [] then [] else [Last(Blocks(w))]
  }

  /** What the collector on the far side has stored after these deliveries. */
  function Collected(deliveries: seq<Text>, other: Reader): Text {
    if deliveries == [] then [] else Collected(Init(deliveries), other) + Concat(Extract(Last(deliveries), other))
  }

  lemma {:induction false} WithBreaksAppend(a: seq<Text>, b: seq<Text>)
    ensures WithBreaks(a + b) == WithBreaks(a) + WithBreaks(b)
  {
    if b == [] {
      assert a + b == a;
    } else {
      assert Init(a + b) == a + Init(b) && Last(a + b) == Last(b);
      WithBreaksAppend(a, Init(b));
      SeqAssoc(WithBreaks(a), WithBreaks(Init(b)), [Last(b) + BREAK]);
    }
  }

  lemma {:induction false} CountedInAllAppend(a: seq<Text>, b: seq<Text>, other: Reader)
    ensures CountedInAll(a + b, other) == CountedInAll(a, other) + CountedInAll(b, other)
  {
    hide CountedIn;
    if b == [] {
      assert a + b == a;
    } else {
      assert Init(a + b) == a + Init(b) && Last(a + b) == Last(b);
      CountedInAllAppend(a, Init(b), other);
      SeqAssoc(CountedInAll(a, other), CountedInAll(Init(b), other), CountedIn(Last(b), other));
    }
  }

  lemma BlockStep(blocks: seq<Text>, b: nat, other: Reader)
    requires b < |blocks|
    ensures WithBreaks(blocks[..b + 1]) == WithBreaks(blocks[..b]) + [blocks[b] + BREAK]
    ensures Concat(CountedInAll(blocks[..b + 1], other))
         == Concat(CountedInAll(blocks[..b], other)) + Concat(CountedIn(blocks[b], other))
  {
    assert Init(blocks[..b + 1]) == blocks[..b] && Last(blocks[..b + 1]) == blocks[b];
    ConcatAppend(CountedInAll(blocks[..b], other), CountedIn(blocks[b], other));
  }

  lemma {:induction false} CollectedAppend(a: seq<Text>, b: seq<Text>, other: Reader)
    ensures Collected(a + b, other) == Collected(a, other) + Collected(b, other)
  {
    hide Extract;
    if b == [] {
      assert a + b == a;
    } else {
      assert Init(a + b) == a + Init(b) && Last(a + b) == Last(b);
      CollectedAppend(a, Init(b), other);
      SeqAssoc(Collected(a, other), Collected(Init(b), other), Concat(Extract(Last(b), other)));
    }
  }

  /** What a relay has done with a text, from what it has done with the beginning and its carry. */
  lemma ReceivedMore(w: Text, str: Text, other: Reader)
    ensures var more := Last(Blocks(w)) + str;
            && Last(Blocks(w + str)) == Last(Blocks(more))
            && WithBreaks(Init(Blocks(w + str))) == WithBreaks(Init(Blocks(w))) + WithBreaks(Init(Blocks(more)))
            && Counted(w + str, other) == Counted(w, other) + Counted(more, other)
  {
    SplitAppend(w, str, BREAK);
    var done, more := Init(Blocks(w)), Blocks(Last(Blocks(w)) + str);
    assert Blocks(w + str) == done + more;
    hide Blocks, WithBreaks, CountedInAll;
    assert Init(done + more) == done + Init(more) && Last(done + more) == Last(more);
    WithBreaksAppend(done, Init(more));
    CountedInAllAppend(done, Init(more), other);
    ConcatAppend(CountedInAll(done, other), CountedInAll(Init(more), other));
  }

  class Relay {
    const other: Reader
    var buffer: Text
    var outputText: Text
    var outer: seq<Text>
    ghost var received: Text

    /** The whole state is a function of the text received so far, not of how it was cut into chunks. */
    ghost predicate Valid()
      reads this
    {
      && buffer == Last(Blocks(received))
      && outer == WithBreaks(Init(Blocks(received)))
      && outputText == Counted(received, other)
    }

    constructor (other: Reader)
      ensures Valid() && received == [] && this.other == other
    {
      this.other := other;
      buffer, outputText, outer, received := [], [], [], [];
      new;
      assert Blocks([]) == [[]] && Init(Blocks([])) == [];
    }

    method FlushBuffer()
      modifies this
      ensures buffer == Last(Blocks(old(buffer)))
      ensures outer == old(outer) + WithBreaks(Init(Blocks(old(buffer))))
      ensures outputText == old(outputText) + Counted(old(buffer), other)
      ensures received == old(received)
    {
      var chunks := Blocks(buffer);
      buffer := Last(chunks);
      EmitBlocks(Init(chunks));
    }

    method EmitBlocks(chunks: seq<Text>)
      modifies this`outer, this`outputText
      ensures outer == old(outer) + WithBreaks(chunks)
      ensures outputText == old(outputText) + Concat(CountedInAll(chunks, other))
    {
      hide CountedIn;
      for b := 0 to |chunks|
        invariant outer == old(outer) + WithBreaks(chunks[..b])
        invariant outputText == old(outputText) + Concat(CountedInAll(chunks[..b], other))
      {
        var answer := ReadBlock(chunks[b]);
        outputText := outputText + answer;
        outer := outer + [chunks[b] + BREAK];
        BlockStep(chunks, b, other);
        SeqAssoc(old(outputText), Concat(CountedInAll(chunks[..b], other)), answer);
        SeqAssoc(old(outer), WithBreaks(chunks[..b]), [chunks[b] + BREAK]);
      }
      assert chunks[..|chunks|] == chunks;
    }

    method ReadBlock(block: Text) returns (answer: Text)
      ensures answer == Concat(CountedIn(block, other))
    {
      var lines := Lines(block);
      var evt: Option<Text> := None;
      var dataLine: Option<Text> := None;
      for l := 0 to |lines|
        invariant evt == EventName(lines[..l])
        invariant dataLine == if DataValues(lines[..l]) == [] then None else Some(Trim(Last(DataValues(lines[..l]))))
      {
        assert Init(lines[..l + 1]) == lines[..l] && Last(lines[..l + 1]) == lines[l];
        EventIsNotData(lines[l]);
        if StartsWith(lines[l], EVENT) {
          evt := Some(Trim(lines[l][6..]));
        }
        if StartsWith(lines[l], DATA) {
          dataLine := Some(Trim(lines[l][5..]));
        }
      }
      assert lines[..|lines|] == lines;
      answer := [];
      if evt == Some(ANSWER) && dataLine.Some? && dataLine.value != [] {
        answer := Payload(dataLine.value, other);
        ConcatOne(answer);
      }
    }

    method OnData(str: Text)
      requires Valid()
      modifies this
      ensures Valid()
      ensures received == old(received) + str
    {
      hide Blocks, WithBreaks, Counted;
      ghost var w := received;
      ReceivedMore(w, str, other);
      buffer := buffer + str;
      FlushBuffer();
      received := w + str;
    }

    method OnEnd()
      requires Valid()
      modifies this
      ensures outer == Delivered(old(received)) && buffer == []
      ensures outputText == Counted(old(received), other)
    {
      if |buffer| > 0 {
        outer := outer + [buffer];
        buffer := [];
      }
    }
  }

  /** A whole run: however the provider's text is cut, the relay's writes and count are the same. */
  method RelayStream(chunks: seq<Text>, other: Reader) returns (outer: seq<Text>, outputText: Text)
    ensures outer == Delivered(Concat(chunks))
    ensures outputText == Counted(Concat(chunks), other)
  {
    var relay := new Relay(other);
    for i := 0 to |chunks|
      invariant relay.Valid() && relay.received == Concat(chunks[..i]) && relay.other == other
    {
      relay.OnData(chunks[i]);
      assert chunks[..i + 1] == chunks[..i] + [chunks[i]];
      ConcatAppend(chunks[..i], [chunks[i]]);
      ConcatOne(chunks[i]);
    }
    assert chunks[..|chunks|] == chunks;
    relay.OnEnd();
    outer, outputText := relay.outer, relay.outputText;
  }

  /** The listener that buffers the answer to store (src/services/qa.v2.service.ts). */
  method CollectAnswer(deliveries: seq<Text>, other: Reader) returns (bufferedAnswer: Text)
    ensures bufferedAnswer == Collected(deliveries, other)
  {
    bufferedAnswer := [];
    for i := 0 to |deliveries|
      invariant bufferedAnswer == Collected(deliveries[..i], other)
    {
      assert Init(deliveries[..i + 1]) == deliveries[..i] && Last(deliveries[..i + 1]) == deliveries[i];
      var answerTexts := ExtractAnswerText(deliveries[i], other);
      if |answerTexts| > 0 {
        bufferedAnswer := bufferedAnswer + Concat(answerTexts);
      }
    }
    assert deliveries[..|deliveries|] == deliveries;
  }

  // Lossless relaying

  lemma {:induction false} WithBreaksThenRest(blocks: seq<Text>, rest: Text)
    ensures Concat(WithBreaks(blocks)) + rest == Join(blocks + [rest], BREAK)
  {
    if blocks == [] {
      assert blocks + [rest] == [rest];
    } else {
      var first, others := [blocks[0]], blocks[1..];
      assert blocks == first + others;
      WithBreaksAppend(first, others);
      assert Init(first) == [] && WithBreaks(first) == [blocks[0] + BREAK];
      ConcatAppend(WithBreaks(first), WithBreaks(others));
      ConcatOne(blocks[0] + BREAK);
      WithBreaksThenRest(others, rest);
      assert (blocks + [rest])[1..] == others + [rest];
      assert Concat(WithBreaks(blocks)) + rest == blocks[0] + BREAK + (Concat(WithBreaks(others)) + rest);
    }
  }

  /** At every moment what has been written, followed by the carry, is exactly what has been received. */
  lemma RelayIsLossless(w: Text)
    ensures Concat(WithBreaks(Init(Blocks(w)))) + Last(Blocks(w)) == w
    ensures Concat(Delivered(w)) == w
  {
    var parts := Blocks(w);
    WithBreaksThenRest(Init(parts), Last(parts));
    assert Init(parts) + [Last(parts)] == parts;
    JoinSplit(w, BREAK);
    if Last(parts) != [] {
      ConcatAppend(WithBreaks(Init(parts)), [Last(parts)]);
      ConcatOne(Last(parts));
    } else {
      assert WithBreaks(Init(parts)) + [] == WithBreaks(Init(parts));
    }
  }

  // The two decoders

  lemma ExtractBlock(b: Text, other: Reader)
    requires IsBlock(b)
    ensures Extract(b + BREAK, other) == ExtractedFrom(b, other)
  {
    BlockThenBreak(b, []);
    assert b + BREAK + [] == b + BREAK;
    SplitWithoutBreak();
    assert Blocks(b + BREAK) == [b, []];
    assert Init([b, []]) == [b] && Init([b]) == [];
    assert ExtractedFromAll([b], other) == ExtractedFrom(b, other);
    assert ExtractedFrom([], other) == [];
  }

  lemma SplitWithoutBreak()
    ensures Blocks([]) == [[]]
  {
  }

  lemma {:induction false} TrimmedAway(s: Text)
    requires Trim(s) == []
    ensures forall c :: c in s ==> IsSpace(c)
  {
    forall i | 0 <= i < |s| ensures IsSpace(s[i]) {
      if !IsSpace(s[i]) {
        NotBlank(s, i);
      }
    }
  }

  lemma {:induction false} SplitUnits(s: Text, d: Text)
    requires d != []
    ensures forall part :: part in Split(s, d) ==> forall c :: c in part ==> c in s
    decreases |s|
  {
    hide Split, Find;
    var i := Find(s, d);
    if i < |s| {
      SplitFound(s, d);
      SplitUnits(s[i + |d|..], d);
      assert forall c :: c in s[..i] ==> c in s;
      assert forall c :: c in s[i + |d|..] ==> c in s;
    } else {
      SplitNone(s, d);
    }
  }

  lemma EventStart(line: Text)
    ensures StartsWith(line, EVENT) ==> line != [] && line[0] == 0x65
  {
    if StartsWith(line, EVENT) {
      assert line[0] == line[..6][0] == EVENT[0];
    }
  }

  lemma {:induction false} NoEventLine(lines: seq<Text>)
    requires forall line :: line in lines ==> forall c :: c in line ==> IsSpace(c)
    ensures EventName(lines) == None
  {
    if lines != [] {
      forall line | line in Init(lines) ensures forall c :: c in line ==> IsSpace(c) {
        assert line in lines;
      }
      NoEventLine(Init(lines));
      var line := Last(lines);
      assert line in lines;
      assert line != [] ==> line[0] in line;
      EventStart(line);
    }
  }

  /** On a block with at most one data line the relay and the collector read the same answer. */
  lemma SameReading(b: Text, other: Reader)
    requires |DataValues(Lines(b))| <= 1
    ensures CountedIn(b, other) == ExtractedFrom(b, other)
  {
    if Trim(b) == [] {
      TrimmedAway(b);
      SplitUnits(b, [LF]);
      NoEventLine(Lines(b));
    }
  }

  lemma {:induction false} SameReadings(blocks: seq<Text>, other: Reader)
    requires forall b :: b in blocks ==> IsBlock(b) && |DataValues(Lines(b))| <= 1
    ensures Collected(WithBreaks(blocks), other) == Concat(CountedInAll(blocks, other))
  {
    if blocks != [] {
      var b := Last(blocks);
      SameReadings(Init(blocks), other);
      ExtractBlock(b, other);
      SameReading(b, other);
      assert Init(WithBreaks(blocks)) == WithBreaks(Init(blocks)) && Last(WithBreaks(blocks)) == b + BREAK;
      ConcatAppend(CountedInAll(Init(blocks), other), CountedIn(b, other));
    }
  }

  /**
   * Over any stream of blocks with at most one data line each, the collector stores what the relay
   * counted plus whatever an unfinished last block happens to hold; so they agree if and only if
   * that tail holds no answer text.
   */
  lemma DecodersAgree(w: Text, other: Reader)
    requires forall b :: b in Init(Blocks(w)) ==> |DataValues(Lines(b))| <= 1
    ensures Collected(Delivered(w), other) == Counted(w, other) + Concat(Extract(Last(Blocks(w)), other))
    ensures Collected(Delivered(w), other) == Counted(w, other) <==> Concat(Extract(Last(Blocks(w)), other)) == []
  {
    var done, tail := Init(Blocks(w)), Last(Blocks(w));
    PartsAreBlocks(w);
    SameReadings(done, other);
    if tail == [] {
      assert Delivered(w) == WithBreaks(done);
    } else {
      CollectedAppend(WithBreaks(done), [tail], other);
      assert Init([tail]) == [] && Last([tail]) == tail;
    }
  }

  /** With two data lines they part ways: the relay reads the last line, the collector the lines joined. */
  lemma DecodersOnTwoDataLines(v1: Text, v2: Text, other: Reader)
    requires v1 != [] && IsTrimmed(v1) && LF !in v1
    requires v2 != [] && IsTrimmed(v2) && LF !in v2
    ensures var b := (EVENT + ANSWER) + [LF] + ((DATA + v1) + [LF] + (DATA + v2));
            CountedIn(b, other) == [Payload(v2, other)] && ExtractedFrom(b, other) == [Payload(v1 + [LF] + v2, other)]
  {
    hide Lines;
    var l0, l1, l2 := EVENT + ANSWER, DATA + v1, DATA + v2;
    var b := l0 + [LF] + (l1 + [LF] + l2);
    ThreeLines(l0, l1, l2);
    ThreeLineEvent(l0, l1, l2);
    assert l0[6..] == ANSWER && l1[5..] == v1 && l2[5..] == v2;
    TrimNormal(ANSWER);
    assert DataValues(Lines(b)) == [v1, v2];
    JoinTwo(v1, v2);
    TrimNormal(v2);
    TrimNormal(v1 + [LF] + v2);
    NotBlank(b, 0);
  }

  lemma JoinTwo(a: Text, b: Text)
    ensures Join([a, b], [LF]) == a + [LF] + b
  {
    assert [a, b][1..] == [b];
  }

  lemma ThreeLines(l0: Text, l1: Text, l2: Text)
    requires l0 != [] && l1 != [] && l2 != [] && LF !in l0 && LF !in l1 && LF !in l2
    ensures Lines(l0 + [LF] + (l1 + [LF] + l2)) == [l0, l1, l2]
  {
    FirstLine(l0, l1 + [LF] + l2);
    TwoLines(l1, l2);
    assert [l0] + [l1, l2] == [l0, l1, l2];
  }

  lemma ThreeLineEvent(l0: Text, l1: Text, l2: Text)
    requires StartsWith(l0, EVENT) && StartsWith(l1, DATA) && StartsWith(l2, DATA)
    ensures EventName([l0, l1, l2]) == Some(Trim(l0[6..]))
    ensures DataValues([l0, l1, l2]) == [l1[5..], l2[5..]]
  {
    assert Init([l0, l1, l2]) == [l0, l1] && Last([l0, l1, l2]) == l2;
    EventIsNotData(l2);
    TwoLineEvent(l0, l1);
  }

  // Writes that arrive several at a time

  /** Each group of writes as the one text it arrives as. */
  function Joined(groups: seq<seq<Text>>): seq<Text> {
    if groups == [] then [] else [Concat(groups[0])] + Joined(groups[1..])
  }

  /** Every write but the last is a whole block. */
  ghost predicate IsBlockwise(writes: seq<Text>) {
    forall i :: 0 <= i < |writes| - 1 ==> IsWholeBlock(writes[i])
  }

  ghost predicate IsWholeBlock(write: Text) {
    exists b :: IsBlock(b) && write == b + BREAK
  }

  lemma {:induction false} ExtractedFromAllCons(b: Text, blocks: seq<Text>, other: Reader)
    ensures ExtractedFromAll([b] + blocks, other) == ExtractedFrom(b, other) + ExtractedFromAll(blocks, other)
  {
    hide ExtractedFrom;
    if blocks == [] {
      assert [b] + blocks == [b] && Init([b]) == [];
    } else {
      assert Init([b] + blocks) == [b] + Init(blocks) && Last([b] + blocks) == Last(blocks);
      ExtractedFromAllCons(b, Init(blocks), other);
      SeqAssoc(ExtractedFrom(b, other), ExtractedFromAll(Init(blocks), other), ExtractedFrom(Last(blocks), other));
    }
  }

  lemma ExtractAfterBlock(b: Text, rest: Text, other: Reader)
    requires IsBlock(b)
    ensures Extract(b + BREAK + rest, other) == ExtractedFrom(b, other) + Extract(rest, other)
  {
    hide ExtractedFrom, IsBlock;
    BlockThenBreak(b, rest);
    ExtractedFromAllCons(b, Blocks(rest), other);
    NothingExtracted(other);
  }

  lemma NothingExtracted(other: Reader)
    ensures ExtractedFromAll(Blocks([]), other) == []
  {
    SplitWithoutBreak();
    var empty: seq<Text> := [[]];
    assert Init(empty) == [] && Last(empty) == [];
    assert ExtractedFrom([], other) == [];
  }

  lemma CollectedOne(write: Text, other: Reader)
    ensures Collected([write], other) == Concat(Extract(write, other))
  {
    assert Init([write]) == [] && Last([write]) == write;
  }

  /** A group of writes yields what its writes yield one by one. */
  lemma {:induction false} GroupCollects(group: seq<Text>, other: Reader)
    requires IsBlockwise(group)
    ensures Concat(Extract(Concat(group), other)) == Collected(group, other)
    decreases |group|
  {
    hide Extract, ExtractedFrom, IsBlock;
    if group == [] {
      NothingExtracted(other);
      ExtractNothing(other);
    } else if |group| == 1 {
      ConcatOne(group[0]);
      CollectedOne(group[0], other);
      assert group == [group[0]];
    } else {
      var rest := group[1..];
      assert IsWholeBlock(group[0]);
      var b :| IsBlock(b) && group[0] == b + BREAK;
      forall i | 0 <= i < |rest| - 1 ensures IsWholeBlock(rest[i]) {
        assert rest[i] == group[i + 1];
      }
      GroupCollects(rest, other);
      ExtractAfterBlock(b, Concat(rest), other);
      ExtractBlock(b, other);
      ConcatAppend(ExtractedFrom(b, other), Extract(Concat(rest), other));
      assert group == [group[0]] + rest;
      CollectedAppend([group[0]], rest, other);
      CollectedOne(group[0], other);
    }
  }

  lemma ExtractNothing(other: Reader)
    ensures Extract([], other) == []
  {
    NothingExtracted(other);
  }

  lemma {:induction false} GroupsCollect(groups: seq<seq<Text>>, other: Reader)
    requires IsBlockwise(Concat(groups))
    ensures Collected(Joined(groups), other) == Collected(Concat(groups), other)
    decreases |groups|
  {
    hide Extract;
    if groups != [] {
      var g, later := groups[0], groups[1..];
      var all := Concat(groups);
      assert all == g + Concat(later);
      forall i | 0 <= i < |g| - 1 ensures IsWholeBlock(g[i]) {
        assert g[i] == all[i];
      }
      forall i | 0 <= i < |Concat(later)| - 1 ensures IsWholeBlock(Concat(later)[i]) {
        assert Concat(later)[i] == all[|g| + i];
      }
      GroupCollects(g, other);
      GroupsCollect(later, other);
      CollectedOne(Concat(g), other);
      CollectedAppend([Concat(g)], Joined(later), other);
      CollectedAppend(g, Concat(later), other);
    }
  }

  lemma {:induction false} WithBreaksBlockwise(blocks: seq<Text>)
    requires forall b :: b in blocks ==> IsBlock(b)
    ensures forall w :: w in WithBreaks(blocks) ==> IsWholeBlock(w)
  {
    hide IsBlock;
    if blocks != [] {
      assert Last(blocks) in blocks;
      WithBreaksBlockwise(Init(blocks));
      assert IsWholeBlock(Last(blocks) + BREAK);
    }
  }

  /** The collector stores the same, however the relay's writes are grouped into deliveries. */
  lemma CoalescingIsFree(w: Text, groups: seq<seq<Text>>, other: Reader)
    requires Concat(groups) == Delivered(w)
    ensures Collected(Joined(groups), other) == Collected(Delivered(w), other)
  {
    hide Extract, IsBlock, IsWholeBlock, Blocks;
    PartsAreBlocks(w);
    WithBreaksBlockwise(Init(Blocks(w)));
    var writes := Delivered(w);
    forall i | 0 <= i < |writes| - 1 ensures IsWholeBlock(writes[i]) {
      assert writes[i] == WithBreaks(Init(Blocks(w)))[i];
    }
    GroupsCollect(groups, other);
  }
}
