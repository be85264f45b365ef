/**
 * Digging a JSON object out of a model's free text (src/services/search-plan.service.ts): the whole text is
 * tried first, then a scan that counts braces outside strings, then everything up to the last brace.
 * `parse` stands for `JSON.parse`: `None` where it throws or yields a falsy value.
 */
module PlanExtraction {
  import opened JsonString
  import opened Options
  import opened Sequences
  import opened Utf16

  const LBRACE: Unit := 0x7B
  const RBRACE: Unit := 0x7D

  type Parser<!J> = Text -> Option<J>

  datatype Scan = Scan(depth: int, inStr: bool, esc: bool)

  const OUTSIDE := Scan(0, false, false)

  function Step(s: Scan, ch: Unit): Scan {
    if s.inStr then
      if s.esc then s.(esc := false)
      else if ch == BACKSLASH then s.(esc := true)
      else if ch == QUOTE then s.(inStr := false)
      else s
    else if ch == QUOTE then s.(inStr := true)
    else if ch == LBRACE then s.(depth := s.depth + 1)
    else if ch == RBRACE then s.(depth := s.depth - 1)
    else s
  }

  /** The unit ends a balanced stretch. */
  predicate Closes(s: Scan, ch: Unit) {
    !s.inStr && ch == RBRACE && s.depth == 1
  }

  /** The first balanced stretch from `start` that parses, looking on from position `i` in state `s`. */
  function FirstParsed<J>(raw: Text, parse: Parser<J>, start: nat, i: nat, s: Scan): Option<J>
    requires start <= i <= |raw|
    decreases |raw| - i
  {
    if i == |raw| then None
    else if Closes(s, raw[i]) && parse(raw[start..i + 1]).Some? then parse(raw[start..i + 1])
    else FirstParsed(raw, parse, start, i + 1, Step(s, raw[i]))
  }

  /** `raw.lastIndexOf('}')`, or -1. */
  function LastBrace(raw: Text): (k: int)
    ensures -1 <= k < |raw|
    ensures k >= 0 ==> raw[k] == RBRACE
  {
    if raw == [] then -1
    else if Last(raw) == RBRACE then |raw| - 1
    else LastBrace(Init(raw))
  }

  function Extracted<J>(raw: Text, parse: Parser<J>): Option<J> {
    var start := Find(raw, [LBRACE]);
    if parse(raw).Some? then parse(raw)
    else if start == |raw| then None
    else if FirstParsed(raw, parse, start, start, OUTSIDE).Some? then FirstParsed(raw, parse, start, start, OUTSIDE)
    else if LastBrace(raw) > start then parse(raw[start..LastBrace(raw) + 1])
    else None
  }

  method ExtractObject<J>(raw: Text, parse: Parser<J>) returns (candidate: Option<J>)
    ensures candidate == Extracted(raw, parse)
  {
    hide Find, LastBrace;
    candidate := parse(raw);
    if candidate.None? {
      var start := Find(raw, [LBRACE]);
      if start < |raw| {
        var depth := 0;
        var inStr := false;
        var esc := false;
        var i := start;
        while i < |raw|
          invariant start <= i <= |raw|
          invariant candidate.None?
          invariant FirstParsed(raw, parse, start, i, Scan(depth, inStr, esc))
                 == FirstParsed(raw, parse, start, start, OUTSIDE)
        {
          var ch := raw[i];
          if inStr {
            if esc {
              esc := false;
            } else if ch == BACKSLASH {
              esc := true;
            } else if ch == QUOTE {
              inStr := false;
            }
          } else {
            if ch == QUOTE {
              inStr := true;
            } else if ch == LBRACE {
              depth := depth + 1;
            } else if ch == RBRACE {
              depth := depth - 1;
              if depth == 0 {
                candidate := parse(raw[start..i + 1]);
                if candidate.Some? {
                  break;
                }
              }
            }
          }
          i := i + 1;
        }
        if candidate.None? {
          var last := LastBrace(raw);
          if last > start {
            candidate := parse(raw[start..last + 1]);
          }
        }
      }
    }
  }

  /** `r` is the parse of the whole text, or of a stretch from the first opening brace up to a closing one. */
  ghost predicate WasParsed<J(!new)>(raw: Text, parse: Parser<J>, r: Option<J>) {
    || r == parse(raw)
    || exists e :: IsStretch(raw, Find(raw, [LBRACE]), e) && r == parse(raw[Find(raw, [LBRACE])..e])
  }

  lemma StretchWasParsed<J(!new)>(raw: Text, parse: Parser<J>, e: int)
    requires IsStretch(raw, Find(raw, [LBRACE]), e)
    ensures WasParsed(raw, parse, parse(raw[Find(raw, [LBRACE])..e]))
  {
  }

  /** Nothing is made up: a result was parsed from the text itself. */
  lemma ExtractedWasParsed<J(!new)>(raw: Text, parse: Parser<J>)
    ensures Extracted(raw, parse).Some? ==> WasParsed(raw, parse, Extracted(raw, parse))
  {
    hide Find, FirstParsed, WasParsed;
    var start := Find(raw, [LBRACE]);
    if parse(raw).Some? {
      assert WasParsed(raw, parse, parse(raw)) by {
        WholeWasParsed(raw, parse);
      }
    } else if start < |raw| {
      FirstParsedWasParsed(raw, parse, start, start, OUTSIDE);
      var first := FirstParsed(raw, parse, start, start, OUTSIDE);
      if first.Some? {
        var e :| IsStretch(raw, start, e) && first == parse(raw[start..e]);
        StretchWasParsed(raw, parse, e);
      } else if LastBrace(raw) > start {
        StretchWasParsed(raw, parse, LastBrace(raw) + 1);
      }
    }
  }

  lemma WholeWasParsed<J(!new)>(raw: Text, parse: Parser<J>)
    ensures WasParsed(raw, parse, parse(raw))
  {
  }

  /** The text from `start` to `end` ends with a closing brace. */
  predicate IsStretch(raw: Text, start: int, end: int) {
    0 <= start < end <= |raw| && raw[end - 1] == RBRACE
  }

  lemma UnitAt(s: Text, c: Unit, i: nat)
    ensures OccursAt(s, [c], i) <==> i < |s| && s[i] == c
  {
    if i < |s| {
      assert s[i..i + 1] == [s[i]];
    }
  }

  lemma {:induction false} FirstParsedWasParsed<J>(raw: Text, parse: Parser<J>, start: nat, i: nat, s: Scan)
    requires start <= i <= |raw|
    ensures FirstParsed(raw, parse, start, i, s).Some? ==>
              exists e :: IsStretch(raw, start, e) && FirstParsed(raw, parse, start, i, s) == parse(raw[start..e])
    decreases |raw| - i
  {
    if i < |raw| {
      if Closes(s, raw[i]) && parse(raw[start..i + 1]).Some? {
        assert IsStretch(raw, start, i + 1);
      } else {
        FirstParsedWasParsed(raw, parse, start, i + 1, Step(s, raw[i]));
      }
    }
  }

  // Balanced text

  function Run(s: Scan, t: Text): Scan
    decreases |t|
  {
    if t == [] then s else Run(Step(s, t[0]), t[1..])
  }

  /** No unit of `t` ends a balanced stretch. */
  predicate Quiet(s: Scan, t: Text)
    decreases |t|
  {
    t == [] || (!Closes(s, t[0]) && Quiet(Step(s, t[0]), t[1..]))
  }

  lemma {:induction false} RunAppend(s: Scan, a: Text, b: Text)
    ensures Run(s, a + b) == Run(Run(s, a), b)
    ensures Quiet(s, a + b) <==> Quiet(s, a) && Quiet(Run(s, a), b)
    decreases |a|
  {
    if a == [] {
      assert a + b == b;
    } else {
      RunAppend(Step(s, a[0]), a[1..], b);
      assert (a + b)[1..] == a[1..] + b;
    }
  }

  lemma {:induction false} SkipQuiet<J>(raw: Text, parse: Parser<J>, start: nat, i: nat, t: Text, s: Scan)
    requires start <= i && i + |t| <= |raw| && raw[i..i + |t|] == t && Quiet(s, t)
    ensures FirstParsed(raw, parse, start, i, s) == FirstParsed(raw, parse, start, i + |t|, Run(s, t))
    decreases |t|
  {
    if t != [] {
      assert raw[i] == raw[i..i + |t|][0];
      assert raw[i + 1..i + 1 + |t[1..]|] == raw[i..i + |t|][1..];
      SkipQuiet(raw, parse, start, i + 1, t[1..], Step(s, raw[i]));
    }
  }

  /** One piece of a string literal's inside: a plain unit, or a backslash with the unit it escapes. */
  datatype Piece = Plain(c: Unit) | Escaped(c: Unit)

  /** JSON text by its bracketing: stretches without quotes and braces, string literals, and braced groups. */
  datatype Node = Loose(text: Text) | Literal(pieces: seq<Piece>) | Group(items: seq<Node>)

  predicate IsPiece(p: Piece) {
    p.Plain? ==> p.c != QUOTE && p.c != BACKSLASH
  }

  predicate IsLoose(t: Text) {
    QUOTE !in t && LBRACE !in t && RBRACE !in t
  }

  predicate IsNode(n: Node) {
    match n
    case Loose(text) => IsLoose(text)
    case Literal(pieces) => forall p :: p in pieces ==> IsPiece(p)
    case Group(items) => forall m :: m in items ==> IsNode(m)
  }

  function PiecesText(pieces: seq<Piece>): Text {
    if pieces == [] then []
    else (if pieces[0].Plain? then [pieces[0].c] else [BACKSLASH, pieces[0].c]) + PiecesText(pieces[1..])
  }

  function NodeText(n: Node): Text
    decreases n, 0
  {
    match n
    case Loose(text) => text
    case Literal(pieces) => [QUOTE] + PiecesText(pieces) + [QUOTE]
    case Group(items) => [LBRACE] + NodesText(items) + [RBRACE]
  }

  function NodesText(items: seq<Node>): Text
    decreases items, 1
  {
    if items == [] then [] else NodeText(items[0]) + NodesText(items[1..])
  }

  lemma {:induction false} LooseScan(t: Text, s: Scan)
    requires IsLoose(t) && !s.inStr
    ensures Run(s, t) == s && Quiet(s, t)
  {
    if t != [] {
      LooseScan(t[1..], s);
    }
  }

  lemma {:induction false} PiecesScan(pieces: seq<Piece>, s: Scan)
    requires forall p :: p in pieces ==> IsPiece(p)
    requires s.inStr && !s.esc
    ensures Run(s, PiecesText(pieces)) == s && Quiet(s, PiecesText(pieces))
  {
    if pieces != [] {
      var head := if pieces[0].Plain? then [pieces[0].c] else [BACKSLASH, pieces[0].c];
      PiecesScan(pieces[1..], s);
      RunAppend(s, head, PiecesText(pieces[1..]));
      PieceScan(pieces[0], s);
    }
  }

  lemma PieceScan(p: Piece, s: Scan)
    requires IsPiece(p) && s.inStr && !s.esc
    ensures var head := if p.Plain? then [p.c] else [BACKSLASH, p.c];
            Run(s, head) == s && Quiet(s, head)
  {
    OneUnit(s, p.c);
    if p.Escaped? {
      assert [BACKSLASH, p.c][1..] == [p.c];
      OneUnit(Step(s, BACKSLASH), p.c);
    }
  }

  lemma OneUnit(s: Scan, c: Unit)
    ensures Run(s, [c]) == Step(s, c)
    ensures Quiet(s, [c]) <==> !Closes(s, c)
  {
    assert [c][1..] == [];
  }

  /** Inside a group, a well-formed piece of JSON text closes nothing and leaves the scanner where it was. */
  lemma {:induction false} NodeScan(n: Node, depth: int)
    requires IsNode(n) && depth >= 1
    ensures Run(Scan(depth, false, false), NodeText(n)) == Scan(depth, false, false)
    ensures Quiet(Scan(depth, false, false), NodeText(n))
    decreases n, 0
  {
    hide Run, Quiet;
    var s := Scan(depth, false, false);
    match n
    case Loose(text) =>
      LooseScan(text, s);
    case Literal(pieces) =>
      PiecesScan(pieces, Step(s, QUOTE));
      RunAppend(s, [QUOTE] + PiecesText(pieces), [QUOTE]);
      RunAppend(s, [QUOTE], PiecesText(pieces));
      OneUnit(s, QUOTE);
      OneUnit(Step(s, QUOTE), QUOTE);
    case Group(items) =>
      NodesScan(items, depth + 1);
      RunAppend(s, [LBRACE] + NodesText(items), [RBRACE]);
      RunAppend(s, [LBRACE], NodesText(items));
      OneUnit(s, LBRACE);
      OneUnit(Step(s, LBRACE), RBRACE);
  }

  lemma {:induction false} NodesScan(items: seq<Node>, depth: int)
    requires (forall m :: m in items ==> IsNode(m)) && depth >= 1
    ensures Run(Scan(depth, false, false), NodesText(items)) == Scan(depth, false, false)
    ensures Quiet(Scan(depth, false, false), NodesText(items))
    decreases items, 1
  {
    if items != [] {
      NodeScan(items[0], depth);
      NodesScan(items[1..], depth);
      RunAppend(Scan(depth, false, false), NodeText(items[0]), NodesText(items[1..]));
    }
  }

  /**
   * In any text made of a prefix without an opening brace, one braced group, however nested and whatever
   * its strings hold, and any suffix, the first balanced stretch is exactly that group.
   */
  lemma GroupIsFound<J>(prefix: Text, items: seq<Node>, suffix: Text, parse: Parser<J>)
    requires LBRACE !in prefix && IsNode(Group(items))
    requires var raw := prefix + NodeText(Group(items)) + suffix;
             parse(raw).None? && parse(NodeText(Group(items))).Some?
    ensures Extracted(prefix + NodeText(Group(items)) + suffix, parse) == parse(NodeText(Group(items)))
  {
    var inner := NodesText(items);
    var group := NodeText(Group(items));
    var raw, start := prefix + group + suffix, |prefix|;
    FirstBraceAt(prefix, group + suffix);
    SeqAssoc(prefix, group, suffix);
    var end := start + |group|;
    assert raw[start..end] == group;
    var open := [LBRACE] + inner;
    assert group == open + [RBRACE];
    assert raw[start..start + |open|] == open && raw[end - 1] == RBRACE;
    NodesScan(items, 1);
    OneUnit(OUTSIDE, LBRACE);
    RunAppend(OUTSIDE, [LBRACE], inner);
    SkipQuiet(raw, parse, start, start, open, OUTSIDE);
  }

  lemma FirstBraceAt(prefix: Text, rest: Text)
    requires LBRACE !in prefix && rest != [] && rest[0] == LBRACE
    ensures Find(prefix + rest, [LBRACE]) == |prefix|
  {
    var s := prefix + rest;
    var i := Find(s, [LBRACE]);
    UnitAt(s, LBRACE, i);
    UnitAt(s, LBRACE, |prefix|);
  }

  // Exactly which stretch is taken

  /** A balanced stretch that begins at `start` ends with unit `e`. */
  predicate ClosesAt(raw: Text, start: nat, e: nat) {
    start <= e < |raw| && Closes(Run(OUTSIDE, raw[start..e]), raw[e])
  }

  /** The first end, from `i` on, of a balanced stretch that parses. */
  ghost predicate IsFirstEnd<J>(raw: Text, parse: Parser<J>, start: nat, i: nat, e: nat) {
    && i <= e && ClosesAt(raw, start, e) && parse(raw[start..e + 1]).Some?
    && forall f :: i <= f < e && ClosesAt(raw, start, f) ==> parse(raw[start..f + 1]).None?
  }

  ghost predicate NoEnd<J>(raw: Text, parse: Parser<J>, start: nat, i: nat) {
    forall f :: i <= f < |raw| && ClosesAt(raw, start, f) ==> parse(raw[start..f + 1]).None?
  }

  lemma EndHere<J>(raw: Text, parse: Parser<J>, start: nat, i: nat, e: nat)
    requires start <= i < |raw| && ClosesAt(raw, start, i) && parse(raw[start..i + 1]).Some?
    ensures !NoEnd(raw, parse, start, i) && (IsFirstEnd(raw, parse, start, i, e) ==> e == i)
  {
    hide ClosesAt;
  }

  lemma EndLater<J>(raw: Text, parse: Parser<J>, start: nat, i: nat, e: nat)
    requires start <= i < |raw| && !(ClosesAt(raw, start, i) && parse(raw[start..i + 1]).Some?)
    ensures NoEnd(raw, parse, start, i) ==> NoEnd(raw, parse, start, i + 1)
    ensures IsFirstEnd(raw, parse, start, i, e) ==> IsFirstEnd(raw, parse, start, i + 1, e)
  {
    hide Run, Closes;
  }

  lemma StateStep(raw: Text, start: nat, i: nat)
    requires start <= i < |raw|
    ensures Run(OUTSIDE, raw[start..i + 1]) == Step(Run(OUTSIDE, raw[start..i]), raw[i])
    ensures ClosesAt(raw, start, i) <==> Closes(Run(OUTSIDE, raw[start..i]), raw[i])
  {
    assert raw[start..i + 1] == raw[start..i] + [raw[i]];
    RunAppend(OUTSIDE, raw[start..i], [raw[i]]);
    OneUnit(Run(OUTSIDE, raw[start..i]), raw[i]);
  }

  lemma {:induction false} FirstParsedExactly<J>(raw: Text, parse: Parser<J>, start: nat, i: nat)
    requires start <= i <= |raw|
    ensures var found := FirstParsed(raw, parse, start, i, Run(OUTSIDE, raw[start..i]));
            && (NoEnd(raw, parse, start, i) ==> found.None?)
            && forall e: nat :: IsFirstEnd(raw, parse, start, i, e) ==> found == parse(raw[start..e + 1])
    decreases |raw| - i
  {
    if i < |raw| {
      hide Run, Closes, ClosesAt, NoEnd, IsFirstEnd, Step;
      StateStep(raw, start, i);
      if ClosesAt(raw, start, i) && parse(raw[start..i + 1]).Some? {
        forall e: nat ensures !NoEnd(raw, parse, start, i) && (IsFirstEnd(raw, parse, start, i, e) ==> e == i) {
          EndHere(raw, parse, start, i, e);
        }
        EndHere(raw, parse, start, i, i);
      } else {
        FirstParsedExactly(raw, parse, start, i + 1);
        forall e: nat | IsFirstEnd(raw, parse, start, i, e) ensures IsFirstEnd(raw, parse, start, i + 1, e) {
          EndLater(raw, parse, start, i, e);
        }
        EndLater(raw, parse, start, i, i);
      }
    }
  }

  lemma {:induction false} LastBraceIsLast(raw: Text)
    ensures forall j :: 0 <= j < |raw| && raw[j] == RBRACE ==> j <= LastBrace(raw)
  {
    if raw != [] && Last(raw) != RBRACE {
      LastBraceIsLast(Init(raw));
      forall j | 0 <= j < |raw| && raw[j] == RBRACE ensures j <= LastBrace(raw) {
        assert Init(raw)[j] == RBRACE;
      }
    }
  }

  /** `k` is the place of the last closing brace. */
  predicate IsLastBrace(raw: Text, k: nat) {
    k < |raw| && raw[k] == RBRACE && forall j :: k < j < |raw| ==> raw[j] != RBRACE
  }

  /**
   * The whole text is taken if it parses; else, from the first opening brace on, the first balanced stretch that
   * parses; else the stretch up to the last closing brace; and nothing when there is no opening brace.
   */
  lemma ExtractedExactly<J>(raw: Text, parse: Parser<J>)
    ensures parse(raw).Some? ==> Extracted(raw, parse) == parse(raw)
    ensures parse(raw).None? && LBRACE !in raw ==> Extracted(raw, parse).None?
    ensures forall start: nat, e: nat ::
              parse(raw).None? && IsFirstBrace(raw, start) && IsFirstEnd(raw, parse, start, start, e) ==>
                Extracted(raw, parse) == parse(raw[start..e + 1])
    ensures forall start: nat, k: nat ::
              parse(raw).None? && IsFirstBrace(raw, start) && NoEnd(raw, parse, start, start) && IsLastBrace(raw, k) ==>
                Extracted(raw, parse) == if k > start then parse(raw[start..k + 1]) else None
    ensures parse(raw).None? && RBRACE !in raw ==> Extracted(raw, parse).None?
  {
    var start := Find(raw, [LBRACE]);
    FirstBraceIs(raw);
    LastBraceIsLast(raw);
    if start < |raw| {
      FirstParsedExactly(raw, parse, start, start);
      assert raw[start..start] == [] && Run(OUTSIDE, []) == OUTSIDE;
      if RBRACE !in raw {
        forall f | start <= f < |raw| ensures !ClosesAt(raw, start, f) {
          assert raw[f] in raw;
        }
        assert NoEnd(raw, parse, start, start);
      }
      assert LastBrace(raw) >= 0 ==> raw[LastBrace(raw)] in raw;
    }
  }

  /** `start` is the place of the first opening brace. */
  predicate IsFirstBrace(raw: Text, start: nat) {
    start < |raw| && raw[start] == LBRACE && forall j :: 0 <= j < start ==> raw[j] != LBRACE
  }

  lemma FirstBraceIs(raw: Text)
    ensures LBRACE !in raw ==> Find(raw, [LBRACE]) == |raw|
    ensures forall start: nat :: IsFirstBrace(raw, start) ==> Find(raw, [LBRACE]) == start
  {
    var k := Find(raw, [LBRACE]);
    forall j | 0 <= j < |raw| ensures OccursAt(raw, [LBRACE], j) <==> raw[j] == LBRACE {
      assert raw[j..j + 1] == [raw[j]];
    }
    if k < |raw| {
      assert raw[k] in raw;
    }
  }
}
