/**
 * JSON values as `JSON.stringify` prints them (section 25.5.2 of ECMA-262), and why a printed object survives
 * being wrapped in prose: its text is one braced group of the form the scanner understands.
 */
module PlanJson {
  import opened JsonString
  import opened Options
  import opened PlanExtraction
  import opened Sequences
  import opened Utf16

  datatype Json =
    | Null
    | Bool(b: bool)
    | Number(lexeme: Text)
    | String(s: Text)
    | Array(items: seq<Json>)
    | Object(members: seq<Member>)

  datatype Member = Member(name: Text, value: Json)

  /** Numbers are printed with digits, sign, point and exponent only. */
  predicate IsJson(v: Json) {
    match v
    case Number(lexeme) => IsLoose(lexeme)
    case Array(items) => forall w :: w in items ==> IsJson(w)
    case Object(members) => forall m :: m in members ==> IsJson(m.value)
    case _ => true
  }

  function Print(v: Json): Text
    decreases v, 0
  {
    match v
    case Null => Ascii("null")
    case Bool(b) => if b then Ascii("true") else Ascii("false")
    case Number(lexeme) => lexeme
    case String(s) => Stringify(s)
    case Array(items) => Ascii("[") + PrintItems(items) + Ascii("]")
    case Object(members) => [LBRACE] + PrintMembers(members) + [RBRACE]
  }

  function PrintItems(items: seq<Json>): Text
    decreases items, 1
  {
    if items == [] then []
    else if |items| == 1 then Print(items[0])
    else Print(items[0]) + Ascii(",") + PrintItems(items[1..])
  }

  function PrintMembers(members: seq<Member>): Text
    decreases members, 1
  {
    if members == [] then []
    else
      var first := Stringify(members[0].name) + Ascii(":") + Print(members[0].value);
      if |members| == 1 then first else first + Ascii(",") + PrintMembers(members[1..])
  }

  // The same text, by its bracketing

  function UnitPieces(c: Unit): seq<Piece> {
    var t := EscapeUnit(c);
    if |t| == 1 then [Plain(c)]
    else if |t| == 2 then [Escaped(t[1])]
    else [Escaped(t[1]), Plain(t[2]), Plain(t[3]), Plain(t[4]), Plain(t[5])]
  }

  function Pieces(s: Text): seq<Piece> {
    if s == [] then []
    else if StartsWithPair(s) then [Plain(s[0]), Plain(s[1])] + Pieces(s[2..])
    else UnitPieces(s[0]) + Pieces(s[1..])
  }

  lemma {:induction false} PiecesAppend(a: seq<Piece>, b: seq<Piece>)
    ensures PiecesText(a + b) == PiecesText(a) + PiecesText(b)
  {
    if a == [] {
      assert a + b == b;
    } else {
      PiecesAppend(a[1..], b);
      assert (a + b)[1..] == a[1..] + b;
      SeqAssoc(if a[0].Plain? then [a[0].c] else [BACKSLASH, a[0].c], PiecesText(a[1..]), PiecesText(b));
    }
  }

  lemma UnitPiecesText(c: Unit)
    ensures PiecesText(UnitPieces(c)) == EscapeUnit(c)
    ensures forall p :: p in UnitPieces(c) ==> IsPiece(p)
  {
    var t, ps := EscapeUnit(c), UnitPieces(c);
    if |t| == 1 {
      assert ps[1..] == [];
    } else if |t| == 2 {
      assert ps[1..] == [];
    } else {
      assert ps[1..] == [Plain(t[2]), Plain(t[3]), Plain(t[4]), Plain(t[5])];
      FourPlain(t[2], t[3], t[4], t[5]);
      assert t == [BACKSLASH, t[1]] + [t[2], t[3], t[4], t[5]];
    }
  }

  lemma FourPlain(a: Unit, b: Unit, c: Unit, d: Unit)
    ensures PiecesText([Plain(a), Plain(b), Plain(c), Plain(d)]) == [a, b, c, d]
  {
    PlainFirst(d, []);
    PlainFirst(c, [Plain(d)]);
    PlainFirst(b, [Plain(c), Plain(d)]);
    PlainFirst(a, [Plain(b), Plain(c), Plain(d)]);
  }

  lemma PlainFirst(c: Unit, rest: seq<Piece>)
    ensures PiecesText([Plain(c)] + rest) == [c] + PiecesText(rest)
  {
    assert ([Plain(c)] + rest)[1..] == rest;
  }

  /** Every printed string is a literal of plain and escaped pieces. */
  lemma {:induction false} StringPieces(s: Text)
    ensures PiecesText(Pieces(s)) == EscapeAll(s)
    ensures forall p :: p in Pieces(s) ==> IsPiece(p)
  {
    hide EscapeUnit, UnitPieces;
    if s == [] {
    } else if StartsWithPair(s) {
      var two := [Plain(s[0]), Plain(s[1])];
      StringPieces(s[2..]);
      PiecesAppend(two, Pieces(s[2..]));
      assert two[1..] == [Plain(s[1])] && [Plain(s[1])][1..] == [];
      assert PiecesText(two) == s[..2];
    } else {
      StringPieces(s[1..]);
      UnitPiecesText(s[0]);
      PiecesAppend(UnitPieces(s[0]), Pieces(s[1..]));
    }
  }

  function StringNode(s: Text): Node {
    Literal(Pieces(s))
  }

  function NodeOf(v: Json): seq<Node>
    decreases v, 0
  {
    match v
    case String(s) => [StringNode(s)]
    case Array(items) => [Loose(Ascii("["))] + ItemNodes(items) + [Loose(Ascii("]"))]
    case Object(members) => [Group(MemberNodes(members))]
    case _ => [Loose(Print(v))]
  }

  function ItemNodes(items: seq<Json>): seq<Node>
    decreases items, 1
  {
    if items == [] then []
    else if |items| == 1 then NodeOf(items[0])
    else NodeOf(items[0]) + [Loose(Ascii(","))] + ItemNodes(items[1..])
  }

  function MemberNodes(members: seq<Member>): seq<Node>
    decreases members, 1
  {
    if members == [] then []
    else
      var first := [StringNode(members[0].name)] + [Loose(Ascii(":"))] + NodeOf(members[0].value);
      if |members| == 1 then first else first + [Loose(Ascii(","))] + MemberNodes(members[1..])
  }

  ghost predicate AreNodes(items: seq<Node>) {
    forall n :: n in items ==> IsNode(n)
  }

  lemma {:induction false} NodesAppend(a: seq<Node>, b: seq<Node>)
    ensures NodesText(a + b) == NodesText(a) + NodesText(b)
  {
    if a == [] {
      assert a + b == b;
    } else {
      NodesAppend(a[1..], b);
      assert (a + b)[1..] == a[1..] + b;
      SeqAssoc(NodeText(a[0]), NodesText(a[1..]), NodesText(b));
    }
  }

  lemma OneNode(n: Node)
    ensures NodesText([n]) == NodeText(n)
  {
    assert [n][1..] == [];
  }

  lemma StringNodeText(s: Text)
    ensures NodeText(StringNode(s)) == Stringify(s) && IsNode(StringNode(s))
  {
    StringPieces(s);
  }

  lemma ThreeParts(a: seq<Node>, sep: Text, b: seq<Node>)
    requires IsLoose(sep) && AreNodes(a) && AreNodes(b)
    ensures NodesText(a + [Loose(sep)] + b) == NodesText(a) + sep + NodesText(b)
    ensures AreNodes(a + [Loose(sep)] + b)
  {
    NodesAppend(a + [Loose(sep)], b);
    NodesAppend(a, [Loose(sep)]);
    OneNode(Loose(sep));
  }

  lemma Punctuation()
    ensures IsLoose(Ascii(",")) && IsLoose(Ascii(":")) && IsLoose(Ascii("[")) && IsLoose(Ascii("]"))
    ensures IsLoose(Ascii("null")) && IsLoose(Ascii("true")) && IsLoose(Ascii("false"))
  {
  }

  /** Printed JSON is scannable text: its nodes are well formed and spell out exactly what is printed. */
  lemma {:induction false} PrintedNodes(v: Json)
    requires IsJson(v)
    ensures NodesText(NodeOf(v)) == Print(v) && AreNodes(NodeOf(v))
    decreases v, 0
  {
    hide IsLoose, Stringify;
    Punctuation();
    match v
    case String(s) =>
      StringNodeText(s);
      OneNode(StringNode(s));
    case Array(items) =>
      PrintedItems(items);
      var open, close := Loose(Ascii("[")), Loose(Ascii("]"));
      NodesAppend([open] + ItemNodes(items), [close]);
      NodesAppend([open], ItemNodes(items));
      OneNode(open);
      OneNode(close);
    case Object(members) =>
      PrintedMembers(members);
      OneNode(Group(MemberNodes(members)));
    case _ =>
      OneNode(Loose(Print(v)));
  }

  lemma {:induction false} PrintedItems(items: seq<Json>)
    requires forall w :: w in items ==> IsJson(w)
    ensures NodesText(ItemNodes(items)) == PrintItems(items) && AreNodes(ItemNodes(items))
    decreases items, 1
  {
    hide IsLoose, IsJson;
    if items != [] {
      Punctuation();
      PrintedNodes(items[0]);
      if |items| > 1 {
        PrintedItems(items[1..]);
        ThreeParts(NodeOf(items[0]), Ascii(","), ItemNodes(items[1..]));
      }
    }
  }

  lemma {:induction false} PrintedMembers(members: seq<Member>)
    requires forall m :: m in members ==> IsJson(m.value)
    ensures NodesText(MemberNodes(members)) == PrintMembers(members) && AreNodes(MemberNodes(members))
    decreases members, 1
  {
    hide IsLoose, IsJson, Stringify;
    if members != [] {
      Punctuation();
      var name, value := [StringNode(members[0].name)], NodeOf(members[0].value);
      StringNodeText(members[0].name);
      OneNode(StringNode(members[0].name));
      PrintedNodes(members[0].value);
      ThreeParts(name, Ascii(":"), value);
      if |members| > 1 {
        PrintedMembers(members[1..]);
        ThreeParts(name + [Loose(Ascii(":"))] + value, Ascii(","), MemberNodes(members[1..]));
      }
    }
  }

  /**
   * A printed object is dug out of any text whose prefix has no opening brace, whatever braces, quotes and
   * escapes its strings hold and whatever follows it, provided the whole text is not JSON itself.
   */
  lemma PrintedObjectIsFound<J>(prefix: Text, members: seq<Member>, suffix: Text, parse: Parser<J>)
    requires IsJson(Object(members)) && LBRACE !in prefix
    requires parse(prefix + Print(Object(members)) + suffix).None? && parse(Print(Object(members))).Some?
    ensures Extracted(prefix + Print(Object(members)) + suffix, parse) == parse(Print(Object(members)))
  {
    hide Extracted;
    PrintedMembers(members);
    var items := MemberNodes(members);
    assert NodeText(Group(items)) == Print(Object(members));
    assert IsNode(Group(items));
    GroupIsFound(prefix, items, suffix, parse);
  }
}
