/**
 * JSON string literals over UTF-16 text: `JSON.stringify` as section 25.5.2.3 of ECMA-262 prints a string,
 * and the reader of section 7 of RFC 8259. Gemini answers are cut every 400 units, so a surrogate
 * pair can be split; the printer escapes each lone half and the reader restores it.
 */
module JsonString {
  import opened Options
  import opened Sequences
  import opened Utf16

  const QUOTE: Unit := 0x22
  const BACKSLASH: Unit := 0x5C
  const LF: Unit := 0x0A

  predicate IsHigh(c: Unit) {
    0xD800 <= c < 0xDC00
  }

  predicate IsLow(c: Unit) {
    0xDC00 <= c < 0xE000
  }

  predicate StartsWithPair(s: Text) {
    |s| >= 2 && IsHigh(s[0]) && IsLow(s[1])
  }

  function HexDigit(n: nat): (c: Unit)
    requires n < 16
  {
    if n < 10 then 0x30 + n else 0x61 + n - 10
  }

  function HexValue(c: Unit): Option<nat> {
    if 0x30 <= c <= 0x39 then Some(c - 0x30)
    else if 0x61 <= c <= 0x66 then Some(c - 0x61 + 10)
    else if 0x41 <= c <= 0x46 then Some(c - 0x41 + 10)
    else None
  }

  function EscapeHex(c: Unit): Text {
    [BACKSLASH, 0x75, HexDigit(c / 0x1000), HexDigit(c / 0x100 % 0x10), HexDigit(c / 0x10 % 0x10), HexDigit(c % 0x10)]
  }

  function EscapeUnit(c: Unit): Text {
    if c == QUOTE || c == BACKSLASH then [BACKSLASH, c]
    else if c == 8 then [BACKSLASH, 0x62]
    else if c == 9 then [BACKSLASH, 0x74]
    else if c == 10 then [BACKSLASH, 0x6E]
    else if c == 12 then [BACKSLASH, 0x66]
    else if c == 13 then [BACKSLASH, 0x72]
    else if c < 0x20 || IsHigh(c) || IsLow(c) then EscapeHex(c)
    else [c]
  }

  function EscapeAll(s: Text): Text {
    if s == [] then []
    else if StartsWithPair(s) then s[..2] + EscapeAll(s[2..])
    else EscapeUnit(s[0]) + EscapeAll(s[1..])
  }

  /** `JSON.stringify(s)` for a string. */
  function Stringify(s: Text): Text {
    [QUOTE] + EscapeAll(s) + [QUOTE]
  }

  function SimpleEscape(c: Unit): Option<Unit> {
    if c == QUOTE || c == BACKSLASH || c == 0x2F then Some(c)
    else if c == 0x62 then Some(8)
    else if c == 0x66 then Some(12)
    else if c == 0x6E then Some(10)
    else if c == 0x72 then Some(13)
    else if c == 0x74 then Some(9)
    else None
  }

  function ReadHex(t: Text): Option<Unit>
    requires |t| >= 4
  {
    match (HexValue(t[0]), HexValue(t[1]), HexValue(t[2]), HexValue(t[3]))
    case (Some(a), Some(b), Some(c), Some(d)) =>
      var v := 0x1000 * a + 0x100 * b + 0x10 * c + d;
      if v < 0x1_0000 then Some(v) else None
    case _ => None
  }

  function Prepend(c: Unit, rest: Option<Text>): Option<Text> {
    if rest.Some? then Some([c] + rest.value) else None
  }

  /** Reads what follows an opening quote; the closing quote must be the last unit. */
  function Unescape(t: Text): Option<Text>
    decreases |t|
  {
    if t == [] then None
    else if t[0] == QUOTE then (if |t| == 1 then Some([]) else None)
    else if t[0] == BACKSLASH then
      if |t| >= 6 && t[1] == 0x75 then
        var c := ReadHex(t[2..6]);
        if c.Some? then Prepend(c.value, Unescape(t[6..])) else None
      else if |t| >= 2 && SimpleEscape(t[1]).Some? then Prepend(SimpleEscape(t[1]).value, Unescape(t[2..]))
      else None
    else if t[0] < 0x20 then None
    else Prepend(t[0], Unescape(t[1..]))
  }

  /** `JSON.parse` restricted to texts that are one string literal; `None` for every other text. */
  function ParseString(t: Text): Option<Text> {
    if t != [] && t[0] == QUOTE then Unescape(t[1..]) else None
  }

  lemma HexDigitRoundTrip(n: nat)
    requires n < 16
    ensures HexValue(HexDigit(n)) == Some(n)
  {
  }

  lemma HexDigits(c: nat)
    ensures c == 0x1000 * (c / 0x1000) + 0x100 * (c / 0x100 % 0x10) + 0x10 * (c / 0x10 % 0x10) + c % 0x10
  {
    assert c / 0x100 == 0x10 * (c / 0x1000) + c / 0x100 % 0x10;
    assert c / 0x10 == 0x10 * (c / 0x100) + c / 0x10 % 0x10;
  }

  lemma HexRoundTrip(c: Unit)
    ensures ReadHex(EscapeHex(c)[2..6]) == Some(c)
  {
    HexDigitRoundTrip(c / 0x1000);
    HexDigitRoundTrip(c / 0x100 % 0x10);
    HexDigitRoundTrip(c / 0x10 % 0x10);
    HexDigitRoundTrip(c % 0x10);
    HexDigits(c);
  }

  lemma UnescapeUnit(c: Unit, rest: Text)
    ensures Unescape(EscapeUnit(c) + rest) == Prepend(c, Unescape(rest))
  {
    var t := EscapeUnit(c) + rest;
    if |EscapeUnit(c)| == 6 {
      HexRoundTrip(c);
      assert t[2..6] == EscapeHex(c)[2..6];
      assert t[6..] == rest;
    } else if |EscapeUnit(c)| == 2 {
      assert t[2..] == rest;
    } else {
      assert t[1..] == rest;
    }
  }

  lemma UnescapePair(s: Text, rest: Text)
    requires |s| == 2 && StartsWithPair(s)
    ensures Unescape(s + rest) == Prepend(s[0], Prepend(s[1], Unescape(rest)))
  {
    assert (s + rest)[1..] == [s[1]] + rest;
    assert ([s[1]] + rest)[1..] == rest;
  }

  lemma {:induction false} UnescapeEscaped(s: Text)
    ensures Unescape(EscapeAll(s) + [QUOTE]) == Some(s)
  {
    if s != [] {
      hide EscapeUnit, Unescape;
      var n := if StartsWithPair(s) then 2 else 1;
      var head := if n == 2 then s[..2] else EscapeUnit(s[0]);
      UnescapeEscaped(s[n..]);
      SeqAssoc(head, EscapeAll(s[n..]), [QUOTE]);
      if n == 2 {
        UnescapePair(head, EscapeAll(s[2..]) + [QUOTE]);
        assert [s[0]] + ([s[1]] + s[2..]) == s;
      } else {
        UnescapeUnit(s[0], EscapeAll(s[1..]) + [QUOTE]);
        assert [s[0]] + s[1..] == s;
      }
    }
  }

  /** Every string survives printing and reading: quotes, backslashes, newlines, lone surrogates and all. */
  lemma StringRoundTrip(s: Text)
    ensures ParseString(Stringify(s)) == Some(s)
  {
    UnescapeEscaped(s);
    assert Stringify(s)[1..] == EscapeAll(s) + [QUOTE];
  }

  lemma {:induction false} EscapedHasNoControl(s: Text)
    ensures forall c :: c in EscapeAll(s) ==> c >= 0x20
  {
    if s == [] {
    } else if StartsWithPair(s) {
      EscapedHasNoControl(s[2..]);
    } else {
      EscapedHasNoControl(s[1..]);
    }
  }

  /** Text whose surrogates all come in pairs, that is, text with a UTF-8 form. */
  predicate IsWellFormed(s: Text) {
    if s == [] then true
    else if StartsWithPair(s) then IsWellFormed(s[2..])
    else !IsHigh(s[0]) && !IsLow(s[0]) && IsWellFormed(s[1..])
  }

  lemma {:induction false} WellFormedAppend(a: Text, b: Text)
    requires IsWellFormed(a) && IsWellFormed(b)
    ensures IsWellFormed(a + b)
  {
    if a == [] {
      assert a + b == b;
    } else if StartsWithPair(a) {
      WellFormedAppend(a[2..], b);
      assert (a + b)[2..] == a[2..] + b;
    } else {
      WellFormedAppend(a[1..], b);
      assert (a + b)[1..] == a[1..] + b;
    }
  }

  lemma {:induction false} PlainPrefixWellFormed(p: Text, s: Text)
    requires forall c :: c in p ==> !IsHigh(c) && !IsLow(c)
    requires IsWellFormed(s)
    ensures IsWellFormed(p + s)
  {
    if p == [] {
      assert p + s == s;
    } else {
      PlainPrefixWellFormed(p[1..], s);
      assert (p + s)[1..] == p[1..] + s;
    }
  }

  lemma EscapeUnitPlain(c: Unit)
    ensures forall e :: e in EscapeUnit(c) ==> !IsHigh(e) && !IsLow(e)
  {
  }

  lemma {:induction false} EscapedWellFormed(s: Text)
    ensures IsWellFormed(EscapeAll(s))
  {
    hide EscapeUnit;
    if s != [] {
      if StartsWithPair(s) {
        EscapedWellFormed(s[2..]);
        assert s[..2][2..] == [] && IsWellFormed(s[..2]);
        WellFormedAppend(s[..2], EscapeAll(s[2..]));
      } else {
        EscapedWellFormed(s[1..]);
        EscapeUnitPlain(s[0]);
        PlainPrefixWellFormed(EscapeUnit(s[0]), EscapeAll(s[1..]));
      }
    }
  }

  /** A printed string never holds a lone surrogate, even when the string does, so UTF-8 carries it unchanged. */
  lemma PrintedWellFormed(s: Text)
    ensures IsWellFormed(Stringify(s))
  {
    assert IsWellFormed([QUOTE]) by { assert [QUOTE][1..] == []; }
    EscapedWellFormed(s);
    WellFormedAppend(EscapeAll(s), [QUOTE]);
    PlainPrefixWellFormed([QUOTE], EscapeAll(s) + [QUOTE]);
    assert Stringify(s) == [QUOTE] + (EscapeAll(s) + [QUOTE]);
  }

  // How each escape is read

  /** The value a single-letter escape stands for (section 7 of RFC 8259). */
  predicate IsEscapeOf(letter: Unit, value: Unit) {
    || (letter == 0x22 && value == 0x22) || (letter == 0x5C && value == 0x5C) || (letter == 0x2F && value == 0x2F)
    || (letter == 0x62 && value == 0x08) || (letter == 0x66 && value == 0x0C) || (letter == 0x6E && value == 0x0A)
    || (letter == 0x72 && value == 0x0D) || (letter == 0x74 && value == 0x09)
  }

  /** The value of a hexadecimal digit in either case. */
  predicate IsHexOf(digit: Unit, value: nat) {
    || (0x30 <= digit <= 0x39 && value == digit - 0x30)
    || (0x41 <= digit <= 0x46 && value == digit - 0x41 + 10)
    || (0x61 <= digit <= 0x66 && value == digit - 0x61 + 10)
  }

  /** A literal is read unit by unit: escapes as their values, other units as themselves, control units not at all. */
  lemma LiteralsRead(c: Unit, v: Unit, t: Text)
    ensures IsEscapeOf(c, v) && Unescape(t).Some? ==> Unescape([BACKSLASH, c] + t) == Some([v] + Unescape(t).value)
    ensures c >= 0x20 && c != QUOTE && c != BACKSLASH && Unescape(t).Some? ==>
              Unescape([c] + t) == Some([c] + Unescape(t).value)
    ensures c < 0x20 ==> Unescape([c] + t).None?
    ensures Unescape([QUOTE]) == Some([]) && (t != [] ==> Unescape([QUOTE] + t).None?)
    ensures c != 0x75 && (forall x :: !IsEscapeOf(c, x)) ==> Unescape([BACKSLASH, c] + t).None?
  {
    assert ([BACKSLASH, c] + t)[2..] == t && ([c] + t)[1..] == t;
    assert SimpleEscape(c).Some? ==> IsEscapeOf(c, SimpleEscape(c).value);
  }

  lemma HexRead(a: Unit, b: Unit, c: Unit, d: Unit, p: nat, q: nat, r: nat, s: nat, t: Text)
    requires IsHexOf(a, p) && IsHexOf(b, q) && IsHexOf(c, r) && IsHexOf(d, s) && Unescape(t).Some?
    ensures Unescape([BACKSLASH, 0x75, a, b, c, d] + t)
         == Some([0x1000 * p + 0x100 * q + 0x10 * r + s] + Unescape(t).value)
  {
    var all := [BACKSLASH, 0x75, a, b, c, d] + t;
    assert all[6..] == t;
    assert all[2..6] == [a, b, c, d];
    FourHex(a, b, c, d, p, q, r, s);
    hide ReadHex, IsHexOf;
  }

  lemma FourHex(a: Unit, b: Unit, c: Unit, d: Unit, p: nat, q: nat, r: nat, s: nat)
    requires IsHexOf(a, p) && IsHexOf(b, q) && IsHexOf(c, r) && IsHexOf(d, s)
    ensures 0x1000 * p + 0x100 * q + 0x10 * r + s < 0x1_0000
    ensures ReadHex([a, b, c, d]) == Some(0x1000 * p + 0x100 * q + 0x10 * r + s)
  {
    assert HexValue(a) == Some(p) && HexValue(b) == Some(q) && HexValue(c) == Some(r) && HexValue(d) == Some(s);
  }

  /** A unit that has a short escape is printed by it; other control units and lone surrogates by lower-case digits. */
  lemma EscapesPrinted(c: Unit, e: Unit)
    ensures IsEscapeOf(e, c) && e != 0x2F ==> EscapeUnit(c) == [BACKSLASH, e]
    ensures |EscapeUnit(c)| > 2 ==>
              && EscapeUnit(c)[..2] == [BACKSLASH, 0x75] && (c < 0x20 || IsHigh(c) || IsLow(c))
              && forall d :: d in EscapeUnit(c)[2..] ==> 0x30 <= d <= 0x39 || 0x61 <= d <= 0x66
  {
  }

  lemma PlainUnit(c: Unit)
    requires c >= 0x20 && c != QUOTE && c != BACKSLASH && !IsHigh(c) && !IsLow(c)
    ensures EscapeUnit(c) == [c]
  {
  }

  /** Text without quotes, backslashes, control units and surrogates is printed as it is. */
  lemma {:induction false} PlainPrints(s: Text)
    requires forall c :: c in s ==> c >= 0x20 && c != QUOTE && c != BACKSLASH && !IsHigh(c) && !IsLow(c)
    ensures EscapeAll(s) == s
  {
    if s != [] {
      assert s[0] in s && forall c :: c in s[1..] ==> c in s;
      PlainUnit(s[0]);
      hide EscapeUnit;
      PlainPrints(s[1..]);
      assert !StartsWithPair(s);
      assert s == [s[0]] + s[1..];
    }
  }
}
