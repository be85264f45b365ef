/** JavaScript text: sequences of UTF-16 code units, white space and `String.trim`. */
module Utf16 {

  type Unit = c: int | 0 <= c < 0x1_0000

  type Text = seq<Unit>

  /** A literal of the source, written as text. */
  function Ascii(s: string): (r: Text)
    requires forall i :: 0 <= i < |s| ==> s[i] < '\U{0080}'
    ensures |r| == |s|
  {
    seq(|s|, i requires 0 <= i < |s| => s[i] as int)
  }

  /** White space as `trim` and `\s` understand it (sections 12.2 and 12.3 of ECMA-262). */
  predicate IsSpace(c: Unit) {
    9 <= c <= 13 || c == 0x20 || c == 0xA0 || c == 0x1680 || 0x2000 <= c <= 0x200A
    || c == 0x2028 || c == 0x2029 || c == 0x202F || c == 0x205F || c == 0x3000 || c == 0xFEFF
  }

  /** The letters of ASCII lowered. */
  function LowerAscii(s: Text): (r: Text)
    ensures |r| == |s|
    ensures forall i :: 0 <= i < |s| ==>
                          r[i] == if 'A' as int <= s[i] <= 'Z' as int then s[i] + 32 else s[i]
  {
    if s == [] then [] else [if 'A' as int <= s[0] <= 'Z' as int then s[0] + 32 else s[0]] + LowerAscii(s[1..])
  }

  function TrimStart(s: Text): Text {
    if s != [] && IsSpace(s[0]) then TrimStart(s[1..]) else s
  }

  function TrimEnd(s: Text): Text {
    if s != [] && IsSpace(s[|s| - 1]) then TrimEnd(s[..|s| - 1]) else s
  }

  function Trim(s: Text): Text {
    TrimEnd(TrimStart(s))
  }

  predicate IsTrimmed(s: Text) {
    s == [] || (!IsSpace(s[0]) && !IsSpace(s[|s| - 1]))
  }

  lemma {:induction false} TrimEndKeepsFirst(s: Text)
    requires s != [] && !IsSpace(s[0])
    ensures TrimEnd(s) != [] && TrimEnd(s)[0] == s[0] && !IsSpace(TrimEnd(s)[|TrimEnd(s)| - 1])
  {
    if IsSpace(s[|s| - 1]) {
      TrimEndKeepsFirst(s[..|s| - 1]);
    }
  }

  lemma {:induction false} TrimStartStops(s: Text)
    ensures TrimStart(s) == [] || !IsSpace(TrimStart(s)[0])
    ensures exists k :: 0 <= k <= |s| && TrimStart(s) == s[k..]
  {
    if s != [] && IsSpace(s[0]) {
      TrimStartStops(s[1..]);
      var k :| 0 <= k <= |s[1..]| && TrimStart(s[1..]) == s[1..][k..];
      assert s[1..][k..] == s[k + 1..];
    } else {
      assert s == s[0..];
    }
  }

  /** Trimming reaches a fixed point, and trimmed text is its own trim. */
  lemma TrimNormal(s: Text)
    ensures IsTrimmed(Trim(s))
    ensures IsTrimmed(s) ==> Trim(s) == s
  {
    TrimStartStops(s);
    if TrimStart(s) != [] {
      TrimEndKeepsFirst(TrimStart(s));
    }
  }

  predicate AllSpaces(s: Text) {
    forall i :: 0 <= i < |s| ==> IsSpace(s[i])
  }

  lemma {:induction false} TrimStartSplits(s: Text) returns (pre: Text)
    ensures s == pre + TrimStart(s) && AllSpaces(pre)
  {
    if s != [] && IsSpace(s[0]) {
      var p := TrimStartSplits(s[1..]);
      pre := [s[0]] + p;
    } else {
      pre := [];
    }
  }

  lemma {:induction false} TrimEndSplits(s: Text) returns (post: Text)
    ensures s == TrimEnd(s) + post && AllSpaces(post)
  {
    if s != [] && IsSpace(s[|s| - 1]) {
      var p := TrimEndSplits(s[..|s| - 1]);
      post := p + [s[|s| - 1]];
    } else {
      post := [];
    }
  }

  /** Trimming takes away white space at both ends and nothing else. */
  lemma TrimSplits(s: Text) returns (pre: Text, post: Text)
    ensures s == pre + Trim(s) + post && AllSpaces(pre) && AllSpaces(post)
  {
    pre := TrimStartSplits(s);
    post := TrimEndSplits(TrimStart(s));
  }

  lemma {:induction false} TrimStartPadded(pre: Text, s: Text)
    requires AllSpaces(pre)
    ensures TrimStart(pre + s) == TrimStart(s)
  {
    if pre == [] {
      assert pre + s == s;
    } else {
      TrimStartPadded(pre[1..], s);
      assert (pre + s)[1..] == pre[1..] + s;
    }
  }

  lemma {:induction false} TrimEndPadded(s: Text, post: Text)
    requires AllSpaces(post)
    ensures TrimEnd(s + post) == TrimEnd(s)
  {
    if post == [] {
      assert s + post == s;
    } else {
      var shorter := post[..|post| - 1];
      TrimEndPadded(s, shorter);
      assert (s + post)[..|s + post| - 1] == s + shorter;
    }
  }

  /** White space around a text without any at its ends is exactly what trimming takes away. */
  lemma TrimPadded(pre: Text, s: Text, post: Text)
    requires AllSpaces(pre) && AllSpaces(post) && s != [] && IsTrimmed(s)
    ensures Trim(pre + s + post) == s
  {
    assert pre + s + post == pre + (s + post);
    TrimStartPadded(pre, s + post);
    assert TrimStart(s + post) == s + post;
    TrimEndPadded(s, post);
  }
}
