/** Sequence vocabulary shared by the models: concatenation of pieces and JavaScript's `String.split`. */
module Sequences {

  function Concat<T>(pieces: seq<seq<T>>): seq<T> {
    if pieces == [] then [] else pieces[0] + Concat(pieces[1..])
  }

  lemma {:induction false} ConcatAppend<T>(a: seq<seq<T>>, b: seq<seq<T>>)
    ensures Concat(a + b) == Concat(a) + Concat(b)
  {
    if a == [] {
      assert a + b == b;
    } else {
      ConcatAppend(a[1..], b);
      assert (a + b)[1..] == a[1..] + b;
      SeqAssoc(a[0], Concat(a[1..]), Concat(b));
    }
  }

  lemma SeqAssoc<T>(a: seq<T>, b: seq<T>, c: seq<T>)
    ensures a + (b + c) == a + b + c
  {
  }

  lemma ConcatOne<T>(piece: seq<T>)
    ensures Concat([piece]) == piece
  {
    assert [piece][1..] == [];
  }

  function Last<T>(s: seq<T>): T
    requires s != []
  {
    s[|s| - 1]
  }

  function Init<T>(s: seq<T>): seq<T>
    requires s != []
  {
    s[..|s| - 1]
  }

  function Filter<T>(keep: T -> bool, s: seq<T>): (r: seq<T>)
    ensures |r| <= |s|
    ensures forall i :: 0 <= i < |r| ==> r[i] in s && keep(r[i])
  {
    if s == [] then []
    else if keep(s[0]) then [s[0]] + Filter(keep, s[1..])
    else Filter(keep, s[1..])
  }

  function Reversed<T>(s: seq<T>): (r: seq<T>)
    ensures |r| == |s|
    ensures forall i :: 0 <= i < |s| ==> r[i] == s[|s| - 1 - i]
  {
    if s == [] then [] else Reversed(s[1..]) + [s[0]]
  }

  /** The sequence without its k-th element. */
  function Without<T>(s: seq<T>, k: nat): seq<T>
    requires k < |s|
  {
    s[..k] + s[k + 1..]
  }

  ghost predicate NoRepeats<T>(s: seq<T>) {
    forall i, j :: 0 <= i < j < |s| ==> s[i] != s[j]
  }

  /** Sequences without repeats and with the same elements are permutations of each other. */
  lemma DistinctMultiset<T>(a: seq<T>, b: seq<T>)
    requires NoRepeats(a) && NoRepeats(b)
    requires forall x :: x in a <==> x in b
    ensures multiset(a) == multiset(b)
  {
    forall x ensures multiset(a)[x] == multiset(b)[x] {
      OnceOrNever(a, x);
      OnceOrNever(b, x);
    }
  }

  lemma {:induction false} OnceOrNever<T>(s: seq<T>, x: T)
    requires NoRepeats(s)
    ensures multiset(s)[x] == if x in s then 1 else 0
  {
    if s != [] {
      OnceOrNever(s[1..], x);
      assert s == [s[0]] + s[1..];
    }
  }

  predicate OccursAt<T(==)>(s: seq<T>, d: seq<T>, i: int) {
    0 <= i && i + |d| <= |s| && s[i..i + |d|] == d
  }

  /** Position of the first occurrence of `d` in `s`, or `|s|` when there is none. */
  function Find<T(==)>(s: seq<T>, d: seq<T>): (i: nat)
    requires d != []
    ensures i <= |s|
    ensures i < |s| ==> OccursAt(s, d, i)
    ensures forall j :: 0 <= j < i ==> !OccursAt(s, d, j)
  {
    if |s| < |d| then |s|
    else if OccursAt(s, d, 0) then 0
    else
      OccursLater(s, d);
      1 + Find(s[1..], d)
  }

  lemma OccursLater<T>(s: seq<T>, d: seq<T>)
    requires s != []
    ensures forall j :: 0 < j ==> (OccursAt(s, d, j) <==> OccursAt(s[1..], d, j - 1))
    ensures forall j :: 0 <= j ==> (OccursAt(s[1..], d, j) <==> OccursAt(s, d, j + 1))
  {
    forall j | 0 < j ensures OccursAt(s, d, j) <==> OccursAt(s[1..], d, j - 1) {
      if j + |d| <= |s| {
        assert s[1..][j - 1..j - 1 + |d|] == s[j..j + |d|];
      }
    }
    forall j | 0 <= j ensures OccursAt(s[1..], d, j) <==> OccursAt(s, d, j + 1) {
      assert OccursAt(s, d, j + 1) <==> OccursAt(s[1..], d, j + 1 - 1);
    }
  }

  /** JavaScript's `s.split(d)`: cut at the leftmost, non-overlapping occurrences of `d`. */
  function Split<T(==)>(s: seq<T>, d: seq<T>): (parts: seq<seq<T>>)
    requires d != []
    ensures parts != []
    decreases |s|
  {
    var i := Find(s, d);
    if i == |s| then [s] else [s[..i]] + Split(s[i + |d|..], d)
  }

  /** JavaScript's `parts.join(d)`. */
  function Join<T>(parts: seq<seq<T>>, d: seq<T>): seq<T> {
    if parts == [] then []
    else if |parts| == 1 then parts[0]
    else parts[0] + d + Join(parts[1..], d)
  }

  lemma {:induction false} JoinSplit<T>(s: seq<T>, d: seq<T>)
    requires d != []
    ensures Join(Split(s, d), d) == s
    decreases |s|
  {
    var i := Find(s, d);
    if i < |s| {
      JoinSplit(s[i + |d|..], d);
      assert Split(s, d)[1..] == Split(s[i + |d|..], d);
      assert s == s[..i] + s[i..i + |d|] + s[i + |d|..];
    }
  }

  lemma SplitFound<T>(s: seq<T>, d: seq<T>)
    requires d != [] && Find(s, d) < |s|
    ensures OccursAt(s, d, Find(s, d))
    ensures Split(s, d) == [s[..Find(s, d)]] + Split(s[Find(s, d) + |d|..], d)
  {
  }

  lemma SplitNone<T>(s: seq<T>, d: seq<T>)
    requires d != [] && Find(s, d) == |s|
    ensures Split(s, d) == [s]
  {
  }

  /** Text that arrives later only ever extends the last, unfinished part. */
  lemma {:induction false} SplitAppend<T>(a: seq<T>, b: seq<T>, d: seq<T>)
    requires d != []
    ensures Split(a + b, d) == Init(Split(a, d)) + Split(Last(Split(a, d)) + b, d)
    decreases |a|
  {
    hide Split, Find, OccursAt;
    var i := Find(a, d);
    if i == |a| {
      SplitNone(a, d);
      assert Init([a]) == [] && Last([a]) == a;
    } else {
      hide Init, Last;
      SplitFound(a, d);
      SplitFoundBefore(a, b, d);
      var rest := a[i + |d|..];
      SplitAppend(rest, b, d);
      InitLastCons(a[..i], Split(rest, d), Split(Last(Split(rest, d)) + b, d));
    }
  }

  lemma SplitFoundBefore<T>(a: seq<T>, b: seq<T>, d: seq<T>)
    requires d != [] && Find(a, d) < |a|
    ensures Find(a, d) + |d| <= |a|
    ensures Split(a + b, d) == [a[..Find(a, d)]] + Split(a[Find(a, d) + |d|..] + b, d)
  {
    hide Split, Find;
    var i := Find(a, d);
    FindInAppend(a, b, d);
    SplitFound(a, d);
    SplitFound(a + b, d);
    assert (a + b)[..i] == a[..i];
    assert (a + b)[i + |d|..] == a[i + |d|..] + b;
  }

  lemma InitLastCons<A>(x: A, tail: seq<A>, more: seq<A>)
    requires tail != []
    ensures Init([x] + tail) == [x] + Init(tail)
    ensures Last([x] + tail) == Last(tail)
    ensures [x] + (Init(tail) + more) == Init([x] + tail) + more
  {
  }

  lemma FindInAppend<T>(a: seq<T>, b: seq<T>, d: seq<T>)
    requires d != [] && Find(a, d) < |a|
    ensures Find(a + b, d) == Find(a, d)
  {
    var i, k := Find(a, d), Find(a + b, d);
    assert (a + b)[i..i + |d|] == a[i..i + |d|];
    assert OccursAt(a + b, d, i);
    if k < i {
      assert a[k..k + |d|] == (a + b)[k..k + |d|];
      assert OccursAt(a, d, k);
    }
  }
}
