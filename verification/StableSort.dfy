/** The stable sort that JavaScript's `Array.prototype.sort` (section 23.1.3.30 of ECMA-262) performs. */
module StableSort {
  import opened Sequences

  /** `le(a, b)`: `a` may stand before `b`, that is, the comparator does not return a positive number. */
  ghost predicate TotalPreorder<T(!new)>(le: (T, T) -> bool) {
    && (forall a, b :: le(a, b) || le(b, a))
    && (forall a, b, c :: le(a, b) && le(b, c) ==> le(a, c))
  }

  ghost predicate Sorted<T>(s: seq<T>, le: (T, T) -> bool) {
    forall i, j :: 0 <= i < j < |s| ==> le(s[i], s[j])
  }

  function Insert<T>(x: T, s: seq<T>, le: (T, T) -> bool): seq<T> {
    if s == [] || le(x, s[0]) then [x] + s else [s[0]] + Insert(x, s[1..], le)
  }

  function Sort<T>(s: seq<T>, le: (T, T) -> bool): seq<T> {
    if s == [] then [] else Insert(s[0], Sort(s[1..], le), le)
  }

  lemma {:induction false} InsertMultiset<T>(x: T, s: seq<T>, le: (T, T) -> bool)
    ensures multiset(Insert(x, s, le)) == multiset{x} + multiset(s)
  {
    if s == [] || le(x, s[0]) {
    } else {
      InsertMultiset(x, s[1..], le);
      assert s == [s[0]] + s[1..];
    }
  }

  lemma {:induction false} InsertSorted<T(!new)>(x: T, s: seq<T>, le: (T, T) -> bool)
    requires TotalPreorder(le) && Sorted(s, le)
    ensures Sorted(Insert(x, s, le), le)
  {
    if s == [] || le(x, s[0]) {
      forall j | 0 <= j < |s| ensures le(x, s[j]) {
        assert s != [] && (j == 0 || le(s[0], s[j]));
      }
    } else {
      InsertSorted(x, s[1..], le);
      InsertMultiset(x, s[1..], le);
      var r := Insert(x, s[1..], le);
      forall j | 0 <= j < |r| ensures le(s[0], r[j]) {
        assert r[j] in multiset(r);
        if r[j] != x {
          assert r[j] in s[1..];
        }
      }
    }
  }

  /** Sorting orders the sequence and neither loses nor repeats an element. */
  lemma {:induction false} SortCorrect<T(!new)>(s: seq<T>, le: (T, T) -> bool)
    requires TotalPreorder(le)
    ensures Sorted(Sort(s, le), le)
    ensures multiset(Sort(s, le)) == multiset(s)
    ensures |Sort(s, le)| == |s|
  {
    if s != [] {
      SortCorrect(s[1..], le);
      InsertSorted(s[0], Sort(s[1..], le), le);
      InsertMultiset(s[0], Sort(s[1..], le), le);
      assert s == [s[0]] + s[1..];
      assert |Insert(s[0], Sort(s[1..], le), le)| == |multiset(Insert(s[0], Sort(s[1..], le), le))|;
    }
  }

  lemma {:induction false} InsertStable<T(!new)>(x: T, s: seq<T>, le: (T, T) -> bool, keep: T -> bool)
    requires TotalPreorder(le) && Sorted(s, le)
    requires forall a, b :: keep(a) && keep(b) ==> le(a, b)
    ensures Filter(keep, Insert(x, s, le)) == Filter(keep, [x] + s)
  {
    if s == [] || le(x, s[0]) {
    } else {
      InsertStable(x, s[1..], le, keep);
      var r := Insert(x, s[1..], le);
      assert ([s[0]] + r)[1..] == r;
      assert ([x] + s)[1..] == s && ([x] + s[1..])[1..] == s[1..];
      assert !(keep(x) && keep(s[0]));
    }
  }

  /** Elements that tie keep their original order. */
  lemma {:induction false} SortStable<T(!new)>(s: seq<T>, le: (T, T) -> bool, keep: T -> bool)
    requires TotalPreorder(le)
    requires forall a, b :: keep(a) && keep(b) ==> le(a, b)
    ensures Filter(keep, Sort(s, le)) == Filter(keep, s)
  {
    if s != [] {
      var rest := Sort(s[1..], le);
      SortStable(s[1..], le, keep);
      SortCorrect(s[1..], le);
      InsertStable(s[0], rest, le, keep);
      assert ([s[0]] + rest)[1..] == rest;
    }
  }
}
