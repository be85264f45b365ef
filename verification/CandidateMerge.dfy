/**
 * The first half of hybrid retrieval (src/services/hybrid-search.service.ts): the rows of many vector
 * and text queries are merged by chunk key, each chunk keeping its best score of either kind.
 * Scores are reals; the rows of each database query are given.
 */
module CandidateMerge {
  import opened Decimals
  import opened Options
  import opened Sequences

  /** A row of a vector or text query; a score that is not a number counts as zero. */
  datatype Hit = Hit(
    postId: string, postTitle: string, postChunk: string, chunkIndex: Option<nat>,
    rawScore: Option<real>, postCreatedAt: Option<string>)
  {
    function Score(): real {
      rawScore.GetOr(0.0)
    }
  }

  datatype Candidate = Candidate(
    postId: string, postTitle: string, postChunk: string, chunkIndex: Option<nat>,
    vecScore: Option<real>, textScore: Option<real>, postCreatedAt: Option<string>)
  {
    function Vec(): real {
      vecScore.GetOr(0.0)
    }

    function Text(): real {
      textScore.GetOr(0.0)
    }
  }

  // Keys

  function Key(h: Hit): string {
    h.postId + ":" + match h.chunkIndex { case Some(i) => Decimal(i) case None => h.postChunk }
  }

  /**
   * When rows carry a chunk index, as every row of a user-scoped search does, two rows are merged
   * if and only if they are the same chunk of the same post, whatever the post ids look like.
   */
  lemma KeysAreChunks(a: Hit, b: Hit)
    requires a.chunkIndex.Some? && b.chunkIndex.Some?
    ensures Key(a) == Key(b) <==> a.postId == b.postId && a.chunkIndex == b.chunkIndex
  {
    if Key(a) == Key(b) {
      var da, db := Decimal(a.chunkIndex.value), Decimal(b.chunkIndex.value);
      LastColon(a.postId, da, b.postId, db);
      DecimalInjective(a.chunkIndex.value, b.chunkIndex.value);
    }
  }

  /** Without an index, as in global searches, rows are merged by text. */
  lemma KeysAreTexts(a: Hit, b: Hit)
    requires a.chunkIndex.None? && b.chunkIndex.None? && ':' !in a.postId && ':' !in b.postId
    ensures Key(a) == Key(b) <==> a.postId == b.postId && a.postChunk == b.postChunk
  {
    if Key(a) == Key(b) {
      FirstColon(a.postId, a.postChunk, b.postId, b.postChunk);
    }
  }

  lemma FirstColon(p: string, a: string, q: string, b: string)
    requires ':' !in p && ':' !in q
    requires p + ":" + a == q + ":" + b
    ensures p == q && a == b
  {
    var s, t := p + ":" + a, q + ":" + b;
    assert s[|p|] == ':' && t[|q|] == ':';
    assert forall i :: 0 <= i < |p| ==> s[i] == p[i];
    assert forall i :: 0 <= i < |q| ==> t[i] == q[i];
    assert |p| == |q|;
    assert p == s[..|p|] && q == t[..|q|];
    assert a == s[|p| + 1..] && b == t[|q| + 1..];
  }

  lemma LastColon(p: string, a: string, q: string, b: string)
    requires ':' !in a && ':' !in b
    requires p + ":" + a == q + ":" + b
    ensures p == q && a == b
  {
    var s, t := p + ":" + a, q + ":" + b;
    assert s[|p|] == ':' && t[|q|] == ':';
    assert forall i :: |p| < i < |s| ==> s[i] == a[i - |p| - 1];
    assert forall i :: |q| < i < |t| ==> t[i] == b[i - |q| - 1];
    assert |p| == |q|;
    assert p == s[..|p|] && q == t[..|q|];
    assert a == s[|p| + 1..] && b == t[|q| + 1..];
  }

  // Merging

  ghost predicate IsHit(k: string, hits: seq<Hit>) {
    exists h :: h in hits && Key(h) == k
  }

  ghost predicate Attained(m: real, k: string, hits: seq<Hit>) {
    exists h :: h in hits && Key(h) == k && h.Score() == m
  }

  ghost predicate Bounds(m: real, k: string, hits: seq<Hit>) {
    forall h :: h in hits && Key(h) == k ==> h.Score() <= m
  }

  /** The merged scores of the candidate with key `k`: the maximum over all hits with that key. */
  ghost predicate MergedScores(c: Candidate, k: string, vecHits: seq<Hit>, textHits: seq<Hit>) {
    && (c.vecScore.Some? <==> IsHit(k, vecHits))
    && (c.vecScore.Some? ==> Bounds(c.vecScore.value, k, vecHits) && Attained(c.vecScore.value, k, vecHits))
    && (c.textScore.Some? <==> IsHit(k, textHits))
    && (c.textScore.Some? ==>
          && Bounds(c.textScore.value, k, textHits)
          && (IsHit(k, vecHits) ==> c.textScore.value >= 0.0)
          && (Attained(c.textScore.value, k, textHits) || (IsHit(k, vecHits) && c.textScore.value == 0.0)))
  }

  /** Title, text and date come from the first hit seen. */
  predicate DescribedBy(c: Candidate, k: string, hits: seq<Hit>) {
    if hits == [] then false
    else if Key(hits[0]) == k then
      var h := hits[0];
      && c.postId == h.postId && c.postTitle == h.postTitle && c.postChunk == h.postChunk
      && c.chunkIndex == h.chunkIndex && c.postCreatedAt == h.postCreatedAt
    else DescribedBy(c, k, hits[1..])
  }

  /** Keys in the order in which they were first seen, each once. */
  function FirstSeen(hits: seq<Hit>): seq<string> {
    if hits == [] then []
    else
      var before := FirstSeen(Init(hits));
      if Key(Last(hits)) in before then before else before + [Key(Last(hits))]
  }

  lemma {:induction false} FirstSeenKeys(hits: seq<Hit>)
    ensures forall k :: k in FirstSeen(hits) <==> IsHit(k, hits)
    ensures forall i, j :: 0 <= i < j < |FirstSeen(hits)| ==> FirstSeen(hits)[i] != FirstSeen(hits)[j]
  {
    if hits != [] {
      var init, last := Init(hits), Last(hits);
      FirstSeenKeys(init);
      assert hits == init + [last];
      forall k ensures IsHit(k, hits) <==> IsHit(k, init) || k == Key(last) {
        if IsHit(k, init) {
          var h :| h in init && Key(h) == k;
          assert h in hits;
        }
        assert last in hits;
      }
    }
  }

  lemma {:induction false} DescribedByMore(c: Candidate, k: string, hits: seq<Hit>, h: Hit)
    ensures DescribedBy(c, k, hits) ==> DescribedBy(c, k, hits + [h])
    ensures !IsHit(k, hits) ==> DescribedBy(c, k, hits + [h]) == DescribedBy(c, k, [h])
  {
    if hits == [] {
      assert hits + [h] == [h];
    } else {
      assert (hits + [h])[1..] == hits[1..] + [h];
      DescribedByMore(c, k, hits[1..], h);
      assert hits[0] in hits;
      assert forall g :: g in hits[1..] ==> g in hits;
    }
  }

  lemma HitMore(k: string, hits: seq<Hit>, h: Hit)
    ensures IsHit(k, hits + [h]) <==> IsHit(k, hits) || Key(h) == k
    ensures forall m :: Bounds(m, k, hits + [h]) <==> Bounds(m, k, hits) && (Key(h) == k ==> h.Score() <= m)
    ensures forall m :: Attained(m, k, hits + [h]) <==> Attained(m, k, hits) || (Key(h) == k && h.Score() == m)
  {
    var more := hits + [h];
    assert forall g :: g in more <==> g in hits || g == h;
    if IsHit(k, hits) {
      var g :| g in hits && Key(g) == k;
      assert g in more;
    }
    assert h in more;
    forall m | Attained(m, k, hits) ensures Attained(m, k, more) {
      var g :| g in hits && Key(g) == k && g.Score() == m;
      assert g in more;
    }
  }

  lemma NoHitNoScore(k: string, hits: seq<Hit>)
    requires !IsHit(k, hits)
    ensures forall m :: Bounds(m, k, hits) && !Attained(m, k, hits)
  {
  }

  function Max(a: real, b: real): real {
    if a >= b then a else b
  }

  function Min(a: real, b: real): real {
    if a <= b then a else b
  }

  /** The candidate after one more vector hit, and after one more text hit, with its key. */
  function WithVector(prev: Option<Candidate>, h: Hit): Candidate {
    match prev
    case None => Candidate(h.postId, h.postTitle, h.postChunk, h.chunkIndex, Some(h.Score()), None, h.postCreatedAt)
    case Some(c) => c.(vecScore := Some(Max(c.Vec(), h.Score())))
  }

  function WithText(prev: Option<Candidate>, h: Hit): Candidate {
    match prev
    case None => Candidate(h.postId, h.postTitle, h.postChunk, h.chunkIndex, None, Some(h.Score()), h.postCreatedAt)
    case Some(c) => c.(textScore := Some(Max(c.Text(), h.Score())))
  }

  ghost predicate IsMerged(c: Option<Candidate>, k: string, vecHits: seq<Hit>, textHits: seq<Hit>) {
    && (c.Some? <==> IsHit(k, vecHits + textHits))
    && (c.Some? ==> MergedScores(c.value, k, vecHits, textHits) && DescribedBy(c.value, k, vecHits + textHits))
  }

  lemma HitEither(k: string, a: seq<Hit>, b: seq<Hit>)
    ensures IsHit(k, a + b) <==> IsHit(k, a) || IsHit(k, b)
  {
    assert forall h :: h in a + b <==> h in a || h in b;
    if IsHit(k, a) {
      var h :| h in a && Key(h) == k;
      assert h in a + b;
    }
    if IsHit(k, b) {
      var h :| h in b && Key(h) == k;
      assert h in a + b;
    }
  }

  lemma VectorStep(c: Option<Candidate>, k: string, vecHits: seq<Hit>, h: Hit)
    requires IsMerged(c, k, vecHits, [])
    ensures IsMerged(if Key(h) == k then Some(WithVector(c, h)) else c, k, vecHits + [h], [])
  {
    assert vecHits + [] == vecHits && (vecHits + [h]) + [] == vecHits + [h];
    HitMore(k, vecHits, h);
    if c.Some? {
      DescribedByMore(c.value, k, vecHits, h);
      SameDescription(c.value, WithVector(c, h), k, vecHits + [h]);
    } else {
      NoHitNoScore(k, vecHits);
      DescribedByMore(WithVector(c, h), k, vecHits, h);
    }
  }

  lemma TextStep(c: Option<Candidate>, k: string, vecHits: seq<Hit>, textHits: seq<Hit>, h: Hit)
    requires IsMerged(c, k, vecHits, textHits)
    ensures IsMerged(if Key(h) == k then Some(WithText(c, h)) else c, k, vecHits, textHits + [h])
  {
    assert vecHits + (textHits + [h]) == (vecHits + textHits) + [h];
    HitEither(k, vecHits, textHits);
    HitMore(k, vecHits + textHits, h);
    HitMore(k, textHits, h);
    if c.Some? {
      DescribedByMore(c.value, k, vecHits + textHits, h);
      SameDescription(c.value, WithText(c, h), k, vecHits + textHits + [h]);
      if c.value.textScore.None? {
        NoHitNoScore(k, textHits);
      }
    } else {
      NoHitNoScore(k, textHits);
      DescribedByMore(WithText(c, h), k, vecHits + textHits, h);
    }
  }

  lemma {:induction false} SameDescription(c: Candidate, d: Candidate, k: string, hits: seq<Hit>)
    requires d == c.(vecScore := d.vecScore, textScore := d.textScore)
    ensures DescribedBy(c, k, hits) ==> DescribedBy(d, k, hits)
  {
    if hits != [] && Key(hits[0]) != k {
      SameDescription(c, d, k, hits[1..]);
    }
  }

  function Lookup(m: map<string, Candidate>, k: string): Option<Candidate> {
    if k in m then Some(m[k]) else None
  }

  /** The keyed map of candidates, in insertion order, as a JavaScript `Map` keeps it. */
  class CandidateTable {
    var order: seq<string>
    var byKey: map<string, Candidate>
    ghost var vecHits: seq<Hit>
    ghost var textHits: seq<Hit>

    ghost predicate Valid()
      reads this
    {
      && order == FirstSeen(vecHits + textHits)
      && forall k :: IsMerged(Lookup(byKey, k), k, vecHits, textHits)
    }

    constructor ()
      ensures Valid() && vecHits == [] && textHits == []
    {
      order, byKey, vecHits, textHits := [], map[], [], [];
    }

    method AddVector(h: Hit)
      requires Valid() && textHits == []
      modifies this
      ensures Valid() && vecHits == old(vecHits) + [h] && textHits == []
    {
      var key := Key(h);
      ghost var hits, before := vecHits, byKey;
      assert hits + textHits == hits && (hits + [h]) + textHits == hits + [h];
      OrderStep(hits, h);
      assert IsMerged(Lookup(before, key), key, hits, []);
      if key !in byKey {
        byKey := byKey[key := WithVector(None, h)];
        order := order + [key];
      } else {
        byKey := byKey[key := WithVector(Some(byKey[key]), h)];
      }
      vecHits := hits + [h];
      forall k ensures IsMerged(Lookup(byKey, k), k, vecHits, textHits) {
        assert IsMerged(Lookup(before, k), k, hits, []);
        VectorStep(Lookup(before, k), k, hits, h);
      }
    }

    method AddText(h: Hit)
      requires Valid()
      modifies this
      ensures Valid() && vecHits == old(vecHits) && textHits == old(textHits) + [h]
    {
      var key := Key(h);
      ghost var hits, texts, before := vecHits + textHits, textHits, byKey;
      assert vecHits + (texts + [h]) == hits + [h];
      OrderStep(hits, h);
      FirstSeenKeys(hits);
      assert IsMerged(Lookup(before, key), key, vecHits, texts);
      hide MergedScores, DescribedBy, FirstSeen;
      if key !in byKey {
        byKey := byKey[key := WithText(None, h)];
        order := order + [key];
      } else {
        byKey := byKey[key := WithText(Some(byKey[key]), h)];
      }
      textHits := texts + [h];
      forall k ensures IsMerged(Lookup(byKey, k), k, vecHits, textHits) {
        assert IsMerged(Lookup(before, k), k, vecHits, texts);
        TextStep(Lookup(before, k), k, vecHits, texts, h);
      }
    }
  }

  lemma OrderStep(hits: seq<Hit>, h: Hit)
    ensures FirstSeen(hits + [h]) == if IsHit(Key(h), hits) then FirstSeen(hits) else FirstSeen(hits) + [Key(h)]
  {
    assert Init(hits + [h]) == hits && Last(hits + [h]) == h;
    FirstSeenKeys(hits);
  }

  // What merging computes

  /** The merged candidates, in the order in which their keys were first seen. */
  ghost predicate IsMergedList(list: seq<Candidate>, vecHits: seq<Hit>, textHits: seq<Hit>) {
    var keys := FirstSeen(vecHits + textHits);
    && |list| == |keys|
    && forall i :: 0 <= i < |list| ==> IsMerged(Some(list[i]), keys[i], vecHits, textHits)
  }

  method ListCandidates(table: CandidateTable) returns (list: seq<Candidate>)
    requires table.Valid()
    ensures IsMergedList(list, table.vecHits, table.textHits)
  {
    list := [];
    FirstSeenKeys(table.vecHits + table.textHits);
    for i := 0 to |table.order|
      invariant |list| == i
      invariant forall j :: 0 <= j < i ==> IsMerged(Some(list[j]), table.order[j], table.vecHits, table.textHits)
    {
      var k := table.order[i];
      assert IsMerged(Lookup(table.byKey, k), k, table.vecHits, table.textHits);
      list := list + [table.byKey[k]];
    }
  }

  /**
   * The merged scores of a chunk do not depend on the order of the queries or of their rows,
   * nor on how often a row is repeated: the same rows give the same scores.
   */
  lemma MergeIsOrderFree(c: Candidate, d: Candidate, k: string,
                         vecHits: seq<Hit>, textHits: seq<Hit>, vecHits': seq<Hit>, textHits': seq<Hit>)
    requires IsMerged(Some(c), k, vecHits, textHits) && IsMerged(Some(d), k, vecHits', textHits')
    requires forall h :: h in vecHits <==> h in vecHits'
    requires forall h :: h in textHits <==> h in textHits'
    ensures c.Vec() == d.Vec() && c.Text() == d.Text()
  {
    SameHits(k, vecHits, vecHits');
    SameHits(k, textHits, textHits');
  }

  lemma SameHits(k: string, a: seq<Hit>, b: seq<Hit>)
    requires forall h :: h in a <==> h in b
    ensures IsHit(k, a) <==> IsHit(k, b)
    ensures forall m :: Attained(m, k, a) <==> Attained(m, k, b)
    ensures forall m, n :: Bounds(m, k, a) && Attained(m, k, a) && Bounds(n, k, b) && Attained(n, k, b) ==> m == n
    ensures forall m :: Bounds(m, k, a) <==> Bounds(m, k, b)
  {
  }
}
