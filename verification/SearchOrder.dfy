/**
 * The result of hybrid retrieval (src/services/hybrid-search.service.ts) does not depend on the order in which
 * queries and rows come: chunks that tie may change places, scores do not.
 */
module SearchOrder {
  import opened CandidateMerge
  import opened HybridSearch
  import opened Options
  import opened Sequences
  import opened StableSort

  /** What ranking looks at: a scored chunk without title, text and date. */
  function Bare(c: Scored): Scored {
    Scored(c.postId, "", "", c.score, c.chunkIndex, None)
  }

  function BareAll(s: seq<Scored>): (r: seq<Scored>)
    ensures |r| == |s| && forall i :: 0 <= i < |s| ==> r[i] == Bare(s[i])
  {
    if s == [] then [] else [Bare(s[0])] + BareAll(s[1..])
  }

  lemma {:induction false} BareInsert(x: Scored, s: seq<Scored>)
    ensures BareAll(Insert(x, s, ByScore())) == Insert(Bare(x), BareAll(s), ByScore())
  {
    if s != [] && !ByScore()(x, s[0]) {
      BareInsert(x, s[1..]);
      var r := Insert(x, s[1..], ByScore());
      assert ([s[0]] + r)[1..] == r;
    } else {
      assert ([x] + s)[1..] == s;
    }
  }

  lemma {:induction false} BareSort(s: seq<Scored>)
    ensures BareAll(Sort(s, ByScore())) == Sort(BareAll(s), ByScore())
  {
    if s != [] {
      BareSort(s[1..]);
      BareInsert(s[0], Sort(s[1..], ByScore()));
    }
  }

  lemma BareEnds(s: seq<Scored>)
    requires s != []
    ensures BareAll(s) != [] && Init(BareAll(s)) == BareAll(Init(s)) && Last(BareAll(s)) == Bare(Last(s))
  {
    hide BareAll;
  }

  lemma {:induction false} BareCount(s: seq<Scored>, p: string)
    ensures CountPost(BareAll(s), p) == CountPost(s, p)
  {
    if s != [] {
      BareEnds(s);
      BareCount(Init(s), p);
    }
  }

  lemma {:induction false} BareDiverse(s: seq<Scored>)
    ensures BareAll(Diverse(s)) == Diverse(BareAll(s))
  {
    hide BareAll;
    if s != [] {
      var init, last := Init(s), Last(s);
      BareEnds(s);
      BareDiverse(init);
      BareCount(init, last.postId);
      assert BareAll(Diverse(init) + [last]) == BareAll(Diverse(init)) + [Bare(last)];
    }
  }

  lemma BareRanked(s: seq<Scored>, size: nat)
    ensures BareAll(Ranked(s, size)) == Ranked(BareAll(s), size)
  {
    BareSort(s);
    hide Sort, Diverse, BareAll;
    BareDiverse(Sort(s, ByScore()));
  }

  ghost predicate SameScores(a: seq<Scored>, b: seq<Scored>) {
    |a| == |b| && forall i :: 0 <= i < |a| ==> a[i].score == b[i].score
  }

  /** Permuted candidates are ranked with the same score at each place: each ranking is a selection of the other's. */
  lemma RankingOfPermuted(a: seq<Scored>, b: seq<Scored>, size: nat)
    requires multiset(a) == multiset(b)
    ensures SameScores(Ranked(a, size), Ranked(b, size))
  {
    hide Ranked, FewPerPost;
    RankedIsSelection(a, size);
    RankedIsSelection(b, size);
    RankedIsBestPlacewise(Ranked(a, size), b, size);
    RankedIsBestPlacewise(Ranked(b, size), a, size);
  }

  // The extremes

  lemma {:induction false} ExtremesAttained(values: seq<real>)
    ensures Lowest(values) <= 0.0 <= Highest(values)
    ensures Lowest(values) == 0.0 || Lowest(values) in values
    ensures Highest(values) == 0.0 || Highest(values) in values
  {
    if values != [] {
      ExtremesAttained(values[1..]);
      assert values == [values[0]] + values[1..];
    }
  }

  lemma ExtremesOfSame(a: seq<real>, b: seq<real>)
    requires forall v :: v in a <==> v in b
    ensures Lowest(a) == Lowest(b) && Highest(a) == Highest(b)
  {
    hide Lowest, Highest;
    ExtremesAttained(a);
    ExtremesAttained(b);
    forall v | v in a ensures Lowest(a) <= v <= Highest(a) && Lowest(b) <= v <= Highest(b) {
      ExtremesBound(a, v);
      ExtremesBound(b, v);
    }
  }

  lemma {:induction false} ValuesByPlace(list: seq<Candidate>)
    ensures |VecValues(list)| == |TextValues(list)| == |list|
    ensures forall i :: 0 <= i < |list| ==> VecValues(list)[i] == list[i].Vec() && TextValues(list)[i] == list[i].Text()
  {
    if list != [] {
      ValuesByPlace(list[1..]);
    }
  }

  // Merged lists of the same rows

  ghost predicate AllIndexed(hits: seq<Hit>) {
    forall h :: h in hits ==> h.chunkIndex.Some?
  }

  lemma {:induction false} DescribedByHit(c: Candidate, k: string, hits: seq<Hit>)
    requires DescribedBy(c, k, hits)
    ensures exists h :: h in hits && Key(h) == k && c.postId == h.postId && c.chunkIndex == h.chunkIndex
  {
    if Key(hits[0]) == k {
      assert hits[0] in hits;
    } else {
      DescribedByHit(c, k, hits[1..]);
      var h :| h in hits[1..] && Key(h) == k && c.postId == h.postId && c.chunkIndex == h.chunkIndex;
      assert h in hits;
    }
  }

  /** Candidates of one key are the same chunk of the same post; candidates of different keys are not. */
  lemma SameKeySameChunk(c: Candidate, j: string, hits: seq<Hit>, d: Candidate, k: string, hits': seq<Hit>)
    requires DescribedBy(c, j, hits) && DescribedBy(d, k, hits') && AllIndexed(hits) && AllIndexed(hits')
    ensures j == k <==> c.postId == d.postId && c.chunkIndex == d.chunkIndex
  {
    hide DescribedBy, Key;
    DescribedByHit(c, j, hits);
    DescribedByHit(d, k, hits');
    var g :| g in hits && Key(g) == j && c.postId == g.postId && c.chunkIndex == g.chunkIndex;
    var h :| h in hits' && Key(h) == k && d.postId == h.postId && d.chunkIndex == h.chunkIndex;
    KeysAreChunks(g, h);
  }

  ghost predicate SameRows(a: seq<Hit>, b: seq<Hit>) {
    forall h :: h in a <==> h in b
  }

  ghost predicate Matches(c: Candidate, d: Candidate) {
    c.postId == d.postId && c.chunkIndex == d.chunkIndex && c.Vec() == d.Vec() && c.Text() == d.Text()
  }

  /** Each candidate has its match among the candidates merged from the same rows in another order. */
  lemma MatchOf(list: seq<Candidate>, vecHits: seq<Hit>, textHits: seq<Hit>,
                list': seq<Candidate>, vecHits': seq<Hit>, textHits': seq<Hit>, i: nat) returns (j: nat)
    requires IsMergedList(list, vecHits, textHits) && IsMergedList(list', vecHits', textHits')
    requires SameRows(vecHits, vecHits') && SameRows(textHits, textHits')
    requires AllIndexed(vecHits + textHits) && AllIndexed(vecHits' + textHits')
    requires i < |list|
    ensures j < |list'| && Matches(list[i], list'[j])
  {
    hide FirstSeen, DescribedBy, MergedScores;
    var hits, hits' := vecHits + textHits, vecHits' + textHits';
    FirstSeenKeys(hits);
    FirstSeenKeys(hits');
    var k := FirstSeen(hits)[i];
    assert IsHit(k, hits);
    assert IsHit(k, hits');
    j :| 0 <= j < |list'| && FirstSeen(hits')[j] == k;
    assert IsMerged(Some(list[i]), k, vecHits, textHits) && IsMerged(Some(list'[j]), k, vecHits', textHits');
    SameKeySameChunk(list[i], k, hits, list'[j], k, hits');
    MergeIsOrderFree(list[i], list'[j], k, vecHits, textHits, vecHits', textHits');
  }

  lemma ChunksDiffer(list: seq<Candidate>, vecHits: seq<Hit>, textHits: seq<Hit>, i: nat, j: nat)
    requires IsMergedList(list, vecHits, textHits) && AllIndexed(vecHits + textHits) && i < j < |list|
    ensures list[i].postId != list[j].postId || list[i].chunkIndex != list[j].chunkIndex
  {
    hide FirstSeen, DescribedBy, MergedScores;
    var hits := vecHits + textHits;
    var keys := FirstSeen(hits);
    FirstSeenKeys(hits);
    assert IsMerged(Some(list[i]), keys[i], vecHits, textHits) && IsMerged(Some(list[j]), keys[j], vecHits, textHits);
    SameKeySameChunk(list[i], keys[i], hits, list[j], keys[j], hits);
  }

  ghost predicate HasMatch(c: Candidate, list: seq<Candidate>) {
    exists j :: 0 <= j < |list| && Matches(c, list[j])
  }

  ghost predicate AllMatched(list: seq<Candidate>, list': seq<Candidate>) {
    forall i :: 0 <= i < |list| ==> HasMatch(list[i], list')
  }

  lemma AllHaveMatches(list: seq<Candidate>, vecHits: seq<Hit>, textHits: seq<Hit>,
                       list': seq<Candidate>, vecHits': seq<Hit>, textHits': seq<Hit>)
    requires IsMergedList(list, vecHits, textHits) && IsMergedList(list', vecHits', textHits')
    requires SameRows(vecHits, vecHits') && SameRows(textHits, textHits')
    requires AllIndexed(vecHits + textHits) && AllIndexed(vecHits' + textHits')
    ensures AllMatched(list, list')
  {
    hide IsMergedList, Matches, SameRows, AllIndexed;
    forall i | 0 <= i < |list| ensures HasMatch(list[i], list') {
      var j := MatchOf(list, vecHits, textHits, list', vecHits', textHits', i);
    }
  }

  lemma MatchAt(list: seq<Candidate>, list': seq<Candidate>, i: nat) returns (j: nat)
    requires AllMatched(list, list') && i < |list|
    ensures j < |list'| && Matches(list[i], list'[j])
  {
    assert HasMatch(list[i], list');
    j :| 0 <= j < |list'| && Matches(list[i], list'[j]);
  }

  lemma MatchedValues(list: seq<Candidate>, list': seq<Candidate>)
    requires AllMatched(list, list')
    ensures forall v :: v in VecValues(list) ==> v in VecValues(list')
    ensures forall v :: v in TextValues(list) ==> v in TextValues(list')
  {
    hide VecValues, TextValues, AllMatched;
    ValuesByPlace(list);
    ValuesByPlace(list');
    forall v | v in VecValues(list) ensures v in VecValues(list') {
      var i :| 0 <= i < |list| && VecValues(list)[i] == v;
      var j := MatchAt(list, list', i);
      assert VecValues(list')[j] == v;
    }
    forall v | v in TextValues(list) ensures v in TextValues(list') {
      var i :| 0 <= i < |list| && TextValues(list)[i] == v;
      var j := MatchAt(list, list', i);
      assert TextValues(list')[j] == v;
    }
  }

  lemma SameBlend(list: seq<Candidate>, list': seq<Candidate>, c: Candidate, d: Candidate, preset: Preset, alpha: real)
    requires AllMatched(list, list') && AllMatched(list', list) && Matches(c, d)
    ensures Blend(c, list, preset, alpha) == Blend(d, list', preset, alpha)
  {
    MatchedValues(list, list');
    MatchedValues(list', list);
    hide Lowest, Highest, VecValues, TextValues, Mix, Boost, Normalize01, AllMatched;
    ExtremesOfSame(VecValues(list), VecValues(list'));
    ExtremesOfSame(TextValues(list), TextValues(list'));
  }

  lemma BareMatched(list: seq<Candidate>, list': seq<Candidate>, preset: Preset, alpha: real, x: Scored)
    requires AllMatched(list, list') && AllMatched(list', list)
    requires x in BareAll(Boosted(list, list, preset, alpha))
    ensures x in BareAll(Boosted(list', list', preset, alpha))
  {
    hide Blend, BareAll, Boosted, AllMatched;
    var i :| 0 <= i < |list| && BareAll(Boosted(list, list, preset, alpha))[i] == x;
    var j := MatchAt(list, list', i);
    SameBlend(list, list', list[i], list'[j], preset, alpha);
    assert BareAll(Boosted(list', list', preset, alpha))[j] == x;
  }

  /**
   * Rows with chunk indexes, in whatever order and however often they come, give a result of the same length
   * with the same score at each place.
   */
  lemma SearchIsOrderFree(list: seq<Candidate>, vecHits: seq<Hit>, textHits: seq<Hit>,
                          list': seq<Candidate>, vecHits': seq<Hit>, textHits': seq<Hit>,
                          bias: Option<Bias>, alpha: Option<real>, size: nat)
    requires IsMergedList(list, vecHits, textHits) && IsMergedList(list', vecHits', textHits')
    requires SameRows(vecHits, vecHits') && SameRows(textHits, textHits')
    requires AllIndexed(vecHits + textHits)
    ensures SameScores(Fused(list, bias, alpha, size), Fused(list', bias, alpha, size))
  {
    hide IsMergedList, Blend, BareAll, Boosted, Diverse, Sort, Alpha, GetPreset, AllMatched, SameScores, NoRepeats;
    var preset, a := GetPreset(bias), Alpha(bias, alpha);
    var s, s' := Boosted(list, list, preset, a), Boosted(list', list', preset, a);
    assert AllIndexed(vecHits' + textHits');
    AllHaveMatches(list, vecHits, textHits, list', vecHits', textHits');
    AllHaveMatches(list', vecHits', textHits', list, vecHits, textHits);
    hide AllIndexed, SameRows;
    forall x ensures x in BareAll(s) <==> x in BareAll(s') {
      if x in BareAll(s) {
        BareMatched(list, list', preset, a, x);
      }
      if x in BareAll(s') {
        BareMatched(list', list, preset, a, x);
      }
    }
    BareDistinct(list, vecHits, textHits, preset, a);
    BareDistinct(list', vecHits', textHits', preset, a);
    DistinctMultiset(BareAll(s), BareAll(s'));
    BareScores(s, s', size);
  }

  lemma BareDistinct(list: seq<Candidate>, vecHits: seq<Hit>, textHits: seq<Hit>, preset: Preset, alpha: real)
    requires IsMergedList(list, vecHits, textHits) && AllIndexed(vecHits + textHits)
    ensures NoRepeats(BareAll(Boosted(list, list, preset, alpha)))
  {
    hide IsMergedList, Blend, BareAll, Boosted;
    var s := BareAll(Boosted(list, list, preset, alpha));
    forall i, j | 0 <= i < j < |s| ensures s[i] != s[j] {
      ChunksDiffer(list, vecHits, textHits, i, j);
    }
  }

  lemma BareScores(s: seq<Scored>, s': seq<Scored>, size: nat)
    requires multiset(BareAll(s)) == multiset(BareAll(s'))
    ensures SameScores(Ranked(s, size), Ranked(s', size))
  {
    hide BareAll, Ranked;
    RankingOfPermuted(BareAll(s), BareAll(s'), size);
    BareRanked(s, size);
    BareRanked(s', size);
    forall i | 0 <= i < |Ranked(s, size)| ensures Ranked(s, size)[i].score == Ranked(s', size)[i].score {
      assert Bare(Ranked(s, size)[i]) == BareAll(Ranked(s, size))[i];
      assert Bare(Ranked(s', size)[i]) == BareAll(Ranked(s', size))[i];
    }
  }
}
