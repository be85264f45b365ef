/**
 * What the scores of hybrid retrieval are, by constants and cases (src/services/hybrid-search.service.ts and
 * retrieval-presets.ts): how each part is placed and lifted, how the parts are weighed, and which rows count.
 */
module ScoreMeaning {
  import opened CandidateMerge
  import opened HybridSearch
  import opened Options
  import opened SearchOrder
  import opened Sequences
  import opened StableSort

  // The tables of constants

  predicate IsWeightOfBias(a: real, bias: Option<Bias>) {
    match bias
    case Some(Lexical) => a == 0.30
    case Some(Semantic) => a == 0.75
    case _ => a == 0.50
  }

  /** The weight of the vector part: the one given, brought between 0 and 1, or that of the bias. */
  predicate IsVecWeight(a: real, bias: Option<Bias>, given: Option<real>) {
    if given.None? then IsWeightOfBias(a, bias)
    else
      && 0.0 <= a <= 1.0 && (0.0 <= given.value <= 1.0 ==> a == given.value)
      && (given.value < 0.0 ==> a == 0.0) && (given.value > 1.0 ==> a == 1.0)
  }

  function VecThreshold(bias: Option<Bias>): real {
    if bias == Some(Lexical) then 0.65 else if bias == Some(Semantic) then 0.80 else 0.70
  }

  function TextThreshold(bias: Option<Bias>): real {
    if bias == Some(Lexical) then 0.80 else if bias == Some(Semantic) then 0.65 else 0.75
  }

  lemma ConstantsAre(bias: Option<Bias>, given: Option<real>, a: real)
    requires IsVecWeight(a, bias, given)
    ensures Alpha(bias, given) == a
    ensures GetPreset(bias).semThreshold == VecThreshold(bias) && GetPreset(bias).lexThreshold == TextThreshold(bias)
  {
  }

  // One part of a score

  /** `lo` and `hi` are the lowest and the highest vector score of the list, 0 being counted in. */
  ghost predicate VecSpan(list: seq<Candidate>, lo: real, hi: real) {
    && lo <= 0.0 <= hi && (forall c :: c in list ==> lo <= c.Vec() <= hi)
    && (lo == 0.0 || exists c :: c in list && c.Vec() == lo) && (hi == 0.0 || exists c :: c in list && c.Vec() == hi)
  }

  ghost predicate TextSpan(list: seq<Candidate>, lo: real, hi: real) {
    && lo <= 0.0 <= hi && (forall c :: c in list ==> lo <= c.Text() <= hi)
    && (lo == 0.0 || exists c :: c in list && c.Text() == lo) && (hi == 0.0 || exists c :: c in list && c.Text() == hi)
  }

  /** `n` says how far from `lo` to `hi` the score `v` lies. */
  predicate IsPlaced(n: real, v: real, lo: real, hi: real) {
    if hi > lo then n * (hi - lo) == v - lo else n == 0.0
  }

  /** A part that reaches its threshold ends a tenth higher, up to 1. */
  predicate IsLifted(p: real, n: real, threshold: real) {
    if n < threshold then p == n else if n <= 0.9 then p == n + 0.1 else p == 1.0
  }

  lemma SpanIsExtremes(values: seq<real>, lo: real, hi: real)
    requires lo <= 0.0 <= hi && forall v :: v in values ==> lo <= v <= hi
    requires (lo == 0.0 || lo in values) && (hi == 0.0 || hi in values)
    ensures Lowest(values) == lo && Highest(values) == hi
  {
    hide Lowest, Highest;
    ExtremesAttained(values);
    if lo != 0.0 {
      ExtremesBound(values, lo);
    }
    if hi != 0.0 {
      ExtremesBound(values, hi);
    }
  }

  lemma ValueIn(list: seq<Candidate>, c: Candidate)
    requires c in list
    ensures c.Vec() in VecValues(list) && c.Text() in TextValues(list)
  {
    ValuesOf(c, list);
  }

  lemma VecExtremes(list: seq<Candidate>, lo: real, hi: real)
    requires VecSpan(list, lo, hi)
    ensures Lowest(VecValues(list)) == lo && Highest(VecValues(list)) == hi
  {
    hide VecValues;
    ValuesByPlace(list);
    if c :| c in list && c.Vec() == lo {
      ValueIn(list, c);
    }
    if c :| c in list && c.Vec() == hi {
      ValueIn(list, c);
    }
    forall v | v in VecValues(list) ensures lo <= v <= hi {
      var i :| 0 <= i < |list| && VecValues(list)[i] == v;
      assert list[i] in list;
    }
    SpanIsExtremes(VecValues(list), lo, hi);
  }

  lemma TextExtremes(list: seq<Candidate>, lo: real, hi: real)
    requires TextSpan(list, lo, hi)
    ensures Lowest(TextValues(list)) == lo && Highest(TextValues(list)) == hi
  {
    hide TextValues;
    ValuesByPlace(list);
    if c :| c in list && c.Text() == lo {
      ValueIn(list, c);
    }
    if c :| c in list && c.Text() == hi {
      ValueIn(list, c);
    }
    forall v | v in TextValues(list) ensures lo <= v <= hi {
      var i :| 0 <= i < |list| && TextValues(list)[i] == v;
      assert list[i] in list;
    }
    SpanIsExtremes(TextValues(list), lo, hi);
  }

  lemma PartIs(v: real, values: seq<real>, threshold: real, n: real, p: real)
    requires IsPlaced(n, v, Lowest(values), Highest(values)) && IsLifted(p, n, threshold)
    ensures Part(v, values, threshold) == p
  {
    hide Lowest, Highest;
    var lo, hi := Lowest(values), Highest(values);
    if hi > lo {
      PlacedOnce(n, v - lo, hi - lo);
    }
  }

  lemma PlacedOnce(n: real, x: real, d: real)
    requires d > 0.0 && n * d == x
    ensures x / d == n
  {
  }

  // The whole score

  /** The results a search ranks: the scored candidates of a list. */
  function ScoredOf(list: seq<Candidate>, bias: Option<Bias>, given: Option<real>): seq<Scored> {
    Boosted(list, list, GetPreset(bias), Alpha(bias, given))
  }

  /**
   * The score of a candidate is the weighted mean of its two parts: each its place between the extremes of its
   * kind, lifted from the threshold of the bias on.
   */
  lemma ScoreIsWeightedMean(
    list: seq<Candidate>, i: nat, bias: Option<Bias>, given: Option<real>, a: real,
    lo: real, hi: real, n: real, v: real, lo': real, hi': real, n': real, t: real)
    requires i < |list| && IsVecWeight(a, bias, given)
    requires VecSpan(list, lo, hi) && IsPlaced(n, list[i].Vec(), lo, hi) && IsLifted(v, n, VecThreshold(bias))
    requires TextSpan(list, lo', hi') && IsPlaced(n', list[i].Text(), lo', hi') && IsLifted(t, n', TextThreshold(bias))
    ensures ScoredOf(list, bias, given)[i].score == a * v + (1.0 - a) * t
  {
    ConstantsAre(bias, given, a);
    VecExtremes(list, lo, hi);
    TextExtremes(list, lo', hi');
    hide Part, GetPreset, Alpha, IsVecWeight, IsPlaced, IsLifted, VecSpan, TextSpan, VecThreshold, TextThreshold;
    PartIs(list[i].Vec(), VecValues(list), VecThreshold(bias), n, v);
    PartIs(list[i].Text(), TextValues(list), TextThreshold(bias), n', t);
  }

  /** There is a span for every list. */
  lemma SpansExist(list: seq<Candidate>) returns (lo: real, hi: real, lo': real, hi': real)
    ensures VecSpan(list, lo, hi) && TextSpan(list, lo', hi')
  {
    lo, hi := Lowest(VecValues(list)), Highest(VecValues(list));
    lo', hi' := Lowest(TextValues(list)), Highest(TextValues(list));
    hide Lowest, Highest, VecValues, TextValues;
    ExtremesAttained(VecValues(list));
    ExtremesAttained(TextValues(list));
    ValuesByPlace(list);
    forall c | c in list ensures lo <= c.Vec() <= hi && lo' <= c.Text() <= hi' {
      ValueIn(list, c);
      ExtremesBound(VecValues(list), c.Vec());
      ExtremesBound(TextValues(list), c.Text());
    }
  }

  // Consequences

  /** The best vector hit, without a text hit, scores exactly the weight of the vector part. */
  lemma PureVectorHit(list: seq<Candidate>, i: nat, bias: Option<Bias>, given: Option<real>, a: real)
    requires i < |list| && IsVecWeight(a, bias, given)
    requires list[i].Vec() > 0.0 && list[i].textScore.None?
    requires forall c :: c in list ==> c.Vec() <= list[i].Vec() && c.Text() >= 0.0
    ensures ScoredOf(list, bias, given)[i].score == a
  {
    hide Boosted, IsVecWeight;
    var lo, hi, lo', hi' := SpansExist(list);
    assert list[i] in list;
    assert hi == list[i].Vec() && lo' == 0.0;
    ScoreIsWeightedMean(list, i, bias, given, a, lo, hi, 1.0, 1.0, lo', hi', 0.0, 0.0);
  }

  /** The best text hit, without a vector hit, scores exactly the rest. */
  lemma PureTextHit(list: seq<Candidate>, i: nat, bias: Option<Bias>, given: Option<real>, a: real)
    requires i < |list| && IsVecWeight(a, bias, given)
    requires list[i].Text() > 0.0 && list[i].vecScore.None?
    requires forall c :: c in list ==> c.Text() <= list[i].Text() && c.Vec() >= 0.0
    ensures ScoredOf(list, bias, given)[i].score == 1.0 - a
  {
    hide Boosted, IsVecWeight;
    var lo, hi, lo', hi' := SpansExist(list);
    assert list[i] in list;
    assert hi' == list[i].Text() && lo == 0.0;
    ScoreIsWeightedMean(list, i, bias, given, a, lo, hi, 0.0, 0.0, lo', hi', 1.0, 1.0);
  }

  /** Without a weight given, the bias decides between the best hits of the two kinds. */
  lemma BiasDecides(list: seq<Candidate>, i: nat, j: nat, bias: Option<Bias>)
    requires i < |list| && j < |list|
    requires list[i].Vec() > 0.0 && list[i].textScore.None? && list[j].Text() > 0.0 && list[j].vecScore.None?
    requires forall c :: c in list ==> 0.0 <= c.Vec() <= list[i].Vec() && 0.0 <= c.Text() <= list[j].Text()
    ensures var s := ScoredOf(list, bias, None);
            && (bias == Some(Semantic) ==> s[i].score == 0.75 && s[j].score == 0.25)
            && (bias == Some(Balanced) || bias == None ==> s[i].score == s[j].score == 0.5)
            && (bias == Some(Lexical) ==> s[i].score == 0.3 && s[j].score == 0.7)
  {
    var a := if bias == Some(Lexical) then 0.30 else if bias == Some(Semantic) then 0.75 else 0.50;
    assert IsVecWeight(a, bias, None);
    hide ScoredOf;
    PureVectorHit(list, i, bias, None, a);
    PureTextHit(list, j, bias, None, a);
  }

  /**
   * A vector row of one post against a text row of another: semantic retrieval puts the first before, lexical
   * after.
   */
  lemma BiasOrdersResult(c: Candidate, d: Candidate, bias: Option<Bias>)
    requires c.Vec() > 0.0 && c.textScore.None? && d.Text() > 0.0 && d.vecScore.None?
    ensures var fused := Fused([c, d], bias, None, 2);
            && |fused| == 2
            && (bias == Some(Semantic) ==> fused == [ToScored(c, 0.75), ToScored(d, 0.25)])
            && (bias == Some(Lexical) ==> fused == [ToScored(d, 0.7), ToScored(c, 0.3)])
            && (bias == Some(Balanced) || bias == None ==> fused == [ToScored(c, 0.5), ToScored(d, 0.5)])
  {
    BiasDecides([c, d], 0, 1, bias);
    var s := ScoredOf([c, d], bias, None);
    assert s == [s[0], s[1]];
    TwoRanked(s[0], s[1]);
  }

  lemma TwoRanked(x: Scored, y: Scored)
    ensures Ranked([x, y], 2) == if x.score >= y.score then [x, y] else [y, x]
  {
    var le := ByScore();
    assert [x, y][1..] == [y] && [y][1..] == [];
    assert Sort([y], le) == Insert(y, [], le) == [y] + [];
    assert Insert(x, [], le) == [x] + [];
    assert Insert(x, [y], le) == if le(x, y) then [x] + [y] else [y] + [x];
    var sorted := Sort([x, y], le);
    assert sorted == Insert(x, [y], le);
    TwoAreDiverse(sorted[0], sorted[1]);
    assert sorted == [sorted[0], sorted[1]];
  }

  lemma TwoAreDiverse(x: Scored, y: Scored)
    ensures Diverse([x, y]) == [x, y]
  {
    assert Init([x, y]) == [x] && Last([x, y]) == y && Init([x]) == [] && Last([x]) == x;
    assert CountPost([], x.postId) == 0 && CountPost([x], y.postId) <= 1;
    assert Diverse([x]) == [] + [x];
    assert Diverse([x, y]) == [x] + [y];
  }

  /** Lists of the same chunks in the same order. */
  ghost predicate SameChunks(a: seq<Candidate>, b: seq<Candidate>) {
    |a| == |b| && forall i :: 0 <= i < |a| ==> ToScored(a[i], 0.0) == ToScored(b[i], 0.0)
  }

  /** With all the weight on one part, the scores of the other do not matter to the result. */
  lemma FullWeight(a: seq<Candidate>, b: seq<Candidate>, bias: Option<Bias>, given: real, size: nat)
    requires SameChunks(a, b) && |a| == |b|
    requires || (given >= 1.0 && forall i :: 0 <= i < |a| ==> a[i].Vec() == b[i].Vec())
             || (given <= 0.0 && forall i :: 0 <= i < |a| ==> a[i].Text() == b[i].Text())
    ensures Fused(a, bias, Some(given), size) == Fused(b, bias, Some(given), size)
  {
    var preset, alpha := GetPreset(bias), Alpha(bias, Some(given));
    assert (given >= 1.0 ==> alpha == 1.0) && (given <= 0.0 ==> alpha == 0.0);
    hide Alpha, Blend, GetPreset, VecValues, TextValues, Boosted, Diverse, Sort, SameChunks;
    SameParts(a, b);
    forall i | 0 <= i < |a| ensures Blend(a[i], a, preset, alpha) == Blend(b[i], b, preset, alpha) {
      FullBlend(a[i], b[i], a, b, preset, alpha);
    }
    SameScored(a, b, preset, alpha);
  }

  lemma SameScored(a: seq<Candidate>, b: seq<Candidate>, preset: Preset, alpha: real)
    requires SameChunks(a, b)
    requires forall i :: 0 <= i < |a| ==> Blend(a[i], a, preset, alpha) == Blend(b[i], b, preset, alpha)
    ensures Boosted(a, a, preset, alpha) == Boosted(b, b, preset, alpha)
  {
    hide Boosted, Blend;
    forall i | 0 <= i < |a| ensures Boosted(a, a, preset, alpha)[i] == Boosted(b, b, preset, alpha)[i] {
      assert ToScored(a[i], 0.0) == ToScored(b[i], 0.0);
    }
  }

  lemma FullBlend(c: Candidate, d: Candidate, a: seq<Candidate>, b: seq<Candidate>, preset: Preset, alpha: real)
    requires || (alpha == 1.0 && c.Vec() == d.Vec() && VecValues(a) == VecValues(b))
             || (alpha == 0.0 && c.Text() == d.Text() && TextValues(a) == TextValues(b))
    ensures Blend(c, a, preset, alpha) == Blend(d, b, preset, alpha)
  {
    hide Part, VecValues, TextValues;
  }

  lemma {:induction false} SameParts(a: seq<Candidate>, b: seq<Candidate>)
    requires |a| == |b|
    ensures (forall i :: 0 <= i < |a| ==> a[i].Vec() == b[i].Vec()) ==> VecValues(a) == VecValues(b)
    ensures (forall i :: 0 <= i < |a| ==> a[i].Text() == b[i].Text()) ==> TextValues(a) == TextValues(b)
  {
    hide VecValues, TextValues;
    ValuesByPlace(a);
    ValuesByPlace(b);
  }

  /** Every result carries the post, title, text, index and date of its candidate. */
  lemma ResultsAreCandidates(list: seq<Candidate>, bias: Option<Bias>, given: Option<real>, size: nat, x: Scored)
    requires x in Fused(list, bias, given, size)
    ensures exists i :: 0 <= i < |list| && IsResultOf(x, list[i]) && x == ScoredOf(list, bias, given)[i]
  {
    var s := ScoredOf(list, bias, given);
    assert Fused(list, bias, given, size) == Ranked(s, size);
    hide Ranked, Blend, Boosted, Diverse, Sort, Fused;
    RankedIsSelection(s, size);
    assert x in multiset(Ranked(s, size));
    assert multiset(Ranked(s, size))[x] > 0;
    assert multiset(s)[x] > 0;
    assert x in s;
    var i :| 0 <= i < |s| && s[i] == x;
    assert IsResultOf(x, list[i]);
  }

  predicate IsResultOf(x: Scored, c: Candidate) {
    && x.postId == c.postId && x.postTitle == c.postTitle && x.postChunk == c.postChunk
    && x.chunkIndex == c.chunkIndex && x.postCreatedAt == c.postCreatedAt
  }

  // Which rows count, and how many results

  /**
   * A rewrite weighs 0.9 and three tenths of its similarity, a declarative one at least its floor; it counts from
   * -0.3 on.
   */
  lemma WeightFormula(r: Rewrite, bias: Option<Bias>)
    requires -1.0 <= r.similarity <= 1.0
    ensures var plain, floor := 0.9 + 0.3 * r.similarity, if bias == Some(Semantic) then 1.0 else 0.95;
            RewriteWeight(r, bias) == if r.declarative && plain < floor then floor else plain
    ensures IsKept(r) <==> r.similarity >= -0.3
  {
  }

  /** The vector rows that count are those of the question as they are and those of kept rewrites, weighted. */
  lemma {:induction false} VecHitsAre(questionRows: seq<Hit>, rewrites: seq<Rewrite>, bias: Option<Bias>, h: Hit)
    ensures h in VecHits(questionRows, rewrites, bias)
            <==> ((exists q :: q in questionRows && IsWeighted(h, q, 1.0))
                  || exists r :: r in rewrites && IsKept(r) && ComesWeighted(h, r.vecRows, RewriteWeight(r, bias)))
  {
    hide RewriteWeight, IsKept;
    if rewrites == [] {
      WeightedAre(questionRows, 1.0, h);
    } else {
      var r, init := Last(rewrites), Init(rewrites);
      VecHitsAre(questionRows, init, bias, h);
      WeightedAre(r.vecRows, RewriteWeight(r, bias), h);
      assert rewrites == init + [r];
    }
  }

  ghost predicate ComesWeighted(h: Hit, rows: seq<Hit>, weight: real) {
    exists q :: q in rows && IsWeighted(h, q, weight)
  }

  predicate IsWeighted(h: Hit, q: Hit, weight: real) {
    h == q.(rawScore := Some(q.Score() * weight))
  }

  lemma {:induction false} WeightedAre(rows: seq<Hit>, weight: real, h: Hit)
    ensures h in Weighted(rows, weight) <==> exists q :: q in rows && IsWeighted(h, q, weight)
  {
    if rows != [] {
      var init, last := Init(rows), Last(rows);
      WeightedAre(init, weight, h);
      assert rows == init + [last];
      assert h == Weigh(last, weight) <==> IsWeighted(h, last, weight);
      assert last in rows;
    }
  }

  /** The text rows that count are those of the question and of the kept rewrites whose query did not fail. */
  lemma {:induction false} TextHitsAre(questionRows: seq<Hit>, rewrites: seq<Rewrite>, h: Hit)
    ensures h in TextHits(questionRows, rewrites)
            <==> (h in questionRows
                  || exists r :: r in rewrites && IsKept(r) && r.textRows.Some? && h in r.textRows.value)
  {
    hide IsKept;
    if rewrites != [] {
      var r, init := Last(rewrites), Init(rewrites);
      TextHitsAre(questionRows, init, h);
      assert rewrites == init + [r];
    }
  }

  /** The limit of the call counts before that of the plan, 5 without either; it is brought between 1 and 20. */
  lemma SizeIsNearest(given: Option<int>, planned: Option<int>, n: int)
    requires n == if given.Some? then given.value else if planned.Some? then planned.value else 5
    ensures 1 <= n <= 20 ==> ResultSize(given, planned) == n
    ensures n < 1 ==> ResultSize(given, planned) == 1
    ensures n > 20 ==> ResultSize(given, planned) == 20
  {
  }
}
