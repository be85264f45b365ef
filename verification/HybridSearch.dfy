/**
 * The second half of hybrid retrieval (src/services/hybrid-search.service.ts and retrieval-presets.ts):
 * rewrite weights, normalising, boosting and blending the merged scores, the stable sort, the cap of two
 * chunks a post, and the final cut. The result is the best selection the caps allow.
 */
module HybridSearch {
  import opened CandidateMerge
  import opened Options
  import opened Sequences
  import opened StableSort

  datatype Bias = Lexical | Balanced | Semantic

  datatype Preset = Preset(alpha: real, semThreshold: real, lexThreshold: real)

  function GetPreset(bias: Option<Bias>): Preset {
    match bias.GetOr(Balanced)
    case Lexical => Preset(0.30, 0.65, 0.80)
    case Balanced => Preset(0.50, 0.70, 0.75)
    case Semantic => Preset(0.75, 0.80, 0.65)
  }

  function Clamp01(x: real): (r: real)
    ensures 0.0 <= r <= 1.0
    ensures 0.0 <= x <= 1.0 ==> r == x
  {
    Max(0.0, Min(1.0, x))
  }

  function Alpha(bias: Option<Bias>, given: Option<real>): real {
    Clamp01(given.GetOr(GetPreset(bias).alpha))
  }

  // Weighing the rewrites

  /**
   * A rewritten question: its cosine similarity to the question, whether it reads as a statement,
   * and the rows of its vector and text queries (no text rows when it is blank or its query failed).
   */
  datatype Rewrite = Rewrite(similarity: real, declarative: bool, vecRows: seq<Hit>, textRows: Option<seq<Hit>>)

  const KEEP_FLOOR := 0.35

  function Sim01(r: Rewrite): real {
    Clamp01((r.similarity + 1.0) / 2.0)
  }

  function RewriteWeight(r: Rewrite, bias: Option<Bias>): real {
    var weight := 0.6 + 0.6 * Sim01(r);
    var floor := if bias == Some(Semantic) then 1.0 else 0.95;
    if r.declarative && weight < floor then floor else weight
  }

  predicate IsKept(r: Rewrite) {
    Sim01(r) >= KEEP_FLOOR
  }

  /**
   * Weights stay within 0.6 and 1.2, kept rewrites weigh at least 0.81 and declarative ones at least the
   * floor of the bias, and a closer rewrite never weighs less.
   */
  lemma WeightRange(r: Rewrite, s: Rewrite, bias: Option<Bias>)
    ensures 0.6 <= RewriteWeight(r, bias) <= 1.2
    ensures IsKept(r) ==> RewriteWeight(r, bias) >= 0.81
    ensures r.declarative ==> RewriteWeight(r, bias) >= if bias == Some(Semantic) then 1.0 else 0.95
    ensures r.similarity <= s.similarity && (r.declarative ==> s.declarative)
        ==> RewriteWeight(r, bias) <= RewriteWeight(s, bias) && (IsKept(r) ==> IsKept(s))
  {
    assert r.similarity <= s.similarity ==> (r.similarity + 1.0) / 2.0 <= (s.similarity + 1.0) / 2.0;
  }

  /** Entry 0 is the question itself: weight one, always kept. */
  ghost predicate AreWeights(weights: array<real>, keep: array<bool>, rewrites: seq<Rewrite>, bias: Option<Bias>)
    reads weights, keep
  {
    && weights.Length == keep.Length == |rewrites| + 1
    && weights[0] == 1.0 && keep[0]
    && (forall i :: 0 <= i < |rewrites| ==> weights[i + 1] == RewriteWeight(rewrites[i], bias))
    && (forall i :: 0 <= i < |rewrites| ==> keep[i + 1] == IsKept(rewrites[i]))
  }

  method WeighRewrites(rewrites: seq<Rewrite>, bias: Option<Bias>) returns (weights: array<real>, keep: array<bool>)
    ensures fresh(weights) && fresh(keep) && AreWeights(weights, keep, rewrites, bias)
  {
    weights := new real[|rewrites| + 1](_ => 1.0);
    keep := new bool[|rewrites| + 1](_ => true);
    for i := 1 to |rewrites| + 1
      invariant weights[0] == 1.0 && keep[0]
      invariant forall j :: i <= j < keep.Length ==> keep[j]
      invariant forall j :: 0 <= j < i - 1 ==> weights[j + 1] == RewriteWeight(rewrites[j], bias)
      invariant forall j :: 0 <= j < i - 1 ==> keep[j + 1] == IsKept(rewrites[j])
    {
      var sim01 := Sim01(rewrites[i - 1]);
      var weight := 0.6 + 0.6 * sim01;
      if rewrites[i - 1].declarative {
        var floorBase := if bias == Some(Semantic) then 1.0 else 0.95;
        if weight < floorBase {
          weight := floorBase;
        }
      }
      weights[i] := weight;
      if sim01 < KEEP_FLOOR {
        keep[i] := false;
      }
    }
  }

  // Scoring

  datatype Scored = Scored(
    postId: string, postTitle: string, postChunk: string, score: real,
    chunkIndex: Option<nat>, postCreatedAt: Option<string>)

  /** `Math.min(...values, 0)` and `Math.max(...values, 0)`. */
  function Lowest(values: seq<real>): real {
    if values == [] then 0.0 else Min(values[0], Lowest(values[1..]))
  }

  function Highest(values: seq<real>): real {
    if values == [] then 0.0 else Max(values[0], Highest(values[1..]))
  }

  lemma {:induction false} ExtremesBound(values: seq<real>, v: real)
    requires v in values
    ensures Lowest(values) <= v <= Highest(values)
  {
    if v != values[0] {
      assert values == [values[0]] + values[1..];
      ExtremesBound(values[1..], v);
    }
  }

  function Normalize01(v: real, lo: real, hi: real): real {
    if hi > lo then (v - lo) / (hi - lo) else 0.0
  }

  function Boost(v: real, threshold: real): real {
    if v >= threshold then Min(1.0, v + 0.1) else v
  }

  /** A raw score placed between the extremes of its kind, and boosted. */
  function Part(v: real, values: seq<real>, threshold: real): real {
    Boost(Normalize01(v, Lowest(values), Highest(values)), threshold)
  }

  function VecValues(list: seq<Candidate>): seq<real> {
    if list == [] then [] else [list[0].Vec()] + VecValues(list[1..])
  }

  function TextValues(list: seq<Candidate>): seq<real> {
    if list == [] then [] else [list[0].Text()] + TextValues(list[1..])
  }

  function Times(k: real, v: real): real {
    k * v
  }

  function Mix(alpha: real, v: real, t: real): real {
    Times(alpha, v) + Times(1.0 - alpha, t)
  }

  /** The blended score of a candidate among the candidates of `list`. */
  function Blend(c: Candidate, list: seq<Candidate>, preset: Preset, alpha: real): real {
    Mix(alpha,
        Part(c.Vec(), VecValues(list), preset.semThreshold),
        Part(c.Text(), TextValues(list), preset.lexThreshold))
  }

  lemma {:induction false} ValuesOf(c: Candidate, list: seq<Candidate>)
    requires c in list
    ensures c.Vec() in VecValues(list) && c.Text() in TextValues(list)
  {
    if c != list[0] {
      assert list == [list[0]] + list[1..];
      ValuesOf(c, list[1..]);
    }
  }

  lemma QuotientMonotone(x: real, y: real, d: real)
    requires x <= y && d > 0.0
    ensures x / d <= y / d
  {
    var p, q := x / d, y / d;
    assert p * d == x && q * d == y;
    assert p > q ==> p * d > q * d;
  }

  lemma NormalizedRange(v: real, lo: real, hi: real)
    requires lo <= v <= hi
    ensures 0.0 <= Normalize01(v, lo, hi) <= 1.0
  {
    if hi > lo {
      QuotientMonotone(0.0, v - lo, hi - lo);
      QuotientMonotone(v - lo, hi - lo, hi - lo);
    }
  }

  lemma NormalizedMonotone(v: real, w: real, lo: real, hi: real)
    requires v <= w
    ensures Normalize01(v, lo, hi) <= Normalize01(w, lo, hi)
  {
    if hi > lo {
      QuotientMonotone(v - lo, w - lo, hi - lo);
    }
  }

  lemma PartRange(v: real, values: seq<real>, threshold: real)
    requires v in values && threshold >= 0.0
    ensures 0.0 <= Part(v, values, threshold) <= 1.0
    ensures Normalize01(v, Lowest(values), Highest(values)) <= 1.0
  {
    ExtremesBound(values, v);
    NormalizedRange(v, Lowest(values), Highest(values));
  }

  lemma PartMonotone(v: real, w: real, values: seq<real>, threshold: real)
    requires v in values && v <= w && threshold >= 0.0
    ensures Part(v, values, threshold) <= Part(w, values, threshold)
  {
    PartRange(v, values, threshold);
    NormalizedMonotone(v, w, Lowest(values), Highest(values));
  }

  lemma MixRange(alpha: real, v: real, t: real)
    requires 0.0 <= alpha <= 1.0 && 0.0 <= v <= 1.0 && 0.0 <= t <= 1.0
    ensures 0.0 <= Mix(alpha, v, t) <= 1.0
  {
    ProductMonotone(alpha, 0.0, v);
    ProductMonotone(alpha, v, 1.0);
    ProductMonotone(1.0 - alpha, 0.0, t);
    ProductMonotone(1.0 - alpha, t, 1.0);
    assert Times(alpha, 1.0) + Times(1.0 - alpha, 1.0) == 1.0;
    hide Times;
  }

  lemma ProductMonotone(a: real, x: real, y: real)
    requires a >= 0.0 && x <= y
    ensures Times(a, x) <= Times(a, y)
  {
    assert a * (y - x) >= 0.0;
    assert a * (y - x) == a * y - a * x;
  }

  lemma MixMonotone(alpha: real, v: real, w: real, t: real, u: real)
    requires 0.0 <= alpha <= 1.0 && v <= w && t <= u
    ensures Mix(alpha, v, t) <= Mix(alpha, w, u)
  {
    ProductMonotone(alpha, v, w);
    ProductMonotone(1.0 - alpha, t, u);
  }

  predicate IsPreset(p: Preset) {
    p.semThreshold >= 0.0 && p.lexThreshold >= 0.0
  }

  /** Blended scores lie between 0 and 1. */
  lemma BlendRange(c: Candidate, list: seq<Candidate>, p: Preset, alpha: real)
    requires c in list && 0.0 <= alpha <= 1.0 && IsPreset(p)
    ensures 0.0 <= Blend(c, list, p, alpha) <= 1.0
  {
    ValuesOf(c, list);
    PartRange(c.Vec(), VecValues(list), p.semThreshold);
    PartRange(c.Text(), TextValues(list), p.lexThreshold);
    MixRange(alpha, Part(c.Vec(), VecValues(list), p.semThreshold), Part(c.Text(), TextValues(list), p.lexThreshold));
  }

  /** A candidate at least as good in both raw scores is never blended below. */
  lemma BlendRespectsDominance(c: Candidate, d: Candidate, list: seq<Candidate>, p: Preset, alpha: real)
    requires c in list && 0.0 <= alpha <= 1.0 && IsPreset(p)
    requires c.Vec() <= d.Vec() && c.Text() <= d.Text()
    ensures Blend(c, list, p, alpha) <= Blend(d, list, p, alpha)
  {
    var vs, ts := VecValues(list), TextValues(list);
    ValuesOf(c, list);
    PartMonotone(c.Vec(), d.Vec(), vs, p.semThreshold);
    PartMonotone(c.Text(), d.Text(), ts, p.lexThreshold);
    MixMonotone(alpha, Part(c.Vec(), vs, p.semThreshold), Part(d.Vec(), vs, p.semThreshold),
                     Part(c.Text(), ts, p.lexThreshold), Part(d.Text(), ts, p.lexThreshold));
  }

  function ScaleVec(c: Candidate, k: real): Candidate {
    c.(vecScore := if c.vecScore.Some? then Some(Times(k, c.vecScore.value)) else None)
  }

  function ScaleAll(list: seq<Candidate>, k: real): seq<Candidate> {
    if list == [] then [] else [ScaleVec(list[0], k)] + ScaleAll(list[1..], k)
  }

  lemma ScaledVec(c: Candidate, k: real)
    ensures ScaleVec(c, k).Vec() == Times(k, c.Vec())
    ensures ScaleVec(c, k).Text() == c.Text()
  {
  }

  lemma ZeroTimes(k: real)
    ensures Times(k, 0.0) == 0.0
  {
  }

  lemma {:induction false} ScaledExtremes(list: seq<Candidate>, k: real)
    requires k > 0.0
    ensures Lowest(VecValues(ScaleAll(list, k))) == Times(k, Lowest(VecValues(list)))
    ensures Highest(VecValues(ScaleAll(list, k))) == Times(k, Highest(VecValues(list)))
    ensures TextValues(ScaleAll(list, k)) == TextValues(list)
  {
    if list == [] {
      ZeroTimes(k);
    } else {
      ScaledExtremes(list[1..], k);
      var v, vs, scaled := list[0].Vec(), VecValues(list[1..]), VecValues(ScaleAll(list[1..], k));
      ScaledOrder(v, Lowest(vs), k);
      ScaledOrder(v, Highest(vs), k);
      ScaledVec(list[0], k);
      assert ScaleAll(list, k)[1..] == ScaleAll(list[1..], k);
      ExtremesCons(v, vs);
      ExtremesCons(Times(k, v), scaled);
    }
  }

  lemma ExtremesCons(v: real, rest: seq<real>)
    ensures Lowest([v] + rest) == Min(v, Lowest(rest))
    ensures Highest([v] + rest) == Max(v, Highest(rest))
  {
    assert ([v] + rest)[1..] == rest;
  }

  lemma ScaledOrder(a: real, b: real, k: real)
    requires k > 0.0
    ensures Min(Times(k, a), Times(k, b)) == Times(k, Min(a, b))
    ensures Max(Times(k, a), Times(k, b)) == Times(k, Max(a, b))
  {
    if a <= b {
      ProductMonotone(k, a, b);
    } else {
      ProductMonotone(k, b, a);
    }
  }

  lemma NormalizedScale(v: real, lo: real, hi: real, k: real)
    requires k > 0.0
    ensures Normalize01(Times(k, v), Times(k, lo), Times(k, hi)) == Normalize01(v, lo, hi)
  {
    var x, d := v - lo, hi - lo;
    assert k * hi - k * lo == k * d;
    assert k * v - k * lo == k * x;
    if hi > lo {
      assert k * d > 0.0;
      var q := x / d;
      assert q * d == x;
      assert k * x == q * (k * d);
      assert (q * (k * d)) / (k * d) == q;
    } else {
      assert k * d <= 0.0;
    }
  }

  /** Multiplying every vector score by one positive constant changes no blended score. */
  lemma BlendIsScaleFree(c: Candidate, list: seq<Candidate>, preset: Preset, alpha: real, k: real)
    requires k > 0.0
    ensures Blend(ScaleVec(c, k), ScaleAll(list, k), preset, alpha) == Blend(c, list, preset, alpha)
  {
    ScaledExtremes(list, k);
    NormalizedScale(c.Vec(), Lowest(VecValues(list)), Highest(VecValues(list)), k);
    ScaledVec(c, k);
  }

  function ToScored(c: Candidate, score: real): Scored {
    Scored(c.postId, c.postTitle, c.postChunk, score, c.chunkIndex, c.postCreatedAt)
  }

  /** The scored candidates, in list order; `all` is the whole list the extremes are taken from. */
  function Boosted(list: seq<Candidate>, all: seq<Candidate>, preset: Preset, alpha: real): (r: seq<Scored>)
    ensures |r| == |list|
    ensures forall i :: 0 <= i < |list| ==> r[i] == ToScored(list[i], Blend(list[i], all, preset, alpha))
  {
    if list == [] then []
    else [ToScored(list[0], Blend(list[0], all, preset, alpha))] + Boosted(list[1..], all, preset, alpha)
  }

  // Ranking and thinning

  const MAX_CHUNKS_PER_POST := 2

  /** The comparator `b.similarityScore - a.similarityScore`. */
  function ByScore(): (Scored, Scored) -> bool {
    (a: Scored, b: Scored) => a.score >= b.score
  }

  /** How many chunks of post `p` are in `s`. */
  function CountPost(s: seq<Scored>, p: string): nat {
    if s == [] then 0 else CountPost(Init(s), p) + if Last(s).postId == p then 1 else 0
  }

  /** Keeps a chunk if and only if fewer than two chunks of its post stand before it. */
  function Diverse(s: seq<Scored>): seq<Scored> {
    if s == [] then []
    else if CountPost(Init(s), Last(s).postId) < MAX_CHUNKS_PER_POST then Diverse(Init(s)) + [Last(s)]
    else Diverse(Init(s))
  }

  function Take<T>(s: seq<T>, n: nat): seq<T> {
    if n <= |s| then s[..n] else s
  }

  function ResultSize(given: Option<int>, planned: Option<int>): (n: nat)
    ensures 1 <= n <= 20
  {
    var limit := if given.Some? then given.value else planned.GetOr(5);
    if limit < 1 then 1 else if limit > 20 then 20 else limit
  }

  /** What hybrid retrieval returns for a merged list of candidates. */
  function Fused(list: seq<Candidate>, bias: Option<Bias>, alpha: Option<real>, size: nat): seq<Scored> {
    var boosted := Boosted(list, list, GetPreset(bias), Alpha(bias, alpha));
    Take(Diverse(Sort(boosted, ByScore())), size)
  }

  method Diversify(sorted: seq<Scored>) returns (diversified: seq<Scored>)
    ensures diversified == Diverse(sorted)
  {
    var byPostCount: map<string, nat> := map[];
    diversified := [];
    for i := 0 to |sorted|
      invariant diversified == Diverse(sorted[..i])
      invariant forall p :: (if p in byPostCount then byPostCount[p] else 0) == AtMostTwo(CountPost(sorted[..i], p))
    {
      var r := sorted[i];
      assert Init(sorted[..i + 1]) == sorted[..i] && Last(sorted[..i + 1]) == r;
      var c := if r.postId in byPostCount then byPostCount[r.postId] else 0;
      if c >= MAX_CHUNKS_PER_POST {
        continue;
      }
      byPostCount := byPostCount[r.postId := c + 1];
      diversified := diversified + [r];
    }
    assert sorted[..|sorted|] == sorted;
  }

  function AtMostTwo(n: nat): nat {
    if n <= 2 then n else 2
  }

  /** Thinning keeps min(2, number present) chunks of every post. */
  lemma {:induction false} DiverseCounts(s: seq<Scored>, p: string)
    ensures CountPost(Diverse(s), p) == AtMostTwo(CountPost(s, p))
    ensures forall r :: r in Diverse(s) ==> r in s
  {
    if s != [] {
      var before := Diverse(Init(s));
      DiverseCounts(Init(s), p);
      assert Init(before + [Last(s)]) == before && Last(before + [Last(s)]) == Last(s);
      assert s == Init(s) + [Last(s)];
    }
  }

  lemma {:induction false} DiversePrefix(s: seq<Scored>, m: nat)
    requires m <= |s|
    ensures Diverse(s[..m]) <= Diverse(s)
  {
    if m < |s| {
      DiversePrefix(Init(s), m);
      assert Init(s)[..m] == s[..m];
    } else {
      assert s[..m] == s;
    }
  }

  lemma {:induction false} DiverseSorted(s: seq<Scored>)
    requires Sorted(s, ByScore())
    ensures Sorted(Diverse(s), ByScore())
  {
    if s != [] {
      var before, x := Diverse(Init(s)), Last(s);
      DiverseSorted(Init(s));
      DiverseCounts(Init(s), "");
      forall i | 0 <= i < |before| ensures ByScore()(before[i], x) {
        assert before[i] in Init(s);
      }
    }
  }

  lemma {:induction false} DiverseTakesFrom(s: seq<Scored>)
    ensures multiset(Diverse(s)) <= multiset(s)
  {
    if s != [] {
      DiverseTakesFrom(Init(s));
      assert s == Init(s) + [Last(s)];
    }
  }

  lemma ByScoreIsOrder()
    ensures TotalPreorder(ByScore())
  {
  }

  // The best selection

  ghost predicate FewPerPost(s: seq<Scored>) {
    forall p :: CountPost(s, p) <= 2
  }

  /** A choice of at most `size` scored chunks, at most two of one post, none taken more often than it is there. */
  ghost predicate IsSelection(choice: seq<Scored>, scored: seq<Scored>, size: nat) {
    && multiset(choice) <= multiset(scored)
    && |choice| <= size
    && FewPerPost(choice)
  }

  function Ranked(scored: seq<Scored>, size: nat): seq<Scored> {
    Take(Diverse(Sort(scored, ByScore())), size)
  }

  function Total(s: seq<Scored>): real {
    if s == [] then 0.0 else Total(Init(s)) + Last(s).score
  }

  lemma {:induction false} CountAppend(a: seq<Scored>, b: seq<Scored>, p: string)
    ensures CountPost(a + b, p) == CountPost(a, p) + CountPost(b, p)
  {
    if b == [] {
      assert a + b == a;
    } else {
      assert Init(a + b) == a + Init(b) && Last(a + b) == Last(b);
      CountAppend(a, Init(b), p);
    }
  }

  lemma CountWithout(s: seq<Scored>, k: nat, p: string)
    requires k < |s|
    ensures CountPost(s, p) == CountPost(Without(s, k), p) + if s[k].postId == p then 1 else 0
    ensures multiset(s) == multiset(Without(s, k)) + multiset{s[k]}
  {
    assert s == s[..k] + ([s[k]] + s[k + 1..]);
    CountAppend(s[..k], [s[k]] + s[k + 1..], p);
    CountAppend([s[k]], s[k + 1..], p);
    CountAppend(s[..k], s[k + 1..], p);
    assert Init([s[k]]) == [];
  }

  lemma {:induction false} CountFromMultiset(a: seq<Scored>, b: seq<Scored>, p: string)
    requires multiset(a) <= multiset(b)
    ensures CountPost(a, p) <= CountPost(b, p)
  {
    if a != [] {
      var x := Last(a);
      assert a == Init(a) + [x];
      assert x in multiset(b);
      var k :| 0 <= k < |b| && b[k] == x;
      CountWithout(b, k, p);
      assert multiset(Init(a)) == multiset(a) - multiset{x};
      assert multiset(Without(b, k)) == multiset(b) - multiset{x};
      CountFromMultiset(Init(a), Without(b, k), p);
    }
  }

  lemma {:induction false} SizeFromCounts(a: seq<Scored>, b: seq<Scored>)
    requires forall p :: CountPost(a, p) <= CountPost(b, p)
    ensures |a| <= |b|
  {
    if a != [] {
      var p := Last(a).postId;
      var k := FindPost(b, p);
      forall q ensures CountPost(Init(a), q) <= CountPost(Without(b, k), q) {
        CountWithout(b, k, q);
        assert CountPost(a, q) <= CountPost(b, q);
      }
      SizeFromCounts(Init(a), Without(b, k));
    }
  }

  lemma {:induction false} FindPost(s: seq<Scored>, p: string) returns (k: nat)
    requires CountPost(s, p) > 0
    ensures k < |s| && s[k].postId == p
  {
    if Last(s).postId == p {
      k := |s| - 1;
    } else {
      k := FindPost(Init(s), p);
    }
  }

  predicate AllAtLeast(s: seq<Scored>, least: real) {
    forall x :: x in s ==> x.score >= least
  }

  /** How many elements of a descending sequence score at least `least`. */
  function AtLeast(s: seq<Scored>, least: real): (m: nat)
    ensures m <= |s|
  {
    if s != [] && s[0].score >= least then 1 + AtLeast(s[1..], least) else 0
  }

  lemma {:induction false} AtLeastSplits(s: seq<Scored>, least: real)
    requires Sorted(s, ByScore())
    ensures AllAtLeast(s[..AtLeast(s, least)], least)
    ensures forall x :: x in s[AtLeast(s, least)..] ==> x.score < least
  {
    var m := AtLeast(s, least);
    if m > 0 {
      AtLeastSplits(s[1..], least);
      assert s[..m] == [s[0]] + s[1..][..m - 1];
      assert s[m..] == s[1..][m - 1..];
    } else {
      forall x | x in s[0..] ensures x.score < least {
        assert ByScore()(s[0], x);
      }
    }
  }

  lemma PrefixCovers(a: seq<Scored>, s: seq<Scored>, least: real)
    requires Sorted(s, ByScore()) && multiset(a) <= multiset(s)
    requires AllAtLeast(a, least)
    ensures multiset(a) <= multiset(s[..AtLeast(s, least)])
  {
    var m := AtLeast(s, least);
    AtLeastSplits(s, least);
    assert s == s[..m] + s[m..];
    forall x ensures multiset(a)[x] <= multiset(s[..m])[x] {
      if x in a {
        assert x !in s[m..];
      }
    }
  }

  /**
   * The ranking beats every selection place by place: it is at least as long, and its i-th score is
   * at least the i-th best score of any selection.
   */
  lemma RankedIsBestPlacewise(choice: seq<Scored>, scored: seq<Scored>, size: nat)
    requires IsSelection(choice, scored, size) && Sorted(choice, ByScore())
    ensures |choice| <= |Ranked(scored, size)|
    ensures forall i :: 0 <= i < |choice| ==> choice[i].score <= Ranked(scored, size)[i].score
  {
    var s := Sort(scored, ByScore());
    ByScoreIsOrder();
    SortCorrect(scored, ByScore());
    var d := Diverse(s);
    forall i | 0 <= i < |choice| ensures i < |d| && choice[i].score <= d[i].score {
      PlaceOf(choice, s, i);
    }
    if |choice| > 0 {
      PlaceOf(choice, s, |choice| - 1);
    }
  }

  lemma PlaceOf(choice: seq<Scored>, s: seq<Scored>, i: nat)
    requires Sorted(s, ByScore()) && Sorted(choice, ByScore())
    requires multiset(choice) <= multiset(s)
    requires FewPerPost(choice)
    requires i < |choice|
    ensures i < |Diverse(s)| && choice[i].score <= Diverse(s)[i].score
  {
    hide Diverse, AtLeast;
    var a, least := choice[..i + 1], choice[i].score;
    var m := AtLeast(s, least);
    var kept := Diverse(s[..m]);
    HeadOfChoice(choice, s, i);
    PrefixCovers(a, s, least);
    AtLeastSplits(s, least);
    forall p ensures CountPost(a, p) <= CountPost(kept, p) {
      CountFromMultiset(a, s[..m], p);
      DiverseCounts(s[..m], p);
    }
    SizeFromCounts(a, kept);
    DiversePrefix(s, m);
    DiverseCounts(s[..m], "");
    assert kept[i] in s[..m];
  }

  lemma HeadOfChoice(choice: seq<Scored>, s: seq<Scored>, i: nat)
    requires Sorted(choice, ByScore()) && multiset(choice) <= multiset(s) && i < |choice|
    requires FewPerPost(choice)
    ensures multiset(choice[..i + 1]) <= multiset(s)
    ensures AllAtLeast(choice[..i + 1], choice[i].score)
    ensures FewPerPost(choice[..i + 1])
  {
    var a := choice[..i + 1];
    assert choice == a + choice[i + 1..];
    forall x | x in a ensures x.score >= choice[i].score {
      var j :| 0 <= j < |a| && a[j] == x;
      assert j < i ==> ByScore()(choice[j], choice[i]);
    }
    forall p ensures CountPost(a, p) <= 2 {
      CountAppend(a, choice[i + 1..], p);
    }
  }

  /** The ranking is itself a selection. */
  lemma RankedIsSelection(scored: seq<Scored>, size: nat)
    ensures IsSelection(Ranked(scored, size), scored, size)
    ensures Sorted(Ranked(scored, size), ByScore())
  {
    hide Sort, Diverse, CountPost;
    var s := Sort(scored, ByScore());
    var d := Diverse(s);
    var r := Ranked(scored, size);
    ByScoreIsOrder();
    SortCorrect(scored, ByScore());
    DiverseSorted(s);
    DiverseTakesFrom(s);
    assert d == r + d[|r|..];
    forall p ensures CountPost(r, p) <= 2 {
      DiverseCounts(s, p);
      CountAppend(r, d[|r|..], p);
    }
  }

  lemma {:induction false} TotalPlacewise(a: seq<Scored>, b: seq<Scored>)
    requires |a| <= |b|
    requires forall i :: 0 <= i < |a| ==> a[i].score <= b[i].score
    requires forall x :: x in b ==> x.score >= 0.0
    ensures Total(a) <= Total(b)
  {
    if |b| > |a| {
      TotalPlacewise(a, Init(b));
    } else if a != [] {
      TotalPlacewise(Init(a), Init(b));
    }
  }

  lemma {:induction false} TotalAppend(a: seq<Scored>, b: seq<Scored>)
    ensures Total(a + b) == Total(a) + Total(b)
  {
    if b == [] {
      assert a + b == a;
    } else {
      assert Init(a + b) == a + Init(b) && Last(a + b) == Last(b);
      TotalAppend(a, Init(b));
    }
  }

  lemma TotalOne(x: Scored)
    ensures Total([x]) == x.score
  {
    assert Init([x]) == [];
  }

  lemma TotalWithout(s: seq<Scored>, k: nat)
    requires k < |s|
    ensures Total(s) == Total(Without(s, k)) + s[k].score
  {
    hide Total;
    var a, b, c := s[..k], [s[k]], s[k + 1..];
    assert s == a + (b + c);
    TotalAppend(a, b + c);
    TotalAppend(b, c);
    TotalAppend(a, c);
    TotalOne(s[k]);
  }

  lemma {:induction false} TotalFromMultiset(a: seq<Scored>, b: seq<Scored>)
    requires multiset(a) == multiset(b)
    ensures Total(a) == Total(b)
  {
    if a == [] {
      assert |b| == |multiset(b)|;
    } else {
      var x := Last(a);
      assert a == Init(a) + [x];
      assert x in multiset(b);
      var k :| 0 <= k < |b| && b[k] == x;
      CountWithout(b, k, "");
      TotalWithout(b, k);
      assert multiset(Init(a)) == multiset(a) - multiset{x};
      assert multiset(Without(b, k)) == multiset(b) - multiset{x};
      TotalFromMultiset(Init(a), Without(b, k));
    }
  }

  /** No selection, in whatever order, has a higher total score than the ranking. */
  lemma RankedIsBest(choice: seq<Scored>, scored: seq<Scored>, size: nat)
    requires IsSelection(choice, scored, size)
    requires forall x :: x in scored ==> x.score >= 0.0
    ensures Total(choice) <= Total(Ranked(scored, size))
  {
    var best, sorted := Ranked(scored, size), Sort(choice, ByScore());
    ByScoreIsOrder();
    SortCorrect(choice, ByScore());
    TotalFromMultiset(choice, sorted);
    forall p {
      CountFromMultiset(sorted, choice, p);
    }
    RankedIsBestPlacewise(sorted, scored, size);
    RankedIsSelection(scored, size);
    forall x | x in best ensures x.score >= 0.0 {
      assert x in multiset(scored);
    }
    TotalPlacewise(sorted, best);
  }

  // The whole search

  function Weigh(h: Hit, weight: real): Hit {
    h.(rawScore := Some(h.Score() * weight))
  }

  function Weighted(rows: seq<Hit>, weight: real): seq<Hit> {
    if rows == [] then [] else Weighted(Init(rows), weight) + [Weigh(Last(rows), weight)]
  }

  /** The vector hits that count: those of the question and, weighted, those of the kept rewrites. */
  function VecHits(questionRows: seq<Hit>, rewrites: seq<Rewrite>, bias: Option<Bias>): seq<Hit> {
    if rewrites == [] then Weighted(questionRows, 1.0)
    else
      var r := Last(rewrites);
      VecHits(questionRows, Init(rewrites), bias)
      + if IsKept(r) then Weighted(r.vecRows, RewriteWeight(r, bias)) else []
  }

  function TextHits(questionRows: seq<Hit>, rewrites: seq<Rewrite>): seq<Hit> {
    if rewrites == [] then questionRows
    else
      var r := Last(rewrites);
      TextHits(questionRows, Init(rewrites)) + if IsKept(r) then r.textRows.GetOr([]) else []
  }

  method AddVectorRows(table: CandidateTable, rows: seq<Hit>, weight: real)
    requires table.Valid() && table.textHits == []
    modifies table
    ensures table.Valid() && table.textHits == []
    ensures table.vecHits == old(table.vecHits) + Weighted(rows, weight)
  {
    for i := 0 to |rows|
      invariant table.Valid() && table.textHits == []
      invariant table.vecHits == old(table.vecHits) + Weighted(rows[..i], weight)
    {
      assert Init(rows[..i + 1]) == rows[..i] && Last(rows[..i + 1]) == rows[i];
      ghost var before := Weighted(rows[..i], weight);
      var row := Weigh(rows[i], weight);
      assert Weighted(rows[..i + 1], weight) == before + [row];
      table.AddVector(row);
      assert old(table.vecHits) + (before + [row]) == old(table.vecHits) + before + [row];
    }
    assert rows[..|rows|] == rows;
  }

  method AddTextRows(table: CandidateTable, rows: seq<Hit>)
    requires table.Valid()
    modifies table
    ensures table.Valid() && table.vecHits == old(table.vecHits)
    ensures table.textHits == old(table.textHits) + rows
  {
    for i := 0 to |rows|
      invariant table.Valid() && table.vecHits == old(table.vecHits)
      invariant table.textHits == old(table.textHits) + rows[..i]
    {
      table.AddText(rows[i]);
      assert rows[..i + 1] == rows[..i] + [rows[i]];
    }
    assert rows[..|rows|] == rows;
  }

  method MergeVectorRows(table: CandidateTable, questionRows: seq<Hit>, rewrites: seq<Rewrite>, bias: Option<Bias>,
                         weights: array<real>, keep: array<bool>)
    requires table.Valid() && table.vecHits == [] && table.textHits == []
    requires AreWeights(weights, keep, rewrites, bias)
    modifies table
    ensures table.Valid() && table.textHits == []
    ensures table.vecHits == VecHits(questionRows, rewrites, bias)
  {
    AddVectorRows(table, questionRows, weights[0]);
    for i := 1 to |rewrites| + 1
      invariant table.Valid() && table.textHits == []
      invariant table.vecHits == VecHits(questionRows, rewrites[..i - 1], bias)
    {
      var r := rewrites[i - 1];
      assert Init(rewrites[..i]) == rewrites[..i - 1] && Last(rewrites[..i]) == r;
      ghost var before := table.vecHits;
      assert before + [] == before;
      if keep[i] {
        AddVectorRows(table, r.vecRows, weights[i]);
      }
    }
    assert rewrites[..|rewrites|] == rewrites;
  }

  method MergeTextRows(table: CandidateTable, questionRows: seq<Hit>, rewrites: seq<Rewrite>, keep: array<bool>)
    requires table.Valid() && table.textHits == []
    requires keep.Length == |rewrites| + 1
    requires forall i :: 0 <= i < |rewrites| ==> keep[i + 1] == IsKept(rewrites[i])
    modifies table
    ensures table.Valid() && table.vecHits == old(table.vecHits)
    ensures table.textHits == TextHits(questionRows, rewrites)
  {
    AddTextRows(table, questionRows);
    for i := 1 to |rewrites| + 1
      invariant table.Valid() && table.vecHits == old(table.vecHits)
      invariant table.textHits == TextHits(questionRows, rewrites[..i - 1])
    {
      var r := rewrites[i - 1];
      assert Init(rewrites[..i]) == rewrites[..i - 1] && Last(rewrites[..i]) == r;
      ghost var before := table.textHits;
      assert before + [] == before;
      if keep[i] && r.textRows.Some? {
        AddTextRows(table, r.textRows.value);
      }
    }
    assert rewrites[..|rewrites|] == rewrites;
  }

  method RunHybridSearch(
      questionVec: seq<Hit>, questionText: seq<Hit>, rewrites: seq<Rewrite>,
      bias: Option<Bias>, alpha: Option<real>, givenLimit: Option<int>, plannedLimit: Option<int>)
    returns (fused: seq<Scored>, list: seq<Candidate>)
    ensures IsMergedList(list, VecHits(questionVec, rewrites, bias), TextHits(questionText, rewrites))
    ensures fused == Fused(list, bias, alpha, ResultSize(givenLimit, plannedLimit))
  {
    var weights, keep := WeighRewrites(rewrites, bias);
    var table := new CandidateTable();
    MergeVectorRows(table, questionVec, rewrites, bias, weights, keep);
    MergeTextRows(table, questionText, rewrites, keep);
    list := ListCandidates(table);
    var boosted := Boosted(list, list, GetPreset(bias), Alpha(bias, alpha));
    var sorted := Sort(boosted, ByScore());
    var diversified := Diversify(sorted);
    fused := Take(diversified, ResultSize(givenLimit, plannedLimit));
  }

  /**
   * Hybrid retrieval is optimal: its result is a selection of at most twenty chunks, at most two a post,
   * best score first, and no other selection of that size scores higher in total.
   */
  lemma FusedIsOptimal(list: seq<Candidate>, bias: Option<Bias>, alpha: Option<real>, size: nat, choice: seq<Scored>)
    requires IsSelection(choice, Boosted(list, list, GetPreset(bias), Alpha(bias, alpha)), size)
    ensures IsSelection(Fused(list, bias, alpha, size), Boosted(list, list, GetPreset(bias), Alpha(bias, alpha)), size)
    ensures Sorted(Fused(list, bias, alpha, size), ByScore())
    ensures |choice| <= |Fused(list, bias, alpha, size)|
    ensures Total(choice) <= Total(Fused(list, bias, alpha, size))
  {
    var preset, a := GetPreset(bias), Alpha(bias, alpha);
    var boosted := Boosted(list, list, preset, a);
    forall x | x in boosted ensures x.score >= 0.0 {
      var i :| 0 <= i < |boosted| && boosted[i] == x;
      BlendRange(list[i], list, preset, a);
    }
    RankedIsSelection(boosted, size);
    RankedIsBest(choice, boosted, size);
    var sorted := Sort(choice, ByScore());
    ByScoreIsOrder();
    SortCorrect(choice, ByScore());
    forall p {
      CountFromMultiset(sorted, choice, p);
    }
    RankedIsBestPlacewise(sorted, boosted, size);
  }

  lemma {:induction false} BoostedIsScaleFree(list: seq<Candidate>, all: seq<Candidate>, preset: Preset, alpha: real,
                                              k: real)
    requires k > 0.0
    ensures Boosted(ScaleAll(list, k), ScaleAll(all, k), preset, alpha) == Boosted(list, all, preset, alpha)
  {
    if list != [] {
      BlendIsScaleFree(list[0], all, preset, alpha, k);
      BoostedIsScaleFree(list[1..], all, preset, alpha, k);
      assert ScaleAll(list, k)[1..] == ScaleAll(list[1..], k);
    }
  }

  /** Rescaling the vector similarity leaves the whole result, order included, as it was. */
  lemma FusedIsScaleFree(list: seq<Candidate>, bias: Option<Bias>, alpha: Option<real>, size: nat, k: real)
    requires k > 0.0
    ensures Fused(ScaleAll(list, k), bias, alpha, size) == Fused(list, bias, alpha, size)
  {
    BoostedIsScaleFree(list, list, GetPreset(bias), Alpha(bias, alpha), k);
  }
}
