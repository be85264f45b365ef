/**
 * Grouping chunk hits into ranked, paged posts (src/services/search-aggregate.service.ts).
 * Creation dates are given as parsed instants; a missing one counts as 0.
 */
module PostAggregation {
  import opened Options
  import opened Sequences
  import opened StableSort

  datatype ChunkHit = ChunkHit(
    postId: string, title: string, chunk: string, score: real, chunkIndex: Option<nat>, createdAt: Option<int>)

  datatype PostHit = PostHit(
    postId: string, title: string, score: real, createdAt: Option<int>,
    bestIndex: Option<nat>, snippet: string, bestScore: real)

  function ByChunkScore(): (ChunkHit, ChunkHit) -> bool {
    (a: ChunkHit, b: ChunkHit) => a.score >= b.score
  }

  /** Higher score first, newer first among equal scores. */
  function ByPostRank(): (PostHit, PostHit) -> bool {
    (a: PostHit, b: PostHit) =>
      if a.score != b.score then a.score > b.score else a.createdAt.GetOr(0) >= b.createdAt.GetOr(0)
  }

  lemma OrdersAreTotal()
    ensures TotalPreorder(ByChunkScore())
    ensures TotalPreorder(ByPostRank())
  {
  }

  /** Post ids in order of first appearance, each once. */
  function PostIds(chunks: seq<ChunkHit>): seq<string> {
    if chunks == [] then []
    else
      var before := PostIds(Init(chunks));
      if Last(chunks).postId in before then before else before + [Last(chunks).postId]
  }

  function ChunksOf(chunks: seq<ChunkHit>, p: string): (r: seq<ChunkHit>)
    ensures forall c :: c in r <==> c in chunks && c.postId == p
  {
    if chunks == [] then []
    else ChunksOf(Init(chunks), p) + if Last(chunks).postId == p then [Last(chunks)] else []
  }

  function ScoreOfSorted(sorted: seq<ChunkHit>): real
    requires sorted != []
  {
    sorted[0].score + if |sorted| > 1 then 0.2 * sorted[1].score else 0.0
  }

  /** The post a non-empty group of chunks stands for. */
  function ToPost(p: string, group: seq<ChunkHit>): PostHit
    requires Sort(group, ByChunkScore()) != []
  {
    var sorted := Sort(group, ByChunkScore());
    var top := sorted[0];
    PostHit(p, top.title, ScoreOfSorted(sorted), top.createdAt, top.chunkIndex, top.chunk, top.score)
  }

  lemma {:induction false} PostIdsDistinct(chunks: seq<ChunkHit>)
    ensures forall p :: p in PostIds(chunks) <==> exists c :: c in chunks && c.postId == p
    ensures NoRepeats(PostIds(chunks))
  {
    if chunks != [] {
      var init, last := Init(chunks), Last(chunks);
      PostIdsDistinct(init);
      assert chunks == init + [last];
      forall p ensures p in PostIds(chunks) <==> exists c :: c in chunks && c.postId == p {
        if p in PostIds(init) {
          var c :| c in init && c.postId == p;
          assert c in chunks;
        }
        assert last in chunks;
      }
    }
  }

  lemma GroupNotEmpty(chunks: seq<ChunkHit>, p: string)
    requires p in PostIds(chunks)
    ensures ChunksOf(chunks, p) != [] && Sort(ChunksOf(chunks, p), ByChunkScore()) != []
  {
    PostIdsDistinct(chunks);
    OrdersAreTotal();
    var c :| c in chunks && c.postId == p;
    assert c in ChunksOf(chunks, p);
    SortCorrect(ChunksOf(chunks, p), ByChunkScore());
  }

  function PostsFor(ids: seq<string>, chunks: seq<ChunkHit>): (r: seq<PostHit>)
    requires forall p :: p in ids ==> p in PostIds(chunks)
    ensures |r| == |ids|
    ensures forall i :: 0 <= i < |ids| ==> r[i].postId == ids[i]
  {
    if ids == [] then []
    else
      GroupNotEmpty(chunks, Last(ids));
      PostsFor(Init(ids), chunks) + [ToPost(Last(ids), ChunksOf(chunks, Last(ids)))]
  }

  /** All posts, best first. */
  function Ranking(chunks: seq<ChunkHit>): seq<PostHit> {
    Sort(PostsFor(PostIds(chunks), chunks), ByPostRank())
  }

  /** JavaScript's `slice(offset, offset + limit)`. */
  function Page<T>(s: seq<T>, offset: nat, limit: nat): seq<T> {
    if offset >= |s| then [] else if offset + limit >= |s| then s[offset..] else s[offset..offset + limit]
  }

  function PageSize(limit: Option<int>): (n: nat)
    ensures 1 <= n <= 10
  {
    var given := limit.GetOr(10);
    if given < 1 then 1 else if given > 10 then 10 else given
  }

  function PageStart(offset: Option<int>): nat {
    if offset.GetOr(0) < 0 then 0 else offset.GetOr(0)
  }

  method GroupByPost(chunks: seq<ChunkHit>) returns (order: seq<string>, byPost: map<string, seq<ChunkHit>>)
    ensures order == PostIds(chunks)
    ensures forall p :: p in byPost <==> p in order
    ensures forall p :: p in byPost ==> byPost[p] == ChunksOf(chunks, p)
  {
    hide PostIds, ChunksOf;
    order, byPost := [], map[];  // the keys of a JavaScript Map, in insertion order, and its entries
    NoChunksNoPosts();
    for i := 0 to |chunks|
      invariant order == PostIds(chunks[..i])
      invariant forall p :: p in byPost <==> p in order
      invariant forall p :: p in byPost ==> byPost[p] == ChunksOf(chunks[..i], p)
    {
      var c := chunks[i];
      assert chunks[..i + 1] == chunks[..i] + [c];
      var arr := if c.postId in byPost then byPost[c.postId] else [];
      OneMore(chunks[..i], c);
      NoGroup(chunks[..i], c.postId);
      if c.postId !in byPost {
        order := order + [c.postId];
      }
      byPost := byPost[c.postId := arr + [c]];
    }
    assert chunks[..|chunks|] == chunks;
  }

  lemma NoChunksNoPosts()
    ensures PostIds([]) == []
  {
  }

  lemma OneMore(chunks: seq<ChunkHit>, c: ChunkHit)
    ensures PostIds(chunks + [c])
            == if c.postId in PostIds(chunks) then PostIds(chunks) else PostIds(chunks) + [c.postId]
    ensures forall p :: ChunksOf(chunks + [c], p) == ChunksOf(chunks, p) + if c.postId == p then [c] else []
  {
    assert Init(chunks + [c]) == chunks && Last(chunks + [c]) == c;
  }

  lemma NoGroup(chunks: seq<ChunkHit>, p: string)
    ensures p in PostIds(chunks) || ChunksOf(chunks, p) == []
  {
    PostIdsDistinct(chunks);
    hide PostIds;
    var group := ChunksOf(chunks, p);
    assert group != [] ==> group[0] in group;
  }

  method BuildPosts(order: seq<string>, byPost: map<string, seq<ChunkHit>>, chunks: seq<ChunkHit>)
    returns (all: seq<PostHit>)
    requires forall p :: p in order ==> p in PostIds(chunks) && p in byPost && byPost[p] == ChunksOf(chunks, p)
    ensures all == PostsFor(order, chunks)
  {
    hide Sort, PostIds, ChunksOf, ToPost;
    all := [];
    for i := 0 to |order|
      invariant (forall p :: p in order[..i] ==> p in PostIds(chunks)) && all == PostsFor(order[..i], chunks)
    {
      assert Init(order[..i + 1]) == order[..i] && Last(order[..i + 1]) == order[i];
      GroupNotEmpty(chunks, order[i]);
      all := all + [ToPost(order[i], byPost[order[i]])];
    }
    assert order[..|order|] == order;
  }

  method AggregatePosts(chunks: seq<ChunkHit>, limit: Option<int>, offset: Option<int>)
    returns (posts: seq<PostHit>, total: nat)
    ensures posts == Page(Ranking(chunks), PageStart(offset), PageSize(limit))
    ensures total == |PostIds(chunks)|
  {
    hide Sort, PostIds, ChunksOf;
    var order, byPost := GroupByPost(chunks);
    var all := BuildPosts(order, byPost, chunks);
    total := |all|;
    posts := Page(Sort(all, ByPostRank()), PageStart(offset), PageSize(limit));
  }

  // Order of the hits does not matter

  function ChunkScore(c: ChunkHit): real {
    c.score
  }

  function PostScore(p: PostHit): real {
    p.score
  }

  function Scores<T>(s: seq<T>, score: T -> real): (r: seq<real>)
    ensures |r| == |s| && forall i :: 0 <= i < |s| ==> r[i] == score(s[i])
  {
    if s == [] then [] else [score(s[0])] + Scores(s[1..], score)
  }

  ghost predicate Descending(s: seq<real>) {
    forall i, j :: 0 <= i < j < |s| ==> s[i] >= s[j]
  }

  /** How many scores reach `least`. */
  function CountGe(s: seq<real>, least: real): nat {
    if s == [] then 0 else (if s[0] >= least then 1 else 0) + CountGe(s[1..], least)
  }

  lemma {:induction false} CountGeSome(s: seq<real>, least: real)
    ensures CountGe(s, least) > 0 <==> exists i :: 0 <= i < |s| && s[i] >= least
  {
    if s != [] {
      CountGeSome(s[1..], least);
      if CountGe(s[1..], least) > 0 {
        var i :| 0 <= i < |s[1..]| && s[1..][i] >= least;
        assert s[i + 1] >= least;
      }
      assert s[0] >= least ==> CountGe(s, least) > 0;
      forall i | 0 < i < |s| && s[i] >= least ensures CountGe(s[1..], least) > 0 {
        assert s[1..][i - 1] >= least;
      }
    }
  }

  lemma HeadReaches(a: seq<real>, b: seq<real>)
    requires Descending(b) && a != []
    requires forall x :: CountGe(a, x) == CountGe(b, x)
    ensures b != [] && b[0] >= a[0]
  {
    CountGeSome(a, a[0]);
    CountGeSome(b, a[0]);
    assert CountGe(a, a[0]) == CountGe(b, a[0]);
    var i :| 0 <= i < |b| && b[i] >= a[0];
    assert i > 0 ==> b[0] >= b[i];
  }

  /** Scores that reach every threshold equally often have one descending arrangement. */
  lemma {:induction false} DescendingUnique(a: seq<real>, b: seq<real>)
    requires Descending(a) && Descending(b)
    requires forall x :: CountGe(a, x) == CountGe(b, x)
    ensures a == b
  {
    if a == [] {
      if b != [] {
        HeadReaches(b, a);
      }
    } else {
      HeadReaches(a, b);
      HeadReaches(b, a);
      forall x ensures CountGe(a[1..], x) == CountGe(b[1..], x) {
        assert CountGe(a, x) == CountGe(b, x);
      }
      DescendingUnique(a[1..], b[1..]);
      assert a == [a[0]] + a[1..] && b == [b[0]] + b[1..];
    }
  }

  lemma Matching<T>(a: seq<T>, b: seq<T>) returns (k: nat)
    requires multiset(a) == multiset(b) && a != []
    ensures k < |b| && b[k] == a[0]
    ensures multiset(a[1..]) == multiset(Without(b, k))
  {
    assert a == [a[0]] + a[1..];
    assert a[0] in multiset(b);
    k :| 0 <= k < |b| && b[k] == a[0];
    assert b == b[..k] + [b[k]] + b[k + 1..];
    assert multiset(a[1..]) == multiset(b) - multiset{a[0]};
  }

  lemma {:induction false} CountGeWithout(s: seq<real>, k: nat, least: real)
    requires k < |s|
    ensures CountGe(s, least) == CountGe(Without(s, k), least) + if s[k] >= least then 1 else 0
  {
    if k == 0 {
      assert Without(s, 0) == s[1..];
    } else {
      CountGeWithout(s[1..], k - 1, least);
      assert Without(s, k)[1..] == Without(s[1..], k - 1);
    }
  }

  lemma ScoresWithout<T>(s: seq<T>, score: T -> real, k: nat)
    requires k < |s|
    ensures Scores(Without(s, k), score) == Without(Scores(s, score), k)
  {
    hide Scores;
    var short := Without(s, k);
    forall i | 0 <= i < |short| ensures Scores(short, score)[i] == Without(Scores(s, score), k)[i] {
      assert short[i] == s[if i < k then i else i + 1];
    }
  }

  lemma {:induction false} ScoresCount<T>(a: seq<T>, b: seq<T>, score: T -> real, least: real)
    requires multiset(a) == multiset(b)
    ensures CountGe(Scores(a, score), least) == CountGe(Scores(b, score), least)
    decreases a
  {
    hide Without;
    if a == [] {
      assert |b| == |multiset(b)|;
    } else {
      var k := Matching(a, b);
      ScoresCount(a[1..], Without(b, k), score, least);
      ScoresWithout(b, score, k);
      CountGeWithout(Scores(b, score), k, least);
    }
  }

  lemma {:induction false} ChunksOfMultiset(a: seq<ChunkHit>, b: seq<ChunkHit>, p: string)
    requires multiset(a) == multiset(b)
    ensures multiset(ChunksOf(a, p)) == multiset(ChunksOf(b, p))
  {
    forall c ensures multiset(ChunksOf(a, p))[c] == multiset(ChunksOf(b, p))[c] {
      ChunksOfCount(a, p, c);
      ChunksOfCount(b, p, c);
    }
  }

  lemma {:induction false} ChunksOfCount(s: seq<ChunkHit>, p: string, c: ChunkHit)
    ensures multiset(ChunksOf(s, p))[c] == if c.postId == p then multiset(s)[c] else 0
  {
    if s != [] {
      ChunksOfCount(Init(s), p, c);
      assert s == Init(s) + [Last(s)];
    }
  }

  lemma SortedScores(s: seq<ChunkHit>)
    requires Sorted(s, ByChunkScore())
    ensures Descending(Scores(s, ChunkScore))
  {
    hide Scores;
    forall i, j | 0 <= i < j < |s| ensures s[i].score >= s[j].score {
      assert ByChunkScore()(s[i], s[j]);
    }
  }

  lemma SortedGroup(group: seq<ChunkHit>)
    requires group != []
    ensures var sorted := Sort(group, ByChunkScore());
            && sorted != []
            && Descending(Scores(sorted, ChunkScore))
            && multiset(sorted) == multiset(group)
            && forall c :: c in group ==> c.score <= sorted[0].score
  {
    OrdersAreTotal();
    SortCorrect(group, ByChunkScore());
    hide Sort, Scores;
    var sorted := Sort(group, ByChunkScore());
    SortedScores(sorted);
    forall c | c in group ensures c.score <= sorted[0].score {
      assert c in multiset(sorted);
      var i :| 0 <= i < |sorted| && sorted[i] == c;
      assert i > 0 ==> ByChunkScore()(sorted[0], sorted[i]);
    }
  }

  /** A post's score is a function of its chunks as a multiset: the best score and a fifth of the second best. */
  lemma ScoreIsOrderFree(p: string, a: seq<ChunkHit>, b: seq<ChunkHit>)
    requires multiset(a) == multiset(b) && a != [] && b != []
    ensures Sort(a, ByChunkScore()) != [] && Sort(b, ByChunkScore()) != []
    ensures ToPost(p, a).score == ToPost(p, b).score && ToPost(p, a).bestScore == ToPost(p, b).bestScore
    ensures forall c :: c in a ==> c.score <= ToPost(p, a).bestScore
  {
    var sa, sb := Sort(a, ByChunkScore()), Sort(b, ByChunkScore());
    hide Sort, Scores, CountGe, Descending;
    SortedGroup(a);
    SortedGroup(b);
    forall x ensures CountGe(Scores(sa, ChunkScore), x) == CountGe(Scores(sb, ChunkScore), x) {
      ScoresCount(sa, sb, ChunkScore, x);
    }
    DescendingUnique(Scores(sa, ChunkScore), Scores(sb, ChunkScore));
    assert sa[0].score == Scores(sa, ChunkScore)[0];
    if |sa| > 1 {
      assert sa[1].score == Scores(sa, ChunkScore)[1];
    }
  }

  lemma ReachedTwice(s: seq<real>, least: real)
    requires Descending(s)
    ensures CountGe(s, least) >= 1 <==> |s| > 0 && least <= s[0]
    ensures CountGe(s, least) >= 2 <==> |s| > 1 && least <= s[1]
  {
    CountGeSome(s, least);
    if s != [] {
      CountGeSome(s[1..], least);
      forall i | 0 <= i < |s[1..]| && s[1..][i] >= least ensures s[0] >= least && s[1] >= least {
        assert s[1..][i] == s[i + 1] && (i > 0 ==> s[1] >= s[i + 1]);
      }
      assert |s| > 1 ==> s[1..][0] == s[1];
    }
  }

  /**
   * A post's score is the best chunk score plus a fifth of the second best: `best` is the highest threshold
   * some chunk reaches, and `second` the highest that two reach.
   */
  lemma ScoreIsBestAndFifthOfSecond(p: string, group: seq<ChunkHit>) returns (best: real, second: real)
    requires group != []
    ensures Sort(group, ByChunkScore()) != [] && ToPost(p, group).bestScore == best
    ensures ToPost(p, group).score == if |group| > 1 then best + 0.2 * second else best
    ensures forall x :: CountGe(Scores(group, ChunkScore), x) >= 1 <==> x <= best
    ensures forall x :: CountGe(Scores(group, ChunkScore), x) >= 2 <==> |group| > 1 && x <= second
  {
    var sorted := Sort(group, ByChunkScore());
    hide Sort, Scores, CountGe, Descending;
    SortedGroup(group);
    assert |multiset(sorted)| == |sorted| && |multiset(group)| == |group|;
    best, second := sorted[0].score, if |sorted| > 1 then sorted[1].score else 0.0;
    forall x
      ensures CountGe(Scores(group, ChunkScore), x) >= 1 <==> x <= best
      ensures CountGe(Scores(group, ChunkScore), x) >= 2 <==> |group| > 1 && x <= second
    {
      ScoresCount(sorted, group, ChunkScore, x);
      ReachedTwice(Scores(sorted, ChunkScore), x);
    }
  }

  function ScoreFor(p: string, chunks: seq<ChunkHit>): real {
    if p in PostIds(chunks) then GroupNotEmpty(chunks, p); ToPost(p, ChunksOf(chunks, p)).score else 0.0
  }

  function ScoreIn(chunks: seq<ChunkHit>): string -> real {
    p => ScoreFor(p, chunks)
  }

  lemma {:induction false} PostsForScores(ids: seq<string>, chunks: seq<ChunkHit>, i: nat)
    requires forall p :: p in ids ==> p in PostIds(chunks)
    requires i < |ids|
    ensures PostsFor(ids, chunks)[i].score == ScoreFor(ids[i], chunks)
  {
    hide PostIds, ChunksOf, ToPost, Sort;
    if i < |ids| - 1 {
      PostsForScores(Init(ids), chunks, i);
    } else {
      GroupNotEmpty(chunks, ids[i]);
    }
  }

  lemma SameScoresFor(a: seq<string>, b: seq<string>, chunks: seq<ChunkHit>, chunks': seq<ChunkHit>, least: real)
    requires multiset(a) == multiset(b)
    requires forall p :: ScoreFor(p, chunks) == ScoreFor(p, chunks')
    ensures CountGe(Scores(a, ScoreIn(chunks)), least) == CountGe(Scores(b, ScoreIn(chunks')), least)
  {
    hide ScoreFor, Scores, CountGe;
    ScoresCount(a, b, ScoreIn(chunks), least);
    assert Scores(b, ScoreIn(chunks)) == Scores(b, ScoreIn(chunks'));
  }

  lemma SameIds(chunks: seq<ChunkHit>, chunks': seq<ChunkHit>)
    requires multiset(chunks) == multiset(chunks')
    ensures multiset(PostIds(chunks)) == multiset(PostIds(chunks'))
    ensures forall p :: p in PostIds(chunks) <==> p in PostIds(chunks')
  {
    PostIdsDistinct(chunks);
    PostIdsDistinct(chunks');
    forall p ensures p in PostIds(chunks) <==> p in PostIds(chunks') {
      forall c ensures c in chunks <==> c in chunks' {
        assert c in multiset(chunks) <==> c in multiset(chunks');
      }
    }
    DistinctMultiset(PostIds(chunks), PostIds(chunks'));
  }

  /**
   * The outcome does not depend on the order in which chunk hits arrive: the same posts, each with the same
   * score, and the same scores at every place of the ranking.
   */
  lemma AggregationIsOrderFree(chunks: seq<ChunkHit>, chunks': seq<ChunkHit>)
    requires multiset(chunks) == multiset(chunks')
    ensures |PostIds(chunks)| == |PostIds(chunks')|
    ensures forall p :: p in PostIds(chunks) <==> p in PostIds(chunks')
    ensures forall p :: ScoreFor(p, chunks) == ScoreFor(p, chunks')
    ensures Scores(Ranking(chunks), PostScore) == Scores(Ranking(chunks'), PostScore)
  {
    hide Sort, PostIds, ChunksOf, ScoreFor, Ranking, Scores, CountGe, Descending;
    SameIds(chunks, chunks');
    assert |multiset(PostIds(chunks))| == |PostIds(chunks)| && |multiset(PostIds(chunks'))| == |PostIds(chunks')|;
    forall p ensures ScoreFor(p, chunks) == ScoreFor(p, chunks') {
      SameScore(p, chunks, chunks');
    }
    RankingDescends(chunks);
    RankingDescends(chunks');
    RankedScores(chunks);
    RankedScores(chunks');
    var a, b := Scores(Ranking(chunks), PostScore), Scores(Ranking(chunks'), PostScore);
    forall x ensures CountGe(a, x) == CountGe(b, x) {
      SameScoresFor(PostIds(chunks), PostIds(chunks'), chunks, chunks', x);
    }
    DescendingUnique(a, b);
  }

  lemma SameScore(p: string, chunks: seq<ChunkHit>, chunks': seq<ChunkHit>)
    requires multiset(chunks) == multiset(chunks')
    ensures ScoreFor(p, chunks) == ScoreFor(p, chunks')
  {
    hide Sort, PostIds, ChunksOf, ToPost;
    SameIds(chunks, chunks');
    if p in PostIds(chunks) {
      GroupNotEmpty(chunks, p);
      GroupNotEmpty(chunks', p);
      ChunksOfMultiset(chunks, chunks', p);
      ScoreIsOrderFree(p, ChunksOf(chunks, p), ChunksOf(chunks', p));
    }
  }

  lemma SameScores(chunks: seq<ChunkHit>)
    ensures Scores(PostsFor(PostIds(chunks), chunks), PostScore) == Scores(PostIds(chunks), ScoreIn(chunks))
  {
    hide PostsFor, PostIds, Scores, ScoreFor;
    var ids := PostIds(chunks);
    var posts := PostsFor(ids, chunks);
    forall i | 0 <= i < |ids| ensures posts[i].score == ScoreFor(ids[i], chunks) {
      PostsForScores(ids, chunks, i);
    }
  }

  lemma RankingDescends(chunks: seq<ChunkHit>)
    ensures Descending(Scores(Ranking(chunks), PostScore))
  {
    var ranked := Ranking(chunks);
    OrdersAreTotal();
    SortCorrect(PostsFor(PostIds(chunks), chunks), ByPostRank());
    assert Sorted(ranked, ByPostRank());
    hide Sort, PostsFor, Ranking, PostIds, Scores;
    forall i, j | 0 <= i < j < |ranked| ensures Scores(ranked, PostScore)[i] >= Scores(ranked, PostScore)[j] {
      assert ByPostRank()(ranked[i], ranked[j]);
    }
  }

  lemma RankedScores(chunks: seq<ChunkHit>)
    ensures forall x :: CountGe(Scores(Ranking(chunks), PostScore), x)
                        == CountGe(Scores(PostIds(chunks), ScoreIn(chunks)), x)
  {
    var posts, ranked := PostsFor(PostIds(chunks), chunks), Ranking(chunks);
    OrdersAreTotal();
    SortCorrect(posts, ByPostRank());
    assert multiset(ranked) == multiset(posts);
    hide Sort, PostsFor, Ranking, PostIds, Scores, CountGe, ScoreFor, Sorted, ByPostRank;
    SameScores(chunks);
    forall x ensures CountGe(Scores(ranked, PostScore), x) == CountGe(Scores(posts, PostScore), x) {
      ScoresCount(ranked, posts, PostScore, x);
    }
  }

  /** The ranking holds every post of the hits exactly once, best score first and newest first among equals. */
  lemma RankingIsOrdered(chunks: seq<ChunkHit>)
    ensures multiset(Ranking(chunks)) == multiset(PostsFor(PostIds(chunks), chunks))
    ensures |Ranking(chunks)| == |PostIds(chunks)|
    ensures forall i, j :: 0 <= i < j < |Ranking(chunks)| ==>
                             var a, b := Ranking(chunks)[i], Ranking(chunks)[j];
                             && a.score >= b.score
                             && (a.score == b.score ==> a.createdAt.GetOr(0) >= b.createdAt.GetOr(0))
  {
    var posts, ranked := PostsFor(PostIds(chunks), chunks), Ranking(chunks);
    OrdersAreTotal();
    SortCorrect(posts, ByPostRank());
    assert Sorted(ranked, ByPostRank());
    hide Sort, PostsFor, Ranking, PostIds;
    assert |multiset(ranked)| == |ranked| && |multiset(posts)| == |posts|;
    forall i, j | 0 <= i < j < |ranked| ensures ByPostRank()(ranked[i], ranked[j]) {
    }
  }

  // What a post shows

  /** Sorting by score puts the first of the best chunks in front. */
  lemma {:induction false} BestFirst(s: seq<ChunkHit>) returns (i: nat)
    requires s != []
    ensures i < |s| && Sort(s, ByChunkScore()) != [] && Sort(s, ByChunkScore())[0] == s[i]
    ensures forall j :: 0 <= j < |s| ==> s[j].score <= s[i].score
    ensures forall j :: 0 <= j < i ==> s[j].score < s[i].score
  {
    var rest := s[1..];
    if rest == [] {
      i := 0;
      assert Sort(rest, ByChunkScore()) == [];
    } else {
      var j := BestFirst(rest);
      i := if s[0].score >= rest[j].score then 0 else j + 1;
      forall k | 0 < k < |s| ensures s[k] == rest[k - 1] {
      }
    }
  }

  /** The chunk that stands for its post: the first of those with the best score. */
  ghost predicate IsBestOf(chunks: seq<ChunkHit>, p: string, i: nat) {
    && i < |chunks| && chunks[i].postId == p
    && (forall j :: 0 <= j < |chunks| && chunks[j].postId == p ==> chunks[j].score <= chunks[i].score)
    && (forall j :: 0 <= j < i && chunks[j].postId == p ==> chunks[j].score < chunks[i].score)
  }

  ghost predicate IsAmongFirst(group: seq<ChunkHit>, n: nat, c: ChunkHit) {
    exists m :: 0 <= m < n <= |group| && group[m] == c
  }

  lemma {:induction false} PlaceInGroup(chunks: seq<ChunkHit>, p: string, n: nat) returns (i: nat)
    requires n < |ChunksOf(chunks, p)|
    ensures i < |chunks| && chunks[i] == ChunksOf(chunks, p)[n]
    ensures forall j :: 0 <= j < i && chunks[j].postId == p ==> IsAmongFirst(ChunksOf(chunks, p), n, chunks[j])
  {
    var init, last := Init(chunks), Last(chunks);
    var before, group := ChunksOf(init, p), ChunksOf(chunks, p);
    assert group == before + if last.postId == p then [last] else [];
    hide ChunksOf;
    if n < |before| {
      i := PlaceInGroup(init, p, n);
      forall j | 0 <= j < i && chunks[j].postId == p ensures IsAmongFirst(group, n, chunks[j]) {
        assert IsAmongFirst(before, n, init[j]);
        var m :| 0 <= m < n <= |before| && before[m] == init[j];
        assert group[m] == chunks[j];
      }
    } else {
      i := |chunks| - 1;
      forall j | 0 <= j < i && chunks[j].postId == p ensures IsAmongFirst(group, n, chunks[j]) {
        assert init[j] in before;
        var m :| 0 <= m < |before| && before[m] == init[j];
        assert group[m] == chunks[j];
      }
    }
  }

  /** A post shows title, date, index, text and score of the first of its best chunks. */
  lemma PostShowsBest(chunks: seq<ChunkHit>, x: PostHit)
    requires x in Ranking(chunks)
    ensures exists i: nat :: IsBestOf(chunks, x.postId, i) && IsShownBy(x, chunks[i])
  {
    hide Sort, ChunksOf, PostIds, ByPostRank, ByChunkScore;
    var ids := PostIds(chunks);
    RankingIsOrdered(chunks);
    assert x in multiset(Ranking(chunks));
    assert x in multiset(PostsFor(ids, chunks));
    var k :| 0 <= k < |ids| && PostsFor(ids, chunks)[k] == x;
    PostAt(ids, chunks, k);
    GroupNotEmpty(chunks, ids[k]);
    var group := ChunksOf(chunks, ids[k]);
    var n := BestFirst(group);
    var i := PlaceInGroup(chunks, ids[k], n);
    BestInAll(chunks, ids[k], n, i);
    assert IsShownBy(x, chunks[i]);
  }

  predicate IsShownBy(x: PostHit, c: ChunkHit) {
    && x.title == c.title && x.createdAt == c.createdAt && x.bestIndex == c.chunkIndex
    && x.snippet == c.chunk && x.bestScore == c.score
  }

  lemma BestInAll(chunks: seq<ChunkHit>, p: string, n: nat, i: nat)
    requires var group := ChunksOf(chunks, p);
             && n < |group| && i < |chunks| && chunks[i] == group[n]
             && (forall m :: 0 <= m < |group| ==> group[m].score <= group[n].score)
             && (forall m :: 0 <= m < n ==> group[m].score < group[n].score)
             && (forall j :: 0 <= j < i && chunks[j].postId == p ==> IsAmongFirst(group, n, chunks[j]))
    ensures IsBestOf(chunks, p, i)
  {
    hide ChunksOf;
    var group := ChunksOf(chunks, p);
    assert group[n] in group;
    forall j | 0 <= j < |chunks| && chunks[j].postId == p ensures chunks[j].score <= chunks[i].score {
      assert chunks[j] in group;
      var m :| 0 <= m < |group| && group[m] == chunks[j];
    }
  }

  lemma {:induction false} PostAt(ids: seq<string>, chunks: seq<ChunkHit>, k: nat)
    requires k < |ids| && forall p :: p in ids ==> p in PostIds(chunks)
    ensures ChunksOf(chunks, ids[k]) != [] && Sort(ChunksOf(chunks, ids[k]), ByChunkScore()) != []
    ensures PostsFor(ids, chunks)[k] == ToPost(ids[k], ChunksOf(chunks, ids[k]))
  {
    hide PostIds, ChunksOf, ToPost, Sort;
    GroupNotEmpty(chunks, ids[k]);
    if k < |ids| - 1 {
      PostAt(Init(ids), chunks, k);
    }
  }

  /** The page size is the limit brought between 1 and 10, 10 without one; the offset is not negative. */
  lemma PageBounds(limit: Option<int>, offset: Option<int>)
    ensures limit.None? ==> PageSize(limit) == 10
    ensures limit.Some? ==> (1 <= limit.value <= 10 ==> PageSize(limit) == limit.value)
                            && (limit.value < 1 ==> PageSize(limit) == 1)
                            && (limit.value > 10 ==> PageSize(limit) == 10)
    ensures PageStart(offset) == if offset.Some? && offset.value > 0 then offset.value else 0
  {
  }

  // Pages

  function PagesFrom<T>(s: seq<T>, offset: nat, limit: nat): seq<seq<T>>
    requires limit > 0
    decreases |s| - offset
  {
    if offset >= |s| then [] else [Page(s, offset, limit)] + PagesFrom(s, offset + limit, limit)
  }

  /** Pages at successive offsets make up the ranking, with nothing lost or repeated. */
  lemma {:induction false} PagesMakeUp<T>(s: seq<T>, offset: nat, limit: nat)
    requires limit > 0
    ensures Concat(PagesFrom(s, offset, limit)) == if offset >= |s| then [] else s[offset..]
    decreases |s| - offset
  {
    if offset < |s| {
      PagesMakeUp(s, offset + limit, limit);
      assert PagesFrom(s, offset, limit)[1..] == PagesFrom(s, offset + limit, limit);
      if offset + limit < |s| {
        assert s[offset..offset + limit] + s[offset + limit..] == s[offset..];
      } else {
        assert s[offset..] + [] == s[offset..];
      }
    }
  }
}
