/**
 * Cutting a post into overlapping chunks (`chunkText` of src/services/embedding.service.ts), given the tokens
 * of its sentences; a chunk is kept as its tokens, the tokenizer's decoding being left aside.
 */
module Chunking {
  import opened Sequences

  type Token = nat

  const CHUNK_SIZE := 512
  const CHUNK_OVERLAP := 50

  /** Where JavaScript's `slice(len - 50)` starts: a negative argument counts from the end. */
  function OverlapStart(len: nat): (k: nat)
    ensures k <= len
  {
    if len >= CHUNK_OVERLAP then len - CHUNK_OVERLAP
    else if 2 * len >= CHUNK_OVERLAP then 2 * len - CHUNK_OVERLAP
    else 0
  }

  /** What the next chunk repeats of a finished one. */
  function Tail(chunk: seq<Token>): seq<Token> {
    chunk[OverlapStart(|chunk|)..]
  }

  /**
   * The repeated part is never longer than 50 tokens. It is the last 50, or the whole chunk when that is
   * shorter, if and only if the chunk has at most 25 or at least 50 tokens; in between the negative slice
   * argument cuts it down.
   */
  lemma OverlapLength(chunk: seq<Token>)
    ensures |Tail(chunk)| <= CHUNK_OVERLAP
    ensures |Tail(chunk)| == (if |chunk| < CHUNK_OVERLAP then |chunk| else CHUNK_OVERLAP)
            <==> |chunk| <= 25 || |chunk| >= CHUNK_OVERLAP
  {
  }

  /** The chunks still to come when `current` is being filled. */
  function ChunksFrom(current: seq<Token>, sentences: seq<seq<Token>>): seq<seq<Token>>
    decreases |sentences|
  {
    if sentences == [] then (if current == [] then [] else [current])
    else if |current| + |sentences[0]| > CHUNK_SIZE then
      [current] + ChunksFrom(Tail(current) + sentences[0], sentences[1..])
    else ChunksFrom(current + sentences[0], sentences[1..])
  }

  method ChunkText(sentences: seq<seq<Token>>) returns (chunks: seq<seq<Token>>)
    ensures chunks == ChunksFrom([], sentences)
  {
    chunks := [];
    var currentChunk: seq<Token> := [];
    assert sentences[0..] == sentences;
    for i := 0 to |sentences|
      invariant chunks + ChunksFrom(currentChunk, sentences[i..]) == ChunksFrom([], sentences)
    {
      var sentenceTokens := sentences[i];
      assert sentences[i..][0] == sentenceTokens && sentences[i..][1..] == sentences[i + 1..];
      if |currentChunk| + |sentenceTokens| > CHUNK_SIZE {
        SeqAssoc(chunks, [currentChunk], ChunksFrom(Tail(currentChunk) + sentenceTokens, sentences[i + 1..]));
        chunks := chunks + [currentChunk];
        currentChunk := currentChunk[OverlapStart(|currentChunk|)..];
      }
      currentChunk := currentChunk + sentenceTokens;
    }
    if |currentChunk| > 0 {
      chunks := chunks + [currentChunk];
    }
  }

  /** Each chunk begins with what it repeats of the one before. */
  ghost predicate Overlap(chunks: seq<seq<Token>>) {
    forall i :: 0 < i < |chunks| ==> Tail(chunks[i - 1]) <= chunks[i]
  }

  /** The tokens of the chunks after `previous`, without the repeated parts. */
  function Rest(previous: seq<Token>, chunks: seq<seq<Token>>): seq<Token>
    decreases |chunks|
  {
    if chunks == [] then []
    else
      var repeated := |Tail(previous)|;
      (if repeated <= |chunks[0]| then chunks[0][repeated..] else []) + Rest(chunks[0], chunks[1..])
  }

  function Rebuilt(chunks: seq<seq<Token>>): seq<Token> {
    if chunks == [] then [] else chunks[0] + Rest(chunks[0], chunks[1..])
  }

  lemma {:induction false} ChunksRebuild(current: seq<Token>, sentences: seq<seq<Token>>)
    ensures var chunks := ChunksFrom(current, sentences);
            && Rebuilt(chunks) == current + Concat(sentences)
            && Overlap(chunks)
            && (current != [] ==> chunks != [])
            && (chunks != [] ==> current <= chunks[0])
    decreases |sentences|
  {
    if sentences == [] {
      if current != [] {
        assert [current][1..] == [];
      }
    } else {
      var first, later := sentences[0], sentences[1..];
      SeqAssoc(current, first, Concat(later));
      if |current| + |first| > CHUNK_SIZE {
        var start := Tail(current) + first;
        ChunksRebuild(start, later);
        FlushedRebuild(current, first, later, ChunksFrom(start, later));
      } else {
        ChunksRebuild(current + first, later);
      }
    }
  }

  lemma FlushedRebuild(current: seq<Token>, first: seq<Token>, later: seq<seq<Token>>, chunks: seq<seq<Token>>)
    requires chunks != [] && Tail(current) + first <= chunks[0] && Overlap(chunks)
    requires Rebuilt(chunks) == Tail(current) + first + Concat(later)
    ensures Rebuilt([current] + chunks) == current + first + Concat(later)
    ensures Overlap([current] + chunks)
  {
    hide Tail;
    var n, all := |Tail(current)|, [current] + chunks;
    assert all[1..] == chunks;
    assert Tail(current) <= chunks[0];
    assert Rebuilt(chunks)[n..] == chunks[0][n..] + Rest(chunks[0], chunks[1..]);
    assert (Tail(current) + first + Concat(later))[n..] == first + Concat(later);
    assert current + (first + Concat(later)) == current + first + Concat(later);
    forall i | 0 < i < |all| ensures Tail(all[i - 1]) <= all[i] {
      if i > 1 {
        assert Tail(chunks[i - 2]) <= chunks[i - 1];
      }
    }
  }

  /** Chunking loses and invents nothing: without the overlaps, the chunks are the token stream of the text. */
  lemma ChunkingLosesNothing(sentences: seq<seq<Token>>)
    ensures Rebuilt(ChunksFrom([], sentences)) == Concat(sentences)
    ensures Overlap(ChunksFrom([], sentences))
  {
    ChunksRebuild([], sentences);
    assert [] + Concat(sentences) == Concat(sentences);
  }

  function ChunkBound(longest: nat): nat {
    if 50 + longest > 512 then 50 + longest else 512
  }

  /** No chunk is over 512 tokens, unless a single sentence forces it to overlap plus sentence. */
  lemma {:induction false} ChunksAreBounded(current: seq<Token>, sentences: seq<seq<Token>>, longest: nat)
    requires forall s :: s in sentences ==> |s| <= longest
    requires |current| <= ChunkBound(longest)
    ensures forall c :: c in ChunksFrom(current, sentences) ==> |c| <= ChunkBound(longest)
    decreases |sentences|
  {
    if sentences != [] {
      assert sentences[0] in sentences;
      if |current| + |sentences[0]| > CHUNK_SIZE {
        OverlapLength(current);
        ChunksAreBounded(Tail(current) + sentences[0], sentences[1..], longest);
      } else {
        ChunksAreBounded(current + sentences[0], sentences[1..], longest);
      }
    }
  }

  /** The first sentence that has tokens has more than a chunk can hold. */
  predicate OpensTooLong(sentences: seq<seq<Token>>) {
    sentences != [] && if sentences[0] == [] then OpensTooLong(sentences[1..]) else |sentences[0]| > 512
  }

  lemma {:induction false} FilledChunks(current: seq<Token>, sentences: seq<seq<Token>>)
    requires current != []
    ensures forall c :: c in ChunksFrom(current, sentences) ==> c != []
    decreases |sentences|
  {
    if sentences != [] {
      if |current| + |sentences[0]| > CHUNK_SIZE {
        FilledChunks(Tail(current) + sentences[0], sentences[1..]);
      } else {
        FilledChunks(current + sentences[0], sentences[1..]);
      }
    }
  }

  /** Only the first chunk can be empty, and it is if and only if the text opens with an overlong sentence. */
  lemma {:induction false} EmptyChunks(sentences: seq<seq<Token>>)
    ensures forall i :: 0 < i < |ChunksFrom([], sentences)| ==> ChunksFrom([], sentences)[i] != []
    ensures (ChunksFrom([], sentences) != [] && ChunksFrom([], sentences)[0] == []) <==> OpensTooLong(sentences)
    decreases |sentences|
  {
    if sentences != [] {
      var first := sentences[0];
      assert [] + first == first;
      if first == [] {
        EmptyChunks(sentences[1..]);
      } else if |first| > CHUNK_SIZE {
        assert Tail([]) + first == first;
        FilledChunks(first, sentences[1..]);
        var later := ChunksFrom(first, sentences[1..]);
        assert ChunksFrom([], sentences) == [[]] + later;
        forall i | 0 < i < |[[]] + later| ensures ([[]] + later)[i] != [] {
          assert later[i - 1] in later;
        }
      } else {
        FilledChunks(first, sentences[1..]);
        ChunksRebuild(first, sentences[1..]);
        var later := ChunksFrom(first, sentences[1..]);
        assert ChunksFrom([], sentences) == later;
        forall i | 0 <= i < |later| ensures later[i] != [] {
          assert later[i] in later;
        }
      }
    }
  }

  // A chunk is closed only when the next sentence does not fit

  /** The chunk is `base` and the taken sentences, each of which still fitted when it came, but for a forced first. */
  ghost predicate IsFilled(base: seq<Token>, forced: bool, taken: seq<seq<Token>>, chunk: seq<Token>) {
    && chunk == base + Concat(taken) && (forced ==> taken != [])
    && forall j :: 0 <= j < |taken| && !(forced && j == 0) ==>
                     |base| + |Concat(taken[..j])| + |taken[j]| <= 512
  }

  /** The first chunk takes `n` sentences, and is closed because there are no more or the next does not fit. */
  ghost predicate TakesRun(base: seq<Token>, forced: bool, sentences: seq<seq<Token>>, chunks: seq<seq<Token>>, n: nat)
    requires chunks != []
  {
    && n <= |sentences| && IsFilled(base, forced, sentences[..n], chunks[0])
    && if |chunks| == 1 then n == |sentences| else n < |sentences| && |chunks[0]| + |sentences[n]| > 512
  }

  /** Each chunk takes a run of sentences after what it repeats; every chunk but the first is forced to take one. */
  ghost predicate IsGreedy(base: seq<Token>, forced: bool, sentences: seq<seq<Token>>, chunks: seq<seq<Token>>)
    decreases |chunks|
  {
    && chunks != []
    && exists n: nat ::
         && TakesRun(base, forced, sentences, chunks, n)
         && (|chunks| > 1 ==> IsGreedy(Tail(chunks[0]), true, sentences[n..], chunks[1..]))
  }

  /** One more sentence in front: it fitted, or it was forced into a fresh chunk. */
  lemma FilledFirst(base: seq<Token>, forced: bool, first: seq<Token>, taken: seq<seq<Token>>, chunk: seq<Token>)
    requires IsFilled(base + first, false, taken, chunk) && (forced || |base| + |first| <= CHUNK_SIZE)
    ensures IsFilled(base, forced, [first] + taken, chunk)
  {
    var all := [first] + taken;
    SeqAssoc(base, first, Concat(taken));
    assert all[1..] == taken;
    forall j | 0 <= j < |all| && !(forced && j == 0) ensures |base| + |Concat(all[..j])| + |all[j]| <= CHUNK_SIZE {
      if j > 0 {
        assert all[..j][1..] == taken[..j - 1] && all[j] == taken[j - 1];
      } else {
        assert all[..0] == [];
      }
    }
  }

  lemma GreedyFirst(base: seq<Token>, forced: bool, sentences: seq<seq<Token>>, chunks: seq<seq<Token>>)
    requires sentences != [] && IsGreedy(base + sentences[0], false, sentences[1..], chunks)
    requires forced || |base| + |sentences[0]| <= CHUNK_SIZE
    ensures IsGreedy(base, forced, sentences, chunks)
  {
    hide IsFilled, Tail;
    var first, rest := sentences[0], sentences[1..];
    var n: nat :| TakesRun(base + first, false, rest, chunks, n)
                  && (|chunks| > 1 ==> IsGreedy(Tail(chunks[0]), true, rest[n..], chunks[1..]));
    FilledFirst(base, forced, first, rest[..n], chunks[0]);
    assert [first] + rest[..n] == sentences[..n + 1] && rest[n..] == sentences[n + 1..];
    assert TakesRun(base, forced, sentences, chunks, n + 1);
  }

  /**
   * Chunking is greedy: chunks take runs of sentences; each sentence still fitted when it was added, but for the
   * one that opens a new chunk; and a chunk is closed only because the next sentence did not fit.
   */
  lemma {:induction false} ChunkingIsGreedy(current: seq<Token>, sentences: seq<seq<Token>>)
    requires ChunksFrom(current, sentences) != []
    ensures IsGreedy(current, false, sentences, ChunksFrom(current, sentences))
    decreases |sentences|
  {
    NothingTaken(current);
    if sentences == [] {
      assert TakesRun(current, false, sentences, [current], 0);
    } else {
      var first, rest := sentences[0], sentences[1..];
      if |current| + |first| > CHUNK_SIZE {
        var start := Tail(current) + first;
        var chunks := ChunksFrom(start, rest);
        ChunksRebuild(start, rest);
        ChunkingIsGreedy(start, rest);
        GreedyFirst(Tail(current), true, sentences, chunks);
        hide Tail, ChunksFrom, IsFilled;
        var all := [current] + chunks;
        assert all[1..] == chunks && sentences[0..] == sentences && sentences[..0] == [];
        assert TakesRun(current, false, sentences, all, 0);
      } else {
        ChunkingIsGreedy(current + first, rest);
        GreedyFirst(current, false, sentences, ChunksFrom(current, sentences));
      }
    }
  }

  lemma NothingTaken(current: seq<Token>)
    ensures IsFilled(current, false, [], current)
  {
    assert current + [] == current;
  }
}
