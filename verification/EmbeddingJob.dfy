/**
 * What the worker does with one embedding job (`processJob` of src/worker/queue-consumer.ts): it stores the
 * post's title and chunks and drops the owner's cached answers. The posts, the cut of a text into the tokens
 * of its sentences, and which outside calls fail are given.
 */
module EmbeddingJob {
  import opened Options
  import opened Utf16
  import opened Sequences
  import opened Chunking
  import AnswerCache

  /** A flag of a job, as it comes out of the queue. */
  datatype Flag = Bool(value: bool) | Words(text: Text) | Other

  /** A job; `post` is its post id as a number, if it is one. */
  datatype Job = Job(post: Option<int>, title: Flag, content: Flag)

  datatype Post = Post(owner: string, title: Text, content: Text)

  /**
   * Which calls fail: storing the title, embedding or storing the chunks (which may leave the old chunks
   * deleted), and deleting the cached answers.
   */
  datatype Faults = Faults(title: bool, content: bool, chunksLost: bool, invalidation: bool)

  /** For each post, the title its embedding was made of and its stored chunks; and the cached answers. */
  datatype Tables = Tables(titles: map<int, Text>, chunks: map<int, seq<seq<Token>>>, answers: AnswerCache.Store)

  /** No letter outside ASCII lowers to one of `true`. */
  predicate IsSet(f: Flag) {
    match f
    case Bool(value) => value
    case Words(text) => LowerAscii(Trim(text)) == Ascii("true")
    case Other => false
  }

  predicate StoresTitle(job: Job, post: Post) {
    IsSet(job.title) && Trim(post.title) != []
  }

  function ChunksFor(post: Post, tokens: Text -> seq<seq<Token>>): seq<seq<Token>> {
    if Trim(post.content) == [] then [] else ChunksFrom([], tokens(Trim(post.content)))
  }

  predicate StoresChunks(job: Job, post: Post, tokens: Text -> seq<seq<Token>>) {
    IsSet(job.content) && ChunksFor(post, tokens) != []
  }

  /** The content is asked for and there is none to store: the job ends there. */
  predicate StopsShort(job: Job, post: Post, tokens: Text -> seq<seq<Token>>) {
    IsSet(job.content) && ChunksFor(post, tokens) == []
  }

  /** The tables after a job and whether it succeeded. */
  function Process(t: Tables, posts: map<int, Post>, job: Job, tokens: Text -> seq<seq<Token>>, faults: Faults):
    (Tables, bool)
  {
    if job.post.GetOr(0) <= 0 then (t, false)
    else if !IsSet(job.title) && !IsSet(job.content) then (t, true)
    else if job.post.value !in posts then (t, false)
    else ProcessPost(t, job.post.value, posts[job.post.value], job, tokens, faults)
  }

  function ProcessPost(t: Tables, id: int, post: Post, job: Job, tokens: Text -> seq<seq<Token>>, faults: Faults):
    (Tables, bool)
  {
    var titled := if StoresTitle(job, post) then t.(titles := t.titles[id := Trim(post.title)]) else t;
    var chunks := ChunksFor(post, tokens);
    var filled := if StoresChunks(job, post, tokens) then titled.(chunks := titled.chunks[id := chunks]) else titled;
    if StoresTitle(job, post) && faults.title then (t, false)
    else if StoresChunks(job, post, tokens) && faults.content then
      (if faults.chunksLost then titled.(chunks := titled.chunks - {id}) else titled, false)
    else if StopsShort(job, post, tokens) || faults.invalidation || !StoresSomething(job, post, tokens) then
      (filled, true)
    else (filled.(answers := AnswerCache.DeleteByOwner(t.answers, post.owner)), true)
  }

  /** The tables as the worker updates them. */
  class JobTables {
    var titles: map<int, Text>
    var chunks: map<int, seq<seq<Token>>>
    var answers: AnswerCache.Store

    function Now(): Tables
      reads this
    {
      Tables(titles, chunks, answers)
    }

    method ProcessJob(posts: map<int, Post>, job: Job, tokens: Text -> seq<seq<Token>>, faults: Faults)
      returns (ok: bool)
      modifies this
      ensures (Now(), ok) == Process(old(Now()), posts, job, tokens, faults)
    {
      hide ChunksFrom, Trim, IsSet;
      var postId := job.post.GetOr(0);
      if postId <= 0 {
        return false;
      }
      var shouldProcessTitle, shouldProcessContent := IsSet(job.title), IsSet(job.content);
      if !shouldProcessTitle && !shouldProcessContent {
        return true;
      }
      if postId !in posts {
        return false;
      }
      var post := posts[postId];
      var title, content := Trim(post.title), Trim(post.content);
      var invalidateCachedAnswers := false;
      if shouldProcessTitle && title != [] {
        if faults.title {
          return false;
        }
        titles := titles[postId := title];
        invalidateCachedAnswers := true;
      }
      if shouldProcessContent {
        if content == [] {
          return true;
        }
        var pieces := ChunkText(tokens(content));
        if pieces == [] {
          return true;
        }
        if faults.content {
          if faults.chunksLost {
            chunks := chunks - {postId};
          }
          return false;
        }
        chunks := chunks[postId := pieces];
        invalidateCachedAnswers := true;
      }
      if invalidateCachedAnswers && !faults.invalidation {
        answers := AnswerCache.DeleteByOwner(answers, post.owner);
      }
      ok := true;
    }
  }

  // What a job guarantees

  ghost predicate HasAnswers(answers: AnswerCache.Store, owner: string) {
    exists id :: id in answers.cache && answers.cache[id].owner == owner
  }

  /** The job changes what answers are drawn from. */
  predicate StoresSomething(job: Job, post: Post, tokens: Text -> seq<seq<Token>>) {
    StoresTitle(job, post) || StoresChunks(job, post, tokens)
  }

  /**
   * A successful job that stored something leaves no cached answer of the post's owner if and only if there
   * was none, or the deletion did not fail and the content, when asked for, was not empty: a stored title
   * with an empty content keeps the stale answers.
   */
  lemma StaleAnswersGone(t: Tables, posts: map<int, Post>, job: Job, tokens: Text -> seq<seq<Token>>, faults: Faults)
    requires job.post.GetOr(0) > 0 && job.post.value in posts
    requires Process(t, posts, job, tokens, faults).1
    requires StoresSomething(job, posts[job.post.value], tokens)
    ensures var post := posts[job.post.value];
            !HasAnswers(Process(t, posts, job, tokens, faults).0.answers, post.owner)
            <==> !HasAnswers(t.answers, post.owner) || (!faults.invalidation && !StopsShort(job, post, tokens))
  {
    hide ChunksFor, IsSet, Trim;
  }

  /** Whatever fails, the cached answers stay sound and those of other owners stay as they were. */
  lemma JobKeepsAnswersSound(t: Tables, posts: map<int, Post>, job: Job, tokens: Text -> seq<seq<Token>>,
                             faults: Faults)
    requires AnswerCache.Inv(t.answers)
    ensures var t' := Process(t, posts, job, tokens, faults).0;
            && AnswerCache.Inv(t'.answers)
            && forall id :: id in t.answers.cache
                            && (job.post.GetOr(0) in posts ==>
                                  t.answers.cache[id].owner != posts[job.post.GetOr(0)].owner) ==>
                              id in t'.answers.cache && t'.answers.cache[id] == t.answers.cache[id]
  {
    hide ChunksFor, IsSet, Trim, AnswerCache.Inv;
    if job.post.GetOr(0) in posts {
      AnswerCache.InvalidationKeepsInv(t.answers, posts[job.post.GetOr(0)].owner);
    }
  }

  /** One try of a job: the posts as they are then, and what fails. */
  datatype Try = Try(posts: map<int, Post>, faults: Faults)

  function ProcessOnce(t: Tables, job: Job, tokens: Text -> seq<seq<Token>>, one: Try): (Tables, bool) {
    Process(t, one.posts, job, tokens, one.faults)
  }

  /** The tables after a job was tried again and again, with other posts and other faults, while it failed. */
  function Tries(t: Tables, job: Job, tokens: Text -> seq<seq<Token>>, tries: seq<Try>): (Tables, bool)
    decreases |tries|
  {
    if tries == [] then (t, false)
    else
      var (t', ok) := ProcessOnce(t, job, tokens, tries[0]);
      if ok then (t', true) else Tries(t', job, tokens, tries[1..])
  }

  /** A try that comes to write the title, or the chunks, of its post. */
  predicate WritesTitle(job: Job, one: Try) {
    job.post.GetOr(0) in one.posts && StoresTitle(job, one.posts[job.post.GetOr(0)])
  }

  predicate WritesChunks(job: Job, tokens: Text -> seq<seq<Token>>, one: Try) {
    job.post.GetOr(0) in one.posts && StoresChunks(job, one.posts[job.post.GetOr(0)], tokens)
  }

  /** Tables that differ at most in the title and the chunks of one post. */
  predicate SameButFor(t: Tables, u: Tables, id: int) {
    t.answers == u.answers && t.titles - {id} == u.titles - {id} && t.chunks - {id} == u.chunks - {id}
  }

  lemma FailureWrites(t: Tables, job: Job, tokens: Text -> seq<seq<Token>>, one: Try)
    requires !ProcessOnce(t, job, tokens, one).1
    ensures var u := ProcessOnce(t, job, tokens, one).0;
            && SameButFor(u, t, job.post.GetOr(0))
            && (!WritesTitle(job, one) ==> u.titles == t.titles)
            && (!WritesChunks(job, tokens, one) ==> u.chunks == t.chunks)
  {
    hide ChunksFor, IsSet, Trim;
  }

  lemma SuccessOverwrites(t: Tables, u: Tables, job: Job, tokens: Text -> seq<seq<Token>>, one: Try)
    requires ProcessOnce(t, job, tokens, one).1 && SameButFor(u, t, job.post.GetOr(0))
    ensures ProcessOnce(u, job, tokens, one).1
    ensures var after, once := ProcessOnce(u, job, tokens, one).0, ProcessOnce(t, job, tokens, one).0;
            && SameButFor(after, once, job.post.GetOr(0))
            && (WritesTitle(job, one) || u.titles == t.titles ==> after.titles == once.titles)
            && (WritesChunks(job, tokens, one) || u.chunks == t.chunks ==> after.chunks == once.chunks)
  {
    hide ChunksFor, IsSet, Trim;
    var id := job.post.GetOr(0);
    if id > 0 && id in one.posts {
      var post := one.posts[id];
      SameEntry(t.titles, u.titles, id, Trim(post.title));
      SameEntry(t.chunks, u.chunks, id, ChunksFor(post, tokens));
    }
  }

  lemma SameEntry<V>(a: map<int, V>, b: map<int, V>, id: int, v: V)
    requires a - {id} == b - {id}
    ensures a[id := v] == b[id := v]
  {
    assert forall k :: k in a && k != id ==> k in a - {id};
    assert forall k :: k in b && k != id ==> k in b - {id};
  }

  /** Whether a job succeeds depends on the job, its post and what fails, not on the tables. */
  lemma SuccessIgnoresTables(t: Tables, u: Tables, job: Job, tokens: Text -> seq<seq<Token>>, one: Try)
    ensures ProcessOnce(t, job, tokens, one).1 == ProcessOnce(u, job, tokens, one).1
  {
    hide ChunksFor, IsSet, Trim;
  }

  /**
   * The tries leave the tables as if the `i`-th had been the only one, but for the title or the chunks of the
   * post where an earlier try came to write them and the `i`-th does not, its post having changed.
   */
  ghost predicate IsAsOnly(t: Tables, job: Job, tokens: Text -> seq<seq<Token>>, tries: seq<Try>, result: Tables,
                           i: nat)
    requires i < |tries|
  {
    var once := ProcessOnce(t, job, tokens, tries[i]).0;
    && SameButFor(result, once, job.post.GetOr(0))
    && (WritesTitle(job, tries[i]) || NoTitle(job, tries[..i]) ==> result.titles == once.titles)
    && (WritesChunks(job, tokens, tries[i]) || NoChunks(job, tokens, tries[..i]) ==> result.chunks == once.chunks)
  }

  ghost predicate NoTitle(job: Job, tries: seq<Try>) {
    forall one :: one in tries ==> !WritesTitle(job, one)
  }

  ghost predicate NoChunks(job: Job, tokens: Text -> seq<seq<Token>>, tries: seq<Try>) {
    forall one :: one in tries ==> !WritesChunks(job, tokens, one)
  }

  /** The first try that succeeds. */
  ghost predicate SucceedsAt(t: Tables, job: Job, tokens: Text -> seq<seq<Token>>, tries: seq<Try>, i: nat) {
    && i < |tries| && ProcessOnce(t, job, tokens, tries[i]).1
    && forall k :: 0 <= k < i ==> !ProcessOnce(t, job, tokens, tries[k]).1
  }

  /** A job that comes to succeed leaves the tables as if its last try had been its only one, as far as that goes. */
  lemma {:induction false} RetryConverges(t: Tables, job: Job, tokens: Text -> seq<seq<Token>>, tries: seq<Try>)
    returns (i: nat)
    requires Tries(t, job, tokens, tries).1
    ensures SucceedsAt(t, job, tokens, tries, i)
    ensures IsAsOnly(t, job, tokens, tries, Tries(t, job, tokens, tries).0, i)
    decreases |tries|
  {
    hide ProcessOnce, WritesTitle, WritesChunks;
    var (u, ok) := ProcessOnce(t, job, tokens, tries[0]);
    if ok {
      i := 0;
    } else {
      var later := tries[1..];
      var j := RetryConverges(u, job, tokens, later);
      i := j + 1;
      assert tries[i] == later[j];
      forall k | 0 <= k < |later|
        ensures ProcessOnce(u, job, tokens, later[k]).1 == ProcessOnce(t, job, tokens, tries[k + 1]).1
      {
        SuccessIgnoresTables(u, t, job, tokens, later[k]);
      }
      forall k | 0 <= k < i ensures !ProcessOnce(t, job, tokens, tries[k]).1 {
        assert k > 0 ==> tries[k] == later[k - 1];
      }
      FailureWrites(t, job, tokens, tries[0]);
      SuccessOverwrites(t, u, job, tokens, tries[i]);
      assert tries[..i] == [tries[0]] + later[..j];
    }
  }

  /** With the post as it was, that is all: the tables are those of a single success. */
  lemma RetryOfSamePost(t: Tables, job: Job, tokens: Text -> seq<seq<Token>>, tries: seq<Try>) returns (i: nat)
    requires Tries(t, job, tokens, tries).1
    requires forall one :: one in tries ==> one.posts == tries[0].posts
    ensures SucceedsAt(t, job, tokens, tries, i)
    ensures Tries(t, job, tokens, tries).0 == ProcessOnce(t, job, tokens, tries[i]).0
  {
    hide ProcessOnce, StoresTitle, StoresChunks;
    i := RetryConverges(t, job, tokens, tries);
    assert tries[i] in tries;
    assert forall one :: one in tries[..i] ==> one in tries;
  }

  /** A title blanked while the job backs off stays, where a single success would not have stored it. */
  lemma BlankedTitleStays(t: Tables, job: Job, tokens: Text -> seq<seq<Token>>, first: Try, last: Try)
    requires job.post.GetOr(0) > 0 && WritesTitle(job, first) && WritesChunks(job, tokens, first)
    requires first.faults == Faults(false, true, false, false)
    requires !WritesTitle(job, last) && ProcessOnce(t, job, tokens, last).1
    ensures var id, result := job.post.value, Tries(t, job, tokens, [first, last]);
            && result.1
            && id in result.0.titles && result.0.titles[id] == Trim(first.posts[id].title)
            && ProcessOnce(t, job, tokens, last).0.titles == t.titles
  {
    hide ChunksFor, IsSet, Trim;
    var (u, ok) := ProcessOnce(t, job, tokens, first);
    assert [first, last][1..] == [last];
    SuccessIgnoresTables(t, u, job, tokens, last);
    assert Tries(t, job, tokens, [first, last]) == Tries(u, job, tokens, [last]);
  }

  /** After a success that stored chunks, the stored chunks hold exactly the text's tokens, overlaps aside. */
  lemma StoredChunksHoldTheText(t: Tables, posts: map<int, Post>, job: Job, tokens: Text -> seq<seq<Token>>,
                                faults: Faults)
    requires job.post.GetOr(0) > 0 && job.post.value in posts
    requires Process(t, posts, job, tokens, faults).1 && StoresChunks(job, posts[job.post.value], tokens)
    ensures var id, t' := job.post.value, Process(t, posts, job, tokens, faults).0;
            && id in t'.chunks
            && Rebuilt(t'.chunks[id]) == Concat(tokens(Trim(posts[id].content)))
  {
    hide IsSet, Trim, Rebuilt, Concat;
    ChunkingLosesNothing(tokens(Trim(posts[job.post.value].content)));
  }

  // Flags and outcomes

  /** The four letters of "true", each in either case. */
  predicate SpellsTrue(w: Text) {
    && |w| == 4 && (w[0] == 0x74 || w[0] == 0x54) && (w[1] == 0x72 || w[1] == 0x52)
    && (w[2] == 0x75 || w[2] == 0x55) && (w[3] == 0x65 || w[3] == 0x45)
  }

  ghost predicate IsTrueInSpaces(text: Text) {
    exists pre, word, post ::
      text == pre + word + post && AllSpaces(pre) && AllSpaces(post) && SpellsTrue(word)
  }

  lemma LoweredTrue(w: Text)
    ensures LowerAscii(w) == Ascii("true") <==> SpellsTrue(w)
  {
    hide LowerAscii;
    assert Ascii("true") == [0x74, 0x72, 0x75, 0x65];
    if SpellsTrue(w) {
      assert LowerAscii(w) == [0x74, 0x72, 0x75, 0x65];
    }
  }

  /** A flag is set if and only if it is the value true or the word, in any case and between any white space. */
  lemma FlagIsSet(f: Flag)
    ensures IsSet(f) <==> f == Bool(true) || (f.Words? && IsTrueInSpaces(f.text))
  {
    if f.Words? {
      LoweredTrue(Trim(f.text));
      hide LowerAscii, Trim;
      var pre, post := TrimSplits(f.text);
      if SpellsTrue(Trim(f.text)) {
        assert IsTrueInSpaces(f.text);
      }
      if IsTrueInSpaces(f.text) {
        var p, word, q :|
          f.text == p + word + q && AllSpaces(p) && AllSpaces(q) && SpellsTrue(word);
        TrimPadded(p, word, q);
      }
    }
  }

  /** When a job succeeds. */
  lemma JobSucceeds(t: Tables, posts: map<int, Post>, job: Job, tokens: Text -> seq<seq<Token>>, faults: Faults)
    ensures Process(t, posts, job, tokens, faults).1
            <==> && job.post.Some? && job.post.value > 0
                 && ((!IsSet(job.title) && !IsSet(job.content))
                     || (&& job.post.value in posts
                         && var post := posts[job.post.value];
                            && !(IsSet(job.title) && Trim(post.title) != [] && faults.title)
                            && !(IsSet(job.content) && ChunksFor(post, tokens) != [] && faults.content)))
  {
    hide ChunksFor, IsSet, Trim;
  }

  /** What a successful job writes: the title and the chunks it was asked for and that are there, of its post only. */
  lemma JobWrites(t: Tables, posts: map<int, Post>, job: Job, tokens: Text -> seq<seq<Token>>, faults: Faults, k: int)
    requires Process(t, posts, job, tokens, faults).1
    ensures var u := Process(t, posts, job, tokens, faults).0;
            && (if k == job.post.value && k in posts && IsSet(job.title) && Trim(posts[k].title) != [] then
                  k in u.titles && u.titles[k] == Trim(posts[k].title)
                else k in u.titles <==> k in t.titles)
            && (k in u.titles && k in t.titles && !(k == job.post.value && IsSet(job.title)) ==>
                  u.titles[k] == t.titles[k])
            && (if k == job.post.value && k in posts && IsSet(job.content) && ChunksFor(posts[k], tokens) != [] then
                  k in u.chunks && u.chunks[k] == ChunksFor(posts[k], tokens)
                else k in u.chunks <==> k in t.chunks)
            && (k in u.chunks && k in t.chunks && !(k == job.post.value && IsSet(job.content)) ==>
                  u.chunks[k] == t.chunks[k])
  {
    hide ChunksFor, IsSet, Trim;
  }

  /** The chunks of a post are those of its trimmed content, none if it is blank. */
  lemma ChunksAre(post: Post, tokens: Text -> seq<seq<Token>>)
    ensures AllSpaces(post.content) ==> ChunksFor(post, tokens) == []
    ensures !AllSpaces(post.content) ==> ChunksFor(post, tokens) == ChunksFrom([], tokens(Trim(post.content)))
  {
    var pre, after := TrimSplits(post.content);
    if AllSpaces(post.content) {
      TrimStartPadded(post.content, []);
      assert post.content + [] == post.content;
    }
  }
}
