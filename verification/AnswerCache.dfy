/**
 * The tone-aware answer cache: its tables (src/repositories/ask-question-cache.repository.ts and
 * ask-message.repository.ts), lookup and persistence (src/services/session-history.service.ts), and the choice
 * of an answer (src/services/qa.v2.service.ts). What the vector index returns, what a model writes and what a
 * tone rewrite yields are given. How asks interleave is the subject of AskProtocol.
 */
module AnswerCache {
  import opened Options
  import opened Sequences

  datatype Role = User | Assistant

  datatype Message = Message(session: nat, role: Role, content: string)

  /** A cache row, keyed by its question message. */
  datatype Row = Row(
    owner: string, requester: string, category: Option<int>, post: Option<int>, answerId: Option<nat>, tone: int)

  /** What an answer was generated from: one post, or a category (or all) of the owner's blog. */
  datatype Scope = PostScope(post: int) | CategoryScope(category: Option<int>)

  /** Where a text comes from; owner and scope travel with it through replays and tone rewrites. */
  datatype Origin = Origin(owner: string, scope: Scope, tone: int, text: string)

  /** The tables, with the deleted sessions and the origin of every assistant message there ever was. */
  datatype Store = Store(
    messages: map<nat, Message>, cache: map<nat, Row>, nextId: nat, dropped: set<nat>, origins: map<nat, Origin>)

  const EMPTY := Store(map[], map[], 1, {}, map[])

  datatype Request = Request(
    session: nat, owner: string, requester: string, question: string,
    category: Option<int>, post: Option<int>, tone: int)

  /** A post id that is given and not 0 selects that post; otherwise the category is searched. */
  function ScopeOf(post: Option<int>, category: Option<int>): Scope {
    if post.Some? && post.value != 0 then PostScope(post.value) else CategoryScope(category)
  }

  // Table operations

  function Insert(st: Store, m: Message): Store {
    st.(messages := st.messages[st.nextId := m], nextId := st.nextId + 1)
  }

  /** `INSERT … ON CONFLICT (message_id) DO UPDATE`: an existing row keeps its owner and requester. */
  function Upsert(st: Store, id: nat, row: Row): Store {
    var stored :=
      if id in st.cache then row.(owner := st.cache[id].owner, requester := st.cache[id].requester) else row;
    st.(cache := st.cache[id := stored])
  }

  function DeleteByOwner(st: Store, owner: string): Store {
    st.(cache := map id | id in st.cache && st.cache[id].owner != owner :: st.cache[id])
  }

  /** Deleting a session deletes its messages and, with its question messages, their cache rows. */
  function DeleteSession(st: Store, session: nat): Store {
    st.(messages := map id | id in st.messages && st.messages[id].session != session :: st.messages[id],
        cache := map id | id in st.cache && !(id in st.messages && st.messages[id].session == session) :: st.cache[id],
        dropped := st.dropped + {session})
  }

  /**
   * Stores a question and its answer, and caches them; nothing at all without an answer or embeddings, or when
   * the session is gone and the insertion fails.
   */
  function Persist(st: Store, r: Request, answer: string, tone: int, embedded: bool, origin: Origin): Store {
    if answer == "" || !embedded || r.session in st.dropped then st
    else
      var asked := Insert(st, Message(r.session, User, r.question));
      var answered := Insert(asked, Message(r.session, Assistant, answer));
      var row := Row(r.owner, r.requester, r.category, r.post, Some(asked.nextId), tone);
      Upsert(answered, st.nextId, row).(origins := st.origins[asked.nextId := origin])
  }

  // Lookup

  /** A question message the vector index reports, with its similarity. */
  datatype Similar = Similar(id: nat, similarity: real)

  /** A row the similarity query returns. */
  datatype Candidate = Candidate(id: nat, answerId: Option<nat>, tone: int, similarity: real)

  const DUPLICATE_SIMILARITY_THRESHOLD := 0.93

  predicate InScope(row: Row, r: Request) {
    && row.owner == r.owner
    && (if r.post.Some? then row.post == r.post else row.post.None? && row.category == r.category)
  }

  /** The rows that belong to the request's owner and scope, in the index's order. */
  function Eligible(cache: map<nat, Row>, r: Request, ranking: seq<Similar>): (found: seq<Candidate>)
    ensures forall c :: c in found ==> IsRowOf(cache, r, c)
  {
    if ranking == [] then []
    else
      var s := ranking[0];
      (if s.id in cache && InScope(cache[s.id], r)
       then [Candidate(s.id, cache[s.id].answerId, cache[s.id].tone, s.similarity)] else [])
      + Eligible(cache, r, ranking[1..])
  }

  predicate IsRowOf(cache: map<nat, Row>, r: Request, c: Candidate) {
    c.id in cache && InScope(cache[c.id], r) && c.answerId == cache[c.id].answerId && c.tone == cache[c.id].tone
  }

  /** `findSimilarEmbeddings` with its limit of three. */
  function SimilarRows(st: Store, r: Request, ranking: seq<Similar>): (found: seq<Candidate>)
    ensures forall c :: c in found ==> IsRowOf(st.cache, r, c)
  {
    var found := Eligible(st.cache, r, ranking);
    if |found| > 3 then found[..3] else found
  }

  datatype CachedAnswer = CachedAnswer(answer: string, tone: int, source: nat)

  /** The cached answer a similar row leads to, if it is close enough and its messages are there. */
  function Hydrated(messages: map<nat, Message>, c: Candidate): Option<CachedAnswer> {
    if c.similarity < DUPLICATE_SIMILARITY_THRESHOLD || c.answerId.GetOr(0) == 0 then None
    else if c.id !in messages || c.answerId.value !in messages then None
    else Some(CachedAnswer(messages[c.answerId.value].content, c.tone, c.answerId.value))
  }

  function HydrateAll(messages: map<nat, Message>, candidates: seq<Candidate>): seq<CachedAnswer> {
    if candidates == [] then []
    else
      var h := Hydrated(messages, Last(candidates));
      HydrateAll(messages, Init(candidates)) + if h.Some? then [h.value] else []
  }

  function Cached(st: Store, r: Request, ranking: seq<Similar>): seq<CachedAnswer> {
    HydrateAll(st.messages, SimilarRows(st, r, ranking))
  }

  /** The first answer in the requested tone. */
  function FirstInTone(candidates: seq<CachedAnswer>, tone: int): Option<CachedAnswer> {
    if candidates == [] then None
    else if candidates[0].tone == tone then Some(candidates[0])
    else FirstInTone(candidates[1..], tone)
  }

  // Answering

  /** A text about to be stored as the answer to an ask. */
  datatype Draft = Draft(text: string, tone: int, origin: Origin)

  function OriginOf(origins: map<nat, Origin>, id: nat): Origin {
    if id in origins then origins[id] else Origin("", CategoryScope(None), 0, "")
  }

  /** The origin of a text rewritten in another tone. */
  function Retold(origin: Origin, text: string, tone: int): Origin {
    origin.(tone := tone, text := text)
  }

  /**
   * The answer to an ask: a cached answer in the requested tone is replayed; else what rewriting the nearest
   * one's tone yields (`None` when that fails); else what a generation yields (`None` when there is nothing to
   * store: an error, a missing post, a client gone).
   */
  function Chosen(origins: map<nat, Origin>, r: Request, candidates: seq<CachedAnswer>,
                  rewritten: Option<string>, generated: Option<string>): Option<Draft> {
    var matching := FirstInTone(candidates, r.tone);
    if matching.Some? then
      Some(Draft(matching.value.answer, matching.value.tone, OriginOf(origins, matching.value.source)))
    else if candidates != [] && rewritten.Some? then
      Some(Draft(rewritten.value, r.tone, Retold(OriginOf(origins, candidates[0].source), rewritten.value, r.tone)))
    else if generated.Some? then
      Some(Draft(generated.value, r.tone, Origin(r.owner, ScopeOf(r.post, r.category), r.tone, generated.value)))
    else None
  }

  /** The tables after an ask that nothing interrupts. */
  function AfterAsk(st: Store, r: Request, ranking: seq<Similar>, rewritten: Option<string>, generated: Option<string>,
                    embedded: bool): Store {
    match Chosen(st.origins, r, if embedded then Cached(st, r, ranking) else [], rewritten, generated)
    case Some(d) => Persist(st, r, d.text, d.tone, embedded, d.origin)
    case None => st
  }

  // What every change keeps

  /**
   * A sound row: its question and answer are there, in one session and in their roles; the answer was
   * generated for the row's owner and carries the row's tone; and, unless the row's post id is 0, it was
   * generated for the row's scope.
   */
  ghost predicate IsSound(st: Store, id: nat, row: Row) {
    && id in st.messages && st.messages[id].role == User
    && row.answerId.Some? && row.answerId.value in st.messages && row.answerId.value in st.origins
    && var answer, origin := st.messages[row.answerId.value], st.origins[row.answerId.value];
       && answer.role == Assistant && answer.session == st.messages[id].session
       && origin.owner == row.owner && origin.tone == row.tone
       && (row.post != Some(0) ==> origin.scope == ScopeOf(row.post, row.category))
  }

  /** Every row is sound; messages are what their origins say, and none is of a deleted session. */
  ghost predicate Inv(st: Store) {
    && st.nextId > 0
    && (forall id :: id in st.messages ==> 0 < id < st.nextId && st.messages[id].session !in st.dropped)
    && (forall id :: id in st.origins ==> id < st.nextId)
    && (forall id :: id in st.messages && id in st.origins ==> st.messages[id].content == st.origins[id].text)
    && (forall id :: id in st.cache ==> IsSound(st, id, st.cache[id]))
  }

  /**
   * A text may be stored for a request: it was generated for the request's owner and, unless its post id is 0,
   * scope.
   */
  predicate Fits(r: Request, text: string, tone: int, origin: Origin) {
    && origin.owner == r.owner && origin.tone == tone && origin.text == text
    && (r.post != Some(0) ==> origin.scope == ScopeOf(r.post, r.category))
  }

  lemma PersistKeepsInv(st: Store, r: Request, answer: string, tone: int, embedded: bool, origin: Origin)
    requires Inv(st) && Fits(r, answer, tone, origin)
    ensures Inv(Persist(st, r, answer, tone, embedded, origin))
  {
    var t := Persist(st, r, answer, tone, embedded, origin);
    forall id | id in t.cache ensures IsSound(t, id, t.cache[id]) {
      if id in st.cache {
        assert IsSound(st, id, st.cache[id]);
      }
    }
  }

  lemma InvalidationKeepsInv(st: Store, owner: string)
    requires Inv(st)
    ensures Inv(DeleteByOwner(st, owner))
  {
    var t := DeleteByOwner(st, owner);
    forall id | id in t.cache ensures IsSound(t, id, t.cache[id]) {
      assert IsSound(st, id, st.cache[id]);
    }
  }

  lemma DeletionKeepsInv(st: Store, session: nat)
    requires Inv(st)
    ensures Inv(DeleteSession(st, session))
  {
    var t := DeleteSession(st, session);
    forall id | id in t.cache ensures IsSound(t, id, t.cache[id]) {
      assert IsSound(st, id, st.cache[id]);
    }
  }

  lemma {:induction false} HydratedFrom(messages: map<nat, Message>, candidates: seq<Candidate>, a: CachedAnswer)
    requires a in HydrateAll(messages, candidates)
    ensures exists c :: c in candidates && Hydrated(messages, c) == Some(a)
  {
    var last := Last(candidates);
    if Hydrated(messages, last) == Some(a) {
      assert last in candidates;
    } else {
      HydratedFrom(messages, Init(candidates), a);
      var c :| c in Init(candidates) && Hydrated(messages, c) == Some(a);
      assert c in candidates;
    }
  }

  /**
   * Whatever the cache offers for a request is the text of an answer stored for the same owner, in the tone it
   * is offered in, and, unless the requested post id is 0, generated for the requested scope.
   */
  lemma CacheServesOwnScope(st: Store, r: Request, ranking: seq<Similar>, a: CachedAnswer)
    requires Inv(st) && a in Cached(st, r, ranking)
    ensures a.source in st.origins && a.source in st.messages && Fits(r, a.answer, a.tone, st.origins[a.source])
  {
    HydratedFrom(st.messages, SimilarRows(st, r, ranking), a);
    var c :| c in SimilarRows(st, r, ranking) && Hydrated(st.messages, c) == Some(a);
    assert IsSound(st, c.id, st.cache[c.id]);
  }

  lemma {:induction false} FirstInToneIsThere(candidates: seq<CachedAnswer>, tone: int)
    ensures FirstInTone(candidates, tone).Some? ==>
              FirstInTone(candidates, tone).value in candidates && FirstInTone(candidates, tone).value.tone == tone
    ensures FirstInTone(candidates, tone).None? <==> forall a :: a in candidates ==> a.tone != tone
  {
    if candidates != [] {
      FirstInToneIsThere(candidates[1..], tone);
    }
  }

  /** From fitting candidates a fitting answer is chosen, always in the requested tone. */
  lemma ChoiceFits(origins: map<nat, Origin>, r: Request, candidates: seq<CachedAnswer>, rewritten: Option<string>,
                   generated: Option<string>)
    requires forall a :: a in candidates ==> a.source in origins && Fits(r, a.answer, a.tone, origins[a.source])
    ensures var d := Chosen(origins, r, candidates, rewritten, generated);
            d.Some? ==> Fits(r, d.value.text, d.value.tone, d.value.origin) && d.value.tone == r.tone
  {
    FirstInToneIsThere(candidates, r.tone);
    if candidates != [] {
      assert candidates[0] in candidates;
    }
  }

  /**
   * Storing changes nothing, or adds one question and one non-empty answer to a session that is there, with
   * their row.
   */
  lemma PersistAddsOneTurn(st: Store, r: Request, answer: string, tone: int, embedded: bool, origin: Origin)
    requires Inv(st)
    ensures var t := Persist(st, r, answer, tone, embedded, origin);
            if answer == "" || !embedded || r.session in st.dropped then t == st
            else IsTurn(st, t, r, answer, tone, origin)
  {
    forall id | id in st.cache ensures id != st.nextId {
      assert IsSound(st, id, st.cache[id]);
    }
  }

  /** `t` is `st` with one question and one answer more, and the cache row that ties them together. */
  predicate IsTurn(st: Store, t: Store, r: Request, answer: string, tone: int, origin: Origin) {
    var n := st.nextId;
    && t.messages == st.messages[n := Message(r.session, User, r.question)]
                                [n + 1 := Message(r.session, Assistant, answer)]
    && t.cache == st.cache[n := Row(r.owner, r.requester, r.category, r.post, Some(n + 1), tone)]
    && t.origins == st.origins[n + 1 := origin] && t.nextId == n + 2 && t.dropped == st.dropped
  }

  // Exactly what is chosen and what is offered

  predicate IsFirstInTone(candidates: seq<CachedAnswer>, tone: int, i: nat) {
    && i < |candidates| && candidates[i].tone == tone
    && forall j :: 0 <= j < i ==> candidates[j].tone != tone
  }

  lemma {:induction false} FirstByIndex(candidates: seq<CachedAnswer>, tone: int, i: nat)
    requires IsFirstInTone(candidates, tone, i)
    ensures FirstInTone(candidates, tone) == Some(candidates[i])
  {
    if i > 0 {
      FirstByIndex(candidates[1..], tone, i - 1);
    }
  }

  /**
   * The first candidate in the requested tone is replayed, whatever the models yield; without one the rewrite of
   * the first candidate is taken, if it succeeded, and else the generation. Nothing is stored exactly when all
   * three are missing.
   */
  lemma ChosenExactly(origins: map<nat, Origin>, r: Request, candidates: seq<CachedAnswer>,
                      rewritten: Option<string>, generated: Option<string>)
    ensures var d := Chosen(origins, r, candidates, rewritten, generated);
            && (forall i: nat :: IsFirstInTone(candidates, r.tone, i) ==>
                              d == Some(Draft(candidates[i].answer, r.tone, OriginOf(origins, candidates[i].source))))
            && ((forall a :: a in candidates ==> a.tone != r.tone) ==>
                  if candidates != [] && rewritten.Some? then
                    && d.Some? && d.value.text == rewritten.value && d.value.tone == r.tone
                    && d.value.origin.owner == OriginOf(origins, candidates[0].source).owner
                    && d.value.origin.scope == OriginOf(origins, candidates[0].source).scope
                  else if generated.Some? then
                    && d.Some? && d.value.text == generated.value && d.value.tone == r.tone
                    && d.value.origin == Origin(r.owner, ScopeOf(r.post, r.category), r.tone, generated.value)
                  else d.None?)
            && (d.None? <==> (forall a :: a in candidates ==> a.tone != r.tone)
                             && (candidates == [] || rewritten.None?) && generated.None?)
  {
    FirstInToneIsThere(candidates, r.tone);
    forall i: nat | IsFirstInTone(candidates, r.tone, i)
      ensures FirstInTone(candidates, r.tone) == Some(candidates[i])
    {
      FirstByIndex(candidates, r.tone, i);
    }
  }

  /**
   * A ranked question has a row of the request's owner and of its post or, without one, of its category and no
   * post.
   */
  predicate Suits(cache: map<nat, Row>, r: Request, s: Similar) {
    && s.id in cache && cache[s.id].owner == r.owner && cache[s.id].post == r.post
    && (r.post.None? ==> cache[s.id].category == r.category)
  }

  function CountSuiting(cache: map<nat, Row>, r: Request, ranking: seq<Similar>): nat {
    if ranking == [] then 0 else (if Suits(cache, r, ranking[0]) then 1 else 0) + CountSuiting(cache, r, ranking[1..])
  }

  function CandidateOf(cache: map<nat, Row>, s: Similar): Candidate
    requires s.id in cache
  {
    Candidate(s.id, cache[s.id].answerId, cache[s.id].tone, s.similarity)
  }

  lemma {:induction false} EligibleByPlace(cache: map<nat, Row>, r: Request, ranking: seq<Similar>, i: nat)
    requires i < |ranking| && Suits(cache, r, ranking[i])
    ensures |Eligible(cache, r, ranking)| == CountSuiting(cache, r, ranking)
    ensures var n := CountSuiting(cache, r, ranking[..i]);
            n < |Eligible(cache, r, ranking)| && Eligible(cache, r, ranking)[n] == CandidateOf(cache, ranking[i])
  {
    EligibleCount(cache, r, ranking);
    if i > 0 {
      EligibleByPlace(cache, r, ranking[1..], i - 1);
      assert ranking[..i][1..] == ranking[1..][..i - 1];
    }
  }

  lemma {:induction false} EligibleCount(cache: map<nat, Row>, r: Request, ranking: seq<Similar>)
    ensures |Eligible(cache, r, ranking)| == CountSuiting(cache, r, ranking)
  {
    if ranking != [] {
      EligibleCount(cache, r, ranking[1..]);
    }
  }

  lemma {:induction false} EligibleFrom(cache: map<nat, Row>, r: Request, ranking: seq<Similar>, n: nat)
    returns (i: nat)
    requires n < |Eligible(cache, r, ranking)|
    ensures i < |ranking| && Suits(cache, r, ranking[i]) && CountSuiting(cache, r, ranking[..i]) == n
    ensures Eligible(cache, r, ranking)[n] == CandidateOf(cache, ranking[i])
  {
    if Suits(cache, r, ranking[0]) && n == 0 {
      i := 0;
    } else {
      var j := EligibleFrom(cache, r, ranking[1..], if Suits(cache, r, ranking[0]) then n - 1 else n);
      i := j + 1;
      assert ranking[..i][1..] == ranking[1..][..j];
    }
  }

  /** The i-th ranked question is offered as answer `a`. */
  predicate Offers(st: Store, r: Request, ranking: seq<Similar>, i: nat, a: CachedAnswer) {
    && i < |ranking| && Suits(st.cache, r, ranking[i]) && CountSuiting(st.cache, r, ranking[..i]) < 3
    && ranking[i].similarity >= 0.93 && ranking[i].id in st.messages
    && var row := st.cache[ranking[i].id];
       && row.answerId.Some? && row.answerId.value != 0 && row.answerId.value in st.messages
       && a == CachedAnswer(st.messages[row.answerId.value].content, row.tone, row.answerId.value)
  }

  /**
   * What is offered is exactly the answers to the first three ranked questions that suit the request, as far
   * as they reach 0.93 and their messages are there.
   */
  lemma CachedExactly(st: Store, r: Request, ranking: seq<Similar>, a: CachedAnswer)
    ensures a in Cached(st, r, ranking) <==> exists i: nat :: Offers(st, r, ranking, i, a)
    ensures |Cached(st, r, ranking)| <= 3
  {
    var rows := SimilarRows(st, r, ranking);
    HydratedSize(st.messages, rows);
    if a in Cached(st, r, ranking) {
      HydratedFrom(st.messages, rows, a);
      var c :| c in rows && Hydrated(st.messages, c) == Some(a);
      var n :| 0 <= n < |rows| && rows[n] == c;
      var i := EligibleFrom(st.cache, r, ranking, n);
      assert Offers(st, r, ranking, i, a);
    }
    if i: nat :| Offers(st, r, ranking, i, a) {
      EligibleByPlace(st.cache, r, ranking, i);
      var n := CountSuiting(st.cache, r, ranking[..i]);
      assert rows[n] == CandidateOf(st.cache, ranking[i]);
      HydratedAt(st.messages, rows, n);
    }
  }

  lemma {:induction false} HydratedSize(messages: map<nat, Message>, rows: seq<Candidate>)
    ensures |HydrateAll(messages, rows)| <= |rows|
  {
    if rows != [] {
      HydratedSize(messages, Init(rows));
    }
  }

  lemma {:induction false} HydratedAt(messages: map<nat, Message>, rows: seq<Candidate>, n: nat)
    requires n < |rows| && Hydrated(messages, rows[n]).Some?
    ensures Hydrated(messages, rows[n]).value in HydrateAll(messages, rows)
  {
    if n < |rows| - 1 {
      HydratedAt(messages, Init(rows), n);
    }
  }

  lemma HydrateFirst(messages: map<nat, Message>, rows: seq<Candidate>)
    requires rows != []
    ensures HydrateAll(messages, rows)
         == (match Hydrated(messages, rows[0]) case Some(a) => [a] case None => []) + HydrateAll(messages, rows[1..])
  {
    if |rows| == 1 {
      assert Init(rows) == [] && rows[1..] == [];
    } else {
      HydrateFirst(messages, Init(rows));
      assert Init(rows)[1..] == Init(rows[1..]) && Last(rows) == Last(rows[1..]);
    }
  }

  /** The answer to a question that suits, is close enough and ranked first is the first one offered. */
  lemma FirstOffered(st: Store, r: Request, ranking: seq<Similar>, a: CachedAnswer)
    requires Offers(st, r, ranking, 0, a)
    ensures Cached(st, r, ranking) != [] && Cached(st, r, ranking)[0] == a
  {
    EligibleByPlace(st.cache, r, ranking, 0);
    assert ranking[..0] == [];
    var rows := SimilarRows(st, r, ranking);
    assert rows[0] == CandidateOf(st.cache, ranking[0]);
    HydrateFirst(st.messages, rows);
  }

  // The tables as the source changes them

  class AskTables {
    var messages: map<nat, Message>
    var cache: map<nat, Row>
    var nextId: nat
    var dropped: set<nat>
    ghost var origins: map<nat, Origin>

    ghost function Tables(): Store
      reads this
    {
      Store(messages, cache, nextId, dropped, origins)
    }

    constructor ()
      ensures Tables() == EMPTY
    {
      messages, cache, nextId, dropped, origins := map[], map[], 1, {}, map[];
    }

    method InsertMessage(m: Message) returns (id: nat)
      modifies this
      ensures Tables() == Insert(old(Tables()), m) && id == old(nextId)
    {
      id := nextId;
      messages := messages[id := m];
      nextId := id + 1;
    }

    method UpsertEmbedding(id: nat, row: Row)
      modifies this`cache
      ensures Tables() == Upsert(old(Tables()), id, row)
      ensures id in cache && cache[id].answerId == row.answerId && cache[id].tone == row.tone
      ensures cache[id].category == row.category && cache[id].post == row.post
      ensures var kept := if id in old(cache) then old(cache)[id] else row;
              cache[id].owner == kept.owner && cache[id].requester == kept.requester
      ensures forall k :: k != id ==> (k in cache <==> k in old(cache)) && (k in cache ==> cache[k] == old(cache)[k])
    {
      if id in cache {
        cache := cache[id := row.(owner := cache[id].owner, requester := cache[id].requester)];
      } else {
        cache := cache[id := row];
      }
    }

    method DeleteEmbeddingsByOwner(owner: string) returns (removed: nat)
      modifies this`cache
      ensures Tables() == DeleteByOwner(old(Tables()), owner)
      ensures removed == |old(cache)| - |cache|
      ensures forall k :: k in cache <==> k in old(cache) && old(cache)[k].owner != owner
      ensures forall k :: k in cache ==> cache[k] == old(cache)[k]
    {
      var kept := map id | id in cache && cache[id].owner != owner :: cache[id];
      assert kept.Keys <= cache.Keys;
      FewerKeys(kept.Keys, cache.Keys);
      removed := |cache| - |kept|;
      cache := kept;
    }

    method DropSession(session: nat)
      modifies this
      ensures Tables() == DeleteSession(old(Tables()), session)
      ensures forall k :: k in messages <==> k in old(messages) && old(messages)[k].session != session
      ensures forall k :: k in messages ==> messages[k] == old(messages)[k]
      ensures forall k :: k in cache <==>
                            && k in old(cache)
                            && !(k in old(messages) && old(messages)[k].session == session)
      ensures forall k :: k in cache ==> cache[k] == old(cache)[k]
    {
      var all := messages;
      messages := map id | id in all && all[id].session != session :: all[id];
      cache := map id | id in cache && !(id in all && all[id].session == session) :: cache[id];
      dropped := dropped + {session};
    }

    method PersistConversation(r: Request, answer: string, tone: int, embedded: bool, ghost origin: Origin)
      modifies this
      ensures Tables() == Persist(old(Tables()), r, answer, tone, embedded, origin)
    {
      if answer == "" || !embedded {
        return;
      }
      if r.session in dropped {
        return;  // the foreign key refuses the first message, and the transaction is rolled back
      }
      var userMessage := InsertMessage(Message(r.session, User, r.question));
      var assistantMessage := InsertMessage(Message(r.session, Assistant, answer));
      UpsertEmbedding(userMessage, Row(r.owner, r.requester, r.category, r.post, Some(assistantMessage), tone));
      origins := origins[assistantMessage := origin];
    }

    method FindCachedAnswer(r: Request, ranking: seq<Similar>) returns (hydrated: seq<CachedAnswer>)
      ensures hydrated == Cached(Tables(), r, ranking)
    {
      var candidates := Eligible(cache, r, ranking);
      if |candidates| > 3 {
        candidates := candidates[..3];
      }
      hydrated := [];
      for i := 0 to |candidates|
        invariant hydrated == HydrateAll(messages, candidates[..i])
      {
        assert Init(candidates[..i + 1]) == candidates[..i] && Last(candidates[..i + 1]) == candidates[i];
        var c := candidates[i];
        if c.similarity < DUPLICATE_SIMILARITY_THRESHOLD {
          continue;
        }
        if c.answerId.GetOr(0) == 0 {
          continue;
        }
        if c.id !in messages || c.answerId.value !in messages {
          continue;
        }
        hydrated := hydrated + [CachedAnswer(messages[c.answerId.value].content, c.tone, c.answerId.value)];
      }
      assert candidates[..|candidates|] == candidates;
    }

    /**
     * Answers an ask that nothing interrupts: replay in the right tone, else a tone rewrite, else a fresh
     * generation.
     */
    method AnswerAsk(r: Request, ranking: seq<Similar>, rewritten: Option<string>, generated: Option<string>,
                     embedded: bool)
      modifies this
      ensures Tables() == AfterAsk(old(Tables()), r, ranking, rewritten, generated, embedded)
    {
      hide Cached, Persist;
      var candidates: seq<CachedAnswer> := [];
      if embedded {
        candidates := FindCachedAnswer(r, ranking);
      }
      var matching := FirstInTone(candidates, r.tone);
      if matching.Some? {
        var cached := matching.value;
        PersistConversation(r, cached.answer, cached.tone, embedded, OriginOf(origins, cached.source));
        return;
      }
      if |candidates| > 0 && rewritten.Some? {
        PersistConversation(
          r, rewritten.value, r.tone, embedded,
          Retold(OriginOf(origins, candidates[0].source), rewritten.value, r.tone));
        return;
      }
      if generated.Some? {
        PersistConversation(
          r, generated.value, r.tone, embedded,
          Origin(r.owner, ScopeOf(r.post, r.category), r.tone, generated.value));
      }
    }
  }

  lemma FewerKeys(a: set<nat>, b: set<nat>)
    requires a <= b
    ensures |a| <= |b|
  {
    assert |b| == |a| + |b - a| by {
      assert b == a + (b - a);
    }
  }
}
