/**
 * How asks run beside each other (src/services/qa.v2.service.ts): each looks up the cache, reads the messages
 * of the rows it found one after the other, takes its time to rewrite or generate an answer, and stores it in
 * one transaction. Between any two of these steps other asks may take theirs, an owner's cached answers may be
 * dropped, and sessions may be deleted. A row's question and answer are read in one step here: they are
 * deleted together.
 */
module AskProtocol {
  import opened AnswerCache
  import opened Options
  import opened Sequences

  /** An ask on its way: still reading what its lookup found, or with an answer in hand. */
  datatype Activity =
    | Looking(r: Request, embedded: bool, rows: seq<Candidate>, found: seq<CachedAnswer>)
    | Holding(r: Request, embedded: bool, draft: Draft)

  /** The tables, and the asks under way, each under a number of its own. */
  datatype System = System(store: Store, asks: map<nat, Activity>)

  const START := System(EMPTY, map[])

  datatype Action =
    | Begin(k: nat, r: Request, ranking: seq<Similar>, embedded: bool)                // the lookup's query
    | Read(k: nat)                                                                    // the messages of its next row
    | Choose(k: nat, rewritten: Option<string>, generated: Option<string>)            // rewriting or generating ends
    | Save(k: nat)                                                                    // the transaction
    | Abandon(k: nat)                                                                 // an error, or a client gone
    | Invalidate(owner: string)
    | Drop(session: nat)

  predicate Enabled(s: System, a: Action) {
    match a
    case Begin(k, _, _, _) => k !in s.asks
    case Read(k) => k in s.asks && s.asks[k].Looking? && s.asks[k].rows != []
    case Choose(k, _, _) => k in s.asks && s.asks[k].Looking? && s.asks[k].rows == []
    case Save(k) => k in s.asks && s.asks[k].Holding?
    case Abandon(k) => k in s.asks
    case Invalidate(_) => true
    case Drop(_) => true
  }

  function Next(s: System, a: Action): System
    requires Enabled(s, a)
  {
    match a
    case Begin(k, r, ranking, embedded) =>
      s.(asks := s.asks[k := Looking(r, embedded, if embedded then SimilarRows(s.store, r, ranking) else [], [])])
    case Read(k) =>
      var ask := s.asks[k];
      var h := Hydrated(s.store.messages, ask.rows[0]);
      s.(asks := s.asks[k := ask.(rows := ask.rows[1..], found := ask.found + if h.Some? then [h.value] else [])])
    case Choose(k, rewritten, generated) =>
      var ask := s.asks[k];
      (match Chosen(s.store.origins, ask.r, ask.found, rewritten, generated)
       case Some(d) => s.(asks := s.asks[k := Holding(ask.r, ask.embedded, d)])
       case None => s.(asks := s.asks - {k}))
    case Save(k) =>
      var Holding(r, embedded, d) := s.asks[k];
      System(Persist(s.store, r, d.text, d.tone, embedded, d.origin), s.asks - {k})
    case Abandon(k) => s.(asks := s.asks - {k})
    case Invalidate(owner) => s.(store := DeleteByOwner(s.store, owner))
    case Drop(session) => s.(store := DeleteSession(s.store, session))
  }

  /** The states that the given actions lead to. */
  ghost predicate Reaches(s: System, actions: seq<Action>, t: System)
    decreases |actions|
  {
    if actions == [] then s == t
    else Enabled(s, actions[0]) && Reaches(Next(s, actions[0]), actions[1..], t)
  }

  // What every interleaving keeps

  /** A row found for `r` leads, if to any answer, to one generated for its owner and scope in the row's tone. */
  predicate IsPromising(origins: map<nat, Origin>, r: Request, c: Candidate) {
    c.answerId.Some? ==>
      && c.answerId.value in origins
      && Fits(r, origins[c.answerId.value].text, c.tone, origins[c.answerId.value])
  }

  predicate IsOwn(origins: map<nat, Origin>, r: Request, a: CachedAnswer) {
    a.source in origins && Fits(r, a.answer, a.tone, origins[a.source])
  }

  /** An ask holds only texts of its own owner and scope, whatever has become of the rows since it looked. */
  ghost predicate IsOnTrack(origins: map<nat, Origin>, ask: Activity) {
    match ask
    case Looking(r, _, rows, found) =>
      && (forall c :: c in rows ==> IsPromising(origins, r, c))
      && (forall a :: a in found ==> IsOwn(origins, r, a))
    case Holding(r, _, d) => Fits(r, d.text, d.tone, d.origin) && d.tone == r.tone
  }

  ghost predicate AllOnTrack(s: System) {
    Inv(s.store) && forall k :: k in s.asks ==> IsOnTrack(s.store.origins, s.asks[k])
  }

  lemma LookupPromises(st: Store, r: Request, ranking: seq<Similar>, c: Candidate)
    requires Inv(st) && c in SimilarRows(st, r, ranking)
    ensures IsPromising(st.origins, r, c)
  {
    assert IsSound(st, c.id, st.cache[c.id]);
  }

  lemma ReadingIsOwn(st: Store, r: Request, c: Candidate)
    requires Inv(st) && IsPromising(st.origins, r, c)
    ensures Hydrated(st.messages, c).Some? ==> IsOwn(st.origins, r, Hydrated(st.messages, c).value)
  {
  }

  /** Origins are never forgotten, so that an ask on its way stays on track. */
  lemma OriginsGrow(s: System, a: Action)
    requires Enabled(s, a) && Inv(s.store)
    ensures forall id :: id in s.store.origins ==>
                           id in Next(s, a).store.origins && Next(s, a).store.origins[id] == s.store.origins[id]
  {
  }

  lemma StaysOnTrack(before: map<nat, Origin>, after: map<nat, Origin>, ask: Activity)
    requires IsOnTrack(before, ask)
    requires forall id :: id in before ==> id in after && after[id] == before[id]
    ensures IsOnTrack(after, ask)
  {
    hide Fits;
    if ask.Looking? {
      forall c | c in ask.rows ensures IsPromising(after, ask.r, c) {
        assert IsPromising(before, ask.r, c);
      }
      forall a | a in ask.found ensures IsOwn(after, ask.r, a) {
        assert IsOwn(before, ask.r, a);
      }
    }
  }

  lemma StoreStep(s: System, a: Action)
    requires AllOnTrack(s) && Enabled(s, a)
    ensures Inv(Next(s, a).store)
  {
    hide Inv, Persist, Hydrated, Chosen, SimilarRows, DeleteByOwner, DeleteSession;
    match a
    case Save(k) =>
      var Holding(r, embedded, d) := s.asks[k];
      assert IsOnTrack(s.store.origins, s.asks[k]);
      PersistKeepsInv(s.store, r, d.text, d.tone, embedded, d.origin);
    case Invalidate(owner) => InvalidationKeepsInv(s.store, owner);
    case Drop(session) => DeletionKeepsInv(s.store, session);
    case _ =>
  }

  /** The ask that takes the step is on track after it. */
  lemma OwnStep(s: System, a: Action, k: nat)
    requires AllOnTrack(s) && Enabled(s, a)
    requires (a.Begin? || a.Read? || a.Choose?) && a.k == k && k in Next(s, a).asks
    ensures IsOnTrack(s.store.origins, Next(s, a).asks[k])
  {
    hide Inv, Hydrated, Chosen, SimilarRows, Fits;
    var origins, t := s.store.origins, Next(s, a);
    match a
    case Begin(_, r, ranking, embedded) =>
      forall c | c in t.asks[k].rows ensures IsPromising(origins, r, c) {
        LookupPromises(s.store, r, ranking, c);
      }
    case Read(_) =>
      var ask := s.asks[k];
      assert IsOnTrack(origins, ask);
      assert ask.rows[0] in ask.rows;
      ReadingIsOwn(s.store, ask.r, ask.rows[0]);
    case Choose(_, rewritten, generated) =>
      var ask := s.asks[k];
      assert IsOnTrack(origins, ask);
      forall c | c in ask.found ensures c.source in origins && Fits(ask.r, c.answer, c.tone, origins[c.source]) {
        assert IsOwn(origins, ask.r, c);
      }
      ChoiceFits(origins, ask.r, ask.found, rewritten, generated);
  }

  lemma StepKeepsInv(s: System, a: Action)
    requires AllOnTrack(s) && Enabled(s, a)
    ensures AllOnTrack(Next(s, a))
  {
    StoreStep(s, a);
    OriginsGrow(s, a);
    hide Inv, IsOnTrack, Persist, Hydrated, Chosen, SimilarRows, DeleteByOwner, DeleteSession;
    var t := Next(s, a);
    forall k | k in t.asks ensures IsOnTrack(t.store.origins, t.asks[k]) {
      if (a.Begin? || a.Read? || a.Choose?) && a.k == k {
        OwnStep(s, a, k);
        assert t.store == s.store;
      } else {
        StaysOnTrack(s.store.origins, t.store.origins, s.asks[k]);
      }
    }
  }

  /** However asks, invalidations and deletions interleave, the tables stay sound and every ask stays on track. */
  lemma {:induction false} RunsKeepInv(s: System, actions: seq<Action>, t: System)
    requires AllOnTrack(s) && Reaches(s, actions, t)
    ensures AllOnTrack(t)
    decreases |actions|
  {
    hide AllOnTrack, Next;
    if actions != [] {
      StepKeepsInv(s, actions[0]);
      RunsKeepInv(Next(s, actions[0]), actions[1..], t);
    }
  }

  /** In every reachable state every cache row is sound, though asks run beside each other. */
  lemma CacheIsSound(actions: seq<Action>, t: System, id: nat)
    requires Reaches(START, actions, t) && id in t.store.cache
    ensures IsSound(t.store, id, t.store.cache[id])
  {
    hide Reaches;
    RunsKeepInv(START, actions, t);
  }

  /** And what a save adds is one turn, cached in the tone that was asked for, of the ask's own owner and scope. */
  lemma SaveAddsOneTurn(actions: seq<Action>, s: System, k: nat)
    requires Reaches(START, actions, s) && Enabled(s, Save(k))
    ensures var Holding(r, embedded, d) := s.asks[k];
            && Fits(r, d.text, r.tone, d.origin)
            && if d.text == "" || !embedded || r.session in s.store.dropped then Next(s, Save(k)).store == s.store
               else IsTurn(s.store, Next(s, Save(k)).store, r, d.text, r.tone, d.origin)
  {
    hide Reaches, IsTurn, Fits;
    RunsKeepInv(START, actions, s);
    assert IsOnTrack(s.store.origins, s.asks[k]);
    var Holding(r, embedded, d) := s.asks[k];
    PersistAddsOneTurn(s.store, r, d.text, d.tone, embedded, d.origin);
  }

  // Asks that nothing interrupts

  function Reads(k: nat, n: nat): seq<Action> {
    if n == 0 then [] else [Read(k)] + Reads(k, n - 1)
  }

  /** Reading row by row finds what reading all at once finds. */
  lemma {:induction false} ReadsHydrate(s: System, k: nat, t: System)
    requires k in s.asks && s.asks[k].Looking? && Reaches(s, Reads(k, |s.asks[k].rows|), t)
    ensures var ask := s.asks[k];
            t == s.(asks := s.asks[k := ask.(rows := [], found := ask.found + HydrateAll(s.store.messages, ask.rows))])
    decreases |s.asks[k].rows|
  {
    hide Hydrated, HydrateAll;
    var ask := s.asks[k];
    if ask.rows == [] {
      NothingToHydrate(s.store.messages);
      assert ask.found + [] == ask.found;
      assert s.asks[k := ask] == s.asks;
    } else {
      var u := Next(s, Read(k));
      assert Reads(k, |ask.rows|)[1..] == Reads(k, |ask.rows| - 1);
      ReadsHydrate(u, k, t);
      HydrateFirst(s.store.messages, ask.rows);
      var h := Hydrated(s.store.messages, ask.rows[0]);
      SeqAssoc(ask.found, if h.Some? then [h.value] else [], HydrateAll(s.store.messages, ask.rows[1..]));
    }
  }

  lemma NothingToHydrate(messages: map<nat, Message>)
    ensures HydrateAll(messages, []) == []
  {
  }

  /** An ask whose steps follow each other directly changes the tables as the uninterrupted ask does. */
  lemma UninterruptedAsk(s: System, k: nat, r: Request, ranking: seq<Similar>, rewritten: Option<string>,
                         generated: Option<string>, embedded: bool, looked: System)
    requires k !in s.asks
    requires var begun := Next(s, Begin(k, r, ranking, embedded));
             Reaches(begun, Reads(k, |begun.asks[k].rows|), looked)
    ensures Enabled(looked, Choose(k, rewritten, generated))
    ensures var chosen := Next(looked, Choose(k, rewritten, generated));
            (if k in chosen.asks then Next(chosen, Save(k)) else chosen)
            == s.(store := AfterAsk(s.store, r, ranking, rewritten, generated, embedded))
  {
    hide SimilarRows, Chosen, Persist, Reaches;
    var begun := Next(s, Begin(k, r, ranking, embedded));
    ReadsHydrate(begun, k, looked);
    NothingToHydrate(s.store.messages);
    assert [] + HydrateAll(s.store.messages, begun.asks[k].rows) == HydrateAll(s.store.messages, begun.asks[k].rows);
    assert looked.asks - {k} == s.asks;
    var chosen := Next(looked, Choose(k, rewritten, generated));
    assert chosen.asks - {k} == s.asks;
  }

  // A saved answer is served again

  /** Nothing in the run drops the owner's cached answers or deletes the session. */
  ghost predicate Spares(actions: seq<Action>, owner: string, session: nat) {
    forall a :: a in actions ==> a != Invalidate(owner) && a != Drop(session)
  }

  /** The row of question `id`, with both its messages, is as given. */
  predicate HasTurn(st: Store, id: nat, row: Row, question: Message, answer: Message) {
    && id in st.cache && st.cache[id] == row && row.answerId.Some?
    && id in st.messages && st.messages[id] == question
    && row.answerId.value in st.messages && st.messages[row.answerId.value] == answer
  }

  lemma TurnStays(s: System, a: Action, id: nat, row: Row, question: Message, answer: Message)
    requires Inv(s.store) && Enabled(s, a) && HasTurn(s.store, id, row, question, answer)
    requires a != Invalidate(row.owner) && a != Drop(question.session) && answer.session == question.session
    ensures HasTurn(Next(s, a).store, id, row, question, answer)
  {
  }

  lemma {:induction false} TurnStaysThroughout(
    s: System, actions: seq<Action>, t: System, id: nat, row: Row, question: Message, answer: Message)
    requires AllOnTrack(s) && Reaches(s, actions, t) && HasTurn(s.store, id, row, question, answer)
    requires Spares(actions, row.owner, question.session) && answer.session == question.session
    ensures HasTurn(t.store, id, row, question, answer) && Inv(t.store)
    decreases |actions|
  {
    hide Next, HasTurn, Inv, IsOnTrack;
    if actions != [] {
      assert actions[0] in actions && forall a :: a in actions[1..] ==> a in actions;
      TurnStays(s, actions[0], id, row, question, answer);
      StepKeepsInv(s, actions[0]);
      TurnStaysThroughout(Next(s, actions[0]), actions[1..], t, id, row, question, answer);
    }
  }

  /** Two requests of one owner for one post or, without one, one category. */
  predicate AsksAlike(r: Request, q: Request) {
    q.owner == r.owner && q.post == r.post && q.category == r.category
  }

  /** A saved turn is there, with its row, as long as its owner's answers and its session are left alone. */
  lemma SavedTurnStays(before: seq<Action>, s: System, k: nat, after: seq<Action>, t: System)
    requires Reaches(START, before, s) && Enabled(s, Save(k)) && Reaches(Next(s, Save(k)), after, t)
    requires var Holding(r, embedded, d) := s.asks[k];
             && d.text != "" && embedded && r.session !in s.store.dropped && Spares(after, r.owner, r.session)
    ensures var Holding(r, embedded, d) := s.asks[k];
            var n := s.store.nextId;
            HasTurn(t.store, n, Row(r.owner, r.requester, r.category, r.post, Some(n + 1), r.tone),
                    Message(r.session, User, r.question), Message(r.session, Assistant, d.text))
  {
    var Holding(r, embedded, d) := s.asks[k];
    var n, u := s.store.nextId, Next(s, Save(k));
    SaveAddsOneTurn(before, s, k);
    RunsKeepInv(START, before, s);
    StepKeepsInv(s, Save(k));
    var row := Row(r.owner, r.requester, r.category, r.post, Some(n + 1), r.tone);
    var question, answer := Message(r.session, User, r.question), Message(r.session, Assistant, d.text);
    assert HasTurn(u.store, n, row, question, answer);
    TurnStaysThroughout(u, after, t, n, row, question, answer);
  }

  /**
   * Once a turn is saved, and as long as its owner's answers and its session are left alone, a request alike
   * whose ranking begins with that question at 0.93 or more is offered the saved answer first; below 0.93 the
   * question is not offered.
   */
  lemma SavedAnswerIsOffered(before: seq<Action>, s: System, k: nat, after: seq<Action>, t: System, q: Request,
                             ranking: seq<Similar>)
    requires Reaches(START, before, s) && Enabled(s, Save(k)) && Reaches(Next(s, Save(k)), after, t)
    requires var Holding(r, embedded, d) := s.asks[k];
             && d.text != "" && embedded && r.session !in s.store.dropped
             && Spares(after, r.owner, r.session) && AsksAlike(r, q)
    requires ranking != [] && ranking[0].id == s.store.nextId
    ensures var Holding(r, embedded, d) := s.asks[k];
            && (ranking[0].similarity >= 0.93 ==>
                  && Cached(t.store, q, ranking) != []
                  && Cached(t.store, q, ranking)[0] == CachedAnswer(d.text, r.tone, s.store.nextId + 1))
            && (ranking[0].similarity < 0.93 ==> forall a :: a !in Cached(t.store, q, [ranking[0]]))
  {
    var Holding(r, embedded, d) := s.asks[k];
    SavedTurnStays(before, s, k, after, t);
    hide Reaches, AllOnTrack, Next, IsTurn, Cached;
    if ranking[0].similarity >= 0.93 {
      FirstOffered(t.store, q, ranking, CachedAnswer(d.text, r.tone, s.store.nextId + 1));
    } else {
      forall a ensures a !in Cached(t.store, q, [ranking[0]]) {
        CachedExactly(t.store, q, [ranking[0]], a);
      }
    }
  }

  /** So an ask in the saved tone stores the saved text again, whatever the models yield. */
  lemma SavedAnswerIsReplayed(before: seq<Action>, s: System, k: nat, after: seq<Action>, t: System, q: Request,
                              ranking: seq<Similar>, rewritten: Option<string>, generated: Option<string>)
    requires Reaches(START, before, s) && Enabled(s, Save(k)) && Reaches(Next(s, Save(k)), after, t)
    requires var Holding(r, embedded, d) := s.asks[k];
             && d.text != "" && embedded && r.session !in s.store.dropped
             && Spares(after, r.owner, r.session) && AsksAlike(r, q) && q.tone == r.tone
    requires ranking != [] && ranking[0].id == s.store.nextId && ranking[0].similarity >= 0.93
    requires q.session !in t.store.dropped
    ensures var Holding(r, embedded, d) := s.asks[k];
            var asked := AfterAsk(t.store, q, ranking, rewritten, generated, true);
            exists origin :: IsTurn(t.store, asked, q, d.text, q.tone, origin)
  {
    var Holding(r, embedded, d) := s.asks[k];
    SavedAnswerIsOffered(before, s, k, after, t, q, ranking);
    var candidates := Cached(t.store, q, ranking);
    assert IsFirstInTone(candidates, q.tone, 0);
    ChosenExactly(t.store.origins, q, candidates, rewritten, generated);
    var draft := Chosen(t.store.origins, q, candidates, rewritten, generated).value;
    assert AllOnTrack(t) by {
      RunsKeepInv(START, before, s);
      StepKeepsInv(s, Save(k));
      RunsKeepInv(Next(s, Save(k)), after, t);
    }
    PersistAddsOneTurn(t.store, q, draft.text, draft.tone, true, draft.origin);
    assert IsTurn(t.store, AfterAsk(t.store, q, ranking, rewritten, generated, true), q, d.text, q.tone, draft.origin);
  }

  // Deleted sessions, and asks that have ended

  lemma {:induction false} DroppedGrows(s: System, actions: seq<Action>, t: System)
    requires Reaches(s, actions, t)
    ensures s.store.dropped <= t.store.dropped
    decreases |actions|
  {
    hide Hydrated, SimilarRows, Chosen;
    if actions != [] {
      DroppedGrows(Next(s, actions[0]), actions[1..], t);
    }
  }

  /** Once a session is deleted, no message of it is ever there again, whatever asks of it are still under way. */
  lemma DroppedStaysEmpty(before: seq<Action>, s: System, session: nat, after: seq<Action>, t: System)
    requires Reaches(START, before, s) && Reaches(Next(s, Drop(session)), after, t)
    ensures forall id :: id in t.store.messages ==> t.store.messages[id].session != session
  {
    RunsKeepInv(START, before, s);
    StepKeepsInv(s, Drop(session));
    RunsKeepInv(Next(s, Drop(session)), after, t);
    DroppedGrows(Next(s, Drop(session)), after, t);
    hide Reaches;
  }

  function Begun(actions: seq<Action>, k: nat): nat {
    if actions == [] then 0
    else (if actions[0].Begin? && actions[0].k == k then 1 else 0) + Begun(actions[1..], k)
  }

  function SavedOrAbandoned(actions: seq<Action>, k: nat): nat {
    if actions == [] then 0
    else (if (actions[0].Save? || actions[0].Abandon?) && actions[0].k == k then 1 else 0)
         + SavedOrAbandoned(actions[1..], k)
  }

  function UnderWay(s: System, k: nat): nat {
    if k in s.asks then 1 else 0
  }

  /** An ask is saved or abandoned at most once each time it began, and never while it is still under way. */
  lemma {:induction false} AsksEndOnce(s: System, actions: seq<Action>, t: System, k: nat)
    requires Reaches(s, actions, t)
    ensures SavedOrAbandoned(actions, k) + UnderWay(t, k) <= Begun(actions, k) + UnderWay(s, k)
    decreases |actions|
  {
    hide Hydrated, SimilarRows, Chosen, Persist, DeleteByOwner, DeleteSession;
    if actions != [] {
      AsksEndOnce(Next(s, actions[0]), actions[1..], t, k);
    }
  }

  // Where the source falls short

  ghost predicate HasRows(st: Store, owner: string) {
    exists id :: id in st.cache && st.cache[id].owner == owner
  }

  /**
   * When an owner's cached answers are dropped and an ask then saves, the owner has cached answers again if and
   * only if the ask is of that owner and has something to store in a session that is still there.
   */
  lemma SavedAfterInvalidation(s: System, k: nat, owner: string)
    requires Enabled(s, Save(k)) && Inv(s.store)
    ensures var Holding(r, embedded, d) := s.asks[k];
            HasRows(Next(Next(s, Invalidate(owner)), Save(k)).store, owner)
            <==> r.owner == owner && d.text != "" && embedded && r.session !in s.store.dropped
  {
    var u := Next(s, Invalidate(owner));
    InvalidationKeepsInv(s.store, owner);
    var Holding(r, embedded, d) := s.asks[k];
    PersistAddsOneTurn(u.store, r, d.text, d.tone, embedded, d.origin);
    assert !HasRows(u.store, owner);
    if d.text != "" && embedded && r.session !in s.store.dropped {
      assert u.store.nextId in Next(u, Save(k)).store.cache;
    }
  }

  /** Some history and ranking make the cache offer `r` an answer of another scope. */
  ghost predicate MayCross(r: Request) {
    exists actions, t, ranking, a :: OffersOther(r, actions, t, ranking, a)
  }

  ghost predicate OffersOther(r: Request, actions: seq<Action>, t: System, ranking: seq<Similar>, a: CachedAnswer) {
    && Reaches(START, actions, t) && a in Cached(t.store, r, ranking)
    && a.source in t.store.origins && t.store.origins[a.source].scope != ScopeOf(r.post, r.category)
  }

  /**
   * Whatever the history, the cache offers a request only answers generated for its scope, if and only if its
   * post id is not 0: the lookup takes 0 for a post, the generation for none.
   */
  lemma OnlyPostZeroCrosses(r: Request)
    ensures MayCross(r) <==> r.post == Some(0)
  {
    if r.post == Some(0) {
      PostZeroCrosses(r);
    }
    forall actions, t, ranking, a | OffersOther(r, actions, t, ranking, a) ensures r.post == Some(0) {
      RunsKeepInv(START, actions, t);
      CacheServesOwnScope(t.store, r, ranking, a);
    }
  }

  /** An answer generated for post id 0 in another category is offered. */
  lemma PostZeroCrosses(r: Request)
    requires r.post == Some(0)
    ensures MayCross(r)
  {
    var other := r.(category := if r.category == Some(1) then None else Some(1));
    var actions := [Begin(0, other, [], true), Choose(0, None, Some("a")), Save(0)];
    var origin := Origin(r.owner, CategoryScope(other.category), r.tone, "a");
    var t := System(Persist(EMPTY, other, "a", r.tone, true, origin), map[]);
    SaveFromStart(other, actions, origin, t);
    var s, c := Similar(1, 1.0), Candidate(1, Some(2), r.tone, 1.0);
    assert [s][1..] == [];
    assert Eligible(t.store.cache, r, []) == [];
    assert SimilarRows(t.store, r, [s]) == [c];
    var a := CachedAnswer("a", r.tone, 2);
    assert Hydrated(t.store.messages, c) == Some(a);
    assert [c][1..] == [];
    HydrateFirst(t.store.messages, [c]);
    NothingToHydrate(t.store.messages);
    assert Cached(t.store, r, [s]) == [a];
    assert OffersOther(r, actions, t, [s], a);
  }

  lemma SaveFromStart(r: Request, actions: seq<Action>, origin: Origin, t: System)
    requires actions == [Begin(0, r, [], true), Choose(0, None, Some("a")), Save(0)]
    requires origin == Origin(r.owner, ScopeOf(r.post, r.category), r.tone, "a")
    requires t == System(Persist(EMPTY, r, "a", r.tone, true, origin), map[])
    ensures Reaches(START, actions, t)
  {
    hide Persist;
    assert SimilarRows(EMPTY, r, []) == [];
    var begun := Next(START, actions[0]);
    var chosen := Next(begun, actions[1]);
    assert actions[1..] == [actions[1], actions[2]];
    assert actions[1..][1..] == [actions[2]] && actions[1..][1..][1..] == [];
    assert chosen.asks == map[0 := Holding(r, true, Draft("a", r.tone, origin))];
    assert Next(chosen, actions[2]) == t;
    assert Reaches(t, [], t);
    assert Reaches(chosen, [actions[2]], t);
    assert Reaches(begun, actions[1..], t);
  }
}
