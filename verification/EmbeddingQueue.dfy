/**
 * The embedding worker's queue protocol (src/worker/queue-consumer.ts): any number of workers pop jobs from
 * one Redis list, retry failures with a back-off by pushing them again, and give up into a second list.
 * LPUSH adds at index 0 and BRPOP takes the last element. Neither crashes nor Redis errors are modelled.
 */
module EmbeddingQueue {
  import opened Sequences

  /** Up to 2^53 in size, whole numbers are doubles; beyond it only even ones are. */
  const EXACT := 0x20_0000_0000_0000

  type Attempt = n: int | -EXACT <= n <= EXACT || n % 2 == 0

  type Retries = n: int | -EXACT <= n <= EXACT

  /**
   * Adding 1 to a double: exact below 2^53; up to 2^54 in size the sum lies between two doubles and goes to
   * the multiple of 4; beyond that it is lost.
   */
  function PlusOne(a: Attempt): Attempt {
    if -EXACT <= a < EXACT then a + 1
    else if -2 * EXACT < a < 2 * EXACT && a % 4 != 0 then EvenStays(a); a + 2
    else a
  }

  lemma EvenStays(a: int)
    ensures (a + 2) % 2 == a % 2
  {
  }

  /**
   * What a payload's text holds: no JSON; JSON whose attempt number cannot be read, that is `null` or a job
   * whose attempt has no primitive value; or a job with its attempt number.
   */
  datatype Body = Malformed | Unreadable | Job(attempt: Attempt)

  /** A job with such an attempt number is never given up: adding 1 does not bring it above 2^53 below zero. */
  predicate IsHopeless(body: Body) {
    body.Job? && body.attempt < -EXACT - 2
  }

  lemma PlusOneGrows(a: Attempt)
    ensures a <= PlusOne(a) && (-EXACT <= a < EXACT ==> PlusOne(a) == a + 1)
    ensures -EXACT - 2 <= a < EXACT ==> a + 1 <= PlusOne(a)
    ensures EXACT <= a ==> EXACT <= PlusOne(a)
    ensures a < -EXACT - 2 <==> PlusOne(a) < -EXACT - 2
  {
  }

  /** A queued payload: `id` tells enqueued payloads apart. */
  datatype Payload = Payload(id: nat, body: Body)

  datatype Activity = Idle | Working(p: Payload) | BackingOff(p: Payload)

  /**
   * The shared lists and the workers, with the history: what every payload held at first, how often its
   * processing was started, everything ever pushed to the queue, how many pops there have been, and the
   * payloads that were dropped: reading the attempt throws where only the loop catches it.
   */
  datatype System = System(
    queue: seq<Payload>, workers: seq<Activity>, done: seq<Payload>, failed: seq<Payload>,
    initial: seq<Body>, runs: seq<nat>, pushed: seq<Payload>, popped: nat, lost: seq<Payload>)

  datatype Action =
    | Enqueue(body: Body)            // a producer's LPUSH
    | Pop(w: nat)                    // BRPOP, and the start of handling
    | Finish(w: nat, success: bool)  // processing ends
    | Requeue(w: nat)                // the back-off ends

  predicate Enabled(s: System, a: Action) {
    match a
    case Enqueue(_) => true
    case Pop(w) => w < |s.workers| && s.workers[w].Idle? && s.queue != []
    case Finish(w, _) => w < |s.workers| && s.workers[w].Working?
    case Requeue(w) => w < |s.workers| && s.workers[w].BackingOff?
  }

  function Next(s: System, a: Action, maxRetries: Retries): System
    requires Enabled(s, a)
  {
    match a
    case Enqueue(body) =>
      var p := Payload(|s.initial|, body);
      s.(queue := [p] + s.queue, initial := s.initial + [body], runs := s.runs + [0], pushed := s.pushed + [p])
    case Pop(w) =>
      var p := Last(s.queue);
      s.(queue := Init(s.queue), workers := s.workers[w := Working(p)],
         runs := if p.id < |s.runs| then s.runs[p.id := s.runs[p.id] + 1] else s.runs, popped := s.popped + 1)
    case Finish(w, success) =>
      var p := s.workers[w].p;
      if p.body.Malformed? then s.(workers := s.workers[w := Idle], failed := [p] + s.failed)
      else if p.body.Unreadable? then s.(workers := s.workers[w := Idle], lost := s.lost + [p])
      else if success then s.(workers := s.workers[w := Idle], done := s.done + [p])
      else
        var next := Payload(p.id, Job(PlusOne(p.body.attempt)));
        if next.body.attempt < maxRetries then s.(workers := s.workers[w := BackingOff(next)])
        else s.(workers := s.workers[w := Idle], failed := [next] + s.failed)
    case Requeue(w) =>
      var p := s.workers[w].p;
      s.(queue := [p] + s.queue, workers := s.workers[w := Idle], pushed := s.pushed + [p])
  }

  function Start(workers: nat): System {
    System([], seq(workers, _ => Idle), [], [], [], [], [], 0, [])
  }

  /** The states the protocol can reach by the given actions. */
  ghost predicate Reaches(s: System, actions: seq<Action>, t: System, maxRetries: Retries)
    decreases |actions|
  {
    if actions == [] then s == t
    else Enabled(s, actions[0]) && Reaches(Next(s, actions[0], maxRetries), actions[1..], t, maxRetries)
  }

  // Where the payloads are

  /** How often payload `id` occurs in a list, in a worker's hands, and in all workers' hands. */
  function Count(ps: seq<Payload>, id: nat): nat {
    if ps == [] then 0 else (if ps[0].id == id then 1 else 0) + Count(ps[1..], id)
  }

  function Holds(a: Activity, id: nat): nat {
    if !a.Idle? && a.p.id == id then 1 else 0
  }

  function InFlight(workers: seq<Activity>, id: nat): nat {
    if workers == [] then 0 else Holds(workers[0], id) + InFlight(workers[1..], id)
  }

  function Places(s: System, id: nat): nat {
    Count(s.queue, id) + InFlight(s.workers, id) + Count(s.done, id) + Count(s.failed, id)
  }

  /** Every payload ever enqueued is in exactly one place, once, or dropped, and nothing else is anywhere. */
  ghost predicate Conserved(s: System) {
    forall id: nat :: Places(s, id) + Count(s.lost, id) == if id < |s.initial| then 1 else 0
  }

  predicate IsUnreadable(s: System, id: nat) {
    id < |s.initial| && s.initial[id].Unreadable?
  }

  /** What is dropped is unreadable, and what has come to its end is not. */
  ghost predicate OnlyUnreadableLost(s: System) {
    && (forall p :: p in s.lost ==> IsUnreadable(s, p.id))
    && (forall p :: p in s.done || p in s.failed ==> p.id < |s.initial| && !IsUnreadable(s, p.id))
  }

  lemma {:induction false} Counts(ps: seq<Payload>, id: nat)
    ensures Count(ps, id) > 0 <==> exists p :: p in ps && p.id == id
  {
    if ps != [] {
      Counts(ps[1..], id);
      assert ps == [ps[0]] + ps[1..];
      assert ps[0] in ps;
      if Count(ps[1..], id) > 0 {
        var p :| p in ps[1..] && p.id == id;
        assert p in ps;
      }
    }
  }

  lemma {:induction false} CountAppend(a: seq<Payload>, b: seq<Payload>, id: nat)
    ensures Count(a + b, id) == Count(a, id) + Count(b, id)
  {
    if a == [] {
      assert a + b == b;
    } else {
      CountAppend(a[1..], b, id);
      assert (a + b)[1..] == a[1..] + b;
    }
  }

  lemma CountOne(p: Payload, id: nat)
    ensures Count([p], id) == if p.id == id then 1 else 0
  {
    assert [p][1..] == [];
  }

  lemma {:induction false} InFlightUpdate(workers: seq<Activity>, w: nat, a: Activity, id: nat)
    requires w < |workers|
    ensures InFlight(workers[w := a], id) + Holds(workers[w], id) == InFlight(workers, id) + Holds(a, id)
  {
    if w == 0 {
      assert workers[0 := a][1..] == workers[1..];
    } else {
      assert workers[w := a][1..] == workers[1..][w - 1 := a];
      InFlightUpdate(workers[1..], w - 1, a, id);
    }
  }

  lemma {:induction false} NothingInFlight(n: nat, id: nat)
    ensures InFlight(seq(n, _ => Idle), id) == 0
  {
    if n > 0 {
      NothingInFlight(n - 1, id);
      assert seq(n, _ => Idle)[1..] == seq(n - 1, _ => Idle);
    }
  }

  lemma PlacesStep(s: System, a: Action, maxRetries: Retries, id: nat)
    requires Enabled(s, a)
    ensures var t := Next(s, a, maxRetries);
            Places(t, id) + Count(t.lost, id)
            == Places(s, id) + Count(s.lost, id) + if a.Enqueue? && id == |s.initial| then 1 else 0
  {
    hide Count, InFlight;
    var t := Next(s, a, maxRetries);
    match a
    case Enqueue(_) =>
      CountOne(t.queue[0], id);
      CountAppend([t.queue[0]], s.queue, id);
    case Pop(w) =>
      InFlightUpdate(s.workers, w, t.workers[w], id);
      assert s.queue == Init(s.queue) + [Last(s.queue)];
      CountAppend(Init(s.queue), [Last(s.queue)], id);
      CountOne(Last(s.queue), id);
    case Finish(w, success) =>
      var p := s.workers[w].p;
      InFlightUpdate(s.workers, w, t.workers[w], id);
      if t.workers[w].Idle? {
        if p.body.Unreadable? {
          CountAppend(s.lost, [p], id);
          CountOne(p, id);
        } else if p.body.Job? && success {
          CountAppend(s.done, [p], id);
          CountOne(p, id);
        } else {
          CountAppend([t.failed[0]], s.failed, id);
          CountOne(t.failed[0], id);
        }
      }
    case Requeue(w) =>
      InFlightUpdate(s.workers, w, Idle, id);
      CountAppend([s.workers[w].p], s.queue, id);
      CountOne(s.workers[w].p, id);
  }

  // First come, first served

  /** The queue holds exactly the pushes not yet popped, the oldest at the popping end. */
  ghost predicate InOrder(s: System) {
    s.popped <= |s.pushed| && s.queue == Reversed(s.pushed[s.popped..])
  }

  lemma {:induction false} ReversedAppend(ps: seq<Payload>, p: Payload)
    ensures Reversed(ps + [p]) == [p] + Reversed(ps)
  {
    if ps == [] {
      assert [p][1..] == [] && [] + [p] == [p];
    } else {
      assert (ps + [p])[1..] == ps[1..] + [p];
      ReversedAppend(ps[1..], p);
      assert [p] + Reversed(ps[1..]) + [ps[0]] == [p] + (Reversed(ps[1..]) + [ps[0]]);
    }
  }

  /** A pop takes the oldest push not yet popped: the k-th pop returns the k-th push, first tries and retries alike. */
  lemma PopTakesOldest(s: System)
    requires InOrder(s) && s.queue != []
    ensures s.popped < |s.pushed| && Last(s.queue) == s.pushed[s.popped]
    ensures Init(s.queue) == Reversed(s.pushed[s.popped + 1..])
  {
    var rest := s.pushed[s.popped..];
    assert rest[1..] == s.pushed[s.popped + 1..];
    assert Init(Reversed(rest[1..]) + [rest[0]]) == Reversed(rest[1..]);
  }

  lemma InOrderStep(s: System, a: Action, maxRetries: Retries)
    requires InOrder(s) && Enabled(s, a)
    ensures InOrder(Next(s, a, maxRetries))
  {
    hide Reversed;
    var t := Next(s, a, maxRetries);
    match a
    case Enqueue(_) =>
      ReversedAppend(s.pushed[s.popped..], t.queue[0]);
      assert t.pushed[t.popped..] == s.pushed[s.popped..] + [t.queue[0]];
    case Pop(w) =>
      PopTakesOldest(s);
    case Finish(w, _) =>
    case Requeue(w) =>
      ReversedAppend(s.pushed[s.popped..], t.queue[0]);
      assert t.pushed[t.popped..] == s.pushed[s.popped..] + [t.queue[0]];
  }

  // Attempts

  /** The attempt number grows with each run, by one where doubles are exact. */
  predicate IsCountedFrom(first: Attempt, now: Attempt, runs: nat) {
    && (first >= -EXACT - 2 ==> now >= first + runs)
    && (first >= -EXACT ==> now == first + runs)
    && (IsHopeless(Job(first)) <==> IsHopeless(Job(now)))
  }

  lemma CountedOnce(first: Attempt, now: Attempt, runs: nat)
    requires IsCountedFrom(first, now, runs) && PlusOne(now) < EXACT
    ensures IsCountedFrom(first, PlusOne(now), runs + 1)
  {
    PlusOneGrows(now);
  }

  /** `p` waits for its next try: as many runs are behind it as attempts have been counted. */
  predicate IsWaiting(s: System, p: Payload, maxRetries: Retries) {
    && p.id < |s.initial| == |s.runs|
    && match p.body {
         case Job(a) =>
           && s.initial[p.id].Job? && IsCountedFrom(s.initial[p.id].attempt, a, s.runs[p.id])
           && (s.runs[p.id] > 0 ==> a < maxRetries)
         case _ => p.body == s.initial[p.id] && s.runs[p.id] == 0
       }
  }

  /** `p` is being processed: its latest run is counted, its attempt not yet. */
  predicate IsRunning(s: System, p: Payload, maxRetries: Retries) {
    p.id < |s.runs| && s.runs[p.id] > 0 && IsWaiting(s.(runs := s.runs[p.id := s.runs[p.id] - 1]), p, maxRetries)
  }

  ghost predicate Counted(s: System, maxRetries: Retries) {
    && |s.initial| == |s.runs|
    && (forall i :: 0 <= i < |s.queue| ==> IsWaiting(s, s.queue[i], maxRetries))
    && (forall w :: 0 <= w < |s.workers| ==>
          && (s.workers[w].Working? ==> IsRunning(s, s.workers[w].p, maxRetries))
          && (s.workers[w].BackingOff? ==> IsWaiting(s, s.workers[w].p, maxRetries) && s.workers[w].p.body.Job?))
    && (forall id :: 0 <= id < |s.runs| && !IsHopeless(s.initial[id]) ==>
                       s.runs[id] <= MaxRuns(s.initial[id], maxRetries))
  }

  /** How often a payload can be processed at most: once when it holds no job. */
  function MaxRuns(body: Body, maxRetries: Retries): nat {
    if body.Job? && maxRetries - body.attempt > 1 then maxRetries - body.attempt else 1
  }

  lemma {:induction false} CountSome(ps: seq<Payload>, i: nat)
    requires i < |ps|
    ensures Count(ps, ps[i].id) >= 1
  {
    if i > 0 {
      CountSome(ps[1..], i - 1);
    }
  }

  lemma {:induction false} InFlightSome(workers: seq<Activity>, w: nat)
    requires w < |workers| && !workers[w].Idle?
    ensures InFlight(workers, workers[w].p.id) >= 1
  {
    if w > 0 {
      InFlightSome(workers[1..], w - 1);
    }
  }

  /** The payload at the popping end is nowhere else. */
  lemma PoppedIsAlone(s: System)
    requires Conserved(s) && s.queue != []
    ensures var p := Last(s.queue);
            && (forall i :: 0 <= i < |s.queue| - 1 ==> s.queue[i].id != p.id)
            && (forall w :: 0 <= w < |s.workers| && !s.workers[w].Idle? ==> s.workers[w].p.id != p.id)
  {
    hide Count, InFlight;
    var p := Last(s.queue);
    assert Places(s, p.id) + Count(s.lost, p.id) <= 1;
    assert s.queue == Init(s.queue) + [p];
    CountAppend(Init(s.queue), [p], p.id);
    CountOne(p, p.id);
    forall i | 0 <= i < |s.queue| - 1 ensures s.queue[i].id != p.id {
      CountSome(Init(s.queue), i);
    }
    forall w | 0 <= w < |s.workers| && !s.workers[w].Idle? ensures s.workers[w].p.id != p.id {
      InFlightSome(s.workers, w);
    }
  }

  lemma CountedStep(s: System, a: Action, maxRetries: Retries)
    requires Conserved(s) && Counted(s, maxRetries) && Enabled(s, a)
    ensures Counted(Next(s, a, maxRetries), maxRetries)
  {
    match a
    case Enqueue(body) => CountedEnqueue(s, body, maxRetries);
    case Pop(w) => CountedPop(s, w, maxRetries);
    case Finish(w, success) => CountedFinish(s, w, success, maxRetries);
    case Requeue(w) => CountedRequeue(s, w, maxRetries);
  }

  lemma CountedEnqueue(s: System, body: Body, maxRetries: Retries)
    requires Counted(s, maxRetries)
    ensures Counted(Next(s, Enqueue(body), maxRetries), maxRetries)
  {
    var t := Next(s, Enqueue(body), maxRetries);
    forall p: Payload ensures IsWaiting(s, p, maxRetries) ==> IsWaiting(t, p, maxRetries) {}
    forall p: Payload ensures IsRunning(s, p, maxRetries) ==> IsRunning(t, p, maxRetries) {}
    assert IsWaiting(t, t.queue[0], maxRetries);
  }

  lemma CountedPop(s: System, w: nat, maxRetries: Retries)
    requires Conserved(s) && Counted(s, maxRetries) && Enabled(s, Pop(w))
    ensures Counted(Next(s, Pop(w), maxRetries), maxRetries)
  {
    PoppedIsAlone(s);
    hide Conserved;
    var t, q := Next(s, Pop(w), maxRetries), Last(s.queue);
    assert IsWaiting(s, q, maxRetries);
    forall p: Payload | p.id != q.id ensures IsWaiting(s, p, maxRetries) ==> IsWaiting(t, p, maxRetries) {}
    forall p: Payload | p.id != q.id ensures IsRunning(s, p, maxRetries) ==> IsRunning(t, p, maxRetries) {}
    assert IsRunning(t, q, maxRetries) by {
      assert t.runs[q.id := t.runs[q.id] - 1] == s.runs;
    }
  }

  lemma CountedFinish(s: System, w: nat, success: bool, maxRetries: Retries)
    requires Counted(s, maxRetries) && Enabled(s, Finish(w, success))
    ensures Counted(Next(s, Finish(w, success), maxRetries), maxRetries)
  {
    var t := Next(s, Finish(w, success), maxRetries);
    var q := s.workers[w].p;
    assert IsRunning(s, q, maxRetries);
    if q.body.Job? && PlusOne(q.body.attempt) < EXACT {
      CountedOnce(s.initial[q.id].attempt, q.body.attempt, s.runs[q.id] - 1);
    }
    hide IsCountedFrom, PlusOne, IsHopeless;
    forall p: Payload ensures IsWaiting(s, p, maxRetries) ==> IsWaiting(t, p, maxRetries) {}
    forall p: Payload ensures IsRunning(s, p, maxRetries) ==> IsRunning(t, p, maxRetries) {}
  }

  lemma CountedRequeue(s: System, w: nat, maxRetries: Retries)
    requires Counted(s, maxRetries) && Enabled(s, Requeue(w))
    ensures Counted(Next(s, Requeue(w), maxRetries), maxRetries)
  {
    var t := Next(s, Requeue(w), maxRetries);
    forall p: Payload ensures IsWaiting(s, p, maxRetries) ==> IsWaiting(t, p, maxRetries) {}
    forall p: Payload ensures IsRunning(s, p, maxRetries) ==> IsRunning(t, p, maxRetries) {}
  }

  // Every run

  ghost predicate Inv(s: System, maxRetries: Retries) {
    Conserved(s) && OnlyUnreadableLost(s) && InOrder(s) && Counted(s, maxRetries)
  }

  lemma OnlyUnreadableLostStep(s: System, a: Action, maxRetries: Retries)
    requires OnlyUnreadableLost(s) && Counted(s, maxRetries) && Enabled(s, a)
    ensures OnlyUnreadableLost(Next(s, a, maxRetries))
  {
    var t := Next(s, a, maxRetries);
    if a.Finish? {
      assert IsRunning(s, s.workers[a.w].p, maxRetries);
    }
    forall p | p in t.lost ensures IsUnreadable(t, p.id) {
      assert p in s.lost || (a.Finish? && p == s.workers[a.w].p);
    }
    forall p | p in t.done || p in t.failed ensures p.id < |t.initial| && !IsUnreadable(t, p.id) {
      assert p in s.done || p in s.failed || (a.Finish? && p.id == s.workers[a.w].p.id);
    }
  }

  lemma StartInv(workers: nat, maxRetries: Retries)
    ensures Inv(Start(workers), maxRetries)
  {
    forall id: nat ensures Places(Start(workers), id) + Count(Start(workers).lost, id) == 0 {
      NothingInFlight(workers, id);
    }
  }

  lemma StepInv(s: System, a: Action, maxRetries: Retries)
    requires Inv(s, maxRetries) && Enabled(s, a)
    ensures Inv(Next(s, a, maxRetries), maxRetries)
  {
    hide InOrder, Counted, Places, Next, Count, OnlyUnreadableLost;
    var t := Next(s, a, maxRetries);
    assert |t.initial| == |s.initial| + (if a.Enqueue? then 1 else 0) by {
      InitialGrows(s, a, maxRetries);
    }
    forall id: nat ensures Places(t, id) + Count(t.lost, id) == if id < |t.initial| then 1 else 0 {
      PlacesStep(s, a, maxRetries, id);
      assert Places(s, id) + Count(s.lost, id) == if id < |s.initial| then 1 else 0;
    }
    OnlyUnreadableLostStep(s, a, maxRetries);
    InOrderStep(s, a, maxRetries);
    CountedStep(s, a, maxRetries);
  }

  lemma InitialGrows(s: System, a: Action, maxRetries: Retries)
    requires Enabled(s, a)
    ensures |Next(s, a, maxRetries).initial| == |s.initial| + if a.Enqueue? then 1 else 0
  {
  }

  /**
   * However many workers run and however their steps interleave: every enqueued payload is in exactly one
   * of queue, workers' hands, done and failed, or was unreadable and is dropped; pops follow pushes in order;
   * attempts are counted truly.
   */
  lemma {:induction false} RunsKeepInv(s: System, actions: seq<Action>, t: System, maxRetries: Retries)
    requires Inv(s, maxRetries) && Reaches(s, actions, t, maxRetries)
    ensures Inv(t, maxRetries)
    decreases |actions|
  {
    hide Inv, Next;
    if actions != [] {
      StepInv(s, actions[0], maxRetries);
      RunsKeepInv(Next(s, actions[0], maxRetries), actions[1..], t, maxRetries);
    }
  }

  /**
   * In every reachable state a payload whose attempt can be read is in exactly one place, and one that is not
   * hopeless and was first queued with attempt `a` has run at most max(1, maxRetries - a) times.
   */
  lemma AttemptsAreBounded(workers: nat, actions: seq<Action>, t: System, maxRetries: Retries, id: nat)
    requires Reaches(Start(workers), actions, t, maxRetries) && id < |t.initial|
    ensures Places(t, id) + Count(t.lost, id) == 1 && (!IsUnreadable(t, id) ==> Places(t, id) == 1)
    ensures id < |t.runs| && (!IsHopeless(t.initial[id]) ==> t.runs[id] <= MaxRuns(t.initial[id], maxRetries))
  {
    hide Reaches, Start, InOrder, Places;
    StartInv(workers, maxRetries);
    RunsKeepInv(Start(workers), actions, t, maxRetries);
    Counts(t.lost, id);
  }

  // Draining

  /** Tries a payload has left before its next one, itself included. */
  function Left(p: Payload, maxRetries: Retries): nat {
    MaxRuns(p.body, maxRetries)
  }

  function QueueWork(ps: seq<Payload>, maxRetries: Retries): nat {
    if ps == [] then 0 else 3 * Left(ps[0], maxRetries) + QueueWork(ps[1..], maxRetries)
  }

  function Work(a: Activity, maxRetries: Retries): nat {
    match a
    case Idle => 0
    case Working(p) => 3 * Left(p, maxRetries) - 1
    case BackingOff(p) => 3 * Left(p, maxRetries) + 1
  }

  function WorkersWork(workers: seq<Activity>, maxRetries: Retries): nat {
    if workers == [] then 0 else Work(workers[0], maxRetries) + WorkersWork(workers[1..], maxRetries)
  }

  function Measure(s: System, maxRetries: Retries): nat {
    QueueWork(s.queue, maxRetries) + WorkersWork(s.workers, maxRetries)
  }

  lemma {:induction false} QueueWorkAppend(a: seq<Payload>, b: seq<Payload>, maxRetries: Retries)
    ensures QueueWork(a + b, maxRetries) == QueueWork(a, maxRetries) + QueueWork(b, maxRetries)
  {
    if a == [] {
      assert a + b == b;
    } else {
      QueueWorkAppend(a[1..], b, maxRetries);
      assert (a + b)[1..] == a[1..] + b;
    }
  }

  lemma QueueWorkOne(p: Payload, maxRetries: Retries)
    ensures QueueWork([p], maxRetries) == 3 * Left(p, maxRetries)
  {
    assert [p][1..] == [];
  }

  lemma {:induction false} WorkersWorkUpdate(workers: seq<Activity>, w: nat, a: Activity, maxRetries: Retries)
    requires w < |workers|
    ensures WorkersWork(workers[w := a], maxRetries) + Work(workers[w], maxRetries)
         == WorkersWork(workers, maxRetries) + Work(a, maxRetries)
  {
    if w == 0 {
      assert workers[0 := a][1..] == workers[1..];
    } else {
      assert workers[w := a][1..] == workers[1..][w - 1 := a];
      WorkersWorkUpdate(workers[1..], w - 1, a, maxRetries);
    }
  }

  /** A hopeless job waits in the queue or is in some worker's hands. */
  ghost predicate HasHopeless(s: System) {
    || (exists i :: 0 <= i < |s.queue| && IsHopeless(s.queue[i].body))
    || (exists w :: 0 <= w < |s.workers| && !s.workers[w].Idle? && IsHopeless(s.workers[w].p.body))
  }

  lemma StaysHopeful(s: System, a: Action, maxRetries: Retries)
    requires Enabled(s, a) && !a.Enqueue? && !HasHopeless(s)
    ensures !HasHopeless(Next(s, a, maxRetries))
  {
    var t := Next(s, a, maxRetries);
    if a.Finish? && s.workers[a.w].p.body.Job? {
      PlusOneGrows(s.workers[a.w].p.body.attempt);
    }
    forall i | 0 <= i < |t.queue| ensures !IsHopeless(t.queue[i].body) {
      assert a.Requeue? && i > 0 ==> t.queue[i] == s.queue[i - 1];
    }
  }

  /** Without new jobs and hopeless ones the system comes to rest: every other step makes the measure smaller. */
  lemma MeasureShrinks(s: System, a: Action, maxRetries: Retries)
    requires Enabled(s, a) && !a.Enqueue? && !HasHopeless(s)
    ensures Measure(Next(s, a, maxRetries), maxRetries) < Measure(s, maxRetries)
  {
    hide QueueWork, WorkersWork;
    var t := Next(s, a, maxRetries);
    match a
    case Pop(w) =>
      WorkersWorkUpdate(s.workers, w, t.workers[w], maxRetries);
      assert s.queue == Init(s.queue) + [Last(s.queue)];
      QueueWorkAppend(Init(s.queue), [Last(s.queue)], maxRetries);
      QueueWorkOne(Last(s.queue), maxRetries);
    case Finish(w, _) =>
      WorkersWorkUpdate(s.workers, w, t.workers[w], maxRetries);
      if s.workers[w].p.body.Job? {
        PlusOneGrows(s.workers[w].p.body.attempt);
      }
    case Requeue(w) =>
      WorkersWorkUpdate(s.workers, w, Idle, maxRetries);
      QueueWorkAppend([s.workers[w].p], s.queue, maxRetries);
      QueueWorkOne(s.workers[w].p, maxRetries);
  }

  /** When no step but a new job is possible, a payload is done or failed if and only if it was readable. */
  lemma RestMeansSettled(s: System, maxRetries: Retries, id: nat)
    requires Inv(s, maxRetries) && |s.workers| > 0 && id < |s.initial|
    requires forall a: Action :: Enabled(s, a) ==> a.Enqueue?
    ensures Count(s.done, id) + Count(s.failed, id) == if IsUnreadable(s, id) then 0 else 1
    ensures Count(s.lost, id) == if IsUnreadable(s, id) then 1 else 0
  {
    hide InOrder, Counted, Count;
    QueueOfNone(id);
    forall w | 0 <= w < |s.workers| ensures s.workers[w].Idle? {
      assert !Enabled(s, Finish(w, true)) && !Enabled(s, Requeue(w));
    }
    assert !Enabled(s, Pop(0));
    AllIdle(s.workers, id);
    assert Places(s, id) + Count(s.lost, id) == 1;
    Counts(s.lost, id);
    Counts(s.done, id);
    Counts(s.failed, id);
  }

  lemma QueueOfNone(id: nat)
    ensures Count([], id) == 0
  {
  }

  lemma {:induction false} AllIdle(workers: seq<Activity>, id: nat)
    requires forall w :: 0 <= w < |workers| ==> workers[w].Idle?
    ensures InFlight(workers, id) == 0
  {
    if workers != [] {
      AllIdle(workers[1..], id);
    }
  }

  /** So no run without new or hopeless jobs is longer than the measure of the state it starts from. */
  lemma {:induction false} RunsAreFinite(s: System, actions: seq<Action>, t: System, maxRetries: Retries)
    requires Reaches(s, actions, t, maxRetries) && !HasHopeless(s)
    requires forall a :: a in actions ==> !a.Enqueue?
    ensures |actions| + Measure(t, maxRetries) <= Measure(s, maxRetries) && !HasHopeless(t)
    decreases |actions|
  {
    hide Measure, Next, HasHopeless;
    if actions != [] {
      assert actions[0] in actions;
      MeasureShrinks(s, actions[0], maxRetries);
      StaysHopeful(s, actions[0], maxRetries);
      RunsAreFinite(Next(s, actions[0], maxRetries), actions[1..], t, maxRetries);
    }
  }

  lemma HopelessRequeue(s: System, w: nat, maxRetries: Retries)
    requires HasHopeless(s) && Enabled(s, Requeue(w))
    ensures HasHopeless(Next(s, Requeue(w), maxRetries))
  {
    hide IsHopeless;
    var t := Next(s, Requeue(w), maxRetries);
    assert t.queue[0] == s.workers[w].p;
    assert forall i :: 0 <= i < |s.queue| ==> t.queue[i + 1] == s.queue[i];
    assert forall v :: 0 <= v < |s.workers| && v != w ==> t.workers[v] == s.workers[v];
  }

  lemma HopelessFailure(s: System, w: nat, maxRetries: Retries)
    requires HasHopeless(s) && Enabled(s, Finish(w, false))
    ensures HasHopeless(Next(s, Finish(w, false), maxRetries))
  {
    var t, body := Next(s, Finish(w, false), maxRetries), s.workers[w].p.body;
    if IsHopeless(body) {
      PlusOneGrows(body.attempt);
      assert t.workers[w].BackingOff? && IsHopeless(t.workers[w].p.body);
    }
    hide IsHopeless;
    assert t.queue == s.queue;
    assert forall v :: 0 <= v < |s.workers| && v != w ==> t.workers[v] == s.workers[v];
  }

  lemma HopelessPop(s: System, w: nat, maxRetries: Retries)
    requires HasHopeless(s) && Enabled(s, Pop(w))
    ensures HasHopeless(Next(s, Pop(w), maxRetries))
  {
    hide IsHopeless;
    var t := Next(s, Pop(w), maxRetries);
    assert t.workers[w].p == s.queue[|s.queue| - 1];
    assert forall i :: 0 <= i < |s.queue| - 1 ==> t.queue[i] == s.queue[i];
    assert forall v :: 0 <= v < |s.workers| && v != w ==> t.workers[v] == s.workers[v];
  }

  /** A step that is no new job and leaves a hopeless job hopeless. */
  lemma HopelessGoesOn(s: System, maxRetries: Retries) returns (a: Action)
    requires HasHopeless(s) && |s.workers| > 0
    ensures Enabled(s, a) && !a.Enqueue? && HasHopeless(Next(s, a, maxRetries))
    ensures |Next(s, a, maxRetries).workers| == |s.workers|
  {
    if w :| 0 <= w < |s.workers| && s.workers[w].BackingOff? {
      a := Requeue(w);
      HopelessRequeue(s, w, maxRetries);
    } else if w :| 0 <= w < |s.workers| && s.workers[w].Working? {
      a := Finish(w, false);
      HopelessFailure(s, w, maxRetries);
    } else {
      a := Pop(0);
      HopelessPop(s, 0, maxRetries);
    }
  }

  /** Runs of any length without a new job. */
  ghost predicate GoesOn(s: System, maxRetries: Retries) {
    forall n: nat :: RunsFor(s, maxRetries, n)
  }

  ghost predicate RunsFor(s: System, maxRetries: Retries, n: nat) {
    exists actions, t :: IsRunOf(s, actions, t, maxRetries, n)
  }

  ghost predicate IsRunOf(s: System, actions: seq<Action>, t: System, maxRetries: Retries, n: nat) {
    |actions| == n && Reaches(s, actions, t, maxRetries) && forall a :: a in actions ==> !a.Enqueue?
  }

  lemma {:induction false} HopelessRun(s: System, maxRetries: Retries, n: nat) returns (actions: seq<Action>, t: System)
    requires HasHopeless(s) && |s.workers| > 0
    ensures IsRunOf(s, actions, t, maxRetries, n)
    decreases n
  {
    hide HasHopeless, Next, Enabled;
    if n == 0 {
      actions, t := [], s;
    } else {
      var a := HopelessGoesOn(s, maxRetries);
      var later, end := HopelessRun(Next(s, a, maxRetries), maxRetries, n - 1);
      actions, t := [a] + later, end;
      assert actions[1..] == later;
    }
  }

  /**
   * Without new jobs the workers come to rest whatever happens, if and only if no job is hopeless: one whose
   * attempt number is so far below zero that adding 1 to it as a double comes to nothing.
   */
  lemma ComesToRest(s: System, maxRetries: Retries)
    requires |s.workers| > 0
    ensures GoesOn(s, maxRetries) <==> HasHopeless(s)
  {
    hide HasHopeless, Reaches, Measure;
    if HasHopeless(s) {
      forall n: nat ensures RunsFor(s, maxRetries, n) {
        var actions, t := HopelessRun(s, maxRetries, n);
      }
    } else if GoesOn(s, maxRetries) {
      var n := Measure(s, maxRetries) + 1;
      assert RunsFor(s, maxRetries, n);
      var actions, t :| IsRunOf(s, actions, t, maxRetries, n);
      RunsAreFinite(s, actions, t, maxRetries);
      assert false;
    }
  }

  /** The payloads a run pops, in order. */
  function Popped(s: System, actions: seq<Action>, maxRetries: Retries): seq<Payload>
    decreases |actions|
  {
    if actions == [] || !Enabled(s, actions[0]) then []
    else
      (if actions[0].Pop? then [Last(s.queue)] else [])
      + Popped(Next(s, actions[0], maxRetries), actions[1..], maxRetries)
  }

  /** Over any run, pops return the pushes in the order they were made: a retry never overtakes a waiting job. */
  lemma {:induction false} PopsFollowPushes(s: System, actions: seq<Action>, t: System, maxRetries: Retries)
    requires InOrder(s) && Reaches(s, actions, t, maxRetries)
    ensures s.pushed <= t.pushed && s.popped <= t.popped <= |t.pushed|
    ensures Popped(s, actions, maxRetries) == t.pushed[s.popped..t.popped]
    decreases |actions|
  {
    if actions != [] {
      hide InOrder, Next;
      var u := Next(s, actions[0], maxRetries);
      HistoryStep(s, actions[0], maxRetries);
      PopsFollowPushes(u, actions[1..], t, maxRetries);
      if actions[0].Pop? {
        assert t.pushed[s.popped] == u.pushed[s.popped];
        SliceCons(t.pushed, s.popped, t.popped);
      } else {
        assert [] + t.pushed[s.popped..t.popped] == t.pushed[s.popped..t.popped];
      }
    } else {
      assert t.pushed[s.popped..s.popped] == [];
      InOrderBounds(s);
    }
  }

  lemma SliceCons(ps: seq<Payload>, i: nat, j: nat)
    requires i < j <= |ps|
    ensures [ps[i]] + ps[i + 1..j] == ps[i..j]
  {
  }

  lemma InOrderBounds(s: System)
    requires InOrder(s)
    ensures s.popped <= |s.pushed|
  {
  }

  lemma HistoryStep(s: System, a: Action, maxRetries: Retries)
    requires InOrder(s) && Enabled(s, a)
    ensures InOrder(Next(s, a, maxRetries)) && s.pushed <= Next(s, a, maxRetries).pushed
    ensures s.popped <= |s.pushed|
    ensures Next(s, a, maxRetries).popped == s.popped + if a.Pop? then 1 else 0
    ensures a.Pop? ==> s.popped < |s.pushed| && Last(s.queue) == s.pushed[s.popped]
  {
    hide Reversed;
    InOrderStep(s, a, maxRetries);
    if a.Pop? {
      PopTakesOldest(s);
    }
  }

  lemma {:induction false} ReachesMore(s: System, actions: seq<Action>, t: System, a: Action, maxRetries: Retries)
    requires Reaches(s, actions, t, maxRetries) && Enabled(t, a)
    ensures Reaches(s, actions + [a], Next(t, a, maxRetries), maxRetries)
    decreases |actions|
  {
    hide Next;
    if actions == [] {
      assert ([] + [a])[1..] == [];
    } else {
      ReachesMore(Next(s, actions[0], maxRetries), actions[1..], t, a, maxRetries);
      assert (actions + [a])[1..] == actions[1..] + [a];
    }
  }

  // How each try ends, and what comes of it

  /** The outcomes of each payload's tries after one more action: a try ends when a worker finishes a job. */
  function Verdict(h: seq<seq<bool>>, s: System, a: Action): seq<seq<bool>>
    requires Enabled(s, a)
  {
    match a
    case Enqueue(_) => h + [[]]
    case Finish(w, success) =>
      var p := s.workers[w].p;
      if p.body.Job? && p.id < |h| then h[p.id := h[p.id] + [success]] else h
    case _ => h
  }

  /** The outcomes after a run of actions. */
  function History(h: seq<seq<bool>>, s: System, actions: seq<Action>, maxRetries: Retries): seq<seq<bool>>
    decreases |actions|
  {
    if actions == [] || !Enabled(s, actions[0]) then h
    else History(Verdict(h, s, actions[0]), Next(s, actions[0], maxRetries), actions[1..], maxRetries)
  }

  /** The attempt number after so many failures. */
  function AfterFailures(first: Attempt, n: nat): Attempt {
    if n == 0 then first else PlusOne(AfterFailures(first, n - 1))
  }

  predicate AllFailed(v: seq<bool>) {
    true !in v
  }

  /** The last try succeeded, and only it. */
  predicate Succeeded(v: seq<bool>) {
    v != [] && Last(v) && AllFailed(Init(v))
  }

  /**
   * A job is given up at the first failure that brings its attempt number to the limit; a malformed payload at
   * once.
   */
  predicate IsGivenUp(first: Body, v: seq<bool>, maxRetries: Retries) {
    match first
    case Malformed => v == []
    case Unreadable => false
    case Job(a) =>
      && v != [] && AllFailed(v) && AfterFailures(a, |v|) >= maxRetries
      && (|v| > 1 ==> AfterFailures(a, |v| - 1) < maxRetries)
  }

  predicate IsPending(s: System, h: seq<seq<bool>>, p: Payload, maxRetries: Retries) {
    && p.id < |h| == |s.initial|
    && match p.body {
         case Job(a) =>
           && s.initial[p.id].Job? && AllFailed(h[p.id])
           && a == AfterFailures(s.initial[p.id].attempt, |h[p.id]|) && (h[p.id] != [] ==> a < maxRetries)
         case _ => p.body == s.initial[p.id] && h[p.id] == []
       }
  }

  /** Every payload is where its outcomes have brought it. */
  ghost predicate Judged(s: System, h: seq<seq<bool>>, maxRetries: Retries) {
    && |h| == |s.initial|
    && (forall p :: p in s.queue ==> IsPending(s, h, p, maxRetries))
    && (forall w :: 0 <= w < |s.workers| && !s.workers[w].Idle? ==> IsPending(s, h, s.workers[w].p, maxRetries))
    && (forall w :: 0 <= w < |s.workers| && s.workers[w].BackingOff? ==> s.workers[w].p.body.Job?)
    && (forall p :: p in s.done ==> p.id < |h| && s.initial[p.id].Job? && Succeeded(h[p.id]))
    && (forall p :: p in s.failed ==> p.id < |h| && IsGivenUp(s.initial[p.id], h[p.id], maxRetries))
    && (forall p :: p in s.lost ==> p.id < |h| && s.initial[p.id].Unreadable? && h[p.id] == [])
  }

  lemma {:induction false} InFlightCounts(workers: seq<Activity>, id: nat)
    ensures InFlight(workers, id) > 0
            <==> exists w :: 0 <= w < |workers| && !workers[w].Idle? && workers[w].p.id == id
  {
    if workers != [] {
      var rest := workers[1..];
      InFlightCounts(rest, id);
      if w :| 0 <= w < |rest| && !rest[w].Idle? && rest[w].p.id == id {
        assert workers[w + 1] == rest[w];
      }
      forall w | 0 < w < |workers| ensures workers[w] == rest[w - 1] {
      }
    }
  }

  /** What a worker holds is nowhere else. */
  lemma HeldIsAlone(s: System, w: nat)
    requires Conserved(s) && w < |s.workers| && !s.workers[w].Idle?
    ensures var id := s.workers[w].p.id;
            && (forall p :: p in s.queue || p in s.done || p in s.failed || p in s.lost ==> p.id != id)
            && (forall v :: 0 <= v < |s.workers| && v != w && !s.workers[v].Idle? ==> s.workers[v].p.id != id)
  {
    hide Count, InFlight;
    var id := s.workers[w].p.id;
    assert Places(s, id) + Count(s.lost, id) <= 1;
    InFlightUpdate(s.workers, w, Idle, id);
    Counts(s.queue, id);
    Counts(s.done, id);
    Counts(s.failed, id);
    Counts(s.lost, id);
    var others := s.workers[w := Idle];
    InFlightCounts(others, id);
    forall v | 0 <= v < |s.workers| && v != w && !s.workers[v].Idle? ensures s.workers[v].p.id != id {
      assert others[v] == s.workers[v];
    }
  }

  lemma JudgedStep(s: System, h: seq<seq<bool>>, a: Action, maxRetries: Retries)
    requires Conserved(s) && Judged(s, h, maxRetries) && Enabled(s, a)
    ensures Judged(Next(s, a, maxRetries), Verdict(h, s, a), maxRetries)
  {
    hide Conserved;
    match a
    case Enqueue(body) => JudgedEnqueue(s, h, body, maxRetries);
    case Pop(w) => JudgedPop(s, h, w, maxRetries);
    case Finish(w, success) =>
      HeldIsAlone(s, w);
      JudgedFinish(s, h, w, success, maxRetries);
    case Requeue(w) => JudgedRequeue(s, h, w, maxRetries);
  }

  lemma JudgedEnqueue(s: System, h: seq<seq<bool>>, body: Body, maxRetries: Retries)
    requires Judged(s, h, maxRetries)
    ensures Judged(Next(s, Enqueue(body), maxRetries), Verdict(h, s, Enqueue(body)), maxRetries)
  {
    hide AllFailed, Succeeded, IsGivenUp;
    var t, h' := Next(s, Enqueue(body), maxRetries), Verdict(h, s, Enqueue(body));
    assert AllFailed([]) by {
      NoneFailed();
    }
    forall p: Payload ensures IsPending(s, h, p, maxRetries) ==> IsPending(t, h', p, maxRetries) {}
  }

  lemma NoneFailed()
    ensures AllFailed([])
  {
  }

  lemma JudgedPop(s: System, h: seq<seq<bool>>, w: nat, maxRetries: Retries)
    requires Judged(s, h, maxRetries) && Enabled(s, Pop(w))
    ensures Judged(Next(s, Pop(w), maxRetries), h, maxRetries)
  {
    hide AllFailed, Succeeded, IsGivenUp;
    var t := Next(s, Pop(w), maxRetries);
    assert Last(s.queue) in s.queue;
    forall p: Payload ensures IsPending(s, h, p, maxRetries) ==> IsPending(t, h, p, maxRetries) {}
    forall p | p in t.queue ensures p in s.queue {
    }
  }

  lemma JudgedRequeue(s: System, h: seq<seq<bool>>, w: nat, maxRetries: Retries)
    requires Judged(s, h, maxRetries) && Enabled(s, Requeue(w))
    ensures Judged(Next(s, Requeue(w), maxRetries), h, maxRetries)
  {
    hide AllFailed, Succeeded, IsGivenUp;
    var t := Next(s, Requeue(w), maxRetries);
    forall p: Payload ensures IsPending(s, h, p, maxRetries) ==> IsPending(t, h, p, maxRetries) {}
  }

  lemma FailedMore(v: seq<bool>)
    requires AllFailed(v)
    ensures AllFailed(v + [false]) && Succeeded(v + [true])
  {
    assert Init(v + [true]) == v;
  }

  lemma JudgedFinish(s: System, h: seq<seq<bool>>, w: nat, success: bool, maxRetries: Retries)
    requires Judged(s, h, maxRetries) && Enabled(s, Finish(w, success))
    requires var id := s.workers[w].p.id;
             && (forall p :: p in s.queue || p in s.done || p in s.failed || p in s.lost ==> p.id != id)
             && (forall v :: 0 <= v < |s.workers| && v != w && !s.workers[v].Idle? ==> s.workers[v].p.id != id)
    ensures Judged(Next(s, Finish(w, success), maxRetries), Verdict(h, s, Finish(w, success)), maxRetries)
  {
    var t, h', q := Next(s, Finish(w, success), maxRetries), Verdict(h, s, Finish(w, success)), s.workers[w].p;
    hide AllFailed, Succeeded, IsPending, IsGivenUp;
    FinishedPayload(s, h, w, success, maxRetries);
    forall p: Payload | p.id != q.id ensures IsPending(s, h, p, maxRetries) ==> IsPending(t, h', p, maxRetries) {
      PendingElsewhere(s, h, t, h', p, maxRetries);
    }
    forall p | p in t.done ensures p in s.done || (p == q && q.body.Job? && success) {
    }
    forall p | p in t.failed ensures p in s.failed || p == t.failed[0] {
    }
  }

  lemma PendingElsewhere(s: System, h: seq<seq<bool>>, t: System, h': seq<seq<bool>>, p: Payload, maxRetries: Retries)
    requires s.initial == t.initial && |h| == |h'| && (p.id < |h| ==> h'[p.id] == h[p.id])
    ensures IsPending(s, h, p, maxRetries) ==> IsPending(t, h', p, maxRetries)
  {
  }

  /** Where the payload of a finished try comes to be. */
  lemma FinishedPayload(s: System, h: seq<seq<bool>>, w: nat, success: bool, maxRetries: Retries)
    requires Judged(s, h, maxRetries) && Enabled(s, Finish(w, success))
    ensures var t, h', q := Next(s, Finish(w, success), maxRetries), Verdict(h, s, Finish(w, success)), s.workers[w].p;
            && q.id < |h| == |h'|
            && (t.workers[w].BackingOff? ==> t.workers[w].p.body.Job? && IsPending(t, h', t.workers[w].p, maxRetries))
            && (q.body.Job? && success ==> s.initial[q.id].Job? && Succeeded(h'[q.id]))
            && (q.body.Unreadable? ==> s.initial[q.id].Unreadable? && h'[q.id] == [])
            && (t.failed != s.failed ==>
                  t.failed[0].id == q.id && IsGivenUp(s.initial[q.id], h'[q.id], maxRetries))
  {
    hide AllFailed, Succeeded;
    var q, h' := s.workers[w].p, Verdict(h, s, Finish(w, success));
    assert IsPending(s, h, q, maxRetries);
    if q.body.Job? {
      FailedMore(h[q.id]);
      assert h'[q.id] == h[q.id] + [success];
    }
  }

  lemma {:induction false} JudgedRun(s: System, h: seq<seq<bool>>, actions: seq<Action>, t: System, maxRetries: Retries)
    requires Inv(s, maxRetries) && Judged(s, h, maxRetries) && Reaches(s, actions, t, maxRetries)
    ensures Judged(t, History(h, s, actions, maxRetries), maxRetries)
    decreases |actions|
  {
    hide Next, Verdict, Judged, InOrder, Counted, OnlyUnreadableLost, Conserved;
    if actions != [] {
      StepInv(s, actions[0], maxRetries);
      JudgedStep(s, h, actions[0], maxRetries);
      JudgedRun(Next(s, actions[0], maxRetries), Verdict(h, s, actions[0]), actions[1..], t, maxRetries);
    }
  }

  /** The outcomes of its tries decide where a payload ends. */
  lemma Decide(s: System, h: seq<seq<bool>>, maxRetries: Retries, id: nat)
    requires Conserved(s) && Judged(s, h, maxRetries) && id < |s.initial|
    ensures Count(s.done, id) == 1 <==> true in h[id]
    ensures s.initial[id].Job? ==> (Count(s.failed, id) == 1 <==> IsGivenUp(s.initial[id], h[id], maxRetries))
  {
    hide Count, InFlight;
    assert Places(s, id) + Count(s.lost, id) == 1;
    Counts(s.queue, id);
    Counts(s.done, id);
    Counts(s.failed, id);
    Counts(s.lost, id);
    InFlightCounts(s.workers, id);
    hide Conserved, AfterFailures;
    if Count(s.done, id) > 0 {
      var p :| p in s.done && p.id == id;
      assert Last(h[id]) in h[id];
    }
  }

  lemma {:induction false} AfterFailuresExact(a: Attempt, n: nat)
    requires a >= -EXACT
    ensures AfterFailures(a, n) < EXACT ==> AfterFailures(a, n) == a + n
    ensures a + n <= EXACT ==> AfterFailures(a, n) == a + n
  {
    if n > 0 {
      AfterFailuresExact(a, n - 1);
      PlusOneGrows(AfterFailures(a, n - 1));
    }
  }

  lemma {:induction false} AfterFailuresLow(n: nat)
    requires n > 0
    ensures AfterFailures(-EXACT - 2, n) == AfterFailures(-EXACT, n - 1)
  {
    if n > 1 {
      AfterFailuresLow(n - 1);
    }
  }

  /** The number of failures after which a job is given up: at -2^53 - 2, adding 1 makes up for two. */
  function RunsToGiveUp(first: Body, maxRetries: Retries): nat {
    MaxRuns(first, maxRetries) - if first == Job(-EXACT - 2) then 1 else 0
  }

  lemma GivenUpAfter(first: Body, v: seq<bool>, maxRetries: Retries)
    requires first.Job? && !IsHopeless(first) && IsGivenUp(first, v, maxRetries)
    ensures AllFailed(v) && |v| == RunsToGiveUp(first, maxRetries)
  {
    hide AfterFailures;
    if first.attempt >= -EXACT {
      AfterFailuresExact(first.attempt, |v|);
      AfterFailuresExact(first.attempt, |v| - 1);
    } else {
      AfterFailuresLow(|v|);
      AfterFailuresExact(-EXACT, |v| - 1);
      if |v| > 1 {
        AfterFailuresLow(|v| - 1);
        AfterFailuresExact(-EXACT, |v| - 2);
      }
    }
  }

  /**
   * In every reachable state a job is done if and only if a try of it ended with success, and in the failed list
   * if and only if all its tries failed and the last one brought it to the limit: unless it is hopeless, that
   * is exactly max(1, maxRetries - first attempt) of them, one less at -2^53 - 2.
   */
  lemma OutcomesDecide(workers: nat, actions: seq<Action>, t: System, maxRetries: Retries, id: nat)
    requires Reaches(Start(workers), actions, t, maxRetries) && id < |t.initial|
    ensures id < |History([], Start(workers), actions, maxRetries)|
    ensures var v := History([], Start(workers), actions, maxRetries)[id];
            && (Count(t.done, id) == 1 <==> true in v)
            && (t.initial[id].Job? ==> (Count(t.failed, id) == 1 <==> IsGivenUp(t.initial[id], v, maxRetries)))
            && (Count(t.failed, id) == 1 && t.initial[id].Job? && !IsHopeless(t.initial[id]) ==>
                  AllFailed(v) && |v| == RunsToGiveUp(t.initial[id], maxRetries))
  {
    hide Reaches, InOrder, Counted, OnlyUnreadableLost, Conserved, History, IsGivenUp, Count, AllFailed, RunsToGiveUp;
    StartInv(workers, maxRetries);
    RunsKeepInv(Start(workers), actions, t, maxRetries);
    JudgedRun(Start(workers), [], actions, t, maxRetries);
    var v := History([], Start(workers), actions, maxRetries)[id];
    Decide(t, History([], Start(workers), actions, maxRetries), maxRetries, id);
    if IsGivenUp(t.initial[id], v, maxRetries) && t.initial[id].Job? && !IsHopeless(t.initial[id]) {
      GivenUpAfter(t.initial[id], v, maxRetries);
    }
  }

  /** The outcomes of one payload's tries among those a worker handled in turn. */
  ghost function Verdicts(handled: seq<Payload>, outcome: (nat, Payload) -> bool, id: nat): seq<bool> {
    if handled == [] then []
    else
      Verdicts(Init(handled), outcome, id)
      + if Last(handled).id == id && Last(handled).body.Job? then [outcome(|handled| - 1, Last(handled))] else []
  }

  // One worker, as the source writes it

  class EmbeddingWorker {
    const maxRetries: Retries
    var queue: seq<Payload>
    var failed: seq<Payload>
    ghost var model: System
    ghost var history: seq<seq<bool>>
    ghost var actions: seq<Action>
    ghost const start: System

    /** The lists are those of a reachable state of the protocol that fits the history; the worker holds nothing. */
    ghost predicate Valid()
      reads this
    {
      model.workers == [Idle] && Tracks()
    }

    ghost predicate Tracks()
      reads this
    {
      && queue == model.queue && failed == model.failed
      && Reaches(start, actions, model, maxRetries)
      && Inv(model, maxRetries) && Judged(model, history, maxRetries)
    }

    constructor (maxRetries: Retries, initial: System, ghost history: seq<seq<bool>>)
      requires initial.workers == [Idle] && Inv(initial, maxRetries) && Judged(initial, history, maxRetries)
      ensures Valid() && model == initial == start && actions == [] && this.maxRetries == maxRetries
      ensures this.history == history
    {
      this.maxRetries := maxRetries;
      queue, failed := initial.queue, initial.failed;
      model, start, actions, this.history := initial, initial, [], history;
    }

    ghost method Record(a: Action)
      requires Enabled(model, a) && Reaches(start, actions, model, maxRetries) && Inv(model, maxRetries)
      requires Judged(model, history, maxRetries)
      modifies this`model, this`actions, this`history
      ensures model == Next(old(model), a, maxRetries) && actions == old(actions) + [a]
      ensures history == Verdict(old(history), old(model), a)
      ensures Reaches(start, actions, model, maxRetries) && Inv(model, maxRetries)
      ensures Judged(model, history, maxRetries)
    {
      assert Conserved(model);
      hide Next, Inv, Reaches, Enabled, Judged, Conserved, Verdict;
      ReachesMore(start, actions, model, a, maxRetries);
      StepInv(model, a, maxRetries);
      JudgedStep(model, history, a, maxRetries);
      history := Verdict(history, model, a);
      model, actions := Next(model, a, maxRetries), actions + [a];
    }

    /**
     * Handles a popped payload to its end, back-off included: a success is done; a failure goes back to the
     * queue or, at the limit, into the failed list; a malformed payload goes there at once, an unreadable
     * one nowhere.
     */
    method HandlePayload(p: Payload, success: bool)
      requires Tracks() && model.workers == [Working(p)]
      modifies this
      ensures Valid() && old(actions) < actions && |model.initial| == |old(model).initial|
      ensures forall a :: a in actions[|old(actions)|..] ==> !a.Enqueue?
      ensures model.done == if p.body.Job? && success then old(model).done + [p] else old(model).done
      ensures p.body.Job? && !success ==>
                var next := Payload(p.id, Job(PlusOne(p.body.attempt)));
                if next.body.attempt < maxRetries then queue == [next] + old(queue) && failed == old(failed)
                else queue == old(queue) && failed == [next] + old(failed)
      ensures !p.body.Job? || success ==> queue == old(queue)
      ensures !p.body.Job? || success ==> failed == if p.body.Malformed? then [p] + old(failed) else old(failed)
      ensures p.id < |old(history)|
      ensures history == if p.body.Job? then old(history)[p.id := old(history)[p.id] + [success]] else old(history)
    {
      hide Inv, Reaches, Judged, IsPending;
      HeldHasHistory(model, history, 0, maxRetries);
      Record(Finish(0, success));
      if p.body.Malformed? {
        failed := [p] + failed;
        return;
      }
      if p.body.Unreadable? {
        return;  // reading the attempt throws, and the loop goes on
      }
      if !success {
        var nextAttempt := PlusOne(p.body.attempt);
        var enriched := Payload(p.id, Job(nextAttempt));
        if nextAttempt < maxRetries {
          Record(Requeue(0));
          queue := [enriched] + queue;
        } else {
          failed := [enriched] + failed;
        }
      }
    }

    /**
     * The worker loop, until it would wait on an empty queue; `outcome` decides how each try ends, and
     * `handled` are the payloads it took, in turn. With a hopeless job it may go on for ever. In the end a
     * job is done if and only if a try of it succeeded, and failed if and only if it was given up.
     */
    method Drain(outcome: (nat, Payload) -> bool) returns (ghost handled: seq<Payload>)
      requires Valid() && !HasHopeless(model)
      modifies this
      ensures Valid() && queue == [] && |history| == |model.initial| == |old(model).initial| == |old(history)|
      ensures forall id :: 0 <= id < |history| ==> history[id] == old(history)[id] + Verdicts(handled, outcome, id)
      ensures forall id :: 0 <= id < |history| ==> (Count(model.done, id) == 1 <==> true in history[id])
      ensures forall id :: 0 <= id < |history| && model.initial[id].Job? ==>
                             (Count(failed, id) == 1 <==> IsGivenUp(model.initial[id], history[id], maxRetries))
      ensures forall id :: 0 <= id < |model.initial| ==>
                             Count(model.done, id) + Count(failed, id) == if IsUnreadable(model, id) then 0 else 1
    {
      hide Inv, Reaches, HasHopeless, Judged, Conserved, IsGivenUp, Counted, InOrder, OnlyUnreadableLost;
      HistoryLength(model, history, maxRetries);
      var n := 0;
      handled := [];
      while queue != []
        invariant Valid() && !HasHopeless(model) && n == |handled|
        invariant |history| == |model.initial| == |old(model).initial| == |old(history)|
        invariant forall id :: 0 <= id < |history| ==>
                                 history[id] == old(history)[id] + Verdicts(handled, outcome, id)
        decreases Measure(model, maxRetries)
      {
        ghost var before, taken, past, had := model, actions, history, handled;
        var p := Last(queue);
        Record(Pop(0));
        queue := Init(queue);
        HandlePayload(p, outcome(n, p));
        handled := handled + [p];
        assert Init(handled) == had && Last(handled) == p;
        forall id | 0 <= id < |history| ensures history[id] == old(history)[id] + Verdicts(handled, outcome, id) {
          SeqAssoc(old(history)[id], Verdicts(had, outcome, id), [outcome(n, p)]);
        }
        n := n + 1;
        ShorterMeasure(start, taken, before, actions, model, maxRetries);
        HistoryLength(model, history, maxRetries);
      }
      forall id | 0 <= id < |model.initial|
        ensures Count(model.done, id) + Count(failed, id) == if IsUnreadable(model, id) then 0 else 1
        ensures Count(model.done, id) == 1 <==> true in history[id]
        ensures model.initial[id].Job? ==>
                  (Count(failed, id) == 1 <==> IsGivenUp(model.initial[id], history[id], maxRetries))
      {
        RestMeansSettled(model, maxRetries, id);
        InvConserves(model, maxRetries);
        Decide(model, history, maxRetries, id);
      }
    }
  }

  lemma HistoryLength(s: System, h: seq<seq<bool>>, maxRetries: Retries)
    requires Judged(s, h, maxRetries)
    ensures |h| == |s.initial|
  {
  }

  lemma HeldHasHistory(s: System, h: seq<seq<bool>>, w: nat, maxRetries: Retries)
    requires Judged(s, h, maxRetries) && w < |s.workers| && !s.workers[w].Idle?
    ensures s.workers[w].p.id < |h|
  {
    assert IsPending(s, h, s.workers[w].p, maxRetries);
  }

  lemma InvConserves(s: System, maxRetries: Retries)
    requires Inv(s, maxRetries)
    ensures Conserved(s)
  {
  }

  lemma {:induction false} ReachesFrom(s: System, actions: seq<Action>, t: System, more: seq<Action>, u: System,
                                       maxRetries: Retries)
    requires Reaches(s, actions, t, maxRetries) && Reaches(s, actions + more, u, maxRetries)
    ensures Reaches(t, more, u, maxRetries)
    decreases |actions|
  {
    hide Next;
    if actions == [] {
      assert actions + more == more;
    } else {
      assert (actions + more)[1..] == actions[1..] + more;
      ReachesFrom(Next(s, actions[0], maxRetries), actions[1..], t, more, u, maxRetries);
    }
  }

  lemma ShorterMeasure(s: System, actions: seq<Action>, t: System, more: seq<Action>, u: System, maxRetries: Retries)
    requires Reaches(s, actions, t, maxRetries) && Reaches(s, more, u, maxRetries) && actions < more
    requires forall a :: a in more[|actions|..] ==> !a.Enqueue?
    requires !HasHopeless(t)
    ensures Measure(u, maxRetries) < Measure(t, maxRetries) && !HasHopeless(u)
  {
    hide Reaches, Measure, HasHopeless;
    assert more == actions + more[|actions|..];
    ReachesFrom(s, actions, t, more[|actions|..], u, maxRetries);
    RunsAreFinite(t, more[|actions|..], u, maxRetries);
  }
}
