/** Concurrent calls of `add` and expiry cycles as steps of one machine. A run is a
    sequence of actions; an action that is not enabled changes nothing, so every
    sequence is a run and every interleaving is a sequence. */
module Interleaving {
  import opened Types
  import opened Sums
  import opened Pool
  import Gate

  type CallId = nat

  /** Where one call of `add` stands. */
  datatype Call =
    | Refused(env: Envelope)
    | Admitted(env: Envelope, isP2P: bool)               // passed the checks, pool lock not taken
    | Inserted(env: Envelope, isP2P: bool)               // a miss, not yet counted
    | Counted(env: Envelope, isP2P: bool)                // memory not yet accounted
    | Accounted(env: Envelope, isP2P: bool)              // not yet queued
    | Finished(env: Envelope, isP2P: bool, miss: bool)
  {
    predicate Inserting() {
      Inserted? || Counted? || Accounted? || (Finished? && miss)
    }

    /** In the pool, but not in the memory count. */
    predicate Unpaid() {
      Inserted? || Counted?
    }
  }

  /** All calls so far, the cache-miss counter, and the histories of insertions and postings. */
  datatype Ledger = Ledger(
    calls: map<CallId, Call>,
    misses: nat,
    inserters: seq<CallId>,
    messageQueue: seq<CallId>,
    p2pQueue: seq<CallId>)

  datatype Node = Node(
    pool: Pool,
    clock: Uint32,
    ledger: Ledger,
    insertions: seq<Hash>,          // digests inserted, in order
    expiredEvents: seq<Hash>,       // digests announced as expired, in order
    panicked: bool)

  datatype Action =
    | Begin(id: CallId, env: Envelope, isP2P: bool, otherChecks: bool)
    | Lock(id: CallId)
    | Count(id: CallId)
    | Account(id: CallId)
    | Post(id: CallId)
    | Cycle(order: seq<Hash>)
    | Tick(clock: Uint32)

  const START := Node(EMPTY, 0, Ledger(map[], 0, [], [], []), [], [], false)

  /** Moves one call on and records what the move does. */
  function Advance(l: Ledger, id: CallId, c: Call): Ledger {
    var calls := l.calls[id := c];
    match c
    case Inserted(_, _) => l.(calls := calls, inserters := l.inserters + [id])
    case Counted(_, _) => l.(calls := calls, misses := l.misses + 1)
    case Finished(_, isP2P, true) =>
      if isP2P then l.(calls := calls, p2pQueue := l.p2pQueue + [id])
      else l.(calls := calls, messageQueue := l.messageQueue + [id])
    case _ => l.(calls := calls)
  }

  /** Reads the clock and runs the checks; `otherChecks` stands for size, work and topic. */
  function StepBegin(s: Node, id: CallId, env: Envelope, isP2P: bool, otherChecks: bool): Node {
    if id in s.ledger.calls then s
    else
      var passes := Gate.TimeGate(s.clock, env.expiry, env.ttl).Continue? && otherChecks;
      s.(ledger := Advance(s.ledger, id, if passes then Admitted(env, isP2P) else Refused(env)))
  }

  /** The section under the pool lock. */
  function StepLock(s: Node, id: CallId): Node {
    if id !in s.ledger.calls || !s.ledger.calls[id].Admitted? then s
    else
      var Admitted(env, isP2P) := s.ledger.calls[id];
      if env.hash in s.pool.envelopes then s.(ledger := Advance(s.ledger, id, Finished(env, isP2P, false)))
      else s.(pool := Insert(s.pool, env),
              ledger := Advance(s.ledger, id, Inserted(env, isP2P)),
              insertions := s.insertions + [env.hash])
  }

  /** Counts the miss. */
  function StepCount(s: Node, id: CallId): Node {
    if id !in s.ledger.calls || !s.ledger.calls[id].Inserted? then s
    else
      var Inserted(env, isP2P) := s.ledger.calls[id];
      s.(ledger := Advance(s.ledger, id, Counted(env, isP2P)))
  }

  /** The section under the statistics lock. */
  function StepAccount(s: Node, id: CallId): Node {
    if id !in s.ledger.calls || !s.ledger.calls[id].Counted? then s
    else
      var Counted(env, isP2P) := s.ledger.calls[id];
      s.(pool := CountMemory(s.pool, env), ledger := Advance(s.ledger, id, Accounted(env, isP2P)))
  }

  function StepPost(s: Node, id: CallId): Node {
    if id !in s.ledger.calls || !s.ledger.calls[id].Accounted? then s
    else
      var Accounted(env, isP2P) := s.ledger.calls[id];
      s.(ledger := Advance(s.ledger, id, Finished(env, isP2P, true)))
  }

  /** An expiry cycle that meets the stale digests in the given order. */
  ghost function StepCycle(s: Node, order: seq<Hash>): Node {
    if !Enumerates(order, Stale(s.pool, s.clock)) then s
    else match Expire(s.pool, s.clock)
      case None => s.(panicked := true)
      case Some(p) => s.(pool := p, expiredEvents := s.expiredEvents + order)
  }

  ghost function Step(s: Node, a: Action): Node {
    match a
    case Begin(id, env, isP2P, otherChecks) => StepBegin(s, id, env, isP2P, otherChecks)
    case Lock(id) => StepLock(s, id)
    case Count(id) => StepCount(s, id)
    case Account(id) => StepAccount(s, id)
    case Post(id) => StepPost(s, id)
    case Cycle(order) => StepCycle(s, order)
    case Tick(clock) => s.(clock := clock)
  }

  ghost function Run(acts: seq<Action>): Node {
    if acts == [] then START else Step(Run(acts[..|acts| - 1]), acts[|acts| - 1])
  }

  // ---- The index ----

  ghost predicate Sound(s: Node) {
    !s.panicked && Indexed(s.pool)
  }

  lemma StepSound(s: Node, a: Action)
    requires Sound(s)
    ensures Sound(Step(s, a))
  {
    match a
    case Lock(id) =>
      if id in s.ledger.calls { InsertKeepsIndex(s.pool, s.ledger.calls[id].env); }
    case Cycle(order) => ExpireKeepsIndex(s.pool, s.clock);
    case _ =>
  }

  // ---- Memory ----

  /** Sizes inserted into the pool but not yet counted. */
  ghost function Unaccounted(calls: map<CallId, Call>): map<CallId, nat> {
    map id | id in calls && calls[id].Unpaid() :: calls[id].env.Size()
  }

  ghost predicate Balances(p: Pool, calls: map<CallId, Call>) {
    p.stats.memoryUsed + Sum(Unaccounted(calls)) == TotalSize(p)
  }

  ghost predicate MemoryBalances(s: Node) {
    Balances(s.pool, s.ledger.calls)
  }

  lemma StepBalances(s: Node, a: Action)
    requires Sound(s) && MemoryBalances(s)
    ensures MemoryBalances(Step(s, a))
  {
    match a
    case Begin(id, env, isP2P, otherChecks) => BeginBalances(s, id, env, isP2P, otherChecks);
    case Lock(id) => LockBalances(s, id);
    case Count(id) => CountBalances(s, id);
    case Account(id) => AccountBalances(s, id);
    case Post(id) => PostBalances(s, id);
    case Cycle(order) => CycleBalances(s, order);
    case Tick(_) =>
  }

  lemma OtherMoves(calls: map<CallId, Call>, id: CallId, c: Call)
    requires !c.Unpaid() && (id in calls ==> !calls[id].Unpaid())
    ensures Unaccounted(calls[id := c]) == Unaccounted(calls)
  {
  }

  lemma BeginBalances(s: Node, id: CallId, env: Envelope, isP2P: bool, otherChecks: bool)
    requires MemoryBalances(s)
    ensures MemoryBalances(StepBegin(s, id, env, isP2P, otherChecks))
  {
    if id !in s.ledger.calls {
      OtherMoves(s.ledger.calls, id, Admitted(env, isP2P));
      OtherMoves(s.ledger.calls, id, Refused(env));
    }
  }

  lemma LockBalances(s: Node, id: CallId)
    requires MemoryBalances(s)
    ensures MemoryBalances(StepLock(s, id))
  {
    var calls := s.ledger.calls;
    if id in calls && calls[id].Admitted? {
      var env := calls[id].env;
      if env.hash in s.pool.envelopes {
        OtherMoves(calls, id, Finished(env, calls[id].isP2P, false));
      } else {
        InsertGrows(s.pool, env);
        UnaccountedGrows(calls, id, env, calls[id].isP2P);
      }
    }
  }

  lemma UnaccountedGrows(calls: map<CallId, Call>, id: CallId, env: Envelope, isP2P: bool)
    requires id in calls ==> !calls[id].Unpaid()
    ensures Sum(Unaccounted(calls[id := Inserted(env, isP2P)])) == Sum(Unaccounted(calls)) + env.Size()
  {
    SumInsert(Unaccounted(calls), id, env.Size());
    assert Unaccounted(calls[id := Inserted(env, isP2P)]) == Unaccounted(calls)[id := env.Size()];
  }

  lemma CountBalances(s: Node, id: CallId)
    requires MemoryBalances(s)
    ensures MemoryBalances(StepCount(s, id))
  {
    var calls := s.ledger.calls;
    if id in calls && calls[id].Inserted? {
      assert Unaccounted(calls[id := Counted(calls[id].env, calls[id].isP2P)]) == Unaccounted(calls);
    }
  }

  lemma AccountBalances(s: Node, id: CallId)
    requires MemoryBalances(s)
    ensures MemoryBalances(StepAccount(s, id))
  {
    var calls := s.ledger.calls;
    if id in calls && calls[id].Counted? {
      UnaccountedShrinks(calls, id, Accounted(calls[id].env, calls[id].isP2P));
    }
  }

  lemma UnaccountedShrinks(calls: map<CallId, Call>, id: CallId, c: Call)
    requires id in calls && calls[id].Unpaid() && !c.Unpaid()
    ensures Sum(Unaccounted(calls)) == Sum(Unaccounted(calls[id := c])) + calls[id].env.Size()
  {
    SumRemove(Unaccounted(calls), id);
    assert Unaccounted(calls[id := c]) == Unaccounted(calls) - {id};
  }

  lemma PostBalances(s: Node, id: CallId)
    requires MemoryBalances(s)
    ensures MemoryBalances(StepPost(s, id))
  {
    var calls := s.ledger.calls;
    if id in calls && calls[id].Accounted? {
      OtherMoves(calls, id, Finished(calls[id].env, calls[id].isP2P, true));
    }
  }

  lemma CycleBalances(s: Node, order: seq<Hash>)
    requires Sound(s) && MemoryBalances(s)
    ensures MemoryBalances(StepCycle(s, order))
  {
    ExpireKeepsIndex(s.pool, s.clock);
    ExpireBalances(s.pool, s.clock);
  }

  // ---- Insertions, expiry events and counters ----

  /** Every insertion is either still pooled or was announced as expired, digest by digest. */
  ghost predicate InsertionsAccounted(s: Node) {
    && multiset(s.insertions) == multiset(s.expiredEvents) + multiset(s.pool.envelopes.Keys)
    && s.pool.stats.totalMessagesCleared + s.pool.stats.messagesCleared == |s.expiredEvents|
  }

  lemma StepInsertions(s: Node, a: Action)
    requires Sound(s) && InsertionsAccounted(s)
    ensures InsertionsAccounted(Step(s, a))
  {
    match a
    case Lock(id) => LockInsertions(s, id);
    case Cycle(order) => CycleInsertions(s, order);
    case _ =>
  }

  lemma LockInsertions(s: Node, id: CallId)
    requires InsertionsAccounted(s)
    ensures InsertionsAccounted(StepLock(s, id))
  {
    if id in s.ledger.calls && s.ledger.calls[id].Admitted? && s.ledger.calls[id].env.hash !in s.pool.envelopes {
      OneMoreKey(s.pool.envelopes, s.ledger.calls[id].env.hash, s.ledger.calls[id].env);
    }
  }

  lemma OneMoreKey(m: map<Hash, Envelope>, h: Hash, e: Envelope)
    requires h !in m
    ensures multiset(m[h := e].Keys) == multiset(m.Keys) + multiset{h}
  {
    assert m[h := e].Keys == m.Keys + {h};
  }

  lemma CycleInsertions(s: Node, order: seq<Hash>)
    requires Sound(s) && InsertionsAccounted(s)
    ensures InsertionsAccounted(StepCycle(s, order))
    ensures Enumerates(order, Stale(s.pool, s.clock)) ==> StepCycle(s, order).pool.stats.messagesCleared == |order|
  {
    var stale := Stale(s.pool, s.clock);
    StaleExact(s.pool, s.clock);
    if Enumerates(order, stale) {
      EnumerationLength(order, stale);
      KeysSplit(s.pool.envelopes, stale);
    }
  }

  lemma KeysSplit(m: map<Hash, Envelope>, gone: set<Hash>)
    requires gone <= m.Keys
    ensures multiset(m.Keys) == multiset(gone) + multiset((m - gone).Keys)
  {
    assert (m - gone).Keys == m.Keys - gone;
  }

  // ---- Calls and postings ----

  predicate IsInserting(calls: map<CallId, Call>, id: CallId) {
    id in calls && calls[id].Inserting()
  }

  predicate HasPosted(calls: map<CallId, Call>, id: CallId, isP2P: bool) {
    id in calls && calls[id].Finished? && calls[id].miss && calls[id].isP2P == isP2P
  }

  /** Calls that inserted and have not counted their miss. */
  ghost function Uncounted(calls: map<CallId, Call>): set<CallId> {
    set id | id in calls && calls[id].Inserted?
  }

  /** Calls whose miss was counted. */
  ghost function Missed(calls: map<CallId, Call>): set<CallId> {
    set id | id in calls && calls[id].Inserting() && !calls[id].Inserted?
  }

  /** A history lists a call once if the condition holds of it, and otherwise not at all. */
  ghost predicate Once(history: seq<CallId>, id: CallId, condition: bool) {
    multiset(history)[id] == if condition then 1 else 0
  }

  /** The histories list exactly the calls that inserted and the calls that posted, once each. */
  ghost predicate Exact(l: Ledger) {
    && (forall id :: Once(l.inserters, id, IsInserting(l.calls, id)))
    && (forall id :: Once(l.messageQueue, id, HasPosted(l.calls, id, false)))
    && (forall id :: Once(l.p2pQueue, id, HasPosted(l.calls, id, true)))
  }

  /** The order in which a call moves on. */
  ghost predicate MayFollow(calls: map<CallId, Call>, id: CallId, c: Call) {
    match c
    case Counted(_, _) => id in calls && calls[id].Inserted?
    case Accounted(_, _) => id in calls && calls[id].Counted?
    case Finished(_, isP2P, true) => id in calls && calls[id].Accounted? && calls[id].isP2P == isP2P
    case _ => id in calls ==> !calls[id].Inserting()
  }

  lemma AdvanceInserters(l: Ledger, id: CallId, c: Call, x: CallId)
    requires MayFollow(l.calls, id, c) && Once(l.inserters, x, IsInserting(l.calls, x))
    ensures Once(Advance(l, id, c).inserters, x, IsInserting(Advance(l, id, c).calls, x))
  {
    CountAppend(l.inserters, id, x);
  }

  lemma AdvanceQueues(l: Ledger, id: CallId, c: Call, x: CallId)
    requires MayFollow(l.calls, id, c)
    requires Once(l.messageQueue, x, HasPosted(l.calls, x, false)) && Once(l.p2pQueue, x, HasPosted(l.calls, x, true))
    ensures Once(Advance(l, id, c).messageQueue, x, HasPosted(Advance(l, id, c).calls, x, false))
    ensures Once(Advance(l, id, c).p2pQueue, x, HasPosted(Advance(l, id, c).calls, x, true))
  {
    CountAppend(l.messageQueue, id, x);
    CountAppend(l.p2pQueue, id, x);
  }

  lemma AdvanceExact(l: Ledger, id: CallId, c: Call)
    requires Exact(l) && MayFollow(l.calls, id, c)
    ensures Exact(Advance(l, id, c))
  {
    forall x { AdvanceInserters(l, id, c, x); }
    forall x { AdvanceQueues(l, id, c, x); }
  }

  /** The miss counter counts the calls that got that far. */
  ghost predicate MissesCounted(l: Ledger) {
    l.misses == |Missed(l.calls)|
  }

  lemma AdvanceCounted(l: Ledger, id: CallId, c: Call)
    requires MissesCounted(l) && MayFollow(l.calls, id, c)
    ensures MissesCounted(Advance(l, id, c))
  {
    assert Missed(l.calls[id := c]) == Missed(l.calls) + if c.Counted? then {id} else {};
  }

  lemma AdvanceKeeps(l: Ledger, id: CallId, c: Call)
    requires Exact(l) && MissesCounted(l) && MayFollow(l.calls, id, c)
    ensures Exact(Advance(l, id, c)) && MissesCounted(Advance(l, id, c))
  {
    AdvanceExact(l, id, c);
    AdvanceCounted(l, id, c);
  }

  ghost predicate LedgerExact(s: Node) {
    Exact(s.ledger) && MissesCounted(s.ledger)
  }

  lemma StepLedger(s: Node, a: Action)
    requires LedgerExact(s)
    ensures LedgerExact(Step(s, a))
  {
    match a
    case Begin(id, env, isP2P, otherChecks) => BeginLedger(s, id, env, isP2P, otherChecks);
    case Lock(id) => LockLedger(s, id);
    case Count(id) => CountLedger(s, id);
    case Account(id) => AccountLedger(s, id);
    case Post(id) => PostLedger(s, id);
    case _ =>
  }

  lemma BeginLedger(s: Node, id: CallId, env: Envelope, isP2P: bool, otherChecks: bool)
    requires LedgerExact(s)
    ensures LedgerExact(StepBegin(s, id, env, isP2P, otherChecks))
  {
    if id !in s.ledger.calls {
      AdvanceKeeps(s.ledger, id, Admitted(env, isP2P));
      AdvanceKeeps(s.ledger, id, Refused(env));
    }
  }

  lemma LockLedger(s: Node, id: CallId)
    requires LedgerExact(s)
    ensures LedgerExact(StepLock(s, id))
  {
    if id in s.ledger.calls && s.ledger.calls[id].Admitted? {
      var Admitted(env, isP2P) := s.ledger.calls[id];
      AdvanceKeeps(s.ledger, id, Finished(env, isP2P, false));
      AdvanceKeeps(s.ledger, id, Inserted(env, isP2P));
    }
  }

  lemma CountLedger(s: Node, id: CallId)
    requires LedgerExact(s)
    ensures LedgerExact(StepCount(s, id))
  {
    if id in s.ledger.calls && s.ledger.calls[id].Inserted? {
      AdvanceKeeps(s.ledger, id, Counted(s.ledger.calls[id].env, s.ledger.calls[id].isP2P));
    }
  }

  lemma AccountLedger(s: Node, id: CallId)
    requires LedgerExact(s)
    ensures LedgerExact(StepAccount(s, id))
  {
    if id in s.ledger.calls && s.ledger.calls[id].Counted? {
      AdvanceKeeps(s.ledger, id, Accounted(s.ledger.calls[id].env, s.ledger.calls[id].isP2P));
    }
  }

  lemma PostLedger(s: Node, id: CallId)
    requires LedgerExact(s)
    ensures LedgerExact(StepPost(s, id))
  {
    if id in s.ledger.calls && s.ledger.calls[id].Accounted? {
      AdvanceKeeps(s.ledger, id, Finished(s.ledger.calls[id].env, s.ledger.calls[id].isP2P, true));
    }
  }

  /** The digests inserted are those of the inserting calls, in the same order. */
  ghost predicate Named(insertions: seq<Hash>, inserters: seq<CallId>, calls: map<CallId, Call>) {
    && |insertions| == |inserters|
    && forall i | 0 <= i < |insertions| :: inserters[i] in calls && insertions[i] == calls[inserters[i]].env.hash
  }

  ghost predicate InsertionsNamed(s: Node) {
    Named(s.insertions, s.ledger.inserters, s.ledger.calls)
  }

  /** Moving a call on does not change its envelope. */
  lemma NamedKept(insertions: seq<Hash>, inserters: seq<CallId>, calls: map<CallId, Call>, id: CallId, c: Call)
    requires Named(insertions, inserters, calls) && (id in calls ==> calls[id].env == c.env)
    ensures Named(insertions, inserters, calls[id := c])
    ensures Named(insertions + [c.env.hash], inserters + [id], calls[id := c])
  {
  }

  lemma StepNames(s: Node, a: Action)
    requires InsertionsNamed(s)
    ensures InsertionsNamed(Step(s, a))
  {
    match a
    case Begin(id, env, isP2P, otherChecks) =>
      if id !in s.ledger.calls {
        NamedKept(s.insertions, s.ledger.inserters, s.ledger.calls, id, Admitted(env, isP2P));
        NamedKept(s.insertions, s.ledger.inserters, s.ledger.calls, id, Refused(env));
      }
    case Lock(id) => CallNames(s, id);
    case Count(id) => CallNames(s, id);
    case Account(id) => CallNames(s, id);
    case Post(id) => CallNames(s, id);
    case _ =>
  }

  lemma CallNames(s: Node, id: CallId)
    requires InsertionsNamed(s)
    ensures InsertionsNamed(StepLock(s, id)) && InsertionsNamed(StepCount(s, id))
    ensures InsertionsNamed(StepAccount(s, id)) && InsertionsNamed(StepPost(s, id))
  {
    if id in s.ledger.calls && !s.ledger.calls[id].Refused? {
      var (env, isP2P) := (s.ledger.calls[id].env, s.ledger.calls[id].isP2P);
      NamedKept(s.insertions, s.ledger.inserters, s.ledger.calls, id, Inserted(env, isP2P));
      NamedKept(s.insertions, s.ledger.inserters, s.ledger.calls, id, Counted(env, isP2P));
      NamedKept(s.insertions, s.ledger.inserters, s.ledger.calls, id, Accounted(env, isP2P));
      NamedKept(s.insertions, s.ledger.inserters, s.ledger.calls, id, Finished(env, isP2P, false));
      NamedKept(s.insertions, s.ledger.inserters, s.ledger.calls, id, Finished(env, isP2P, true));
    }
  }

  // ---- Every run ----

  ghost predicate Invariant(s: Node) {
    Sound(s) && MemoryBalances(s) && InsertionsAccounted(s) && LedgerExact(s) && InsertionsNamed(s)
  }

  lemma StartInvariant()
    ensures Invariant(START)
  {
    assert Balances(EMPTY, map[]) by {
      assert Unaccounted(map[]) == map[] && Sizes(map[]) == map[];
    }
    assert Missed(map[]) == {};
  }

  lemma {:induction false} RunInvariant(acts: seq<Action>)
    ensures Invariant(Run(acts))
  {
    if acts == [] {
      StartInvariant();
    } else {
      var s := Run(acts[..|acts| - 1]);
      var a := acts[|acts| - 1];
      RunInvariant(acts[..|acts| - 1]);
      StepSound(s, a);
      StepBalances(s, a);
      StepInsertions(s, a);
      StepLedger(s, a);
      StepNames(s, a);
    }
  }

  lemma RunSound(acts: seq<Action>)
    ensures Sound(Run(acts))
  {
    RunInvariant(acts);
  }

  /** In every run: no expiry cycle meets a missing envelope; each pooled digest is in
      exactly one bucket, that of its expiry; and the memory count is short of the size of
      the pool by exactly the insertions not yet accounted. */
  lemma PoolAndIndexAgree(acts: seq<Action>)
    ensures var s := Run(acts);
            && !s.panicked
            && (forall h, x | x in s.pool.expirations ::
                  h in s.pool.expirations[x] <==> h in s.pool.envelopes && s.pool.envelopes[h].expiry == x)
            && (forall h | h in s.pool.envelopes :: s.pool.envelopes[h].expiry in s.pool.expirations)
            && s.pool.stats.memoryUsed + Sum(Unaccounted(s.ledger.calls)) == TotalSize(s.pool)
  {
    RunInvariant(acts);
  }

  /** In every run the envelopes cleared and the envelopes pooled add up to the cache misses,
      counted or about to be counted. */
  lemma CountersConserved(acts: seq<Action>)
    ensures var s := Run(acts);
            s.pool.stats.totalMessagesCleared + s.pool.stats.messagesCleared + |s.pool.envelopes|
              == s.ledger.misses + |Uncounted(s.ledger.calls)|
  {
    RunInvariant(acts);
    var s := Run(acts);
    assert |multiset(s.insertions)| == |s.insertions| && |multiset(s.expiredEvents)| == |s.expiredEvents|;
    assert |multiset(s.pool.envelopes.Keys)| == |s.pool.envelopes.Keys|;
    InsertersCounted(s.ledger);
  }

  lemma InsertersCounted(l: Ledger)
    requires Exact(l) && MissesCounted(l)
    ensures |l.inserters| == l.misses + |Uncounted(l.calls)|
  {
    var pending := Uncounted(l.calls);
    forall id ensures multiset(l.inserters)[id] == multiset(Missed(l.calls) + pending)[id] {
      assert Once(l.inserters, id, IsInserting(l.calls, id));
    }
    assert Enumerates(l.inserters, Missed(l.calls) + pending);
    EnumerationLength(l.inserters, Missed(l.calls) + pending);
  }

  /** In every run, of all calls with the same digest only those that inserted post, each once and
      to one queue; and a digest is inserted again only after it was announced as expired. */
  lemma OnePostPerInsertion(acts: seq<Action>, id: CallId, h: Hash)
    ensures var s := Run(acts);
            && Once(s.ledger.messageQueue, id, HasPosted(s.ledger.calls, id, false))
            && Once(s.ledger.p2pQueue, id, HasPosted(s.ledger.calls, id, true))
            && Once(s.ledger.inserters, id, IsInserting(s.ledger.calls, id))
            && InsertionsNamed(s)
            && multiset(s.insertions)[h] == multiset(s.expiredEvents)[h] + (if h in s.pool.envelopes then 1 else 0)
  {
    RunInvariant(acts);
  }

  lemma RunAppend(acts: seq<Action>, a: Action)
    ensures Run(acts + [a]) == Step(Run(acts), a)
  {
    assert (acts + [a])[..|acts|] == acts;
  }

  // ---- Lifetime ----

  /** A call with this envelope passed its checks at step `b`. */
  ghost predicate Passed(acts: seq<Action>, b: nat, env: Envelope)
    requires b < |acts|
  {
    && acts[b].Begin? && acts[b].env == env && acts[b].otherChecks
    && Gate.TimeGate(Run(acts[..b]).clock, env.expiry, env.ttl).Continue?
  }

  ghost predicate HasPassed(acts: seq<Action>, env: Envelope) {
    exists b | 0 <= b < |acts| :: Passed(acts, b, env)
  }

  lemma StillPassed(acts: seq<Action>, a: Action, env: Envelope)
    requires HasPassed(acts, env)
    ensures HasPassed(acts + [a], env)
  {
    var b :| 0 <= b < |acts| && Passed(acts, b, env);
    assert (acts + [a])[..b] == acts[..b];
    assert Passed(acts + [a], b, env);
  }

  /** Whatever is pooled, or waits for the lock, passed its checks. */
  ghost predicate Originated(acts: seq<Action>, s: Node) {
    && (forall id | id in s.ledger.calls && s.ledger.calls[id].Admitted? :: HasPassed(acts, s.ledger.calls[id].env))
    && (forall h | h in s.pool.envelopes :: HasPassed(acts, s.pool.envelopes[h]))
  }

  lemma OriginStep(acts: seq<Action>, a: Action)
    requires Originated(acts, Run(acts))
    ensures Originated(acts + [a], Run(acts + [a]))
  {
    var (s, t, all) := (Run(acts), Run(acts + [a]), acts + [a]);
    RunAppend(acts, a);
    forall env | HasPassed(acts, env) ensures HasPassed(all, env) { StillPassed(acts, a, env); }
    forall id | id in t.ledger.calls && t.ledger.calls[id].Admitted? ensures HasPassed(all, t.ledger.calls[id].env) {
      if !(id in s.ledger.calls && s.ledger.calls[id] == t.ledger.calls[id]) { JustPassed(acts, a, id); }
    }
    PoolOrigin(s, a);
  }

  lemma JustPassed(acts: seq<Action>, a: Action, id: CallId)
    requires var t := Step(Run(acts), a);
             && id in t.ledger.calls && t.ledger.calls[id].Admitted?
             && !(id in Run(acts).ledger.calls && Run(acts).ledger.calls[id] == t.ledger.calls[id])
    ensures HasPassed(acts + [a], Step(Run(acts), a).ledger.calls[id].env)
  {
    NewlyAdmitted(Run(acts), a, id);
    assert (acts + [a])[..|acts|] == acts;
    assert Passed(acts + [a], |acts|, a.env);
  }

  lemma NewlyAdmitted(s: Node, a: Action, id: CallId)
    requires var t := Step(s, a);
             && id in t.ledger.calls && t.ledger.calls[id].Admitted?
             && !(id in s.ledger.calls && s.ledger.calls[id] == t.ledger.calls[id])
    ensures a.Begin? && a.otherChecks && Gate.TimeGate(s.clock, a.env.expiry, a.env.ttl).Continue?
    ensures Step(s, a).ledger.calls[id].env == a.env
  {
  }

  lemma PoolOrigin(s: Node, a: Action)
    ensures var t := Step(s, a);
            forall h | h in t.pool.envelopes ::
              || (h in s.pool.envelopes && t.pool.envelopes[h] == s.pool.envelopes[h])
              || (a.Lock? && a.id in s.ledger.calls && s.ledger.calls[a.id].Admitted?
                  && t.pool.envelopes[h] == s.ledger.calls[a.id].env)
  {
  }

  lemma {:induction false} RunOriginated(acts: seq<Action>)
    ensures Originated(acts, Run(acts))
    decreases |acts|
  {
    if acts != [] {
      SplitLast(acts);
      RunOriginated(acts[..|acts| - 1]);
      OriginStep(acts[..|acts| - 1], acts[|acts| - 1]);
    }
  }

  /** A cycle removed and announced exactly the envelopes past their expiry, and counted them and their bytes. */
  ghost predicate Cleaned(s: Node, t: Node, order: seq<Hash>) {
    && t.clock == s.clock && t.ledger == s.ledger
    && t.pool.envelopes == (map h | h in s.pool.envelopes && s.pool.envelopes[h].expiry >= s.clock :: s.pool.envelopes[h])
    && t.expiredEvents == s.expiredEvents + order
    && t.pool.stats.messagesCleared == |order| && t.pool.stats.cycles == s.pool.stats.cycles + 1
    && t.pool.stats.memoryCleared == TotalSize(s.pool) - TotalSize(t.pool)
  }

  lemma CycleClears(s: Node, order: seq<Hash>, t: Node)
    requires Invariant(s) && Enumerates(order, Stale(s.pool, s.clock)) && t == Step(s, Cycle(order))
    ensures Cleaned(s, t, order)
  {
    ExpireKeepsIndex(s.pool, s.clock);
    ExpireBalances(s.pool, s.clock);
    CycleInsertions(s, order);
  }

  /** In every run, an expiry cycle removes exactly what is past its expiry; and what it leaves passed the checks
      of some call no longer ago than its lifetime and ten seconds. */
  lemma GoneAfterLifetime(acts: seq<Action>, order: seq<Hash>)
    requires Enumerates(order, Stale(Run(acts).pool, Run(acts).clock))
    ensures Cleaned(Run(acts), Run(acts + [Cycle(order)]), order)
    ensures forall h | h in Run(acts + [Cycle(order)]).pool.envelopes ::
              var env := Run(acts + [Cycle(order)]).pool.envelopes[h];
              exists b | 0 <= b < |acts| :: Passed(acts, b, env) && Run(acts).clock <= Run(acts[..b]).clock + 10 + env.ttl
  {
    RunAppend(acts, Cycle(order));
    RunInvariant(acts);
    CycleClears(Run(acts), order, Run(acts + [Cycle(order)]));
    RunOriginated(acts);
    forall h | h in Run(acts).pool.envelopes && Run(acts).pool.envelopes[h].expiry >= Run(acts).clock
      ensures exists b | 0 <= b < |acts| :: Passed(acts, b, Run(acts).pool.envelopes[h])
                && Run(acts).clock <= Run(acts[..b]).clock + 10 + Run(acts).pool.envelopes[h].ttl
    {
      PassedRecently(acts, Run(acts).pool.envelopes[h]);
    }
  }

  lemma PassedRecently(acts: seq<Action>, env: Envelope)
    requires HasPassed(acts, env) && Run(acts).clock <= env.expiry
    ensures exists b | 0 <= b < |acts| :: Passed(acts, b, env) && Run(acts).clock <= Run(acts[..b]).clock + 10 + env.ttl
  {
    var b :| 0 <= b < |acts| && Passed(acts, b, env);
    Gate.AdmittedLifetime(Run(acts[..b]).clock, env.expiry, env.ttl);
  }

  // ---- Inserted once ----

  /** The action inserts the envelope of a call into the pool. */
  predicate Inserts(s: Node, a: Action, h: Hash) {
    && a.Lock? && a.id in s.ledger.calls && s.ledger.calls[a.id].Admitted?
    && s.ledger.calls[a.id].env.hash == h && h !in s.pool.envelopes
  }

  /** What keeps a digest from being inserted again: the clock does not go back, the digest stands for one
      expiry, and no call that takes the lock after the envelope expired inserts it. */
  ghost predicate Prompt(s: Node, a: Action, h: Hash, expiry: Uint32) {
    && (a.Tick? ==> s.clock <= a.clock)
    && (a.Begin? && a.env.hash == h ==> a.env.expiry == expiry)
    && (Inserts(s, a, h) ==> s.clock <= expiry)
  }

  ghost predicate PromptRun(acts: seq<Action>, h: Hash, expiry: Uint32) {
    forall k | 0 <= k < |acts| :: Prompt(Run(acts[..k]), acts[k], h, expiry)
  }

  /** Every call with the digest has the same expiry. */
  ghost predicate OneExpiry(calls: map<CallId, Call>, h: Hash, expiry: Uint32) {
    forall id | id in calls && calls[id].env.hash == h :: calls[id].env.expiry == expiry
  }

  /** Inserted at most once; and once inserted, pooled or past its expiry. */
  ghost predicate GoneForGood(s: Node, h: Hash, expiry: Uint32) {
    && OneExpiry(s.ledger.calls, h, expiry)
    && (h in s.pool.envelopes ==> s.pool.envelopes[h].expiry == expiry)
    && (multiset(s.insertions)[h] > 0 ==> h in s.pool.envelopes || expiry < s.clock)
    && multiset(s.insertions)[h] <= 1
  }

  lemma PromptStep(s: Node, a: Action, h: Hash, expiry: Uint32)
    requires Sound(s) && GoneForGood(s, h, expiry) && Prompt(s, a, h, expiry)
    ensures GoneForGood(Step(s, a), h, expiry)
  {
    match a
    case Lock(id) => PromptLock(s, id, h, expiry);
    case Cycle(order) => ExpireKeepsIndex(s.pool, s.clock);
    case _ =>
  }

  lemma PromptLock(s: Node, id: CallId, h: Hash, expiry: Uint32)
    requires GoneForGood(s, h, expiry) && Prompt(s, Lock(id), h, expiry)
    ensures GoneForGood(StepLock(s, id), h, expiry)
  {
    if id in s.ledger.calls && s.ledger.calls[id].Admitted? {
      var env := s.ledger.calls[id].env;
      OneExpiryKept(s.ledger.calls, id, Inserted(env, s.ledger.calls[id].isP2P), h, expiry);
      OneExpiryKept(s.ledger.calls, id, Finished(env, s.ledger.calls[id].isP2P, false), h, expiry);
      CountAppend(s.insertions, env.hash, h);
      assert env.hash == h && h !in s.pool.envelopes ==> Inserts(s, Lock(id), h);
    }
  }

  lemma OneExpiryKept(calls: map<CallId, Call>, id: CallId, c: Call, h: Hash, expiry: Uint32)
    requires OneExpiry(calls, h, expiry) && (c.env.hash == h ==> c.env.expiry == expiry)
    ensures OneExpiry(calls[id := c], h, expiry)
  {
  }

  /** In every such run, whatever falls between the steps of the calls and whatever other digests do,
      the digest is inserted at most once. */
  lemma {:induction false} InsertedOnce(acts: seq<Action>, h: Hash, expiry: Uint32)
    requires PromptRun(acts, h, expiry)
    ensures multiset(Run(acts).insertions)[h] <= 1 && GoneForGood(Run(acts), h, expiry)
    decreases |acts|
  {
    if acts != [] {
      var n := |acts| - 1;
      assert forall k | 0 <= k < n :: acts[..n][..k] == acts[..k] && acts[..n][k] == acts[k];
      InsertedOnce(acts[..n], h, expiry);
      RunSound(acts[..n]);
      PromptStep(Run(acts[..n]), acts[n], h, expiry);
    }
  }

  /** Every lock taken for the digest is taken right after the checks of the same call. */
  ghost predicate Atomic(acts: seq<Action>, h: Hash) {
    forall k | 0 <= k < |acts| && Inserts(Run(acts[..k]), acts[k], h) ::
      k > 0 && Begins(Run(acts[..k - 1]), acts[k - 1], acts[k].id)
  }

  predicate Begins(s: Node, a: Action, id: CallId) {
    a.Begin? && a.id == id && id !in s.ledger.calls
  }

  lemma JustChecked(s: Node, a: Action, id: CallId, h: Hash)
    requires Begins(s, a, id) && Inserts(Step(s, a), Lock(id), h)
    ensures h == a.env.hash && Step(s, a).clock <= a.env.expiry
  {
  }

  /** Calls that insert without interruption are prompt, as the checks refuse an expired envelope. */
  lemma AtomicIsPrompt(acts: seq<Action>, h: Hash, expiry: Uint32)
    requires Atomic(acts, h)
    requires forall k | 0 <= k < |acts| ::
      && (acts[k].Tick? ==> Run(acts[..k]).clock <= acts[k].clock)
      && (acts[k].Begin? && acts[k].env.hash == h ==> acts[k].env.expiry == expiry)
    ensures PromptRun(acts, h, expiry)
  {
    forall k | 0 <= k < |acts| && Inserts(Run(acts[..k]), acts[k], h)
      ensures Run(acts[..k]).clock <= expiry
    {
      RunSplit(acts, k);
      JustChecked(Run(acts[..k - 1]), acts[k - 1], acts[k].id, h);
    }
  }

  lemma RunSplit(acts: seq<Action>, k: nat)
    requires 0 < k <= |acts|
    ensures Run(acts[..k]) == Step(Run(acts[..k - 1]), acts[k - 1])
  {
    assert acts[..k][..k - 1] == acts[..k - 1];
  }
}
