/** What becomes of one call of `add` in every run, told by the actions of the run: its begin, the lock, the
    counter, the statistics and the post, with anything between them. */
module Calls {
  import opened Types
  import opened Interleaving
  import Gate
  import Pool
  import Work

  /** The moves of a call after its begin. */
  function Move(i: nat, id: CallId): Action {
    if i <= 1 then Lock(id) else if i == 2 then Count(id) else if i == 3 then Account(id) else Post(id)
  }

  /** Step `b` is the first that begins a call with this identifier. */
  ghost predicate Opening(acts: seq<Action>, b: nat, id: CallId) {
    b < |acts| && acts[b].Begin? && acts[b].id == id && NotBegun(acts[..b], id)
  }

  ghost predicate NotBegun(acts: seq<Action>, id: CallId) {
    forall j | 0 <= j < |acts| :: !(acts[j].Begin? && acts[j].id == id)
  }

  /** Step `k` is the first after `from` with this action. */
  ghost predicate FirstAfter(acts: seq<Action>, k: nat, from: nat, a: Action) {
    from < k < |acts| && acts[k] == a && forall j | from < j < k :: acts[j] != a
  }

  ghost predicate NoneAfter(acts: seq<Action>, from: nat, a: Action) {
    forall j | from < j < |acts| :: acts[j] != a
  }

  /** The steps at which a call began, passed its checks, missed the pool, and moved on, each the first possible. */
  ghost predicate Trace(acts: seq<Action>, id: CallId, t: seq<nat>) {
    && 1 <= |t| <= 5
    && Opening(acts, t[0], id) && Passed(acts, t[0], acts[t[0]].env)
    && (forall i | 1 <= i < |t| :: FirstAfter(acts, t[i], t[i - 1], Move(i, id)))
    && (|t| >= 2 ==> acts[t[0]].env.hash !in Run(acts[..t[1]]).pool.envelopes)
  }

  /** The call has not moved on since. */
  ghost predicate Rests(acts: seq<Action>, id: CallId, t: seq<nat>)
    requires Trace(acts, id, t)
  {
    |t| < 5 ==> NoneAfter(acts, t[|t| - 1], Move(|t|, id))
  }

  /** Where a call stands after `n` steps of its own. */
  function Stage(env: Envelope, isP2P: bool, n: nat): Call {
    if n <= 1 then Admitted(env, isP2P)
    else if n == 2 then Inserted(env, isP2P)
    else if n == 3 then Counted(env, isP2P)
    else if n == 4 then Accounted(env, isP2P)
    else Finished(env, isP2P, true)
  }

  // ---- Single steps ----

  lemma OtherStep(s: Node, a: Action, id: CallId, env: Envelope, isP2P: bool, n: nat)
    requires 1 <= n <= 5 && id in s.ledger.calls && s.ledger.calls[id] == Stage(env, isP2P, n)
    requires n == 5 || a != Move(n, id)
    ensures id in Step(s, a).ledger.calls && Step(s, a).ledger.calls[id] == Stage(env, isP2P, n)
  {
  }

  lemma OwnStep(s: Node, id: CallId, env: Envelope, isP2P: bool, n: nat)
    requires 1 <= n < 5 && id in s.ledger.calls && s.ledger.calls[id] == Stage(env, isP2P, n)
    requires n == 1 ==> env.hash !in s.pool.envelopes
    ensures var t := Step(s, Move(n, id));
            id in t.ledger.calls && t.ledger.calls[id] == Stage(env, isP2P, n + 1)
  {
  }

  lemma {:induction false} UnknownCall(acts: seq<Action>, id: CallId)
    ensures NotBegun(acts, id) <==> id !in Run(acts).ledger.calls
    decreases |acts|
  {
    if acts != [] {
      var n := |acts| - 1;
      UnknownCall(acts[..n], id);
      assert NotBegun(acts, id) <==> NotBegun(acts[..n], id) && !(acts[n].Begin? && acts[n].id == id);
      CallsGrow(Run(acts[..n]), acts[n], id);
    }
  }

  lemma CallsGrow(s: Node, a: Action, id: CallId)
    ensures id in Step(s, a).ledger.calls <==> id in s.ledger.calls || (a.Begin? && a.id == id)
  {
  }

  lemma BeginStep(s: Node, a: Action)
    requires a.Begin? && a.id !in s.ledger.calls
    ensures Step(s, a).ledger.calls[a.id] ==
            if a.otherChecks && Gate.TimeGate(s.clock, a.env.expiry, a.env.ttl).Continue?
            then Admitted(a.env, a.isP2P) else Refused(a.env)
  {
  }

  // ---- Traces and states ----

  lemma ShorterRun(acts: seq<Action>, id: CallId, t: seq<nat>, n: nat)
    requires Trace(acts, id, t) && n <= |acts| && t[|t| - 1] < n
    ensures Trace(acts[..n], id, t)
  {
    TraceOrdered(acts, id, t);
    var rest := acts[..n];
    assert forall k | 0 <= k <= n :: rest[..k] == acts[..k];
    forall i | 1 <= i < |t| ensures FirstAfter(rest, t[i], t[i - 1], Move(i, id)) {
      assert FirstAfter(acts, t[i], t[i - 1], Move(i, id));
    }
  }

  lemma LongerRun(acts: seq<Action>, a: Action, id: CallId, t: seq<nat>)
    requires Trace(acts, id, t)
    ensures Trace(acts + [a], id, t)
  {
    TraceOrdered(acts, id, t);
    var all := acts + [a];
    assert forall k | 0 <= k <= |acts| :: all[..k] == acts[..k];
    forall i | 1 <= i < |t| ensures FirstAfter(all, t[i], t[i - 1], Move(i, id)) {
      assert FirstAfter(acts, t[i], t[i - 1], Move(i, id));
    }
  }

  lemma {:induction false} TraceOrdered(acts: seq<Action>, id: CallId, t: seq<nat>)
    requires Trace(acts, id, t)
    ensures forall i | 0 <= i < |t| :: t[0] <= t[i] <= t[|t| - 1] < |acts|
  {
    assert |t| > 1 ==> FirstAfter(acts, t[1], t[0], Move(1, id));
    assert |t| > 2 ==> FirstAfter(acts, t[2], t[1], Move(2, id));
    assert |t| > 3 ==> FirstAfter(acts, t[3], t[2], Move(3, id));
    assert |t| > 4 ==> FirstAfter(acts, t[4], t[3], Move(4, id));
  }

  /** A shorter trace of the same call rests until its next step. */
  lemma TracePrefix(acts: seq<Action>, id: CallId, t: seq<nat>, m: nat)
    requires Trace(acts, id, t) && 1 <= m < |t| && t[m] <= |acts|
    ensures Trace(acts[..t[m]], id, t[..m]) && Rests(acts[..t[m]], id, t[..m])
  {
    var u := t[..m];
    assert FirstAfter(acts, t[m], t[m - 1], Move(m, id));
    forall i | 1 <= i < |u| ensures FirstAfter(acts, u[i], u[i - 1], Move(i, id)) {
      assert FirstAfter(acts, t[i], t[i - 1], Move(i, id));
    }
    assert Trace(acts, id, u);
    ShorterRun(acts, id, u, t[m]);
  }

  /** A call stands where its trace says. */
  lemma {:induction false} TraceStage(acts: seq<Action>, id: CallId, t: seq<nat>)
    requires Trace(acts, id, t) && Rests(acts, id, t)
    ensures var a := acts[t[0]];
            id in Run(acts).ledger.calls && Run(acts).ledger.calls[id] == Stage(a.env, a.isP2P, |t|)
    decreases |acts|, 2
  {
    var n := |acts| - 1;
    var (rest, a) := (acts[..n], acts[t[0]]);
    if t[|t| - 1] < n {
      ShorterRun(acts, id, t, n);
      TraceStage(rest, id, t);
      OtherStep(Run(rest), acts[n], id, a.env, a.isP2P, |t|);
    } else {
      TraceOrdered(acts, id, t);
      LastMove(acts, id, t);
    }
  }

  lemma LastMove(acts: seq<Action>, id: CallId, t: seq<nat>)
    requires Trace(acts, id, t) && t[|t| - 1] == |acts| - 1
    ensures var a := acts[t[0]];
            id in Run(acts).ledger.calls && Run(acts).ledger.calls[id] == Stage(a.env, a.isP2P, |t|)
    decreases |acts|, 1
  {
    if |t| == 1 {
      FirstMove(acts, id, t);
    } else {
      NextMove(acts, id, t);
    }
  }

  lemma FirstMove(acts: seq<Action>, id: CallId, t: seq<nat>)
    requires Trace(acts, id, t) && t[0] == |acts| - 1 && |t| == 1
    ensures var a := acts[t[0]];
            id in Run(acts).ledger.calls && Run(acts).ledger.calls[id] == Stage(a.env, a.isP2P, 1)
  {
    var n := |acts| - 1;
    UnknownCall(acts[..n], id);
    BeginStep(Run(acts[..n]), acts[n]);
  }

  lemma NextMove(acts: seq<Action>, id: CallId, t: seq<nat>)
    requires Trace(acts, id, t) && t[|t| - 1] == |acts| - 1 && |t| >= 2
    ensures var a := acts[t[0]];
            id in Run(acts).ledger.calls && Run(acts).ledger.calls[id] == Stage(a.env, a.isP2P, |t|)
    decreases |acts|, 0
  {
    var (m, rest, a) := (|t| - 1, acts[..|acts| - 1], acts[t[0]]);
    assert FirstAfter(acts, t[m], t[m - 1], Move(m, id));
    TracePrefix(acts, id, t, m);
    TraceStage(rest, id, t[..m]);
    OwnStep(Run(rest), id, a.env, a.isP2P, m);
  }

  /** Every call that is neither refused nor a hit has a trace. */
  lemma {:induction false} StageTrace(acts: seq<Action>, id: CallId) returns (t: seq<nat>)
    requires id in Run(acts).ledger.calls
    requires Run(acts).ledger.calls[id].Admitted? || Run(acts).ledger.calls[id].Inserting()
    ensures Trace(acts, id, t) && Rests(acts, id, t)
    ensures Run(acts).ledger.calls[id] == Stage(acts[t[0]].env, acts[t[0]].isP2P, |t|)
    decreases |acts|
  {
    var n := |acts| - 1;
    var (rest, a) := (acts[..n], acts[n]);
    var s := Run(rest);
    SplitLast(acts);
    CallsGrow(s, a, id);
    if id !in s.ledger.calls {
      t := [n];
      UnknownCall(rest, id);
      BeginStep(s, a);
    } else {
      CallMoves(s, a, id);
      t := StageTrace(rest, id);
      LongerRun(rest, a, id, t);
      TraceOrdered(rest, id, t);
      if |t| < 5 && a == Move(|t|, id) {
        t := TraceGrows(rest, id, t);
      } else {
        OtherStep(s, a, id, acts[t[0]].env, acts[t[0]].isP2P, |t|);
      }
    }
  }

  /** A call that is under way was under way before. */
  lemma CallMoves(s: Node, a: Action, id: CallId)
    requires id in s.ledger.calls
    requires var c := Step(s, a).ledger.calls[id]; c.Admitted? || c.Inserting()
    ensures s.ledger.calls[id].Admitted? || s.ledger.calls[id].Inserting()
    ensures a == Lock(id) && s.ledger.calls[id].Admitted? ==> s.ledger.calls[id].env.hash !in s.pool.envelopes
  {
  }

  lemma TraceGrows(acts: seq<Action>, id: CallId, t: seq<nat>) returns (u: seq<nat>)
    requires Trace(acts, id, t) && Rests(acts, id, t) && |t| < 5
    requires |t| == 1 ==> acts[t[0]].env.hash !in Run(acts).pool.envelopes
    requires id in Run(acts).ledger.calls && Run(acts).ledger.calls[id] == Stage(acts[t[0]].env, acts[t[0]].isP2P, |t|)
    ensures var all := acts + [Move(|t|, id)];
            && Trace(all, id, u) && Rests(all, id, u) && |u| == |t| + 1 && u[0] == t[0]
            && id in Run(all).ledger.calls && Run(all).ledger.calls[id] == Stage(acts[t[0]].env, acts[t[0]].isP2P, |u|)
  {
    var a := Move(|t|, id);
    var all := acts + [a];
    u := t + [|acts|];
    TraceOrdered(acts, id, t);
    LongerRun(acts, a, id, t);
    assert all[..|acts|] == acts;
    forall i | 1 <= i < |u| ensures FirstAfter(all, u[i], u[i - 1], Move(i, id)) {
      if i < |t| { assert FirstAfter(all, t[i], t[i - 1], Move(i, id)); }
    }
    OwnStep(Run(acts), id, acts[t[0]].env, acts[t[0]].isP2P, |t|);
  }

  // ---- What a call does ----

  function Queue(s: Node, isP2P: bool): seq<CallId> {
    if isP2P then s.ledger.p2pQueue else s.ledger.messageQueue
  }

  lemma LedgerOnce(acts: seq<Action>, id: CallId, isP2P: bool)
    ensures var l := Run(acts).ledger;
            && multiset(Queue(Run(acts), isP2P))[id] <= 1 && multiset(l.inserters)[id] <= 1
            && (id in Queue(Run(acts), isP2P) <==> HasPosted(l.calls, id, isP2P))
            && (id in l.inserters <==> IsInserting(l.calls, id))
  {
    RunInvariant(acts);
    var l := Run(acts).ledger;
    OnceMember(Queue(Run(acts), isP2P), id, HasPosted(l.calls, id, isP2P));
    OnceMember(l.inserters, id, IsInserting(l.calls, id));
  }

  lemma OnceMember(history: seq<CallId>, id: CallId, condition: bool)
    requires Once(history, id, condition)
    ensures multiset(history)[id] <= 1 && (id in history <==> condition)
  {
    assert id in history <==> id in multiset(history);
  }

  /** In every run, a call is in a queue, once, exactly if it began with that kind, passed its checks, missed the pool
      at its lock, and then counted, accounted and posted; whatever fell between. */
  lemma PostedExactly(acts: seq<Action>, id: CallId, isP2P: bool)
    ensures multiset(Queue(Run(acts), isP2P))[id] <= 1
    ensures id in Queue(Run(acts), isP2P) <==>
            exists t: seq<nat> :: |t| == 5 && Trace(acts, id, t) && acts[t[0]].isP2P == isP2P
  {
    LedgerOnce(acts, id, isP2P);
    if HasPosted(Run(acts).ledger.calls, id, isP2P) {
      var t := PostedTrace(acts, id, isP2P);
    }
    forall t: seq<nat> | |t| == 5 && Trace(acts, id, t) && acts[t[0]].isP2P == isP2P
      ensures HasPosted(Run(acts).ledger.calls, id, isP2P)
    {
      TracePosts(acts, id, t);
    }
  }

  lemma PostedTrace(acts: seq<Action>, id: CallId, isP2P: bool) returns (t: seq<nat>)
    requires HasPosted(Run(acts).ledger.calls, id, isP2P)
    ensures |t| == 5 && Trace(acts, id, t) && acts[t[0]].isP2P == isP2P
  {
    t := StageTrace(acts, id);
  }

  lemma TracePosts(acts: seq<Action>, id: CallId, t: seq<nat>)
    requires |t| == 5 && Trace(acts, id, t)
    ensures HasPosted(Run(acts).ledger.calls, id, acts[t[0]].isP2P)
  {
    TraceStage(acts, id, t);
  }

  /** And a call inserts exactly if it came as far as its lock in this way. */
  lemma InsertedExactly(acts: seq<Action>, id: CallId)
    ensures multiset(Run(acts).ledger.inserters)[id] <= 1
    ensures id in Run(acts).ledger.inserters <==> exists t: seq<nat> :: |t| >= 2 && Trace(acts, id, t)
  {
    var s := Run(acts);
    LedgerOnce(acts, id, true);
    if IsInserting(s.ledger.calls, id) {
      var t := StageTrace(acts, id);
    }
    forall t: seq<nat> | |t| >= 2 && Trace(acts, id, t) ensures IsInserting(s.ledger.calls, id) {
      TraceInserts(acts, id, t);
    }
  }

  /** Once a call has inserted, it is past its lock for good. */
  lemma {:induction false} TraceInserts(acts: seq<Action>, id: CallId, t: seq<nat>)
    requires |t| >= 2 && Trace(acts, id, t)
    ensures IsInserting(Run(acts).ledger.calls, id)
    decreases |acts|
  {
    TraceOrdered(acts, id, t);
    var n := |acts| - 1;
    if t[|t| - 1] == n {
      LastMove(acts, id, t);
      StageInserts(acts[t[0]].env, acts[t[0]].isP2P, |t|);
    } else {
      ShorterRun(acts, id, t, n);
      TraceInserts(acts[..n], id, t);
      InsertingStays(Run(acts[..n]), acts[n], id);
    }
  }

  lemma StageInserts(env: Envelope, isP2P: bool, n: nat)
    requires n >= 2
    ensures Stage(env, isP2P, n).Inserting()
  {
  }

  lemma InsertingStays(s: Node, a: Action, id: CallId)
    requires IsInserting(s.ledger.calls, id)
    ensures IsInserting(Step(s, a).ledger.calls, id)
  {
  }

  /** In every run the lock puts the envelope of the begin into the pool, then the miss counter grows by one, the memory
      by the size of the envelope, and the queue of its kind by the call; whatever falls between. */
  lemma TraceEffects(acts: seq<Action>, id: CallId, t: seq<nat>, m: nat)
    requires Trace(acts, id, t) && 1 <= m < |t|
    ensures t[m] < |acts|
    ensures Moved(Run(acts[..t[m]]), Run(acts[..t[m] + 1]), id, acts[t[0]].env, acts[t[0]].isP2P, m)
  {
    TraceBefore(acts, id, t, m);
    RunSplit(acts, t[m] + 1);
    StepEffect(Run(acts[..t[m]]), id, acts[t[0]].env, acts[t[0]].isP2P, m);
  }

  /** Where the call stands just before its m-th move. */
  lemma TraceBefore(acts: seq<Action>, id: CallId, t: seq<nat>, m: nat)
    requires Trace(acts, id, t) && 1 <= m < |t|
    ensures t[m] < |acts| && acts[t[m]] == Move(m, id)
    ensures var s := Run(acts[..t[m]]);
            && id in s.ledger.calls && s.ledger.calls[id] == Stage(acts[t[0]].env, acts[t[0]].isP2P, m)
            && (m == 1 ==> acts[t[0]].env.hash !in s.pool.envelopes)
  {
    TraceOrdered(acts, id, t);
    assert FirstAfter(acts, t[m], t[m - 1], Move(m, id));
    TracePrefix(acts, id, t, m);
    TraceStage(acts[..t[m]], id, t[..m]);
  }

  /** The effect of the m-th move on the node. */
  ghost predicate Moved(s: Node, u: Node, id: CallId, env: Envelope, isP2P: bool, m: nat) {
    && (m == 1 ==> u.pool.envelopes == s.pool.envelopes[env.hash := env] && u.insertions == s.insertions + [env.hash])
    && (m == 2 ==> u.ledger.misses == s.ledger.misses + 1)
    && (m == 3 ==> u.pool.stats.memoryUsed == s.pool.stats.memoryUsed + env.Size())
    && (m == 4 ==> Queue(u, isP2P) == Queue(s, isP2P) + [id] && Queue(u, !isP2P) == Queue(s, !isP2P))
  }

  lemma StepEffect(s: Node, id: CallId, env: Envelope, isP2P: bool, m: nat)
    requires 1 <= m <= 4 && id in s.ledger.calls && s.ledger.calls[id] == Stage(env, isP2P, m)
    requires m == 1 ==> env.hash !in s.pool.envelopes
    ensures Moved(s, Step(s, Move(m, id)), id, env, isP2P, m)
  {
  }

  /** The checks fail, or the first lock after them finds the digest pooled. */
  ghost predicate Fruitless(acts: seq<Action>, id: CallId, b: nat)
    requires b < |acts| && acts[b].Begin?
  {
    || !Passed(acts, b, acts[b].env)
    || exists l | b < l < |acts| ::
         FirstAfter(acts, l, b, Lock(id)) && acts[b].env.hash in Run(acts[..l]).pool.envelopes
  }

  /** Such a call neither inserts nor posts. */
  lemma NothingDone(acts: seq<Action>, id: CallId, b: nat)
    requires Opening(acts, b, id) && Fruitless(acts, id, b)
    ensures id !in Run(acts).ledger.inserters && id !in Queue(Run(acts), true) && id !in Queue(Run(acts), false)
  {
    forall t: seq<nat> ensures Trace(acts, id, t) ==> |t| < 2 {
      if Trace(acts, id, t) { FruitlessTrace(acts, id, b, t); }
    }
    InsertedExactly(acts, id);
    PostedExactly(acts, id, true);
    PostedExactly(acts, id, false);
  }

  lemma FruitlessTrace(acts: seq<Action>, id: CallId, b: nat, t: seq<nat>)
    requires Opening(acts, b, id) && Fruitless(acts, id, b) && Trace(acts, id, t)
    ensures |t| < 2
  {
    SameOpening(acts, id, t[0], b);
    if |t| >= 2 {
      var l :| b < l < |acts| && FirstAfter(acts, l, b, Lock(id)) && acts[b].env.hash in Run(acts[..l]).pool.envelopes;
      SameFirst(acts, l, t[1], b, Lock(id));
      assert false;
    }
  }

  lemma SameFirst(acts: seq<Action>, k: nat, l: nat, from: nat, a: Action)
    requires FirstAfter(acts, k, from, a)
    ensures FirstAfter(acts, l, from, a) ==> k == l
  {
  }

  lemma SameOpening(acts: seq<Action>, id: CallId, a: nat, b: nat)
    requires Opening(acts, a, id) && Opening(acts, b, id)
    ensures a == b
  {
  }

  // ---- A call without interruption ----

  /** All steps of a call one after the other; `verdict` is what its checks come to. */
  ghost function WholeCall(s: Node, id: CallId, e: Envelope, isP2P: bool, verdict: Gate.Verdict): Node {
    var otherChecks := !verdict.Oversized? && !verdict.LowPoW? && !verdict.NoBloomMatch?;
    Step(Step(Step(Step(Step(s, Begin(id, e, isP2P, otherChecks)), Lock(id)), Count(id)), Account(id)), Post(id))
  }

  /** Uninterrupted, a call does to the pool what the object's `Add` does, and posts once exactly on a miss. */
  lemma WholeCallAdds(s: Node, id: CallId, e: Envelope, isP2P: bool, g: Gate.Settings, zeros: nat, stored: Work.Work)
    requires id !in s.ledger.calls
    ensures var verdict := Gate.Judge(g, s.clock, e, zeros, stored);
            var t := WholeCall(s, id, e, isP2P, verdict);
            var miss := verdict.Pass? && e.hash !in s.pool.envelopes;
            && t.pool == Pool.Added(s.pool, e, verdict)
            && Queue(t, isP2P) == Queue(s, isP2P) + (if miss then [id] else [])
            && Queue(t, !isP2P) == Queue(s, !isP2P)
            && t.ledger.misses == s.ledger.misses + if miss then 1 else 0
  {
    var verdict := Gate.Judge(g, s.clock, e, zeros, stored);
    var begin := Begin(id, e, isP2P, !verdict.Oversized? && !verdict.LowPoW? && !verdict.NoBloomMatch?);
    BeginStep(s, begin);
    if verdict.Pass? && e.hash !in s.pool.envelopes {
      MissedCall(Step(s, begin), id, e, isP2P);
    } else {
      IdleCall(Step(s, begin), id, e, isP2P);
    }
  }

  lemma MissedCall(s: Node, id: CallId, e: Envelope, isP2P: bool)
    requires id in s.ledger.calls && s.ledger.calls[id] == Admitted(e, isP2P) && e.hash !in s.pool.envelopes
    ensures var t := Step(Step(Step(Step(s, Lock(id)), Count(id)), Account(id)), Post(id));
            && t.pool == Pool.CountMemory(Pool.Insert(s.pool, e), e)
            && Queue(t, isP2P) == Queue(s, isP2P) + [id] && Queue(t, !isP2P) == Queue(s, !isP2P)
            && t.ledger.misses == s.ledger.misses + 1
  {
    var s2 := Step(s, Lock(id));
    assert s2.ledger.calls[id] == Inserted(e, isP2P);
    var s3 := Step(s2, Count(id));
    assert s3.ledger.calls[id] == Counted(e, isP2P);
    var s4 := Step(s3, Account(id));
    assert s4.ledger.calls[id] == Accounted(e, isP2P);
  }

  lemma IdleCall(s: Node, id: CallId, e: Envelope, isP2P: bool)
    requires id in s.ledger.calls
    requires s.ledger.calls[id] == Refused(e) || (s.ledger.calls[id] == Admitted(e, isP2P) && e.hash in s.pool.envelopes)
    ensures var t := Step(Step(Step(Step(s, Lock(id)), Count(id)), Account(id)), Post(id));
            && t.pool == s.pool && t.ledger.misses == s.ledger.misses
            && Queue(t, true) == Queue(s, true) && Queue(t, false) == Queue(s, false)
  {
    var s2 := Step(s, Lock(id));
    assert s2.ledger.calls[id] == Refused(e) || s2.ledger.calls[id] == Finished(e, isP2P, false);
    assert Step(s2, Count(id)) == s2 && Step(s2, Account(id)) == s2 && Step(s2, Post(id)) == s2;
  }
}
