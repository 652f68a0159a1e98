/** Broadcasting to one peer while the pool changes underneath. The peer's own loop
    either prunes its list of known digests or broadcasts; the message loop may mark
    digests as known at any time. */
module Resend {
  import opened Types
  import Gate
  import P = Peer
  import Work
  import I = Interleaving
  import Pool

  /** Where the peer's update loop stands. `at` is the step of the pool read it relies on. */
  datatype Loop =
    | Idle
    | Unmarking(hash: Hash, at: nat)                         // found a known digest missing from the pool
    | Filtering(todo: set<Hash>, bundle: seq<Hash>, at: nat) // going through a pool snapshot
    | Marking(todo: set<Hash>, at: nat)                      // bundle sent, not all marked
    | Stopped                                                // sending failed

  datatype Sending = Sending(hash: Hash, at: nat)

  /** `history[k]` holds the digests pooled after `k` steps; `sent` what was broadcast, with the snapshot's step. */
  datatype System = System(
    node: I.Node,
    known: set<Hash>,
    loop: Loop,
    sent: seq<Sending>,
    history: seq<set<Hash>>)

  datatype Action =
    | NodeStep(act: I.Action)
    | MarkReceived(hash: Hash)
    | CheckKnown(hash: Hash)
    | Unmark
    | Snapshot
    | Consider(hash: Hash, wanted: bool)   // `wanted` stands for work and topic
    | Send(ok: bool)
    | MarkSent(hash: Hash)

  const START := System(I.START, {}, Idle, [], [{}])

  ghost function NodeAfter(n: I.Node, a: Action): I.Node {
    if a.NodeStep? then I.Step(n, a.act) else n
  }

  /** The peer's part of a step, given the digests pooled before it. */
  function PeerAfter(s: System, a: Action, pooled: set<Hash>, now: nat): (set<Hash>, Loop, seq<Sending>) {
    match (a, s.loop)
    case (MarkReceived(h), _) => (s.known + {h}, s.loop, s.sent)
    case (CheckKnown(h), Idle) =>
      (s.known, if h in s.known && h !in pooled then Unmarking(h, now) else Idle, s.sent)
    case (Unmark, Unmarking(h, _)) => (s.known - {h}, Idle, s.sent)
    case (Snapshot, Idle) => (s.known, Filtering(pooled, [], now), s.sent)
    case (Consider(h, wanted), Filtering(todo, bundle, at)) =>
      if h !in todo then (s.known, s.loop, s.sent)
      else (s.known, Filtering(todo - {h}, if wanted && h !in s.known then bundle + [h] else bundle, at), s.sent)
    case (Send(ok), Filtering(todo, bundle, at)) =>
      if todo != {} then (s.known, s.loop, s.sent)
      else if bundle == [] then (s.known, Idle, s.sent)
      else if !ok then (s.known, Stopped, s.sent)
      else (s.known, Marking((set h | h in bundle), at), s.sent + Sendings(bundle, at))
    case (MarkSent(h), Marking(todo, at)) =>
      if h !in todo then (s.known, s.loop, s.sent)
      else (s.known + {h}, if todo == {h} then Idle else Marking(todo - {h}, at), s.sent)
    case _ => (s.known, s.loop, s.sent)
  }

  function Sendings(bundle: seq<Hash>, at: nat): (r: seq<Sending>)
    ensures |r| == |bundle| && forall i | 0 <= i < |r| :: r[i] == Sending(bundle[i], at)
  {
    seq(|bundle|, i requires 0 <= i < |bundle| => Sending(bundle[i], at))
  }

  ghost function Step(s: System, a: Action): System {
    var node := NodeAfter(s.node, a);
    var (known, loop, sent) :=
      PeerAfter(s, a, s.node.pool.envelopes.Keys, if |s.history| > 0 then |s.history| - 1 else 0);
    System(node, known, loop, sent, s.history + [node.pool.envelopes.Keys])
  }

  ghost function Run(acts: seq<Action>): System {
    if acts == [] then START else Step(Run(acts[..|acts| - 1]), acts[|acts| - 1])
  }

  /** The steps of the node within a run. */
  function NodeActs(acts: seq<Action>): seq<I.Action> {
    if acts == [] then []
    else
      var last := acts[|acts| - 1];
      NodeActs(acts[..|acts| - 1]) + if last.NodeStep? then [last.act] else []
  }

  /** The peer does not disturb the node. */
  lemma {:induction false} NodeRuns(acts: seq<Action>)
    ensures Run(acts).node == I.Run(NodeActs(acts))
    decreases |acts|
  {
    if acts != [] {
      var n := |acts| - 1;
      NodeRuns(acts[..n]);
      if acts[n].NodeStep? {
        I.RunAppend(NodeActs(acts[..n]), acts[n].act);
      } else {
        assert NodeActs(acts[..n]) + [] == NodeActs(acts[..n]);
      }
    }
  }

  /** The recorded history is the history of the run. */
  lemma {:induction false} HistoryRecorded(acts: seq<Action>, k: nat)
    requires k <= |acts|
    ensures |Run(acts).history| == |acts| + 1
    ensures Run(acts).history[k] == Run(acts[..k]).node.pool.envelopes.Keys
  {
    if acts != [] {
      var rest := acts[..|acts| - 1];
      if k < |acts| {
        HistoryRecorded(rest, k);
        assert rest[..k] == acts[..k];
      } else {
        HistoryRecorded(rest, 0);
        assert acts[..k] == acts;
      }
    }
  }

  // ---- Fine-grained steps ----

  ghost predicate AbsentBetween(history: seq<set<Hash>>, h: Hash, a: nat, b: nat) {
    exists k :: a <= k <= b && k < |history| && h !in history[k]
  }

  ghost predicate PresentAt(history: seq<set<Hash>>, h: Hash, a: nat) {
    a < |history| && h in history[a]
  }

  /** The last step whose pool may have justified forgetting a digest. */
  function Horizon(loop: Loop, now: nat): nat {
    if loop.Filtering? || loop.Marking? then loop.at else now
  }

  /** A broadcast digest is known, about to be marked, or was seen missing since. */
  ghost predicate Remembered(known: set<Hash>, loop: Loop, x: Sending, history: seq<set<Hash>>, now: nat) {
    || x.hash in known
    || (loop.Marking? && x.hash in loop.todo)
    || AbsentBetween(history, x.hash, x.at, Horizon(loop, now))
  }

  ghost predicate LoopConsistent(loop: Loop, sent: seq<Sending>, history: seq<set<Hash>>) {
    match loop
    case Unmarking(h, at) =>
      at < |history| && h !in history[at] && forall i | 0 <= i < |sent| :: sent[i].at <= at
    case Filtering(todo, bundle, at) =>
      && at < |history|
      && (forall i | 0 <= i < |sent| :: sent[i].at <= at)
      && (forall h | h in todo :: h in history[at])
      && (forall i | 0 <= i < |bundle| :: bundle[i] in history[at] && bundle[i] !in todo)
      && NoDuplicates(bundle)
      && (forall i, j | 0 <= i < |sent| && 0 <= j < |bundle| && sent[i].hash == bundle[j] ::
            AbsentBetween(history, sent[i].hash, sent[i].at, at))
    case Marking(_, at) => at < |history|
    case _ => true
  }

  ghost predicate Spaced(sent: seq<Sending>, history: seq<set<Hash>>) {
    && (forall i | 0 <= i < |sent| :: PresentAt(history, sent[i].hash, sent[i].at))
    && (forall i, j | 0 <= i < j < |sent| && sent[i].hash == sent[j].hash ::
          sent[i].at <= sent[j].at && AbsentBetween(history, sent[i].hash, sent[i].at, sent[j].at))
  }

  ghost predicate PeerInvariant(known: set<Hash>, loop: Loop, sent: seq<Sending>, history: seq<set<Hash>>) {
    && |history| > 0
    && Spaced(sent, history)
    && LoopConsistent(loop, sent, history)
    && forall i | 0 <= i < |sent| :: Remembered(known, loop, sent[i], history, |history| - 1)
  }

  ghost predicate Invariant(s: System) {
    && PeerInvariant(s.known, s.loop, s.sent, s.history)
    && s.history[|s.history| - 1] == s.node.pool.envelopes.Keys
  }

  lemma AbsentExtends(history: seq<set<Hash>>, next: set<Hash>, h: Hash, a: nat, b: nat, c: nat)
    requires AbsentBetween(history, h, a, b) && b <= c
    ensures AbsentBetween(history + [next], h, a, c)
  {
    var k :| a <= k <= b && k < |history| && h !in history[k];
    assert (history + [next])[k] == history[k];
  }

  /** Whatever the pool does next, the peer's invariant stays. */
  lemma HistoryGrows(known: set<Hash>, loop: Loop, sent: seq<Sending>, history: seq<set<Hash>>, next: set<Hash>)
    requires PeerInvariant(known, loop, sent, history)
    ensures PeerInvariant(known, loop, sent, history + [next])
  {
    var t := history + [next];
    forall h, a: nat, b: nat, c: nat | b <= c && AbsentBetween(history, h, a, b) ensures AbsentBetween(t, h, a, c) {
      AbsentExtends(history, next, h, a, b, c);
    }
    assert Spaced(sent, t);
    assert LoopConsistent(loop, sent, t);
  }

  lemma ConsiderKeeps(known: set<Hash>, loop: Loop, sent: seq<Sending>, history: seq<set<Hash>>, h: Hash, take: bool)
    requires PeerInvariant(known, loop, sent, history) && loop.Filtering?
    requires h in loop.todo && (take ==> h !in known)
    ensures PeerInvariant(known, Filtering(loop.todo - {h}, if take then loop.bundle + [h] else loop.bundle, loop.at), sent, history)
  {
    if take {
      var bundle := loop.bundle + [h];
      forall i | 0 <= i < |sent| && sent[i].hash == h ensures AbsentBetween(history, h, sent[i].at, loop.at) {
        assert Remembered(known, loop, sent[i], history, |history| - 1);
      }
      assert NoDuplicates(bundle);
    }
  }

  lemma SendKeeps(known: set<Hash>, loop: Loop, sent: seq<Sending>, history: seq<set<Hash>>)
    requires PeerInvariant(known, loop, sent, history) && loop.Filtering?
    ensures PeerInvariant(known, Marking((set h | h in loop.bundle), loop.at), sent + Sendings(loop.bundle, loop.at), history)
  {
    var (bundle, at) := (loop.bundle, loop.at);
    var marking := Marking((set h | h in bundle), at);
    var all := sent + Sendings(bundle, at);
    assert forall i | 0 <= i < |all| :: all[i] == if i < |sent| then sent[i] else Sending(bundle[i - |sent|], at);
    assert Spaced(all, history);
    forall i | 0 <= i < |all| ensures Remembered(known, marking, all[i], history, |history| - 1) {
      if i < |sent| {
        assert Remembered(known, loop, sent[i], history, |history| - 1);
      } else {
        assert all[i].hash == bundle[i - |sent|];
      }
    }
  }

  lemma WiderHorizon(known: set<Hash>, loop: Loop, sent: seq<Sending>, history: seq<set<Hash>>, known': set<Hash>, loop': Loop)
    requires PeerInvariant(known, loop, sent, history)
    requires Horizon(loop, |history| - 1) <= Horizon(loop', |history| - 1) && LoopConsistent(loop', sent, history)
    requires forall h | h in known || (loop.Marking? && h in loop.todo) ::
      h in known' || (loop'.Marking? && h in loop'.todo) || (loop.Unmarking? && h == loop.hash)
    requires loop.Unmarking? ==> !loop'.Filtering? && !loop'.Marking?
    ensures PeerInvariant(known', loop', sent, history)
  {
    forall i | 0 <= i < |sent| ensures Remembered(known', loop', sent[i], history, |history| - 1) {
      assert Remembered(known, loop, sent[i], history, |history| - 1);
      var h := sent[i].hash;
      if loop.Unmarking? && h == loop.hash {
        assert AbsentBetween(history, h, sent[i].at, |history| - 1) by {
          assert sent[i].at <= loop.at <= |history| - 1 && h !in history[loop.at];
        }
      }
    }
  }

  lemma PeerKeeps(s: System, a: Action)
    requires Invariant(s)
    ensures var (known, loop, sent) := PeerAfter(s, a, s.node.pool.envelopes.Keys, |s.history| - 1);
            PeerInvariant(known, loop, sent, s.history)
  {
    var (known, loop, sent) := PeerAfter(s, a, s.node.pool.envelopes.Keys, |s.history| - 1);
    if s.loop.Filtering? && a.Consider? && a.hash in s.loop.todo {
      ConsiderKeeps(s.known, s.loop, s.sent, s.history, a.hash, a.wanted && a.hash !in s.known);
    } else if s.loop.Filtering? && a.Send? && s.loop.todo == {} && s.loop.bundle != [] && a.ok {
      SendKeeps(s.known, s.loop, s.sent, s.history);
    } else {
      assert sent == s.sent;
      WiderHorizon(s.known, s.loop, s.sent, s.history, known, loop);
    }
  }

  lemma {:induction false} RunInvariant(acts: seq<Action>)
    ensures Invariant(Run(acts))
  {
    if acts != [] {
      var s := Run(acts[..|acts| - 1]);
      var a := acts[|acts| - 1];
      RunInvariant(acts[..|acts| - 1]);
      PeerKeeps(s, a);
      var t := Step(s, a);
      HistoryGrows(t.known, t.loop, t.sent, s.history, t.node.pool.envelopes.Keys);
    }
  }

  lemma SpacedInHistory(s: System, i: nat, j: nat) returns (k: nat)
    requires Invariant(s) && i < j < |s.sent| && s.sent[i].hash == s.sent[j].hash
    ensures var (h, a, b) := (s.sent[i].hash, s.sent[i].at, s.sent[j].at);
            a < k < b < |s.history| && h in s.history[a] && h !in s.history[k] && h in s.history[b]
  {
    var (h, a, b) := (s.sent[i].hash, s.sent[i].at, s.sent[j].at);
    assert PresentAt(s.history, h, a) && PresentAt(s.history, h, b);
    assert AbsentBetween(s.history, h, a, b);
    k :| a <= k <= b && k < |s.history| && h !in s.history[k];
  }

  ghost function PooledAfter(acts: seq<Action>, k: nat): set<Hash>
    requires k <= |acts|
  {
    Run(acts[..k]).node.pool.envelopes.Keys
  }

  /** In every run, between the pool snapshots behind two broadcasts of one digest to the
      peer, the digest was pooled at both and missing from the pool at some step between. */
  lemma ResentOnlyAfterAbsence(acts: seq<Action>, i: nat, j: nat) returns (k: nat)
    requires i < j < |Run(acts).sent| && Run(acts).sent[i].hash == Run(acts).sent[j].hash
    ensures var (h, a, b) := (Run(acts).sent[i].hash, Run(acts).sent[i].at, Run(acts).sent[j].at);
            a < k < b <= |acts| && h in PooledAfter(acts, a) && h !in PooledAfter(acts, k) && h in PooledAfter(acts, b)
  {
    RunInvariant(acts);
    HistoryRecorded(acts, 0);
    k := SpacedInHistory(Run(acts), i, j);
    HistoryRecorded(acts, Run(acts).sent[i].at);
    HistoryRecorded(acts, k);
    HistoryRecorded(acts, Run(acts).sent[j].at);
  }

  // ---- As many broadcasts as insertions ----

  /** How often a digest was broadcast. */
  function Times(sent: seq<Sending>, h: Hash): nat {
    if sent == [] then 0
    else Times(sent[..|sent| - 1], h) + if sent[|sent| - 1].hash == h then 1 else 0
  }

  /** How often a digest was inserted, and announced as expired, in the first `k` steps. */
  ghost function Insertions(acts: seq<Action>, k: nat, h: Hash): nat
    requires k <= |acts|
  {
    multiset(Run(acts[..k]).node.insertions)[h]
  }

  ghost function Expiries(acts: seq<Action>, k: nat, h: Hash): nat
    requires k <= |acts|
  {
    multiset(Run(acts[..k]).node.expiredEvents)[h]
  }

  lemma InsertionsBalance(acts: seq<Action>, k: nat, h: Hash)
    requires k <= |acts|
    ensures Insertions(acts, k, h) == Expiries(acts, k, h) + if h in PooledAfter(acts, k) then 1 else 0
  {
    NodeRuns(acts[..k]);
    I.RunInvariant(NodeActs(acts[..k]));
  }

  lemma {:induction false} CountsGrow(acts: seq<Action>, j: nat, k: nat, h: Hash)
    requires j <= k <= |acts|
    ensures Insertions(acts, j, h) <= Insertions(acts, k, h) && Expiries(acts, j, h) <= Expiries(acts, k, h)
    decreases k
  {
    if j < k {
      CountsGrow(acts, j, k - 1, h);
      CountsStep(acts, k, h);
    }
  }

  lemma CountsStep(acts: seq<Action>, k: nat, h: Hash)
    requires 0 < k <= |acts|
    ensures Insertions(acts, k - 1, h) <= Insertions(acts, k, h) && Expiries(acts, k - 1, h) <= Expiries(acts, k, h)
  {
    var n := Run(acts[..k - 1]).node;
    var m := NodeAfter(n, acts[k - 1]);
    assert Run(acts[..k]).node == m by { assert acts[..k][..k - 1] == acts[..k - 1]; }
    HistoriesExtend(n, acts[k - 1]);
    PrefixCount(n.insertions, m.insertions, h);
    PrefixCount(n.expiredEvents, m.expiredEvents, h);
  }

  lemma HistoriesExtend(n: I.Node, a: Action)
    ensures n.insertions <= NodeAfter(n, a).insertions && n.expiredEvents <= NodeAfter(n, a).expiredEvents
  {
  }

  lemma PrefixCount(s: seq<Hash>, t: seq<Hash>, h: Hash)
    requires s <= t
    ensures multiset(s)[h] <= multiset(t)[h]
  {
    assert t == s + t[|s|..];
  }

  /** A digest that was missing and is pooled later was inserted meanwhile. */
  lemma InsertedAgain(acts: seq<Action>, a: nat, k: nat, b: nat, h: Hash)
    requires a <= k <= b <= |acts| && h !in PooledAfter(acts, k) && h in PooledAfter(acts, b)
    ensures Insertions(acts, a, h) < Insertions(acts, b, h)
  {
    CountsGrow(acts, a, k, h);
    CountsGrow(acts, k, b, h);
    InsertionsBalance(acts, k, h);
    InsertionsBalance(acts, b, h);
  }

  /** The broadcast of a digest before the one at `j`, if there is one. */
  lemma {:induction false} Previous(sent: seq<Sending>, j: nat, h: Hash) returns (i: int)
    requires j <= |sent|
    ensures -1 <= i < j
    ensures i < 0 ==> Times(sent[..j], h) == 0
    ensures i >= 0 ==> sent[i].hash == h && Times(sent[..j], h) == Times(sent[..i + 1], h)
    decreases j
  {
    i := j - 1;
    if j > 0 && sent[j - 1].hash != h {
      assert sent[..j][..j - 1] == sent[..j - 1];
      i := Previous(sent, j - 1, h);
    }
  }

  /** What is broadcast was inserted by the time of the snapshot. */
  lemma InsertedBefore(acts: seq<Action>, j: nat)
    requires j < |Run(acts).sent|
    ensures Run(acts).sent[j].at <= |acts|
    ensures Insertions(acts, Run(acts).sent[j].at, Run(acts).sent[j].hash) >= 1
  {
    var x := Run(acts).sent[j];
    RunInvariant(acts);
    HistoryRecorded(acts, 0);
    assert PresentAt(Run(acts).history, x.hash, x.at);
    HistoryRecorded(acts, x.at);
    InsertionsBalance(acts, x.at, x.hash);
  }

  lemma {:induction false} TimesUpTo(acts: seq<Action>, j: nat)
    requires j < |Run(acts).sent|
    ensures Run(acts).sent[j].at <= |acts|
    ensures Times(Run(acts).sent[..j + 1], Run(acts).sent[j].hash)
            <= Insertions(acts, Run(acts).sent[j].at, Run(acts).sent[j].hash)
    decreases j
  {
    var sent := Run(acts).sent;
    var x := sent[j];
    InsertedBefore(acts, j);
    assert sent[..j + 1][..j] == sent[..j];
    var i := Previous(sent, j, x.hash);
    if i >= 0 {
      TimesUpTo(acts, i);
      var k := ResentOnlyAfterAbsence(acts, i, j);
      InsertedAgain(acts, sent[i].at, k, x.at, x.hash);
    }
  }

  /** In every run, a digest is broadcast to the peer at most as often as it was inserted into the pool. */
  lemma BroadcastsAtMostInsertions(acts: seq<Action>, h: Hash)
    ensures Times(Run(acts).sent, h) <= multiset(Run(acts).node.insertions)[h]
  {
    var sent := Run(acts).sent;
    assert sent[..|sent|] == sent && acts[..|acts|] == acts;
    var i := Previous(sent, |sent|, h);
    if i >= 0 {
      TimesUpTo(acts, i);
      CountsGrow(acts, sent[i].at, |acts|, h);
    }
  }

  // ---- Whole rounds of the peer ----

  lemma RunAppend(acts: seq<Action>, a: Action)
    ensures Run(acts + [a]) == Step(Run(acts), a)
    ensures NodeActs(acts + [a]) == NodeActs(acts) + if a.NodeStep? then [a.act] else []
  {
    assert (acts + [a])[..|acts|] == acts;
  }

  /** The digests of a snapshot, met in the given order, that the peer wants and does not know. */
  function Chosen(order: seq<Hash>, known: set<Hash>, wanted: Hash -> bool): seq<Hash> {
    if order == [] then []
    else
      var h := order[|order| - 1];
      Chosen(order[..|order| - 1], known, wanted) + if wanted(h) && h !in known then [h] else []
  }

  lemma {:induction false} ChosenCount(order: seq<Hash>, known: set<Hash>, wanted: Hash -> bool, h: Hash)
    ensures multiset(Chosen(order, known, wanted))[h] == if wanted(h) && h !in known then multiset(order)[h] else 0
    decreases |order|
  {
    if order != [] {
      SplitLast(order);
      var (rest, last) := (order[..|order| - 1], order[|order| - 1]);
      ChosenCount(rest, known, wanted, h);
      ChosenOneMore(rest, last, known, wanted, h);
    }
  }

  lemma ChosenOneMore(rest: seq<Hash>, last: Hash, known: set<Hash>, wanted: Hash -> bool, h: Hash)
    requires multiset(Chosen(rest, known, wanted))[h] == if wanted(h) && h !in known then multiset(rest)[h] else 0
    ensures multiset(Chosen(rest + [last], known, wanted))[h]
            == if wanted(h) && h !in known then multiset(rest + [last])[h] else 0
  {
    ChosenAppend(rest, last, known, wanted);
    CountAppend(rest, last, h);
    CountAppend(Chosen(rest, known, wanted), last, h);
  }

  lemma ChosenAppend(rest: seq<Hash>, last: Hash, known: set<Hash>, wanted: Hash -> bool)
    ensures var before := Chosen(rest, known, wanted);
            Chosen(rest + [last], known, wanted) == if wanted(last) && last !in known then before + [last] else before
  {
    assert (rest + [last])[..|rest|] == rest;
  }

  /** A peer object goes through a snapshot like the peer of this machine: its bundle is what the machine chooses. */
  lemma {:induction false} ObjectChooses(envelopes: seq<Envelope>, known: set<Hash>, pow: real, covers: set<nat>,
                                        work: Envelope -> Work.Work, wanted: Hash -> bool)
    requires forall e | e in envelopes :: wanted(e.hash) <==> P.Suits(e, pow, covers, work)
    ensures Digests(P.Selected(envelopes, known, pow, covers, work)) == Chosen(Digests(envelopes), known, wanted)
    decreases |envelopes|
  {
    if envelopes != [] {
      var n := |envelopes| - 1;
      assert envelopes == envelopes[..n] + [envelopes[n]];
      ObjectChooses(envelopes[..n], known, pow, covers, work, wanted);
      assert Digests(envelopes)[..n] == Digests(envelopes[..n]);
    }
  }

  function Digests(envelopes: seq<Envelope>): (r: seq<Hash>)
    ensures |r| == |envelopes| && forall i | 0 <= i < |r| :: r[i] == envelopes[i].hash
  {
    seq(|envelopes|, i requires 0 <= i < |envelopes| => envelopes[i].hash)
  }

  /** Only the peer's part of the state changes on the way. */
  ghost predicate PeerOnly(acts: seq<Action>, more: seq<Action>) {
    acts <= more && NodeActs(more) == NodeActs(acts) && Run(more).node == Run(acts).node
  }

  lemma {:induction false} ConsiderAll(acts: seq<Action>, order: seq<Hash>, wanted: Hash -> bool) returns (more: seq<Action>)
    requires Run(acts).loop.Filtering? && Enumerates(order, Run(acts).loop.todo)
    ensures PeerOnly(acts, more)
    ensures var (s, t) := (Run(acts), Run(more));
            && t.known == s.known && t.sent == s.sent
            && t.loop == Filtering({}, s.loop.bundle + Chosen(order, s.known, wanted), s.loop.at)
    decreases |order|
  {
    more := acts;
    EnumerationDistinct(order, Run(acts).loop.todo);
    if order == [] {
      EnumerationLength(order, Run(acts).loop.todo);
    } else {
      more := ConsiderRest(acts, order, wanted);
    }
  }

  /** Considering the last digest of the order first would do as well; the first is considered first. */
  lemma ConsiderRest(acts: seq<Action>, order: seq<Hash>, wanted: Hash -> bool) returns (more: seq<Action>)
    requires order != [] && Run(acts).loop.Filtering? && Enumerates(order, Run(acts).loop.todo)
    ensures PeerOnly(acts, more)
    ensures var (s, t) := (Run(acts), Run(more));
            && t.known == s.known && t.sent == s.sent
            && t.loop == Filtering({}, s.loop.bundle + Chosen(order, s.known, wanted), s.loop.at)
    decreases |order|, 0
  {
    var (h, rest) := (order[0], order[1..]);
    var s := Run(acts);
    var next := acts + [Consider(h, wanted(h))];
    EnumerateRest(order, s.loop.todo);
    ConsiderStep(acts, h, wanted(h));
    more := ConsiderAll(next, rest, wanted);
    ChosenFirst(order, s.known, wanted);
    BundleGrows(s.loop.bundle, if wanted(h) && h !in s.known then [h] else [], Chosen(rest, s.known, wanted));
  }

  lemma BundleGrows(bundle: seq<Hash>, first: seq<Hash>, rest: seq<Hash>)
    ensures bundle + first + rest == bundle + (first + rest)
  {
  }

  lemma ConsiderStep(acts: seq<Action>, h: Hash, wanted: bool)
    requires Run(acts).loop.Filtering? && h in Run(acts).loop.todo
    ensures PeerOnly(acts, acts + [Consider(h, wanted)])
    ensures var (s, t) := (Run(acts), Run(acts + [Consider(h, wanted)]));
            && t.known == s.known && t.sent == s.sent
            && t.loop == Filtering(s.loop.todo - {h}, s.loop.bundle + (if wanted && h !in s.known then [h] else []), s.loop.at)
  {
    RunAppend(acts, Consider(h, wanted));
    assert Run(acts).loop.bundle + [] == Run(acts).loop.bundle;
  }

  lemma {:induction false} ChosenFirst(order: seq<Hash>, known: set<Hash>, wanted: Hash -> bool)
    requires order != []
    ensures Chosen(order, known, wanted)
            == (if wanted(order[0]) && order[0] !in known then [order[0]] else []) + Chosen(order[1..], known, wanted)
    decreases |order|
  {
    var n := |order| - 1;
    if n > 0 {
      var rest := order[1..];
      ChosenFirst(order[..n], known, wanted);
      assert order[..n][1..] == rest[..n - 1] && rest[n - 1] == order[n];
      assert Chosen(rest, known, wanted)
             == Chosen(rest[..n - 1], known, wanted) + if wanted(order[n]) && order[n] !in known then [order[n]] else [];
    }
  }

  lemma {:induction false} MarkAll(acts: seq<Action>) returns (more: seq<Action>)
    requires Run(acts).loop.Marking? && Run(acts).loop.todo != {}
    ensures PeerOnly(acts, more)
    ensures var (s, t) := (Run(acts), Run(more)); t.loop.Idle? && t.known == s.known + s.loop.todo && t.sent == s.sent
    decreases Run(acts).loop.todo
  {
    var h :| h in Run(acts).loop.todo;
    more := acts + [MarkSent(h)];
    RunAppend(acts, MarkSent(h));
    if Run(acts).loop.todo != {h} { more := MarkAll(more); }
  }

  /** A broadcast without interruption sends what was chosen and marks it. */
  lemma WholeBroadcast(acts: seq<Action>, order: seq<Hash>, wanted: Hash -> bool) returns (more: seq<Action>)
    requires Run(acts).loop.Idle? && Enumerates(order, Run(acts).node.pool.envelopes.Keys)
    ensures PeerOnly(acts, more)
    ensures var (s, t) := (Run(acts), Run(more));
            var bundle := Chosen(order, s.known, wanted);
            && t.loop.Idle? && t.known == s.known + (set h | h in bundle)
            && t.sent == s.sent + Sendings(bundle, |acts|)
  {
    var bundle := Chosen(order, Run(acts).known, wanted);
    HistoryRecorded(acts, 0);
    RunAppend(acts, Snapshot);
    more := ConsiderAll(acts + [Snapshot], order, wanted);
    assert [] + bundle == bundle;
    more := SendAndMark(more, bundle, |acts|);
  }

  lemma SendAndMark(acts: seq<Action>, bundle: seq<Hash>, at: nat) returns (more: seq<Action>)
    requires Run(acts).loop == Filtering({}, bundle, at)
    ensures PeerOnly(acts, more)
    ensures var (s, t) := (Run(acts), Run(more));
            t.loop.Idle? && t.known == s.known + (set h | h in bundle) && t.sent == s.sent + Sendings(bundle, at)
  {
    more := acts + [Send(true)];
    RunAppend(acts, Send(true));
    if bundle == [] {
      assert Sendings(bundle, at) == [];
    } else {
      assert bundle[0] in Run(more).loop.todo;
      more := MarkAll(more);
    }
  }

  /** Pruning without interruption forgets a known digest exactly if it is not pooled, as the peer object does. */
  lemma WholeCheck(acts: seq<Action>, h: Hash) returns (more: seq<Action>)
    requires Run(acts).loop.Idle? && h in Run(acts).known
    ensures PeerOnly(acts, more)
    ensures var (s, t) := (Run(acts), Run(more));
            && t.loop.Idle? && t.sent == s.sent
            && t.known == s.known - if h !in s.node.pool.envelopes then {h} else {}
  {
    more := acts + [CheckKnown(h)];
    RunAppend(acts, CheckKnown(h));
    if h !in Run(acts).node.pool.envelopes {
      RunAppend(more, Unmark);
      more := more + [Unmark];
    }
  }

  // ---- As many insertions as broadcasts ----

  lemma {:induction false} TimesConcat(sent: seq<Sending>, bundle: seq<Hash>, at: nat, h: Hash)
    ensures Times(sent + Sendings(bundle, at), h) == Times(sent, h) + multiset(bundle)[h]
    decreases |bundle|
  {
    if bundle == [] {
      assert sent + Sendings(bundle, at) == sent;
    } else {
      var n := |bundle| - 1;
      TimesConcat(sent, bundle[..n], at, h);
      assert bundle == bundle[..n] + [bundle[n]];
      var rest := sent + Sendings(bundle[..n], at);
      assert sent + Sendings(bundle, at) == rest + [Sending(bundle[n], at)];
      TimesLast(rest, Sending(bundle[n], at), h);
    }
  }

  lemma TimesLast(sent: seq<Sending>, x: Sending, h: Hash)
    ensures Times(sent + [x], h) == Times(sent, h) + if x.hash == h then 1 else 0
  {
    assert (sent + [x])[..|sent|] == sent;
  }

  /** A broadcast of a pooled digest to a peer that asks for everything and does not know it. */
  lemma BroadcastOne(acts: seq<Action>, h: Hash) returns (more: seq<Action>)
    requires Run(acts).loop.Idle? && h in Run(acts).node.pool.envelopes && h !in Run(acts).known
    ensures PeerOnly(acts, more) && Run(more).loop.Idle?
    ensures Times(Run(more).sent, h) == Times(Run(acts).sent, h) + 1
  {
    var s := Run(acts);
    var order := Listing(s.node.pool.envelopes.Keys);
    var wanted: Hash -> bool := _ => true;
    more := WholeBroadcast(acts, order, wanted);
    ChosenCount(order, s.known, wanted, h);
    TimesConcat(s.sent, Chosen(order, s.known, wanted), |acts|, h);
  }

  lemma {:induction false} Listing(members: set<Hash>) returns (order: seq<Hash>)
    ensures Enumerates(order, members)
    decreases members
  {
    order := [];
    if members != {} {
      var h :| h in members;
      var rest := Listing(members - {h});
      EnumerateOneMore(rest, members - {h}, h);
      assert members - {h} + {h} == members;
      order := rest + [h];
    }
  }

  /** Every run of the node can be interleaved with steps of the peer so that a given digest is broadcast
      as often as it is inserted. */
  lemma {:induction false} EachInsertionBroadcast(nodeActs: seq<I.Action>, h: Hash) returns (acts: seq<Action>)
    ensures NodeActs(acts) == nodeActs && Run(acts).loop.Idle?
    ensures Times(Run(acts).sent, h) == multiset(I.Run(nodeActs).insertions)[h]
    decreases |nodeActs|
  {
    acts := [];
    if nodeActs != [] {
      var n := |nodeActs| - 1;
      var last := nodeActs[n];
      assert nodeActs == nodeActs[..n] + [last];
      acts := EachInsertionBroadcast(nodeActs[..n], h);
      NodeRuns(acts);
      acts := StepWithBroadcast(acts, last, h);
      NodeRuns(acts);
    }
  }

  lemma StepWithBroadcast(acts: seq<Action>, a: I.Action, h: Hash) returns (more: seq<Action>)
    requires Run(acts).loop.Idle?
    requires Times(Run(acts).sent, h) == multiset(Run(acts).node.insertions)[h]
    ensures NodeActs(more) == NodeActs(acts) + [a] && Run(more).loop.Idle?
    ensures Times(Run(more).sent, h) == multiset(Run(more).node.insertions)[h]
  {
    more := acts;
    var inserting := I.Inserts(Run(acts).node, a, h);
    if inserting && h in Run(acts).known { more := WholeCheck(acts, h); }
    InsertionCounted(Run(acts).node, a, h);
    RunAppend(more, NodeStep(a));
    more := more + [NodeStep(a)];
    if inserting { more := BroadcastOne(more, h); }
  }

  lemma InsertionCounted(n: I.Node, a: I.Action, h: Hash)
    ensures multiset(I.Step(n, a).insertions)[h] == multiset(n.insertions)[h] + if I.Inserts(n, a, h) then 1 else 0
    ensures I.Inserts(n, a, h) ==> h in I.Step(n, a).pool.envelopes
  {
  }

  /** A run of the node lets a digest be broadcast twice to the peer, in some interleaving, exactly when it
      inserts that digest twice. */
  lemma ResendExact(nodeActs: seq<I.Action>, h: Hash)
    ensures (exists acts: seq<Action> :: NodeActs(acts) == nodeActs && Times(Run(acts).sent, h) >= 2)
            <==> multiset(I.Run(nodeActs).insertions)[h] >= 2
  {
    forall acts: seq<Action> | NodeActs(acts) == nodeActs
      ensures Times(Run(acts).sent, h) <= multiset(I.Run(nodeActs).insertions)[h]
    {
      NodeRuns(acts);
      BroadcastsAtMostInsertions(acts, h);
    }
    var acts := EachInsertionBroadcast(nodeActs, h);
  }

  /** If the clock does not go back and no call inserts the envelope after it has expired, its digest is
      broadcast at most once, whatever else falls between the steps of the calls. */
  lemma NeverResent(acts: seq<Action>, h: Hash, expiry: Uint32)
    requires I.PromptRun(NodeActs(acts), h, expiry)
    ensures Times(Run(acts).sent, h) <= 1
  {
    NodeRuns(acts);
    BroadcastsAtMostInsertions(acts, h);
    I.InsertedOnce(NodeActs(acts), h, expiry);
  }

  /** With calls of `add` that insert it without interruption, in particular. */
  lemma NeverResentAtomic(acts: seq<Action>, h: Hash, expiry: Uint32)
    requires I.Atomic(NodeActs(acts), h)
    requires forall k | 0 <= k < |NodeActs(acts)| ::
      && (NodeActs(acts)[k].Tick? ==> I.Run(NodeActs(acts)[..k]).clock <= NodeActs(acts)[k].clock)
      && (NodeActs(acts)[k].Begin? && NodeActs(acts)[k].env.hash == h ==> NodeActs(acts)[k].env.expiry == expiry)
    ensures Times(Run(acts).sent, h) <= 1
  {
    I.AtomicIsPrompt(NodeActs(acts), h, expiry);
    NeverResent(acts, h, expiry);
  }

  // ---- No echo ----

  /** The digest is known, and not about to be forgotten; or it was missing from the pool at some step after `k`. */
  ghost predicate Guarded(known: set<Hash>, loop: Loop, history: seq<set<Hash>>, h: Hash, k: nat)
    requires |history| > 0
  {
    || (h in known && !(loop.Unmarking? && loop.hash == h))
    || AbsentBetween(history, h, k + 1, Horizon(loop, |history| - 1))
  }

  /** Nothing chosen from a snapshot after step `k` is the digest, unless it was missing since. */
  ghost predicate NotEchoed(loop: Loop, sent: seq<Sending>, history: seq<set<Hash>>, h: Hash, k: nat) {
    && (forall i | 0 <= i < |sent| && sent[i].hash == h && sent[i].at > k :: AbsentBetween(history, h, k + 1, sent[i].at))
    && (loop.Filtering? && h in loop.bundle && loop.at > k ==> AbsentBetween(history, h, k + 1, loop.at))
  }

  ghost predicate Guard(s: System, h: Hash, k: nat) {
    |s.history| > k + 1 && Guarded(s.known, s.loop, s.history, h, k) && NotEchoed(s.loop, s.sent, s.history, h, k)
  }

  lemma GuardPeer(s: System, a: Action, h: Hash, k: nat)
    requires Invariant(s) && Guard(s, h, k)
    ensures var (known, loop, sent) := PeerAfter(s, a, s.node.pool.envelopes.Keys, |s.history| - 1);
            Guarded(known, loop, s.history, h, k) && NotEchoed(loop, sent, s.history, h, k)
  {
    var (known, loop, sent) := PeerAfter(s, a, s.node.pool.envelopes.Keys, |s.history| - 1);
    var now := |s.history| - 1;
    if loop.Unmarking? && loop.hash == h && h !in s.node.pool.envelopes && !s.loop.Unmarking? {
      assert h !in s.history[now] && k + 1 <= now;
    }
    if s.loop.Filtering? && a.Send? {
      assert forall i | 0 <= i < |sent| ::
        sent[i] == if i < |s.sent| then s.sent[i] else Sending(s.loop.bundle[i - |s.sent|], s.loop.at);
    }
  }

  lemma GuardGrows(loop: Loop, known: set<Hash>, sent: seq<Sending>, history: seq<set<Hash>>, next: set<Hash>, h: Hash, k: nat)
    requires |history| > 0 && Guarded(known, loop, history, h, k) && NotEchoed(loop, sent, history, h, k)
    ensures Guarded(known, loop, history + [next], h, k) && NotEchoed(loop, sent, history + [next], h, k)
  {
    var (now, t) := (|history| - 1, history + [next]);
    if AbsentBetween(history, h, k + 1, Horizon(loop, now)) {
      AbsentExtends(history, next, h, k + 1, Horizon(loop, now), Horizon(loop, now + 1));
    }
    forall i | 0 <= i < |sent| && sent[i].hash == h && sent[i].at > k ensures AbsentBetween(t, h, k + 1, sent[i].at) {
      AbsentExtends(history, next, h, k + 1, sent[i].at, sent[i].at);
    }
    if loop.Filtering? && h in loop.bundle && loop.at > k { AbsentExtends(history, next, h, k + 1, loop.at, loop.at); }
  }

  lemma GuardStep(s: System, a: Action, h: Hash, k: nat)
    requires Invariant(s) && Guard(s, h, k)
    ensures Guard(Step(s, a), h, k)
  {
    GuardPeer(s, a, h, k);
    var (known, loop, sent) := PeerAfter(s, a, s.node.pool.envelopes.Keys, |s.history| - 1);
    GuardGrows(loop, known, sent, s.history, NodeAfter(s.node, a).pool.envelopes.Keys, h, k);
  }

  /** Receiving the digest guards it, unless the loop is about to forget it. */
  lemma GuardBegins(s: System, h: Hash)
    requires Invariant(s) && !(s.loop.Unmarking? && s.loop.hash == h)
    ensures Guard(Step(s, MarkReceived(h)), h, |s.history| - 1)
  {
    forall i | 0 <= i < |s.sent| ensures s.sent[i].at <= |s.history| - 1 {
      assert PresentAt(s.history, s.sent[i].hash, s.sent[i].at);
    }
  }

  ghost predicate AboutToForget(s: System, h: Hash) {
    s.loop.Unmarking? && s.loop.hash == h
  }

  lemma {:induction false} GuardRun(acts: seq<Action>, k: nat, h: Hash)
    requires k < |acts| && acts[k] == MarkReceived(h) && !AboutToForget(Run(acts[..k]), h)
    ensures Guard(Run(acts), h, k)
    decreases |acts|
  {
    var n := |acts| - 1;
    RunInvariant(acts[..n]);
    if k == n {
      HistoryRecorded(acts[..n], 0);
      GuardBegins(Run(acts[..n]), h);
    } else {
      assert acts[..n][..k] == acts[..k];
      GuardRun(acts[..n], k, h);
      GuardStep(Run(acts[..n]), acts[n], h, k);
    }
  }

  /** What the peer has sent is not sent back to it: if a digest is received from the peer at step `k`, and the loop is not
      about to forget it, then before any broadcast of it from a later snapshot the pool lacked it at a step after `k`. */
  lemma EchoOnlyAfterAbsence(acts: seq<Action>, k: nat, j: nat) returns (m: nat)
    requires k < |acts| && j < |Run(acts).sent| && Run(acts).sent[j].at > k
    requires acts[k] == MarkReceived(Run(acts).sent[j].hash) && !AboutToForget(Run(acts[..k]), Run(acts).sent[j].hash)
    ensures k < m <= Run(acts).sent[j].at && m <= |acts| && Run(acts).sent[j].hash !in PooledAfter(acts, m)
  {
    var x := Run(acts).sent[j];
    GuardRun(acts, k, x.hash);
    HistoryRecorded(acts, 0);
    m :| k + 1 <= m <= x.at && m < |Run(acts).history| && x.hash !in Run(acts).history[m];
    HistoryRecorded(acts, m);
  }

  /** After `acts` the digest is received from the peer, and in spite of being pooled all the time it is then
      broadcast to the peer from a later snapshot. */
  ghost predicate Echoes(acts: seq<Action>, more: seq<Action>, h: Hash) {
    && acts + [MarkReceived(h)] <= more
    && (forall m | |acts| <= m <= |more| :: h in PooledAfter(more, m))
    && exists j | 0 <= j < |Run(more).sent| :: Run(more).sent[j].hash == h && Run(more).sent[j].at > |acts|
  }

  /** A digest that is pooled when it is received, and stays pooled, can be sent back to the peer exactly if the loop was
      about to forget it. */
  lemma EchoExact(acts: seq<Action>, h: Hash)
    requires h in Run(acts).node.pool.envelopes
    ensures (exists more: seq<Action> :: Echoes(acts, more, h)) <==> AboutToForget(Run(acts), h)
  {
    forall more: seq<Action> | Echoes(acts, more, h) ensures AboutToForget(Run(acts), h) {
      EchoNeedsForgetting(acts, more, h);
    }
    if AboutToForget(Run(acts), h) {
      var more := EchoAfterForgetting(acts, h);
    }
  }

  lemma EchoNeedsForgetting(acts: seq<Action>, more: seq<Action>, h: Hash)
    requires Echoes(acts, more, h)
    ensures AboutToForget(Run(acts), h)
  {
    var j :| 0 <= j < |Run(more).sent| && Run(more).sent[j].hash == h && Run(more).sent[j].at > |acts|;
    assert more[|acts|] == MarkReceived(h) && more[..|acts|] == acts;
    if !AboutToForget(Run(acts), h) {
      var m := EchoOnlyAfterAbsence(more, |acts|, j);
      assert false;
    }
  }

  /** The loop forgets the digest although it was just received, and the next broadcast sends it back. */
  lemma EchoAfterForgetting(acts: seq<Action>, h: Hash) returns (more: seq<Action>)
    requires h in Run(acts).node.pool.envelopes && AboutToForget(Run(acts), h)
    ensures Echoes(acts, more, h)
  {
    var a1 := acts + [MarkReceived(h)];
    RunAppend(acts, MarkReceived(h));
    RunAppend(a1, Unmark);
    more := BroadcastHas(a1 + [Unmark], h);
    NodeStays(acts, more);
  }

  /** A broadcast to a peer that asks for everything has every pooled digest the peer does not know. */
  lemma BroadcastHas(acts: seq<Action>, h: Hash) returns (more: seq<Action>)
    requires Run(acts).loop.Idle? && h in Run(acts).node.pool.envelopes && h !in Run(acts).known
    ensures PeerOnly(acts, more)
    ensures exists j | 0 <= j < |Run(more).sent| :: Run(more).sent[j].hash == h && Run(more).sent[j].at == |acts|
  {
    var s := Run(acts);
    var order := Listing(s.node.pool.envelopes.Keys);
    var wanted: Hash -> bool := _ => true;
    more := WholeBroadcast(acts, order, wanted);
    ChosenCount(order, s.known, wanted, h);
    SendingIn(s.sent, Chosen(order, s.known, wanted), |acts|, h);
  }

  lemma SendingIn(sent: seq<Sending>, bundle: seq<Hash>, at: nat, h: Hash)
    requires multiset(bundle)[h] > 0
    ensures var all := sent + Sendings(bundle, at);
            exists j | 0 <= j < |all| :: all[j].hash == h && all[j].at == at
  {
    assert h in bundle;
    var i :| 0 <= i < |bundle| && bundle[i] == h;
    assert (sent + Sendings(bundle, at))[|sent| + i] == Sending(h, at);
  }

  /** Steps of the peer leave the pool alone throughout. */
  lemma NodeStays(acts: seq<Action>, more: seq<Action>)
    requires acts <= more && NodeActs(more) == NodeActs(acts)
    ensures forall m | |acts| <= m <= |more| :: PooledAfter(more, m) == Run(acts).node.pool.envelopes.Keys
  {
    forall m | |acts| <= m <= |more| ensures PooledAfter(more, m) == Run(acts).node.pool.envelopes.Keys {
      SameNodeActs(acts, more, m);
      NodeRuns(more[..m]);
      NodeRuns(acts);
    }
  }

  lemma SameNodeActs(acts: seq<Action>, more: seq<Action>, m: nat)
    requires acts <= more && NodeActs(more) == NodeActs(acts) && |acts| <= m <= |more|
    ensures NodeActs(more[..m]) == NodeActs(acts)
  {
    assert more[..|more|] == more && more[..|acts|] == acts;
    NodeActsGrow(more, |acts|, m);
    NodeActsGrow(more, m, |more|);
  }

  lemma {:induction false} NodeActsGrow(acts: seq<Action>, j: nat, k: nat)
    requires j <= k <= |acts|
    ensures NodeActs(acts[..j]) <= NodeActs(acts[..k])
    decreases k
  {
    if j < k {
      NodeActsGrow(acts, j, k - 1);
      assert acts[..k][..k - 1] == acts[..k - 1];
    }
  }

  /** A broadcast that fails is the last: nothing is sent to the peer afterwards. */
  lemma {:induction false} StoppedForGood(acts: seq<Action>, more: seq<Action>)
    requires Run(acts).loop.Filtering? && Run(acts).loop.todo == {} && Run(acts).loop.bundle != []
    requires acts + [Send(false)] <= more
    ensures Run(more).loop.Stopped? && Run(more).sent == Run(acts).sent
    decreases |more|
  {
    var n := |more| - 1;
    if n == |acts| {
      assert more == acts + [Send(false)];
      RunAppend(acts, Send(false));
    } else {
      assert acts + [Send(false)] <= more[..n];
      StoppedForGood(acts, more[..n]);
      StoppedStays(Run(more[..n]), more[n]);
    }
  }

  lemma StoppedStays(s: System, a: Action)
    requires s.loop.Stopped?
    ensures Step(s, a).loop.Stopped? && Step(s, a).sent == s.sent
  {
  }

  // ---- A slow addition ----

  /** At any clock, two calls of `add` pass the checks with the same envelope; the first inserts it and it
      expires before the second takes the lock. So the digest can be broadcast twice. */
  lemma SlowAddIsResent(env: Envelope, now: Uint32) returns (acts: seq<Action>)
    requires Gate.TimeGate(now, env.expiry, env.ttl).Continue? && env.expiry < TWO_32 - 1
    ensures NodeActs(acts) == SlowAdd(env, now) && Times(Run(acts).sent, env.hash) == 2
  {
    SlowAddInsertsTwice(env, now);
    acts := EachInsertionBroadcast(SlowAdd(env, now), env.hash);
  }

  function BothBegin(env: Envelope, now: Uint32): seq<I.Action> {
    [I.Tick(now)] + [I.Begin(0, env, false, true)] + [I.Begin(1, env, false, true)]
  }

  function FirstLocks(env: Envelope, now: Uint32): seq<I.Action> {
    BothBegin(env, now) + [I.Lock(0)]
  }

  function SlowAdd(env: Envelope, now: Uint32): seq<I.Action>
    requires env.expiry < TWO_32 - 1
  {
    FirstLocks(env, now) + [I.Tick(env.expiry + 1)] + [I.Cycle([env.hash])] + [I.Lock(1)]
  }

  lemma SlowAddInsertsTwice(env: Envelope, now: Uint32)
    requires Gate.TimeGate(now, env.expiry, env.ttl).Continue? && env.expiry < TWO_32 - 1
    ensures I.Run(SlowAdd(env, now)).insertions == [env.hash, env.hash]
  {
    FirstInserted(env, now);
    InsertedAfter(FirstLocks(env, now), env, now);
  }

  lemma InsertedAfter(first: seq<I.Action>, env: Envelope, now: Uint32)
    requires env.expiry < TWO_32 - 1 && I.Run(first).pool.envelopes == map[env.hash := env]
    requires 1 in I.Run(first).ledger.calls && I.Run(first).ledger.calls[1] == I.Admitted(env, false)
    ensures I.Run(first + [I.Tick(env.expiry + 1)] + [I.Cycle([env.hash])] + [I.Lock(1)]).insertions
            == I.Run(first).insertions + [env.hash]
  {
    I.RunSound(first);
    RunThree(first, I.Tick(env.expiry + 1), I.Cycle([env.hash]), I.Lock(1));
    SecondInserted(I.Run(first), env, now);
  }

  lemma RunThree(acts: seq<I.Action>, a: I.Action, b: I.Action, c: I.Action)
    ensures I.Run(acts + [a] + [b] + [c]) == I.Step(I.Step(I.Step(I.Run(acts), a), b), c)
  {
    I.RunAppend(acts, a);
    I.RunAppend(acts + [a], b);
    I.RunAppend(acts + [a] + [b], c);
  }

  lemma FirstInserted(env: Envelope, now: Uint32)
    requires Gate.TimeGate(now, env.expiry, env.ttl).Continue?
    ensures var t := I.Run(FirstLocks(env, now));
            && t.insertions == [env.hash] && t.pool.envelopes == map[env.hash := env]
            && 1 in t.ledger.calls && t.ledger.calls[1] == I.Admitted(env, false)
  {
    BothWait(env, now);
    I.RunAppend(BothBegin(env, now), I.Lock(0));
    InsertsNext(I.Run(BothBegin(env, now)), 0, env, I.Run(FirstLocks(env, now)));
  }

  lemma SecondInserted(n: I.Node, env: Envelope, now: Uint32)
    requires env.expiry < TWO_32 - 1 && I.Sound(n) && n.pool.envelopes == map[env.hash := env]
    requires 1 in n.ledger.calls && n.ledger.calls[1] == I.Admitted(env, false)
    ensures I.Step(I.Step(I.Step(n, I.Tick(env.expiry + 1)), I.Cycle([env.hash])), I.Lock(1)).insertions
            == n.insertions + [env.hash]
  {
    var late := I.Step(n, I.Tick(env.expiry + 1));
    var empty := I.Step(late, I.Cycle([env.hash]));
    CycleEmpties(late, env, empty);
    InsertsNext(empty, 1, env, I.Step(empty, I.Lock(1)));
  }

  /** The pool has become empty, and nothing else has changed but the statistics. */
  ghost predicate Emptied(s: I.Node, t: I.Node) {
    t.pool.envelopes == map[] && t.ledger == s.ledger && t.insertions == s.insertions
  }

  lemma InsertsNext(n: I.Node, id: I.CallId, env: Envelope, t: I.Node)
    requires t == I.Step(n, I.Lock(id))
    requires id in n.ledger.calls && n.ledger.calls[id].Admitted? && n.pool.envelopes == map[]
    requires n.ledger.calls[id].env == env && !n.ledger.calls[id].isP2P
    ensures t.insertions == n.insertions + [env.hash] && t.pool.envelopes == map[env.hash := env]
    ensures t.ledger.calls == n.ledger.calls[id := I.Inserted(env, false)]
  {
  }

  lemma BothWait(env: Envelope, now: Uint32)
    requires Gate.TimeGate(now, env.expiry, env.ttl).Continue?
    ensures var n := I.Run(BothBegin(env, now));
            && n.pool == I.START.pool && n.insertions == []
            && n.ledger.calls == map[0 := I.Admitted(env, false), 1 := I.Admitted(env, false)]
  {
    var first := [I.Tick(now)];
    I.RunAppend([], first[0]);
    assert [] + first == first;
    I.RunAppend(first, I.Begin(0, env, false, true));
    I.RunAppend(first + [I.Begin(0, env, false, true)], I.Begin(1, env, false, true));
  }

  lemma CycleEmpties(n: I.Node, env: Envelope, t: I.Node)
    requires I.Sound(n) && n.pool.envelopes == map[env.hash := env] && env.expiry < n.clock
    requires t == I.Step(n, I.Cycle([env.hash]))
    ensures Emptied(n, t)
  {
    LastExpires(n.pool, n.clock, env);
  }

  lemma LastExpires(p: Pool.Pool, now: Uint32, env: Envelope)
    requires Pool.Indexed(p) && p.envelopes == map[env.hash := env] && env.expiry < now
    ensures Enumerates([env.hash], Pool.Stale(p, now))
    ensures Pool.Expire(p, now).Some? && Pool.Expire(p, now).value.envelopes == map[]
  {
    Pool.StaleExact(p, now);
    assert Pool.Stale(p, now) == {env.hash};
    Pool.ExpireKeepsIndex(p, now);
  }

  // ---- A digest forgotten as it is received ----

  function Lifted(nodeActs: seq<I.Action>): (acts: seq<Action>)
    ensures |acts| == |nodeActs| && forall i | 0 <= i < |acts| :: acts[i] == NodeStep(nodeActs[i])
  {
    seq(|nodeActs|, i requires 0 <= i < |nodeActs| => NodeStep(nodeActs[i]))
  }

  lemma {:induction false} LiftedRun(nodeActs: seq<I.Action>)
    ensures var s := Run(Lifted(nodeActs)); s.node == I.Run(nodeActs) && s.loop.Idle? && s.known == {} && s.sent == []
    decreases |nodeActs|
  {
    if nodeActs != [] {
      var n := |nodeActs| - 1;
      LiftedRun(nodeActs[..n]);
      assert Lifted(nodeActs)[..n] == Lifted(nodeActs[..n]);
    }
  }

  /** The loop finds a known digest missing, and before it forgets it a slow call of `add` inserts it again. */
  lemma ForgettingHappens(env: Envelope, now: Uint32) returns (acts: seq<Action>)
    requires Gate.TimeGate(now, env.expiry, env.ttl).Continue? && env.expiry < TWO_32 - 1
    ensures env.hash in Run(acts).node.pool.envelopes && AboutToForget(Run(acts), env.hash)
  {
    var a1 := Lifted(FirstLocks(env, now));
    LiftedRun(FirstLocks(env, now));
    FirstInserted(env, now);
    I.RunSound(FirstLocks(env, now));
    ComesBack(Run(a1).node, env);
    acts := a1 + [MarkReceived(env.hash)] + [NodeStep(I.Tick(env.expiry + 1))] + [NodeStep(I.Cycle([env.hash]))]
            + [CheckKnown(env.hash)] + [NodeStep(I.Lock(1))];
    ForgettingSteps(a1, env);
  }

  lemma ComesBack(n: I.Node, env: Envelope)
    requires env.expiry < TWO_32 - 1 && I.Sound(n) && n.pool.envelopes == map[env.hash := env]
    requires 1 in n.ledger.calls && n.ledger.calls[1] == I.Admitted(env, false)
    ensures var empty := I.Step(I.Step(n, I.Tick(env.expiry + 1)), I.Cycle([env.hash]));
            env.hash !in empty.pool.envelopes && env.hash in I.Step(empty, I.Lock(1)).pool.envelopes
  {
    var late := I.Step(n, I.Tick(env.expiry + 1));
    var empty := I.Step(late, I.Cycle([env.hash]));
    CycleEmpties(late, env, empty);
    InsertsNext(empty, 1, env, I.Step(empty, I.Lock(1)));
  }

  lemma ForgettingSteps(a1: seq<Action>, env: Envelope)
    requires env.expiry < TWO_32 - 1 && Run(a1).loop.Idle?
    requires var empty := I.Step(I.Step(Run(a1).node, I.Tick(env.expiry + 1)), I.Cycle([env.hash]));
             env.hash !in empty.pool.envelopes && env.hash in I.Step(empty, I.Lock(1)).pool.envelopes
    ensures var acts := a1 + [MarkReceived(env.hash)] + [NodeStep(I.Tick(env.expiry + 1))] + [NodeStep(I.Cycle([env.hash]))]
                        + [CheckKnown(env.hash)] + [NodeStep(I.Lock(1))];
            env.hash in Run(acts).node.pool.envelopes && AboutToForget(Run(acts), env.hash)
  {
    var a2 := a1 + [MarkReceived(env.hash)];
    var a3 := a2 + [NodeStep(I.Tick(env.expiry + 1))];
    var a4 := a3 + [NodeStep(I.Cycle([env.hash]))];
    var a5 := a4 + [CheckKnown(env.hash)];
    RunAppend(a1, MarkReceived(env.hash));
    RunAppend(a2, NodeStep(I.Tick(env.expiry + 1)));
    RunAppend(a3, NodeStep(I.Cycle([env.hash])));
    RunAppend(a4, CheckKnown(env.hash));
    RunAppend(a5, NodeStep(I.Lock(1)));
  }
}
