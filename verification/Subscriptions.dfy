/** Subscribing and the node's own topic filter: every subscription adds its topics to
    what the node asks its peers for. */
module Subscriptions {
  import opened Types
  import opened Bloom
  import Filters
  import Gate

  /** The positions needed for a list of topics. */
  ghost function Needed(topics: seq<Bytes>): set<nat> {
    set i, x | 0 <= i < |topics| && x in TopicMembers(Filters.ToTopic(topics[i])) :: x
  }

  /** Adds the topics of a new subscription to the node's filter, unless it already has them.
      An absent filter stays absent. `changed` tells whether peers are notified. */
  method UpdateBloomFilter(bloom: Option<Bloom>, topics: seq<Bytes>) returns (r: Option<Bloom>, changed: bool)
    ensures bloom.None? ==> r.None? && !changed
    ensures bloom.Some? ==> r.Some? && Members(r.value) == Members(bloom.value) + Needed(topics)
    ensures bloom.Some? ==> (changed <==> !(Needed(topics) <= Members(bloom.value)))
    ensures !changed ==> r == bloom
  {
    var aggregate: Bloom := Zeros(BLOOM_FILTER_SIZE);
    NoMembers(aggregate);
    assert topics[..0] == [];
    for i := 0 to |topics|
      invariant Members(aggregate) == Needed(topics[..i])
    {
      var top := Filters.BytesToTopic(topics[i]);
      var b := TopicToBloom(top);
      aggregate := AddBloom(aggregate, b);
      NeededStep(topics, i);
    }
    assert topics[..|topics|] == topics;
    var ok := BloomFilterMatch(bloom, aggregate);
    if !ok {
      var sum := AddBloom(bloom.value, aggregate);
      return Some(sum), true;
    }
    if bloom.Some? { assert Members(bloom.value) == Members(bloom.value) + Needed(topics); }
    return bloom, false;
  }

  lemma NeededStep(topics: seq<Bytes>, i: nat)
    requires i < |topics|
    ensures Needed(topics[..i + 1]) == Needed(topics[..i]) + TopicMembers(Filters.ToTopic(topics[i]))
  {
    var (more, less) := (topics[..i + 1], topics[..i]);
    assert more == less + [topics[i]];
    forall x | x in Needed(less) ensures x in Needed(more) {
      var k :| 0 <= k < |less| && x in TopicMembers(Filters.ToTopic(less[k]));
      assert more[k] == less[k];
    }
    forall x | x in TopicMembers(Filters.ToTopic(topics[i])) ensures x in Needed(more) {
      assert more[i] == topics[i];
    }
    forall x | x in Needed(more) ensures x in Needed(less) + TopicMembers(Filters.ToTopic(topics[i])) {
      var k :| 0 <= k < |more| && x in TopicMembers(Filters.ToTopic(more[k]));
      if k < i { assert more[k] == less[k]; }
    }
  }

  // ---- Runs ----

  /** The topics of each installed filter, and the positions of the node's filter, if it has one. */
  datatype Node = Node(topics: map<Filters.Id, seq<Bytes>>, bloom: Option<set<nat>>)

  datatype Action =
    | Subscribe(id: Filters.Id, topics: seq<Bytes>, oneKind: bool)
    | Unsubscribe(id: Filters.Id)
    | SetBloomFilter(bytes: Bytes)

  const START := Node(map[], None)

  ghost function Step(s: Node, a: Action): Node {
    match a
    case Subscribe(id, topics, oneKind) =>
      if !oneKind || id in s.topics then s
      else Node(s.topics[id := topics], if s.bloom.None? then None else Some(s.bloom.value + Needed(topics)))
    case Unsubscribe(id) => s.(topics := s.topics - {id})
    case SetBloomFilter(bytes) => if |bytes| != BLOOM_FILTER_SIZE then s else s.(bloom := Some(Members(bytes)))
  }

  ghost function Run(acts: seq<Action>): Node {
    if acts == [] then START else Step(Run(acts[..|acts| - 1]), acts[|acts| - 1])
  }

  // ---- Subscriptions and filter by the actions of a run ----

  /** The action asks for a subscription that the filter collection accepts. */
  predicate Asks(a: Action, id: Filters.Id) {
    a.Subscribe? && a.id == id && a.oneKind
  }

  /** Before step `k`, every subscription under this identifier was followed by its removal. */
  ghost predicate Free(acts: seq<Action>, k: nat, id: Filters.Id)
    requires k <= |acts|
  {
    forall j | 0 <= j < k && Asks(acts[j], id) :: exists u | j < u < k :: acts[u] == Unsubscribe(id)
  }

  /** Step `k` subscribes to these topics. */
  ghost predicate Subscribes(acts: seq<Action>, k: nat, id: Filters.Id, topics: seq<Bytes>)
    requires k < |acts|
  {
    acts[k] == Subscribe(id, topics, true) && Free(acts, k, id)
  }

  /** Some step subscribed to these topics, and no later step removed the subscription. */
  ghost predicate InForce(acts: seq<Action>, id: Filters.Id, topics: seq<Bytes>) {
    exists k | 0 <= k < |acts| :: Subscribes(acts, k, id, topics) && NotRemoved(acts, k, id)
  }

  ghost predicate NotRemoved(acts: seq<Action>, k: nat, id: Filters.Id) {
    forall u | k < u < |acts| :: acts[u] != Unsubscribe(id)
  }

  lemma FreeStep(acts: seq<Action>, a: Action, id: Filters.Id)
    ensures Free(acts + [a], |acts| + 1, id) <==> a == Unsubscribe(id) || (Free(acts, |acts|, id) && !Asks(a, id))
    ensures forall k: nat | k <= |acts| :: Free(acts + [a], k, id) <==> Free(acts, k, id)
  {
    var all := acts + [a];
    forall k: nat | k <= |acts| ensures Free(all, k, id) <==> Free(acts, k, id) { SameFree(acts, all, k, id); }
    if Free(all, |acts| + 1, id) && a != Unsubscribe(id) {
      forall j | 0 <= j < |acts| && Asks(acts[j], id) ensures exists u | j < u < |acts| :: acts[u] == Unsubscribe(id) {
        assert all[j] == acts[j];
        var u :| j < u < |acts| + 1 && all[u] == Unsubscribe(id);
        assert acts[u] == all[u];
      }
      assert !Asks(all[|acts|], id);
    }
    if Free(acts, |acts|, id) && !Asks(a, id) {
      forall j | 0 <= j < |all| && Asks(all[j], id) ensures exists u | j < u < |all| :: all[u] == Unsubscribe(id) {
        var u :| j < u < |acts| && acts[u] == Unsubscribe(id);
        assert all[u] == acts[u];
      }
    }
    if a == Unsubscribe(id) { assert all[|acts|] == a; }
  }

  lemma SameFree(acts: seq<Action>, all: seq<Action>, k: nat, id: Filters.Id)
    requires acts <= all && k <= |acts|
    ensures Free(all, k, id) <==> Free(acts, k, id)
  {
    assert forall j | 0 <= j < k :: all[j] == acts[j];
    if Free(acts, k, id) {
      forall j | 0 <= j < k && Asks(all[j], id) ensures exists u | j < u < k :: all[u] == Unsubscribe(id) {
        var u :| j < u < k && acts[u] == Unsubscribe(id);
        assert all[u] == acts[u];
      }
    }
    if Free(all, k, id) {
      forall j | 0 <= j < k && Asks(acts[j], id) ensures exists u | j < u < k :: acts[u] == Unsubscribe(id) {
        assert all[j] == acts[j];
        var u :| j < u < k && all[u] == Unsubscribe(id);
        assert all[u] == acts[u];
      }
    }
  }

  lemma InForceStep(acts: seq<Action>, a: Action, id: Filters.Id, topics: seq<Bytes>)
    ensures InForce(acts + [a], id, topics) <==>
            (a != Unsubscribe(id) && InForce(acts, id, topics))
            || (a == Subscribe(id, topics, true) && Free(acts, |acts|, id))
  {
    var all := acts + [a];
    FreeStep(acts, a, id);
    assert forall k | 0 <= k < |acts| :: all[k] == acts[k];
    if InForce(all, id, topics) {
      var k :| 0 <= k < |all| && Subscribes(all, k, id, topics) && NotRemoved(all, k, id);
      if k < |acts| {
        assert all[|acts|] != Unsubscribe(id);
        assert Subscribes(acts, k, id, topics) && NotRemoved(acts, k, id);
      }
    }
    if a != Unsubscribe(id) && InForce(acts, id, topics) {
      var k :| 0 <= k < |acts| && Subscribes(acts, k, id, topics) && NotRemoved(acts, k, id);
      assert Subscribes(all, k, id, topics) && NotRemoved(all, k, id);
    }
    if a == Subscribe(id, topics, true) && Free(acts, |acts|, id) {
      assert Subscribes(all, |acts|, id, topics) && NotRemoved(all, |acts|, id);
    }
  }

  lemma RunAppend(acts: seq<Action>, a: Action)
    ensures Run(acts + [a]) == Step(Run(acts), a)
  {
    assert (acts + [a])[..|acts|] == acts;
  }

  /** After every run the node has exactly the subscriptions that some step made and no later step removed. */
  lemma {:induction false} SubscribedExact(acts: seq<Action>, id: Filters.Id, topics: seq<Bytes>)
    ensures id in Run(acts).topics <==> !Free(acts, |acts|, id)
    ensures (id in Run(acts).topics && Run(acts).topics[id] == topics) <==> InForce(acts, id, topics)
    decreases |acts|
  {
    if acts != [] {
      SplitLast(acts);
      var (rest, a) := (acts[..|acts| - 1], acts[|acts| - 1]);
      SubscribedExact(rest, id, topics);
      FreeStep(rest, a, id);
      InForceStep(rest, a, id, topics);
      RunAppend(rest, a);
    }
  }

  /** A filter of the right size set directly. */
  predicate Sets(a: Action) {
    a.SetBloomFilter? && |a.bytes| == BLOOM_FILTER_SIZE
  }

  /** Step `j` subscribes to topics that need position `x`. */
  ghost predicate Adds(acts: seq<Action>, j: nat, x: nat)
    requires j < |acts|
  {
    acts[j].Subscribe? && Subscribes(acts, j, acts[j].id, acts[j].topics) && x in Needed(acts[j].topics)
  }

  /** Step `k` is the last that set a filter, and that filter has `x`, or a later subscription needs it. */
  ghost predicate AskedFor(acts: seq<Action>, x: nat) {
    exists k | 0 <= k < |acts| :: LastSetAt(acts, k) && Gives(acts, k, x)
  }

  ghost predicate LastSetAt(acts: seq<Action>, k: nat) {
    k < |acts| && Sets(acts[k]) && forall j | k < j < |acts| :: !Sets(acts[j])
  }

  ghost predicate Gives(acts: seq<Action>, k: nat, x: nat)
    requires k < |acts| && Sets(acts[k])
  {
    x in Members(acts[k].bytes) || exists j | k < j < |acts| :: Adds(acts, j, x)
  }

  lemma AskedForStep(acts: seq<Action>, a: Action, x: nat)
    ensures AskedFor(acts + [a], x) <==>
            if Sets(a) then x in Members(a.bytes)
            else AskedFor(acts, x) || ((exists k | 0 <= k < |acts| :: Sets(acts[k])) && Adds(acts + [a], |acts|, x))
  {
    var all := acts + [a];
    assert forall k | 0 <= k < |acts| :: all[k] == acts[k];
    forall j: nat | j < |acts| ensures Adds(all, j, x) <==> Adds(acts, j, x) {
      if acts[j].Subscribe? { FreeStep(acts, a, acts[j].id); }
    }
    if Sets(a) {
      assert all[|acts|] == a && LastSetAt(all, |acts|);
    } else if AskedFor(all, x) {
      AskedBefore(acts, a, x);
    } else if AskedFor(acts, x) || ((exists k | 0 <= k < |acts| :: Sets(acts[k])) && Adds(all, |acts|, x)) {
      AskedAfter(acts, a, x);
    }
  }

  lemma AskedBefore(acts: seq<Action>, a: Action, x: nat)
    requires !Sets(a) && AskedFor(acts + [a], x)
    requires forall j: nat | j < |acts| :: Adds(acts + [a], j, x) <==> Adds(acts, j, x)
    ensures AskedFor(acts, x) || ((exists k | 0 <= k < |acts| :: Sets(acts[k])) && Adds(acts + [a], |acts|, x))
  {
    var all := acts + [a];
    assert forall k | 0 <= k < |acts| :: all[k] == acts[k];
    var k :| 0 <= k < |all| && LastSetAt(all, k) && Gives(all, k, x);
    assert k < |acts| && LastSetAt(acts, k);
  }

  lemma AskedAfter(acts: seq<Action>, a: Action, x: nat)
    requires !Sets(a)
    requires AskedFor(acts, x) || ((exists k | 0 <= k < |acts| :: Sets(acts[k])) && Adds(acts + [a], |acts|, x))
    requires forall j: nat | j < |acts| :: Adds(acts + [a], j, x) <==> Adds(acts, j, x)
    ensures AskedFor(acts + [a], x)
  {
    var all := acts + [a];
    assert forall k | 0 <= k < |acts| :: all[k] == acts[k];
    if AskedFor(acts, x) {
      var k :| 0 <= k < |acts| && LastSetAt(acts, k) && Gives(acts, k, x);
      StillSet(acts, a, k);
      assert Gives(all, k, x);
    } else {
      var k := LastSet(acts);
      StillSet(acts, a, k);
      assert Gives(all, k, x) by { assert Adds(all, |acts|, x); }
    }
  }

  lemma StillSet(acts: seq<Action>, a: Action, k: nat)
    requires LastSetAt(acts, k) && !Sets(a)
    ensures LastSetAt(acts + [a], k)
  {
  }

  lemma {:induction false} LastSet(acts: seq<Action>) returns (k: nat)
    requires exists k | 0 <= k < |acts| :: Sets(acts[k])
    ensures LastSetAt(acts, k)
    decreases |acts|
  {
    k := |acts| - 1;
    if !Sets(acts[k]) {
      var i :| 0 <= i < |acts| && Sets(acts[i]);
      assert acts[..k][i] == acts[i];
      k := LastSet(acts[..k]);
    }
  }

  /** After every run the node asks for exactly the positions of the filter last set directly and of the
      subscriptions made since; before a filter is set it has none. */
  lemma {:induction false} BloomExact(acts: seq<Action>, x: nat)
    ensures Run(acts).bloom.Some? <==> exists k | 0 <= k < |acts| :: Sets(acts[k])
    ensures (Run(acts).bloom.Some? && x in Run(acts).bloom.value) <==> AskedFor(acts, x)
    decreases |acts|
  {
    if acts != [] {
      SplitLast(acts);
      var (rest, a) := (acts[..|acts| - 1], acts[|acts| - 1]);
      BloomExact(rest, x);
      AskedForStep(rest, a, x);
      RunAppend(rest, a);
      if a.Subscribe? { SubscribedExact(rest, a.id, a.topics); FreeStep(rest, a, a.id); }
      assert forall k | 0 <= k < |rest| :: acts[k] == rest[k];
    }
  }

  // ---- Coverage ----

  /** The node asks for every topic it subscribed to. */
  ghost predicate Covered(s: Node) {
    s.bloom.None? || forall id | id in s.topics :: Needed(s.topics[id]) <= s.bloom.value
  }

  /** A filter set directly contains what the subscriptions of the moment need. */
  ghost predicate Sufficient(s: Node, a: Action) {
    a.SetBloomFilter? && |a.bytes| == BLOOM_FILTER_SIZE ==>
      forall id | id in s.topics :: Needed(s.topics[id]) <= Members(a.bytes)
  }

  lemma StepCovered(s: Node, a: Action)
    requires Covered(s)
    ensures Covered(Step(s, a)) <==> Sufficient(s, a)
  {
  }

  /** Covered after every prefix of the run. */
  ghost predicate AlwaysCovered(acts: seq<Action>) {
    Covered(Run(acts)) && (acts != [] ==> AlwaysCovered(acts[..|acts| - 1]))
  }

  /** Sufficient at every step of the run. */
  ghost predicate AlwaysSufficient(acts: seq<Action>) {
    acts != [] ==>
      Sufficient(Run(acts[..|acts| - 1]), acts[|acts| - 1]) && AlwaysSufficient(acts[..|acts| - 1])
  }

  /** The node's filter covers its subscriptions throughout a run exactly when each filter
      set directly contains what the subscriptions of that moment need. */
  lemma {:induction false} CoverageExact(acts: seq<Action>)
    ensures AlwaysCovered(acts) <==> AlwaysSufficient(acts)
    decreases |acts|
  {
    if acts != [] {
      var rest := acts[..|acts| - 1];
      CoverageExact(rest);
      if Covered(Run(rest)) { StepCovered(Run(rest), acts[|acts| - 1]); }
    }
  }

  /** After the node has a filter, it passes the topic gate with every envelope on a subscribed topic. */
  lemma SubscribedTopicPasses(acts: seq<Action>, id: Filters.Id, i: nat, bloom: Option<Bloom>, tolerated: Option<Bloom>)
    requires AlwaysSufficient(acts)
    requires id in Run(acts).topics && i < |Run(acts).topics[id]|
    requires Run(acts).bloom == if bloom.None? then None else Some(Members(bloom.value))
    ensures Gate.BloomGate(bloom, tolerated, Filters.ToTopic(Run(acts).topics[id][i]))
  {
    CoverageExact(acts);
    var topics := Run(acts).topics[id];
    assert TopicMembers(Filters.ToTopic(topics[i])) <= Needed(topics);
  }

  /** Filters set directly only grow; an absent filter counts as full. */
  ghost predicate OnlyGrows(acts: seq<Action>) {
    acts != [] ==>
      var rest := acts[..|acts| - 1];
      var a := acts[|acts| - 1];
      && OnlyGrows(rest)
      && (a.SetBloomFilter? && |a.bytes| == BLOOM_FILTER_SIZE ==>
            (if Run(rest).bloom.None? then EVERY_POSITION else Run(rest).bloom.value) <= Members(a.bytes))
  }

  lemma {:induction false} GrowthSuffices(acts: seq<Action>)
    requires OnlyGrows(acts)
    ensures AlwaysCovered(acts)
    decreases |acts|
  {
    if acts != [] {
      var rest := acts[..|acts| - 1];
      var (s, a) := (Run(rest), acts[|acts| - 1]);
      GrowthSuffices(rest);
      StepCovered(s, a);
      if a.SetBloomFilter? && |a.bytes| == BLOOM_FILTER_SIZE {
        forall id | id in s.topics ensures Needed(s.topics[id]) <= Members(a.bytes) {
          NeededInRange(s.topics[id]);
        }
      }
    }
  }

  lemma NeededInRange(topics: seq<Bytes>)
    ensures Needed(topics) <= EVERY_POSITION
  {
  }
}
