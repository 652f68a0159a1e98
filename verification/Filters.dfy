/** The installed filters, the index that finds those interested in a topic, and the
    messages kept for each until they are retrieved. */
module Filters {
  import opened Types
  import opened Crypto
  import opened Delivery
  import Work

  type Id = string

  // ---- Topics ----

  /** Every position of a topic holds the byte given there, or zero; four bytes give the topic they are. */
  lemma TopicExact(b: Bytes, t: Topic)
    ensures ToTopic(b) == t <==> forall i | 0 <= i < 4 :: t.ToBytes()[i] == if i < |b| then b[i] else 0
    ensures ToTopic(t.ToBytes()) == t
  {
    var u := ToTopic(b);
    assert u.ToBytes()[0] == u.b0 && u.ToBytes()[1] == u.b1 && u.ToBytes()[2] == u.b2 && u.ToBytes()[3] == u.b3;
    assert t.ToBytes()[0] == t.b0 && t.ToBytes()[1] == t.b1 && t.ToBytes()[2] == t.b2 && t.ToBytes()[3] == t.b3;
  }

  /** The first four bytes, filled up with zeros. */
  function ToTopic(b: Bytes): Topic {
    Topic(if |b| > 0 then b[0] else 0, if |b| > 1 then b[1] else 0,
          if |b| > 2 then b[2] else 0, if |b| > 3 then b[3] else 0)
  }

  method BytesToTopic(b: Bytes) returns (t: Topic)
    ensures t == ToTopic(b)
  {
    var a := new Byte[4](_ => 0);
    var size := 4;
    if |b| < 4 {
      size := |b|;
    }
    for i := 0 to size
      invariant forall k | 0 <= k < 4 :: a[k] == if k < i then b[k] else 0
    {
      a[i] := b[i];
    }
    t := Topic(a[0], a[1], a[2], a[3]);
  }

  predicate HasTopic(topics: seq<Bytes>, t: Topic) {
    exists i | 0 <= i < |topics| :: ToTopic(topics[i]) == t
  }

  // ---- Stored messages ----

  /** A store after one more message: the first message of a digest stays. */
  function Stored(messages: map<Hash, Message>, m: Message): map<Hash, Message> {
    if m.hash in messages then messages else messages[m.hash := m]
  }

  function StoredAll(messages: map<Hash, Message>, ms: seq<Message>): map<Hash, Message> {
    if ms == [] then messages else Stored(StoredAll(messages, ms[..|ms| - 1]), ms[|ms| - 1])
  }

  /** Every message is kept under its own digest. */
  ghost predicate Keyed(messages: map<Hash, Message>) {
    forall h | h in messages :: messages[h].hash == h
  }

  /** What happens to a store: a message is added, or all are taken out. */
  datatype StoreOp = Add(m: Message) | Pop

  function StoreAfter(ops: seq<StoreOp>): map<Hash, Message> {
    if ops == [] then map[]
    else
      var last := ops[|ops| - 1];
      if last.Pop? then map[] else Stored(StoreAfter(ops[..|ops| - 1]), last.m)
  }

  /** The messages added since all were last taken out. */
  function Pending(ops: seq<StoreOp>): seq<Message> {
    if ops == [] || ops[|ops| - 1].Pop? then []
    else Pending(ops[..|ops| - 1]) + [ops[|ops| - 1].m]
  }

  /** After any run of additions and retrievals the store holds the digests added since the last retrieval,
      each with the message that came first, so that the next retrieval hands out each of them once. */
  lemma {:induction false} StoreRunExact(ops: seq<StoreOp>, h: Hash)
    ensures Keyed(StoreAfter(ops))
    ensures h in StoreAfter(ops) <==> exists i | 0 <= i < |Pending(ops)| :: Pending(ops)[i].hash == h
    ensures h in StoreAfter(ops) ==> FirstOf(Pending(ops), h, StoreAfter(ops)[h])
  {
    StoreKeyed(ops);
    StoreIsPending(ops);
    StoredAllExact(Pending(ops), h);
  }

  lemma {:induction false} StoreIsPending(ops: seq<StoreOp>)
    ensures StoreAfter(ops) == StoredAll(map[], Pending(ops))
    decreases |ops|
  {
    if ops != [] && ops[|ops| - 1].Add? {
      var n := |ops| - 1;
      StoreIsPending(ops[..n]);
      StoredOneMore(Pending(ops[..n]), ops[n].m);
    }
  }

  lemma StoredOneMore(ms: seq<Message>, m: Message)
    ensures StoredAll(map[], ms + [m]) == Stored(StoredAll(map[], ms), m)
  {
    assert (ms + [m])[..|ms|] == ms;
  }

  lemma {:induction false} StoreKeyed(ops: seq<StoreOp>)
    ensures Keyed(StoreAfter(ops))
    decreases |ops|
  {
    if ops != [] { StoreKeyed(ops[..|ops| - 1]); }
  }

  ghost predicate FirstOf(ms: seq<Message>, h: Hash, m: Message) {
    exists i | 0 <= i < |ms| :: ms[i] == m && m.hash == h && forall k | 0 <= k < i :: ms[k].hash != h
  }

  /** Between two retrievals every digest is kept once, with the message that came first. */
  lemma {:induction false} StoredAllExact(ms: seq<Message>, h: Hash)
    ensures h in StoredAll(map[], ms) <==> exists i | 0 <= i < |ms| :: ms[i].hash == h
    ensures h in StoredAll(map[], ms) ==> FirstOf(ms, h, StoredAll(map[], ms)[h])
    decreases |ms|
  {
    if ms != [] {
      var n := |ms| - 1;
      StoredAllExact(ms[..n], h);
      assert forall k | 0 <= k < n :: ms[..n][k] == ms[k];
      var before := StoredAll(map[], ms[..n]);
      if h in before {
        var i :| 0 <= i < n && ms[i] == before[h] && before[h].hash == h && forall k | 0 <= k < i :: ms[k].hash != h;
        assert ms[i].hash == h;
      } else if ms[n].hash == h {
        assert ms[n] == StoredAll(map[], ms)[h];
      }
    }
  }

  /** A filter as an object: other objects refer to it by identity. */
  class Watcher {
    const filter: Filter
    var symKeyHash: Hash
    var id: Id
    var messages: map<Hash, Message>

    constructor (filter: Filter)
      ensures this.filter == filter && messages == map[] && Valid()
    {
      this.filter := filter;
      symKeyHash, id, messages := ZERO_HASH, "", map[];
    }

    ghost predicate Valid()
      reads this`messages
    {
      Keyed(messages)
    }

    method Trigger(m: Message)
      modifies this`messages
      ensures messages == Stored(old(messages), m)
      ensures old(Valid()) ==> Valid()
    {
      if m.hash !in messages {
        messages := messages[m.hash := m];
      }
    }

    /** Hands out every stored message once and empties the store. */
    method Retrieve() returns (all: seq<Message>)
      requires Valid()
      modifies this`messages
      ensures messages == map[] && Valid()
      ensures Enumerates(Digests(all), old(messages).Keys)
      ensures forall m | m in all :: m.hash in old(messages) && old(messages)[m.hash] == m
    {
      all := [];
      ghost var before := messages;
      ghost var out: set<Hash> := {};
      while messages != map[]
        invariant messages == before - out && out <= before.Keys
        invariant Enumerates(Digests(all), out)
        invariant forall m | m in all :: m.hash in before && before[m.hash] == m
        decreases before.Keys - out
      {
        var h :| h in messages;
        var m := messages[h];
        EnumerateOneMore(Digests(all), out, h);
        assert Digests(all + [m]) == Digests(all) + [h];
        messages := messages - {h};
        all := all + [m];
        out := out + {h};
      }
      Emptied(before, out);
    }
  }

  lemma Emptied(m: map<Hash, Message>, out: set<Hash>)
    requires m - out == map[] && out <= m.Keys
    ensures out == m.Keys
  {
    assert m.Keys == out + (m - out).Keys;
  }

  ghost function Digests(ms: seq<Message>): seq<Hash> {
    seq(|ms|, i requires 0 <= i < |ms| => ms[i].hash)
  }

  // ---- The index ----

  datatype Index = Index(
    watchers: map<Id, Watcher>,
    topicMatcher: map<Topic, set<Watcher>>,
    allTopicsMatcher: set<Watcher>)
  {
    /** What the index finds for a topic. */
    ghost function Found(t: Topic): set<Watcher> {
      allTopicsMatcher + Bucket(topicMatcher, t)
    }
  }

  function Bucket(m: map<Topic, set<Watcher>>, t: Topic): set<Watcher> {
    if t in m then m[t] else {}
  }

  predicate Interested(w: Watcher, t: Topic) {
    w.filter.topics == [] || HasTopic(w.filter.topics, t)
  }

  /** What a scan of all installed filters finds for a topic. */
  ghost function Scan(watchers: map<Id, Watcher>, t: Topic): set<Watcher> {
    set id | id in watchers && Interested(watchers[id], t) :: watchers[id]
  }

  lemma ScanFindsInstalled(watchers: map<Id, Watcher>, t: Topic)
    ensures Scan(watchers, t) <= watchers.Values
  {
  }

  ghost function ToEveryTopic(watchers: map<Id, Watcher>): set<Watcher> {
    set id | id in watchers && watchers[id].filter.topics == [] :: watchers[id]
  }

  ghost function ToTopicOnly(watchers: map<Id, Watcher>, t: Topic): set<Watcher> {
    set id | id in watchers && HasTopic(watchers[id].filter.topics, t) :: watchers[id]
  }

  /** The two parts of the index hold exactly the installed filters they should. */
  ghost predicate Exact(x: Index) {
    && x.allTopicsMatcher == ToEveryTopic(x.watchers)
    && forall t :: Bucket(x.topicMatcher, t) == ToTopicOnly(x.watchers, t)
  }

  /** An exact index finds what a scan finds, and finds nothing twice. */
  lemma ExactFindsScan(x: Index, t: Topic)
    requires Exact(x)
    ensures x.Found(t) == Scan(x.watchers, t) && x.allTopicsMatcher !! Bucket(x.topicMatcher, t)
  {
  }

  /** `addTopicMatcher` and `removeFromTopicMatchers` for the first `n` topics of a filter. */
  function AddTopics(m: map<Topic, set<Watcher>>, w: Watcher, n: nat): map<Topic, set<Watcher>>
    requires n <= |w.filter.topics|
  {
    if n == 0 then m
    else
      var before := AddTopics(m, w, n - 1);
      var t := ToTopic(w.filter.topics[n - 1]);
      before[t := Bucket(before, t) + {w}]
  }

  function RemoveTopics(m: map<Topic, set<Watcher>>, w: Watcher, n: nat): map<Topic, set<Watcher>>
    requires n <= |w.filter.topics|
  {
    if n == 0 then m
    else
      var before := RemoveTopics(m, w, n - 1);
      var t := ToTopic(w.filter.topics[n - 1]);
      if t in before then before[t := before[t] - {w}] else before
  }

  lemma {:induction false} AddTopicsBucket(m: map<Topic, set<Watcher>>, w: Watcher, n: nat, t: Topic)
    requires n <= |w.filter.topics|
    ensures Bucket(AddTopics(m, w, n), t) == Bucket(m, t) + if HasTopic(w.filter.topics[..n], t) then {w} else {}
  {
    if n > 0 {
      AddTopicsBucket(m, w, n - 1, t);
      LastTopic(w.filter.topics, n, t);
    }
  }

  lemma {:induction false} RemoveTopicsBucket(m: map<Topic, set<Watcher>>, w: Watcher, n: nat, t: Topic)
    requires n <= |w.filter.topics|
    ensures Bucket(RemoveTopics(m, w, n), t) == Bucket(m, t) - if HasTopic(w.filter.topics[..n], t) then {w} else {}
  {
    if n > 0 {
      RemoveTopicsBucket(m, w, n - 1, t);
      LastTopic(w.filter.topics, n, t);
    }
  }

  lemma LastTopic(topics: seq<Bytes>, n: nat, t: Topic)
    requires 0 < n <= |topics|
    ensures HasTopic(topics[..n], t) <==> HasTopic(topics[..n - 1], t) || ToTopic(topics[n - 1]) == t
  {
    assert topics[..n] == topics[..n - 1] + [topics[n - 1]];
    if HasTopic(topics[..n - 1], t) {
      var i :| 0 <= i < n - 1 && ToTopic(topics[..n - 1][i]) == t;
      assert ToTopic(topics[..n][i]) == t;
    }
    if ToTopic(topics[n - 1]) == t { assert ToTopic(topics[..n][n - 1]) == t; }
    if HasTopic(topics[..n], t) {
      var i :| 0 <= i < n && ToTopic(topics[..n][i]) == t;
      if i < n - 1 { assert ToTopic(topics[..n - 1][i]) == t; }
    }
  }

  function InstallIndex(x: Index, id: Id, w: Watcher): Index {
    Index(x.watchers[id := w],
          if w.filter.topics == [] then x.topicMatcher else AddTopics(x.topicMatcher, w, |w.filter.topics|),
          if w.filter.topics == [] then x.allTopicsMatcher + {w} else x.allTopicsMatcher)
  }

  function UninstallIndex(x: Index, id: Id): Index {
    if id !in x.watchers then x
    else
      var w := x.watchers[id];
      Index(x.watchers - {id}, RemoveTopics(x.topicMatcher, w, |w.filter.topics|), x.allTopicsMatcher - {w})
  }

  lemma InstallKeepsExact(x: Index, id: Id, w: Watcher)
    requires Exact(x) && id !in x.watchers
    ensures Exact(InstallIndex(x, id, w))
  {
    var y := InstallIndex(x, id, w);
    assert w.filter.topics[..|w.filter.topics|] == w.filter.topics;
    forall u | u in x.watchers.Values + {w} ensures (exists i :: i in y.watchers && y.watchers[i] == u) {
      if u in x.watchers.Values {
        var i :| i in x.watchers && x.watchers[i] == u;
        assert y.watchers[i] == u;
      } else {
        assert y.watchers[id] == u;
      }
    }
    InstallScans(x.watchers, id, w);
    forall t ensures Bucket(y.topicMatcher, t) == ToTopicOnly(y.watchers, t) {
      AddTopicsBucket(x.topicMatcher, w, |w.filter.topics|, t);
    }
  }

  lemma InstallScans(watchers: map<Id, Watcher>, id: Id, w: Watcher)
    requires id !in watchers
    ensures ToEveryTopic(watchers[id := w]) == ToEveryTopic(watchers) + if w.filter.topics == [] then {w} else {}
    ensures forall t :: ToTopicOnly(watchers[id := w], t) ==
                        ToTopicOnly(watchers, t) + if HasTopic(w.filter.topics, t) then {w} else {}
  {
    var after := watchers[id := w];
    forall i | i in watchers ensures after[i] == watchers[i] {
    }
    assert after[id] == w;
  }

  /** Is the filter installed under another identifier as well? */
  ghost predicate InstalledTwice(watchers: map<Id, Watcher>, id: Id)
    requires id in watchers
  {
    exists other :: other in watchers && other != id && watchers[other] == watchers[id]
  }

  lemma UninstallScans(watchers: map<Id, Watcher>, id: Id)
    requires id in watchers && !InstalledTwice(watchers, id)
    ensures ToEveryTopic(watchers - {id}) == ToEveryTopic(watchers) - {watchers[id]}
    ensures forall t :: ToTopicOnly(watchers - {id}, t) == ToTopicOnly(watchers, t) - {watchers[id]}
  {
    var after := watchers - {id};
    forall i | i in after ensures watchers[i] == after[i] && after[i] != watchers[id] {
      assert i in watchers && i != id;
    }
    forall i | i in watchers && watchers[i] != watchers[id] ensures i in after {
    }
  }

  /** Removing a filter keeps the index exact exactly when it is not installed a second time. */
  lemma UninstallExactly(x: Index, id: Id)
    requires Exact(x) && id in x.watchers
    ensures Exact(UninstallIndex(x, id)) <==> !InstalledTwice(x.watchers, id)
  {
    var (y, w) := (UninstallIndex(x, id), x.watchers[id]);
    var n := |w.filter.topics|;
    assert w.filter.topics[..n] == w.filter.topics;
    if !InstalledTwice(x.watchers, id) {
      UninstallScans(x.watchers, id);
      forall t ensures Bucket(y.topicMatcher, t) == ToTopicOnly(y.watchers, t) {
        RemoveTopicsBucket(x.topicMatcher, w, n, t);
      }
    } else {
      LostFilter(x, id);
    }
  }

  /** A filter left installed under another identifier is no longer found. */
  lemma LostFilter(x: Index, id: Id)
    requires Exact(x) && id in x.watchers && InstalledTwice(x.watchers, id)
    ensures !Exact(UninstallIndex(x, id))
    ensures exists t :: x.watchers[id] in Scan(UninstallIndex(x, id).watchers, t) - UninstallIndex(x, id).Found(t)
  {
    var (y, w) := (UninstallIndex(x, id), x.watchers[id]);
    var other :| other in x.watchers && other != id && x.watchers[other] == w;
    assert y.watchers[other] == w;
    var n := |w.filter.topics|;
    assert w.filter.topics[..n] == w.filter.topics;
    var t := if n == 0 then ToTopic([]) else ToTopic(w.filter.topics[0]);
    RemoveTopicsBucket(x.topicMatcher, w, n, t);
    if n > 0 { assert HasTopic(w.filter.topics, t); }
    assert w in Scan(y.watchers, t) && w !in y.Found(t);
    if Exact(y) { ExactFindsScan(y, t); }
  }

  // ---- Runs ----

  datatype Op = Install(id: Id, w: Watcher) | Uninstall(id: Id)

  /** A filter with two kinds of keys, or an identifier already in use, is refused. */
  function Apply(x: Index, op: Op): Index {
    match op
    case Install(id, w) => if !w.filter.OneKind() || id in x.watchers then x else InstallIndex(x, id, w)
    case Uninstall(id) => UninstallIndex(x, id)
  }

  function ApplyAll(ops: seq<Op>): Index {
    if ops == [] then Index(map[], map[], {}) else Apply(ApplyAll(ops[..|ops| - 1]), ops[|ops| - 1])
  }

  /** Whatever is in the index is installed and belongs there. */
  ghost predicate Sound(x: Index) {
    && x.allTopicsMatcher <= ToEveryTopic(x.watchers)
    && forall t :: Bucket(x.topicMatcher, t) <= ToTopicOnly(x.watchers, t)
  }

  /** A sound index finds no filter that a scan does not find, and finds nothing twice. */
  lemma SoundFindsInstalled(x: Index, t: Topic)
    requires Sound(x)
    ensures x.Found(t) <= Scan(x.watchers, t) <= x.watchers.Values
    ensures x.allTopicsMatcher !! Bucket(x.topicMatcher, t)
  {
    assert Bucket(x.topicMatcher, t) <= ToTopicOnly(x.watchers, t);
  }

  /** An index that is sound is exact exactly when it finds for every topic what a scan finds. */
  lemma SoundIsExact(x: Index)
    requires Sound(x)
    ensures Exact(x) <==> forall t :: x.Found(t) == Scan(x.watchers, t)
  {
    if forall t :: x.Found(t) == Scan(x.watchers, t) {
      forall w | w in ToEveryTopic(x.watchers) ensures w in x.allTopicsMatcher {
        EveryTopicFound(x, w);
      }
      forall t, w | w in ToTopicOnly(x.watchers, t) ensures w in Bucket(x.topicMatcher, t) {
        assert w in Scan(x.watchers, t) && Scan(x.watchers, t) == x.Found(t);
      }
    }
  }

  lemma EveryTopicFound(x: Index, w: Watcher)
    requires Sound(x) && w in ToEveryTopic(x.watchers) && forall t :: x.Found(t) == Scan(x.watchers, t)
    ensures w in x.allTopicsMatcher
  {
    var t := ToTopic([]);
    assert w in Scan(x.watchers, t) && Scan(x.watchers, t) == x.Found(t);
    assert Bucket(x.topicMatcher, t) <= ToTopicOnly(x.watchers, t);
  }

  lemma InstallKeepsSound(x: Index, id: Id, w: Watcher)
    requires Sound(x) && id !in x.watchers
    ensures Sound(InstallIndex(x, id, w))
  {
    var y := InstallIndex(x, id, w);
    assert w.filter.topics[..|w.filter.topics|] == w.filter.topics;
    InstallScans(x.watchers, id, w);
    forall t ensures Bucket(y.topicMatcher, t) <= ToTopicOnly(y.watchers, t) {
      AddTopicsBucket(x.topicMatcher, w, |w.filter.topics|, t);
      assert Bucket(x.topicMatcher, t) <= ToTopicOnly(x.watchers, t);
    }
  }

  lemma UninstallKeepsSound(x: Index, id: Id)
    requires Sound(x)
    ensures Sound(UninstallIndex(x, id))
  {
    if id in x.watchers {
      var (y, w) := (UninstallIndex(x, id), x.watchers[id]);
      assert w.filter.topics[..|w.filter.topics|] == w.filter.topics;
      forall u | u in x.watchers.Values && u != w ensures StillThere(x.watchers, id, u) {
        RemainsInstalled(x.watchers, id, u);
      }
      forall t ensures Bucket(y.topicMatcher, t) <= ToTopicOnly(y.watchers, t) {
        RemoveTopicsBucket(x.topicMatcher, w, |w.filter.topics|, t);
        forall u | u in Bucket(y.topicMatcher, t) ensures u in ToTopicOnly(y.watchers, t) {
          assert u in ToTopicOnly(x.watchers, t) && StillThere(x.watchers, id, u);
        }
      }
      forall u | u in y.allTopicsMatcher ensures u in ToEveryTopic(y.watchers) {
        assert StillThere(x.watchers, id, u);
      }
    }
  }

  ghost predicate StillThere(watchers: map<Id, Watcher>, id: Id, u: Watcher) {
    exists other :: other in watchers - {id} && (watchers - {id})[other] == u
  }

  lemma RemainsInstalled(watchers: map<Id, Watcher>, id: Id, u: Watcher)
    requires id in watchers && u in watchers.Values && u != watchers[id]
    ensures StillThere(watchers, id, u)
  {
    var other :| other in watchers && watchers[other] == u;
    assert other in watchers - {id};
  }

  /** Every run keeps the index sound. */
  lemma {:induction false} RunSound(ops: seq<Op>)
    ensures Sound(ApplyAll(ops))
    decreases |ops|
  {
    if ops != [] {
      var n := |ops| - 1;
      RunSound(ops[..n]);
      match ops[n]
      case Install(id, w) => if id !in ApplyAll(ops[..n]).watchers { InstallKeepsSound(ApplyAll(ops[..n]), id, w); }
      case Uninstall(id) => UninstallKeepsSound(ApplyAll(ops[..n]), id);
    }
  }

  // ---- Exactly when the index is right ----

  /** Removes a filter that is installed a second time. */
  ghost predicate RemovesDoubled(x: Index, op: Op) {
    op.Uninstall? && op.id in x.watchers && InstalledTwice(x.watchers, op.id)
  }

  lemma StepExactly(x: Index, op: Op)
    requires Exact(x)
    ensures Exact(Apply(x, op)) <==> !RemovesDoubled(x, op)
  {
    match op
    case Install(id, w) => if id !in x.watchers { InstallKeepsExact(x, id, w); }
    case Uninstall(id) => if id in x.watchers { UninstallExactly(x, id); }
  }

  /** After every prefix of a run the index finds for every topic what a scan of all filters finds. */
  ghost predicate AlwaysFinds(ops: seq<Op>) {
    && (forall t :: ApplyAll(ops).Found(t) == Scan(ApplyAll(ops).watchers, t))
    && (ops != [] ==> AlwaysFinds(ops[..|ops| - 1]))
  }

  /** No step of a run removes a filter that is installed a second time. */
  ghost predicate NeverRemovesDoubled(ops: seq<Op>) {
    ops != [] ==>
      !RemovesDoubled(ApplyAll(ops[..|ops| - 1]), ops[|ops| - 1]) && NeverRemovesDoubled(ops[..|ops| - 1])
  }

  /** The index is right throughout a run exactly when no filter is removed while it is installed twice. */
  lemma {:induction false} IndexRefinesScan(ops: seq<Op>)
    ensures AlwaysFinds(ops) <==> NeverRemovesDoubled(ops)
    decreases |ops|
  {
    RunSound(ops);
    SoundIsExact(ApplyAll(ops));
    if ops != [] {
      var rest := ops[..|ops| - 1];
      RunSound(rest);
      SoundIsExact(ApplyAll(rest));
      IndexRefinesScan(rest);
      if Exact(ApplyAll(rest)) { StepExactly(ApplyAll(rest), ops[|ops| - 1]); }
    }
  }

  /** The last step that installed or removed the filter, under any identifier, installed it. */
  ghost predicate LastInstalled(ops: seq<Op>, w: Watcher) {
    if ops == [] then false
    else
      var (rest, op) := (ops[..|ops| - 1], ops[|ops| - 1]);
      match op
      case Install(id, u) =>
        (u == w && u.filter.OneKind() && id !in ApplyAll(rest).watchers) || LastInstalled(rest, w)
      case Uninstall(id) =>
        !(id in ApplyAll(rest).watchers && ApplyAll(rest).watchers[id] == w) && LastInstalled(rest, w)
  }

  /** What the index finds after any run at all: the interested filters that were installed last and
      not removed since, whatever other identifiers they were installed under. */
  lemma {:induction false} FoundExactly(ops: seq<Op>, w: Watcher, t: Topic)
    ensures w in ApplyAll(ops).Found(t) <==> Interested(w, t) && LastInstalled(ops, w)
    ensures ApplyAll(ops).allTopicsMatcher !! Bucket(ApplyAll(ops).topicMatcher, t)
    decreases |ops|
  {
    RunSound(ops);
    SoundFindsInstalled(ApplyAll(ops), t);
    if ops != [] {
      var (rest, op) := (ops[..|ops| - 1], ops[|ops| - 1]);
      RunSound(rest);
      FoundExactly(rest, w, t);
      StepFinds(ApplyAll(rest), op, w, t);
    }
  }

  /** What one step does to what is found. */
  lemma StepFinds(x: Index, op: Op, w: Watcher, t: Topic)
    requires Sound(x)
    ensures op.Install? && op.w.filter.OneKind() && op.id !in x.watchers ==>
      (w in Apply(x, op).Found(t) <==> w in x.Found(t) || (w == op.w && Interested(w, t)))
    ensures op.Install? && !(op.w.filter.OneKind() && op.id !in x.watchers) ==> Apply(x, op) == x
    ensures op.Uninstall? ==>
      (w in Apply(x, op).Found(t) <==> w in x.Found(t) && !(op.id in x.watchers && x.watchers[op.id] == w))
  {
    match op
    case Install(id, u) =>
      assert u.filter.topics[..|u.filter.topics|] == u.filter.topics;
      AddTopicsBucket(x.topicMatcher, u, |u.filter.topics|, t);
    case Uninstall(id) =>
      SoundFindsInstalled(x, t);
      if id in x.watchers {
        var u := x.watchers[id];
        assert u.filter.topics[..|u.filter.topics|] == u.filter.topics;
        RemoveTopicsBucket(x.topicMatcher, u, |u.filter.topics|, t);
        assert Bucket(x.topicMatcher, t) <= ToTopicOnly(x.watchers, t);
      }
  }

  /** No filter is installed while it is installed. */
  ghost predicate OneAtATime(ops: seq<Op>) {
    ops != [] ==>
      var (rest, op) := (ops[..|ops| - 1], ops[|ops| - 1]);
      OneAtATime(rest) && (op.Install? ==> op.w !in ApplyAll(rest).watchers.Values)
  }

  ghost predicate Distinct(watchers: map<Id, Watcher>) {
    forall id | id in watchers :: !InstalledTwice(watchers, id)
  }

  lemma {:induction false} OneAtATimeDistinct(ops: seq<Op>)
    requires OneAtATime(ops)
    ensures Distinct(ApplyAll(ops).watchers) && NeverRemovesDoubled(ops)
    decreases |ops|
  {
    if ops != [] {
      OneAtATimeDistinct(ops[..|ops| - 1]);
      StepDistinct(ApplyAll(ops[..|ops| - 1]), ops[|ops| - 1]);
    }
  }

  lemma StepDistinct(x: Index, op: Op)
    requires Distinct(x.watchers) && (op.Install? ==> op.w !in x.watchers.Values)
    ensures Distinct(Apply(x, op).watchers)
  {
    var y := Apply(x, op).watchers;
    forall id | id in y ensures !InstalledTwice(y, id) {
      if id in x.watchers { assert !InstalledTwice(x.watchers, id); }
    }
  }

  /** With one installation at a time, in particular, the index is right. */
  lemma OneAtATimeFinds(ops: seq<Op>)
    requires OneAtATime(ops)
    ensures AlwaysFinds(ops)
  {
    OneAtATimeDistinct(ops);
    IndexRefinesScan(ops);
  }

  // ---- The collection as an object ----

  ghost function FiltersOf(ws: seq<Watcher>): (fs: seq<Filter>)
    ensures |fs| == |ws| && forall i | 0 <= i < |ws| :: fs[i] == ws[i].filter
  {
    seq(|ws|, i requires 0 <= i < |ws| => ws[i].filter)
  }

  /** A store after the loop has passed: grown by the message handed over, if there was one. */
  function Handed(messages: map<Hash, Message>, m: Option<Message>): (r: map<Hash, Message>)
    ensures r.Keys == messages.Keys + if m.Some? then {m.value.hash} else {}
    ensures forall h | h in messages :: r[h] == messages[h]
    ensures m.Some? && m.value.hash !in messages ==> r[m.value.hash] == m.value
  {
    if m.None? then messages else Stored(messages, m.value)
  }

  class Filters {
    var watchers: map<Id, Watcher>
    var topicMatcher: map<Topic, set<Watcher>>
    var allTopicsMatcher: set<Watcher>

    ghost function View(): Index
      reads this
    {
      Index(watchers, topicMatcher, allTopicsMatcher)
    }

    constructor ()
      ensures View() == Index(map[], map[], {}) && Sound(View()) && Exact(View())
    {
      watchers, topicMatcher, allTopicsMatcher := map[], map[], {};
    }

    method Install(c: Crypto, w: Watcher, id: Id) returns (ok: bool)
      requires Sound(View())
      modifies this, w`symKeyHash, w`id
      ensures View() == Apply(old(View()), Op.Install(id, w)) && Sound(View())
      ensures old(Exact(View())) ==> Exact(View())
      ensures ok <==> w.filter.OneKind() && id !in old(watchers)
      ensures ok ==> w.id == id && (w.filter.keySym.Some? ==> w.symKeyHash == KeyDigest(c, w.filter))
    {
      if w.filter.keySym.Some? && w.filter.keyAsym.Some? {
        return false;
      }
      if id in watchers {
        return false;
      }
      InstallKeepsSound(View(), id, w);
      ghost var before := View();
      if Exact(before) { InstallKeepsExact(before, id, w); }
      if w.filter.keySym.Some? {
        w.symKeyHash := c.digest(w.filter.keySym.value);
      }
      w.id := id;
      watchers := watchers[id := w];
      AddTopicMatcher(w);
      return true;
    }

    method AddTopicMatcher(w: Watcher)
      modifies this`topicMatcher, this`allTopicsMatcher
      ensures w.filter.topics == [] ==> topicMatcher == old(topicMatcher) && allTopicsMatcher == old(allTopicsMatcher) + {w}
      ensures w.filter.topics != [] ==>
        topicMatcher == AddTopics(old(topicMatcher), w, |w.filter.topics|) && allTopicsMatcher == old(allTopicsMatcher)
    {
      if |w.filter.topics| == 0 {
        allTopicsMatcher := allTopicsMatcher + {w};
      } else {
        for i := 0 to |w.filter.topics|
          invariant topicMatcher == AddTopics(old(topicMatcher), w, i)
          invariant allTopicsMatcher == old(allTopicsMatcher)
        {
          var topic := BytesToTopic(w.filter.topics[i]);
          if topic !in topicMatcher {
            topicMatcher := topicMatcher[topic := {}];
          }
          topicMatcher := topicMatcher[topic := topicMatcher[topic] + {w}];
        }
      }
    }

    method RemoveFromTopicMatchers(w: Watcher)
      modifies this`topicMatcher, this`allTopicsMatcher
      ensures topicMatcher == RemoveTopics(old(topicMatcher), w, |w.filter.topics|)
      ensures allTopicsMatcher == old(allTopicsMatcher) - {w}
    {
      allTopicsMatcher := allTopicsMatcher - {w};
      for i := 0 to |w.filter.topics|
        invariant topicMatcher == RemoveTopics(old(topicMatcher), w, i)
        invariant allTopicsMatcher == old(allTopicsMatcher) - {w}
      {
        var topic := BytesToTopic(w.filter.topics[i]);
        if topic in topicMatcher {
          topicMatcher := topicMatcher[topic := topicMatcher[topic] - {w}];
        }
      }
    }

    method Uninstall(id: Id) returns (ok: bool)
      requires Sound(View())
      modifies this
      ensures ok <==> id in old(watchers)
      ensures View() == Apply(old(View()), Op.Uninstall(id)) && Sound(View())
      ensures old(Exact(View())) ==> (Exact(View()) <==> !(ok && InstalledTwice(old(watchers), id)))
    {
      if id in watchers {
        UninstallKeepsSound(View(), id);
        ghost var before := View();
        if Exact(before) { UninstallExactly(before, id); }
        RemoveFromTopicMatchers(watchers[id]);
        watchers := watchers - {id};
        return true;
      }
      return false;
    }

    /** The filters the index finds, each once; from an exact index, those that a scan finds. */
    method GetWatchersByTopic(t: Topic) returns (res: seq<Watcher>)
      requires Sound(View())
      ensures Enumerates(res, View().Found(t))
      ensures Exact(View()) ==> Enumerates(res, Scan(watchers, t))
    {
      res := Append([], allTopicsMatcher, {});
      var bucket := if t in topicMatcher then topicMatcher[t] else {};
      SoundFindsInstalled(View(), t);
      if Exact(View()) { ExactFindsScan(View(), t); }
      res := Append(res, bucket, {} + allTopicsMatcher);
    }

    static method Append(res: seq<Watcher>, more: set<Watcher>, ghost so: set<Watcher>) returns (all: seq<Watcher>)
      requires Enumerates(res, so) && so !! more
      ensures Enumerates(all, so + more)
    {
      all := res;
      var todo := more;
      ghost var done := so;
      while todo != {}
        invariant todo <= more && todo !! done && so <= done <= so + more <= done + todo
        invariant Enumerates(all, done)
        decreases todo
      {
        var w :| w in todo;
        EnumerateOneMore(all, done, w);
        all := all + [w];
        done := done + {w};
        todo := todo - {w};
      }
      assert done == so + more;
    }

    /** One turn of the delivery loop. */
    static method Offer(c: Crypto, x: Parcel, w: Watcher, before: Progress) returns (after: Progress)
      requires w.filter.keySym.Some? ==> w.symKeyHash == KeyDigest(c, w.filter)
      modifies w`messages
      ensures after == Visit(c, x, before, w.filter).0
      ensures w.messages == Handed(old(w.messages), Visit(c, x, before, w.filter).1)
    {
      after := before;
      if x.p2p && !w.filter.allowP2P {
        return;
      }
      var matches;
      if before.msg.Some? {
        matches := MatchMessage(c, w.filter, w.symKeyHash, before.msg.value);
      } else {
        matches := MatchEnvelope(w.filter, before.cached);
        if matches {
          var msg := Open(c, x.env, w.filter, Reported(x, before.cached));
          if msg.Some? {
            after := Progress(msg, Reported(x, before.cached));
          }
        }
      }
      if matches && after.msg.Some? {
        if FromExpectedSource(w.filter, after.msg.value) {
          w.Trigger(after.msg.value.(p2p := x.p2p));
        }
      }
    }

    /** The delivery loop over a list of distinct filters. */
    static method OfferAll(c: Crypto, x: Parcel, cached: Work.Work, visited: seq<Watcher>)
      requires NoDuplicates(visited)
      requires forall w | w in visited :: w.filter.keySym.Some? ==> w.symKeyHash == KeyDigest(c, w.filter)
      modifies (set w | w in visited)`messages
      ensures forall i | 0 <= i < |visited| ::
        visited[i].messages ==
        Handed(old(visited[i].messages), Deliveries(c, x, Progress(None, cached), FiltersOf(visited))[i])
    {
      var state := Progress(None, cached);
      ghost var fs := FiltersOf(visited);
      ghost var handed := Deliveries(c, x, state, fs);
      for i := 0 to |visited|
        invariant state == StateAfter(c, x, Progress(None, cached), fs, i)
        invariant forall k | 0 <= k < i :: visited[k].messages == Handed(old(visited[k].messages), handed[k])
        invariant forall k | i <= k < |visited| :: visited[k].messages == old(visited[k].messages)
      {
        HandedAt(c, x, Progress(None, cached), fs, i);
        state := Offer(c, x, visited[i], state);
      }
    }

    /** Offers an envelope to the filters found, in some order, `visited`; other stores are left alone. */
    method NotifyWatchers(c: Crypto, x: Parcel, cached: Work.Work) returns (visited: seq<Watcher>)
      requires Sound(View())
      requires forall w | w in watchers.Values :: w.filter.keySym.Some? ==> w.symKeyHash == KeyDigest(c, w.filter)
      modifies watchers.Values`messages
      ensures Enumerates(visited, View().Found(x.env.topic))
      ensures forall i | 0 <= i < |visited| :: visited[i] in old(watchers).Values
      ensures forall i | 0 <= i < |visited| ::
        visited[i].messages ==
        Handed(old(visited[i].messages), Deliveries(c, x, Progress(None, cached), FiltersOf(visited))[i])
      ensures forall w | w in watchers.Values && w !in visited :: w.messages == old(w.messages)
    {
      visited := GetWatchersByTopic(x.env.topic);
      VisitedInstalled(View(), x.env.topic, visited);
      OfferAll(c, x, cached, visited);
    }

    /** For an envelope whose value is computed, as for every one from the pool, the store of each filter found
        grows exactly by what the filter would have opened by itself; an exact index finds the interested ones. */
    method NotifyComputed(c: Crypto, x: Parcel, cached: Work.Work)
      requires Sound(View())
      requires forall w | w in watchers.Values ::
        w.filter.OneKind() && (w.filter.keySym.Some? ==> w.symKeyHash == KeyDigest(c, w.filter))
      requires cached != Work.NOT_COMPUTED && x.work != Work.NOT_COMPUTED
      requires c.OneKeyOpens(x.env.data) && c.KeyLaw(InstalledKeys(watchers))
      modifies watchers.Values`messages
      ensures forall w | w in watchers.Values ::
        w.messages == Handed(old(w.messages), if w in View().Found(x.env.topic) then Due(c, x, cached, w.filter) else None)
      ensures Exact(View()) ==>
        forall w | w in watchers.Values :: w in View().Found(x.env.topic) <==> Interested(w, x.env.topic)
    {
      var visited := NotifyWatchers(c, x, cached);
      ghost var found := View().Found(x.env.topic);
      VisitedInstalled(View(), x.env.topic, visited);
      KeysOfVisited(watchers, visited);
      DeliveredIsDue(c, x, cached, Progress(None, cached), FiltersOf(visited), InstalledKeys(watchers));
      forall w | w in watchers.Values
        ensures w.messages == Handed(old(w.messages), if w in found then Due(c, x, cached, w.filter) else None)
      {
        if w in visited { var i :| 0 <= i < |visited| && visited[i] == w; }
      }
      if Exact(View()) { ExactFindsScan(View(), x.env.topic); }
    }
  }

  /** The filters visited are those found, each once, and all installed. */
  lemma VisitedInstalled(x: Index, t: Topic, visited: seq<Watcher>)
    requires Sound(x) && Enumerates(visited, x.Found(t))
    ensures NoDuplicates(visited) && (set w | w in visited) <= x.watchers.Values
    ensures forall w :: w in visited <==> w in x.Found(t)
  {
    EnumerationDistinct(visited, x.Found(t));
    SoundFindsInstalled(x, t);
    forall w ensures w in visited <==> w in x.Found(t) { assert w in visited <==> w in multiset(visited); }
  }

  ghost function InstalledKeys(watchers: map<Id, Watcher>): set<Bytes> {
    set w | w in watchers.Values && w.filter.keySym.Some? :: w.filter.keySym.value
  }

  lemma KeysOfVisited(watchers: map<Id, Watcher>, visited: seq<Watcher>)
    requires forall i | 0 <= i < |visited| :: visited[i] in watchers.Values
    requires forall w | w in watchers.Values :: w.filter.OneKind()
    ensures forall f | f in FiltersOf(visited) :: f.OneKind() && f.SymKeys() <= InstalledKeys(watchers)
  {
    forall f | f in FiltersOf(visited) ensures f.OneKind() && f.SymKeys() <= InstalledKeys(watchers) {
      var i :| 0 <= i < |visited| && visited[i].filter == f;
      assert visited[i] in watchers.Values;
    }
  }
}
