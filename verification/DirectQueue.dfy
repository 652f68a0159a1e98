/** The bounded queue shared by the message loops of the peers and emptied by one
    consumer, which publishes an event for each item after its filters were served. */
module DirectQueue {
  import opened Types

  const MESSAGE_QUEUE_LIMIT := 1024

  type PeerId = nat

  /** What the message loop of a peer posts: a trusted peer's direct envelopes and completed requests, and, in
      light-client mode, the ordinary envelopes that are new to the pool. */
  datatype Item = DirectEnvelope(env: Envelope) | RequestCompleted(request: Hash) | OrdinaryEnvelope(env: Envelope)

  /** An item with the peer that caused it. */
  datatype Post = Post(peer: PeerId, item: Item)

  /** Items received per peer, how many of them its loop has posted, the queue, the item the
      consumer is working on, and the events published. */
  datatype Node = Node(
    received: map<PeerId, seq<Item>>,
    posted: map<PeerId, nat>,
    queue: seq<Post>,
    inHand: seq<Post>,
    published: seq<Post>)

  datatype Action =
    | Packet(peer: PeerId, items: seq<Item>)   // one packet may carry several envelopes
    | PostNext(peer: PeerId)                   // blocks while the queue is full
    | Take
    | Publish

  const START := Node(map[], map[], [], [], [])

  function Received(s: Node, p: PeerId): seq<Item> {
    if p in s.received then s.received[p] else []
  }

  function Posted(s: Node, p: PeerId): nat {
    if p in s.posted then s.posted[p] else 0
  }

  function Step(s: Node, a: Action): Node {
    match a
    case Packet(p, items) => s.(received := s.received[p := Received(s, p) + items])
    case PostNext(p) =>
      var n := Posted(s, p);
      if n >= |Received(s, p)| || |s.queue| >= MESSAGE_QUEUE_LIMIT then s
      else s.(posted := s.posted[p := n + 1], queue := s.queue + [Post(p, Received(s, p)[n])])
    case Take =>
      if s.queue == [] || s.inHand != [] then s else s.(queue := s.queue[1..], inHand := [s.queue[0]])
    case Publish => s.(published := s.published + s.inHand, inHand := [])
  }

  function Run(acts: seq<Action>): Node {
    if acts == [] then START else Step(Run(acts[..|acts| - 1]), acts[|acts| - 1])
  }

  /** Everything posted so far, oldest first. */
  function Line(s: Node): seq<Post> {
    s.published + s.inHand + s.queue
  }

  /** The items of one peer in a line of posts, in order. */
  function ItemsOf(line: seq<Post>, p: PeerId): seq<Item> {
    if line == [] then []
    else
      var last := line[|line| - 1];
      ItemsOf(line[..|line| - 1], p) + if last.peer == p then [last.item] else []
  }

  lemma ItemsOfAppend(line: seq<Post>, x: Post, p: PeerId)
    ensures ItemsOf(line + [x], p) == ItemsOf(line, p) + if x.peer == p then [x.item] else []
  {
    assert (line + [x])[..|line|] == line;
  }

  lemma {:induction false} ItemsOfConcat(a: seq<Post>, b: seq<Post>, p: PeerId)
    ensures ItemsOf(a + b, p) == ItemsOf(a, p) + ItemsOf(b, p)
    decreases |b|
  {
    if b == [] {
      assert a + b == a;
    } else {
      SplitLast(b);
      var (rest, x) := (b[..|b| - 1], b[|b| - 1]);
      ItemsOfConcat(a, rest, p);
      ItemsOfAppend(a + rest, x, p);
      ItemsOfAppend(rest, x, p);
      assert a + b == a + rest + [x];
    }
  }

  /** The posts of each peer are the first items it sent, each once and in order. */
  ghost predicate Invariant(s: Node) {
    && (forall p :: Posted(s, p) <= |Received(s, p)|)
    && (forall p :: ItemsOf(Line(s), p) == Received(s, p)[..Posted(s, p)])
    && |s.queue| <= MESSAGE_QUEUE_LIMIT && |s.inHand| <= 1
  }

  lemma PostKeeps(s: Node, p: PeerId)
    requires Invariant(s) && Posted(s, p) < |Received(s, p)| && |s.queue| < MESSAGE_QUEUE_LIMIT
    ensures Invariant(Step(s, PostNext(p)))
  {
    var t := Step(s, PostNext(p));
    var n := Posted(s, p);
    var post := Post(p, Received(s, p)[n]);
    assert Line(t) == Line(s) + [post];
    forall q ensures Posted(t, q) <= |Received(t, q)| && ItemsOf(Line(t), q) == Received(t, q)[..Posted(t, q)] {
      assert (Line(s) + [post])[..|Line(s)|] == Line(s);
      assert Received(t, q) == Received(s, q);
      if q == p { assert Received(s, p)[..n + 1] == Received(s, p)[..n] + [Received(s, p)[n]]; }
    }
  }

  lemma StepKeeps(s: Node, a: Action)
    requires Invariant(s)
    ensures Invariant(Step(s, a))
  {
    var t := Step(s, a);
    match a
    case Packet(p, items) =>
      forall q ensures Posted(t, q) <= |Received(t, q)| && ItemsOf(Line(t), q) == Received(t, q)[..Posted(t, q)] {
        assert Posted(t, q) == Posted(s, q) && Received(s, q) <= Received(t, q);
      }
    case PostNext(p) =>
      if Posted(s, p) < |Received(s, p)| && |s.queue| < MESSAGE_QUEUE_LIMIT { PostKeeps(s, p); }
    case Take => SameLine(s, t);
    case Publish => SameLine(s, t);
  }

  lemma SameLine(s: Node, t: Node)
    requires Invariant(s) && t.received == s.received && t.posted == s.posted
    requires Line(t) == Line(s) && |t.queue| <= |s.queue| && |t.inHand| <= 1
    ensures Invariant(t)
  {
    forall p ensures Posted(t, p) == Posted(s, p) && Received(t, p) == Received(s, p) {
    }
  }

  lemma {:induction false} RunInvariant(acts: seq<Action>)
    ensures Invariant(Run(acts))
    decreases |acts|
  {
    if acts != [] {
      RunInvariant(acts[..|acts| - 1]);
      StepKeeps(Run(acts[..|acts| - 1]), acts[|acts| - 1]);
    }
  }

  /** In every run, whatever peers interleave, the events published before the event of an item are, for
      the peer that caused it, exactly those of the items it sent before, each once and in order. */
  lemma PublishedInPeerOrder(acts: seq<Action>, j: nat)
    requires j < |Run(acts).published|
    ensures var s := Run(acts);
            var p := s.published[j].peer;
            var before := ItemsOf(s.published[..j], p);
            && |before| < |Received(s, p)|
            && before == Received(s, p)[..|before|]
            && s.published[j].item == Received(s, p)[|before|]
  {
    RunInvariant(acts);
    var s := Run(acts);
    assert s.published[..j] == Line(s)[..j];
    ItemsBefore(Line(s), j, Received(s, s.published[j].peer), Posted(s, s.published[j].peer));
  }

  lemma ItemsBefore(line: seq<Post>, j: nat, all: seq<Item>, n: nat)
    requires j < |line| && n <= |all| && ItemsOf(line, line[j].peer) == all[..n]
    ensures var before := ItemsOf(line[..j], line[j].peer);
            |before| < |all| && before == all[..|before|] && line[j].item == all[|before|]
  {
    var p := line[j].peer;
    var (before, after) := (ItemsOf(line[..j], p), ItemsOf(line[j + 1..], p));
    assert line == line[..j] + [line[j]] + line[j + 1..];
    ItemsAround(line[..j], line[j], line[j + 1..]);
    StartsWith(before, line[j].item, after, all, n);
  }

  /** The items of a peer around one of its posts. */
  lemma ItemsAround(earlier: seq<Post>, x: Post, later: seq<Post>)
    ensures ItemsOf(earlier + [x] + later, x.peer) == ItemsOf(earlier, x.peer) + [x.item] + ItemsOf(later, x.peer)
  {
    ItemsOfAppend(earlier, x, x.peer);
    ItemsOfConcat(earlier + [x], later, x.peer);
  }

  lemma StartsWith(before: seq<Item>, x: Item, after: seq<Item>, all: seq<Item>, n: nat)
    requires n <= |all| && before + [x] + after == all[..n]
    ensures |before| < |all| && before == all[..|before|] && x == all[|before|]
  {
    var whole := before + [x] + after;
    assert whole[..|before|] == before && whole[|before|] == x;
  }

  // ---- Everything is published ----

  /** What the packets of a run brought from one peer, in order. */
  function SentBy(acts: seq<Action>, p: PeerId): seq<Item> {
    if acts == [] then []
    else
      var last := acts[|acts| - 1];
      SentBy(acts[..|acts| - 1], p) + if last.Packet? && last.peer == p then last.items else []
  }

  lemma {:induction false} ReceivedExact(acts: seq<Action>, p: PeerId)
    ensures Received(Run(acts), p) == SentBy(acts, p)
    decreases |acts|
  {
    if acts != [] { ReceivedExact(acts[..|acts| - 1], p); }
  }

  lemma RunAppend(acts: seq<Action>, a: Action)
    ensures Run(acts + [a]) == Step(Run(acts), a)
  {
    assert (acts + [a])[..|acts|] == acts;
  }

  /** The consumer alone empties the queue and publishes what was posted, in order. */
  lemma {:induction false} Drain(acts: seq<Action>) returns (more: seq<Action>)
    ensures acts <= more
    ensures var (s, t) := (Run(acts), Run(more));
            && t.published == Line(s) && t.queue == [] && t.inHand == []
            && t.received == s.received && t.posted == s.posted
    decreases |Run(acts).queue|
  {
    more := acts + [Publish];
    RunAppend(acts, Publish);
    var s := Run(more);
    assert Line(s) == Line(Run(acts));
    if s.queue != [] {
      RunAppend(more, Take);
      var taken := more + [Take];
      assert Line(Run(taken)) == Line(s);
      more := Drain(taken);
    }
  }

  /** In every run, the loop of a peer and the consumer between them come to publish everything the packets of the
      peer brought, each item once and in order, whatever the other peers have posted. */
  lemma {:induction false} EverythingPublished(acts: seq<Action>, p: PeerId) returns (more: seq<Action>)
    ensures acts <= more && Run(more).received == Run(acts).received
    ensures ItemsOf(Run(more).published, p) == SentBy(acts, p)
    decreases |Received(Run(acts), p)| - Posted(Run(acts), p)
  {
    RunInvariant(acts);
    ReceivedExact(acts, p);
    var drained := Drain(acts);
    var s := Run(acts);
    var t := Run(drained);
    assert Posted(t, p) == Posted(s, p) && Received(t, p) == Received(s, p);
    if Posted(s, p) == |Received(s, p)| {
      more := drained;
      assert ItemsOf(Line(s), p) == Received(s, p)[..Posted(s, p)];
    } else {
      RunAppend(drained, PostNext(p));
      ReceivedExact(drained + [PostNext(p)], p);
      more := EverythingPublished(drained + [PostNext(p)], p);
    }
  }
}
