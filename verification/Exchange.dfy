/** A node changing its requirements while a peer keeps sending. The node announces a new
    minimum work or topic filter, enforces it at once, and tolerates the old one until a
    timer stores the new value as tolerated. A schedule fixes when requirements change, when
    notices and timers arrive, and when envelopes are sent and received; which envelopes the
    peer sends is left open, and the results are about all of them. */
module Exchange {
  import opened Types
  import opened Bloom
  import opened Offers
  import Gate
  import Work

  /** A value the peer went by, and how many notices it had heard by then. */
  datatype Seen<R> = Seen(value: R, heard: nat)

  /** One requirement: what the node enforces and tolerates, the values its running timers will
      store, the notices on their way to the peer, the peer's view and the notices it has heard. */
  datatype Requirement<R> = Requirement(current: R, tolerated: R, timers: seq<R>, notices: seq<R>, view: R, heard: nat)
  {
    function Change(v: R): Requirement<R> {
      Requirement(v, tolerated, timers + [v], notices + [v], view, heard)
    }

    function Deliver(): Requirement<R> {
      if notices == [] then this else this.(notices := notices[1..], view := notices[0], heard := heard + 1)
    }

    function Fire(): Requirement<R> {
      if timers == [] then this else this.(timers := timers[1..], tolerated := timers[0])
    }

    function See(): Seen<R> {
      Seen(view, heard)
    }
  }

  /** What the peer went by when it chose an envelope. */
  datatype Tag = Tag(pow: Seen<real>, bloom: Seen<Option<Bloom>>)

  /** What the receiver goes by when the envelope arrives. */
  datatype Terms = Terms(pow: real, powTolerated: real, bloom: Option<Bloom>, bloomTolerated: Option<Bloom>)
  {
    /** The lower of the two work values decides. */
    function Bar(): real {
      if pow < powTolerated then pow else powTolerated
    }

    function Settings(limit: Uint32): Gate.Settings {
      Gate.Settings(limit, Some(pow), Some(powTolerated), bloom, bloomTolerated)
    }
  }

  /** The arrival of the envelope sent as number `id`, at clock `now`, `lag` seconds before it was sent. */
  datatype Receipt = Receipt(id: nat, tag: Tag, terms: Terms, now: Clock, lag: nat)

  datatype Link = Link(
    pow: Requirement<real>,
    bloom: Requirement<Option<Bloom>>,
    tags: seq<Tag>,          // of every envelope sent, in order
    wire: set<nat>,          // numbers of the envelopes not yet received
    receipts: seq<Receipt>)

  datatype Action =
    | SetMinimumPoW(value: real)
    | SetBloomFilter(bytes: Bytes)
    | DeliverPoWNotice
    | DeliverBloomNotice
    | FirePoWTimer
    | FireBloomTimer
    | Broadcast
    | Receive(id: nat, now: Clock, lag: nat)

  /** Just after the handshake the peer's view is what the node requires. */
  function Start(pow: real, powTolerance: real, bloom: Option<Bloom>, bloomTolerance: Option<Bloom>): Link {
    Link(Requirement(pow, powTolerance, [], [], pow, 0), Requirement(bloom, bloomTolerance, [], [], bloom, 0), [], {}, [])
  }

  function Step(l: Link, a: Action): Link {
    match a
    case SetMinimumPoW(v) => if v < 0.0 then l else l.(pow := l.pow.Change(v))
    case SetBloomFilter(b) => if |b| != BLOOM_FILTER_SIZE then l else l.(bloom := l.bloom.Change(Some(b)))
    case DeliverPoWNotice => l.(pow := l.pow.Deliver())
    case DeliverBloomNotice => l.(bloom := l.bloom.Deliver())
    case FirePoWTimer => l.(pow := l.pow.Fire())
    case FireBloomTimer => l.(bloom := l.bloom.Fire())
    case Broadcast => l.(tags := l.tags + [Tag(l.pow.See(), l.bloom.See())], wire := l.wire + {|l.tags|})
    case Receive(id, now, lag) =>
      if id !in l.wire || id >= |l.tags| then l
      else
        var terms := Terms(l.pow.current, l.pow.tolerated, l.bloom.current, l.bloom.tolerated);
        l.(wire := l.wire - {id}, receipts := l.receipts + [Receipt(id, l.tags[id], terms, now, lag)])
  }

  function Run(start: Link, acts: seq<Action>): Link
  {
    if acts == [] then start else Step(Run(start, acts[..|acts| - 1]), acts[|acts| - 1])
  }

  // ---- Schedules by their actions ----

  lemma RunAppend(start: Link, acts: seq<Action>, a: Action)
    ensures Run(start, acts + [a]) == Step(Run(start, acts), a)
  {
    assert (acts + [a])[..|acts|] == acts;
  }

  /** The values that a schedule sets, in order. */
  function PoWSets(acts: seq<Action>): seq<real> {
    if acts == [] then [] else PoWSets(acts[..|acts| - 1]) + PoWSet(acts[|acts| - 1])
  }

  function PoWSet(a: Action): seq<real> {
    if a.SetMinimumPoW? && a.value >= 0.0 then [a.value] else []
  }

  function BloomSets(acts: seq<Action>): seq<Option<Bloom>> {
    if acts == [] then [] else BloomSets(acts[..|acts| - 1]) + BloomSet(acts[|acts| - 1])
  }

  function BloomSet(a: Action): seq<Option<Bloom>> {
    if a.SetBloomFilter? && |a.bytes| == BLOOM_FILTER_SIZE then [Some(a.bytes)] else []
  }

  /** The n-th value, counting `first` as the value before all. */
  function Nth<R>(first: R, sets: seq<R>, n: nat): R
    requires n <= |sets|
  {
    if n == 0 then first else sets[n - 1]
  }

  /** Enforced is the last value set, the peer sees the last one it heard of and the others are on their way to it in
      order, and tolerated is the last one whose timer ran out, the other timers still running in order. */
  ghost predicate Follows<R>(r: Requirement<R>, sets: seq<R>, first: R, firstTolerated: R) {
    && r.current == Nth(first, sets, |sets|)
    && r.heard <= |sets| && r.notices == sets[r.heard..] && r.view == Nth(first, sets, r.heard)
    && |r.timers| <= |sets|
    && r.timers == sets[|sets| - |r.timers|..] && r.tolerated == Nth(firstTolerated, sets, |sets| - |r.timers|)
  }

  lemma ChangeFollows<R>(r: Requirement<R>, sets: seq<R>, first: R, firstTolerated: R, v: R)
    requires Follows(r, sets, first, firstTolerated)
    ensures Follows(r.Change(v), sets + [v], first, firstTolerated)
  {
    var all := sets + [v];
    assert all[r.heard..] == sets[r.heard..] + [v];
    assert all[|sets| - |r.timers|..] == sets[|sets| - |r.timers|..] + [v];
  }

  lemma DeliverFollows<R>(r: Requirement<R>, sets: seq<R>, first: R, firstTolerated: R)
    requires Follows(r, sets, first, firstTolerated)
    ensures Follows(r.Deliver(), sets, first, firstTolerated)
  {
    if r.notices != [] { assert sets[r.heard..][1..] == sets[r.heard + 1..]; }
  }

  lemma FireFollows<R>(r: Requirement<R>, sets: seq<R>, first: R, firstTolerated: R)
    requires Follows(r, sets, first, firstTolerated)
    ensures Follows(r.Fire(), sets, first, firstTolerated)
  {
    var n := |sets| - |r.timers|;
    if r.timers != [] { assert sets[n..][1..] == sets[n + 1..]; }
  }

  lemma PoWStepFollows(l: Link, a: Action, sets: seq<real>, first: real, firstTolerated: real)
    requires Follows(l.pow, sets, first, firstTolerated)
    ensures Follows(Step(l, a).pow, sets + PoWSet(a), first, firstTolerated)
  {
    assert sets + [] == sets;
    match a
    case SetMinimumPoW(v) => ChangeFollows(l.pow, sets, first, firstTolerated, v);
    case DeliverPoWNotice => DeliverFollows(l.pow, sets, first, firstTolerated);
    case FirePoWTimer => FireFollows(l.pow, sets, first, firstTolerated);
    case _ =>
  }

  lemma BloomStepFollows(l: Link, a: Action, sets: seq<Option<Bloom>>, first: Option<Bloom>, firstTolerated: Option<Bloom>)
    requires Follows(l.bloom, sets, first, firstTolerated)
    ensures Follows(Step(l, a).bloom, sets + BloomSet(a), first, firstTolerated)
  {
    assert sets + [] == sets;
    match a
    case SetBloomFilter(b) =>
      if |b| == BLOOM_FILTER_SIZE { ChangeFollows(l.bloom, sets, first, firstTolerated, Some(b)); }
    case DeliverBloomNotice => DeliverFollows(l.bloom, sets, first, firstTolerated);
    case FireBloomTimer => FireFollows(l.bloom, sets, first, firstTolerated);
    case _ =>
  }

  /** In every schedule both requirements follow the values set, whatever changes overlap. */
  lemma {:induction false} RequirementsFollow(start: Link, acts: seq<Action>)
    requires start == Start(start.pow.current, start.pow.tolerated, start.bloom.current, start.bloom.tolerated)
    ensures Follows(Run(start, acts).pow, PoWSets(acts), start.pow.current, start.pow.tolerated)
    ensures Follows(Run(start, acts).bloom, BloomSets(acts), start.bloom.current, start.bloom.tolerated)
    decreases |acts|
  {
    if acts != [] {
      var (rest, a) := (acts[..|acts| - 1], acts[|acts| - 1]);
      RequirementsFollow(start, rest);
      PoWStepFollows(Run(start, rest), a, PoWSets(rest), start.pow.current, start.pow.tolerated);
      BloomStepFollows(Run(start, rest), a, BloomSets(rest), start.bloom.current, start.bloom.tolerated);
    }
  }

  /** Step `b` sends the envelope with this number, by these views. */
  ghost predicate SentAt(start: Link, acts: seq<Action>, b: nat, id: nat, tag: Tag)
    requires b < |acts|
  {
    var l := Run(start, acts[..b]);
    acts[b] == Broadcast && |l.tags| == id && tag == Tag(l.pow.See(), l.bloom.See())
  }

  /** Step `k` is the arrival, judged by the requirements of that moment. */
  ghost predicate ArrivedAt(start: Link, acts: seq<Action>, k: nat, r: Receipt)
    requires k < |acts|
  {
    var l := Run(start, acts[..k]);
    && acts[k] == Receive(r.id, r.now, r.lag)
    && r.terms == Terms(l.pow.current, l.pow.tolerated, l.bloom.current, l.bloom.tolerated)
  }

  ghost predicate Sent(start: Link, acts: seq<Action>, id: nat, tag: Tag) {
    exists b | 0 <= b < |acts| :: SentAt(start, acts, b, id, tag)
  }

  ghost predicate Arrived(start: Link, acts: seq<Action>, r: Receipt) {
    exists k | 0 <= k < |acts| :: ArrivedAt(start, acts, k, r)
  }

  /** Every number that was given out was given to an envelope sent. */
  ghost predicate TagsSent(start: Link, acts: seq<Action>, tags: seq<Tag>) {
    forall id | 0 <= id < |tags| :: Sent(start, acts, id, tags[id])
  }

  /** Every receipt is of an envelope sent, and an arrival. */
  ghost predicate ReceiptsArrived(start: Link, acts: seq<Action>, tags: seq<Tag>, receipts: seq<Receipt>) {
    forall j | 0 <= j < |receipts| ::
      receipts[j].id < |tags| && receipts[j].tag == tags[receipts[j].id] && Arrived(start, acts, receipts[j])
  }

  /** Every envelope sent is either on its way or was received, once. */
  ghost predicate OnceEach(l: Link) {
    forall id: nat :: Once(l.receipts, l.wire, |l.tags|, id)
  }

  ghost predicate Once(receipts: seq<Receipt>, wire: set<nat>, sent: nat, id: nat) {
    multiset(Ids(receipts))[id] + (if id in wire then 1 else 0) == if id < sent then 1 else 0
  }

  function Ids(receipts: seq<Receipt>): seq<nat> {
    if receipts == [] then [] else Ids(receipts[..|receipts| - 1]) + [receipts[|receipts| - 1].id]
  }

  lemma IdsAppend(receipts: seq<Receipt>, r: Receipt, id: nat)
    ensures multiset(Ids(receipts + [r]))[id] == multiset(Ids(receipts))[id] + if r.id == id then 1 else 0
  {
    assert (receipts + [r])[..|receipts|] == receipts;
    CountAppend(Ids(receipts), r.id, id);
  }

  lemma StillSent(start: Link, acts: seq<Action>, a: Action, id: nat, tag: Tag)
    requires Sent(start, acts, id, tag)
    ensures Sent(start, acts + [a], id, tag)
  {
    var b :| 0 <= b < |acts| && SentAt(start, acts, b, id, tag);
    assert (acts + [a])[..b] == acts[..b];
    assert SentAt(start, acts + [a], b, id, tag);
  }

  lemma StillArrived(start: Link, acts: seq<Action>, a: Action, r: Receipt)
    requires Arrived(start, acts, r)
    ensures Arrived(start, acts + [a], r)
  {
    var k :| 0 <= k < |acts| && ArrivedAt(start, acts, k, r);
    assert (acts + [a])[..k] == acts[..k];
    assert ArrivedAt(start, acts + [a], k, r);
  }

  lemma TagsStep(start: Link, acts: seq<Action>, a: Action)
    requires TagsSent(start, acts, Run(start, acts).tags)
    ensures TagsSent(start, acts + [a], Step(Run(start, acts), a).tags)
  {
    var (l, all) := (Run(start, acts), acts + [a]);
    forall id | 0 <= id < |l.tags| ensures Sent(start, all, id, l.tags[id]) { StillSent(start, acts, a, id, l.tags[id]); }
    if a == Broadcast { JustSent(start, acts); }
  }

  lemma JustSent(start: Link, acts: seq<Action>)
    ensures var l := Run(start, acts);
            Sent(start, acts + [Broadcast], |l.tags|, Tag(l.pow.See(), l.bloom.See()))
  {
    var l := Run(start, acts);
    assert (acts + [Broadcast])[..|acts|] == acts;
    assert SentAt(start, acts + [Broadcast], |acts|, |l.tags|, Tag(l.pow.See(), l.bloom.See()));
  }

  lemma ReceiptsStep(start: Link, acts: seq<Action>, a: Action)
    requires ReceiptsArrived(start, acts, Run(start, acts).tags, Run(start, acts).receipts)
    ensures var t := Step(Run(start, acts), a); ReceiptsArrived(start, acts + [a], t.tags, t.receipts)
  {
    var (l, t, all) := (Run(start, acts), Step(Run(start, acts), a), acts + [a]);
    forall j | 0 <= j < |l.receipts| ensures Arrived(start, all, l.receipts[j]) { StillArrived(start, acts, a, l.receipts[j]); }
    assert l.tags <= t.tags && l.receipts <= t.receipts;
    if |t.receipts| > |l.receipts| { JustArrived(start, acts, a); }
  }

  lemma JustArrived(start: Link, acts: seq<Action>, a: Action)
    requires |Step(Run(start, acts), a).receipts| > |Run(start, acts).receipts|
    ensures var (l, t) := (Run(start, acts), Step(Run(start, acts), a));
            var r := t.receipts[|l.receipts|];
            && t.receipts == l.receipts + [r] && r.id < |t.tags| && r.tag == t.tags[r.id]
            && Arrived(start, acts + [a], r)
  {
    var (l, t) := (Run(start, acts), Step(Run(start, acts), a));
    assert (acts + [a])[..|acts|] == acts;
    assert ArrivedAt(start, acts + [a], |acts|, t.receipts[|l.receipts|]);
  }

  lemma OnceStep(l: Link, a: Action)
    requires OnceEach(l)
    ensures OnceEach(Step(l, a))
  {
    var t := Step(l, a);
    forall id: nat ensures Once(t.receipts, t.wire, |t.tags|, id) {
      assert Once(l.receipts, l.wire, |l.tags|, id);
      OnceStepAt(l, a, id);
    }
  }

  lemma OnceStepAt(l: Link, a: Action, id: nat)
    requires Once(l.receipts, l.wire, |l.tags|, id)
    ensures Once(Step(l, a).receipts, Step(l, a).wire, |Step(l, a).tags|, id)
  {
    if a == Broadcast {
      OnceSent(l.receipts, l.wire, |l.tags|, id);
    } else if a.Receive? && a.id in l.wire && a.id < |l.tags| {
      var terms := Terms(l.pow.current, l.pow.tolerated, l.bloom.current, l.bloom.tolerated);
      OnceReceived(l.receipts, l.wire, |l.tags|, Receipt(a.id, l.tags[a.id], terms, a.now, a.lag), id);
    } else {
      WireStays(l, a);
    }
  }

  lemma WireStays(l: Link, a: Action)
    requires a != Broadcast && !(a.Receive? && a.id in l.wire && a.id < |l.tags|)
    ensures Step(l, a).receipts == l.receipts && Step(l, a).wire == l.wire && Step(l, a).tags == l.tags
  {
  }

  lemma OnceSent(receipts: seq<Receipt>, wire: set<nat>, sent: nat, id: nat)
    requires Once(receipts, wire, sent, id)
    ensures Once(receipts, wire + {sent}, sent + 1, id)
  {
  }

  lemma OnceReceived(receipts: seq<Receipt>, wire: set<nat>, sent: nat, r: Receipt, id: nat)
    requires Once(receipts, wire, sent, id) && r.id in wire
    ensures Once(receipts + [r], wire - {r.id}, sent, id)
  {
    IdsAppend(receipts, r, id);
  }

  /** In every schedule each envelope sent is on its way or was received once; its receipt has the views the peer went by
      when it sent it, and the requirements of the node when it arrived. */
  lemma {:induction false} EveryReceiptAccounted(start: Link, acts: seq<Action>)
    requires start == Start(start.pow.current, start.pow.tolerated, start.bloom.current, start.bloom.tolerated)
    ensures TagsSent(start, acts, Run(start, acts).tags)
    ensures ReceiptsArrived(start, acts, Run(start, acts).tags, Run(start, acts).receipts)
    ensures OnceEach(Run(start, acts))
    decreases |acts|
  {
    if acts != [] {
      SplitLast(acts);
      var (rest, a) := (acts[..|acts| - 1], acts[|acts| - 1]);
      EveryReceiptAccounted(start, rest);
      TagsStep(start, rest, a);
      ReceiptsStep(start, rest, a);
      OnceStep(Run(start, rest), a);
    }
  }

  /** The settings as the node stores them. */
  class Host {
    var settings: Gate.Settings

    constructor (settings: Gate.Settings)
      ensures this.settings == settings
      ensures Shows(Start(settings.MinPoW(), settings.MinPoWTolerance(), settings.bloom, settings.bloomTolerance))
    {
      this.settings := settings;
    }

    /** What the node enforces and tolerates is what the link has. */
    predicate Shows(l: Link)
      reads this
    {
      && settings.MinPoW() == l.pow.current && settings.MinPoWTolerance() == l.pow.tolerated
      && settings.bloom == l.bloom.current && settings.bloomTolerance == l.bloom.tolerated
    }

    method SetMinimumPoW(v: real, ghost l: Link) returns (ok: bool)
      requires Shows(l)
      modifies this
      ensures ok <==> v >= 0.0
      ensures Shows(Step(l, Action.SetMinimumPoW(v))) && settings.maxMessageSize == old(settings.maxMessageSize)
    {
      if v < 0.0 {
        return false;
      }
      settings := settings.(minPoW := Some(v));
      return true;
    }

    method SetBloomFilter(b: Bytes, ghost l: Link) returns (ok: bool)
      requires Shows(l)
      modifies this
      ensures ok <==> |b| == BLOOM_FILTER_SIZE
      ensures Shows(Step(l, Action.SetBloomFilter(b))) && settings.maxMessageSize == old(settings.maxMessageSize)
    {
      if |b| != BLOOM_FILTER_SIZE {
        return false;
      }
      settings := settings.(bloom := Some(b));
      return true;
    }

    /** What the timers do with the values they were started with. */
    method StorePoWTolerance(v: real, ghost l: Link)
      requires Shows(l) && l.pow.timers != [] && l.pow.timers[0] == v
      modifies this
      ensures Shows(Step(l, FirePoWTimer)) && settings.maxMessageSize == old(settings.maxMessageSize)
    {
      settings := settings.(minPoWTolerance := Some(v));
    }

    method StoreBloomTolerance(b: Bloom, ghost l: Link)
      requires Shows(l) && l.bloom.timers != [] && l.bloom.timers[0] == Some(b)
      modifies this
      ensures Shows(Step(l, FireBloomTimer)) && settings.maxMessageSize == old(settings.maxMessageSize)
    {
      settings := settings.(bloomTolerance := Some(b));
    }
  }

  // ---- Choosing envelopes ----

  /** The peer holds the envelope and its `broadcast` selects it, and it arrives as the receipt says. */
  ghost predicate Possible(limit: Uint32, r: Receipt, o: Offer) {
    && o.Genuine() && Fits(limit, o.env, o.zeros)
    && Work.AtLeast(o.SenderWork(), r.tag.pow.value) && Accepts(r.tag.bloom.value, o.env.topic)
    && Lag(o.env, r.now) == r.lag
  }

  /** Turned down for its work or for its topic. */
  ghost predicate Refused(limit: Uint32, r: Receipt, o: Offer) {
    var verdict := Gate.Judge(r.terms.Settings(limit), r.now, o.env, o.zeros, Work.NOT_COMPUTED);
    Possible(limit, r, o) && (verdict.LowPoW? || verdict.NoBloomMatch?)
  }

  /** With the choice `pick` of an envelope for every number, none is turned down. A choice that the
      peer could not make stands for sending nothing. */
  ghost predicate AllAccepted(limit: Uint32, receipts: seq<Receipt>, pick: nat -> Offer) {
    forall k | 0 <= k < |receipts| :: !Refused(limit, receipts[k], pick(receipts[k].id))
  }

  /** Whatever the peer chooses to send, nothing is turned down. */
  ghost predicate Safe(limit: Uint32, receipts: seq<Receipt>) {
    forall pick: nat -> Offer :: AllAccepted(limit, receipts, pick)
  }

  // ---- Exactly when one receipt is safe ----

  /** No two positions that one topic can have, both asked for, are missing from both filters in turn. */
  ghost predicate TopicsCovered(view: Option<Bloom>, current: Option<Bloom>, tolerated: Option<Bloom>) {
    || current.None? || tolerated.None?
    || forall x, y | x in Asked(view) && y in Asked(view) && (x == y || x / 8 != y / 8) ::
         x in Members(current.value) || y in Members(tolerated.value)
  }

  lemma TopicsExact(view: Option<Bloom>, current: Option<Bloom>, tolerated: Option<Bloom>)
    ensures (forall t: Topic | Accepts(view, t) :: Gate.BloomGate(current, tolerated, t))
            <==> TopicsCovered(view, current, tolerated)
  {
    if current.Some? && tolerated.Some? {
      if !TopicsCovered(view, current, tolerated) {
        var t := TopicMissed(view, current.value, tolerated.value);
      } else {
        forall t: Topic | Accepts(view, t) ensures Gate.BloomGate(current, tolerated, t) {
          TopicPasses(view, current.value, tolerated.value, t);
        }
      }
    }
  }

  lemma TopicMissed(view: Option<Bloom>, current: Bloom, tolerated: Bloom) returns (t: Topic)
    requires !TopicsCovered(view, Some(current), Some(tolerated))
    ensures Accepts(view, t) && !Gate.BloomGate(Some(current), Some(tolerated), t)
  {
    var x, y :| x in Asked(view) && y in Asked(view) && (x == y || x / 8 != y / 8)
                && x !in Members(current) && y !in Members(tolerated);
    t := TopicOfPair(x, y);
    assert x in TopicMembers(t) && y in TopicMembers(t);
  }

  lemma TopicPasses(view: Option<Bloom>, current: Bloom, tolerated: Bloom, t: Topic)
    requires TopicsCovered(view, Some(current), Some(tolerated)) && Accepts(view, t)
    ensures Gate.BloomGate(Some(current), Some(tolerated), t)
  {
    IndicesInRange(t);
    if !Gate.BloomGate(Some(current), Some(tolerated), t) {
      var x :| x in TopicMembers(t) && x !in Members(current);
      var y :| y in TopicMembers(t) && y !in Members(tolerated);
      MembersApart(t, x, y);
      assert false;
    }
  }

  /** The condition on one receipt: the peer asked for no topic; or its view of the work loses nothing
      against the receiver's bar, and its view of the topics is covered, if anything can be admitted. */
  ghost predicate ReceiptSafe(limit: Uint32, r: Receipt) {
    || Asked(r.tag.bloom.value) == {}
    || (&& NothingLost(limit, r.now, r.lag, r.tag.pow.value, r.terms.Bar())
        && (Admits(limit, r) ==> TopicsCovered(r.tag.bloom.value, r.terms.bloom, r.terms.bloomTolerated)))
  }

  /** Some envelope can pass the size and time checks. */
  predicate Admits(limit: Uint32, r: Receipt) {
    limit >= ENVELOPE_HEADER_LENGTH && (r.lag == 0 || Late(r.now, r.lag))
  }

  lemma BarDecides(t: Terms, w: Work.Work)
    ensures Gate.PoWGate(t.pow, t.powTolerated, w) <==> Work.AtLeast(w, t.Bar())
  {
  }

  /** How the receiver judges an envelope that fits and is admitted. */
  lemma JudgedAsAdmitted(limit: Uint32, r: Receipt, o: Offer)
    requires Fits(limit, o.env, o.zeros) && Admitted(o.env, r.now, r.lag)
    ensures r.lag <= DEFAULT_SYNC_ALLOWANCE
    ensures var v := Gate.Judge(r.terms.Settings(limit), r.now, o.env, o.zeros, Work.NOT_COMPUTED);
            && (v.LowPoW? <==> !Work.AtLeast(ReceiverWork(o.env, o.zeros, r.lag), r.terms.Bar()))
            && (v.LowPoW? || v.NoBloomMatch? || Gate.BloomGate(r.terms.bloom, r.terms.bloomTolerated, o.env.topic))
            && (v.NoBloomMatch? ==> !Gate.BloomGate(r.terms.bloom, r.terms.bloomTolerated, o.env.topic))
  {
    AdmittedFacts(o.env, r.now, r.lag);
    BarDecides(r.terms, ReceiverWork(o.env, o.zeros, r.lag));
    SmallSize(o.env, limit);
  }

  lemma SmallSize(env: Envelope, limit: Uint32)
    requires env.Size() <= limit
    ensures env.Size() % TWO_32 <= limit
  {
  }

  lemma NotAdmittedNotRefused(limit: Uint32, r: Receipt, o: Offer)
    requires Refused(limit, r, o)
    ensures Admitted(o.env, r.now, r.lag)
  {
  }

  lemma SafeReceiptRefusesNothing(limit: Uint32, r: Receipt, o: Offer)
    requires ReceiptSafe(limit, r)
    ensures !Refused(limit, r, o)
  {
    if Refused(limit, r, o) {
      NotAdmittedNotRefused(limit, r, o);
      JudgedAsAdmitted(limit, r, o);
      IndicesInRange(o.env.topic);
      SenderAtMostBest(o, r.tag.pow.value);
      OthersAdmitNothing(o.env, r.now, r.lag);
      TopicsExact(r.tag.bloom.value, r.terms.bloom, r.terms.bloomTolerated);
      assert false;
    }
  }

  lemma UnsafeReceiptRefusesSome(limit: Uint32, r: Receipt) returns (o: Offer)
    requires !ReceiptSafe(limit, r)
    ensures Refused(limit, r, o)
  {
    if !NothingLost(limit, r.now, r.lag, r.tag.pow.value, r.terms.Bar()) {
      o := LostToWork(limit, r);
    } else {
      o := LostToTopic(limit, r);
    }
  }

  lemma LostToWork(limit: Uint32, r: Receipt) returns (o: Offer)
    requires Asked(r.tag.bloom.value) != {}
    requires !NothingLost(limit, r.now, r.lag, r.tag.pow.value, r.terms.Bar())
    ensures Refused(limit, r, o)
  {
    var env, zeros :| Fits(limit, env, zeros) && Admitted(env, r.now, r.lag) && r.lag <= DEFAULT_SYNC_ALLOWANCE
      && Work.AtLeast(BestWork(env, zeros), r.tag.pow.value)
      && !Work.AtLeast(ReceiverWork(env, zeros, r.lag), r.terms.Bar());
    var x :| x in Asked(r.tag.bloom.value);
    var t := TopicOfPair(x, x);
    o := BestReached(env.(topic := t), zeros, r.now);
    assert Fits(limit, o.env, zeros) && Admitted(o.env, r.now, r.lag);
    assert BestWork(o.env, zeros) == BestWork(env, zeros);
    JudgedAsAdmitted(limit, r, o);
  }

  lemma LostToTopic(limit: Uint32, r: Receipt) returns (o: Offer)
    requires Admits(limit, r)
    requires !TopicsCovered(r.tag.bloom.value, r.terms.bloom, r.terms.bloomTolerated)
    ensures Refused(limit, r, o)
  {
    var t := TopicMissed(r.tag.bloom.value, r.terms.bloom.value, r.terms.bloomTolerated.value);
    var env := Brief(r.now + r.lag, 0).(topic := t);
    ShortBriefFits(limit, r.now + r.lag, 0);
    BriefAdmitted(r.now, r.lag, env);
    o := BestReached(env, 0, r.now);
    JudgedAsAdmitted(limit, r, o);
  }

  /** A receipt turns down some envelope the peer could have chosen, exactly when its condition fails. */
  lemma ReceiptExact(limit: Uint32, r: Receipt)
    ensures (forall o: Offer :: !Refused(limit, r, o)) <==> ReceiptSafe(limit, r)
  {
    if ReceiptSafe(limit, r) {
      forall o: Offer ensures !Refused(limit, r, o) { SafeReceiptRefusesNothing(limit, r, o); }
    } else {
      var o := UnsafeReceiptRefusesSome(limit, r);
    }
  }

  // ---- Exactly when a schedule is safe ----

  /** For every schedule, whatever changes overlap and however late notices, timers and clocks are:
      no choice of envelopes is turned down exactly when every receipt meets its condition. */
  lemma ScheduleExact(limit: Uint32, start: Link, acts: seq<Action>)
    ensures var receipts := Run(start, acts).receipts;
            Safe(limit, receipts) <==> forall k | 0 <= k < |receipts| :: ReceiptSafe(limit, receipts[k])
  {
    var receipts := Run(start, acts).receipts;
    if forall k | 0 <= k < |receipts| :: ReceiptSafe(limit, receipts[k]) {
      forall pick: nat -> Offer ensures AllAccepted(limit, receipts, pick) {
        forall k | 0 <= k < |receipts| ensures !Refused(limit, receipts[k], pick(receipts[k].id)) {
          ReceiptExact(limit, receipts[k]);
        }
      }
    } else {
      var k :| 0 <= k < |receipts| && !ReceiptSafe(limit, receipts[k]);
      UnsafeSomewhere(limit, receipts, k);
    }
  }

  lemma UnsafeSomewhere(limit: Uint32, receipts: seq<Receipt>, k: nat)
    requires k < |receipts| && !ReceiptSafe(limit, receipts[k])
    ensures !Safe(limit, receipts)
  {
    var o := UnsafeReceiptRefusesSome(limit, receipts[k]);
    var pick: nat -> Offer := _ => o;
    assert Refused(limit, receipts[k], pick(receipts[k].id));
    assert !AllAccepted(limit, receipts, pick);
  }

  /** Values that the bounds on work decide: on time, those some envelope tells apart; behind, views that are
      not lower than the worth of the longest envelope of lifetime zero times one plus the penalty. */
  ghost predicate Decided(limit: Uint32, r: Receipt) {
    if r.lag == 0 then ToldApart(r.tag.pow.value, r.terms.Bar())
    else Late(r.now, r.lag) ==>
      Work.Scaled(LateWorth(limit, r.now, r.lag).value, 1 + Penalty(r.lag)) <= r.tag.pow.value
  }

  /** On time, the bar is no higher than the view; behind, no higher than the worth of that envelope. */
  ghost predicate WorkCovered(limit: Uint32, r: Receipt) {
    if r.lag == 0 then r.terms.Bar() <= r.tag.pow.value
    else Late(r.now, r.lag) ==> Work.AtLeast(LateWorth(limit, r.now, r.lag), r.terms.Bar())
  }

  lemma WorkCoveredExact(limit: Uint32, r: Receipt)
    requires limit >= ENVELOPE_HEADER_LENGTH && Decided(limit, r)
    ensures NothingLost(limit, r.now, r.lag, r.tag.pow.value, r.terms.Bar()) <==> WorkCovered(limit, r)
  {
    if r.lag == 0 {
      OnTimeExact(limit, r.now, r.tag.pow.value, r.terms.Bar());
    } else if Late(r.now, r.lag) {
      LateExact(limit, r.now, r.lag, r.tag.pow.value, r.terms.Bar());
    } else {
      forall env: Envelope ensures !Admitted(env, r.now, r.lag) { OthersAdmitNothing(env, r.now, r.lag); }
    }
  }

  /** The same in numbers: a schedule is safe exactly when at every receipt the peer asked for no topic,
      or work and topics are covered. */
  lemma ScheduleInNumbers(limit: Uint32, start: Link, acts: seq<Action>)
    requires limit >= ENVELOPE_HEADER_LENGTH
    requires forall r | r in Run(start, acts).receipts :: Decided(limit, r)
    ensures Safe(limit, Run(start, acts).receipts) <==>
            forall r | r in Run(start, acts).receipts ::
              || Asked(r.tag.bloom.value) == {}
              || (WorkCovered(limit, r)
                  && (Admits(limit, r) ==> TopicsCovered(r.tag.bloom.value, r.terms.bloom, r.terms.bloomTolerated)))
  {
    var receipts := Run(start, acts).receipts;
    ScheduleExact(limit, start, acts);
    forall r | r in receipts
      ensures NothingLost(limit, r.now, r.lag, r.tag.pow.value, r.terms.Bar()) <==> WorkCovered(limit, r)
    {
      WorkCoveredExact(limit, r);
    }
    assert forall k | 0 <= k < |receipts| :: receipts[k] in receipts;
  }

  // ---- Timely schedules ----

  /** Changes of one requirement do not overlap; a timer runs out only after its notice was delivered and
      everything sent before that was received; the receiver's clock has reached the moment of sending. */
  ghost predicate Timely(l: Link, a: Action) {
    match a
    case SetMinimumPoW(_) => l.pow.timers == []
    case SetBloomFilter(_) => l.bloom.timers == []
    case FirePoWTimer => l.pow.notices == [] && forall s | s in PoWFlying(l) :: s.heard == l.pow.heard
    case FireBloomTimer => l.bloom.notices == [] && forall s | s in BloomFlying(l) :: s.heard == l.bloom.heard
    case Receive(_, _, lag) => lag == 0
    case _ => true
  }

  /** What the peer went by for the envelopes on their way. */
  ghost function PoWFlying(l: Link): set<Seen<real>> {
    set id | id in l.wire && id < |l.tags| :: l.tags[id].pow
  }

  ghost function BloomFlying(l: Link): set<Seen<Option<Bloom>>> {
    set id | id in l.wire && id < |l.tags| :: l.tags[id].bloom
  }

  ghost predicate TimelyRun(start: Link, acts: seq<Action>) {
    forall k | 0 <= k < |acts| :: Timely(Run(start, acts[..k]), acts[k])
  }

  /** At most one change is under way. The peer sees the enforced value, or `was`, the value before it, while
      the notice is under way, and what it sent and has not arrived was chosen by one of the two. */
  ghost predicate Settled<R(!new)>(r: Requirement<R>, was: R, flying: set<Seen<R>>) {
    && (if r.timers == [] then r.notices == [] && r.view == r.current == was
        else
          && r.timers == [r.current]
          && ((r.notices == [r.current] && r.view == was) || (r.notices == [] && r.view == r.current)))
    && forall s | s in flying ::
         s.heard <= r.heard && (s.value == r.current || s.value == was) && (s.heard == r.heard ==> s.value == r.view)
  }

  lemma ChangeSettled<R(!new)>(r: Requirement<R>, was: R, flying: set<Seen<R>>, v: R)
    requires Settled(r, was, flying) && r.timers == []
    ensures Settled(r.Change(v), r.current, flying)
  {
  }

  lemma DeliverSettled<R(!new)>(r: Requirement<R>, was: R, flying: set<Seen<R>>)
    requires Settled(r, was, flying)
    ensures Settled(r.Deliver(), was, flying)
  {
  }

  lemma FireSettled<R(!new)>(r: Requirement<R>, was: R, flying: set<Seen<R>>)
    requires Settled(r, was, flying) && r.notices == [] && forall s | s in flying :: s.heard == r.heard
    ensures Settled(r.Fire(), r.current, flying) && r.Fire().current == r.current
    ensures r.Fire().tolerated == if r.timers == [] then r.tolerated else r.current
    ensures r.timers == [] ==> was == r.current
  {
  }

  lemma SendSettled<R(!new)>(r: Requirement<R>, was: R, flying: set<Seen<R>>)
    requires Settled(r, was, flying)
    ensures Settled(r, was, flying + {r.See()})
  {
  }

  lemma FewerSettled<R(!new)>(r: Requirement<R>, was: R, flying: set<Seen<R>>, fewer: set<Seen<R>>)
    requires Settled(r, was, flying) && fewer <= flying
    ensures Settled(r, was, fewer)
  {
  }

  /** Everything chosen by `was` passes a tolerated value, whenever it arrives. */
  ghost predicate PoWTolerated(limit: Uint32, was: real, tolerated: real) {
    forall now: Clock :: NothingLost(limit, now, 0, was, tolerated)
  }

  ghost predicate BloomTolerated(was: Option<Bloom>, tolerated: Option<Bloom>) {
    tolerated.None? || Asked(was) <= Asked(tolerated)
  }

  ghost predicate Invariant(limit: Uint32, l: Link, powWas: real, bloomWas: Option<Bloom>) {
    && Settled(l.pow, powWas, PoWFlying(l)) && Settled(l.bloom, bloomWas, BloomFlying(l))
    && PoWTolerated(limit, powWas, l.pow.tolerated)
    && (limit < ENVELOPE_HEADER_LENGTH || BloomTolerated(bloomWas, l.bloom.tolerated))
    && (forall k | 0 <= k < |l.receipts| :: ReceiptSafe(limit, l.receipts[k]))
  }

  lemma SameIsTolerated(limit: Uint32, was: real, tolerated: real)
    requires tolerated <= was
    ensures PoWTolerated(limit, was, tolerated)
  {
    forall now: Clock ensures NothingLost(limit, now, 0, was, tolerated) { OnTimeSuffices(limit, now, was, tolerated); }
  }

  lemma PoWSteps(limit: Uint32, l: Link, a: Action, powWas: real, bloomWas: Option<Bloom>) returns (was: real)
    requires Invariant(limit, l, powWas, bloomWas) && Timely(l, a)
    requires a.SetMinimumPoW? || a.DeliverPoWNotice? || a.FirePoWTimer?
    ensures Invariant(limit, Step(l, a), was, bloomWas)
  {
    was := powWas;
    var t := Step(l, a);
    assert PoWFlying(t) == PoWFlying(l) && BloomFlying(t) == BloomFlying(l);
    match a
    case SetMinimumPoW(v) => ChangeSettled(l.pow, powWas, PoWFlying(l), v);
    case DeliverPoWNotice => DeliverSettled(l.pow, powWas, PoWFlying(l));
    case FirePoWTimer =>
      FireSettled(l.pow, powWas, PoWFlying(l));
      was := l.pow.current;
      SameIsTolerated(limit, was, was);
  }

  lemma BloomSteps(limit: Uint32, l: Link, a: Action, powWas: real, bloomWas: Option<Bloom>) returns (was: Option<Bloom>)
    requires Invariant(limit, l, powWas, bloomWas) && Timely(l, a)
    requires a.SetBloomFilter? || a.DeliverBloomNotice? || a.FireBloomTimer?
    ensures Invariant(limit, Step(l, a), powWas, was)
  {
    was := bloomWas;
    var t := Step(l, a);
    assert PoWFlying(t) == PoWFlying(l) && BloomFlying(t) == BloomFlying(l);
    match a
    case SetBloomFilter(b) =>
      if |b| == BLOOM_FILTER_SIZE { ChangeSettled(l.bloom, bloomWas, BloomFlying(l), Some(b)); }
    case DeliverBloomNotice => DeliverSettled(l.bloom, bloomWas, BloomFlying(l));
    case FireBloomTimer =>
      FireSettled(l.bloom, bloomWas, BloomFlying(l));
      was := l.bloom.current;
  }

  lemma BroadcastKeeps(limit: Uint32, l: Link, powWas: real, bloomWas: Option<Bloom>)
    requires Invariant(limit, l, powWas, bloomWas)
    ensures Invariant(limit, Step(l, Broadcast), powWas, bloomWas)
  {
    var t := Step(l, Broadcast);
    assert forall id | 0 <= id < |l.tags| :: t.tags[id] == l.tags[id];
    SendSettled(l.pow, powWas, PoWFlying(l));
    SendSettled(l.bloom, bloomWas, BloomFlying(l));
    FewerSettled(l.pow, powWas, PoWFlying(l) + {l.pow.See()}, PoWFlying(t));
    FewerSettled(l.bloom, bloomWas, BloomFlying(l) + {l.bloom.See()}, BloomFlying(t));
  }

  /** What the peer went by is the enforced value or one that is tolerated, so the receipt is safe. */
  lemma SettledReceiptSafe(limit: Uint32, r: Receipt, powWas: real, bloomWas: Option<Bloom>)
    requires r.lag == 0
    requires r.tag.pow.value == r.terms.pow || r.tag.pow.value == powWas
    requires r.tag.bloom.value == r.terms.bloom || r.tag.bloom.value == bloomWas
    requires PoWTolerated(limit, powWas, r.terms.powTolerated)
    requires limit < ENVELOPE_HEADER_LENGTH || BloomTolerated(bloomWas, r.terms.bloomTolerated)
    ensures ReceiptSafe(limit, r)
  {
    if r.tag.pow.value == r.terms.pow {
      OnTimeSuffices(limit, r.now, r.tag.pow.value, r.terms.Bar());
    } else {
      assert NothingLost(limit, r.now, 0, powWas, r.terms.powTolerated);
      LowerBar(limit, r.now, 0, powWas, r.terms.powTolerated, r.terms.Bar());
    }
  }

  lemma ReceiveKeeps(limit: Uint32, l: Link, id: nat, now: Clock, powWas: real, bloomWas: Option<Bloom>)
    requires Invariant(limit, l, powWas, bloomWas)
    ensures Invariant(limit, Step(l, Receive(id, now, 0)), powWas, bloomWas)
  {
    if id in l.wire && id < |l.tags| {
      var t := Step(l, Receive(id, now, 0));
      assert l.tags[id].pow in PoWFlying(l) && l.tags[id].bloom in BloomFlying(l);
      SettledReceiptSafe(limit, t.receipts[|l.receipts|], powWas, bloomWas);
      FewerSettled(l.pow, powWas, PoWFlying(l), PoWFlying(t));
      FewerSettled(l.bloom, bloomWas, BloomFlying(l), BloomFlying(t));
    }
  }

  /** In every timely schedule the peer goes by the enforced value or a tolerated one, and every receipt is safe. */
  lemma {:induction false} TimelyInvariant(limit: Uint32, start: Link, acts: seq<Action>)
    returns (powWas: real, bloomWas: Option<Bloom>)
    requires TimelyRun(start, acts) && Invariant(limit, start, start.pow.current, start.bloom.current)
    ensures Invariant(limit, Run(start, acts), powWas, bloomWas)
    decreases |acts|
  {
    powWas, bloomWas := start.pow.current, start.bloom.current;
    if acts != [] {
      var rest := acts[..|acts| - 1];
      assert forall k | 0 <= k < |rest| :: rest[..k] == acts[..k] && rest[k] == acts[k];
      powWas, bloomWas := TimelyInvariant(limit, start, rest);
      var (l, a) := (Run(start, rest), acts[|acts| - 1]);
      assert Timely(l, a);
      match a
      case Broadcast => BroadcastKeeps(limit, l, powWas, bloomWas);
      case Receive(id, now, _) => ReceiveKeeps(limit, l, id, now, powWas, bloomWas);
      case SetMinimumPoW(_) => powWas := PoWSteps(limit, l, a, powWas, bloomWas);
      case DeliverPoWNotice => powWas := PoWSteps(limit, l, a, powWas, bloomWas);
      case FirePoWTimer => powWas := PoWSteps(limit, l, a, powWas, bloomWas);
      case _ => bloomWas := BloomSteps(limit, l, a, powWas, bloomWas);
    }
  }

  // ---- Exactly when all timely schedules are safe ----

  ghost predicate AlwaysSafe(limit: Uint32, start: Link) {
    forall acts: seq<Action> | TimelyRun(start, acts) :: Safe(limit, Run(start, acts).receipts)
  }

  /** All timely schedules are safe exactly when the first tolerated work loses nothing of what the first
      requirement admits, and the first tolerated filter contains the first filter. */
  lemma SafeExactly(limit: Uint32, pow: real, powTolerance: real, bloom: Option<Bloom>, bloomTolerance: Option<Bloom>)
    requires limit >= ENVELOPE_HEADER_LENGTH
    ensures AlwaysSafe(limit, Start(pow, powTolerance, bloom, bloomTolerance))
            <==> PoWTolerated(limit, pow, powTolerance) && BloomTolerated(bloom, bloomTolerance)
  {
    var start := Start(pow, powTolerance, bloom, bloomTolerance);
    if PoWTolerated(limit, pow, powTolerance) && BloomTolerated(bloom, bloomTolerance) {
      forall acts: seq<Action> | TimelyRun(start, acts) ensures Safe(limit, Run(start, acts).receipts) {
        var _, _ := TimelyInvariant(limit, start, acts);
        ScheduleExact(limit, start, acts);
      }
    } else if !PoWTolerated(limit, pow, powTolerance) {
      var now: Clock :| !NothingLost(limit, now, 0, pow, powTolerance);
      var acts := PoWRejection(limit, start, now);
    } else {
      var acts := BloomRejection(limit, start);
    }
  }

  /** In numbers: for work values that some envelope tells apart, the first tolerated work
      must not exceed the first requirement. */
  lemma SafeInNumbers(limit: Uint32, pow: real, powTolerance: real, bloom: Option<Bloom>, bloomTolerance: Option<Bloom>)
    requires limit >= ENVELOPE_HEADER_LENGTH && ToldApart(pow, powTolerance)
    ensures AlwaysSafe(limit, Start(pow, powTolerance, bloom, bloomTolerance))
            <==> powTolerance <= pow && (bloomTolerance.None? || Asked(bloom) <= Asked(bloomTolerance))
  {
    SafeExactly(limit, pow, powTolerance, bloom, bloomTolerance);
    OnTimeExact(limit, 1, pow, powTolerance);
    if powTolerance <= pow { SameIsTolerated(limit, pow, powTolerance); }
  }

  /** Unset tolerances read as 0.2 and as no filter: such a node is safe exactly when 0.2 loses nothing of what
      its first requirement admits: always from 0.2 on, and never a spacing or more below. */
  lemma UnsetToleranceExact(limit: Uint32, pow: real, bloom: Option<Bloom>)
    requires limit >= ENVELOPE_HEADER_LENGTH
    ensures var start := Start(pow, Gate.DEFAULT_MINIMUM_POW, bloom, None);
            && (AlwaysSafe(limit, start) <==> PoWTolerated(limit, pow, Gate.DEFAULT_MINIMUM_POW))
            && (pow >= Gate.DEFAULT_MINIMUM_POW ==> AlwaysSafe(limit, start))
            && (Next(pow) <= Gate.DEFAULT_MINIMUM_POW ==> !AlwaysSafe(limit, start))
  {
    SafeExactly(limit, pow, Gate.DEFAULT_MINIMUM_POW, bloom, None);
    if ToldApart(pow, Gate.DEFAULT_MINIMUM_POW) {
      SafeInNumbers(limit, pow, Gate.DEFAULT_MINIMUM_POW, bloom, None);
    }
    NextAbove(pow);
  }

  lemma TimelyAppend(start: Link, acts: seq<Action>, a: Action)
    ensures Run(start, acts + [a]) == Step(Run(start, acts), a)
    ensures TimelyRun(start, acts) && Timely(Run(start, acts), a) ==> TimelyRun(start, acts + [a])
  {
    var all := acts + [a];
    assert all[..|acts|] == acts;
    assert forall k | 0 <= k < |acts| :: all[..k] == acts[..k] && all[k] == acts[k];
  }

  lemma RunOne(start: Link, a: Action)
    ensures Run(start, [a]) == Step(start, a)
    ensures Timely(start, a) ==> TimelyRun(start, [a])
  {
    TimelyAppend(start, [], a);
    assert [] + [a] == [a];
  }

  /** The node asks for every topic, the peer hears of it and sends; then the work required rises. */
  lemma PoWRejection(limit: Uint32, start: Link, now: Clock) returns (acts: seq<Action>)
    requires start == Start(start.pow.current, start.pow.tolerated, start.bloom.current, start.bloom.tolerated)
    requires !NothingLost(limit, now, 0, start.pow.current, start.pow.tolerated)
    ensures TimelyRun(start, acts) && !Safe(limit, Run(start, acts).receipts)
  {
    var ones: Bloom := seq(BLOOM_FILTER_SIZE, _ => 255);
    OnesAreEverything(ones);
    var tolerated := start.pow.tolerated;
    PositiveTolerance(limit, now, start.pow.current, tolerated);
    var a1 := [SetBloomFilter(ones)];
    var a2 := a1 + [DeliverBloomNotice];
    var a3 := a2 + [Broadcast];
    var a4 := a3 + [SetMinimumPoW(tolerated)];
    acts := a4 + [Receive(0, now, 0)];
    RunOne(start, SetBloomFilter(ones));
    TimelyAppend(start, a1, DeliverBloomNotice);
    TimelyAppend(start, a2, Broadcast);
    TimelyAppend(start, a3, SetMinimumPoW(tolerated));
    TimelyAppend(start, a4, Receive(0, now, 0));
    var r := Run(start, acts).receipts[0];
    assert r.tag.pow.value == start.pow.current && r.terms.Bar() == tolerated;
    assert r.tag.bloom.value == Some(ones) && 0 in Asked(Some(ones));
    UnsafeSomewhere(limit, Run(start, acts).receipts, 0);
  }

  /** Every value is above a tolerance of zero. */
  lemma PositiveTolerance(limit: Uint32, now: Clock, view: real, tolerated: real)
    requires !NothingLost(limit, now, 0, view, tolerated)
    ensures tolerated > 0.0
  {
    var env, zeros :| Fits(limit, env, zeros) && Admitted(env, now, 0)
      && Work.AtLeast(BestWork(env, zeros), view) && !Work.AtLeast(ReceiverWork(env, zeros, 0), tolerated);
    Work.WorkPositive(zeros, Work.RlpLength(env.expiry, env.ttl, env.data), (env.ttl + 0) % TWO_32);
  }

  /** The peer sends an envelope on a topic the tolerated filter misses; then the filter is emptied. */
  lemma BloomRejection(limit: Uint32, start: Link) returns (acts: seq<Action>)
    requires start == Start(start.pow.current, start.pow.tolerated, start.bloom.current, start.bloom.tolerated)
    requires limit >= ENVELOPE_HEADER_LENGTH && !BloomTolerated(start.bloom.current, start.bloom.tolerated)
    ensures TimelyRun(start, acts) && !Safe(limit, Run(start, acts).receipts)
  {
    var none: Bloom := Zeros(BLOOM_FILTER_SIZE);
    NoMembers(none);
    var x :| x in Asked(start.bloom.current) && x !in Asked(start.bloom.tolerated);
    var a1 := [Broadcast];
    var a2 := a1 + [SetBloomFilter(none)];
    acts := a2 + [Receive(0, 1, 0)];
    RunOne(start, Broadcast);
    TimelyAppend(start, a1, SetBloomFilter(none));
    TimelyAppend(start, a2, Receive(0, 1, 0));
    var r := Run(start, acts).receipts[0];
    assert r.tag.bloom.value == start.bloom.current && r.terms.bloom == Some(none);
    assert x !in Members(none) && x in Asked(r.tag.bloom.value);
    assert !TopicsCovered(r.tag.bloom.value, r.terms.bloom, r.terms.bloomTolerated);
    UnsafeSomewhere(limit, Run(start, acts).receipts, 0);
  }

  // ---- What an untimely schedule does ----

  /** Two changes within one window: the peer follows the first notice, and what it sends is turned down. */
  lemma OverlapRejects(limit: Uint32, low: real, high: real, now: Clock) returns (acts: seq<Action>)
    requires limit >= ENVELOPE_HEADER_LENGTH && 0.0 <= low <= MOST_WORK && Next(low) <= high
    ensures acts == [SetMinimumPoW(low), DeliverPoWNotice, Broadcast, SetMinimumPoW(high), Receive(0, now, 0)]
    ensures !Safe(limit, Run(Start(high, high, None, None), acts).receipts)
  {
    var start := Start(high, high, None, None);
    NextAbove(low);
    var a1 := [SetMinimumPoW(low)];
    var a2 := a1 + [DeliverPoWNotice];
    var a3 := a2 + [Broadcast];
    var a4 := a3 + [SetMinimumPoW(high)];
    acts := a4 + [Receive(0, now, 0)];
    RunOne(start, SetMinimumPoW(low));
    TimelyAppend(start, a1, DeliverPoWNotice);
    TimelyAppend(start, a2, Broadcast);
    TimelyAppend(start, a3, SetMinimumPoW(high));
    TimelyAppend(start, a4, Receive(0, now, 0));
    var r := Run(start, acts).receipts[0];
    assert r.tag.pow.value == low && r.terms.Bar() == high;
    OnTimeExact(limit, now, low, high);
    assert 0 in Asked(None);
    UnsafeSomewhere(limit, Run(start, acts).receipts, 0);
  }

  lemma NextAbove(low: real)
    ensures low < Next(low)
  {
    assert SPACING > 0.0;
    if low >= LEAST_WORK {
      Work.TimesStrict(low, 1.0, 1.0 + SPACING);
    }
  }

  /** A receiver up to ten seconds behind turns down some envelope without any change at all, for every
      requirement above the worth of the longest envelope of lifetime zero. */
  lemma SlowClockRejects(limit: Uint32, pow: real, now: Clock, lag: nat) returns (acts: seq<Action>)
    requires limit >= ENVELOPE_HEADER_LENGTH && Late(now, lag) && !Work.AtLeast(LateWorth(limit, now, lag), pow)
    ensures acts == [Broadcast, Receive(0, now, lag)]
    ensures !Safe(limit, Run(Start(pow, pow, None, None), acts).receipts)
  {
    var start := Start(pow, pow, None, None);
    acts := [Broadcast] + [Receive(0, now, lag)];
    RunOne(start, Broadcast);
    TimelyAppend(start, [Broadcast], Receive(0, now, lag));
    var receipts := Run(start, acts).receipts;
    if NothingLost(limit, now, lag, pow, pow) { LateNeeds(limit, now, lag, pow, pow); }
    assert 0 in Asked(None);
    UnsafeSomewhere(limit, receipts, 0);
  }
}
