/** A connected peer: what it advertised, what it already knows, and what is sent to it. */
module Peer {
  import opened Types
  import opened Bloom
  import Work

  /** The work field of a status packet or a requirement notice. */
  datatype PoWField = Number(value: real) | NotFinite

  predicate ValidPoW(f: PoWField) {
    f.Number? && f.value >= 0.0
  }

  const PROTOCOL_VERSION := 6

  /** Work and filter as a status packet may carry them; without a work value the filter is not read. */
  predicate Acceptable(pow: Option<PoWField>, bloom: Option<Bytes>) {
    pow.Some? ==>
      ValidPoW(pow.value) && (bloom.Some? ==> |bloom.value| == 0 || |bloom.value| == BLOOM_FILTER_SIZE)
  }

  /** The positions a peer asked for; an absent or empty filter asks for everything. */
  ghost function Advertised(filter: Option<Bytes>): set<nat>
    requires filter.Some? ==> |filter.value| == 0 || |filter.value| == BLOOM_FILTER_SIZE
  {
    if filter.None? || filter.value == [] then EVERY_POSITION else Members(filter.value)
  }

  /** Worth sending to a peer that asks for `pow` and covers the given positions. */
  ghost predicate Suits(e: Envelope, pow: real, covers: set<nat>, work: Envelope -> Work.Work) {
    Work.AtLeast(work(e), pow) && TopicMembers(e.topic) <= covers
  }

  /** Of a snapshot, the envelopes to send, in the same order. */
  ghost function Selected(envelopes: seq<Envelope>, known: set<Hash>, pow: real, covers: set<nat>,
                          work: Envelope -> Work.Work): seq<Envelope> {
    if envelopes == [] then []
    else
      var e := envelopes[|envelopes| - 1];
      Selected(envelopes[..|envelopes| - 1], known, pow, covers, work)
      + if e.hash !in known && Suits(e, pow, covers, work) then [e] else []
  }

  /** Every envelope that is unknown to the peer and suits it is listed as often as in the snapshot, and no other. */
  ghost predicate ExactlyWanted(bundle: seq<Envelope>, envelopes: seq<Envelope>, known: set<Hash>, pow: real,
                                covers: set<nat>, work: Envelope -> Work.Work) {
    forall e :: multiset(bundle)[e] == if e.hash !in known && Suits(e, pow, covers, work) then multiset(envelopes)[e] else 0
  }

  lemma SelectedIsWanted(envelopes: seq<Envelope>, known: set<Hash>, pow: real, covers: set<nat>, work: Envelope -> Work.Work)
    ensures ExactlyWanted(Selected(envelopes, known, pow, covers, work), envelopes, known, pow, covers, work)
  {
    forall e
      ensures multiset(Selected(envelopes, known, pow, covers, work))[e]
              == if e.hash !in known && Suits(e, pow, covers, work) then multiset(envelopes)[e] else 0
    {
      SelectedCount(envelopes, known, pow, covers, work, e);
    }
  }

  lemma {:induction false} SelectedCount(envelopes: seq<Envelope>, known: set<Hash>, pow: real, covers: set<nat>,
                                        work: Envelope -> Work.Work, e: Envelope)
    ensures multiset(Selected(envelopes, known, pow, covers, work))[e]
            == if e.hash !in known && Suits(e, pow, covers, work) then multiset(envelopes)[e] else 0
    decreases |envelopes|
  {
    if envelopes != [] {
      SplitLast(envelopes);
      var (rest, last) := (envelopes[..|envelopes| - 1], envelopes[|envelopes| - 1]);
      SelectedCount(rest, known, pow, covers, work, e);
      CountAppend(rest, last, e);
      CountAppend(Selected(rest, known, pow, covers, work), last, e);
      SelectedAppend(rest, last, known, pow, covers, work);
    }
  }

  lemma SelectedAppend(rest: seq<Envelope>, last: Envelope, known: set<Hash>, pow: real, covers: set<nat>,
                       work: Envelope -> Work.Work)
    ensures var before := Selected(rest, known, pow, covers, work);
            Selected(rest + [last], known, pow, covers, work)
            == if last.hash !in known && Suits(last, pow, covers, work) then before + [last] else before
  {
    assert (rest + [last])[..|rest|] == rest;
  }

  class Peer {
    var known: set<Hash>
    var powRequirement: real
    var bloomFilter: Bytes
    var fullNode: bool
    var confirmationsEnabled: bool

    /** A peer without the shortcut holds a whole filter. */
    predicate Valid()
      reads this
    {
      (!fullNode ==> |bloomFilter| == BLOOM_FILTER_SIZE) && powRequirement >= 0.0
    }

    /** The positions the peer is taken to ask for. */
    ghost function Covers(): set<nat>
      requires Valid()
      reads this
    {
      if fullNode then EVERY_POSITION else Members(bloomFilter)
    }

    constructor ()
      ensures Valid() && Covers() == EVERY_POSITION && powRequirement == 0.0 && known == {}
      ensures !confirmationsEnabled
    {
      known, powRequirement, confirmationsEnabled := {}, 0.0, false;
      bloomFilter, fullNode := seq(BLOOM_FILTER_SIZE, _ => 255), true;
    }

    method SetBloomFilter(bloom: Option<Bytes>)
      requires bloom.Some? ==> |bloom.value| == 0 || |bloom.value| == BLOOM_FILTER_SIZE
      requires powRequirement >= 0.0
      modifies this`bloomFilter, this`fullNode
      ensures Valid() && Covers() == Advertised(bloom)
    {
      bloomFilter := if bloom.None? then [] else bloom.value;
      fullNode := IsFullNode(bloom);
      if fullNode && bloom.None? {
        bloomFilter := seq(BLOOM_FILTER_SIZE, _ => 255);
      }
      if bloom.Some? && |bloom.value| == BLOOM_FILTER_SIZE { OnesAreEverything(bloom.value); }
    }

    /** The status packet: `light` and `confirmations` are false where the packet has no such field. Another version, a
        bad work value, a filter of the wrong size, or two light clients of which this one is restricted, end it. */
    method Handshake(version: nat, pow: Option<PoWField>, bloom: Option<Bytes>, light: bool, confirmations: bool,
                     lightNode: bool, restricted: bool)
      returns (ok: bool)
      requires Valid()
      modifies this`powRequirement, this`bloomFilter, this`fullNode, this`confirmationsEnabled
      ensures Valid()
      ensures ok <==> version == PROTOCOL_VERSION && Acceptable(pow, bloom) && !(light && lightNode && restricted)
      ensures ok && pow.Some? ==> powRequirement == pow.value.value
      ensures pow.None? ==> powRequirement == old(powRequirement)
      ensures ok && pow.Some? && bloom.Some? ==> Covers() == Advertised(bloom)
      ensures pow.None? || (ok && bloom.None?) ==> Covers() == old(Covers())
      ensures ok ==> confirmationsEnabled == (old(confirmationsEnabled) || confirmations)
    {
      if version != PROTOCOL_VERSION {
        return false;
      }
      if pow.Some? {
        if !ValidPoW(pow.value) {
          return false;
        }
        powRequirement := pow.value.value;
        if bloom.Some? {
          if |bloom.value| != BLOOM_FILTER_SIZE && |bloom.value| != 0 {
            return false;
          }
          SetBloomFilter(bloom);
        }
      }
      if light && lightNode && restricted {
        return false;
      }
      if confirmations {
        confirmationsEnabled := true;
      }
      return true;
    }

    method HandleBloomUpdate(bloom: Bytes) returns (ok: bool)
      requires Valid()
      modifies this`bloomFilter, this`fullNode
      ensures Valid() && (ok <==> |bloom| == BLOOM_FILTER_SIZE)
      ensures Covers() == if ok then Members(bloom) else old(Covers())
    {
      if |bloom| != BLOOM_FILTER_SIZE {
        return false;
      }
      SetBloomFilter(Some(bloom));
      return true;
    }

    method HandlePoWUpdate(pow: PoWField) returns (ok: bool)
      requires Valid()
      modifies this`powRequirement
      ensures Valid() && (ok <==> ValidPoW(pow))
      ensures powRequirement == if ok then pow.value else old(powRequirement)
    {
      if !ValidPoW(pow) {
        return false;
      }
      powRequirement := pow.value;
      return true;
    }

    /** The shortcut for full nodes agrees with the subset test on the advertised filter. */
    method BloomMatch(t: Topic) returns (ok: bool)
      requires Valid()
      ensures ok <==> TopicMembers(t) <= Covers()
    {
      if fullNode {
        assert TopicMembers(t) <= EVERY_POSITION;
        return true;
      }
      var sample := TopicToBloom(t);
      ok := BloomFilterMatch(Some(bloomFilter), sample);
    }

    method Mark(h: Hash)
      modifies this`known
      ensures known == old(known) + {h}
    {
      known := known + {h};
    }

    /** Visits one known digest, whichever comes first, and drops it if it is no longer pooled. */
    method Expire(pooled: set<Hash>) returns (visited: Option<Hash>)
      modifies this`known
      ensures visited.None? <==> old(known) == {}
      ensures visited.Some? ==> visited.value in old(known)
      ensures known == old(known) - if visited.Some? && visited.value !in pooled then {visited.value} else {}
    {
      visited := None;
      if known != {} {
        var h :| h in known;
        visited := Some(h);
        if h !in pooled {
          known := known - {h};
        }
      }
    }

    /** Collects from a snapshot of the pool what the peer wants. */
    method Collect(envelopes: seq<Envelope>, work: Envelope -> Work.Work) returns (bundle: seq<Envelope>)
      requires Valid()
      ensures bundle == Selected(envelopes, known, powRequirement, Covers(), work)
    {
      bundle := [];
      for i := 0 to |envelopes|
        invariant bundle == Selected(envelopes[..i], known, powRequirement, Covers(), work)
      {
        var e := envelopes[i];
        assert envelopes[..i + 1][..i] == envelopes[..i];
        var wanted := BloomMatch(e.topic);
        if e.hash !in known && Work.AtLeast(work(e), powRequirement) && wanted {
          bundle := bundle + [e];
        }
      }
      assert envelopes[..|envelopes|] == envelopes;
    }

    /** Sends what the peer wants of a snapshot, and marks it once it is sent. */
    method Broadcast(envelopes: seq<Envelope>, work: Envelope -> Work.Work, delivered: bool)
      returns (bundle: seq<Envelope>)
      requires Valid()
      modifies this`known
      ensures Valid()
      ensures ExactlyWanted(bundle, envelopes, old(known), powRequirement, Covers(), work)
      ensures bundle == Selected(envelopes, old(known), powRequirement, Covers(), work)
      ensures known == old(known) + if delivered then DigestsOf(bundle) else {}
    {
      bundle := Collect(envelopes, work);
      SelectedIsWanted(envelopes, known, powRequirement, Covers(), work);
      if delivered {
        MarkAll(bundle);
      }
    }

    method MarkAll(bundle: seq<Envelope>)
      modifies this`known
      ensures known == old(known) + DigestsOf(bundle)
    {
      for i := 0 to |bundle|
        invariant known == old(known) + set k | 0 <= k < i :: bundle[k].hash
      {
        Mark(bundle[i].hash);
      }
      assert (set k | 0 <= k < |bundle| :: bundle[k].hash) == DigestsOf(bundle);
    }
  }

  function DigestsOf(bundle: seq<Envelope>): set<Hash> {
    set e | e in bundle :: e.hash
  }
}
