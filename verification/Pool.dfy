/** The envelope pool: envelopes by digest, an index of digests by expiry second,
    and the statistics kept beside them. */
module Pool {
  import opened Types
  import opened Sums
  import Gate
  import Work

  datatype Statistics = Statistics(
    messagesCleared: nat,
    memoryCleared: nat,
    memoryUsed: int,
    cycles: nat,
    totalMessagesCleared: nat)
  {
    /** Start of an expiry cycle. */
    function Reset(): Statistics {
      Statistics(0, 0, memoryUsed, cycles + 1, totalMessagesCleared + messagesCleared)
    }
  }

  const NO_STATISTICS := Statistics(0, 0, 0, 0, 0)

  datatype Pool = Pool(
    envelopes: map<Hash, Envelope>,
    expirations: map<Uint32, set<Hash>>,
    stats: Statistics)

  const EMPTY := Pool(map[], map[], NO_STATISTICS)

  /** The index lists each pooled digest under its own expiry and nothing else, and has no empty bucket. */
  ghost predicate Lists(expirations: map<Uint32, set<Hash>>, envelopes: map<Hash, Envelope>) {
    && (forall h | h in envelopes ::
          envelopes[h].hash == h && envelopes[h].expiry in expirations && h in expirations[envelopes[h].expiry])
    && (forall x, h | x in expirations && h in expirations[x] :: h in envelopes && envelopes[h].expiry == x)
    && (forall x | x in expirations :: expirations[x] != {})
  }

  ghost predicate Indexed(p: Pool) {
    Lists(p.expirations, p.envelopes)
  }

  ghost function Sizes(m: map<Hash, Envelope>): map<Hash, nat> {
    map h | h in m :: m[h].Size()
  }

  /** Bytes taken by the envelopes with the given digests. */
  ghost function SizeOf(m: map<Hash, Envelope>, hashes: set<Hash>): nat {
    Sum(Restrict(Sizes(m), hashes))
  }

  lemma SizeOfInsert(m: map<Hash, Envelope>, hashes: set<Hash>, h: Hash)
    requires h in m && h !in hashes
    ensures SizeOf(m, hashes + {h}) == SizeOf(m, hashes) + m[h].Size()
  {
    SumInsert(Restrict(Sizes(m), hashes), h, m[h].Size());
    assert Restrict(Sizes(m), hashes + {h}) == Restrict(Sizes(m), hashes)[h := m[h].Size()];
  }

  lemma SizeOfSplit(m: map<Hash, Envelope>, hashes: set<Hash>)
    requires hashes <= m.Keys
    ensures Sum(Sizes(m)) == Sum(Sizes(m - hashes)) + SizeOf(m, hashes)
  {
    SumSplit(Sizes(m), hashes);
    assert Sizes(m) - hashes == Sizes(m - hashes);
  }

  ghost function TotalSize(p: Pool): nat {
    Sum(Sizes(p.envelopes))
  }

  // ---- Insertion ----

  function Bucket(p: Pool, x: Uint32): set<Hash> {
    if x in p.expirations then p.expirations[x] else {}
  }

  /** The part of `add` done under the pool lock. */
  function Insert(p: Pool, e: Envelope): Pool {
    if e.hash in p.envelopes then p
    else p.(envelopes := p.envelopes[e.hash := e],
            expirations := p.expirations[e.expiry := Bucket(p, e.expiry) + {e.hash}])
  }

  /** The part of `add` done later under the statistics lock. */
  function CountMemory(p: Pool, e: Envelope): Pool {
    p.(stats := p.stats.(memoryUsed := p.stats.memoryUsed + e.Size()))
  }

  /** The pool after a call of `add` without interference that comes to the given verdict. */
  function Added(p: Pool, e: Envelope, verdict: Gate.Verdict): Pool {
    if verdict.Pass? && e.hash !in p.envelopes then CountMemory(Insert(p, e), e) else p
  }

  lemma InsertKeepsIndex(p: Pool, e: Envelope)
    requires Indexed(p)
    ensures Indexed(Insert(p, e))
  {
    var q := Insert(p, e);
    if e.hash !in p.envelopes {
      forall x | x in q.expirations ensures x == e.expiry || (x in p.expirations && q.expirations[x] == p.expirations[x]) {
      }
      forall h | h in p.envelopes ensures h in q.expirations[p.envelopes[h].expiry] {
      }
    }
  }

  lemma InsertGrows(p: Pool, e: Envelope)
    requires e.hash !in p.envelopes
    ensures TotalSize(Insert(p, e)) == TotalSize(p) + e.Size()
  {
    SumInsert(Sizes(p.envelopes), e.hash, e.Size());
    assert Sizes(Insert(p, e).envelopes) == Sizes(p.envelopes)[e.hash := e.Size()];
  }

  // ---- Expiry ----

  /** The digests in buckets of seconds before `now`, leaving out the seconds in `except`. */
  function StaleExcept(p: Pool, now: Uint32, except: set<Uint32>): set<Hash> {
    set x, h | x in p.expirations.Keys - except && x < now && h in p.expirations[x] :: h
  }

  function Stale(p: Pool, now: Uint32): set<Hash> {
    StaleExcept(p, now, {})
  }

  /** The index without the buckets of seconds before `now` that are not in `except`. */
  function Remaining(p: Pool, now: Uint32, except: set<Uint32>): map<Uint32, set<Hash>> {
    map x | x in p.expirations && (x in except || x >= now) :: p.expirations[x]
  }

  /** The statistics of a cycle that has removed the digests in `gone`. */
  ghost function ClearedStats(p: Pool, gone: set<Hash>): Statistics {
    var size := SizeOf(p.envelopes, gone);
    p.stats.Reset().(messagesCleared := |gone|, memoryCleared := size, memoryUsed := p.stats.memoryUsed - size)
  }

  /** One expiry cycle. Taking the size of an envelope that is not pooled would fail. */
  ghost function Expire(p: Pool, now: Uint32): Option<Pool> {
    var stale := Stale(p, now);
    if !(stale <= p.envelopes.Keys) then None
    else Some(Pool(p.envelopes - stale, Remaining(p, now, {}), ClearedStats(p, stale)))
  }

  /** In an indexed pool the stale digests are those of the envelopes past their expiry. */
  lemma StaleExact(p: Pool, now: Uint32)
    requires Indexed(p)
    ensures forall h :: h in Stale(p, now) <==> h in p.envelopes && p.envelopes[h].expiry < now
  {
    forall h | h in p.envelopes && p.envelopes[h].expiry < now ensures h in Stale(p, now) {
      var x := p.envelopes[h].expiry;
      assert x in p.expirations && x < now && h in p.expirations[x];
    }
  }

  lemma RemainingLists(p: Pool, now: Uint32)
    requires Indexed(p)
    ensures Lists(Remaining(p, now, {}), p.envelopes - Stale(p, now))
  {
    StaleExact(p, now);
  }

  /** An indexed pool expires without failure, stays indexed, and loses exactly the envelopes past their expiry. */
  lemma ExpireKeepsIndex(p: Pool, now: Uint32)
    requires Indexed(p)
    ensures Expire(p, now).Some? && Indexed(Expire(p, now).value)
    ensures Expire(p, now).value.envelopes == map h | h in p.envelopes && p.envelopes[h].expiry >= now :: p.envelopes[h]
  {
    StaleExact(p, now);
    RemainingLists(p, now);
  }

  /** A cycle takes from the memory count what it takes from the pool, reports as much, and counts itself. */
  lemma ExpireBalances(p: Pool, now: Uint32)
    requires Indexed(p) && Expire(p, now).Some?
    ensures TotalSize(p) - TotalSize(Expire(p, now).value) == p.stats.memoryUsed - Expire(p, now).value.stats.memoryUsed
    ensures TotalSize(p) - TotalSize(Expire(p, now).value) == Expire(p, now).value.stats.memoryCleared
    ensures Expire(p, now).value.stats.cycles == p.stats.cycles + 1
  {
    SizeOfSplit(p.envelopes, Stale(p, now));
  }

  // ---- The node's pool as an object ----

  class Whisper {
    var envelopes: map<Hash, Envelope>
    var expirations: map<Uint32, set<Hash>>
    var stats: Statistics

    ghost function View(): Pool
      reads this
    {
      Pool(envelopes, expirations, stats)
    }

    constructor ()
      ensures View() == EMPTY && Indexed(View())
    {
      envelopes, expirations, stats := map[], map[], NO_STATISTICS;
    }

    method InsertLocked(e: Envelope) returns (alreadyCached: bool)
      requires Indexed(View())
      modifies this
      ensures alreadyCached == (e.hash in old(envelopes))
      ensures View() == Insert(old(View()), e) && Indexed(View())
    {
      alreadyCached := e.hash in envelopes;
      if !alreadyCached {
        InsertKeepsIndex(View(), e);
        envelopes := envelopes[e.hash := e];
        if e.expiry !in expirations {
          expirations := expirations[e.expiry := {}];
        }
        if e.hash !in expirations[e.expiry] {
          expirations := expirations[e.expiry := expirations[e.expiry] + {e.hash}];
        }
      }
    }

    method AccountMemory(e: Envelope)
      modifies this`stats
      ensures View() == CountMemory(old(View()), e)
    {
      stats := stats.(memoryUsed := stats.memoryUsed + e.Size());
    }

    /** The whole of `add` without interference. The caller posts the envelope exactly on a miss. */
    method Add(s: Gate.Settings, now: Uint32, e: Envelope, zeros: nat, stored: Work.Work)
      returns (cached: bool, verdict: Gate.Verdict, miss: bool)
      requires Indexed(View())
      modifies this
      ensures Indexed(View())
      ensures verdict == Gate.Judge(s, now, e, zeros, stored) && cached == verdict.Pass?
      ensures miss == (verdict.Pass? && e.hash !in old(envelopes))
      ensures View() == Added(old(View()), e, verdict)
      ensures e.hash in envelopes && e.hash !in old(envelopes) ==>
        && Gate.InTime(now, e) && Gate.Small(s.maxMessageSize, e)
        && Gate.Worth(now, e, zeros, stored, Gate.Bar(s)) && Gate.Wanted(s, e.topic)
    {
      miss := false;
      verdict := Gate.Check(s, now, e, zeros, stored);
      Gate.VerdictExact(s, now, e, zeros, stored);
      if !verdict.Pass? {
        return false, verdict, false;
      }
      var alreadyCached := InsertLocked(e);
      if !alreadyCached {
        AccountMemory(e);
        miss := true;
      }
      cached := true;
    }

    /** One expiry cycle; `events` are the digests announced as expired, in the order of removal. */
    method ExpireCycle(now: Uint32) returns (events: seq<Hash>)
      requires Indexed(View())
      modifies this
      ensures Indexed(View()) && Some(View()) == Expire(old(View()), now)
      ensures Enumerates(events, Stale(old(View()), now)) && |events| == stats.messagesCleared
    {
      ghost var before := View();
      stats := stats.Reset();
      events := [];
      var todo := expirations.Keys;
      NothingCleared(before, now);
      ghost var gone := StaleExcept(before, now, todo);
      while todo != {}
        invariant todo <= before.expirations.Keys
        invariant expirations == Remaining(before, now, todo)
        invariant gone == StaleExcept(before, now, todo)
        invariant Cleared(before, gone, events)
        decreases todo
      {
        var x :| x in todo;
        ClearBucketStep(before, now, todo, x);
        if x < now {
          events := ClearBucket(expirations[x], events, before, gone);
          gone := gone + before.expirations[x];
          expirations := expirations - {x};
        }
        todo := todo - {x};
      }
      ExpireKeepsIndex(before, now);
      EnumerationLength(events, gone);
    }

    /** Removes the envelopes of one bucket, announcing each. */
    method ClearBucket(bucket: set<Hash>, events: seq<Hash>, ghost before: Pool, ghost gone: set<Hash>)
      returns (more: seq<Hash>)
      requires Cleared(before, gone, events)
      requires bucket <= before.envelopes.Keys && bucket !! gone
      modifies this`envelopes, this`stats
      ensures Cleared(before, gone + bucket, more)
    {
      more := events;
      var hashes := bucket;
      ghost var done := gone;
      while hashes != {}
        invariant hashes <= bucket && hashes !! done && gone <= done <= gone + bucket <= done + hashes
        invariant Cleared(before, done, more)
        decreases hashes
      {
        var h :| h in hashes;
        Remove(h, before, done, more);
        more := more + [h];
        done := done + {h};
        hashes := hashes - {h};
      }
      assert done == gone + bucket;
    }

    /** Removes one envelope and counts it. */
    method Remove(h: Hash, ghost before: Pool, ghost gone: set<Hash>, ghost events: seq<Hash>)
      requires Cleared(before, gone, events) && h in before.envelopes && h !in gone
      modifies this`envelopes, this`stats
      ensures Cleared(before, gone + {h}, events + [h])
    {
      ClearOne(before, gone, h, events);
      var size := envelopes[h].Size();
      envelopes := envelopes - {h};
      stats := stats.(messagesCleared := stats.messagesCleared + 1,
                      memoryCleared := stats.memoryCleared + size,
                      memoryUsed := stats.memoryUsed - size);
    }

    /** What a cycle has done once the digests in `gone` are removed. */
    ghost predicate Cleared(before: Pool, gone: set<Hash>, events: seq<Hash>)
      reads this
    {
      && envelopes == before.envelopes - gone
      && stats == ClearedStats(before, gone)
      && Enumerates(events, gone)
    }

    /** All pooled envelopes, each once. */
    method Envelopes() returns (all: seq<Envelope>)
      requires Indexed(View())
      ensures |all| == |envelopes| && forall e :: e in all <==> e.hash in envelopes && envelopes[e.hash] == e
    {
      all := [];
      var todo := envelopes.Keys;
      while todo != {}
        invariant todo <= envelopes.Keys
        invariant |all| + |todo| == |envelopes.Keys|
        invariant forall e :: e in all <==> e.hash in envelopes.Keys - todo && envelopes[e.hash] == e
        decreases todo
      {
        var h :| h in todo;
        todo := todo - {h};
        all := all + [envelopes[h]];
      }
    }

    method IsEnvelopeCached(h: Hash) returns (exist: bool)
      ensures exist <==> h in View().envelopes
    {
      exist := h in envelopes;
    }
  }

  lemma NothingCleared(p: Pool, now: Uint32)
    ensures StaleExcept(p, now, p.expirations.Keys) == {}
    ensures Remaining(p, now, p.expirations.Keys) == p.expirations
    ensures ClearedStats(p, {}) == p.stats.Reset()
    ensures p.envelopes - {} == p.envelopes
  {
    assert Restrict(Sizes(p.envelopes), {}) == map[];
  }

  lemma ClearOne(p: Pool, gone: set<Hash>, h: Hash, events: seq<Hash>)
    requires h in p.envelopes && h !in gone && Enumerates(events, gone)
    ensures Enumerates(events + [h], gone + {h})
    ensures p.envelopes - (gone + {h}) == p.envelopes - gone - {h}
    ensures var s := ClearedStats(p, gone);
            var size := p.envelopes[h].Size();
            ClearedStats(p, gone + {h}) ==
            s.(messagesCleared := s.messagesCleared + 1, memoryCleared := s.memoryCleared + size, memoryUsed := s.memoryUsed - size)
  {
    SizeOfInsert(p.envelopes, gone, h);
  }

  lemma ClearBucketStep(p: Pool, now: Uint32, todo: set<Uint32>, x: Uint32)
    requires Indexed(p) && x in todo && todo <= p.expirations.Keys
    ensures x >= now ==> StaleExcept(p, now, todo - {x}) == StaleExcept(p, now, todo)
                         && Remaining(p, now, todo - {x}) == Remaining(p, now, todo)
    ensures x < now ==>
              && p.expirations[x] <= p.envelopes.Keys
              && p.expirations[x] !! StaleExcept(p, now, todo)
              && StaleExcept(p, now, todo - {x}) == StaleExcept(p, now, todo) + p.expirations[x]
              && Remaining(p, now, todo - {x}) == Remaining(p, now, todo) - {x}
  {
    BucketsDisjoint(p, now, todo, x);
    forall h | x < now && h in p.expirations[x] ensures h in StaleExcept(p, now, todo - {x}) {
      assert x in p.expirations.Keys - (todo - {x});
    }
    forall h | h in StaleExcept(p, now, todo) ensures h in StaleExcept(p, now, todo - {x}) {
      var y :| y in p.expirations.Keys - todo && y < now && h in p.expirations[y];
      assert y in p.expirations.Keys - (todo - {x});
    }
  }

  lemma BucketsDisjoint(p: Pool, now: Uint32, todo: set<Uint32>, x: Uint32)
    requires Indexed(p) && x in todo && todo <= p.expirations.Keys
    ensures p.expirations[x] <= p.envelopes.Keys && p.expirations[x] !! StaleExcept(p, now, todo)
  {
  }
}
