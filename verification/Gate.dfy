/** The checks an envelope passes before it may enter the pool. */
module Gate {
  import opened Types
  import opened Bloom
  import Bits
  import Work

  const DEFAULT_MINIMUM_POW := 0.2

  datatype Verdict = Future | VeryOld | Expired | Oversized | LowPoW | NoBloomMatch | Pass

  // ---- Time ----

  datatype TimeOutcome = TooEarly | TooLate | Dropped | Continue(penalty: Uint32)

  /** The time checks in 32-bit arithmetic. The penalty of an envelope sent ahead of
      the clock is the time difference plus one second; otherwise there is none. */
  function TimeGate(now: Uint32, expiry: Uint32, ttl: Uint32): TimeOutcome {
    var sent := (expiry - ttl) % TWO_32;
    if sent > now && (sent - DEFAULT_SYNC_ALLOWANCE) % TWO_32 > now then TooEarly
    else if expiry < now then
      if (expiry + DEFAULT_SYNC_ALLOWANCE * 2) % TWO_32 < now then TooLate else Dropped
    else Continue(if sent > now then sent - now + 1 else 0)
  }

  /** The same rule over unbounded integers, given the moment of sending. */
  function IdealTimeGate(now: int, expiry: int, sent: int): TimeOutcome
  {
    if sent > now + DEFAULT_SYNC_ALLOWANCE then TooEarly
    else if expiry + DEFAULT_SYNC_ALLOWANCE * 2 < now then TooLate
    else if expiry < now then Dropped
    else Continue(if sent > now then sent - now + 1 else 0)
  }

  predicate Agrees(now: Uint32, expiry: Uint32, ttl: Uint32)
  {
    TimeGate(now, expiry, ttl) == IdealTimeGate(now, expiry, (expiry - ttl) % TWO_32)
  }

  /** Wrap-around changes the outcome for two families of envelopes and no others:
      sent within the first ten seconds of the epoch but after the clock, and
      already expired within the last twenty seconds of the 32-bit range. */
  lemma TimeGateExact(now: Uint32, expiry: Uint32, ttl: Uint32)
    ensures var sent := (expiry - ttl) % TWO_32;
            Agrees(now, expiry, ttl) <==>
              !(now < sent < 10) && !(sent <= now + 10 && TWO_32 - 20 <= expiry < now)
  {
  }

  /** The clocks at which no envelope is misjudged. */
  lemma ClockRangeExact(now: Uint32)
    ensures (forall expiry: Uint32, ttl: Uint32 :: Agrees(now, expiry, ttl)) <==> 9 <= now <= TWO_32 - 20
  {
    if 9 <= now <= TWO_32 - 20 {
      forall expiry: Uint32, ttl: Uint32 ensures Agrees(now, expiry, ttl) {
        TimeGateExact(now, expiry, ttl);
      }
    } else if now < 9 {
      TimeGateExact(now, 9, 0);
      assert !Agrees(now, 9, 0);
    } else {
      TimeGateExact(now, TWO_32 - 20, 0);
      assert !Agrees(now, TWO_32 - 20, 0);
    }
  }

  /** Whatever the clock, an admitted envelope has not expired and will within its lifetime and the allowance. */
  lemma AdmittedLifetime(now: Uint32, expiry: Uint32, ttl: Uint32)
    requires TimeGate(now, expiry, ttl).Continue?
    ensures now <= expiry <= now + DEFAULT_SYNC_ALLOWANCE + ttl
    ensures TimeGate(now, expiry, ttl).penalty <= DEFAULT_SYNC_ALLOWANCE + 1
  {
  }

  // ---- Proof of work and topic ----

  datatype Settings = Settings(
    maxMessageSize: Uint32,
    minPoW: Option<real>,
    minPoWTolerance: Option<real>,
    bloom: Option<Bloom>,
    bloomTolerance: Option<Bloom>)
  {
    function MinPoW(): real {
      if minPoW.None? then DEFAULT_MINIMUM_POW else minPoW.value
    }

    function MinPoWTolerance(): real {
      if minPoWTolerance.None? then DEFAULT_MINIMUM_POW else minPoWTolerance.value
    }
  }

  /** Required or tolerated. */
  predicate PoWGate(required: real, tolerated: real, w: Work.Work) {
    Work.AtLeast(w, required) || Work.AtLeast(w, tolerated)
  }

  ghost predicate BloomGate(required: Option<Bloom>, tolerated: Option<Bloom>, t: Topic) {
    Accepts(required, t) || Accepts(tolerated, t)
  }

  /** Work of an envelope whose work digest has `zeros` leading zero bits. */
  function EnvelopeWork(e: Envelope, zeros: nat, penalty: Uint32): Work.Work {
    Work.WorkOf(zeros, Work.RlpLength(e.expiry, e.ttl, e.data), e.ttl, penalty)
  }

  /** The value that is judged. A penalty makes it be computed anew; otherwise a value stored before is used. */
  function JudgedWork(e: Envelope, zeros: nat, penalty: Uint32, stored: Work.Work): Work.Work {
    if penalty == 0 && stored != Work.NOT_COMPUTED then stored else EnvelopeWork(e, zeros, penalty)
  }

  /** The checks in the order of `add`; the first that fails decides. */
  ghost function Judge(s: Settings, now: Uint32, e: Envelope, zeros: nat, stored: Work.Work): Verdict {
    match TimeGate(now, e.expiry, e.ttl)
    case TooEarly => Future
    case TooLate => VeryOld
    case Dropped => Expired
    case Continue(penalty) =>
      if e.Size() % TWO_32 > s.maxMessageSize then Oversized
      else if !PoWGate(s.MinPoW(), s.MinPoWTolerance(), JudgedWork(e, zeros, penalty, stored)) then LowPoW
      else if !BloomGate(s.bloom, s.bloomTolerance, e.topic) then NoBloomMatch
      else Pass
  }

  // ---- The verdicts in numbers and sets ----

  /** Sent more than ten seconds ahead of the clock; or, by wrap-around, in the first ten seconds of the epoch and after it. */
  predicate Ahead(now: Uint32, e: Envelope) {
    var sent := (e.expiry - e.ttl) % 0x1_0000_0000;
    sent > now + 10 || now < sent < 10
  }

  /** Expired more than twenty seconds ago; or, by wrap-around, in the last twenty seconds of the 32-bit range. */
  predicate LongGone(now: Uint32, e: Envelope) {
    e.expiry < now && (e.expiry + 20 < now || e.expiry >= 0x1_0000_0000 - 20)
  }

  predicate InTime(now: Uint32, e: Envelope) {
    !Ahead(now, e) && now <= e.expiry
  }

  predicate Small(limit: Uint32, e: Envelope) {
    (20 + |e.data|) % 0x1_0000_0000 <= limit
  }

  /** Seconds added to the lifetime of an envelope sent ahead of the clock. */
  function Seconds(now: Uint32, e: Envelope): nat {
    var sent := (e.expiry - e.ttl) % 0x1_0000_0000;
    if sent > now then sent - now + 1 else 0
  }

  /** Worth at least `bar`: a value stored before decides if no seconds are added; otherwise two to the number
      of zero bits is compared with the bar times the length of the encoding times the lifetime. */
  predicate Worth(now: Uint32, e: Envelope, zeros: nat, stored: Work.Work, bar: real) {
    var lifetime := (e.ttl + Seconds(now, e)) % 0x1_0000_0000;
    if Seconds(now, e) == 0 && stored != Work.Finite(0.0) then stored.Infinite? || stored.value >= bar
    else lifetime == 0
         || Bits.Pow2(zeros) as real >= Work.Scaled(bar, Work.RlpLength(e.expiry, e.ttl, e.data) * lifetime)
  }

  /** The lower of required and tolerated work, each 0.2 if unset. */
  function Bar(s: Settings): real {
    var required := if s.minPoW.Some? then s.minPoW.value else 0.2;
    var tolerated := if s.minPoWTolerance.Some? then s.minPoWTolerance.value else 0.2;
    if required < tolerated then required else tolerated
  }

  /** The positions of the topic are all in the one filter or all in the other; an absent filter has all. */
  ghost predicate Wanted(s: Settings, t: Topic) {
    || s.bloom.None? || s.bloomTolerance.None?
    || TopicMembers(t) <= Members(s.bloom.value) || TopicMembers(t) <= Members(s.bloomTolerance.value)
  }

  lemma TimeExact(now: Uint32, e: Envelope)
    ensures var g := TimeGate(now, e.expiry, e.ttl);
            && (g.TooEarly? <==> Ahead(now, e))
            && (g.TooLate? <==> !Ahead(now, e) && LongGone(now, e))
            && (g.Dropped? <==> !Ahead(now, e) && e.expiry < now && !LongGone(now, e))
            && (g.Continue? <==> InTime(now, e)) && (g.Continue? ==> g.penalty == Seconds(now, e))
  {
    TimeGateExact(now, e.expiry, e.ttl);
  }

  lemma WorkExact(s: Settings, now: Uint32, e: Envelope, zeros: nat, stored: Work.Work)
    requires InTime(now, e)
    ensures Seconds(now, e) < TWO_32
    ensures PoWGate(s.MinPoW(), s.MinPoWTolerance(), JudgedWork(e, zeros, Seconds(now, e), stored))
            <==> Worth(now, e, zeros, stored, Bar(s))
  {
    TimeExact(now, e);
    var (length, lifetime) := (Work.RlpLength(e.expiry, e.ttl, e.data), (e.ttl + Seconds(now, e)) % TWO_32);
    if lifetime > 0 { Work.WorkThreshold(zeros, length, lifetime, Bar(s)); }
    LowerDecides(s.MinPoW(), s.MinPoWTolerance(), JudgedWork(e, zeros, Seconds(now, e), stored));
  }

  lemma LowerDecides(a: real, b: real, w: Work.Work)
    ensures PoWGate(a, b, w) <==> Work.AtLeast(w, if a < b then a else b)
  {
  }

  /** Every verdict of the checks, by conditions on the clock, the envelope and the settings alone. */
  lemma VerdictExact(s: Settings, now: Uint32, e: Envelope, zeros: nat, stored: Work.Work)
    ensures var v := Judge(s, now, e, zeros, stored);
            var worth := Worth(now, e, zeros, stored, Bar(s));
            && (v.Future? <==> Ahead(now, e))
            && (v.VeryOld? <==> !Ahead(now, e) && LongGone(now, e))
            && (v.Expired? <==> !Ahead(now, e) && e.expiry < now && !LongGone(now, e))
            && (v.Oversized? <==> InTime(now, e) && !Small(s.maxMessageSize, e))
            && (v.LowPoW? <==> InTime(now, e) && Small(s.maxMessageSize, e) && !worth)
            && (v.NoBloomMatch? <==> InTime(now, e) && Small(s.maxMessageSize, e) && worth && !Wanted(s, e.topic))
            && (v.Pass? <==> InTime(now, e) && Small(s.maxMessageSize, e) && worth && Wanted(s, e.topic))
  {
    TimeExact(now, e);
    if InTime(now, e) { WorkExact(s, now, e, zeros, stored); }
    assert BloomGate(s.bloom, s.bloomTolerance, e.topic) <==> Wanted(s, e.topic);
  }

  method Check(s: Settings, now: Uint32, e: Envelope, zeros: nat, stored: Work.Work) returns (v: Verdict)
    ensures v == Judge(s, now, e, zeros, stored)
  {
    var sent := (e.expiry - e.ttl) % TWO_32;
    var pow := stored;
    if sent > now {
      if (sent - DEFAULT_SYNC_ALLOWANCE) % TWO_32 > now {
        return Future;
      }
      pow := EnvelopeWork(e, zeros, sent - now + 1);
      Work.WorkIsComputed(zeros, Work.RlpLength(e.expiry, e.ttl, e.data), e.ttl, sent - now + 1);
    }
    if e.expiry < now {
      if (e.expiry + DEFAULT_SYNC_ALLOWANCE * 2) % TWO_32 < now {
        return VeryOld;
      }
      return Expired;
    }
    if e.Size() % TWO_32 > s.maxMessageSize {
      return Oversized;
    }
    if pow == Work.NOT_COMPUTED {
      pow := EnvelopeWork(e, zeros, 0);
    }
    if !Work.AtLeast(pow, s.MinPoW()) {
      if !Work.AtLeast(pow, s.MinPoWTolerance()) {
        return LowPoW;
      }
    }
    var sample := TopicToBloom(e.topic);
    var ok := BloomFilterMatch(s.bloom, sample);
    if !ok {
      ok := BloomFilterMatch(s.bloomTolerance, sample);
      if !ok {
        return NoBloomMatch;
      }
    }
    return Pass;
  }
}
