/** What a peer can hold and send, how the receiver judges it, and how far the two
    judgements of its work can lie apart. */
module Offers {
  import opened Types
  import Bits
  import Gate
  import Work

  /** A clock reading past the first second of the epoch. */
  type Clock = n: Uint32 | n > 0 witness 1

  const DIGEST_BITS := 256

  /** An envelope, the zero bits of its work digest, and the clock of the peer when it pooled it. */
  datatype Offer = Offer(env: Envelope, zeros: nat, at: Clock)
  {
    predicate Genuine() {
      zeros <= DIGEST_BITS && Gate.TimeGate(at, env.expiry, env.ttl).Continue?
    }

    /** The value the peer stored when it pooled the envelope. */
    function SenderWork(): Work.Work
      requires Genuine()
    {
      Gate.EnvelopeWork(env, zeros, Gate.TimeGate(at, env.expiry, env.ttl).penalty)
    }
  }

  /** Neither the envelope nor the packet that carries it is longer than the receiver's limit. */
  predicate Fits(limit: Uint32, env: Envelope, zeros: nat) {
    zeros <= DIGEST_BITS && env.Size() <= limit && Work.PacketLength(env) <= limit
  }

  /** How far the receiver's clock is behind the moment of sending. */
  function Lag(env: Envelope, now: Clock): nat {
    if env.Sent() > now then env.Sent() - now else 0
  }

  function Penalty(lag: nat): nat {
    if lag == 0 then 0 else lag + 1
  }

  /** Passes the time gate of a receiver that is `lag` seconds behind. */
  predicate Admitted(env: Envelope, now: Clock, lag: nat) {
    Gate.TimeGate(now, env.expiry, env.ttl).Continue? && Lag(env, now) == lag
  }

  /** The work as the receiver judges it. */
  function ReceiverWork(env: Envelope, zeros: nat, lag: nat): Work.Work
    requires Penalty(lag) < TWO_32
  {
    Gate.EnvelopeWork(env, zeros, Penalty(lag))
  }

  /** The most that any peer which pooled the envelope can have taken it to be worth. With a lifetime
      beyond the expiry, the sum of lifetime and penalty wraps around and at least one second remains. */
  function BestWork(env: Envelope, zeros: nat): Work.Work {
    Work.WorkOver(zeros, Work.RlpLength(env.expiry, env.ttl, env.data), BestLifetime(env))
  }

  function BestLifetime(env: Envelope): nat {
    if env.ttl <= env.expiry then env.ttl else 1
  }

  // ---- Lifetimes after the penalty ----

  lemma AdmittedFacts(env: Envelope, now: Clock, lag: nat)
    requires Admitted(env, now, lag)
    ensures lag <= DEFAULT_SYNC_ALLOWANCE && Gate.TimeGate(now, env.expiry, env.ttl).penalty == Penalty(lag)
    ensures lag > 0 ==> env.Sent() == now + lag >= DEFAULT_SYNC_ALLOWANCE
    ensures lag == 0 ==> env.ttl <= env.expiry && env.Sent() <= now <= env.expiry
  {
  }

  /** The lifetime with the penalty: it wraps around exactly when the lifetime reaches beyond the expiry. */
  lemma EffectiveLifetime(env: Envelope, now: Clock)
    requires Gate.TimeGate(now, env.expiry, env.ttl).Continue?
    ensures var penalty := Gate.TimeGate(now, env.expiry, env.ttl).penalty;
            (env.ttl + penalty) % TWO_32 == if env.ttl <= env.expiry then env.ttl + penalty else env.expiry - now + 1
  {
  }

  lemma SenderAtMostBest(o: Offer, required: real)
    requires o.Genuine() && Work.AtLeast(o.SenderWork(), required)
    ensures Work.AtLeast(BestWork(o.env, o.zeros), required)
  {
    EffectiveLifetime(o.env, o.at);
    var length := Work.RlpLength(o.env.expiry, o.env.ttl, o.env.data);
    var penalty := Gate.TimeGate(o.at, o.env.expiry, o.env.ttl).penalty;
    Work.WorkAntitone(o.zeros, length, length, BestLifetime(o.env), (o.env.ttl + penalty) % TWO_32, required);
  }

  /** An envelope that some receiver admits can have been pooled at its best worth. */
  lemma BestReached(env: Envelope, zeros: nat, now: Clock) returns (o: Offer)
    requires zeros <= DIGEST_BITS && Gate.TimeGate(now, env.expiry, env.ttl).Continue?
    ensures o.env == env && o.zeros == zeros && o.Genuine() && o.SenderWork() == BestWork(env, zeros)
  {
    var at: Clock := env.expiry;
    o := Offer(env, zeros, at);
    EffectiveLifetime(env, at);
    if env.ttl <= env.expiry {
      assert env.Sent() <= at;
    }
  }

  // ---- Exactly when a receiver accepts the work of all that a peer chose ----

  /** No envelope that fits and is admitted loses so much that it was worth `view` to a peer and
      is worth less than `bar` to the receiver. */
  ghost predicate NothingLost(limit: Uint32, now: Clock, lag: nat, view: real, bar: real) {
    forall env: Envelope, zeros: nat | Fits(limit, env, zeros) && Admitted(env, now, lag) && lag <= DEFAULT_SYNC_ALLOWANCE ::
      Work.AtLeast(BestWork(env, zeros), view) ==> Work.AtLeast(ReceiverWork(env, zeros, lag), bar)
  }

  /** A lower bar loses nothing more. */
  lemma LowerBar(limit: Uint32, now: Clock, lag: nat, view: real, bar: real, lower: real)
    requires NothingLost(limit, now, lag, view, bar) && lower <= bar
    ensures NothingLost(limit, now, lag, view, lower)
  {
  }

  // ---- A receiver on time ----

  /** On time nothing is lost if the view is no lower than the bar. */
  lemma OnTimeSuffices(limit: Uint32, now: Clock, view: real, bar: real)
    requires bar <= view
    ensures NothingLost(limit, now, 0, view, bar)
  {
    forall env: Envelope, zeros: nat | Fits(limit, env, zeros) && Admitted(env, now, 0)
      ensures Work.AtLeast(BestWork(env, zeros), view) ==> Work.AtLeast(ReceiverWork(env, zeros, 0), bar)
    {
      OnTimeSame(env, zeros, now);
    }
  }

  lemma OnTimeSame(env: Envelope, zeros: nat, now: Clock)
    requires Admitted(env, now, 0)
    ensures BestWork(env, zeros) == ReceiverWork(env, zeros, 0)
  {
    AdmittedFacts(env, now, 0);
    assert (env.ttl + 0) % TWO_32 == env.ttl;
  }

  const SHORTEST := 0x7FFF_FFFF

  /** Work values lie no farther apart than this, relative to their size. */
  const SPACING: real := 1.0 / SHORTEST as real

  const LEAST_WORK: real := 1.0 / 0x8_0000_0000 as real
  const MOST_WORK: real := 1_000_000_000_000_000_000_000_000_000_000.0

  function Above(low: real): real {
    low * (1.0 + SPACING)
  }

  /** Some envelope is worth at least `view` and less than this. */
  function Next(view: real): real {
    Above(if view < LEAST_WORK then LEAST_WORK else view)
  }

  /** A requirement and a bar that some envelope tells apart, if they differ in the order that matters. */
  predicate ToldApart(view: real, bar: real) {
    bar <= view || (Next(view) <= bar && view <= MOST_WORK)
  }

  /** The envelope without data, with a lifetime of `ttl` seconds, seen at clock `now`. */
  function Plain(now: Clock, ttl: Uint32): Envelope {
    Envelope(if now < ttl then ttl else now, ttl, Topic(0, 0, 0, 0), [], 0, ZERO_HASH)
  }

  lemma PlainFacts(limit: Uint32, now: Clock, ttl: Uint32, zeros: nat)
    requires limit >= ENVELOPE_HEADER_LENGTH && ttl >= SHORTEST && zeros <= DIGEST_BITS
    ensures Fits(limit, Plain(now, ttl), zeros) && Admitted(Plain(now, ttl), now, 0)
    ensures BestWork(Plain(now, ttl), zeros) == ReceiverWork(Plain(now, ttl), zeros, 0) == Work.WorkOver(zeros, 17, ttl)
  {
    PlainLengths(now, ttl);
    PlainAdmitted(now, ttl);
    OnTimeSame(Plain(now, ttl), zeros, now);
  }

  lemma PlainLengths(now: Clock, ttl: Uint32)
    requires ttl >= SHORTEST
    ensures var env := Plain(now, ttl);
            Work.RlpLength(env.expiry, env.ttl, env.data) == 17 && Work.PacketLength(env) == 19
  {
    var env := Plain(now, ttl);
    Work.IntSizes(env.expiry);
    Work.IntSizes(env.ttl);
    assert Work.UintLength(env.expiry) == 5 && Work.UintLength(env.ttl) == 5;
    assert Work.StringLength(env.data) == 1 && Work.UintLength(env.nonce) == 1;
  }

  lemma PlainAdmitted(now: Clock, ttl: Uint32)
    ensures Admitted(Plain(now, ttl), now, 0) && ttl <= Plain(now, ttl).expiry
  {
    var env := Plain(now, ttl);
    assert env.Sent() == env.expiry - ttl <= now;
  }

  /** The zero bits that put the lifetime for a worth of `low` into the upper half of the 32-bit range. */
  lemma ZerosFor(low: real) returns (zeros: nat)
    requires LEAST_WORK <= low <= MOST_WORK
    ensures zeros <= DIGEST_BITS
    ensures Work.Scaled(low, 17 * SHORTEST) <= Bits.Pow2(zeros) as real < 2.0 * Work.Scaled(low, 17 * SHORTEST)
  {
    var b := Work.Scaled(low, 17 * SHORTEST);
    assert b > 1.0 by {
      Work.FactorMonotone(LEAST_WORK, low, 17 * SHORTEST);
    }
    zeros := Work.TargetBits(b);
    assert Bits.Pow2(zeros) == 2 * Bits.Pow2(zeros - 1);
    assert (Bits.Pow2(zeros - 1) as real) < b;
    if zeros > DIGEST_BITS {
      Work.FactorMonotone(low, MOST_WORK, 17 * SHORTEST);
      PowersOfRange(zeros - 1);
      assert false;
    }
  }

  lemma PowersOfRange(n: nat)
    requires n >= 144
    ensures Work.Scaled(MOST_WORK, 17 * SHORTEST) <= Bits.Pow2(n) as real
  {
    SixteenTimes(9);
    Bits.Pow2Monotone(16 * 9, n);
  }

  lemma SixteenTimes(k: nat)
    requires k == 9
    ensures Bits.Pow2(16 * k) == 0x1_0000_0000_0000_0000_0000_0000_0000_0000_0000
  {
    assert Bits.Pow2(k) == 2 * (2 * (2 * (2 * (2 * Bits.Pow2(k - 5)))));
    assert Bits.Pow2(k - 5) == 2 * (2 * (2 * (2 * Bits.Pow2(k - 9))));
    var p2 := Double(k, 512);
    var p4 := Double(2 * k, p2);
    var p8 := Double(4 * k, p4);
    var p16 := Double(8 * k, p8);
  }

  lemma Double(k: nat, p: nat) returns (square: nat)
    requires Bits.Pow2(k) == p
    ensures square == p * p == Bits.Pow2(2 * k)
  {
    Bits.Pow2Sum(k, k);
    square := p * p;
  }

  /** Just above every value in range lies the worth of an envelope that the receiver can admit. */
  lemma WorthNear(limit: Uint32, now: Clock, low: real) returns (env: Envelope, zeros: nat)
    requires limit >= ENVELOPE_HEADER_LENGTH && LEAST_WORK <= low <= MOST_WORK
    ensures Fits(limit, env, zeros) && Admitted(env, now, 0)
    ensures BestWork(env, zeros) == ReceiverWork(env, zeros, 0)
    ensures Work.AtLeast(BestWork(env, zeros), low) && !Work.AtLeast(BestWork(env, zeros), Above(low))
  {
    zeros := ZerosFor(low);
    var ttl := LifetimeFor(low, Bits.Pow2(zeros) as real);
    env := Plain(now, ttl);
    PlainFacts(limit, now, ttl, zeros);
    Work.WorkThreshold(zeros, 17, ttl, low);
    Work.WorkThreshold(zeros, 17, ttl, Above(low));
  }

  /** The longest lifetime for which `power` is worth `low`. */
  lemma LifetimeFor(low: real, power: real) returns (ttl: Uint32)
    requires low > 0.0
    requires Work.Scaled(low, 17 * SHORTEST) <= power < 2.0 * Work.Scaled(low, 17 * SHORTEST)
    ensures ttl >= SHORTEST
    ensures power >= Work.Scaled(low, 17 * ttl) && power < Work.Scaled(Above(low), 17 * ttl)
  {
    var unit := 17.0 * low;
    InUnits(low, unit, SHORTEST);
    var t := Multiples(unit, power, SHORTEST);
    ttl := t;
    InUnits(low, unit, ttl);
    var wider := Above(low);
    InUnits(wider, 17.0 * wider, ttl);
    Widened(unit, SPACING, SHORTEST, ttl);
    assert 17.0 * wider == unit + unit * SPACING;
  }

  lemma InUnits(low: real, unit: real, n: nat)
    requires unit == 17.0 * low
    ensures Work.Scaled(low, 17 * n) == Work.Scaled(unit, n)
  {
    assert (17 * n) as real == 17.0 * n as real;
  }

  /** How many units fit, when at least `s` and fewer than twice as many do. */
  lemma Multiples(unit: real, power: real, s: nat) returns (t: nat)
    requires unit > 0.0 && Work.Scaled(unit, s) <= power < 2.0 * Work.Scaled(unit, s)
    ensures s <= t < 2 * s && Work.Scaled(unit, t) <= power < Work.Scaled(unit, t + 1)
  {
    var q := power / unit;
    assert Work.Times(unit, q) == power;
    if q < s as real { Work.TimesStrict(unit, q, s as real); }
    assert Work.Times(unit, (2 * s) as real) == 2.0 * Work.Times(unit, s as real);
    if q >= (2 * s) as real { Work.TimesMonotone(unit, (2 * s) as real, q); }
    t := q.Floor;
    Work.TimesMonotone(unit, t as real, q);
    Work.TimesStrict(unit, q, (t + 1) as real);
  }

  /** Widening the unit by one part in `s` makes up for one unit in `n >= s`. */
  lemma Widened(unit: real, part: real, s: nat, n: nat)
    requires unit > 0.0 && part >= 0.0 && part * s as real == 1.0 && s <= n
    ensures Work.Scaled(unit + unit * part, n) >= Work.Scaled(unit, n + 1)
  {
    Work.TimesMonotone(part, s as real, n as real);
    Work.TimesMonotone(unit, 1.0, part * n as real);
    assert Work.Scaled(unit + unit * part, n) == unit * n as real + unit * (part * n as real);
  }

  /** On time, if nothing is lost, the bar is at most a spacing above the view. */
  lemma OnTimeNeeds(limit: Uint32, now: Clock, view: real, bar: real)
    requires limit >= ENVELOPE_HEADER_LENGTH && NothingLost(limit, now, 0, view, bar)
    ensures bar < Next(view) || view > MOST_WORK
  {
    if Next(view) <= bar && view <= MOST_WORK {
      var env, zeros := WorthBetween(limit, now, view, bar);
      assert false;
    }
  }

  lemma WorthBetween(limit: Uint32, now: Clock, view: real, bar: real) returns (env: Envelope, zeros: nat)
    requires limit >= ENVELOPE_HEADER_LENGTH && Next(view) <= bar && view <= MOST_WORK
    ensures Fits(limit, env, zeros) && Admitted(env, now, 0)
    ensures Work.AtLeast(BestWork(env, zeros), view) && !Work.AtLeast(ReceiverWork(env, zeros, 0), bar)
  {
    assert LEAST_WORK <= 1.0 <= MOST_WORK;
    env, zeros := WorthNear(limit, now, if view < LEAST_WORK then LEAST_WORK else view);
  }

  /** On time, nothing is lost exactly when the view is no lower than the bar, for values told apart. */
  lemma OnTimeExact(limit: Uint32, now: Clock, view: real, bar: real)
    requires limit >= ENVELOPE_HEADER_LENGTH && ToldApart(view, bar)
    ensures NothingLost(limit, now, 0, view, bar) <==> bar <= view
  {
    if bar <= view {
      OnTimeSuffices(limit, now, view, bar);
    } else if NothingLost(limit, now, 0, view, bar) {
      OnTimeNeeds(limit, now, view, bar);
    }
  }

  // ---- A receiver that is behind ----

  /** An envelope of lifetime zero: to its peers it is worth more than any requirement. */
  function Brief(expiry: Uint32, n: nat): Envelope {
    Envelope(expiry, 0, Topic(0, 0, 0, 0), Work.Filler(n), 0, ZERO_HASH)
  }

  /** The most data, up to `n` bytes, that such an envelope can hold and still fit. */
  function MostData(limit: Uint32, expiry: Uint32, n: nat): (m: nat)
    ensures m <= n
    ensures m == 0 || Fits(limit, Brief(expiry, m), 0)
  {
    if n == 0 || Fits(limit, Brief(expiry, n), 0) then n else MostData(limit, expiry, n - 1)
  }

  /** Length of the hashed encoding of the longest envelope of lifetime zero that fits. */
  function Longest(limit: Uint32, expiry: Uint32): (n: nat)
    ensures n >= 1
  {
    Work.RlpLength(expiry, 0, Work.Filler(MostData(limit, expiry, limit)))
  }

  lemma ShortBriefFits(limit: Uint32, expiry: Uint32, n: nat)
    requires n <= 1 && ENVELOPE_HEADER_LENGTH + n <= limit
    ensures Fits(limit, Brief(expiry, n), 0)
  {
    Work.IntSizes(expiry);
  }

  lemma {:induction false} MostDataAtLeast(limit: Uint32, expiry: Uint32, n: nat, m: nat)
    requires m <= n && Fits(limit, Brief(expiry, m), 0)
    ensures m <= MostData(limit, expiry, n)
  {
    if n != m && !Fits(limit, Brief(expiry, n), 0) { MostDataAtLeast(limit, expiry, n - 1, m); }
  }

  lemma LongestIsLongest(limit: Uint32, env: Envelope, zeros: nat)
    requires env.ttl == 0 && Fits(limit, env, zeros)
    ensures Work.RlpLength(env.expiry, 0, env.data) <= Longest(limit, env.expiry)
  {
    var n := |env.data|;
    if n <= 1 {
      ShortBriefFits(limit, env.expiry, n);
    } else {
      Work.FillerPacket(env, Brief(env.expiry, n));
    }
    MostDataAtLeast(limit, env.expiry, limit, n);
    Work.FillerIsLongest(env.expiry, 0, env.data, MostData(limit, env.expiry, limit));
  }

  /** A moment of sending that a receiver `lag` seconds behind still admits. */
  predicate Late(now: Clock, lag: nat) {
    0 < lag <= DEFAULT_SYNC_ALLOWANCE <= now + lag < TWO_32
  }

  /** What the longest envelope of lifetime zero is worth to a receiver that is behind. */
  function LateWorth(limit: Uint32, now: Clock, lag: nat): Work.Work
    requires Late(now, lag)
  {
    Work.WorkOver(0, Longest(limit, now + lag), Penalty(lag))
  }

  lemma BriefIsLate(limit: Uint32, now: Clock, lag: nat)
    requires Late(now, lag) && limit >= ENVELOPE_HEADER_LENGTH
    ensures var env := Brief(now + lag, MostData(limit, now + lag, limit));
            && Fits(limit, env, 0) && Admitted(env, now, lag)
            && BestWork(env, 0) == Work.Infinite && ReceiverWork(env, 0, lag) == LateWorth(limit, now, lag)
  {
    ShortBriefFits(limit, now + lag, 0);
    BriefWorth(now, lag, MostData(limit, now + lag, limit));
  }

  lemma BriefWorth(now: Clock, lag: nat, n: nat)
    requires Late(now, lag)
    ensures Admitted(Brief(now + lag, n), now, lag) && BestWork(Brief(now + lag, n), 0) == Work.Infinite
    ensures ReceiverWork(Brief(now + lag, n), 0, lag)
            == Work.WorkOver(0, Work.RlpLength(now + lag, 0, Work.Filler(n)), Penalty(lag))
  {
    BriefAdmitted(now, lag, Brief(now + lag, n));
    assert (0 + Penalty(lag)) % TWO_32 == Penalty(lag);
  }

  /** An envelope of lifetime zero is admitted in the second of its expiry, and by receivers a little behind. */
  lemma BriefAdmitted(now: Clock, lag: nat, env: Envelope)
    requires (lag == 0 || Late(now, lag)) && env.expiry == now + lag && env.ttl == 0
    ensures Admitted(env, now, lag) && BestWork(env, 0) == Work.Infinite
  {
    assert env.Sent() == now + lag;
  }

  /** Behind, if nothing is lost, the bar is no higher than the worth of that envelope, whatever the view. */
  lemma LateNeeds(limit: Uint32, now: Clock, lag: nat, view: real, bar: real)
    requires Late(now, lag) && limit >= ENVELOPE_HEADER_LENGTH && NothingLost(limit, now, lag, view, bar)
    ensures Work.AtLeast(LateWorth(limit, now, lag), bar)
  {
    BriefIsLate(limit, now, lag);
  }

  /** Behind, nothing is lost if the bar also leaves room for the penalty on a lifetime of one second. */
  lemma LateSuffices(limit: Uint32, now: Clock, lag: nat, view: real, bar: real)
    requires Late(now, lag) && Work.AtLeast(LateWorth(limit, now, lag), bar)
    requires Work.Scaled(bar, 1 + Penalty(lag)) <= view
    ensures NothingLost(limit, now, lag, view, bar)
  {
    forall env: Envelope, zeros: nat | Fits(limit, env, zeros) && Admitted(env, now, lag)
      ensures Work.AtLeast(BestWork(env, zeros), view) ==> Work.AtLeast(ReceiverWork(env, zeros, lag), bar)
    {
      if Work.AtLeast(BestWork(env, zeros), view) { LateKeeps(limit, now, lag, view, bar, env, zeros); }
    }
  }

  lemma LateKeeps(limit: Uint32, now: Clock, lag: nat, view: real, bar: real, env: Envelope, zeros: nat)
    requires Late(now, lag) && Work.AtLeast(LateWorth(limit, now, lag), bar)
    requires Work.Scaled(bar, 1 + Penalty(lag)) <= view
    requires Fits(limit, env, zeros) && Admitted(env, now, lag) && Work.AtLeast(BestWork(env, zeros), view)
    ensures Work.AtLeast(ReceiverWork(env, zeros, lag), bar)
  {
    LateLifetime(env, now, lag);
    var length := Work.RlpLength(env.expiry, env.ttl, env.data);
    var lifetime := (env.ttl + Penalty(lag)) % TWO_32;
    Work.WorkPositive(zeros, length, lifetime);
    if env.ttl == 0 {
      LongestIsLongest(limit, env, zeros);
      Work.WorkAntitone(0, length, Longest(limit, env.expiry), lifetime, lifetime, bar);
      Work.MoreZeros(zeros, length, lifetime, bar);
    } else if bar > 0.0 {
      Work.Slower(zeros, length, BestLifetime(env), lifetime, 1 + Penalty(lag), view, bar);
    }
  }

  /** The penalty lengthens a lifetime of at least a second at most so many times plus one. */
  lemma LateLifetime(env: Envelope, now: Clock, lag: nat)
    requires lag > 0 && Admitted(env, now, lag)
    ensures lag <= DEFAULT_SYNC_ALLOWANCE
    ensures var lifetime := (env.ttl + Penalty(lag)) % TWO_32;
            && (env.ttl == 0 ==> lifetime == Penalty(lag) && env.expiry == now + lag)
            && (env.ttl > 0 ==> BestLifetime(env) > 0 && 0 < lifetime <= (1 + Penalty(lag)) * BestLifetime(env))
  {
    AdmittedFacts(env, now, lag);
    EffectiveLifetime(env, now);
    if env.ttl > 0 {
      Work.ProductMonotone(1, BestLifetime(env), Penalty(lag));
      assert (1 + Penalty(lag)) * BestLifetime(env) == BestLifetime(env) + Penalty(lag) * BestLifetime(env);
    }
  }

  /** Behind, nothing is lost exactly when the bar is no higher than the worth of the longest envelope of
      lifetime zero, for every view that is not lower than that worth times one plus the penalty. */
  lemma LateExact(limit: Uint32, now: Clock, lag: nat, view: real, bar: real)
    requires Late(now, lag) && limit >= ENVELOPE_HEADER_LENGTH
    requires Work.Scaled(LateWorth(limit, now, lag).value, 1 + Penalty(lag)) <= view
    ensures NothingLost(limit, now, lag, view, bar) <==> Work.AtLeast(LateWorth(limit, now, lag), bar)
  {
    if Work.AtLeast(LateWorth(limit, now, lag), bar) {
      Work.FactorMonotone(bar, LateWorth(limit, now, lag).value, 1 + Penalty(lag));
      LateSuffices(limit, now, lag, view, bar);
    }
    if NothingLost(limit, now, lag, view, bar) { LateNeeds(limit, now, lag, view, bar); }
  }

  /** A receiver that is neither on time nor late in this sense admits nothing. */
  lemma OthersAdmitNothing(env: Envelope, now: Clock, lag: nat)
    ensures Admitted(env, now, lag) ==> lag == 0 || Late(now, lag)
  {
    if Admitted(env, now, lag) { AdmittedFacts(env, now, lag); }
  }
}
