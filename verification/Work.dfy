/** Proof of work: the length of the hashed encoding, the value an envelope's
    nonce is worth, and the search that seals an envelope. */
module Work {
  import opened Types
  import opened Bits

  // ---- Length of the RLP encoding (Appendix B of the Ethereum Yellow Paper) ----

  function IntSize(n: nat): (s: nat)
    ensures s >= 1
  {
    if n < 256 then 1 else 1 + IntSize(n / 256)
  }

  function UintLength(v: nat): nat {
    if v < 128 then 1 else 1 + IntSize(v)
  }

  function HeaderLength(size: nat): nat {
    if size < 56 then 1 else 1 + IntSize(size)
  }

  function StringLength(b: Bytes): nat {
    if |b| == 1 && b[0] <= 0x7F then 1 else HeaderLength(|b|) + |b|
  }

  /** Length of the encoded list of expiry, TTL, topic and data, without the nonce. */
  function RlpLength(expiry: Uint32, ttl: Uint32, data: Bytes): (n: nat)
    ensures n >= 1
  {
    var content := UintLength(expiry) + UintLength(ttl) + (HeaderLength(4) + 4) + StringLength(data);
    HeaderLength(content) + content
  }

  /** The most data bytes for which the encoding fits the declared envelope size. */
  function DataLimit(ttl: Uint32): (n: nat)
    ensures ttl < 0x100_0000 ==> n >= 65518
  {
    if ttl < 0x80 then 0xFF_FFFF
    else if ttl < 0x100 then 0xFF_FFEF
    else if ttl < 0x1_0000 then 0xFFFF
    else if ttl < 0x100_0000 then 65518
    else 255
  }

  lemma IntSizes(n: nat)
    ensures n < 0x100 ==> IntSize(n) == 1
    ensures 0x100 <= n < 0x1_0000 ==> IntSize(n) == 2
    ensures 0x1_0000 <= n < 0x100_0000 ==> IntSize(n) == 3
    ensures 0x100_0000 <= n < TWO_32 ==> IntSize(n) == 4
    ensures n >= 0x100_0000 ==> IntSize(n) >= 4
  {
    assert n >= 0x100 ==> IntSize(n) == 1 + IntSize(n / 256);
    assert n >= 0x1_0000 ==> IntSize(n / 256) == 1 + IntSize(n / 256 / 256);
    assert n >= 0x100_0000 ==> IntSize(n / 256 / 256) == 1 + IntSize(n / 256 / 256 / 256);
  }

  /** Within the limit the hashed encoding is never longer than `size()`. */
  lemma LengthWithinLimit(expiry: Uint32, ttl: Uint32, data: Bytes)
    requires |data| <= DataLimit(ttl)
    ensures RlpLength(expiry, ttl, data) <= ENVELOPE_HEADER_LENGTH + |data|
  {
    IntSizes(expiry);
    IntSizes(ttl);
    IntSizes(|data|);
    IntSizes(UintLength(expiry) + UintLength(ttl) + (HeaderLength(4) + 4) + StringLength(data));
  }

  /** For every expiry after July 1970 the limit is exact. */
  lemma LengthLimitExact(expiry: Uint32, ttl: Uint32, data: Bytes)
    requires expiry >= 0x100_0000
    ensures RlpLength(expiry, ttl, data) <= ENVELOPE_HEADER_LENGTH + |data| <==> |data| <= DataLimit(ttl)
  {
    if |data| <= DataLimit(ttl) {
      LengthWithinLimit(expiry, ttl, data);
    } else {
      IntSizes(expiry);
      IntSizes(ttl);
      IntSizes(|data|);
      IntSizes(UintLength(expiry) + UintLength(ttl) + (HeaderLength(4) + 4) + StringLength(data));
    }
  }

  lemma {:induction false} IntSizeMonotone(m: nat, n: nat)
    requires m <= n
    ensures IntSize(m) <= IntSize(n)
  {
    if m >= 256 { IntSizeMonotone(m / 256, n / 256); }
  }

  lemma HeaderMonotone(m: nat, n: nat)
    requires m <= n
    ensures HeaderLength(m) <= HeaderLength(n)
  {
    IntSizeMonotone(m, n);
  }

  /** A byte string of the given length that no encoding shortens. */
  function Filler(n: nat): (b: Bytes)
    ensures |b| == n
  {
    seq(n, _ => 255)
  }

  /** No data of the same or a smaller length make a longer encoding than the filler. */
  lemma FillerIsLongest(expiry: Uint32, ttl: Uint32, data: Bytes, n: nat)
    requires |data| <= n
    ensures RlpLength(expiry, ttl, data) <= RlpLength(expiry, ttl, Filler(n))
  {
    HeaderMonotone(|data|, n);
    var rest := UintLength(expiry) + UintLength(ttl) + (HeaderLength(4) + 4);
    assert StringLength(data) <= StringLength(Filler(n));
    HeaderMonotone(rest + StringLength(data), rest + StringLength(Filler(n)));
  }

  /** Length of a packet that carries one envelope: a list of the envelope, with its nonce. */
  function PacketLength(e: Envelope): nat {
    var content := UintLength(e.expiry) + UintLength(e.ttl) + (HeaderLength(4) + 4) + StringLength(e.data) + UintLength(e.nonce);
    var whole := HeaderLength(content) + content;
    HeaderLength(whole) + whole
  }

  /** Nor do they make a longer packet, if there are at least two bytes and the other fields are no longer. */
  lemma FillerPacket(e: Envelope, f: Envelope)
    requires |e.data| >= 2 && f.data == Filler(|e.data|)
    requires f.expiry == e.expiry && f.ttl == e.ttl && f.nonce == 0
    ensures PacketLength(f) <= PacketLength(e)
  {
    var rest := UintLength(e.expiry) + UintLength(e.ttl) + (HeaderLength(4) + 4) + StringLength(e.data);
    assert StringLength(f.data) == StringLength(e.data);
    HeaderMonotone(rest + 1, rest + UintLength(e.nonce));
    var (short, long) := (HeaderLength(rest + 1) + rest + 1, HeaderLength(rest + UintLength(e.nonce)) + rest + UintLength(e.nonce));
    HeaderMonotone(short, long);
  }

  // ---- The value of a nonce ----

  /** A proof-of-work value; dividing by a zero lifetime yields infinity. */
  datatype Work = Infinite | Finite(value: real)

  const NOT_COMPUTED := Finite(0.0)

  predicate AtLeast(w: Work, required: real) {
    w.Infinite? || w.value >= required
  }

  /** `2^zeros / length / lifetime`. */
  function WorkOver(zeros: nat, length: nat, lifetime: nat): (w: Work)
    requires length > 0
  {
    if lifetime == 0 then Infinite
    else Finite(Pow2(zeros) as real / length as real / lifetime as real)
  }

  /** The lifetime is the sum of `ttl` and `diff` modulo 2^32. */
  function WorkOf(zeros: nat, length: nat, ttl: Uint32, diff: Uint32): (w: Work)
    requires length > 0
  {
    WorkOver(zeros, length, (ttl + diff) % TWO_32)
  }

  function Times(x: real, y: real): real {
    x * y
  }

  lemma TimesMonotone(u: real, a: real, b: real)
    requires u >= 0.0 && a <= b
    ensures Times(u, a) <= Times(u, b)
  {
    assert Times(u, b) - Times(u, a) == u * (b - a);
  }

  lemma TimesStrict(u: real, a: real, b: real)
    requires u > 0.0 && a < b
    ensures Times(u, a) < Times(u, b)
  {
    assert Times(u, b) - Times(u, a) == u * (b - a);
  }

  /** `y` times the work of one hash: what `2^zeros` is compared with. */
  function Scaled(y: real, n: nat): real {
    Times(y, n as real)
  }

  lemma ScaledMonotone(y: real, m: nat, n: nat)
    requires y >= 0.0 && m <= n
    ensures Scaled(y, m) <= Scaled(y, n)
  {
    TimesMonotone(y, m as real, n as real);
  }

  lemma FactorMonotone(x: real, y: real, n: nat)
    requires x <= y
    ensures Scaled(x, n) <= Scaled(y, n)
  {
    assert Scaled(y, n) - Scaled(x, n) == (y - x) * n as real;
  }

  lemma ProductMonotone(a: nat, b: nat, t: nat)
    requires a <= b
    ensures a * t <= b * t && t * a <= t * b
  {
    assert b * t - a * t == (b - a) * t;
  }

  lemma Quotient(x: real, a: nat, b: nat, y: real)
    requires a > 0 && b > 0
    ensures x / a as real / b as real >= y <==> x >= Scaled(y, a * b)
  {
    var (ar, br, q) := (a as real, b as real, x / a as real / b as real);
    assert (a * b) as real == ar * br;
    assert x == q * (ar * br) by {
      assert q * br == x / ar;
      assert q * (ar * br) == (q * br) * ar;
    }
    SignOfProduct(q - y, ar * br);
    assert (q - y) * (ar * br) == x - Scaled(y, a * b);
  }

  lemma SignOfProduct(d: real, k: real)
    requires k > 0.0
    ensures d >= 0.0 <==> d * k >= 0.0
  {
  }

  lemma WorkThreshold(zeros: nat, length: nat, lifetime: nat, required: real)
    requires length > 0 && lifetime > 0
    ensures AtLeast(WorkOver(zeros, length, lifetime), required) <==>
            Pow2(zeros) as real >= Scaled(required, length * lifetime)
  {
    Quotient(Pow2(zeros) as real, length, lifetime, required);
  }

  lemma WorkPositive(zeros: nat, length: nat, lifetime: nat)
    requires length > 0
    ensures WorkOver(zeros, length, lifetime).Infinite? || WorkOver(zeros, length, lifetime).value > 0.0
  {
    var x := Pow2(zeros) as real / length as real;
    assert x > 0.0;
    if lifetime != 0 { assert x / lifetime as real > 0.0; }
  }

  /** The cached "not computed" mark never clashes with a computed value. */
  lemma WorkIsComputed(zeros: nat, length: nat, ttl: Uint32, diff: Uint32)
    requires length > 0
    ensures WorkOf(zeros, length, ttl, diff) != NOT_COMPUTED
  {
    WorkPositive(zeros, length, (ttl + diff) % TWO_32);
  }

  /** A longer encoding or a longer lifetime is worth no more. */
  lemma WorkAntitone(zeros: nat, short: nat, long: nat, brief: nat, lasting: nat, required: real)
    requires 0 < short <= long && brief <= lasting
    requires AtLeast(WorkOver(zeros, long, lasting), required)
    ensures AtLeast(WorkOver(zeros, short, brief), required)
  {
    WorkPositive(zeros, short, brief);
    if required > 0.0 && brief > 0 {
      WorkThreshold(zeros, long, lasting, required);
      WorkThreshold(zeros, short, brief, required);
      ProductMonotone(short, long, brief);
      ProductMonotone(brief, lasting, long);
      ScaledMonotone(required, short * brief, long * lasting);
    }
  }

  lemma MoreZeros(zeros: nat, length: nat, lifetime: nat, required: real)
    requires length > 0 && AtLeast(WorkOver(0, length, lifetime), required)
    ensures AtLeast(WorkOver(zeros, length, lifetime), required)
  {
    if lifetime > 0 {
      WorkThreshold(0, length, lifetime, required);
      WorkThreshold(zeros, length, lifetime, required);
    }
  }

  /** Lengthening a lifetime at most `factor` times keeps a requirement that is as many times lower. */
  lemma Slower(zeros: nat, length: nat, brief: nat, lasting: nat, factor: nat, high: real, low: real)
    requires length > 0 && 0 < brief && 0 < lasting <= factor * brief && low > 0.0 && Scaled(low, factor) <= high
    requires AtLeast(WorkOver(zeros, length, brief), high)
    ensures AtLeast(WorkOver(zeros, length, lasting), low)
  {
    WorkThreshold(zeros, length, brief, high);
    WorkThreshold(zeros, length, lasting, low);
    var (m, n) := (length * brief, length * lasting);
    assert n <= factor * m by { LengthTimes(length, lasting, factor, brief); }
    FactorMonotone(Scaled(low, factor), high, m);
    ScaledMonotone(low, n, factor * m);
    ScaledTwice(low, factor, m);
  }

  lemma LengthTimes(length: nat, lasting: nat, factor: nat, brief: nat)
    requires lasting <= factor * brief
    ensures length * lasting <= factor * (length * brief)
  {
    ProductMonotone(lasting, factor * brief, length);
    assert length * (factor * brief) == factor * (length * brief);
  }

  lemma ScaledTwice(y: real, m: nat, n: nat)
    ensures Scaled(Scaled(y, m), n) == Scaled(y, m * n)
  {
    assert (m * n) as real == m as real * n as real;
  }

  /** The smallest positive bit count whose power of two reaches `x`: `max(1, ceil(log2 x))`. */
  function TargetBits(x: real): (n: nat)
    ensures n >= 1 && Pow2(n) as real >= x
    ensures n > 1 ==> (Pow2(n - 1) as real) < x
    decreases if x > 0.0 then x.Floor else 0
  {
    if x <= 2.0 then 1 else 1 + TargetBits(x / 2.0)
  }

  function PowToFirstBit(pow: real, size: nat, ttl: Uint32): (n: nat)
    ensures n >= 1
  {
    TargetBits(Scaled(pow, size * ttl))
  }

  /** A positive number of zero bits is worth the target over the declared size exactly from the target bits on. */
  lemma TargetExact(pow: real, size: nat, ttl: Uint32, zeros: nat)
    requires size > 0 && zeros >= 1
    ensures AtLeast(WorkOver(zeros, size, ttl), pow) <==> zeros >= PowToFirstBit(pow, size, ttl)
  {
    BitsExact(Scaled(pow, size * ttl), zeros);
    if ttl > 0 { WorkThreshold(zeros, size, ttl, pow); }
  }

  /** From the target bits on, and no earlier, powers of two reach `x`. */
  lemma BitsExact(x: real, n: nat)
    requires n >= 1
    ensures Pow2(n) as real >= x <==> n >= TargetBits(x)
  {
    if n >= TargetBits(x) { Pow2Monotone(TargetBits(x), n); } else { Pow2Monotone(n, TargetBits(x) - 1); }
  }

  lemma TargetSuffices(pow: real, size: nat, length: nat, ttl: Uint32, zeros: nat)
    requires 0 < length <= size && pow > 0.0
    requires zeros >= PowToFirstBit(pow, size, ttl)
    ensures AtLeast(WorkOf(zeros, length, ttl, 0), pow)
  {
    if ttl > 0 {
      Pow2Monotone(PowToFirstBit(pow, size, ttl), zeros);
      ProductMonotone(length, size, ttl);
      ScaledMonotone(pow, length * ttl, size * ttl);
      WorkThreshold(zeros, length, ttl, pow);
    }
  }

  /** Reaching the target bits is worth the target for every target exactly
      when the hashed encoding is no longer than the declared size. */
  lemma TargetSufficesExact(size: nat, length: nat, ttl: Uint32)
    requires length > 0 && size > 0 && ttl > 0
    ensures length <= size <==>
            forall pow: real, zeros: nat | pow > 0.0 && zeros >= PowToFirstBit(pow, size, ttl) ::
              AtLeast(WorkOf(zeros, length, ttl, 0), pow)
  {
    if length <= size {
      forall pow: real, zeros: nat | pow > 0.0 && zeros >= PowToFirstBit(pow, size, ttl)
        ensures AtLeast(WorkOf(zeros, length, ttl, 0), pow)
      {
        TargetSuffices(pow, size, length, ttl, zeros);
      }
    } else {
      var pow := TargetMissed(size, length, ttl);
    }
  }

  /** With a longer encoding, one bit meets a target of one bit and is worth less. */
  lemma TargetMissed(size: nat, length: nat, ttl: Uint32) returns (pow: real)
    requires length > size > 0 && ttl > 0
    ensures pow > 0.0 && PowToFirstBit(pow, size, ttl) == 1 && !AtLeast(WorkOf(1, length, ttl, 0), pow)
  {
    var (m, n) := (size * ttl, length * ttl);
    ProductMonotone(1, size, ttl);
    ProductMonotone(1, length - size, ttl);
    assert n == m + (length - size) * ttl;
    pow := TwoOver(m);
    MoreThanTwo(pow, m, n);
    assert Pow2(1) == 2;
    WorkThreshold(1, length, ttl, pow);
  }

  lemma TwoOver(m: nat) returns (y: real)
    requires m > 0
    ensures y > 0.0 && Scaled(y, m) == 2.0
  {
    y := 2.0 / m as real;
  }

  lemma MoreThanTwo(y: real, m: nat, n: nat)
    requires y > 0.0 && Scaled(y, m) == 2.0 && m < n
    ensures Scaled(y, n) > 2.0
  {
    assert Scaled(y, n) - Scaled(y, m) == y * (n - m) as real;
  }

  // ---- Sealing ----

  /** The bytes that are hashed for the proof of work, field by field. */
  datatype Preimage = Preimage(expiry: Uint32, ttl: Uint32, topic: Topic, data: Bytes, nonce: Uint64)

  const BATCH := 1024

  /** Leading zero bits of the digest when the `n`-th nonce is tried. */
  function ZerosAt(zeros: Preimage -> nat, p: Preimage, n: nat): nat {
    zeros(p.(nonce := n % TWO_64))
  }

  lemma NonceIsOverwritten(zeros: Preimage -> nat, p: Preimage, nonce: Uint64)
    ensures forall n: nat :: ZerosAt(zeros, p.(nonce := nonce), n) == ZerosAt(zeros, p, n)
  {
    forall n: nat ensures ZerosAt(zeros, p.(nonce := nonce), n) == ZerosAt(zeros, p, n) {
      assert p.(nonce := nonce).(nonce := n % TWO_64) == p.(nonce := n % TWO_64);
    }
  }

  /** At least one zero bit, worth the target over the declared size. */
  predicate Reaches(zeros: nat, size: nat, ttl: Uint32, target: real)
    requires size > 0
  {
    zeros >= 1 && AtLeast(WorkOver(zeros, size, ttl), target)
  }

  lemma ReachesExact(zeros: nat, size: nat, ttl: Uint32, target: real)
    requires size > 0
    ensures Reaches(zeros, size, ttl, target) <==> zeros >= PowToFirstBit(target, size, ttl)
  {
    if zeros >= 1 { TargetExact(target, size, ttl, zeros); }
  }

  /** The nonce of `p` reaches `bits`, and no smaller nonce does. */
  ghost predicate Found(zeros: Preimage -> nat, p: Preimage, bits: nat) {
    zeros(p) >= bits && forall n: nat | n < p.nonce :: ZerosAt(zeros, p, n) < bits
  }

  /** No nonce tried beats the one in `p`; without a single zero bit the nonce is left alone. */
  ghost predicate Best(zeros: Preimage -> nat, p: Preimage, tried: nat, start: Uint64) {
    || (zeros(p) > 0 && forall n: nat | n < tried :: ZerosAt(zeros, p, n) <= zeros(p))
    || (p.nonce == start && forall n: nat | n < tried :: ZerosAt(zeros, p, n) == 0)
  }

  /** What the search knows after `tried` nonces. */
  ghost predicate Searched(zeros: Preimage -> nat, base: Preimage, tried: nat, best: nat, bits: nat, nonce: Uint64, start: Uint64) {
    && (bits > 0 ==> best < bits)
    && (forall n: nat | n < tried :: ZerosAt(zeros, base, n) <= best)
    && (if best > 0 then zeros(base.(nonce := nonce)) == best else nonce == start)
  }

  /** One more nonce, kept if it beats the best so far. */
  lemma SearchStep(zeros: Preimage -> nat, base: Preimage, tried: nat, best: nat, bits: nat, nonce: Uint64, start: Uint64)
    requires Searched(zeros, base, tried, best, bits, nonce, start)
    ensures var z := ZerosAt(zeros, base, tried);
            && (z <= best ==> Searched(zeros, base, tried + 1, best, bits, nonce, start))
            && (z > best && (bits == 0 || z < bits) ==>
                  Searched(zeros, base, tried + 1, z, bits, tried % TWO_64, start))
            && (z > best && 0 < bits <= z ==> Found(zeros, base.(nonce := tried % TWO_64), bits))
  {
    NonceIsOverwritten(zeros, base, tried % TWO_64);
    forall n: nat | n < tried % TWO_64 && 0 < bits ensures ZerosAt(zeros, base, n) < bits {
      assert ZerosAt(zeros, base, n) <= best;
    }
  }

  /** What a search that went through all its nonces leaves behind. */
  lemma SearchDone(zeros: Preimage -> nat, base: Preimage, tried: nat, best: nat, bits: nat, nonce: Uint64, start: Uint64)
    requires Searched(zeros, base, tried, best, bits, nonce, start)
    ensures var p := base.(nonce := nonce);
            && (bits > 0 ==> forall n: nat | n < tried :: ZerosAt(zeros, p, n) < bits)
            && Best(zeros, p, tried, start)
  {
    NonceIsOverwritten(zeros, base, nonce);
  }

  /** An envelope under construction, with its cached proof-of-work value. */
  class Draft {
    const ttl: Uint32
    const topic: Topic
    const data: Bytes
    var expiry: Uint32
    var nonce: Uint64
    var pow: Work

    /** `now` is the clock reading; the lifetime is added in wrap-around arithmetic. */
    constructor (now: nat, ttl: Uint32, topic: Topic, data: Bytes)
      ensures this.ttl == ttl && this.topic == topic && this.data == data
      ensures expiry == (now + ttl) % TWO_32 && nonce == 0 && pow == NOT_COMPUTED
    {
      this.ttl, this.topic, this.data := ttl, topic, data;
      expiry, nonce, pow := (now + ttl) % TWO_32, 0, NOT_COMPUTED;
    }

    function Fields(): Preimage
      reads this
    {
      Preimage(expiry, ttl, topic, data, nonce)
    }

    function Size(): (n: nat)
      ensures n > 0
    {
      ENVELOPE_HEADER_LENGTH + |data|
    }

    function Length(): (n: nat)
      reads this
      ensures n >= 1
    {
      RlpLength(expiry, ttl, data)
    }

    /** Searches `batches` runs of 1024 nonces. A positive target stops at the first
        nonce that reaches it; a negative one keeps the first best nonce and
        moves the expiry by the time spent. */
    method Seal(zeros: Preimage -> nat, target: real, workTime: Uint32, batches: nat) returns (ok: bool)
      modifies this`expiry, this`nonce
      ensures expiry == if target < 0.0 then (old(expiry) + workTime) % TWO_32 else old(expiry)
      ensures target == 0.0 ==> ok && nonce == old(nonce)
      ensures target > 0.0 && ok ==>
        && Reaches(zeros(Fields()), Size(), ttl, target)
        && forall n: nat | n < nonce :: !Reaches(ZerosAt(zeros, Fields(), n), Size(), ttl, target)
      ensures target > 0.0 && !ok ==>
        && (forall n: nat | n < BATCH * batches :: !Reaches(ZerosAt(zeros, Fields(), n), Size(), ttl, target))
        && Best(zeros, Fields(), BATCH * batches, old(nonce))
      ensures target < 0.0 ==> ok && Best(zeros, Fields(), BATCH * batches, old(nonce))
    {
      if target == 0.0 {
        return true;
      }
      var bits, best := 0, 0;
      if target < 0.0 {
        expiry := (expiry + workTime) % TWO_32;
      } else {
        bits := PowToFirstBit(target, Size(), ttl);
        forall z: nat ensures Reaches(z, Size(), ttl, target) <==> z >= bits { ReachesExact(z, Size(), ttl, target); }
      }
      ghost var start := nonce;
      var base := Fields();
      var tried := 0;
      for round := 0 to batches
        invariant tried == BATCH * round
        invariant Fields() == base.(nonce := nonce)
        invariant Searched(zeros, base, tried, best, bits, nonce, start)
      {
        for i := 0 to BATCH
          invariant tried == BATCH * round + i
          invariant Fields() == base.(nonce := nonce)
          invariant Searched(zeros, base, tried, best, bits, nonce, start)
        {
          var leadingZeros := ZerosAt(zeros, base, tried);
          SearchStep(zeros, base, tried, best, bits, nonce, start);
          if leadingZeros > best {
            nonce, best := tried % TWO_64, leadingZeros;
            if bits > 0 && best >= bits {
              return true;
            }
          }
          tried := tried + 1;
        }
      }
      SearchDone(zeros, base, tried, best, bits, nonce, start);
      return bits == 0;
    }

    method CalculatePoW(zeros: Preimage -> nat, diff: Uint32)
      modifies this`pow
      ensures pow == WorkOf(zeros(Fields()), Length(), ttl, diff) && pow != NOT_COMPUTED
    {
      pow := WorkOf(zeros(Fields()), Length(), ttl, diff);
      WorkIsComputed(zeros(Fields()), Length(), ttl, diff);
    }

    method PoW(zeros: Preimage -> nat) returns (w: Work)
      modifies this`pow
      ensures w == pow != NOT_COMPUTED
      ensures old(pow) != NOT_COMPUTED ==> pow == old(pow)
      ensures old(pow) == NOT_COMPUTED ==> pow == WorkOf(zeros(Fields()), Length(), ttl, 0)
    {
      if pow == NOT_COMPUTED {
        CalculatePoW(zeros, 0);
      }
      w := pow;
    }

    /** Sealing a fresh envelope with a positive target and then asking for its value. */
    method SealedWork(zeros: Preimage -> nat, target: real, workTime: Uint32, batches: nat)
      returns (ok: bool, w: Work)
      requires pow == NOT_COMPUTED && target > 0.0
      modifies this
      ensures ok && |data| <= DataLimit(ttl) ==> AtLeast(w, target)
    {
      ok := Seal(zeros, target, workTime, batches);
      w := PoW(zeros);
      if ok && |data| <= DataLimit(ttl) {
        LengthWithinLimit(expiry, ttl, data);
        ReachesExact(zeros(Fields()), Size(), ttl, target);
        TargetSuffices(target, Size(), Length(), ttl, zeros(Fields()));
      }
    }
  }
}
