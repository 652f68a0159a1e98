/** The encoding whose length and digest the proof of work rests on, byte by byte: recursive length prefixes
    (Appendix B of the Ethereum Yellow Paper), for the fields of an envelope. */
module Rlp {
  import opened Types
  import opened Bits
  import Work

  // ---- Numbers ----

  /** The shortest big-endian form of a number; zero has no bytes. */
  function BigEndian(n: nat): Bytes {
    if n == 0 then [] else BigEndian(n / 256) + [n % 256]
  }

  function Value(b: Bytes): nat {
    if b == [] then 0 else Value(b[..|b| - 1]) * 256 + b[|b| - 1]
  }

  predicate Shortest(b: Bytes) {
    b == [] || b[0] != 0
  }

  lemma {:induction false} BigEndianValue(n: nat)
    ensures Value(BigEndian(n)) == n && Shortest(BigEndian(n))
  {
    if n > 0 {
      BigEndianValue(n / 256);
      assert BigEndian(n)[..|BigEndian(n)| - 1] == BigEndian(n / 256);
    }
  }

  lemma {:induction false} ValueBigEndian(b: Bytes)
    requires Shortest(b)
    ensures BigEndian(Value(b)) == b && (b != [] ==> Value(b) > 0)
    decreases |b|
  {
    if b != [] {
      var (rest, last) := (b[..|b| - 1], b[|b| - 1]);
      ValueBigEndian(rest);
      SplitLast(b);
    }
  }

  /** The number of bytes, as the length functions count them. */
  lemma {:induction false} BigEndianLength(n: nat)
    ensures n > 0 ==> |BigEndian(n)| == Work.IntSize(n)
  {
    if n >= 256 { BigEndianLength(n / 256); }
  }

  lemma EightBytes(n: nat)
    ensures n < TWO_64 <==> |BigEndian(n)| <= 8
  {
    var k := 8;
    BytesNeeded(n, k);
    assert Pow256(8) == TWO_64;
  }

  lemma {:induction false} BytesNeeded(n: nat, k: nat)
    ensures n < Pow256(k) <==> |BigEndian(n)| <= k
    decreases k
  {
    if k > 0 && n > 0 {
      BytesNeeded(n / 256, k - 1);
      assert n < 256 * Pow256(k - 1) <==> n / 256 < Pow256(k - 1);
    }
  }

  // ---- Headers ----

  /** The prefix of an item of the given size; `base` tells byte strings from lists. */
  function Header(base: Byte, size: nat): (h: Bytes)
    requires (base == 0x80 || base == 0xC0) && size < TWO_64
    ensures |h| == Work.HeaderLength(size)
  {
    EightBytes(size);
    BigEndianLength(size);
    if size < 56 then [base + size] else [base + 55 + |BigEndian(size)|] + BigEndian(size)
  }

  /** Reads a prefix: the size it announces and what follows. Sizes must be given in the shortest way. */
  function ReadHeader(base: Byte, b: Bytes): Option<(nat, Bytes)>
    requires base == 0x80 || base == 0xC0
  {
    if b == [] || b[0] < base || b[0] > base + 63 then None
    else if b[0] < base + 56 then Some((b[0] - base, b[1..]))
    else
      var k := b[0] - base - 55;
      if |b| < 1 + k || b[1] == 0 || Value(b[1..1 + k]) < 56 then None
      else Some((Value(b[1..1 + k]), b[1 + k..]))
  }

  /** Reading undoes writing, and nothing else reads as a header. */
  lemma HeaderExact(base: Byte, b: Bytes, size: nat, rest: Bytes)
    requires base == 0x80 || base == 0xC0
    ensures ReadHeader(base, b) == Some((size, rest)) <==> size < TWO_64 && b == Header(base, size) + rest
  {
    if size < TWO_64 && b == Header(base, size) + rest { HeaderReads(base, size, rest); }
    if ReadHeader(base, b) == Some((size, rest)) { HeaderRead(base, b, size, rest); }
  }

  lemma HeaderReads(base: Byte, size: nat, rest: Bytes)
    requires (base == 0x80 || base == 0xC0) && size < TWO_64
    ensures ReadHeader(base, Header(base, size) + rest) == Some((size, rest))
  {
    if size < 56 {
      assert (Header(base, size) + rest)[1..] == rest;
    } else {
      var digits := BigEndian(size);
      EightBytes(size);
      BigEndianValue(size);
      Cut(base + 55 + |digits|, digits, rest);
    }
  }

  lemma Cut(first: Byte, digits: Bytes, rest: Bytes)
    ensures var b := [first] + digits + rest;
            b[0] == first && b[1..1 + |digits|] == digits && b[1 + |digits|..] == rest
  {
  }

  lemma HeaderRead(base: Byte, b: Bytes, size: nat, rest: Bytes)
    requires (base == 0x80 || base == 0xC0) && ReadHeader(base, b) == Some((size, rest))
    ensures size < TWO_64 && b == Header(base, size) + rest
  {
    if b[0] < base + 56 {
      assert b == [b[0]] + b[1..];
    } else {
      var k := b[0] - base - 55;
      var digits := b[1..1 + k];
      ValueBigEndian(digits);
      EightBytes(size);
      assert b == [b[0]] + digits + rest;
    }
  }

  // ---- Byte strings and lists ----

  function EncodeString(b: Bytes): (r: Bytes)
    requires |b| < TWO_64
    ensures |r| == Work.StringLength(b)
  {
    if |b| == 1 && b[0] < 0x80 then b else Header(0x80, |b|) + b
  }

  /** Reads one byte string; a single byte that stands for itself must not be given in another way. */
  function ReadString(b: Bytes): Option<(Bytes, Bytes)> {
    if b == [] then None
    else if b[0] < 0x80 then Some((b[..1], b[1..]))
    else
      match ReadHeader(0x80, b)
      case None => None
      case Some((size, rest)) =>
        if |rest| < size || (size == 1 && rest[0] < 0x80) then None else Some((rest[..size], rest[size..]))
  }

  lemma StringExact(b: Bytes, s: Bytes, rest: Bytes)
    ensures ReadString(b) == Some((s, rest)) <==> |s| < TWO_64 && b == EncodeString(s) + rest
  {
    if |s| < TWO_64 && b == EncodeString(s) + rest { StringReads(s, rest); }
    if ReadString(b) == Some((s, rest)) { StringRead(b, s, rest); }
  }

  lemma StringReads(s: Bytes, rest: Bytes)
    requires |s| < TWO_64
    ensures ReadString(EncodeString(s) + rest) == Some((s, rest))
  {
    var b := EncodeString(s) + rest;
    if |s| == 1 && s[0] < 0x80 {
      assert b[..1] == s && b[1..] == rest;
    } else {
      assert b == Header(0x80, |s|) + (s + rest);
      HeaderReads(0x80, |s|, s + rest);
      assert (s + rest)[..|s|] == s && (s + rest)[|s|..] == rest;
      assert b[0] >= 0x80;
    }
  }

  lemma StringRead(b: Bytes, s: Bytes, rest: Bytes)
    requires ReadString(b) == Some((s, rest))
    ensures |s| < TWO_64 && b == EncodeString(s) + rest
  {
    if b[0] < 0x80 {
      SplitAt(b, 1);
    } else {
      var (size, tail) := ReadHeader(0x80, b).value;
      HeaderRead(0x80, b, size, tail);
      SplitAt(tail, size);
      Regroup(Header(0x80, size), s, rest);
    }
  }

  lemma Regroup(a: Bytes, b: Bytes, c: Bytes)
    ensures a + (b + c) == a + b + c
  {
  }

  function EncodeUint(n: nat): (r: Bytes)
    requires n < TWO_64
    ensures |r| == Work.UintLength(n)
  {
    EightBytes(n);
    BigEndianLength(n);
    assert 0 < n < 256 ==> BigEndian(n) == [n] by { assert BigEndian(n / 256) == [] || n >= 256; }
    EncodeString(BigEndian(n))
  }

  function EncodeList(items: Bytes): (r: Bytes)
    requires |items| < TWO_64
    ensures |r| == Work.HeaderLength(|items|) + |items|
  {
    Header(0xC0, |items|) + items
  }

  lemma ListInjective(a: Bytes, b: Bytes)
    requires |a| < TWO_64 && |b| < TWO_64 && EncodeList(a) == EncodeList(b)
    ensures a == b
  {
    HeaderReads(0xC0, |a|, a);
    HeaderReads(0xC0, |b|, b);
  }

  // ---- What is hashed for the proof of work ----

  function Items(expiry: Uint32, ttl: Uint32, topic: Topic, data: Bytes): Bytes
    requires |data| < TWO_32
  {
    EncodeUint(expiry) + EncodeUint(ttl) + EncodeString(topic.ToBytes()) + EncodeString(data)
  }

  lemma ItemsLength(expiry: Uint32, ttl: Uint32, topic: Topic, data: Bytes)
    requires |data| < TWO_32
    ensures |Items(expiry, ttl, topic, data)|
            == Work.UintLength(expiry) + Work.UintLength(ttl) + (Work.HeaderLength(4) + 4) + Work.StringLength(data)
    ensures |Items(expiry, ttl, topic, data)| < TWO_32 + 32
  {
    Work.IntSizes(expiry);
    Work.IntSizes(ttl);
    Work.IntSizes(|data|);
  }

  /** Expiry, lifetime, topic and data as one list, without the nonce. */
  function WithoutNonce(expiry: Uint32, ttl: Uint32, topic: Topic, data: Bytes): (r: Bytes)
    requires |data| < TWO_32
    ensures |r| == Work.RlpLength(expiry, ttl, data)
  {
    ItemsLength(expiry, ttl, topic, data);
    EncodeList(Items(expiry, ttl, topic, data))
  }

  /** A packet with one envelope: a list of the envelope, which is a list of its fields with the nonce. */
  function Packet(e: Envelope): (r: Bytes)
    requires |e.data| < TWO_32
    ensures |r| == Work.PacketLength(e)
  {
    ItemsLength(e.expiry, e.ttl, e.topic, e.data);
    NonceLength(e.nonce);
    var fields := Items(e.expiry, e.ttl, e.topic, e.data) + EncodeUint(e.nonce);
    ListLength(|fields|);
    EncodeList(EncodeList(fields))
  }

  lemma NonceLength(n: Uint64)
    ensures Work.UintLength(n) <= 9
  {
    EightBytes(n);
    BigEndianLength(n);
  }

  lemma ListLength(n: nat)
    requires n < 0x10_0000_0000
    ensures Work.HeaderLength(n) + n < TWO_64
  {
    EightBytes(n);
    BigEndianLength(n);
  }

  /** Reads the given number of byte strings, with nothing left over. */
  function ReadStrings(b: Bytes, n: nat): Option<seq<Bytes>> {
    if n == 0 then if b == [] then Some([]) else None
    else
      match ReadString(b)
      case None => None
      case Some((s, rest)) =>
        match ReadStrings(rest, n - 1)
        case None => None
        case Some(more) => Some([s] + more)
  }

  /** Inside the list stand expiry, lifetime, topic and data, in this order. */
  lemma WithoutNonceReads(expiry: Uint32, ttl: Uint32, topic: Topic, data: Bytes)
    requires |data| < TWO_32
    ensures var list := ReadHeader(0xC0, WithoutNonce(expiry, ttl, topic, data));
            && list.Some? && list.value.0 == |list.value.1|
            && ReadStrings(list.value.1, 4) == Some([BigEndian(expiry), BigEndian(ttl), topic.ToBytes(), data])
  {
    var items := Items(expiry, ttl, topic, data);
    ItemsLength(expiry, ttl, topic, data);
    HeaderReads(0xC0, |items|, items);
    ItemsGrouped(Envelope(expiry, ttl, topic, data, 0, ZERO_HASH));
    StringsRead(topic, data);
    NumbersRead(expiry, ttl, Strings(topic, data), [topic.ToBytes(), data]);
  }

  lemma StringsRead(topic: Topic, data: Bytes)
    requires |data| < TWO_32
    ensures ReadStrings(Strings(topic, data), 2) == Some([topic.ToBytes(), data])
  {
    var last := EncodeString(data);
    assert last + [] == last;
    ReadOne(data, [], 0, [], [data]);
    ReadOne(topic.ToBytes(), last, 1, [data], [topic.ToBytes(), data]);
  }

  lemma NumbersRead(n: Uint32, m: Uint32, rest: Bytes, more: seq<Bytes>)
    requires ReadStrings(rest, 2) == Some(more) && |more| == 2
    ensures ReadStrings(EncodeUint(n) + (EncodeUint(m) + rest), 4) == Some([BigEndian(n), BigEndian(m), more[0], more[1]])
  {
    var three := [BigEndian(m)] + more;
    NumberRead(m, rest, 2, more, three);
    NumberRead(n, EncodeUint(m) + rest, 3, three, [BigEndian(n)] + three);
    FourOf(BigEndian(n), BigEndian(m), more);
  }

  lemma NumberRead(n: Uint32, rest: Bytes, k: nat, more: seq<Bytes>, all: seq<Bytes>)
    requires ReadStrings(rest, k) == Some(more) && all == [BigEndian(n)] + more
    ensures ReadStrings(EncodeUint(n) + rest, k + 1) == Some(all)
  {
    EightBytes(n);
    ReadOne(BigEndian(n), rest, k, more, all);
  }

  lemma FourOf(a: Bytes, b: Bytes, more: seq<Bytes>)
    requires |more| == 2
    ensures [a] + ([b] + more) == [a, b, more[0], more[1]]
  {
  }

  lemma ReadOne(s: Bytes, rest: Bytes, n: nat, more: seq<Bytes>, all: seq<Bytes>)
    requires |s| < TWO_64 && ReadStrings(rest, n) == Some(more) && all == [s] + more
    ensures ReadStrings(EncodeString(s) + rest, n + 1) == Some(all)
  {
    StringReads(s, rest);
  }

  lemma UintReads(n: nat, m: nat, a: Bytes, b: Bytes)
    requires n < TWO_64 && m < TWO_64 && EncodeUint(n) + a == EncodeUint(m) + b
    ensures n == m && a == b
  {
    EightBytes(n);
    EightBytes(m);
    StringReads(BigEndian(n), a);
    StringReads(BigEndian(m), b);
    BigEndianValue(n);
    BigEndianValue(m);
  }

  /** The hashed bytes determine the fields: no two envelopes that differ in expiry, lifetime, topic or data share them. */
  lemma WithoutNonceInjective(e: Envelope, f: Envelope)
    requires |e.data| < TWO_32 && |f.data| < TWO_32
    requires WithoutNonce(e.expiry, e.ttl, e.topic, e.data) == WithoutNonce(f.expiry, f.ttl, f.topic, f.data)
    ensures e.expiry == f.expiry && e.ttl == f.ttl && e.topic == f.topic && e.data == f.data
  {
    ItemsLength(e.expiry, e.ttl, e.topic, e.data);
    ItemsLength(f.expiry, f.ttl, f.topic, f.data);
    ListInjective(Items(e.expiry, e.ttl, e.topic, e.data), Items(f.expiry, f.ttl, f.topic, f.data));
    ItemsInjective(e, f);
  }

  lemma ItemsInjective(e: Envelope, f: Envelope)
    requires |e.data| < TWO_32 && |f.data| < TWO_32
    requires Items(e.expiry, e.ttl, e.topic, e.data) == Items(f.expiry, f.ttl, f.topic, f.data)
    ensures e.expiry == f.expiry && e.ttl == f.ttl && e.topic == f.topic && e.data == f.data
  {
    var (a, b) := (Strings(e.topic, e.data), Strings(f.topic, f.data));
    ItemsGrouped(e);
    ItemsGrouped(f);
    UintReads(e.expiry, f.expiry, EncodeUint(e.ttl) + a, EncodeUint(f.ttl) + b);
    UintReads(e.ttl, f.ttl, a, b);
    StringsInjective(e.topic, e.data, f.topic, f.data);
  }

  function Strings(topic: Topic, data: Bytes): Bytes
    requires |data| < TWO_32
  {
    EncodeString(topic.ToBytes()) + EncodeString(data)
  }

  lemma ItemsGrouped(e: Envelope)
    requires |e.data| < TWO_32
    ensures Items(e.expiry, e.ttl, e.topic, e.data)
            == EncodeUint(e.expiry) + (EncodeUint(e.ttl) + Strings(e.topic, e.data))
  {
    Regroup(EncodeUint(e.expiry) + EncodeUint(e.ttl), EncodeString(e.topic.ToBytes()), EncodeString(e.data));
    Regroup(EncodeUint(e.expiry), EncodeUint(e.ttl), Strings(e.topic, e.data));
  }

  lemma StringsInjective(t: Topic, d: Bytes, u: Topic, g: Bytes)
    requires |d| < TWO_32 && |g| < TWO_32 && Strings(t, d) == Strings(u, g)
    ensures t == u && d == g
  {
    StringReads(t.ToBytes(), EncodeString(d));
    StringReads(u.ToBytes(), EncodeString(g));
    assert t.ToBytes()[0] == u.ToBytes()[0] && t.ToBytes()[1] == u.ToBytes()[1]
           && t.ToBytes()[2] == u.ToBytes()[2] && t.ToBytes()[3] == u.ToBytes()[3];
    StringReads(d, []);
    StringReads(g, []);
    assert EncodeString(d) + [] == EncodeString(d) && EncodeString(g) + [] == EncodeString(g);
  }
}
