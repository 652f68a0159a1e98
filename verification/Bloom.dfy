/** Bloom filters: 64 bytes that stand for a set of bit positions below 512. */
module Bloom {
  import opened Types
  import opened Bits

  const BLOOM_FILTER_SIZE := 64

  type Bloom = b: Bytes | |b| == BLOOM_FILTER_SIZE witness Zeros(BLOOM_FILTER_SIZE)

  /** The set of bit positions a filter stands for. */
  ghost function Members(b: Bloom): (s: set<nat>)
  {
    set i: nat | i < 512 && Bit(b[i / 8], i % 8)
  }

  ghost const EVERY_POSITION := set i: nat | i < 512

  /** Bit position chosen by the first three topic bytes; the fourth byte holds their ninth bits. */
  function Index(t: Topic, j: nat): (i: nat)
    requires j < 3
    ensures i < 512
  {
    (if j == 0 then t.b0 else if j == 1 then t.b1 else t.b2) + (if Bit(t.b3, j) then 256 else 0)
  }

  /** Each of the three lowest bits of the fourth byte is the ninth bit of one index, and the indices
      tell all topics apart that differ in the first three bytes or in these bits. */
  lemma IndexExact(t: Topic, u: Topic)
    ensures Index(t, 0) == t.b0 + 256 * (t.b3 % 2)
    ensures Index(t, 1) == t.b1 + 256 * (t.b3 / 2 % 2)
    ensures Index(t, 2) == t.b2 + 256 * (t.b3 / 4 % 2)
    ensures (forall j: nat | j < 3 :: Index(t, j) == Index(u, j)) <==>
            && t.b0 == u.b0 && t.b1 == u.b1 && t.b2 == u.b2
            && t.b3 % 2 == u.b3 % 2 && t.b3 / 2 % 2 == u.b3 / 2 % 2 && t.b3 / 4 % 2 == u.b3 / 4 % 2
  {
    ThreeBits(t.b3);
    ThreeBits(u.b3);
    assert (forall j: nat | j < 3 :: Index(t, j) == Index(u, j)) <==>
           Index(t, 0) == Index(u, 0) && Index(t, 1) == Index(u, 1) && Index(t, 2) == Index(u, 2);
  }

  /** The bytes of a filter that the three indices of a topic fall into. */
  ghost function TouchedBytes(t: Topic): set<nat> {
    set j: nat | j < 3 :: Index(t, j) / 8
  }

  /** Of the indices that share a byte only the last one survives. */
  ghost function TopicMembers(t: Topic): set<nat> {
    set j: nat | j < 3 && (forall k | j < k < 3 :: Index(t, k) / 8 != Index(t, j) / 8) :: Index(t, j)
  }

  /** The subset test; an absent filter accepts every topic. */
  ghost predicate Accepts(filter: Option<Bloom>, t: Topic) {
    filter.None? || TopicMembers(t) <= Members(filter.value)
  }

  lemma MembersOfByte(b: Bloom, k: nat, m: nat)
    requires k < BLOOM_FILTER_SIZE && m < 8
    ensures 8 * k + m in Members(b) <==> Bit(b[k], m)
  {
    assert (8 * k + m) / 8 == k && (8 * k + m) % 8 == m;
  }

  lemma ByteBelow(x: Byte)
    ensures x < Pow2(8)
  {
    assert Pow2(8) == 2 * (2 * (2 * (2 * Pow2(4)))) == 256;
  }

  /** Filters are exactly the sets they stand for: no two filters have the same members. */
  lemma MembersDetermine(a: Bloom, b: Bloom)
    requires Members(a) == Members(b)
    ensures a == b
  {
    forall k: nat | k < BLOOM_FILTER_SIZE ensures a[k] == b[k] {
      forall m: nat ensures Bit(a[k], m) <==> Bit(b[k], m) {
        if m < 8 {
          MembersOfByte(a, k, m);
          MembersOfByte(b, k, m);
        } else {
          ByteBelow(a[k]);
          ByteBelow(b[k]);
          HighBitsClear(a[k], 8, m);
          HighBitsClear(b[k], 8, m);
        }
      }
      BitsDetermine(a[k], b[k]);
    }
  }

  /** One byte of the subset test: `(f | s) == f`. */
  lemma ByteSubset(f: Bloom, s: Bloom, k: nat)
    requires k < BLOOM_FILTER_SIZE
    ensures Or(f[k], s[k]) == f[k] <==> forall x: nat | x / 8 == k && x in Members(s) :: x in Members(f)
  {
    OrAbsorbs(f[k], s[k]);
    if forall x: nat | x / 8 == k && x in Members(s) :: x in Members(f) {
      forall m: nat ensures Bit(s[k], m) ==> Bit(f[k], m) {
        if m < 8 {
          MembersOfByte(s, k, m);
          MembersOfByte(f, k, m);
        } else {
          ByteBelow(s[k]);
          HighBitsClear(s[k], 8, m);
        }
      }
    }
  }

  method BloomFilterMatch(filter: Option<Bloom>, sample: Bloom) returns (ok: bool)
    ensures ok <==> filter.None? || Members(sample) <= Members(filter.value)
  {
    if filter.None? {
      return true;
    }
    for i := 0 to BLOOM_FILTER_SIZE
      invariant forall x | x in Members(sample) && x < 8 * i :: x in Members(filter.value)
    {
      var f := filter.value[i];
      var s := sample[i];
      ByteSubset(filter.value, sample, i);
      if Or(f, s) != f {
        return false;
      }
      forall x | x in Members(sample) && x < 8 * (i + 1) ensures x in Members(filter.value) {
        if x >= 8 * i { assert x / 8 == i; }
      }
    }
    return true;
  }

  method AddBloom(a: Bloom, b: Bloom) returns (r: Bloom)
    ensures Members(r) == Members(a) + Members(b)
  {
    var c := new Byte[BLOOM_FILTER_SIZE](_ => 0);
    for i := 0 to BLOOM_FILTER_SIZE
      invariant forall k | 0 <= k < i :: c[k] == Or(a[k], b[k])
    {
      ByteBelow(a[i]);
      ByteBelow(b[i]);
      OrBelow(a[i], b[i], 8);
      c[i] := Or(a[i], b[i]);
    }
    r := c[..];
    forall x: nat | x < 512 ensures x in Members(r) <==> x in Members(a) + Members(b) {
      BitOfOr(a[x / 8], b[x / 8], x % 8);
    }
  }

  /** Byte `k` of the filter after the first `j` assignments. */
  function ByteAfter(t: Topic, j: nat, k: nat): nat
    requires j <= 3
  {
    if j == 0 then 0
    else if Index(t, j - 1) / 8 == k then Pow2(Index(t, j - 1) % 8)
    else ByteAfter(t, j - 1, k)
  }

  /** An assignment to the byte leaves one bit; any other leaves the byte alone. */
  lemma BitAfterStep(t: Topic, j: nat, k: nat, m: nat)
    requires j < 3 && m < 8
    ensures Bit(ByteAfter(t, j + 1, k), m) <==>
            if Index(t, j) / 8 == k then Index(t, j) % 8 == m else Bit(ByteAfter(t, j, k), m)
  {
    BitOfPow2(Index(t, j) % 8, m);
  }

  lemma BitAfter(t: Topic, k: nat, m: nat)
    requires k < BLOOM_FILTER_SIZE && m < 8
    ensures Bit(ByteAfter(t, 3, k), m) <==> 8 * k + m in TopicMembers(t)
  {
    ZeroHasNoBits(m);
    BitAfterStep(t, 0, k, m);
    BitAfterStep(t, 1, k, m);
    BitAfterStep(t, 2, k, m);
    TopicMembersListed(t);
    PositionOf(Index(t, 0), k, m);
    PositionOf(Index(t, 1), k, m);
    PositionOf(Index(t, 2), k, m);
  }

  lemma PositionOf(x: nat, k: nat, m: nat)
    requires m < 8
    ensures x == 8 * k + m <==> x / 8 == k && x % 8 == m
  {
  }

  method TopicToBloom(t: Topic) returns (r: Bloom)
    ensures Members(r) == TopicMembers(t)
  {
    var b := new Byte[BLOOM_FILTER_SIZE](_ => 0);
    var index := new nat[3](_ => 0);
    for j := 0 to 3
      invariant forall i | 0 <= i < j :: index[i] == Index(t, i)
      invariant forall k | 0 <= k < BLOOM_FILTER_SIZE :: b[k] == 0
    {
      index[j] := if j == 0 then t.b0 else if j == 1 then t.b1 else t.b2;
      if Bit(t.b3, j) {
        index[j] := index[j] + 256;
      }
    }
    for j := 0 to 3
      invariant forall i | 0 <= i < 3 :: index[i] == Index(t, i)
      invariant forall k: nat | k < BLOOM_FILTER_SIZE :: b[k] == ByteAfter(t, j, k)
    {
      var byteIndex := index[j] / 8;
      var bitIndex := index[j] % 8;
      Pow2Monotone(bitIndex, 7);
      assert Pow2(7) == 2 * (2 * (2 * Pow2(4))) == 128;
      b[byteIndex] := Pow2(bitIndex);
    }
    r := b[..];
    forall x: nat | x < 512 ensures x in Members(r) <==> x in TopicMembers(t) {
      BitAfter(t, x / 8, x % 8);
    }
  }

  ghost function Kept(a: nat, b: nat, c: nat, keepA: bool, keepB: bool): set<nat> {
    (if keepA then {a} else {}) + (if keepB then {b} else {}) + {c}
  }

  lemma KeptCount(a: nat, b: nat, c: nat, keepA: bool, keepB: bool)
    requires (keepA ==> a != b && a != c) && (keepB ==> b != c)
    ensures |Kept(a, b, c, keepA, keepB)| == (if keepA then 1 else 0) + (if keepB then 1 else 0) + 1
  {
    if keepA && keepB {
      assert Kept(a, b, c, true, true) == {a, b, c};
    } else if keepA {
      assert Kept(a, b, c, true, false) == {a, c};
    } else if keepB {
      assert Kept(a, b, c, false, true) == {b, c};
    } else {
      assert Kept(a, b, c, false, false) == {c};
    }
  }

  /** Do the first and the second index fall into a byte that no later one falls into? */
  predicate KeepsFirst(t: Topic) {
    Index(t, 0) / 8 != Index(t, 1) / 8 && Index(t, 0) / 8 != Index(t, 2) / 8
  }

  predicate KeepsSecond(t: Topic) {
    Index(t, 1) / 8 != Index(t, 2) / 8
  }

  lemma TopicMembersListed(t: Topic)
    ensures TopicMembers(t) == Kept(Index(t, 0), Index(t, 1), Index(t, 2), KeepsFirst(t), KeepsSecond(t))
  {
    forall x: nat
      ensures x in TopicMembers(t) <==>
        x == Index(t, 2) || (x == Index(t, 1) && KeepsSecond(t)) || (x == Index(t, 0) && KeepsFirst(t))
    {
    }
  }

  lemma TouchedBytesListed(t: Topic)
    ensures TouchedBytes(t) == Kept(Index(t, 0) / 8, Index(t, 1) / 8, Index(t, 2) / 8, KeepsFirst(t), KeepsSecond(t))
  {
    assert TouchedBytes(t) == {Index(t, 0) / 8, Index(t, 1) / 8, Index(t, 2) / 8};
  }

  /** A topic sets one bit in each byte it touches, so between one and three bits. */
  lemma TopicBitCount(t: Topic)
    ensures |TopicMembers(t)| == |TouchedBytes(t)|
    ensures 1 <= |TopicMembers(t)| <= 3
  {
    TopicMembersListed(t);
    TouchedBytesListed(t);
    KeptCount(Index(t, 0), Index(t, 1), Index(t, 2), KeepsFirst(t), KeepsSecond(t));
    KeptCount(Index(t, 0) / 8, Index(t, 1) / 8, Index(t, 2) / 8, KeepsFirst(t), KeepsSecond(t));
  }

  method IsFullNode(bloom: Option<Bytes>) returns (full: bool)
    ensures full <==> bloom.None? || forall i | 0 <= i < |bloom.value| :: bloom.value[i] == 255
  {
    if bloom.None? {
      return true;
    }
    for i := 0 to |bloom.value|
      invariant forall k | 0 <= k < i :: bloom.value[k] == 255
    {
      if bloom.value[i] != 255 {
        return false;
      }
    }
    return true;
  }

  /** A filter of ones is the only filter that accepts every position. */
  lemma OnesAreEverything(b: Bloom)
    ensures (forall i | 0 <= i < |b| :: b[i] == 255) <==> Members(b) == EVERY_POSITION
  {
    if forall i | 0 <= i < |b| :: b[i] == 255 {
      forall x: nat | x < 512 ensures x in Members(b) { OnesBit(x % 8); }
    } else if Members(b) == EVERY_POSITION {
      var ones: Bloom := seq(BLOOM_FILTER_SIZE, _ => 255);
      forall x: nat | x < 512 ensures x in Members(ones) { OnesBit(x % 8); }
      MembersDetermine(b, ones);
    }
  }

  lemma OnesBit(m: nat)
    requires m < 8
    ensures Bit(255, m)
  {
    assert Pow2(8) == 2 * (2 * (2 * (2 * Pow2(4)))) == 256;
    LowBitsSet(8, m);
  }

  /** The positions a filter asks for; an absent filter asks for all. */
  ghost function Asked(filter: Option<Bloom>): set<nat> {
    if filter.None? then EVERY_POSITION else Members(filter.value)
  }

  /** One position, or two that do not share a byte, are all there is to some topic. */
  lemma TopicOfPair(x: nat, y: nat) returns (t: Topic)
    requires x < 512 && y < 512 && (x == y || x / 8 != y / 8)
    ensures TopicMembers(t) == {x, y}
  {
    var b3 := (if x >= 256 then 1 else 0) + (if y >= 256 then 6 else 0);
    t := Topic(x % 256, y % 256, y % 256, b3);
    ThreeBits(b3);
    assert Index(t, 0) == x && Index(t, 1) == y && Index(t, 2) == y;
    TopicMembersListed(t);
  }

  lemma ThreeBits(b: nat)
    ensures Bit(b, 0) == (b % 2 == 1) && Bit(b, 1) == (b / 2 % 2 == 1) && Bit(b, 2) == (b / 4 % 2 == 1)
  {
    assert Bit(b, 2) == Bit(b / 2, 1) == Bit(b / 2 / 2, 0);
  }

  /** Two positions of one topic do not share a byte. */
  lemma MembersApart(t: Topic, x: nat, y: nat)
    requires x in TopicMembers(t) && y in TopicMembers(t)
    ensures x == y || x / 8 != y / 8
  {
    TopicMembersListed(t);
  }

  lemma IndicesInRange(t: Topic)
    ensures TopicMembers(t) <= EVERY_POSITION && TopicMembers(t) != {}
  {
    assert Index(t, 2) in TopicMembers(t);
  }

  lemma NoMembers(b: Bloom)
    requires forall i | 0 <= i < |b| :: b[i] == 0
    ensures Members(b) == {}
  {
    forall x: nat | x < 512 ensures x !in Members(b) { ZeroHasNoBits(x % 8); }
  }
}
