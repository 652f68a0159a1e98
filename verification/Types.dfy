/** Values shared by every part of the Whisper v6 model: machine integers, byte
    strings, digests, topics and the envelope as it travels on the wire. */
module Types {
  const TWO_32 := 0x1_0000_0000
  const TWO_64 := 0x1_0000_0000_0000_0000

  type Byte = x: int | 0 <= x < 256
  type Uint32 = x: int | 0 <= x < 0x1_0000_0000
  type Uint64 = x: int | 0 <= x < 0x1_0000_0000_0000_0000
  type Bytes = seq<Byte>

  const HASH_LENGTH := 32
  const ENVELOPE_HEADER_LENGTH := 20
  const DEFAULT_SYNC_ALLOWANCE := 10

  function Zeros(n: nat): (r: Bytes)
    ensures |r| == n && forall i | 0 <= i < n :: r[i] == 0
  {
    seq(n, _ => 0)
  }

  /** A Keccak-256 digest. */
  type Hash = h: Bytes | |h| == HASH_LENGTH witness Zeros(HASH_LENGTH)

  const ZERO_HASH: Hash := Zeros(HASH_LENGTH)

  /** The four bytes that classify an envelope. */
  datatype Topic = Topic(b0: Byte, b1: Byte, b2: Byte, b3: Byte)
  {
    function ToBytes(): (b: Bytes)
      ensures |b| == 4
    {
      [b0, b1, b2, b3]
    }
  }

  datatype Option<+T> = None | Some(value: T)

  /** The public fields of an envelope together with its digest. */
  datatype Envelope = Envelope(expiry: Uint32, ttl: Uint32, topic: Topic, data: Bytes, nonce: Uint64, hash: Hash)
  {
    function Size(): nat {
      ENVELOPE_HEADER_LENGTH + |data|
    }

    /** The moment the envelope was sent, in wrap-around arithmetic. */
    function Sent(): Uint32 {
      (expiry - ttl) % TWO_32
    }
  }

  ghost predicate NoDuplicates<T>(s: seq<T>) {
    forall i, j | 0 <= i < j < |s| :: s[i] != s[j]
  }

  /** A sequence that lists every member of a finite set once, in some order. */
  ghost predicate Enumerates<T>(s: seq<T>, members: set<T>) {
    multiset(s) == multiset(members)
  }

  lemma SplitAt<T>(s: seq<T>, n: nat)
    requires n <= |s|
    ensures s == s[..n] + s[n..]
  {
  }

  lemma SplitLast<T>(s: seq<T>)
    requires s != []
    ensures s == s[..|s| - 1] + [s[|s| - 1]]
  {
  }

  lemma CountAppend<T>(s: seq<T>, last: T, x: T)
    ensures multiset(s + [last])[x] == multiset(s)[x] + if last == x then 1 else 0
  {
  }

  lemma EnumerationLength<T>(s: seq<T>, members: set<T>)
    requires Enumerates(s, members)
    ensures |s| == |members|
  {
    assert |multiset(s)| == |s| && |multiset(members)| == |members|;
  }

  lemma EnumerateOneMore<T>(s: seq<T>, members: set<T>, x: T)
    requires Enumerates(s, members) && x !in members
    ensures Enumerates(s + [x], members + {x})
  {
  }

  lemma EnumerateRest<T>(s: seq<T>, members: set<T>)
    requires s != [] && Enumerates(s, members)
    ensures s[0] in members && Enumerates(s[1..], members - {s[0]})
  {
    assert s == [s[0]] + s[1..];
    assert s[0] in multiset(s);
    forall x ensures multiset(s[1..])[x] == multiset(members - {s[0]})[x] {
      assert multiset(s)[x] == multiset([s[0]])[x] + multiset(s[1..])[x];
    }
  }

  lemma EnumerationDistinct<T>(s: seq<T>, members: set<T>)
    requires Enumerates(s, members)
    ensures NoDuplicates(s) && forall x | x in s :: x in members
  {
    forall x | x in s ensures x in members { assert x in multiset(s); }
    forall i, j | 0 <= i < j < |s| ensures s[i] != s[j] {
      assert s == s[..i] + [s[i]] + s[i + 1..j] + [s[j]] + s[j + 1..];
      assert multiset(s)[s[i]] <= 1;
    }
  }
}
