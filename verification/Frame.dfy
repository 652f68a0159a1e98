/** The message frame: flag byte, payload size field, payload, padding and an
    optional signature ("Contents of Data Field of the Message" in EIP-627). */
module Frame {
  import opened Types
  import opened Bits
  import opened Crypto
  import Work

  const SIGNATURE_FLAG := 4
  const PAD_SIZE_LIMIT := 256

  predicate IsMessageSigned(flags: Byte) {
    Bit(flags, 2)
  }

  /** Number of bytes of the size field: `flags & 3`. */
  function SizeFieldLength(flags: Byte): nat {
    flags % 4
  }

  /** The two lowest bits of the flags are the length of the size field, the next one says that there is a signature. */
  lemma FlagBits(flags: Byte)
    ensures SizeFieldLength(flags) == flags % 4 && (IsMessageSigned(flags) <==> flags / 4 % 2 == 1)
  {
    assert Bit(flags, 2) == Bit(flags / 2, 1) == Bit(flags / 2 / 2, 0);
  }

  // ---- Little-endian numbers ----

  function LittleEndian(b: Bytes): nat {
    if b == [] then 0 else b[0] + 256 * LittleEndian(b[1..])
  }

  function PutUint(n: nat, length: nat): (b: Bytes)
    ensures |b| == length
  {
    if length == 0 then [] else [n % 256] + PutUint(n / 256, length - 1)
  }

  lemma {:induction false} PutUintDecodes(n: nat, length: nat)
    requires n < Pow256(length)
    ensures LittleEndian(PutUint(n, length)) == n
  {
    if length > 0 {
      PutUintDecodes(n / 256, length - 1);
      assert PutUint(n, length)[1..] == PutUint(n / 256, length - 1);
    }
  }

  lemma {:induction false} PutUintPrefix(n: nat, short: nat, long: nat)
    requires short <= long
    ensures PutUint(n, long)[..short] == PutUint(n, short)
  {
    if short > 0 {
      PutUintPrefix(n / 256, short - 1, long - 1);
      assert PutUint(n, long)[..short] == [n % 256] + PutUint(n / 256, long - 1)[..short - 1];
    }
  }

  lemma {:induction false} LittleEndianAppend(b: Bytes, x: Byte)
    ensures LittleEndian(b + [x]) == LittleEndian(b) + x * Pow256(|b|)
  {
    if b == [] {
      assert (b + [x])[1..] == [];
    } else {
      assert (b + [x])[1..] == b[1..] + [x];
      LittleEndianAppend(b[1..], x);
      assert x * Pow256(|b|) == 256 * (x * Pow256(|b| - 1));
    }
  }

  lemma {:induction false} LittleEndianBelow(b: Bytes)
    ensures LittleEndian(b) < Pow256(|b|)
  {
    if b != [] { LittleEndianBelow(b[1..]); }
  }

  /** Byte `i` is digit `i` of the number in base 256: the least significant byte comes first. */
  lemma {:induction false} LittleEndianDigit(b: Bytes, i: nat)
    requires i < |b|
    ensures LittleEndian(b) / Pow256(i) % 256 == b[i]
  {
    if i > 0 {
      LittleEndianDigit(b[1..], i - 1);
      DropDigit(LittleEndian(b), Pow256(i - 1));
      assert LittleEndian(b) / 256 == LittleEndian(b[1..]);
    }
  }

  lemma DropDigit(n: nat, p: nat)
    requires p > 0
    ensures n / (256 * p) == n / 256 / p
  {
    var q := n / 256 / p;
    var r := n / 256 - q * p;
    assert 0 <= r < p;
    assert n == 256 * p * q + (256 * r + n % 256);
    QuotientIs(n, 256 * p, q, 256 * r + n % 256);
  }

  lemma QuotientIs(n: nat, d: nat, q: nat, r: nat)
    requires d > 0 && n == d * q + r && r < d
    ensures n / d == q
  {
    assert d * (n / d - q) == r - n % d;
    if n / d > q { Work.ProductMonotone(1, n / d - q, d); }
    if n / d < q { Work.ProductMonotone(1, q - n / d, d); }
  }

  /** Additions and multiplications modulo 2^64 lose only multiples of 2^64. */
  lemma WrapAround(r: nat, x: nat, m: nat)
    ensures (r % TWO_64 + x * (m % TWO_64)) % TWO_64 == (r + x * m) % TWO_64
  {
    var M := TWO_64;
    var q := r / M + x * (m / M);
    assert x * m == x * (m % M) + M * (x * (m / M)) by {
      assert m == m % M + M * (m / M);
    }
    assert r + x * m == r % M + x * (m % M) + M * q;
  }

  method BytesToUintLittleEndian(b: Bytes) returns (res: nat)
    ensures res == LittleEndian(b) % TWO_64
  {
    res := 0;
    var mul := 1;
    for i := 0 to |b|
      invariant res == LittleEndian(b[..i]) % TWO_64
      invariant mul == Pow256(i) % TWO_64
    {
      WrapAround(LittleEndian(b[..i]), b[i], Pow256(i));
      WrapAround(0, 256, Pow256(i));
      LittleEndianAppend(b[..i], b[i]);
      assert b[..i + 1] == b[..i] + [b[i]];
      res := (res + b[i] * mul) % TWO_64;
      mul := 256 * mul % TWO_64;
    }
    assert b[..|b|] == b;
  }

  /** The least number of bytes that hold the payload length. */
  method GetSizeOfPayloadSizeField(payload: Bytes) returns (s: nat)
    ensures |payload| < Pow256(s)
    ensures s == 1 || (s > 1 && Pow256(s - 1) <= |payload|)
    ensures s == Work.IntSize(|payload|)
  {
    s := 1;
    var i := |payload|;
    while i >= 256
      invariant s >= 1 && i >= 0
      invariant i * Pow256(s - 1) <= |payload| < (i + 1) * Pow256(s - 1)
      invariant s == 1 || i >= 1
      invariant Work.IntSize(|payload|) == s - 1 + Work.IntSize(i)
    {
      DivideStep(|payload|, i, s - 1);
      i := i / 256;
      s := s + 1;
    }
    DivideDone(|payload|, i, s - 1);
  }

  lemma DivideStep(n: nat, i: nat, k: nat)
    requires i * Pow256(k) <= n < (i + 1) * Pow256(k)
    ensures i / 256 * Pow256(k + 1) <= n < (i / 256 + 1) * Pow256(k + 1)
  {
    var (p, q) := (Pow256(k), i / 256);
    assert q * Pow256(k + 1) == 256 * q * p && (q + 1) * Pow256(k + 1) == (256 * q + 256) * p;
    Work.ProductMonotone(256 * q, i, p);
    Work.ProductMonotone(i + 1, 256 * q + 256, p);
  }

  lemma DivideDone(n: nat, i: nat, k: nat)
    requires i * Pow256(k) <= n < (i + 1) * Pow256(k) && i < 256
    ensures n < Pow256(k + 1)
    ensures i >= 1 ==> Pow256(k) <= n
  {
    Work.ProductMonotone(i + 1, 256, Pow256(k));
    if i >= 1 { Work.ProductMonotone(1, i, Pow256(k)); }
  }

  lemma {:induction false} Pow256Monotone(m: nat, n: nat)
    requires m <= n
    ensures Pow256(m) <= Pow256(n)
  {
    if m < n { Pow256Monotone(m, n - 1); }
  }

  /** Four bytes hold exactly the lengths below 2^32. */
  lemma FourBytes(n: nat, s: nat)
    requires s >= 1 && n < Pow256(s) && (s == 1 || Pow256(s - 1) <= n)
    ensures s > 4 <==> n >= TWO_32
  {
    assert Pow256(4) == 256 * Pow256(3) && Pow256(3) == 256 * Pow256(2) && Pow256(2) == 256 * Pow256(1);
    if s > 4 { Pow256Monotone(4, s - 1); } else { Pow256Monotone(s, 4); }
  }

  // ---- Building a frame ----

  /** The frame of a message before signing. A length of 2^32 or more does not fit the
      four-byte scratch field, and slicing it fails. */
  function Encode(payload: Bytes, padding: Bytes): Option<Bytes> {
    if |payload| >= TWO_32 then None
    else
      var s := FieldLength(payload);
      Some([s] + PutUint(|payload|, s) + payload + padding)
  }

  function FieldLength(payload: Bytes): (s: Byte)
    requires |payload| < TWO_32
    ensures 1 <= s <= 4 && |payload| < Pow256(s)
    ensures s <= 3 <==> |payload| < 0x100_0000
  {
    Work.IntSizes(|payload|);
    assert Pow256(1) == 256 && Pow256(2) == 0x1_0000 && Pow256(3) == 256 * Pow256(2) && Pow256(4) == 256 * Pow256(3);
    Work.IntSize(|payload|)
  }

  function SetSignatureFlag(raw: Bytes): (r: Bytes)
    requires raw != []
    ensures |r| == |raw| && r[1..] == raw[1..]
    ensures IsMessageSigned(r[0]) && SizeFieldLength(r[0]) == SizeFieldLength(raw[0])
  {
    OrFour(raw[0]);
    [Or(raw[0], SIGNATURE_FLAG)] + raw[1..]
  }

  lemma OrFour(b: Byte)
    ensures Or(b, 4) == if Bit(b, 2) then b else b + 4
    ensures Or(b, 4) < 256 && Bit(Or(b, 4), 2) && Or(b, 4) % 4 == b % 4
  {
    assert Pow2(2) == 4;
    OrOneBit(b, 2);
    BitOfOr(b, 4, 2);
    BitOfPow2(2, 2);
    assert Bit(b, 2) == Bit(b / 2, 1) == Bit(b / 2 / 2, 0);
  }

  /** The frame with its signature; the flag is set before the digest is taken. */
  function Signed(c: Crypto, key: PrivateKey, raw: Bytes): Option<Bytes>
    requires raw != []
  {
    if IsMessageSigned(raw[0]) then Some(raw)
    else
      var flagged := SetSignatureFlag(raw);
      match c.sign(key, c.digest(flagged))
      case None => None
      case Some(signature) => Some(flagged + signature)
  }

  /** Size of the random padding that fills the frame to a multiple of 256 bytes. */
  function PaddingSize(payload: Bytes, signed: bool): (n: nat)
    ensures 1 <= n <= PAD_SIZE_LIMIT
  {
    var rawSize := 1 + Work.IntSize(|payload|) + |payload| + if signed then SIGNATURE_LENGTH else 0;
    PAD_SIZE_LIMIT - rawSize % PAD_SIZE_LIMIT
  }

  /** More than three bytes that are all zero do not look random. */
  predicate Plausible(b: Bytes) {
    |b| <= 3 || exists i | 0 <= i < |b| :: b[i] != 0
  }

  class SentMessage {
    var raw: Bytes

    constructor ()
      ensures raw == [0]
    {
      raw := [0];
    }

    /** A field of more than four bytes cannot be cut from the scratch field: the slice fails. */
    method AddPayloadSizeField(payload: Bytes) returns (ok: bool)
      requires raw == [0]
      modifies this
      ensures ok <==> |payload| < TWO_32
      ensures raw == if ok then [FieldLength(payload)] + PutUint(|payload|, FieldLength(payload)) else [0]
    {
      var fieldSize := GetSizeOfPayloadSizeField(payload);
      FourBytes(|payload|, fieldSize);
      if fieldSize > 4 {
        return false;
      }
      assert fieldSize == FieldLength(payload);
      var field := PutUint(|payload|, 4);
      PutUintPrefix(|payload|, fieldSize, 4);
      field := field[..fieldSize];
      raw := raw + field;
      raw := [Or(raw[0], fieldSize)] + raw[1..];
      return true;
    }

    /** `random` is the output of the random source, if it works; all zeros are rejected as its most common failure. */
    method AppendPadding(payload: Bytes, padding: Bytes, signed: bool, random: Option<Bytes>) returns (ok: bool)
      requires random.Some? ==> |random.value| >= PAD_SIZE_LIMIT
      modifies this
      ensures padding != [] ==> ok && raw == old(raw) + padding
      ensures padding == [] ==>
        && ok == (random.Some? && Plausible(random.value[..PaddingSize(payload, signed)]))
        && raw == if ok then old(raw) + random.value[..PaddingSize(payload, signed)] else old(raw)
    {
      if padding != [] {
        raw := raw + padding;
        return true;
      }
      var field := GetSizeOfPayloadSizeField(payload);
      var rawSize := 1 + field + |payload|;
      if signed {
        rawSize := rawSize + SIGNATURE_LENGTH;
      }
      var odd := rawSize % PAD_SIZE_LIMIT;
      var paddingSize := PAD_SIZE_LIMIT - odd;
      if random.None? {
        return false;
      }
      var pad := random.value[..paddingSize];
      if !Plausible(pad) {
        return false;
      }
      raw := raw + pad;
      return true;
    }

    /** Signs the frame with its signature flag already set; a frame whose flag is set is left alone. */
    method Sign(c: Crypto, key: PrivateKey) returns (ok: bool)
      requires raw != []
      modifies this
      ensures ok == Signed(c, key, old(raw)).Some?
      ensures raw == if ok then Signed(c, key, old(raw)).value else old(raw)
    {
      if IsMessageSigned(raw[0]) {
        return true;
      }
      raw := SetSignatureFlag(raw);
      var signature := c.sign(key, c.digest(raw));
      if signature.None? {
        OrFour(old(raw)[0]);
        raw := [raw[0] - SIGNATURE_FLAG] + raw[1..];
        return false;
      }
      raw := raw + signature.value;
      return true;
    }
  }

  /** A frame, no padding to be had, or a payload whose length does not fit the size field. */
  datatype Outcome = Built | NoPadding | Failed

  /** An unsigned frame holds the payload and the padding given, or generated
      padding that rounds the finished frame up to a multiple of 256 bytes. */
  method NewSentMessage(payload: Bytes, padding: Bytes, signed: bool, random: Option<Bytes>)
    returns (msg: SentMessage, outcome: Outcome, used: Bytes)
    requires random.Some? ==> |random.value| >= PAD_SIZE_LIMIT
    ensures fresh(msg)
    ensures outcome.Failed? <==> Encode(payload, used).None?
    ensures outcome.Built? ==> Some(msg.raw) == Encode(payload, used)
    ensures padding != [] ==> used == padding && !outcome.NoPadding?
    ensures padding == [] && |payload| < TWO_32 ==>
      (outcome.Built? <==>
        random.Some? && (PaddingSize(payload, signed) <= 3 || exists i | 0 <= i < PaddingSize(payload, signed) :: random.value[i] != 0))
    ensures padding == [] && outcome.Built? ==>
      && used <= random.value
      && (|msg.raw| + if signed then SIGNATURE_LENGTH else 0) % PAD_SIZE_LIMIT == 0
  {
    msg := new SentMessage();
    used := if padding != [] || random.None? then padding else random.value[..PaddingSize(payload, signed)];
    var ok := msg.AddPayloadSizeField(payload);
    if !ok {
      return msg, Failed, used;
    }
    msg.raw := msg.raw + payload;
    ok := msg.AppendPadding(payload, padding, signed, random);
    outcome := if ok then Built else NoPadding;
    PaddedLength(payload, used, signed);
  }

  /** Padding of the computed size rounds the finished frame to a multiple of 256 bytes. */
  lemma PaddedLength(payload: Bytes, padding: Bytes, signed: bool)
    requires |payload| < TWO_32
    ensures |Encode(payload, padding).value| == 1 + Work.IntSize(|payload|) + |payload| + |padding|
    ensures |padding| == PaddingSize(payload, signed) ==>
      (|Encode(payload, padding).value| + if signed then SIGNATURE_LENGTH else 0) % PAD_SIZE_LIMIT == 0
  {
  }

  // ---- Reading a frame ----

  datatype Parts = Parts(flags: Byte, sizeField: Bytes, payload: Bytes, padding: Bytes, signature: Bytes, src: Option<PublicKey>)

  /** The frame layout: `raw` is the concatenation of its parts, each of the length the flags announce. */
  ghost predicate Splits(c: Crypto, raw: Bytes, p: Parts) {
    && raw == [p.flags] + p.sizeField + p.payload + p.padding + p.signature
    && |p.sizeField| == SizeFieldLength(p.flags)
    && LittleEndian(p.sizeField) == |p.payload|
    && if IsMessageSigned(p.flags) then
         && |p.signature| == SIGNATURE_LENGTH
         && |raw| > 1 + SIGNATURE_LENGTH
         && p.src.Some?
         && p.src == c.recover(c.digest(raw[..|raw| - SIGNATURE_LENGTH]), p.signature)
       else p.signature == [] && p.src == None
  }

  /** Splits what lies before the signature into size field, payload and padding. */
  function ParseBody(raw: Bytes, end: nat): Option<(Bytes, Bytes, Bytes)>
    requires 1 <= end <= |raw|
  {
    var beg := 1 + SizeFieldLength(raw[0]);
    if end < beg then None
    else
      var mid := beg + LittleEndian(raw[1..beg]);
      if mid > end then None else Some((raw[1..beg], raw[beg..mid], raw[mid..end]))
  }

  /** Checks the signature, when the flags announce one, and finds where it begins. */
  function ParseSignature(c: Crypto, raw: Bytes): (r: Option<(nat, Option<PublicKey>)>)
    requires raw != []
    ensures r.Some? ==> 1 <= r.value.0 <= |raw|
  {
    if !IsMessageSigned(raw[0]) then Some((|raw|, None))
    else
      var end := |raw| - SIGNATURE_LENGTH;
      if end <= 1 then None
      else
        var src := c.recover(c.digest(raw[..end]), raw[end..]);
        if src.None? then None else Some((end, src))
  }

  /** The parser as a function. */
  function Parse(c: Crypto, raw: Bytes): Option<Parts> {
    if raw == [] || ParseSignature(c, raw).None? then None
    else
      var (end, src) := ParseSignature(c, raw).value;
      match ParseBody(raw, end)
      case None => None
      case Some((sizeField, payload, padding)) =>
        Some(Parts(raw[0], sizeField, payload, padding, raw[end..], src))
  }

  /** The parser accepts exactly the byte strings of the frame layout, and finds their only split. */
  lemma ParseExact(c: Crypto, raw: Bytes, p: Parts)
    ensures Parse(c, raw) == Some(p) <==> Splits(c, raw, p)
  {
    if Splits(c, raw, p) { ParseComplete(c, raw, p); }
    if Parse(c, raw) == Some(p) { ParseSound(c, raw, p); }
  }

  lemma ParseSound(c: Crypto, raw: Bytes, p: Parts)
    requires Parse(c, raw) == Some(p)
    ensures Splits(c, raw, p)
  {
    var end := ParseSignature(c, raw).value.0;
    BodySound(raw, end);
    assert raw == raw[..end] + raw[end..];
  }

  lemma BodySound(raw: Bytes, end: nat)
    requires 1 <= end <= |raw| && ParseBody(raw, end).Some?
    ensures var (sizeField, payload, padding) := ParseBody(raw, end).value;
            && raw[..end] == [raw[0]] + sizeField + payload + padding
            && |sizeField| == SizeFieldLength(raw[0]) && LittleEndian(sizeField) == |payload|
  {
    var beg := 1 + SizeFieldLength(raw[0]);
    var mid := beg + LittleEndian(raw[1..beg]);
    FourParts(raw, beg, mid, end);
  }

  lemma FourParts(raw: Bytes, beg: nat, mid: nat, end: nat)
    requires 1 <= beg <= mid <= end <= |raw|
    ensures raw[..end] == [raw[0]] + raw[1..beg] + raw[beg..mid] + raw[mid..end]
  {
    assert raw[..beg] == [raw[0]] + raw[1..beg];
    assert raw[..mid] == raw[..beg] + raw[beg..mid];
    assert raw[..end] == raw[..mid] + raw[mid..end];
  }

  lemma ParseComplete(c: Crypto, raw: Bytes, p: Parts)
    requires Splits(c, raw, p)
    ensures Parse(c, raw) == Some(p)
  {
    var end := |raw| - |p.signature|;
    assert raw[0] == p.flags;
    assert raw[end..] == p.signature;
    assert ParseSignature(c, raw) == Some((end, p.src));
    BodyComplete(raw, p, end);
  }

  lemma BodyComplete(raw: Bytes, p: Parts, end: nat)
    requires raw == [p.flags] + p.sizeField + p.payload + p.padding + p.signature
    requires |p.sizeField| == SizeFieldLength(p.flags) && LittleEndian(p.sizeField) == |p.payload|
    requires end == |raw| - |p.signature|
    ensures ParseBody(raw, end) == Some((p.sizeField, p.payload, p.padding))
  {
    var beg := 1 + |p.sizeField|;
    var mid := beg + |p.payload|;
    assert raw[1..beg] == p.sizeField;
    assert raw[beg..mid] == p.payload;
    assert raw[mid..end] == p.padding;
  }

  class ReceivedMessage {
    var raw: Bytes
    var payload: Bytes
    var padding: Bytes
    var signature: Bytes
    var src: Option<PublicKey>

    constructor (raw: Bytes)
      ensures this.raw == raw && payload == padding == signature == [] && src == None
    {
      this.raw, payload, padding, signature, src := raw, [], [], [], None;
    }

    method ValidateAndParse(c: Crypto) returns (ok: bool)
      requires payload == [] && signature == [] && src == None
      modifies this
      ensures raw == old(raw)
      ensures ok == Parse(c, raw).Some?
      ensures ok ==> var p := Parse(c, raw).value;
                     payload == p.payload && padding == p.padding && signature == p.signature && src == p.src
    {
      var end := |raw|;
      if end < 1 {
        return false;
      }
      if IsMessageSigned(raw[0]) {
        end := end - SIGNATURE_LENGTH;
        if end <= 1 {
          return false;
        }
        signature := raw[end..end + SIGNATURE_LENGTH];
        assert raw[end..] == signature;
        src := c.recover(SignedDigest(c), signature);
        if src.None? {
          return false;
        }
      }
      assert ParseSignature(c, raw) == Some((end, src)) && signature == raw[end..];
      ok := ExtractFields(end);
    }

    /** The second half of the parser, once the end of the padding is known. */
    method ExtractFields(end: nat) returns (ok: bool)
      requires 1 <= end <= |raw| && payload == []
      modifies this`payload, this`padding
      ensures ok == ParseBody(raw, end).Some?
      ensures ok ==> payload == ParseBody(raw, end).value.1 && padding == ParseBody(raw, end).value.2
    {
      var beg := 1;
      var payloadSize := 0;
      var sizeOfField := SizeFieldLength(raw[0]);
      if sizeOfField != 0 {
        if end < beg + sizeOfField {
          return false;
        }
        var field := raw[beg..beg + sizeOfField];
        payloadSize := BytesToUintLittleEndian(field);
        ShortField(field);
        beg := beg + sizeOfField;
        if beg + payloadSize > end {
          return false;
        }
        payload := raw[beg..beg + payloadSize];
      }
      beg := beg + payloadSize;
      padding := raw[beg..end];
      return true;
    }

    /** Digest of everything but the signature. */
    function SignedDigest(c: Crypto): Hash
      requires raw != [] && (IsMessageSigned(raw[0]) ==> |raw| >= SIGNATURE_LENGTH)
      reads this
    {
      c.digest(if IsMessageSigned(raw[0]) then raw[..|raw| - SIGNATURE_LENGTH] else raw)
    }
  }

  lemma ShortField(field: Bytes)
    requires |field| <= 3
    ensures LittleEndian(field) < 0x100_0000
    ensures LittleEndian(field) % TWO_64 == LittleEndian(field)
  {
    LittleEndianBelow(field);
    assert Pow256(3) == 256 * (256 * Pow256(1));
    assert Pow256(2) == 256 * Pow256(1);
  }

  // ---- Round trips ----

  /** An unsigned frame reads back as its payload and padding exactly when the
      payload is shorter than 2^24 bytes: a four-byte size field sets the signature flag. */
  lemma UnsignedRoundTripExact(c: Crypto, payload: Bytes, padding: Bytes)
    requires |payload| < TWO_32
    ensures var read := Parse(c, Encode(payload, padding).value);
            (read.Some? && read.value.payload == payload && read.value.padding == padding
              && read.value.signature == [] && read.value.src == None) <==> |payload| < 0x100_0000
  {
    var s := FieldLength(payload);
    var raw := Encode(payload, padding).value;
    FlagOfLength(s);
    if s <= 3 {
      PutUintDecodes(|payload|, s);
      var p := Parts(s, PutUint(|payload|, s), payload, padding, [], None);
      assert raw == [p.flags] + p.sizeField + p.payload + p.padding + p.signature;
      ParseExact(c, raw, p);
    } else {
      assert raw[0] == 4;
    }
  }

  lemma FlagOfLength(s: Byte)
    requires s <= 4
    ensures IsMessageSigned(s) <==> s == 4
    ensures s <= 3 ==> SizeFieldLength(s) == s
  {
    assert Bit(s, 2) == Bit(s / 2, 1) == Bit(s / 2 / 2, 0);
  }

  /** A signed frame reads back as payload, padding, signature and the signer's key exactly when the
      payload is shorter than 2^24 bytes; the digest checked is then the digest signed. */
  lemma SignedRoundTripExact(c: Crypto, key: PrivateKey, payload: Bytes, padding: Bytes)
    requires c.SignatureLaw() && |payload| < TWO_32
    requires Signed(c, key, Encode(payload, padding).value).Some?
    ensures var read := Parse(c, Signed(c, key, Encode(payload, padding).value).value);
            (read.Some? && read.value.payload == payload && read.value.padding == padding
              && read.value.src == Some(c.public(key))
              && SetSignatureFlag(Encode(payload, padding).value) + read.value.signature
                 == Signed(c, key, Encode(payload, padding).value).value)
            <==> |payload| < 0x100_0000
  {
    FlagOfLength(FieldLength(payload));
    if |payload| < 0x100_0000 {
      SignedReadsBack(c, key, payload, padding);
    } else {
      assert Signed(c, key, Encode(payload, padding).value).value[0] == 4;
    }
  }

  lemma SignedReadsBack(c: Crypto, key: PrivateKey, payload: Bytes, padding: Bytes)
    requires c.SignatureLaw() && |payload| < 0x100_0000
    requires Signed(c, key, Encode(payload, padding).value).Some?
    ensures var read := Parse(c, Signed(c, key, Encode(payload, padding).value).value);
            read.Some? && read.value.payload == payload && read.value.padding == padding
            && read.value.src == Some(c.public(key))
            && SetSignatureFlag(Encode(payload, padding).value) + read.value.signature
               == Signed(c, key, Encode(payload, padding).value).value
  {
    var s := FieldLength(payload);
    var raw := Encode(payload, padding).value;
    FlagOfLength(s);
    PutUintDecodes(|payload|, s);
    var flagged := SetSignatureFlag(raw);
    var signature := c.sign(key, c.digest(flagged)).value;
    var p := Parts(flagged[0], PutUint(|payload|, s), payload, padding, signature, Some(c.public(key)));
    Reflagged(s, p.sizeField, payload, padding, flagged);
    SignedSplits(c, flagged, p);
    ParseExact(c, flagged + signature, p);
  }

  /** Changing the first byte leaves the rest of the layout. */
  lemma Reflagged(flags: Byte, field: Bytes, payload: Bytes, padding: Bytes, flagged: Bytes)
    requires flagged != [] && flagged[1..] == ([flags] + field + payload + padding)[1..]
    ensures flagged == [flagged[0]] + field + payload + padding
  {
    assert ([flags] + field + payload + padding)[1..] == field + payload + padding;
    SplitAt(flagged, 1);
  }

  lemma SignedSplits(c: Crypto, flagged: Bytes, p: Parts)
    requires flagged == [p.flags] + p.sizeField + p.payload + p.padding && |flagged| > 1
    requires IsMessageSigned(p.flags) && |p.signature| == SIGNATURE_LENGTH
    requires |p.sizeField| == SizeFieldLength(p.flags) && LittleEndian(p.sizeField) == |p.payload|
    requires p.src.Some? && p.src == c.recover(c.digest(flagged), p.signature)
    ensures Splits(c, flagged + p.signature, p)
  {
    var whole := flagged + p.signature;
    assert whole[..|whole| - SIGNATURE_LENGTH] == flagged;
  }

  /** Building, signing and reading back a message, through the objects that do it. `used` is the padding. */
  method SendAndReceive(c: Crypto, key: Option<PrivateKey>, payload: Bytes, padding: Bytes, random: Option<Bytes>)
    returns (sent: bool, received: bool, msg: ReceivedMessage, used: Bytes)
    requires c.SignatureLaw() && |payload| < 0x100_0000 && (random.Some? ==> |random.value| >= PAD_SIZE_LIMIT)
    ensures padding != [] ==> used == padding
    ensures key.None? && padding != [] ==> sent
    ensures sent ==> received && msg.payload == payload && msg.padding == used
    ensures sent ==> msg.src == if key.Some? then Some(c.public(key.value)) else None
  {
    var out, outcome;
    out, outcome, used := NewSentMessage(payload, padding, key.Some?, random);
    sent := outcome.Built?;
    if sent {
      UnsignedRoundTripExact(c, payload, used);
      if key.Some? {
        sent := out.Sign(c, key.value);
        if sent { SignedReadsBack(c, key.value, payload, used); }
      }
    }
    msg := new ReceivedMessage(out.raw);
    received := msg.ValidateAndParse(c);
  }
}
