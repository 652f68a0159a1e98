/** Delivering one envelope to the filters interested in its topic: the first filter that
    opens it decrypts, later filters are compared with the decrypted message. */
module Delivery {
  import opened Types
  import opened Crypto
  import Frame
  import Work

  datatype Filter = Filter(
    src: Option<PublicKey>,
    keyAsym: Option<PrivateKey>,
    keySym: Option<Bytes>,
    topics: seq<Bytes>,
    pow: real,
    allowP2P: bool)
  {
    function SymKeys(): set<Bytes> {
      if keySym.Some? then {keySym.value} else {}
    }

    predicate OneKind() {
      keyAsym.None? || keySym.None?
    }
  }

  datatype Message = Message(
    payload: Bytes,
    padding: Bytes,
    signature: Bytes,
    salt: Bytes,
    src: Option<PublicKey>,
    dst: Option<PublicKey>,
    symKeyHash: Hash,
    topic: Topic,
    pow: Work.Work,
    ttl: Uint32,
    sent: Uint32,
    hash: Hash,
    p2p: bool)

  function FromPlaintext(c: Crypto, env: Envelope, plain: Bytes, salt: Bytes, dst: Option<PublicKey>, symKeyHash: Hash,
                         pow: Work.Work): Option<Message> {
    match Frame.Parse(c, plain)
    case None => None
    case Some(p) =>
      Some(Message(p.payload, p.padding, p.signature, salt, p.src, dst, symKeyHash, env.topic, pow, env.ttl, env.Sent(), env.hash, false))
  }

  /** Decrypts with the filter's key and parses; `pow` is the envelope's value. Symmetric ciphertexts end
      with the nonce they were made with. */
  function Open(c: Crypto, env: Envelope, f: Filter, pow: Work.Work): Option<Message> {
    if !f.OneKind() then None
    else if f.keyAsym.Some? then
      match c.openAsymmetric(f.keyAsym.value, env.data)
      case None => None
      case Some(plain) => FromPlaintext(c, env, plain, [], Some(c.public(f.keyAsym.value)), ZERO_HASH, pow)
    else if f.keySym.Some? && |env.data| >= AES_NONCE_LENGTH then
      match c.openSymmetric(f.keySym.value, env.data)
      case None => None
      case Some(plain) => FromPlaintext(c, env, plain, env.data[|env.data| - AES_NONCE_LENGTH..], None, c.digest(f.keySym.value), pow)
    else None
  }

  /** Is it worth decrypting? `cached` is the value stored in the envelope so far. */
  predicate MatchEnvelope(f: Filter, cached: Work.Work) {
    f.pow <= 0.0 || Work.AtLeast(cached, f.pow)
  }

  /** Compares a filter, whose symmetric key has the digest `symKeyHash`, with a decrypted message. */
  predicate MatchMessage(c: Crypto, f: Filter, symKeyHash: Hash, m: Message) {
    if f.pow > 0.0 && !Work.AtLeast(m.pow, f.pow) then false
    else if f.keyAsym.Some? && m.dst.Some? then IsPubKeyEqual(Some(c.public(f.keyAsym.value)), m.dst)
    else if f.keySym.Some? && m.symKeyHash != ZERO_HASH then symKeyHash == m.symKeyHash
    else false
  }

  predicate FromExpectedSource(f: Filter, m: Message) {
    f.src.None? || IsPubKeyEqual(m.src, f.src)
  }

  /** The digest stored with an installed filter. */
  function KeyDigest(c: Crypto, f: Filter): Hash {
    if f.keySym.Some? then c.digest(f.keySym.value) else ZERO_HASH
  }

  /** An envelope on delivery: its fields, the value its work is worth, and the route it came by. */
  datatype Parcel = Parcel(env: Envelope, work: Work.Work, p2p: bool)

  /** What the loop carries from filter to filter. */
  datatype Progress = Progress(msg: Option<Message>, cached: Work.Work)

  /** The value an envelope reports: the cached one, or the one computed on demand. */
  function Reported(x: Parcel, cached: Work.Work): Work.Work {
    if cached == Work.NOT_COMPUTED then x.work else cached
  }

  /** One turn of the loop, and the message handed to the filter if there is one. */
  function Visit(c: Crypto, x: Parcel, s: Progress, f: Filter): (Progress, Option<Message>) {
    if x.p2p && !f.allowP2P then (s, None)
    else
      var next :=
        if s.msg.Some? || !MatchEnvelope(f, s.cached) then s
        else
          var found := Open(c, x.env, f, Reported(x, s.cached));
          if found.Some? then Progress(found, Reported(x, s.cached)) else s;
      var matches :=
        if s.msg.Some? then MatchMessage(c, f, KeyDigest(c, f), s.msg.value) else MatchEnvelope(f, s.cached);
      (next, if matches && next.msg.Some? && FromExpectedSource(f, next.msg.value)
             then Some(next.msg.value.(p2p := x.p2p)) else None)
  }

  /** What each filter of the list is handed when they are visited in order. */
  function Deliveries(c: Crypto, x: Parcel, s: Progress, fs: seq<Filter>): (r: seq<Option<Message>>)
    ensures |r| == |fs|
    decreases |fs|
  {
    if fs == [] then []
    else
      var (next, handed) := Visit(c, x, s, fs[0]);
      [handed] + Deliveries(c, x, next, fs[1..])
  }

  /** What the loop carries after `n` filters. */
  function StateAfter(c: Crypto, x: Parcel, s: Progress, fs: seq<Filter>, n: nat): Progress
    requires n <= |fs|
  {
    if n == 0 then s else Visit(c, x, StateAfter(c, x, s, fs, n - 1), fs[n - 1]).0
  }

  lemma {:induction false} StateAfterFirst(c: Crypto, x: Parcel, s: Progress, fs: seq<Filter>, n: nat)
    requires 0 < n <= |fs|
    ensures StateAfter(c, x, s, fs, n) == StateAfter(c, x, Visit(c, x, s, fs[0]).0, fs[1..], n - 1)
  {
    if n > 1 { StateAfterFirst(c, x, s, fs, n - 1); }
  }

  /** Each filter is handed what its visit hands over in the state the loop has then. */
  lemma {:induction false} HandedAt(c: Crypto, x: Parcel, s: Progress, fs: seq<Filter>, i: nat)
    requires i < |fs|
    ensures Deliveries(c, x, s, fs)[i] == Visit(c, x, StateAfter(c, x, s, fs, i), fs[i]).1
    decreases i
  {
    if i > 0 {
      HandedAt(c, x, Visit(c, x, s, fs[0]).0, fs[1..], i - 1);
      StateAfterFirst(c, x, s, fs, i);
    }
  }

  /** The simple rule: each filter on its own, decrypting for itself. */
  function Due(c: Crypto, x: Parcel, pow: Work.Work, f: Filter): Option<Message> {
    if x.p2p && !f.allowP2P then None
    else if f.pow > 0.0 && !Work.AtLeast(pow, f.pow) then None
    else
      var found := Open(c, x.env, f, pow);
      if found.Some? && FromExpectedSource(f, found.value) then Some(found.value.(p2p := x.p2p)) else None
  }

  // ---- What a delivered message contains ----

  /** The filter has one key, and it decrypts the data to `plain`. */
  ghost predicate Decrypts(c: Crypto, f: Filter, data: Bytes, plain: Bytes) {
    || (f.keyAsym.Some? && f.keySym.None? && c.openAsymmetric(f.keyAsym.value, data) == Some(plain))
    || (f.keyAsym.None? && f.keySym.Some? && |data| >= 12 && c.openSymmetric(f.keySym.value, data) == Some(plain))
  }

  /** By the route and by the work that the filter allows. */
  predicate Allowed(x: Parcel, pow: Work.Work, f: Filter) {
    (x.p2p ==> f.allowP2P) && (f.pow <= 0.0 || pow.Infinite? || pow.value >= f.pow)
  }

  /** From the key the filter expects, if it expects one; a point with a zero coordinate is no key. */
  predicate FromSigner(f: Filter, src: Option<PublicKey>) {
    f.src.None? || (f.src == src && src.value.x != 0 && src.value.y != 0)
  }

  /** The message has the parts of the frame, the fields of the envelope, and the traces of the filter's key. */
  ghost predicate Bears(c: Crypto, x: Parcel, pow: Work.Work, f: Filter, p: Frame.Parts, m: Message) {
    && m.payload == p.payload && m.padding == p.padding && m.signature == p.signature && m.src == p.src
    && Labelled(x, pow, m) && Traced(c, x.env.data, f, m)
  }

  ghost predicate Labelled(x: Parcel, pow: Work.Work, m: Message) {
    && m.topic == x.env.topic && m.ttl == x.env.ttl && m.hash == x.env.hash
    && m.sent == (x.env.expiry - x.env.ttl) % 0x1_0000_0000
    && m.pow == pow && m.p2p == x.p2p
  }

  ghost predicate Traced(c: Crypto, data: Bytes, f: Filter, m: Message) {
    && (f.keyAsym.Some? ==> m.dst == Some(c.public(f.keyAsym.value)) && m.symKeyHash == ZERO_HASH && m.salt == [])
    && (f.keyAsym.None? && f.keySym.Some? && |data| >= 12 ==>
          m.dst == None && m.symKeyHash == c.digest(f.keySym.value) && m.salt == data[|data| - 12..])
  }

  /** What a filter gets if its key decrypts to a frame. */
  lemma DueOfFrame(c: Crypto, x: Parcel, pow: Work.Work, f: Filter, plain: Bytes, p: Frame.Parts)
    requires Decrypts(c, f, x.env.data, plain) && Frame.Splits(c, plain, p)
    ensures Due(c, x, pow, f).Some? <==> Allowed(x, pow, f) && FromSigner(f, p.src)
    ensures Due(c, x, pow, f).Some? ==> Bears(c, x, pow, f, p, Due(c, x, pow, f).value)
  {
    OpenOfFrame(c, x.env, pow, f, plain, p);
  }

  /** What opening gives then; the route is not known yet. */
  lemma OpenOfFrame(c: Crypto, env: Envelope, pow: Work.Work, f: Filter, plain: Bytes, p: Frame.Parts)
    requires Decrypts(c, f, env.data, plain) && Frame.Splits(c, plain, p)
    ensures Open(c, env, f, pow).Some?
    ensures Bears(c, Parcel(env, pow, false), pow, f, p, Open(c, env, f, pow).value)
  {
    Frame.ParseExact(c, plain, p);
  }

  /** Without a key that decrypts to a frame it gets nothing. */
  lemma DueNeedsFrame(c: Crypto, x: Parcel, pow: Work.Work, f: Filter) returns (plain: Bytes, p: Frame.Parts)
    requires Due(c, x, pow, f).Some?
    ensures Decrypts(c, f, x.env.data, plain) && Frame.Splits(c, plain, p)
  {
    plain := if f.keyAsym.Some? then c.openAsymmetric(f.keyAsym.value, x.env.data).value
             else c.openSymmetric(f.keySym.value, x.env.data).value;
    p := Frame.Parse(c, plain).value;
    Frame.ParseExact(c, plain, p);
  }

  /** A filter gets a message exactly when route, work and signer are allowed and its key decrypts to a frame;
      the message is then determined by frame, envelope and key. */
  lemma DueExact(c: Crypto, x: Parcel, pow: Work.Work, f: Filter, m: Message)
    ensures Due(c, x, pow, f) == Some(m) <==>
            && Allowed(x, pow, f)
            && exists plain: Bytes, p: Frame.Parts ::
                 && Decrypts(c, f, x.env.data, plain) && Frame.Splits(c, plain, p)
                 && FromSigner(f, p.src) && Bears(c, x, pow, f, p, m)
  {
    if Due(c, x, pow, f) == Some(m) {
      var plain, p := DueNeedsFrame(c, x, pow, f);
      DueOfFrame(c, x, pow, f, plain, p);
    }
    forall plain: Bytes, p: Frame.Parts
      | Allowed(x, pow, f) && Decrypts(c, f, x.env.data, plain) && Frame.Splits(c, plain, p)
        && FromSigner(f, p.src) && Bears(c, x, pow, f, p, m)
      ensures Due(c, x, pow, f) == Some(m)
    {
      DueOfFrame(c, x, pow, f, plain, p);
      BearsDetermines(c, x, pow, f, plain, p, m, Due(c, x, pow, f).value);
    }
  }

  lemma BearsDetermines(c: Crypto, x: Parcel, pow: Work.Work, f: Filter, plain: Bytes, p: Frame.Parts, m: Message, n: Message)
    requires Decrypts(c, f, x.env.data, plain) && Bears(c, x, pow, f, p, m) && Bears(c, x, pow, f, p, n)
    ensures m == n
  {
  }

  /** The plaintext of a message: its frame, signed if there is a signer. */
  function Plaintext(c: Crypto, payload: Bytes, padding: Bytes, signer: Option<PrivateKey>): Option<Bytes>
    requires |payload| < TWO_32
  {
    var raw := Frame.Encode(payload, padding).value;
    if signer.None? then Some(raw) else Frame.Signed(c, signer.value, raw)
  }

  /** From sender to filter: a message that the filter's key decrypts is handed over, if allowed, with the payload and
      padding it was made from; and to a filter that expects a signer exactly if that key signed it. */
  lemma SentIsDelivered(c: Crypto, x: Parcel, pow: Work.Work, f: Filter, payload: Bytes, padding: Bytes, signer: Option<PrivateKey>)
    requires c.SignatureLaw() && c.KeyLaw({}) && |payload| < 0x100_0000
    requires Plaintext(c, payload, padding, signer).Some?
    requires Decrypts(c, f, x.env.data, Plaintext(c, payload, padding, signer).value)
    ensures var src := if signer.Some? then Some(c.public(signer.value)) else None;
            && (Due(c, x, pow, f).Some? <==> Allowed(x, pow, f) && (f.src.None? || f.src == src))
            && (Due(c, x, pow, f).Some? ==>
                  var m := Due(c, x, pow, f).value;
                  && m.payload == payload && m.padding == padding && m.src == src
                  && Labelled(x, pow, m) && Traced(c, x.env.data, f, m))
  {
    var plain := Plaintext(c, payload, padding, signer).value;
    if signer.None? {
      Frame.UnsignedRoundTripExact(c, payload, padding);
    } else {
      Frame.SignedReadsBack(c, signer.value, payload, padding);
      assert c.public(signer.value).Valid();
    }
    var p := Frame.Parse(c, plain).value;
    Frame.ParseExact(c, plain, p);
    DueOfFrame(c, x, pow, f, plain, p);
  }

  // ---- Decrypting once ----

  /** A message opened by one filter is, to another, the message it would have opened itself. */
  lemma SharedMessage(c: Crypto, env: Envelope, f: Filter, g: Filter, pow: Work.Work)
    requires c.KeyLaw(f.SymKeys() + g.SymKeys()) && c.OneKeyOpens(env.data) && g.OneKind()
    requires Open(c, env, f, pow).Some?
    ensures g.pow <= 0.0 || Work.AtLeast(pow, g.pow) ==>
      (MatchMessage(c, g, KeyDigest(c, g), Open(c, env, f, pow).value) <==> Open(c, env, g, pow).Some?)
    ensures Open(c, env, g, pow).Some? ==> Open(c, env, g, pow) == Open(c, env, f, pow)
    ensures g.pow > 0.0 && !Work.AtLeast(pow, g.pow) ==>
      !MatchMessage(c, g, KeyDigest(c, g), Open(c, env, f, pow).value)
  {
    var m := Open(c, env, f, pow).value;
    assert m.pow == pow;
    if f.keyAsym.Some? && g.keyAsym.Some? {
      var (k, l) := (f.keyAsym.value, g.keyAsym.value);
      assert c.openAsymmetric(k, env.data).Some?;
      assert c.public(k).Valid() && c.public(l).Valid();
      if c.openAsymmetric(l, env.data).Some? { assert k == l; }
      if c.public(k) == c.public(l) { assert k == l; }
    } else if f.keySym.Some? && g.keySym.Some? {
      var (a, b) := (f.keySym.value, g.keySym.value);
      assert c.openSymmetric(a, env.data).Some?;
      assert c.digest(a) != ZERO_HASH;
      if c.openSymmetric(b, env.data).Some? { assert a == b; }
      if c.digest(a) == c.digest(b) { assert a == b; }
    } else if f.keyAsym.Some? && g.keySym.Some? {
      var (k, a) := (f.keyAsym.value, g.keySym.value);
      assert c.openAsymmetric(k, env.data).None? || c.openSymmetric(a, env.data).None?;
    } else if f.keySym.Some? && g.keyAsym.Some? {
      var (k, a) := (g.keyAsym.value, f.keySym.value);
      assert c.openAsymmetric(k, env.data).None? || c.openSymmetric(a, env.data).None?;
    }
  }

  /** The loop carries either nothing, or the message that some filter opened, and knows the value then. */
  ghost predicate Carried(c: Crypto, x: Parcel, pow: Work.Work, s: Progress, keys: set<Bytes>) {
    && Reported(x, s.cached) == pow
    && (s.msg.Some? ==> exists f: Filter :: f.SymKeys() <= keys && Open(c, x.env, f, pow) == s.msg)
  }

  lemma VisitIsDue(c: Crypto, x: Parcel, pow: Work.Work, s: Progress, f: Filter, keys: set<Bytes>)
    requires c.KeyLaw(keys) && c.OneKeyOpens(x.env.data) && x.work != Work.NOT_COMPUTED
    requires f.OneKind() && f.SymKeys() <= keys
    requires Carried(c, x, pow, s, keys)
    requires s.cached != Work.NOT_COMPUTED || s.msg.Some? || f.pow <= 0.0 || Due(c, x, pow, f).None?
    ensures Visit(c, x, s, f).1 == Due(c, x, pow, f)
    ensures Carried(c, x, pow, Visit(c, x, s, f).0, keys)
    ensures s.cached != Work.NOT_COMPUTED ==> Visit(c, x, s, f).0.cached != Work.NOT_COMPUTED
    ensures s.msg.Some? ==> Visit(c, x, s, f).0 == s
  {
    if s.msg.Some? {
      var g: Filter :| g.SymKeys() <= keys && Open(c, x.env, g, pow) == s.msg;
      SharedMessage(c, x.env, g, f, pow);
    }
  }

  /** Decrypting once delivers what decrypting for each filter would, in any order of visits, as long as
      the envelope's value is computed or no filter that is due demands work. */
  lemma {:induction false} DeliveredIsDue(c: Crypto, x: Parcel, pow: Work.Work, s: Progress, fs: seq<Filter>, keys: set<Bytes>)
    requires c.KeyLaw(keys) && c.OneKeyOpens(x.env.data) && x.work != Work.NOT_COMPUTED
    requires forall f | f in fs :: f.OneKind() && f.SymKeys() <= keys
    requires Carried(c, x, pow, s, keys)
    requires s.cached != Work.NOT_COMPUTED || s.msg.Some? || forall f | f in fs :: f.pow <= 0.0 || Due(c, x, pow, f).None?
    ensures forall i | 0 <= i < |fs| :: Deliveries(c, x, s, fs)[i] == Due(c, x, pow, fs[i])
    decreases |fs|
  {
    if fs != [] {
      VisitIsDue(c, x, pow, s, fs[0], keys);
      DeliveredIsDue(c, x, pow, Visit(c, x, s, fs[0]).0, fs[1..], keys);
    }
  }

  ghost predicate RefinesRule(c: Crypto, x: Parcel, cached: Work.Work, fs: seq<Filter>) {
    forall i | 0 <= i < |fs| ::
      Deliveries(c, x, Progress(None, cached), fs)[i] == Due(c, x, Reported(x, cached), fs[i])
  }

  ghost function AllSymKeys(fs: seq<Filter>): set<Bytes> {
    set f | f in fs && f.keySym.Some? :: f.keySym.value
  }

  /** No filter that is due demands work. */
  ghost predicate NoWorkDemanded(c: Crypto, x: Parcel, pow: Work.Work, fs: seq<Filter>) {
    forall f | f in fs :: f.pow <= 0.0 || Due(c, x, pow, f).None?
  }

  /** The loop follows the simple rule in every order of visits, exactly when the envelope's value
      was computed beforehand or no filter that is due demands work. */
  lemma DecryptOnceExact(c: Crypto, x: Parcel, cached: Work.Work, fs: seq<Filter>)
    requires c.KeyLaw(AllSymKeys(fs)) && c.OneKeyOpens(x.env.data) && x.work != Work.NOT_COMPUTED
    requires forall f | f in fs :: f.OneKind()
    ensures (forall order: seq<Filter> | multiset(order) == multiset(fs) :: RefinesRule(c, x, cached, order))
            <==> cached != Work.NOT_COMPUTED || NoWorkDemanded(c, x, Reported(x, cached), fs)
  {
    if cached != Work.NOT_COMPUTED || NoWorkDemanded(c, x, Reported(x, cached), fs) {
      forall order: seq<Filter> | multiset(order) == multiset(fs) ensures RefinesRule(c, x, cached, order) {
        forall f | f in order ensures f in fs { assert f in multiset(order); }
        DeliveredIsDue(c, x, Reported(x, cached), Progress(None, cached), order, AllSymKeys(fs));
      }
    } else {
      var order := OrderThatMisses(c, x, fs);
    }
  }

  /** A filter that demands work is passed over when it comes first and the value is not computed. */
  lemma OrderThatMisses(c: Crypto, x: Parcel, fs: seq<Filter>) returns (order: seq<Filter>)
    requires !NoWorkDemanded(c, x, x.work, fs)
    ensures multiset(order) == multiset(fs) && !RefinesRule(c, x, Work.NOT_COMPUTED, order)
  {
    var i :| 0 <= i < |fs| && fs[i].pow > 0.0 && Due(c, x, x.work, fs[i]).Some?;
    var f := fs[i];
    order := [f] + fs[..i] + fs[i + 1..];
    assert fs == fs[..i] + [f] + fs[i + 1..];
    assert order[0] == f;
    FirstDelivery(c, x, Progress(None, Work.NOT_COMPUTED), order);
    PassedOver(c, x, f);
  }

  lemma FirstDelivery(c: Crypto, x: Parcel, s: Progress, fs: seq<Filter>)
    requires fs != []
    ensures Deliveries(c, x, s, fs)[0] == Visit(c, x, s, fs[0]).1
  {
  }

  lemma PassedOver(c: Crypto, x: Parcel, f: Filter)
    requires f.pow > 0.0
    ensures Visit(c, x, Progress(None, Work.NOT_COMPUTED), f).1 == None
  {
  }
}
