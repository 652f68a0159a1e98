/** The cryptographic library calls, as functions with stated laws. */
module Crypto {
  import opened Types

  const SIGNATURE_LENGTH := 65
  const AES_NONCE_LENGTH := 12

  type PrivateKey = nat

  /** A point of the curve. */
  datatype PublicKey = PublicKey(x: nat, y: nat) {
    predicate Valid() {
      x != 0 && y != 0
    }
  }

  /** Equality of public keys; an absent or degenerate key equals nothing. */
  predicate IsPubKeyEqual(a: Option<PublicKey>, b: Option<PublicKey>) {
    a.Some? && a.value.Valid() && b.Some? && b.value.Valid() && a.value == b.value
  }

  datatype Crypto = Crypto(
    digest: Bytes -> Hash,
    public: PrivateKey -> PublicKey,
    sign: (PrivateKey, Hash) -> Option<Bytes>,
    recover: (Hash, Bytes) -> Option<PublicKey>,
    openAsymmetric: (PrivateKey, Bytes) -> Option<Bytes>,
    openSymmetric: (Bytes, Bytes) -> Option<Bytes>)
  {
    /** A signature has a fixed length and gives back the signer's key. */
    ghost predicate SignatureLaw() {
      forall k: PrivateKey, h: Hash :: sign(k, h).Some? ==>
        |sign(k, h).value| == SIGNATURE_LENGTH && recover(h, sign(k, h).value) == Some(public(k))
    }

    /** Public keys are valid and tell private keys apart; the digests of the given symmetric keys
        tell them apart and are not zero. */
    ghost predicate KeyLaw(keys: set<Bytes>) {
      && (forall k: PrivateKey :: public(k).Valid())
      && (forall k: PrivateKey, l: PrivateKey :: public(k) == public(l) ==> k == l)
      && (forall a, b | a in keys && b in keys :: digest(a) == digest(b) ==> a == b)
      && (forall a | a in keys :: digest(a) != ZERO_HASH)
    }

    /** At most one key, of one kind, opens the given ciphertext. */
    ghost predicate OneKeyOpens(data: Bytes) {
      && (forall k: PrivateKey, l: PrivateKey ::
            openAsymmetric(k, data).Some? && openAsymmetric(l, data).Some? ==> k == l)
      && (forall a: Bytes, b: Bytes ::
            openSymmetric(a, data).Some? && openSymmetric(b, data).Some? ==> a == b)
      && (forall k: PrivateKey, a: Bytes ::
            openAsymmetric(k, data).None? || openSymmetric(a, data).None?)
    }
  }
}
