/**
  What the enclave and the validators call but do not define: hashing,
  encryption, encodings, the UUID parser and out-of-range float conversion.
  Each is an arbitrary function; theorems that need a law of one require it.
 */
module Primitives {
  import opened Prelude
  import opened Uuid

  type Bytes = seq<Byte>

  datatype PrivateKey = PrivateKey(material: Bytes)
  datatype PublicKey = PublicKey(material: Bytes)

  const AES_KEY_SIZE := 32
  const GCM_NONCE_SIZE := 12

  datatype Primitives = Primitives(
    sha256: string -> string,
    parseUuid: string -> Option<Uuid>,
    floatOverflow: real -> Int64,
    publicKeyOf: PrivateKey -> PublicKey,
    encode64: Bytes -> string,
    decode64: string -> Option<Bytes>,
    // recipient, message, randomness
    encryptOAEP: (PublicKey, Bytes, Bytes) -> Option<Bytes>,
    decryptOAEP: (PrivateKey, Bytes) -> Option<Bytes>,
    // key, nonce, text
    sealGCM: (Bytes, Bytes, Bytes) -> Bytes,
    openGCM: (Bytes, Bytes, Bytes) -> Option<Bytes>,
    marshalPrice: real -> Option<Bytes>,
    unmarshalPrice: Bytes -> Option<real>)
  {
    /** Decoding undoes encoding, and opening undoes sealing, under the matching key. */
    ghost predicate OpensWhatItSeals() {
      && (forall b :: decode64(encode64(b)) == Some(b))
      && (forall priv, m, r :: encryptOAEP(publicKeyOf(priv), m, r).Some? ==>
            decryptOAEP(priv, encryptOAEP(publicKeyOf(priv), m, r).value) == Some(m))
      && (forall k, n, t :: |k| == AES_KEY_SIZE && |n| == GCM_NONCE_SIZE ==>
            openGCM(k, n, sealGCM(k, n, t)) == Some(t))
      && (forall price :: marshalPrice(price).Some? ==>
            unmarshalPrice(marshalPrice(price).value) == Some(price))
    }
  }
}
