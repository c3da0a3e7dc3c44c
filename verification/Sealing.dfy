/** Sealing a price to the enclave's key, and opening it again inside the enclave. */
module Sealing {
  import opened Prelude
  import opened Primitives
  import opened Bids

  const HASH_ALGORITHM_SHA256 := "SHA-256"

  datatype DecryptError =
    | NoKey
    | NoEncryptedRevenue
    | UnsupportedHashAlgorithm
    | UndecodableKey
    | UndecodablePayload
    | UndecodableNonce
    | KeyDecryptionFailed
    | WrongKeyLength
    | WrongNonceLength
    | OpenFailed
    | MalformedPayload

  /** `decryptCPMDollars`: the price in CPM dollars, or the first stage that failed. */
  function DecryptCPMDollars(prim: Primitives, priv: Option<PrivateKey>, ct: Option<EncryptedRevenue>)
    : Result<real, DecryptError>
  {
    if priv == None then Err(NoKey)
    else if ct == None then Err(NoEncryptedRevenue)
    else if ct.value.hashAlgorithm != "" && ct.value.hashAlgorithm != HASH_ALGORITHM_SHA256 then
      Err(UnsupportedHashAlgorithm)
    else
      var encryptedKey := prim.decode64(ct.value.aesKeyEncrypted);
      if encryptedKey == None then Err(UndecodableKey) else
      var payload := prim.decode64(ct.value.encryptedPayload);
      if payload == None then Err(UndecodablePayload) else
      var nonce := prim.decode64(ct.value.nonce);
      if nonce == None then Err(UndecodableNonce) else
      var aesKey := prim.decryptOAEP(priv.value, encryptedKey.value);
      if aesKey == None then Err(KeyDecryptionFailed) else
      if |aesKey.value| != AES_KEY_SIZE then Err(WrongKeyLength) else
      if |nonce.value| != GCM_NONCE_SIZE then Err(WrongNonceLength) else
      var plaintext := prim.openGCM(aesKey.value, nonce.value, payload.value);
      if plaintext == None then Err(OpenFailed) else
      match prim.unmarshalPrice(plaintext.value)
      case Some(price) => Ok(price)
      case None => Err(MalformedPayload)
  }

  /**
    `ct` opens to `price`: its three parts decode, the private key recovers a
    content key of the right size, and that key, with a nonce of the right size,
    opens the payload to the text of the price.
   */
  ghost predicate Opens(prim: Primitives, priv: PrivateKey, ct: EncryptedRevenue, price: real) {
    && (ct.hashAlgorithm == "" || ct.hashAlgorithm == "SHA-256")
    && exists encryptedKey, aesKey, nonce, payload, plaintext ::
         && prim.decode64(ct.aesKeyEncrypted) == Some(encryptedKey)
         && prim.decode64(ct.encryptedPayload) == Some(payload)
         && prim.decode64(ct.nonce) == Some(nonce)
         && prim.decryptOAEP(priv, encryptedKey) == Some(aesKey)
         && |aesKey| == 32 && |nonce| == 12
         && prim.openGCM(aesKey, nonce, payload) == Some(plaintext)
         && prim.unmarshalPrice(plaintext) == Some(price)
  }

  /** There is a key and a ciphertext, and it opens to `price`. */
  ghost predicate OpensTo(prim: Primitives, priv: Option<PrivateKey>, ct: Option<EncryptedRevenue>, price: real) {
    priv.Some? && ct.Some? && Opens(prim, priv.value, ct.value, price)
  }

  /** Decryption yields a price exactly when there is a key and a ciphertext that opens to it. */
  lemma DecryptsIffOpens(prim: Primitives, priv: Option<PrivateKey>, ct: Option<EncryptedRevenue>)
    ensures forall price :: OpensTo(prim, priv, ct, price) <==> DecryptCPMDollars(prim, priv, ct) == Ok(price)
  {
    forall price
      ensures OpensTo(prim, priv, ct, price) <==> DecryptCPMDollars(prim, priv, ct) == Ok(price)
    {
    }
  }

  /** Each error names the first stage that fails: all stages before it succeed. */
  lemma DecryptErrorIsFirstFailure(prim: Primitives, priv: PrivateKey, ct: EncryptedRevenue)
    ensures DecryptCPMDollars(prim, None, Some(ct)) == DecryptCPMDollars(prim, None, None) == Err(NoKey)
    ensures DecryptCPMDollars(prim, Some(priv), None) == Err(NoEncryptedRevenue)
    ensures var known := ct.hashAlgorithm == "" || ct.hashAlgorithm == "SHA-256";
            var key, payload, nonce :=
              prim.decode64(ct.aesKeyEncrypted), prim.decode64(ct.encryptedPayload), prim.decode64(ct.nonce);
            var decoded := known && key.Some? && payload.Some? && nonce.Some?;
            var aesKey := if decoded then prim.decryptOAEP(priv, key.value) else None;
            var sized := aesKey.Some? && |aesKey.value| == 32 && |nonce.value| == 12;
            var text := if sized then prim.openGCM(aesKey.value, nonce.value, payload.value) else None;
            match DecryptCPMDollars(prim, Some(priv), Some(ct))
            case Ok(price) => text.Some? && prim.unmarshalPrice(text.value) == Some(price)
            case Err(UnsupportedHashAlgorithm) => !known
            case Err(UndecodableKey) => known && key == None
            case Err(UndecodablePayload) => known && key.Some? && payload == None
            case Err(UndecodableNonce) => known && key.Some? && payload.Some? && nonce == None
            case Err(KeyDecryptionFailed) => decoded && aesKey == None
            case Err(WrongKeyLength) => aesKey.Some? && |aesKey.value| != 32
            case Err(WrongNonceLength) => aesKey.Some? && |aesKey.value| == 32 && |nonce.value| != 12
            case Err(OpenFailed) => sized && text == None
            case Err(MalformedPayload) => text.Some? && prim.unmarshalPrice(text.value) == None
            case Err(_) => false
  {
  }

  datatype SealError = NoRecipient | UnmarshalablePrice | NoRandomKey | NoRandomNonce | KeyEncryptionFailed

  /** The random choices of one seal; an absent one stands for a failed read. */
  datatype SealRandomness = SealRandomness(aesKey: Option<Bytes>, nonce: Option<Bytes>, oaep: Bytes) {
    predicate Sized() {
      && (aesKey.Some? ==> |aesKey.value| == AES_KEY_SIZE)
      && (nonce.Some? ==> |nonce.value| == GCM_NONCE_SIZE)
    }
  }

  /** `rand.Read`: fills the whole buffer or fails. */
  method FillRandom(buffer: array<Byte>, source: Option<Bytes>) returns (ok: bool)
    requires source.Some? ==> |source.value| == buffer.Length
    modifies buffer
    ensures ok == source.Some?
    ensures ok ==> buffer[..] == source.value
  {
    if source == None {
      return false;
    }
    var i := 0;
    while i < buffer.Length
      invariant i <= buffer.Length
      invariant buffer[..i] == source.value[..i]
    {
      buffer[i] := source.value[i];
      i := i + 1;
    }
    return true;
  }

  /**
    `SealCPMDollars`. It reports the first step that fails; when all succeed,
    whoever holds the recipient's private key opens the result to exactly the
    sealed price.
   */
  method SealCPMDollars(prim: Primitives, pub: Option<PublicKey>, dpm: real, random: SealRandomness)
    returns (r: Result<EncryptedRevenue, SealError>)
    requires random.Sized()
    ensures r == Err(NoRecipient) <==> pub == None
    ensures r == Err(UnmarshalablePrice) <==> pub.Some? && prim.marshalPrice(dpm) == None
    ensures r == Err(NoRandomKey) <==> pub.Some? && prim.marshalPrice(dpm).Some? && random.aesKey == None
    ensures r == Err(NoRandomNonce) <==>
            pub.Some? && prim.marshalPrice(dpm).Some? && random.aesKey.Some? && random.nonce == None
    ensures r.Ok? <==>
            && pub.Some? && prim.marshalPrice(dpm).Some? && random.aesKey.Some? && random.nonce.Some?
            && prim.encryptOAEP(pub.value, random.aesKey.value, random.oaep).Some?
    ensures r.Ok? ==> SealsWith(prim, pub.value, dpm, r.value, random.aesKey.value, random.nonce.value, random.oaep)
    ensures r.Ok? && prim.OpensWhatItSeals() ==>
              forall priv :: prim.publicKeyOf(priv) == pub.value ==>
                DecryptCPMDollars(prim, Some(priv), Some(r.value)) == Ok(dpm)
  {
    if pub == None {
      return Err(NoRecipient);
    }
    var plaintext := prim.marshalPrice(dpm);
    if plaintext == None {
      return Err(UnmarshalablePrice);
    }
    var aesKey := new Byte[AES_KEY_SIZE](_ => 0);
    var ok := FillRandom(aesKey, random.aesKey);
    if !ok {
      return Err(NoRandomKey);
    }
    var nonce := new Byte[GCM_NONCE_SIZE](_ => 0);
    ok := FillRandom(nonce, random.nonce);
    if !ok {
      return Err(NoRandomNonce);
    }
    var ciphertext := prim.sealGCM(aesKey[..], nonce[..], plaintext.value);
    var encryptedKey := prim.encryptOAEP(pub.value, aesKey[..], random.oaep);
    if encryptedKey == None {
      return Err(KeyEncryptionFailed);
    }
    r := Ok(EncryptedRevenue(
      prim.encode64(encryptedKey.value),
      prim.encode64(ciphertext),
      prim.encode64(nonce[..]),
      HASH_ALGORITHM_SHA256));
    assert SealsWith(prim, pub.value, dpm, r.value, random.aesKey.value, random.nonce.value, random.oaep);
    forall priv | prim.OpensWhatItSeals() && prim.publicKeyOf(priv) == pub.value
      ensures DecryptCPMDollars(prim, Some(priv), Some(r.value)) == Ok(dpm)
    {
      OpenAfterSeal(prim, priv, dpm, r.value);
    }
  }

  /** `ct` is a seal of `dpm` for `pub` made with these random choices. */
  ghost predicate SealsWith(prim: Primitives, pub: PublicKey, dpm: real, ct: EncryptedRevenue,
                            aesKey: Bytes, nonce: Bytes, oaep: Bytes) {
    && |aesKey| == AES_KEY_SIZE && |nonce| == GCM_NONCE_SIZE
    && prim.marshalPrice(dpm).Some?
    && prim.encryptOAEP(pub, aesKey, oaep).Some?
    && ct == EncryptedRevenue(
         prim.encode64(prim.encryptOAEP(pub, aesKey, oaep).value),
         prim.encode64(prim.sealGCM(aesKey, nonce, prim.marshalPrice(dpm).value)),
         prim.encode64(nonce),
         HASH_ALGORITHM_SHA256)
  }

  ghost predicate SealsPrice(prim: Primitives, pub: PublicKey, dpm: real, ct: EncryptedRevenue) {
    exists aesKey, nonce, oaep :: SealsWith(prim, pub, dpm, ct, aesKey, nonce, oaep)
  }

  /** Opening undoes sealing: every seal of a price for a key opens under it to that price. */
  lemma OpenAfterSeal(prim: Primitives, priv: PrivateKey, dpm: real, ct: EncryptedRevenue)
    requires prim.OpensWhatItSeals() && SealsPrice(prim, prim.publicKeyOf(priv), dpm, ct)
    ensures DecryptCPMDollars(prim, Some(priv), Some(ct)) == Ok(dpm)
  {
    var aesKey, nonce, oaep :| SealsWith(prim, prim.publicKeyOf(priv), dpm, ct, aesKey, nonce, oaep);
    var encryptedKey := prim.encryptOAEP(prim.publicKeyOf(priv), aesKey, oaep).value;
    var payload := prim.sealGCM(aesKey, nonce, prim.marshalPrice(dpm).value);
    assert prim.decode64(prim.encode64(encryptedKey)) == Some(encryptedKey);
    assert prim.decode64(prim.encode64(payload)) == Some(payload);
    assert prim.decode64(prim.encode64(nonce)) == Some(nonce);
    assert prim.decryptOAEP(priv, encryptedKey) == Some(aesKey);
    assert prim.openGCM(aesKey, nonce, payload) == prim.marshalPrice(dpm);
  }
}
