/** `ECIESCtxBuilder`, `ECIESEncryptionCtx` and `ECIESDecryptionCtx`: the objects, proved against module `Ecies`. */
module EciesContexts {
  import opened Bytes
  import opened EvpCipher
  import opened Ecies
  import opened EciesRuns
  import B = EciesBuilder
  import S = AesStream
  import C = AesCipher
  import M = Mac

  /** `createKeysAndInstantiateMacAndSymCipher`: the MAC object is made first, then the cipher object. */
  method InstantiateMacAndSymCipher(w: World, k: Parameters, sharedSecret: seq<byte>)
    returns (r: Result<(M.MessageAuthenticationCode, C.AESCipher), Error>)
    requires IsKdf(k.kdf)
    ensures match CreateKeys(k, sharedSecret)
            case Err(e) => r == Err(e)
            case Ok((mac, cipher)) =>
              && r.Ok? && fresh(r.value.0) && fresh(r.value.1) && fresh(r.value.1.bufferStrategy)
              && r.value.0.f == w.mac && r.value.1.p == w.aes && r.value.1.Valid()
              && r.value.0.Model() == mac && r.value.1.Model() == cipher
  {
    var derived := k.kdf(sharedSecret, k.macKeySize + k.symmetricKeySize, k.kdfSalt);
    var keyEncrypt, keyMac := derived[..k.symmetricKeySize], derived[k.symmetricKeySize..];
    var kind := k.macFactory(keyMac);
    if kind.Err? {
      return Err(MacThrew(kind.error));
    }
    var checked := M.Initial(kind.value, keyMac);
    if checked.Err? {
      return Err(MacThrew(checked.error));
    }
    var mac := new M.MessageAuthenticationCode(w.mac, kind.value, keyMac);
    var config := k.cipherFactory(keyEncrypt);
    if config.Err? {
      return Err(CipherThrew(config.error));
    }
    var cipher := new C.AESCipher(w.aes, config.value, C.DEFAULT_TAG_LENGTH);
    r := Ok((mac, cipher));
  }

  class ECIESEncryptionCtx {
    const w: World
    const mac: M.MessageAuthenticationCode
    const symmetricCipher: C.AESCipher
    const macSalt: seq<byte>
    const ephemeralKey: PublicKey
    var macValue: seq<byte>
    var isFinished: bool

    ghost predicate Valid()
      reads this, mac, symmetricCipher, symmetricCipher.bufferStrategy
    {
      mac.f == w.mac && symmetricCipher.p == w.aes && symmetricCipher.Valid()
    }

    ghost function Model(): Encryptor
      reads this, mac, symmetricCipher, symmetricCipher.bufferStrategy
    {
      Encryptor(symmetricCipher.Model(), mac.Model(), macSalt, macValue, isFinished, ephemeralKey)
    }

    constructor (w: World, mac: M.MessageAuthenticationCode, cipher: C.AESCipher, macSalt: seq<byte>, ephemeralKey: PublicKey)
      requires mac.f == w.mac && cipher.p == w.aes && cipher.Valid()
      ensures Valid() && this.w == w && this.mac == mac && this.symmetricCipher == cipher
      ensures Model() == Encryptor(cipher.Model(), mac.Model(), macSalt, [], false, ephemeralKey)
    {
      this.w, this.mac, this.symmetricCipher, this.macSalt, this.ephemeralKey := w, mac, cipher, macSalt, ephemeralKey;
      macValue, isFinished := [], false;
    }

    method Update(message: seq<byte>) returns (r: Result<(), Error>)
      requires Valid()
      modifies symmetricCipher, symmetricCipher.bufferStrategy
      ensures Valid() && (Model(), r) == EncryptUpdate(w, old(Model()), message)
    {
      if isFinished {
        return Err(UpdateAfterFinish);
      }
      var updated := symmetricCipher.Update(message);
      r := if updated.Ok? then Ok(()) else Err(CipherThrew(updated.error));
    }

    method Finish() returns (r: Result<seq<byte>, Error>)
      requires Valid()
      modifies this, mac, symmetricCipher, symmetricCipher.bufferStrategy
      ensures Valid() && (Model(), r) == EncryptFinish(w, old(Model()))
    {
      if isFinished {
        return Err(FinishedTwice);
      }
      var result := symmetricCipher.Finish();
      if result.Err? {
        return Err(CipherThrew(result.error));
      }
      // The MAC covers the ciphertext, then the salt.
      var absorbed := mac.Update(result.value);
      if absorbed.Err? {
        return Err(MacThrew(absorbed.error));
      }
      var salted := mac.Update(macSalt);
      if salted.Err? {
        return Err(MacThrew(salted.error));
      }
      var value := mac.Finish();
      if value.Err? {
        return Err(MacThrew(value.error));
      }
      macValue := value.value;
      isFinished := true;
      r := Ok(result.value);
    }

    method GetMAC() returns (r: Result<seq<byte>, Error>)
      ensures r == GetMac(Model())
    {
      if !isFinished {
        return Err(MacBeforeFinish);
      }
      r := Ok(macValue);
    }
  }

  class ECIESDecryptionCtx {
    const w: World
    const mac: M.MessageAuthenticationCode
    const symmetricCipher: C.AESCipher
    const macSalt: seq<byte>
    var tag: seq<byte>
    var macIsSet: bool
    var isFinished: bool

    ghost predicate Valid()
      reads this, mac, symmetricCipher, symmetricCipher.bufferStrategy
    {
      mac.f == w.mac && symmetricCipher.p == w.aes && symmetricCipher.Valid()
    }

    ghost function Model(): Decryptor
      reads this, mac, symmetricCipher, symmetricCipher.bufferStrategy
    {
      Decryptor(symmetricCipher.Model(), mac.Model(), macSalt, tag, macIsSet, isFinished)
    }

    constructor (w: World, mac: M.MessageAuthenticationCode, cipher: C.AESCipher, macSalt: seq<byte>)
      requires mac.f == w.mac && cipher.p == w.aes && cipher.Valid()
      ensures Valid() && this.w == w && this.mac == mac && this.symmetricCipher == cipher
      ensures Model() == Decryptor(cipher.Model(), mac.Model(), macSalt, [], false, false)
    {
      this.w, this.mac, this.symmetricCipher, this.macSalt := w, mac, cipher, macSalt;
      tag, macIsSet, isFinished := [], false, false;
    }

    method Update(message: seq<byte>) returns (r: Result<(), Error>)
      requires Valid()
      modifies mac, symmetricCipher, symmetricCipher.bufferStrategy
      ensures Valid() && (Model(), r) == DecryptUpdate(w, old(Model()), message)
    {
      if isFinished {
        return Err(UpdateAfterFinish);
      }
      var fed := symmetricCipher.Update(message);
      if fed.Err? {
        return Err(CipherThrew(fed.error));
      }
      var absorbed := mac.Update(message);
      r := if absorbed.Ok? then Ok(()) else Err(MacThrew(absorbed.error));
    }

    method SetMAC(tag: seq<byte>)
      requires Valid()
      modifies this
      ensures Valid() && Model() == SetMac(old(Model()), tag)
    {
      this.tag := tag;
      macIsSet := true;
    }

    method Finish() returns (r: Result<seq<byte>, Error>)
      requires Valid()
      modifies this, mac, symmetricCipher, symmetricCipher.bufferStrategy
      ensures Valid() && (Model(), r) == DecryptFinish(w, old(Model()))
    {
      if isFinished {
        return Err(FinishedTwice);
      }
      if !macIsSet {
        return Err(MacNotSet);
      }
      var salted := mac.Update(macSalt);
      if salted.Err? {
        return Err(MacThrew(salted.error));
      }
      var value := mac.Finish();
      if value.Err? {
        return Err(MacThrew(value.error));
      }
      var verified := mac.Verify(tag);
      if verified.Err? {
        return Err(MacThrew(verified.error));
      }
      var result := symmetricCipher.Finish();
      if result.Err? {
        return Err(CipherThrew(result.error));
      }
      isFinished := true;
      r := Ok(result.value);
    }
  }

  /** The setters of the original assign one of these fields each. */
  class ECIESCtxBuilder {
    var kdf: Option<Kdf>
    var macKeySize: nat
    var macFactory: Option<MacFactory>
    var symmetricKeySize: nat
    var cipherFactory: Option<CipherFactory>
    var kdfSalt: seq<byte>
    var macSalt: seq<byte>

    ghost function Model(): B.Builder
      reads this
    {
      B.Builder(kdf, macKeySize, macFactory, symmetricKeySize, cipherFactory, kdfSalt, macSalt)
    }

    constructor ()
      ensures Model() == B.NEW_BUILDER
    {
      kdf, macKeySize, macFactory := None, 0, None;
      symmetricKeySize, cipherFactory := 0, None;
      kdfSalt, macSalt := [], [];
    }

    method CheckForRequiredParameters(w: World, mode: Operation) returns (r: Result<Parameters, Error>)
      modifies this
      ensures (Model(), r) == B.CheckForRequiredParameters(w, old(Model()), mode)
    {
      if kdf.None? {
        kdf := Some(w.x963);
      }
      if (macFactory.Some? && macKeySize == 0) || (macFactory.None? && macKeySize != 0) {
        return Err(MacParametersIncomplete);
      }
      if macFactory.None? || macKeySize == 0 {
        macFactory, macKeySize := Some(B.DefaultMacFactory()), B.SHA512_SIZE;
      }
      if (cipherFactory.Some? && symmetricKeySize == 0) || (cipherFactory.None? && symmetricKeySize != 0) {
        return Err(CipherParametersIncomplete);
      }
      if cipherFactory.None? || symmetricKeySize == 0 {
        cipherFactory, symmetricKeySize := Some(B.DefaultCipherFactory(mode)), S.KeyLength(S.S_256);
      }
      r := Ok(Parameters(kdf.value, macKeySize, macFactory.value, symmetricKeySize, cipherFactory.value, kdfSalt, macSalt));
    }

    /** `ephemeral` stands for the private half of the key pair generated on the recipient's curve. */
    method BuildEncryptionCtx(w: World, recipient: PublicKey, ephemeral: PrivateKey)
      returns (r: Result<ECIESEncryptionCtx, Error>)
      requires Lawful(w) && B.ValidBuilder(Model())
      modifies this
      ensures var (b, k) := B.CheckForRequiredParameters(w, old(Model()), Encryption);
              && Model() == b
              && (k.Err? ==> r == Err(k.error))
              && (k.Ok? ==>
                    match NewEncryptor(w, k.value, recipient, ephemeral)
                    case Err(e) => r == Err(e)
                    case Ok(s) =>
                      && r.Ok? && fresh(r.value) && fresh(r.value.mac) && fresh(r.value.symmetricCipher)
                      && fresh(r.value.symmetricCipher.bufferStrategy)
                      && r.value.Valid() && r.value.w == w && r.value.Model() == s)
    {
      var k := CheckForRequiredParameters(w, Encryption);
      if k.Err? {
        return Err(k.error);
      }
      var made := InstantiateMacAndSymCipher(w, k.value, w.agree(recipient, ephemeral));
      if made.Err? {
        return Err(made.error);
      }
      var (mac, cipher) := made.value;
      var ctx := new ECIESEncryptionCtx(w, mac, cipher, k.value.macSalt, w.publicOf(ephemeral));
      r := Ok(ctx);
    }

    method BuildDecryptionCtx(w: World, key: PrivateKey, ephemeralKey: PublicKey)
      returns (r: Result<ECIESDecryptionCtx, Error>)
      requires Lawful(w) && B.ValidBuilder(Model())
      modifies this
      ensures var (b, k) := B.CheckForRequiredParameters(w, old(Model()), Decryption);
              && Model() == b
              && (k.Err? ==> r == Err(k.error))
              && (k.Ok? ==>
                    match NewDecryptor(w, k.value, key, ephemeralKey)
                    case Err(e) => r == Err(e)
                    case Ok(s) =>
                      && r.Ok? && fresh(r.value) && fresh(r.value.mac) && fresh(r.value.symmetricCipher)
                      && fresh(r.value.symmetricCipher.bufferStrategy)
                      && r.value.Valid() && r.value.w == w && r.value.Model() == s)
    {
      var k := CheckForRequiredParameters(w, Decryption);
      if k.Err? {
        return Err(k.error);
      }
      var made := InstantiateMacAndSymCipher(w, k.value, w.agree(ephemeralKey, key));
      if made.Err? {
        return Err(made.error);
      }
      var (mac, cipher) := made.value;
      var ctx := new ECIESDecryptionCtx(w, mac, cipher, k.value.macSalt);
      r := Ok(ctx);
    }
  }

  // ---- the objects at work ----

  lemma PlaintextsGrow(w: World, r: EncryptRun, chunks: seq<seq<byte>>, i: nat)
    requires S.Valid(r.state.cipher) && i < |chunks|
    ensures EncryptAll(w, r, B.Plaintexts(chunks[..i + 1])) ==
            EncryptStep(w, EncryptAll(w, r, B.Plaintexts(chunks[..i])), FeedPlaintext(chunks[i]))
  {
    assert B.Plaintexts(chunks[..i + 1]) == B.Plaintexts(chunks[..i]) + [FeedPlaintext(chunks[i])];
    B.EncryptAllAppend(w, r, B.Plaintexts(chunks[..i]), [FeedPlaintext(chunks[i])]);
    B.EncryptAllOne(w, EncryptAll(w, r, B.Plaintexts(chunks[..i])), FeedPlaintext(chunks[i]));
  }

  /** `update` for each chunk, then `finish`. */
  method EncryptMessage(ctx: ECIESEncryptionCtx, chunks: seq<seq<byte>>) returns (r: Result<seq<byte>, Error>)
    requires ctx.Valid()
    modifies ctx, ctx.mac, ctx.symmetricCipher, ctx.symmetricCipher.bufferStrategy
    ensures ctx.Valid()
    ensures var e := B.EncryptChunks(ctx.w, old(ctx.Model()), chunks);
            ctx.Model() == e.state && (e.output.Some? ==> r == Ok(e.output.value))
  {
    ghost var r0 := EncryptRun(ctx.Model(), [], None);
    for i := 0 to |chunks|
      invariant ctx.Valid() && ctx.Model() == EncryptAll(ctx.w, r0, B.Plaintexts(chunks[..i])).state
      invariant EncryptAll(ctx.w, r0, B.Plaintexts(chunks[..i])).output == None
    {
      PlaintextsGrow(ctx.w, r0, chunks, i);
      var _ := ctx.Update(chunks[i]);
    }
    assert chunks[..|chunks|] == chunks;
    B.EncryptChunksFinishes(ctx.w, r0.state, chunks);
    r := ctx.Finish();
  }

  lemma CiphertextsGrow(w: World, r: DecryptRun, chunks: seq<seq<byte>>, i: nat)
    requires S.Valid(r.state.cipher) && i < |chunks|
    ensures DecryptAll(w, r, B.Ciphertexts(chunks[..i + 1])) ==
            DecryptStep(w, DecryptAll(w, r, B.Ciphertexts(chunks[..i])), FeedCiphertext(chunks[i]))
  {
    var done := DecryptAll(w, r, B.Ciphertexts(chunks[..i]));
    assert B.Ciphertexts(chunks[..i + 1]) == B.Ciphertexts(chunks[..i]) + [FeedCiphertext(chunks[i])];
    B.DecryptAllAppend(w, r, B.Ciphertexts(chunks[..i]), [FeedCiphertext(chunks[i])]);
    assert [FeedCiphertext(chunks[i])][1..] == [];
    assert DecryptAll(w, done, [FeedCiphertext(chunks[i])]) == DecryptStep(w, done, FeedCiphertext(chunks[i]));
  }

  /** `update` for each chunk, `setMAC`, then `finish`. */
  method DecryptMessage(ctx: ECIESDecryptionCtx, chunks: seq<seq<byte>>, tag: seq<byte>)
    returns (r: Result<seq<byte>, Error>)
    requires ctx.Valid()
    modifies ctx, ctx.mac, ctx.symmetricCipher, ctx.symmetricCipher.bufferStrategy
    ensures ctx.Valid() && r == B.DecryptChunks(ctx.w, old(ctx.Model()), chunks, tag)
  {
    ghost var r0 := DecryptRun(ctx.Model(), [], None, []);
    for i := 0 to |chunks|
      invariant ctx.Valid() && ctx.Model() == DecryptAll(ctx.w, r0, B.Ciphertexts(chunks[..i])).state
    {
      CiphertextsGrow(ctx.w, r0, chunks, i);
      var _ := ctx.Update(chunks[i]);
    }
    assert chunks[..|chunks|] == chunks;
    ghost var fed := DecryptAll(ctx.w, r0, B.Ciphertexts(chunks));
    B.DecryptAllAppend(ctx.w, r0, B.Ciphertexts(chunks), [SetTag(tag)]);
    assert [SetTag(tag)][1..] == [];
    assert DecryptAll(ctx.w, fed, [SetTag(tag)]) == DecryptStep(ctx.w, fed, SetTag(tag));
    ctx.SetMAC(tag);
    r := ctx.Finish();
  }

  /** What a sender with a new builder and the given salts hands over: ciphertext, tag and ephemeral key. */
  method Send(
      w: World, kdfSalt: seq<byte>, macSalt: seq<byte>, recipient: PublicKey, ephemeral: PrivateKey,
      plaintext: seq<seq<byte>>)
    returns (ciphertext: Result<seq<byte>, Error>, tag: Result<seq<byte>, Error>, ephemeralKey: PublicKey)
    requires Lawful(w)
    ensures var k := B.CheckForRequiredParameters(w, B.DefaultBuilder(kdfSalt, macSalt), Encryption).1;
            && k.Ok? && IsKdf(k.value.kdf)
            && var start := NewEncryptor(w, k.value, recipient, ephemeral);
               && start.Ok?
               && var e := B.EncryptChunks(w, start.value, plaintext);
                  && (e.output.Some? ==> ciphertext == Ok(e.output.value))
                  && tag == GetMac(e.state) && ephemeralKey == start.value.ephemeralKey
  {
    B.DefaultEncryptor(w, kdfSalt, macSalt, recipient, ephemeral);
    var builder := new ECIESCtxBuilder();
    builder.kdfSalt, builder.macSalt := kdfSalt, macSalt;
    var built := builder.BuildEncryptionCtx(w, recipient, ephemeral);
    var ctx := built.value;
    ephemeralKey := ctx.ephemeralKey;
    ciphertext := EncryptMessage(ctx, plaintext);
    tag := ctx.GetMAC();
  }

  /** What a receiver with a new builder and the given salts makes of it. */
  method Receive(
      w: World, kdfSalt: seq<byte>, macSalt: seq<byte>, key: PrivateKey, ephemeralKey: PublicKey,
      ciphertext: seq<seq<byte>>, tag: seq<byte>)
    returns (plaintext: Result<seq<byte>, Error>)
    requires Lawful(w)
    ensures var k := B.CheckForRequiredParameters(w, B.DefaultBuilder(kdfSalt, macSalt), Decryption).1;
            && k.Ok? && IsKdf(k.value.kdf)
            && match NewDecryptor(w, k.value, key, ephemeralKey)
               case Err(e) => plaintext == Err(e)
               case Ok(start) => plaintext == B.DecryptChunks(w, start, ciphertext, tag)
  {
    var builder := new ECIESCtxBuilder();
    builder.kdfSalt, builder.macSalt := kdfSalt, macSalt;
    var built := builder.BuildDecryptionCtx(w, key, ephemeralKey);
    if built.Err? {
      return Err(built.error);
    }
    plaintext := DecryptMessage(built.value, ciphertext, tag);
  }

  /**
   * Sender and receiver with a new builder each: whatever the chunks on either side, the receiver's `finish`
   * returns the plaintext. `cut` chooses the chunks in which the ciphertext arrives.
   */
  method SendAndReceive(
      w: World, kdfSalt: seq<byte>, macSalt: seq<byte>, recipient: PrivateKey, ephemeral: PrivateKey,
      plaintext: seq<seq<byte>>, cut: seq<byte> -> seq<seq<byte>>)
    returns (received: Result<seq<byte>, Error>)
    requires Lawful(w) && S.AllFit(plaintext)
    requires |Concat(plaintext)| <= INT_MAX - 16 && |macSalt| <= INT_MAX
    requires forall c: seq<byte> :: Concat(cut(c)) == c && S.AllFit(cut(c))
    ensures received == Ok(Concat(plaintext))
  {
    B.DefaultSchemeRoundTrip(w, kdfSalt, macSalt, recipient, ephemeral, plaintext, []);
    var ciphertext, tag, ephemeralKey := Send(w, kdfSalt, macSalt, w.publicOf(recipient), ephemeral, plaintext);
    var chunks := cut(ciphertext.value);
    B.DefaultSchemeRoundTrip(w, kdfSalt, macSalt, recipient, ephemeral, plaintext, chunks);
    received := Receive(w, kdfSalt, macSalt, recipient, ephemeralKey, chunks, tag.value);
  }
}
