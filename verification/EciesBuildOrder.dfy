/** Which contexts work, depending on what their builders have built before. */
module EciesBuildOrder {
  import opened Bytes
  import opened Cbc
  import opened EvpCipher
  import opened Ecies
  import opened EciesRuns
  import opened EciesBuilder
  import S = AesStream
  import C = AesCipher
  import M = Mac

  /** A builder that has built a context of some direction before, or nothing. */
  function Used(w: World, b: Builder, before: Option<Operation>): Builder {
    match before case None => b case Some(first) => CheckForRequiredParameters(w, b, first).0
  }

  /** The direction of the first context that a builder builds, where `next` is the next one. */
  function First(before: Option<Operation>, next: Operation): Operation {
    match before case None => next case Some(first) => first
  }

  function WithDefault(k: Parameters, direction: Operation): Parameters {
    k.(cipherFactory := DefaultCipherFactory(direction))
  }

  /** The parameters of a context have the cipher factory for what its builder has built first. */
  lemma FactoryOfFirst(w: World, b: Builder, before: Option<Operation>, next: Operation)
    requires b.cipherFactory.None? && CheckForRequiredParameters(w, b, Encryption).1.Ok?
    ensures var k := CheckForRequiredParameters(w, Used(w, b, before), next).1;
            k == Ok(WithDefault(CheckForRequiredParameters(w, b, Encryption).1.value, First(before, next)))
  {
    ThrowsExactlyWhenIncomplete(w, b, Encryption);
    if before.Some? {
      DefaultsPersist(w, b, before.value, next);
    }
  }

  /** Whatever the direction of the default factory, the keys are the same, and the cipher but for its direction. */
  lemma DefaultKeys(k: Parameters, secret: seq<byte>, direction: Operation)
    requires IsKdf(k.kdf) && CreateKeys(WithDefault(k, Encryption), secret).Ok?
    ensures var (mac, cipher) := CreateKeys(WithDefault(k, Encryption), secret).value;
            && Pads(cipher.config) && ValidConfig(cipher.config)
            && mac.absorbed == [] && !mac.isFinished
            && CreateKeys(WithDefault(k, direction), secret) ==
               Ok((mac, S.Initial(Directed(cipher.config, direction), C.DEFAULT_TAG_LENGTH)))
  {
    var key := k.kdf(secret, k.macKeySize + k.symmetricKeySize, k.kdfSalt)[..k.symmetricKeySize];
    DefaultCipher(key);
  }

  /** Both sides with default ciphers, each of any direction: the same MAC, and the same cipher but for that. */
  lemma ContextsOf(
      w: World, k: Parameters, s: Operation, r: Operation, recipient: PrivateKey, ephemeral: PrivateKey)
    returns (c: Config, e0: Encryptor, d0: Decryptor)
    requires Lawful(w) && IsKdf(k.kdf)
    requires NewEncryptor(w, WithDefault(k, Encryption), w.publicOf(recipient), ephemeral).Ok?
    ensures NewEncryptor(w, WithDefault(k, s), w.publicOf(recipient), ephemeral) == Ok(e0)
    ensures NewDecryptor(w, WithDefault(k, r), recipient, e0.ephemeralKey) == Ok(d0)
    ensures FreshEncryptor(e0) && FreshDecryptor(d0) && Pads(c) && ValidConfig(c)
    ensures e0.cipher.config == Directed(c, s) && d0.cipher.config == Directed(c, r)
    ensures d0.mac == e0.mac && d0.macSalt == e0.macSalt == k.macSalt
  {
    var secret := w.agree(w.publicOf(recipient), ephemeral);
    assert secret == w.agree(w.publicOf(ephemeral), recipient);
    DefaultKeys(k, secret, s);
    DefaultKeys(k, secret, r);
    c := CreateKeys(WithDefault(k, Encryption), secret).value.1.config;
    e0 := NewEncryptor(w, WithDefault(k, s), w.publicOf(recipient), ephemeral).value;
    d0 := NewDecryptor(w, WithDefault(k, r), recipient, e0.ephemeralKey).value;
  }

  /**
   * With a sender's cipher of direction `s` and a receiver's of direction `r`: the sender's `finish` always returns
   * if its cipher encrypts; if it decrypts, it returns less than the plaintext, and only for whole blocks. The
   * receiver gets the plaintext exactly if the directions differ; where both encrypt, its `finish` returns more bytes
   * than the ciphertext has.
   */
  predicate Passes(
    w: World, s: Operation, r: Operation, e0: Encryptor, d0: Decryptor,
    plaintext: seq<seq<byte>>, ciphertext: seq<seq<byte>>)
    requires S.Valid(e0.cipher) && S.Valid(d0.cipher)
  {
    var e := EncryptChunks(w, e0, plaintext);
    && e.state.ephemeralKey == e0.ephemeralKey
    && (s.Encryption? ==>
          e.output.Some? && |Concat(plaintext)| < |e.output.value| <= |Concat(plaintext)| + BLOCK)
    && (s.Decryption? && e.output.Some? ==>
          |Concat(plaintext)| % BLOCK == 0 && |e.output.value| < |Concat(plaintext)|)
    && (e.output.Some? ==> GetMac(e.state).Ok?)
    && (e.output.Some? && Concat(ciphertext) == e.output.value ==>
          var x := DecryptChunks(w, d0, ciphertext, GetMac(e.state).value);
          && (x == Ok(Concat(plaintext)) <==> s != r)
          && (s.Encryption? && r.Encryption? ==> x.Ok? && |x.value| > |e.output.value|))
  }

  /** Chunks that the ciphers accept, of a plaintext whose ciphertext HMAC can count. */
  predicate Accepted(plaintext: seq<seq<byte>>, ciphertext: seq<seq<byte>>) {
    S.AllFit(plaintext) && S.AllFit(ciphertext) && |Concat(plaintext)| <= INT_MAX - BLOCK
  }

  /** Two contexts as `ContextsOf` describes them, where a salt can be counted, too. */
  predicate Paired(c: Config, s: Operation, r: Operation, e0: Encryptor, d0: Decryptor) {
    && FreshEncryptor(e0) && FreshDecryptor(d0) && Pads(c) && ValidConfig(c)
    && e0.cipher.config == Directed(c, s) && d0.cipher.config == Directed(c, r)
    && d0.mac == e0.mac && d0.macSalt == e0.macSalt && |e0.macSalt| <= INT_MAX
  }

  lemma PassesOfChunks(
      w: World, c: Config, s: Operation, r: Operation, e0: Encryptor, d0: Decryptor,
      plaintext: seq<seq<byte>>, ciphertext: seq<seq<byte>>)
    requires IsPermutation(w.aes.block) && Paired(c, s, r, e0, d0) && Accepted(plaintext, ciphertext)
    ensures Passes(w, s, r, e0, d0, plaintext, ciphertext)
  {
    TwoPasses(w.aes, c, Concat(plaintext), s, r);
    EncryptionOfChunks(w, e0, plaintext);
    var e := EncryptChunks(w, e0, plaintext);
    if e.output.Some? && Concat(ciphertext) == e.output.value {
      DecryptionOfChunks(w, d0, ciphertext, e.state.macValue);
    }
  }

  /** The sender encrypts the plaintext, and the receiver gets it back from its ciphertext. */
  predicate Delivered(w: World, e0: Encryptor, d0: Decryptor, plaintext: seq<seq<byte>>, ciphertext: seq<seq<byte>>)
    requires S.Valid(e0.cipher) && S.Valid(d0.cipher)
  {
    var e := EncryptChunks(w, e0, plaintext);
    && e.output.Some? && GetMac(e.state).Ok?
    && (Concat(ciphertext) == e.output.value ==>
          DecryptChunks(w, d0, ciphertext, GetMac(e.state).value) == Ok(Concat(plaintext)))
  }

  ghost predicate AlwaysDelivers(w: World, e0: Encryptor, d0: Decryptor)
    requires S.Valid(e0.cipher) && S.Valid(d0.cipher)
  {
    forall plaintext: seq<seq<byte>>, ciphertext: seq<seq<byte>> | Accepted(plaintext, ciphertext) ::
      Delivered(w, e0, d0, plaintext, ciphertext)
  }

  /** A plaintext of one byte fails unless the sender encrypts and the receiver decrypts. */
  lemma OneByteFails(w: World, c: Config, s: Operation, r: Operation, e0: Encryptor, d0: Decryptor)
    returns (plaintext: seq<seq<byte>>, ciphertext: seq<seq<byte>>)
    requires IsPermutation(w.aes.block) && Paired(c, s, r, e0, d0) && !(s.Encryption? && r.Decryption?)
    ensures Accepted(plaintext, ciphertext) && !Delivered(w, e0, d0, plaintext, ciphertext)
  {
    plaintext, ciphertext := [[0]], [];
    assert Concat(plaintext) == [0] by {
      ConcatSnoc([], [0]);
    }
    PassesOfChunks(w, c, s, r, e0, d0, plaintext, []);
    var output := EncryptChunks(w, e0, plaintext).output;
    if output.Some? {
      ciphertext := [output.value];
      assert Concat(ciphertext) == output.value by {
        ConcatSnoc([], output.value);
      }
      PassesOfChunks(w, c, s, r, e0, d0, plaintext, ciphertext);
    }
  }

  ghost predicate AlwaysPasses(w: World, s: Operation, r: Operation, e0: Encryptor, d0: Decryptor)
    requires S.Valid(e0.cipher) && S.Valid(d0.cipher)
  {
    forall plaintext: seq<seq<byte>>, ciphertext: seq<seq<byte>> | Accepted(plaintext, ciphertext) ::
      Passes(w, s, r, e0, d0, plaintext, ciphertext)
  }

  /**
   * What the directions of the ciphers decide, for every plaintext and all chunks; and all plaintexts are delivered
   * exactly if the sender's encrypts and the receiver's decrypts.
   */
  ghost predicate Decide(w: World, s: Operation, r: Operation, e0: Encryptor, d0: Decryptor)
    requires S.Valid(e0.cipher) && S.Valid(d0.cipher)
  {
    && AlwaysPasses(w, s, r, e0, d0)
    && (AlwaysDelivers(w, e0, d0) <==> s.Encryption? && r.Decryption?)
  }

  lemma DirectionsDecide(w: World, c: Config, s: Operation, r: Operation, e0: Encryptor, d0: Decryptor)
    requires IsPermutation(w.aes.block) && Paired(c, s, r, e0, d0)
    ensures Decide(w, s, r, e0, d0)
  {
    forall plaintext: seq<seq<byte>>, ciphertext: seq<seq<byte>> | Accepted(plaintext, ciphertext)
      ensures Passes(w, s, r, e0, d0, plaintext, ciphertext)
      ensures s.Encryption? && r.Decryption? ==> Delivered(w, e0, d0, plaintext, ciphertext)
    {
      PassesOfChunks(w, c, s, r, e0, d0, plaintext, ciphertext);
    }
    if !(s.Encryption? && r.Decryption?) {
      var plaintext, ciphertext := OneByteFails(w, c, s, r, e0, d0);
    }
  }

  /** The contexts of builders set up alike, without cipher factories of the caller's own. */
  lemma ContextsOfUsed(
      w: World, b: Builder, sender: Option<Operation>, receiver: Option<Operation>,
      recipient: PrivateKey, ephemeral: PrivateKey)
    returns (ke: Parameters, kd: Parameters, c: Config, e0: Encryptor, d0: Decryptor)
    requires Lawful(w) && ValidBuilder(b) && b.cipherFactory.None? && |b.macSalt| <= INT_MAX
    requires BuildsEncryptor(w, b, w.publicOf(recipient), ephemeral)
    ensures CheckForRequiredParameters(w, Used(w, b, sender), Encryption).1 == Ok(ke) && IsKdf(ke.kdf)
    ensures CheckForRequiredParameters(w, Used(w, b, receiver), Decryption).1 == Ok(kd) && IsKdf(kd.kdf)
    ensures NewEncryptor(w, ke, w.publicOf(recipient), ephemeral) == Ok(e0)
    ensures NewDecryptor(w, kd, recipient, e0.ephemeralKey) == Ok(d0)
    ensures Paired(c, First(sender, Encryption), First(receiver, Decryption), e0, d0)
  {
    var k := CheckForRequiredParameters(w, b, Encryption).1.value;
    var s, r := First(sender, Encryption), First(receiver, Decryption);
    FactoryOfFirst(w, b, None, Encryption);
    FactoryOfFirst(w, b, sender, Encryption);
    FactoryOfFirst(w, b, receiver, Decryption);
    ke, kd := WithDefault(k, s), WithDefault(k, r);
    c, e0, d0 := ContextsOf(w, k, s, r, recipient, ephemeral);
  }

  /** As a new builder, `b` builds an encryption context. */
  ghost predicate BuildsEncryptor(w: World, b: Builder, recipient: PublicKey, ephemeral: PrivateKey) {
    var k := CheckForRequiredParameters(w, b, Encryption).1;
    k.Ok? && IsKdf(k.value.kdf) && NewEncryptor(w, k.value, recipient, ephemeral).Ok?
  }

  /**
   * Builders set up alike, without cipher factories of the caller's own, that may have built contexts before: what the
   * first context of each was decides, for every plaintext and all chunks, what becomes of it; and all plaintexts are
   * delivered exactly if neither builder has first built a context of the other direction.
   */
  lemma DefaultsNeedSeparateBuilders(
      w: World, b: Builder, sender: Option<Operation>, receiver: Option<Operation>,
      recipient: PrivateKey, ephemeral: PrivateKey)
    returns (ke: Parameters, kd: Parameters, e0: Encryptor, d0: Decryptor)
    requires Lawful(w) && ValidBuilder(b) && b.cipherFactory.None? && |b.macSalt| <= INT_MAX
    requires BuildsEncryptor(w, b, w.publicOf(recipient), ephemeral)
    ensures CheckForRequiredParameters(w, Used(w, b, sender), Encryption).1 == Ok(ke) && IsKdf(ke.kdf)
    ensures CheckForRequiredParameters(w, Used(w, b, receiver), Decryption).1 == Ok(kd) && IsKdf(kd.kdf)
    ensures NewEncryptor(w, ke, w.publicOf(recipient), ephemeral) == Ok(e0)
    ensures NewDecryptor(w, kd, recipient, e0.ephemeralKey) == Ok(d0)
    ensures Decide(w, First(sender, Encryption), First(receiver, Decryption), e0, d0)
  {
    var c;
    ke, kd, c, e0, d0 := ContextsOfUsed(w, b, sender, receiver, recipient, ephemeral);
    DirectionsDecide(w, c, First(sender, Encryption), First(receiver, Decryption), e0, d0);
  }
}
