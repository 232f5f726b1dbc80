/** `ECIESCtxBuilder` as a value, its defaults, and the scheme in use with chunks of any size. */
module EciesBuilder {
  import opened Bytes
  import opened EvpCipher
  import opened Cbc
  import opened Ecies
  import opened EciesRuns
  import S = AesStream
  import C = AesCipher
  import M = Mac

  const SHA512_SIZE: nat := 64

  datatype Builder = Builder(
    kdf: Option<Kdf>,
    macKeySize: nat,
    macFactory: Option<MacFactory>,
    symmetricKeySize: nat,
    cipherFactory: Option<CipherFactory>,
    kdfSalt: seq<byte>,
    macSalt: seq<byte>)

  const NEW_BUILDER := Builder(None, 0, None, 0, None, [], [])

  function DefaultSettings(key: seq<byte>): C.Settings {
    C.Settings(CBC, S.S_256, key, seq(C.DefaultIvLength(CBC), _ => 0), PKCS, C.DEFAULT_TAG_LENGTH)
  }

  /** The default IV is long enough for nothing to be read behind it. */
  function AnyMemory(): C.Memory {
    seq(GCM_IV, _ => 0)
  }

  function DefaultConfig(mode: Operation, key: seq<byte>): Result<CheckedCipher, S.Error> {
    var config := if mode.Encryption? then C.EncryptorConfig(DefaultSettings(key), false, [], AnyMemory())
                  else C.DecryptorConfig(DefaultSettings(key), false, AnyMemory());
    if config.Ok? then Ok(config.value) else Err(config.error)
  }

  function DefaultCipherFactory(mode: Operation): CipherFactory {
    (key: seq<byte>) => DefaultConfig(mode, key)
  }

  function DefaultMacFactory(): MacFactory {
    (key: seq<byte>) => Result<M.Kind, M.Error>.Ok(M.HMAC(SHA512_SIZE))
  }

  ghost predicate ValidBuilder(b: Builder) {
    b.kdf.Some? ==> IsKdf(b.kdf.value)
  }

  /** `checkForRequiredParameters`: fills in defaults, and keeps those it has filled in when it throws later. */
  function CheckForRequiredParameters(w: World, b: Builder, mode: Operation): (Builder, Result<Parameters, Error>) {
    var b1 := if b.kdf.None? then b.(kdf := Some(w.x963)) else b;
    if b1.macFactory.Some? != (b1.macKeySize != 0) then (b1, Err(MacParametersIncomplete))
    else
      var b2 := if b1.macFactory.None? then b1.(macFactory := Some(DefaultMacFactory()), macKeySize := SHA512_SIZE) else b1;
      if b2.cipherFactory.Some? != (b2.symmetricKeySize != 0) then (b2, Err(CipherParametersIncomplete))
      else
        var b3 := if b2.cipherFactory.None?
                  then b2.(cipherFactory := Some(DefaultCipherFactory(mode)), symmetricKeySize := S.KeyLength(S.S_256))
                  else b2;
        (b3, Ok(Parameters(b3.kdf.value, b3.macKeySize, b3.macFactory.value, b3.symmetricKeySize,
                           b3.cipherFactory.value, b3.kdfSalt, b3.macSalt)))
  }

  /** The check throws exactly for a factory without its key size or a key size without its factory. */
  lemma ThrowsExactlyWhenIncomplete(w: World, b: Builder, mode: Operation)
    ensures var (b', r) := CheckForRequiredParameters(w, b, mode);
            && (r.Ok? <==> (b.macFactory.Some? <==> b.macKeySize != 0)
                           && (b.cipherFactory.Some? <==> b.symmetricKeySize != 0))
            && (r == Err(MacParametersIncomplete) <==> (b.macFactory.Some? <==> b.macKeySize == 0))
            && (r.Ok? && b.cipherFactory.Some? ==> r.value.cipherFactory == b.cipherFactory.value)
            && (r.Ok? && b.macFactory.Some? ==> r.value.macFactory == b.macFactory.value)
            && b'.kdf.Some? && (b.kdf.Some? ==> b'.kdf == b.kdf)
  {
  }

  /**
   * Where the check does not throw, what the caller has set is kept, and the defaults are the X9.63 KDF, an HMAC
   * with 64 bytes of key and digest, and a cipher with 32 bytes of key. Where it throws, defaults set before stay.
   */
  lemma ParametersExactly(w: World, b: Builder, mode: Operation)
    ensures var (b', r) := CheckForRequiredParameters(w, b, mode);
            && (r.Ok? ==>
                  var k := r.value;
                  && k.kdf == (if b.kdf.Some? then b.kdf.value else w.x963)
                  && k.kdfSalt == b.kdfSalt && k.macSalt == b.macSalt
                  && (if b.macFactory.Some? then k.macFactory == b.macFactory.value && k.macKeySize == b.macKeySize
                      else k.macKeySize == 64 && forall key: seq<byte> :: k.macFactory(key) == Ok(M.HMAC(64)))
                  && (if b.cipherFactory.Some? then
                        k.cipherFactory == b.cipherFactory.value && k.symmetricKeySize == b.symmetricKeySize
                      else k.symmetricKeySize == 32 && forall key: seq<byte> :: DefaultsTo(mode, key, k.cipherFactory(key)))
                  && b' == Builder(Some(k.kdf), k.macKeySize, Some(k.macFactory), k.symmetricKeySize,
                                   Some(k.cipherFactory), b.kdfSalt, b.macSalt))
            && (r == Err(MacParametersIncomplete) ==> b' == b.(kdf := b'.kdf) && b'.kdf.Some?)
            && (r.Err? && r.error != MacParametersIncomplete ==>
                  && r.error == CipherParametersIncomplete
                  && b'.kdf.Some? && b'.macFactory.Some? && b'.macKeySize != 0
                  && b' == b.(kdf := b'.kdf, macFactory := b'.macFactory, macKeySize := b'.macKeySize))
  {
    if b.cipherFactory.None? {
      forall key: seq<byte>
        ensures DefaultsTo(mode, key, DefaultCipherFactory(mode)(key))
      {
        DefaultCipherExactly(mode, key);
      }
    }
  }

  /** AES-256 in CBC mode with padding and an IV of zeros, for keys of 32 bytes. */
  predicate DefaultsTo(mode: Operation, key: seq<byte>, r: Result<CheckedCipher, S.Error>) {
    && (r.Ok? <==> |key| == 32)
    && (r.Ok? ==> r.value == Config(CBC, PKCS, key, seq(16, _ => 0), [], mode))
  }

  lemma DefaultCipherExactly(mode: Operation, key: seq<byte>)
    ensures DefaultsTo(mode, key, DefaultCipherFactory(mode)(key))
  {
    assert DefaultConfig(mode, key).Ok? <==> |key| == 32;
    if |key| == 32 {
      assert DefaultConfig(mode, key).value.iv == seq(16, _ => 0);
      assert DefaultConfig(mode, key).value == Config(CBC, PKCS, key, seq(16, _ => 0), [], mode);
    }
  }

  /** The default factories give ciphers that differ in their direction only, and the encrypting one pads. */
  lemma DefaultCipher(key: seq<byte>)
    ensures var e, d := DefaultCipherFactory(Encryption)(key), DefaultCipherFactory(Decryption)(key);
            && (e.Ok? <==> |key| == S.KeyLength(S.S_256)) && (d.Ok? <==> e.Ok?)
            && (e.Ok? ==> Pads(e.value) && d.value == Directed(e.value, Decryption))
  {
    assert DefaultConfig(Encryption, key).Ok? <==> |key| == S.KeyLength(S.S_256);
    assert DefaultConfig(Decryption, key).Ok? <==> |key| == S.KeyLength(S.S_256);
  }

  /** Two builders set up alike apart from their cipher factories, which are both defaults or a matching pair. */
  ghost predicate SetUpAlike(be: Builder, bd: Builder) {
    && be.kdf == bd.kdf && be.macKeySize == bd.macKeySize && be.macFactory == bd.macFactory
    && be.symmetricKeySize == bd.symmetricKeySize && be.kdfSalt == bd.kdfSalt && be.macSalt == bd.macSalt
    && (be.cipherFactory.None? <==> bd.cipherFactory.None?)
    && (be.cipherFactory.Some? ==>
          forall key: seq<byte> | be.cipherFactory.value(key).Ok? ::
            && be.cipherFactory.value(key).value.operation.Encryption?
            && bd.cipherFactory.value(key).Ok?
            && SameSettings(be.cipherFactory.value(key).value, bd.cipherFactory.value(key).value))
  }

  /** Separate builders that are set up alike produce matching parameters, or both throw the same. */
  lemma SeparateBuildersMatch(w: World, be: Builder, bd: Builder)
    requires Lawful(w) && ValidBuilder(be) && SetUpAlike(be, bd)
    ensures var e := CheckForRequiredParameters(w, be, Encryption).1;
            var d := CheckForRequiredParameters(w, bd, Decryption).1;
            && (e.Err? ==> d == e)
            && (e.Ok? ==> d.Ok? && Matching(e.value, d.value))
  {
    forall key: seq<byte> | DefaultCipherFactory(Encryption)(key).Ok?
      ensures DefaultCipherFactory(Decryption)(key).Ok?
      ensures SameSettings(DefaultCipherFactory(Encryption)(key).value, DefaultCipherFactory(Decryption)(key).value)
    {
      DefaultCipher(key);
    }
  }

  /** Defaults outlive the build: the next context of either direction gets the same factory. */
  lemma DefaultsPersist(w: World, b: Builder, first: Operation, next: Operation)
    ensures var (b', k) := CheckForRequiredParameters(w, b, first);
            k.Ok? ==> CheckForRequiredParameters(w, b', next) == (b', k)
  {
  }

  // ---- the default scheme, end to end ----

  function DefaultBuilder(kdfSalt: seq<byte>, macSalt: seq<byte>): Builder {
    NEW_BUILDER.(kdfSalt := kdfSalt, macSalt := macSalt)
  }

  function Plaintexts(chunks: seq<seq<byte>>): seq<EncryptCall> {
    seq(|chunks|, i requires 0 <= i < |chunks| => FeedPlaintext(chunks[i]))
  }

  function Ciphertexts(chunks: seq<seq<byte>>): seq<DecryptCall> {
    seq(|chunks|, i requires 0 <= i < |chunks| => FeedCiphertext(chunks[i]))
  }

  lemma EncryptorTakes(w: World, r: EncryptRun, message: seq<byte>)
    requires S.Open(r.state.cipher) && !r.state.isFinished && |message| <= S.MAX_MESSAGE
    ensures var r' := EncryptStep(w, r, FeedPlaintext(message));
            S.Open(r'.state.cipher) && !r'.state.isFinished && r'.fed == r.fed + message && r'.output == r.output
  {
    S.UpdateAccepted(w.aes, S.Run(r.state.cipher, [], [], [], []), message);
  }

  lemma PlaintextsFirst(w: World, r: EncryptRun, chunks: seq<seq<byte>>)
    requires S.Valid(r.state.cipher) && chunks != []
    ensures EncryptAll(w, r, Plaintexts(chunks)) ==
            EncryptAll(w, EncryptStep(w, r, FeedPlaintext(chunks[0])), Plaintexts(chunks[1..]))
  {
    assert Plaintexts(chunks)[1..] == Plaintexts(chunks[1..]);
  }

  lemma {:induction false} EncryptorTakesAll(w: World, r: EncryptRun, chunks: seq<seq<byte>>)
    requires S.Open(r.state.cipher) && !r.state.isFinished && S.AllFit(chunks)
    ensures var r' := EncryptAll(w, r, Plaintexts(chunks));
            && S.Open(r'.state.cipher) && !r'.state.isFinished
            && r'.fed == r.fed + Concat(chunks) && r'.output == r.output
    decreases |chunks|
  {
    if chunks == [] {
      ConcatNone(r.fed);
    } else {
      ConcatFirst(r.fed, chunks);
      PlaintextsFirst(w, r, chunks);
      EncryptorTakes(w, r, chunks[0]);
      var r1 := EncryptStep(w, r, FeedPlaintext(chunks[0]));
      EncryptorTakesAll(w, r1, chunks[1..]);
    }
  }

  lemma DecryptorTakes(w: World, r: DecryptRun, message: seq<byte>)
    requires S.Open(r.state.cipher) && !r.state.isFinished && |message| <= S.MAX_MESSAGE
    ensures var r' := DecryptStep(w, r, FeedCiphertext(message));
            S.Open(r'.state.cipher) && !r'.state.isFinished && r'.fed == r.fed + message
  {
    S.UpdateAccepted(w.aes, S.Run(r.state.cipher, [], [], [], []), message);
  }

  lemma CiphertextsFirst(w: World, r: DecryptRun, chunks: seq<seq<byte>>)
    requires S.Valid(r.state.cipher) && chunks != []
    ensures DecryptAll(w, r, Ciphertexts(chunks)) ==
            DecryptAll(w, DecryptStep(w, r, FeedCiphertext(chunks[0])), Ciphertexts(chunks[1..]))
  {
    assert Ciphertexts(chunks)[1..] == Ciphertexts(chunks[1..]);
  }

  lemma {:induction false} DecryptorTakesAll(w: World, r: DecryptRun, chunks: seq<seq<byte>>)
    requires S.Open(r.state.cipher) && !r.state.isFinished && S.AllFit(chunks)
    ensures var r' := DecryptAll(w, r, Ciphertexts(chunks));
            S.Open(r'.state.cipher) && !r'.state.isFinished && r'.fed == r.fed + Concat(chunks)
    decreases |chunks|
  {
    if chunks == [] {
      ConcatNone(r.fed);
    } else {
      ConcatFirst(r.fed, chunks);
      CiphertextsFirst(w, r, chunks);
      DecryptorTakes(w, r, chunks[0]);
      var r1 := DecryptStep(w, r, FeedCiphertext(chunks[0]));
      DecryptorTakesAll(w, r1, chunks[1..]);
    }
  }

  lemma {:induction false} EncryptAllAppend(w: World, r: EncryptRun, a: seq<EncryptCall>, b: seq<EncryptCall>)
    requires S.Valid(r.state.cipher)
    ensures EncryptAll(w, r, a + b) == EncryptAll(w, EncryptAll(w, r, a), b)
    decreases |a|
  {
    if a == [] {
      assert a + b == b;
    } else {
      assert (a + b)[1..] == a[1..] + b;
      EncryptAllAppend(w, EncryptStep(w, r, a[0]), a[1..], b);
    }
  }

  lemma {:induction false} DecryptAllAppend(w: World, r: DecryptRun, a: seq<DecryptCall>, b: seq<DecryptCall>)
    requires S.Valid(r.state.cipher)
    ensures DecryptAll(w, r, a + b) == DecryptAll(w, DecryptAll(w, r, a), b)
    decreases |a|
  {
    if a == [] {
      assert a + b == b;
    } else {
      assert (a + b)[1..] == a[1..] + b;
      DecryptAllAppend(w, DecryptStep(w, r, a[0]), a[1..], b);
    }
  }

  /** The default parameters always yield keys, and the cipher they yield pads, so it encrypts every plaintext. */
  lemma DefaultEncryptor(w: World, kdfSalt: seq<byte>, macSalt: seq<byte>, recipient: PublicKey, ephemeral: PrivateKey)
    requires Lawful(w)
    ensures var k := CheckForRequiredParameters(w, DefaultBuilder(kdfSalt, macSalt), Encryption).1;
            && k.Ok? && IsKdf(k.value.kdf)
            && var e := NewEncryptor(w, k.value, recipient, ephemeral);
               && e.Ok? && FreshEncryptor(e.value) && e.value.macSalt == macSalt
               && Pads(e.value.cipher.config) && k.value.macSalt == macSalt
  {
    var k := CheckForRequiredParameters(w, DefaultBuilder(kdfSalt, macSalt), Encryption).1.value;
    var derived := w.x963(w.agree(recipient, ephemeral), 96, kdfSalt);
    assert |derived[..32]| == 32 && |derived[32..]| == 64;
    assert k.macKeySize + k.symmetricKeySize == 96;
    assert k.cipherFactory(derived[..32]).Ok?;
  }

  /**
   * The keys of the default scheme: 96 bytes from the agreed secret and the KDF salt, of which the first 32 are the
   * AES key and the other 64 the key of an HMAC.
   */
  lemma DefaultSchemeKeys(w: World, kdfSalt: seq<byte>, macSalt: seq<byte>, own: PrivateKey, other: PublicKey)
    requires Lawful(w)
    ensures var b := DefaultBuilder(kdfSalt, macSalt);
            var ke, kd := CheckForRequiredParameters(w, b, Encryption).1, CheckForRequiredParameters(w, b, Decryption).1;
            && ke.Ok? && kd.Ok? && IsKdf(ke.value.kdf) && IsKdf(kd.value.kdf)
            && var e, d := NewEncryptor(w, ke.value, other, own), NewDecryptor(w, kd.value, own, other);
               && e.Ok? && d.Ok?
               && HasDefaultKeys(w.x963(w.agree(other, own), 96, kdfSalt), Encryption, e.value.cipher, e.value.mac)
               && HasDefaultKeys(w.x963(w.agree(other, own), 96, kdfSalt), Decryption, d.value.cipher, d.value.mac)
               && e.value.macSalt == macSalt && d.value.macSalt == macSalt
  {
    var b := DefaultBuilder(kdfSalt, macSalt);
    DefaultEncryptor(w, kdfSalt, macSalt, other, own);
    DefaultKeysOf(w, b, Encryption, w.agree(other, own));
    DefaultKeysOf(w, b, Decryption, w.agree(other, own));
  }

  predicate HasDefaultKeys(derived: seq<byte>, mode: Operation, cipher: S.State, mac: M.State) {
    && |cipher.config.key| == 32 && |mac.key| == 64 && cipher.config.key + mac.key == derived
    && cipher.config == Config(CBC, PKCS, cipher.config.key, seq(16, _ => 0), [], mode)
    && mac.kind == M.HMAC(64)
  }

  lemma DefaultKeysOf(w: World, b: Builder, mode: Operation, secret: seq<byte>)
    requires Lawful(w) && b == DefaultBuilder(b.kdfSalt, b.macSalt)
    ensures var k := CheckForRequiredParameters(w, b, mode).1;
            && k.Ok? && IsKdf(k.value.kdf)
            && var r := CreateKeys(k.value, secret);
               && r.Ok?
               && HasDefaultKeys(w.x963(secret, 96, b.kdfSalt), mode, r.value.1, r.value.0)
  {
    ParametersExactly(w, b, mode);
    var k := CheckForRequiredParameters(w, b, mode).1.value;
    var derived := k.kdf(secret, 96, k.kdfSalt);
    DefaultCipherExactly(mode, derived[..32]);
    KeysExactly(k, secret);
    assert derived[..32] + derived[32..] == derived;
  }

  /** One encryption: the chunks in order, then `finish`. */
  function EncryptChunks(w: World, start: Encryptor, chunks: seq<seq<byte>>): EncryptRun
    requires S.Valid(start.cipher)
  {
    EncryptAll(w, EncryptRun(start, [], None), Plaintexts(chunks) + [FinishEncryption])
  }

  /** One decryption: the chunks in order, the tag, then `finish`. */
  function DecryptChunks(w: World, start: Decryptor, chunks: seq<seq<byte>>, tag: seq<byte>): Result<seq<byte>, Error>
    requires S.Valid(start.cipher)
  {
    DecryptFinish(w, DecryptAll(w, DecryptRun(start, [], None, []), Ciphertexts(chunks) + [SetTag(tag)]).state).1
  }

  predicate Pads(c: Config) {
    c.mode.CBC? && c.padding.PKCS? && c.operation.Encryption?
  }

  /** A `finish` returns exactly where there is a one-shot result, as long as HMAC can count it. */
  lemma CountedFinish(w: World, start: Encryptor, r: EncryptRun)
    requires FreshEncryptor(start) && Encrypting(w, start, r) && !r.state.cipher.isFinished
    requires !start.cipher.config.mode.GCM? && |start.macSalt| <= INT_MAX
    requires var x := OneShot(w.aes, start.cipher.config, r.fed, [], []); x.Some? ==> |x.value| <= INT_MAX
    ensures var e := EncryptStep(w, r, FinishEncryption);
            e.fed == r.fed && e.output == OneShot(w.aes, start.cipher.config, r.fed, [], [])
  {
    FeedingFinish(w, r.state.cipher, r.fed);
  }

  lemma EncryptAllOne(w: World, r: EncryptRun, call: EncryptCall)
    requires S.Valid(r.state.cipher)
    ensures EncryptAll(w, r, [call]) == EncryptStep(w, r, call)
  {
    assert [call][1..] == [];
  }

  lemma ChunksFed(w: World, start: Encryptor, chunks: seq<seq<byte>>)
    requires FreshEncryptor(start) && S.AllFit(chunks)
    ensures var r := EncryptAll(w, EncryptRun(start, [], None), Plaintexts(chunks));
            Encrypting(w, start, r) && !r.state.cipher.isFinished && r.fed == Concat(chunks)
  {
    var r0 := EncryptRun(start, [], None);
    FreshIsFeeding(w, start.cipher.config, C.DEFAULT_TAG_LENGTH);
    EncryptRunKeeps(w, start, r0, Plaintexts(chunks));
    EncryptorTakesAll(w, r0, chunks);
  }

  lemma EncryptChunksFinishes(w: World, start: Encryptor, chunks: seq<seq<byte>>)
    requires S.Valid(start.cipher)
    ensures EncryptChunks(w, start, chunks) ==
            EncryptStep(w, EncryptAll(w, EncryptRun(start, [], None), Plaintexts(chunks)), FinishEncryption)
  {
    var r0 := EncryptRun(start, [], None);
    EncryptAllAppend(w, r0, Plaintexts(chunks), [FinishEncryption]);
    EncryptAllOne(w, EncryptAll(w, r0, Plaintexts(chunks)), FinishEncryption);
  }

  /** A plaintext in chunks is encrypted, and tagged, exactly where it has a one-shot result. */
  lemma EncryptionOfChunks(w: World, start: Encryptor, chunks: seq<seq<byte>>)
    requires FreshEncryptor(start) && !start.cipher.config.mode.GCM? && S.AllFit(chunks) && |start.macSalt| <= INT_MAX
    requires var x := OneShot(w.aes, start.cipher.config, Concat(chunks), [], []); x.Some? ==> |x.value| <= INT_MAX
    ensures var e := EncryptChunks(w, start, chunks);
            && e.fed == Concat(chunks) && e.output == OneShot(w.aes, start.cipher.config, Concat(chunks), [], [])
            && e.state.ephemeralKey == start.ephemeralKey
            && (e.output.Some? ==>
                  && GetMac(e.state) == Ok(e.state.macValue)
                  && Tagged(w, start.mac.kind, start.mac.key, e.output.value, start.macSalt, e.state.macValue))
  {
    ChunksFed(w, start, chunks);
    EncryptChunksFinishes(w, start, chunks);
    var r := EncryptAll(w, EncryptRun(start, [], None), Plaintexts(chunks));
    CountedFinish(w, start, r);
    EncryptFinishKeeps(w, start, r);
  }

  /** A padding encryptor finishes every plaintext whose ciphertext HMAC can count. */
  lemma PaddedEncryptionFinishes(w: World, start: Encryptor, chunks: seq<seq<byte>>)
    requires FreshEncryptor(start) && Pads(start.cipher.config)
    requires S.AllFit(chunks) && |Concat(chunks)| <= INT_MAX - BLOCK && |start.macSalt| <= INT_MAX
    ensures var e := EncryptChunks(w, start, chunks);
            && e.fed == Concat(chunks) && e.output.Some? && |e.output.value| <= INT_MAX
            && e.state.ephemeralKey == start.ephemeralKey && GetMac(e.state) == Ok(e.state.macValue)
  {
    PaddingAlwaysEncrypts(w.aes, start.cipher.config, Concat(chunks), [], []);
    EncryptionOfChunks(w, start, chunks);
  }

  lemma TagAfterChunks(w: World, start: Decryptor, chunks: seq<seq<byte>>, tag: seq<byte>)
    requires FreshDecryptor(start) && S.AllFit(chunks)
    ensures var d := DecryptAll(w, DecryptRun(start, [], None, []), Ciphertexts(chunks) + [SetTag(tag)]);
            d.fed == Concat(chunks) && d.lastTag == Some(tag)
  {
    var r0 := DecryptRun(start, [], None, []);
    DecryptAllAppend(w, r0, Ciphertexts(chunks), [SetTag(tag)]);
    DecryptorTakesAll(w, r0, chunks);
  }

  /** A `finish` after the right tag returns exactly where there is a one-shot result. */
  lemma VerifiedFinish(w: World, start: Decryptor, d: DecryptRun)
    requires FreshDecryptor(start) && !start.cipher.config.mode.GCM?
    requires Decrypting(w, start, d) && !d.state.mac.isFinished && d.lastTag.Some? && |d.fed| <= INT_MAX
    requires Tagged(w, start.mac.kind, start.mac.key, d.fed, start.macSalt, d.lastTag.value)
    ensures var r, x := DecryptFinish(w, d.state).1, OneShot(w.aes, start.cipher.config, d.fed, [], []);
            if x.Some? then r == Ok(x.value) else r.Err?
  {
    FeedingFinish(w, d.state.cipher, d.fed);
  }

  /** A ciphertext in chunks with its tag is decrypted exactly where it has a one-shot result. */
  lemma DecryptionOfChunks(w: World, start: Decryptor, chunks: seq<seq<byte>>, tag: seq<byte>)
    requires FreshDecryptor(start) && !start.cipher.config.mode.GCM? && S.AllFit(chunks) && |Concat(chunks)| <= INT_MAX
    requires Tagged(w, start.mac.kind, start.mac.key, Concat(chunks), start.macSalt, tag)
    ensures var r, x := DecryptChunks(w, start, chunks, tag), OneShot(w.aes, start.cipher.config, Concat(chunks), [], []);
            if x.Some? then r == Ok(x.value) else r.Err?
  {
    var r0, calls := DecryptRun(start, [], None, []), Ciphertexts(chunks) + [SetTag(tag)];
    TagAfterChunks(w, start, chunks, tag);
    DecryptionKept(w, start, calls);
    MacStaysOpen(w, r0, calls);
    VerifiedFinish(w, start, DecryptAll(w, r0, calls));
  }

  /** The round trip for chunk lists, whatever the matching parameters, as long as the cipher pads. */
  lemma ChunksRoundTrip(
      w: World, ke: Parameters, kd: Parameters, recipient: PrivateKey, ephemeral: PrivateKey,
      plaintext: seq<seq<byte>>, ciphertext: seq<seq<byte>>)
    requires Lawful(w) && Matching(ke, kd) && S.AllFit(plaintext) && S.AllFit(ciphertext)
    requires |Concat(plaintext)| <= INT_MAX - BLOCK && |ke.macSalt| <= INT_MAX
    requires NewEncryptor(w, ke, w.publicOf(recipient), ephemeral).Ok?
    requires Pads(NewEncryptor(w, ke, w.publicOf(recipient), ephemeral).value.cipher.config)
    ensures var e0 := NewEncryptor(w, ke, w.publicOf(recipient), ephemeral).value;
            var e := EncryptChunks(w, e0, plaintext);
            var d0 := NewDecryptor(w, kd, recipient, e.state.ephemeralKey);
            && e.output.Some? && GetMac(e.state).Ok? && d0.Ok? && e.state.ephemeralKey == e0.ephemeralKey
            && (Concat(ciphertext) == e.output.value ==>
                  DecryptChunks(w, d0.value, ciphertext, GetMac(e.state).value) == Ok(Concat(plaintext)))
  {
    KeysAgree(w, ke, kd, recipient, ephemeral);
    var e0 := NewEncryptor(w, ke, w.publicOf(recipient), ephemeral).value;
    PaddingAlwaysEncrypts(w.aes, e0.cipher.config, Concat(plaintext), [], []);
    EncryptionOfChunks(w, e0, plaintext);
    var d0 := NewDecryptor(w, kd, recipient, e0.ephemeralKey).value;
    OneShotRoundTrip(w.aes, e0.cipher.config, d0.cipher.config, Concat(plaintext), [], []);
    var e := EncryptChunks(w, e0, plaintext);
    if Concat(ciphertext) == e.output.value {
      DecryptionOfChunks(w, d0, ciphertext, e.state.macValue);
    }
  }

  /**
   * With two new builders and the same salts, every plaintext cut into any chunks encrypts, and its ciphertext
   * cut into any chunks decrypts to it, up to the ciphertext length that HMAC's `int` can count.
   */
  lemma DefaultSchemeRoundTrip(
      w: World, kdfSalt: seq<byte>, macSalt: seq<byte>, recipient: PrivateKey, ephemeral: PrivateKey,
      plaintext: seq<seq<byte>>, ciphertext: seq<seq<byte>>)
    requires Lawful(w) && S.AllFit(plaintext) && S.AllFit(ciphertext)
    requires |Concat(plaintext)| <= INT_MAX - BLOCK && |macSalt| <= INT_MAX
    ensures var b := DefaultBuilder(kdfSalt, macSalt);
            var ke, kd := CheckForRequiredParameters(w, b, Encryption).1, CheckForRequiredParameters(w, b, Decryption).1;
            && ke.Ok? && kd.Ok? && IsKdf(ke.value.kdf) && IsKdf(kd.value.kdf)
            && var e0 := NewEncryptor(w, ke.value, w.publicOf(recipient), ephemeral);
               && e0.Ok?
               && var e := EncryptChunks(w, e0.value, plaintext);
                  var d0 := NewDecryptor(w, kd.value, recipient, e.state.ephemeralKey);
                  && e.output.Some? && GetMac(e.state).Ok? && d0.Ok? && e.state.ephemeralKey == e0.value.ephemeralKey
                  && (Concat(ciphertext) == e.output.value ==>
                        DecryptChunks(w, d0.value, ciphertext, GetMac(e.state).value) == Ok(Concat(plaintext)))
  {
    var b := DefaultBuilder(kdfSalt, macSalt);
    SeparateBuildersMatch(w, b, b);
    DefaultEncryptor(w, kdfSalt, macSalt, w.publicOf(recipient), ephemeral);
    var ke := CheckForRequiredParameters(w, b, Encryption).1.value;
    var kd := CheckForRequiredParameters(w, b, Decryption).1.value;
    ChunksRoundTrip(w, ke, kd, recipient, ephemeral, plaintext, ciphertext);
  }
}
