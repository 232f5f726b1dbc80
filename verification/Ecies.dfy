/**
 * The elliptic curve integrated encryption scheme (section 11.3 of IEEE 1363a-2004) as two machines over values,
 * one per direction, built from the cipher and MAC machines.
 */
module Ecies {
  import opened Bytes
  import opened Cbc
  import opened EvpCipher
  import S = AesStream
  import C = AesCipher
  import M = Mac

  type PublicKey = seq<byte>
  type PrivateKey = seq<byte>

  type Kdf = (seq<byte>, nat, seq<byte>) -> seq<byte>

  /** The functions the scheme is built on. */
  datatype World = World(
    aes: Primitives,
    mac: M.MacFunction,
    publicOf: PrivateKey -> PublicKey,
    agree: (PublicKey, PrivateKey) -> seq<byte>,
    x963: Kdf)

  ghost predicate IsKdf(kdf: Kdf) {
    forall secret: seq<byte>, length: nat, salt: seq<byte> :: |kdf(secret, length, salt)| == length
  }

  /** Both parties of a key agreement compute the same secret. */
  ghost predicate Lawful(w: World) {
    && IsPermutation(w.aes.block)
    && IsKdf(w.x963)
    && forall a: PrivateKey, b: PrivateKey :: w.agree(w.publicOf(a), b) == w.agree(w.publicOf(b), a)
  }

  type CheckedCipher = c: Config | ValidConfig(c) witness Config(CTR, NO, [], seq(16, _ => 0), [], Encryption)

  /** A factory turns a key into a fresh cipher or MAC, or throws. */
  type CipherFactory = seq<byte> -> Result<CheckedCipher, S.Error>
  type MacFactory = seq<byte> -> Result<M.Kind, M.Error>

  datatype Parameters = Parameters(
    kdf: Kdf,
    macKeySize: nat,
    macFactory: MacFactory,
    symmetricKeySize: nat,
    cipherFactory: CipherFactory,
    kdfSalt: seq<byte>,
    macSalt: seq<byte>)

  datatype Error =
    | CipherThrew(cipherError: S.Error)
    | MacThrew(macError: M.Error)
    | UpdateAfterFinish | FinishedTwice | MacNotSet | MacBeforeFinish
    | MacParametersIncomplete | CipherParametersIncomplete

  /** Key, MAC and cipher from the shared secret: the first part of the derived bytes encrypts, the rest authenticates. */
  function CreateKeys(k: Parameters, secret: seq<byte>): Result<(M.State, S.State), Error>
    requires IsKdf(k.kdf)
  {
    var derived := k.kdf(secret, k.macKeySize + k.symmetricKeySize, k.kdfSalt);
    var encryptionKey, macKey := derived[..k.symmetricKeySize], derived[k.symmetricKeySize..];
    match k.macFactory(macKey)
    case Err(e) => Err(MacThrew(e))
    case Ok(kind) =>
      match M.Initial(kind, macKey)
      case Err(e) => Err(MacThrew(e))
      case Ok(mac) =>
        match k.cipherFactory(encryptionKey)
        case Err(e) => Err(CipherThrew(e))
        case Ok(config) => Ok((mac, S.Initial(config, C.DEFAULT_TAG_LENGTH)))
  }

  /**
   * How the derived bytes are split: the first `symmetricKeySize` make the cipher, all that follow are the MAC key,
   * and the KDF is asked for as many as both need, from the secret and the KDF salt. The
   * MAC's exceptions come first.
   */
  lemma KeysExactly(k: Parameters, secret: seq<byte>)
    requires IsKdf(k.kdf)
    ensures var r := CreateKeys(k, secret);
            var derived := k.kdf(secret, k.symmetricKeySize + k.macKeySize, k.kdfSalt);
            r.Ok? ==>
              var (mac, cipher) := r.value;
              && mac.key == derived[k.symmetricKeySize..] && |mac.key| == k.macKeySize
              && k.macFactory(mac.key) == Ok(mac.kind) && mac.absorbed == [] && !mac.isFinished
              && k.cipherFactory(derived[..k.symmetricKeySize]) == Ok(cipher.config)
              && cipher == S.Initial(cipher.config, 16)
    ensures var derived := k.kdf(secret, k.symmetricKeySize + k.macKeySize, k.kdfSalt);
            var (kind, macKey) := (k.macFactory(derived[k.symmetricKeySize..]), derived[k.symmetricKeySize..]);
            var config := k.cipherFactory(derived[..k.symmetricKeySize]);
            && (kind.Err? ==> CreateKeys(k, secret) == Err(MacThrew(kind.error)))
            && (kind.Ok? && M.Initial(kind.value, macKey).Err? ==>
                  CreateKeys(k, secret) == Err(MacThrew(M.Initial(kind.value, macKey).error)))
            && (kind.Ok? && M.Initial(kind.value, macKey).Ok? ==>
                  if config.Err? then CreateKeys(k, secret) == Err(CipherThrew(config.error))
                  else CreateKeys(k, secret).Ok?)
  {
    assert k.macKeySize + k.symmetricKeySize == k.symmetricKeySize + k.macKeySize;
  }

  // ---- encryption ----

  datatype Encryptor = Encryptor(
    cipher: S.State, mac: M.State, macSalt: seq<byte>, macValue: seq<byte>, isFinished: bool, ephemeralKey: PublicKey)

  function NewEncryptor(w: World, k: Parameters, recipient: PublicKey, ephemeral: PrivateKey): (r: Result<Encryptor, Error>)
    requires IsKdf(k.kdf)
    ensures r.Ok? ==> S.Valid(r.value.cipher)
  {
    match CreateKeys(k, w.agree(recipient, ephemeral))
    case Err(e) => Err(e)
    case Ok((mac, cipher)) => Ok(Encryptor(cipher, mac, k.macSalt, [], false, w.publicOf(ephemeral)))
  }

  function EncryptUpdate(w: World, s: Encryptor, message: seq<byte>): (Encryptor, Result<(), Error>)
    requires S.Valid(s.cipher)
  {
    if s.isFinished then (s, Err(UpdateAfterFinish))
    else
      var (cipher, outcome) := S.DoUpdate(w.aes, s.cipher, message);
      (s.(cipher := cipher), if outcome.Ok? then Ok(()) else Err(CipherThrew(outcome.error)))
  }

  function EncryptFinish(w: World, s: Encryptor): (Encryptor, Result<seq<byte>, Error>)
    requires S.Valid(s.cipher)
  {
    if s.isFinished then (s, Err(FinishedTwice))
    else
      var (cipher, ciphertext) := S.DoFinish(w.aes, s.cipher);
      if ciphertext.Err? then (s.(cipher := cipher), Err(CipherThrew(ciphertext.error)))
      else
        var (mac1, absorbed) := M.DoUpdate(s.mac, ciphertext.value);
        if absorbed.Err? then (s.(cipher := cipher, mac := mac1), Err(MacThrew(absorbed.error)))
        else
          var (mac2, salted) := M.DoUpdate(mac1, s.macSalt);
          if salted.Err? then (s.(cipher := cipher, mac := mac2), Err(MacThrew(salted.error)))
          else
            var (mac3, value) := M.DoFinish(w.mac, mac2);
            if value.Err? then (s.(cipher := cipher, mac := mac3), Err(MacThrew(value.error)))
            else (s.(cipher := cipher, mac := mac3, macValue := value.value, isFinished := true), Ok(ciphertext.value))
  }

  function GetMac(s: Encryptor): Result<seq<byte>, Error> {
    if s.isFinished then Ok(s.macValue) else Err(MacBeforeFinish)
  }

  // ---- decryption ----

  datatype Decryptor = Decryptor(
    cipher: S.State, mac: M.State, macSalt: seq<byte>, tag: seq<byte>, macIsSet: bool, isFinished: bool)

  function NewDecryptor(w: World, k: Parameters, key: PrivateKey, ephemeral: PublicKey): (r: Result<Decryptor, Error>)
    requires IsKdf(k.kdf)
    ensures r.Ok? ==> S.Valid(r.value.cipher)
  {
    match CreateKeys(k, w.agree(ephemeral, key))
    case Err(e) => Err(e)
    case Ok((mac, cipher)) => Ok(Decryptor(cipher, mac, k.macSalt, [], false, false))
  }

  /** The cipher takes the message before the MAC does, so a throwing MAC leaves the cipher changed. */
  function DecryptUpdate(w: World, s: Decryptor, message: seq<byte>): (Decryptor, Result<(), Error>)
    requires S.Valid(s.cipher)
  {
    if s.isFinished then (s, Err(UpdateAfterFinish))
    else
      var (cipher, fed) := S.DoUpdate(w.aes, s.cipher, message);
      if fed.Err? then (s.(cipher := cipher), Err(CipherThrew(fed.error)))
      else
        var (mac, absorbed) := M.DoUpdate(s.mac, message);
        (s.(cipher := cipher, mac := mac), if absorbed.Ok? then Ok(()) else Err(MacThrew(absorbed.error)))
  }

  function SetMac(s: Decryptor, tag: seq<byte>): Decryptor {
    s.(tag := tag, macIsSet := true)
  }

  function DecryptFinish(w: World, s: Decryptor): (Decryptor, Result<seq<byte>, Error>)
    requires S.Valid(s.cipher)
  {
    if s.isFinished then (s, Err(FinishedTwice))
    else if !s.macIsSet then (s, Err(MacNotSet))
    else
      var (mac1, salted) := M.DoUpdate(s.mac, s.macSalt);
      if salted.Err? then (s.(mac := mac1), Err(MacThrew(salted.error)))
      else
        var (mac2, value) := M.DoFinish(w.mac, mac1);
        if value.Err? then (s.(mac := mac2), Err(MacThrew(value.error)))
        else
          var (mac3, verified) := M.DoVerify(w.mac, mac2, s.tag);
          if verified.Err? then (s.(mac := mac3), Err(MacThrew(verified.error)))
          else
            var (cipher, plaintext) := S.DoFinish(w.aes, s.cipher);
            if plaintext.Err? then (s.(mac := mac3, cipher := cipher), Err(CipherThrew(plaintext.error)))
            else (s.(mac := mac3, cipher := cipher, isFinished := true), Ok(plaintext.value))
  }

  /** Both sides derive their keys from the agreed secret, and keep the MAC salt. */
  lemma ContextKeys(w: World, k: Parameters, own: PrivateKey, other: PublicKey)
    requires IsKdf(k.kdf)
    ensures var keys := CreateKeys(k, w.agree(other, own));
            var e, d := NewEncryptor(w, k, other, own), NewDecryptor(w, k, own, other);
            && (e.Ok? <==> keys.Ok?) && (d.Ok? <==> keys.Ok?)
            && (keys.Ok? ==>
                  && (e.value.mac, e.value.cipher) == keys.value && e.value.macSalt == k.macSalt
                  && e.value.ephemeralKey == w.publicOf(own) && !e.value.isFinished
                  && (d.value.mac, d.value.cipher) == keys.value && d.value.macSalt == k.macSalt
                  && !d.value.macIsSet && !d.value.isFinished)
  {
  }

  /** What finished contexts refuse, and what a decryptor without a tag refuses; none of it changes anything. */
  lemma Refusals(w: World, e: Encryptor, d: Decryptor, message: seq<byte>)
    requires S.Valid(e.cipher) && S.Valid(d.cipher)
    ensures e.isFinished ==>
              && EncryptUpdate(w, e, message) == (e, Err(UpdateAfterFinish))
              && EncryptFinish(w, e) == (e, Err(FinishedTwice))
    ensures !e.isFinished ==> GetMac(e) == Err(MacBeforeFinish)
    ensures d.isFinished ==>
              && DecryptUpdate(w, d, message) == (d, Err(UpdateAfterFinish))
              && DecryptFinish(w, d) == (d, Err(FinishedTwice))
    ensures !d.isFinished && !d.macIsSet ==> DecryptFinish(w, d) == (d, Err(MacNotSet))
  {
  }

  // ---- the cipher inside, seen as a run without reads ----

  /** A cipher that was fed `fed` and has neither been read nor finished. */
  predicate Feeding(w: World, cipher: S.State, fed: seq<byte>) {
    && S.Open(cipher)
    && S.Coherent(w.aes, S.Run(cipher, fed, [], [], []))
  }

  lemma FreshIsFeeding(w: World, config: CheckedCipher, tagLength: nat)
    ensures Feeding(w, S.Initial(config, tagLength), [])
  {
    S.StartCoherent(w.aes, config, tagLength);
  }

  lemma FeedingUpdate(w: World, cipher: S.State, fed: seq<byte>, message: seq<byte>)
    requires Feeding(w, cipher, fed)
    ensures var (cipher', outcome) := S.DoUpdate(w.aes, cipher, message);
            && (outcome.Ok? <==> |message| <= S.MAX_MESSAGE)
            && cipher'.config == cipher.config
            && Feeding(w, cipher', if outcome.Ok? then fed + message else fed)
  {
    var r := S.Run(cipher, fed, [], [], []);
    S.UpdateCoherent(w.aes, r, message);
    if |message| <= S.MAX_MESSAGE {
      S.UpdateAccepted(w.aes, r, message);
    }
  }

  /** Finishing such a cipher returns the whole one-shot result, or throws where there is none. */
  lemma FeedingFinish(w: World, cipher: S.State, fed: seq<byte>)
    requires Feeding(w, cipher, fed)
    ensures var (cipher', outcome) := S.DoFinish(w.aes, cipher);
            && cipher'.config == cipher.config
            && (outcome.Ok? ==>
                  && cipher'.isFinished
                  && OneShot(w.aes, cipher.config, fed, [], cipher.authTag) == Some(outcome.value))
            && (!cipher.config.mode.GCM? ==>
                  (outcome.Ok? <==> OneShot(w.aes, cipher.config, fed, [], cipher.authTag).Some?))
  {
    var r := S.Run(cipher, fed, [], [], []);
    S.CompletedOutput(w.aes, r);
    var tail := Final(w.aes, cipher.config, cipher.context, cipher.authTag).1;
    if tail.Some? {
      assert [] + (cipher.pending + tail.value) == cipher.pending + tail.value;
    }
  }
}
