/** `AESCipher` and `AESCipherBuilder`: the objects, proved against the machine of module `AesStream`. */
module AesCipher {
  import opened Bytes
  import opened ChunkQueue
  import opened Cbc
  import opened EvpCipher
  import opened AesStream

  /** The bytes that happen to follow an IV in memory. */
  type Memory = m: seq<byte> | |m| == GCM_IV witness seq(GCM_IV, _ => 0)

  /** The checks of the cipher's constructor, in order. Only an IV that is too short for GCM is read past its end. */
  function CheckedConfig(
      mode: Mode, size: KeySize, padding: Padding, key: seq<byte>, iv: seq<byte>, memory: Memory, operation: Operation)
    : (r: Result<Config, Error>)
    ensures r.Ok? <==> |key| == KeyLength(size) && (if mode.GCM? then iv != [] else |iv| == BLOCK)
    ensures r == Err(InvalidKeySize) <==> |key| != KeyLength(size)
    ensures r == Err(EmptyIv) <==> |key| == KeyLength(size) && mode.GCM? && iv == []
    ensures r.Ok? ==>
              && ValidConfig(r.value)
              && r.value.mode == mode && r.value.padding == padding && r.value.key == key && r.value.iv == iv
              && r.value.operation == operation
  {
    if |key| != KeyLength(size) then Err(InvalidKeySize)
    else if mode.GCM? && iv == [] then Err(EmptyIv)
    else if !mode.GCM? && |iv| != BLOCK then Err(InvalidIvSize)
    else Ok(Config(mode, padding, key, iv, if mode.GCM? then memory[..Missing(iv)] else [], operation))
  }

  class AESCipher {
    const p: Primitives
    const config: Config
    const requestedAuthTagLength: nat
    const bufferStrategy: QueueOfVectors
    var ctx: Context
    var authTag: seq<byte>
    var isFinished: bool
    var isUpdated: bool

    ghost predicate Valid()
      reads this, bufferStrategy
    {
      bufferStrategy.Valid() && Fits(config, ctx)
    }

    ghost function Model(): State
      reads this, bufferStrategy
    {
      State(
        config, ctx, bufferStrategy.Contents(), authTag, requestedAuthTagLength, isFinished, isUpdated)
    }

    constructor (p: Primitives, config: Config, authTagLength: nat)
      requires ValidConfig(config)
      ensures Valid() && fresh(bufferStrategy)
      ensures this.p == p && Model() == Initial(config, authTagLength)
    {
      this.p, this.config, requestedAuthTagLength := p, config, authTagLength;
      bufferStrategy := new QueueOfVectors();
      ctx := Fresh(config);
      authTag, isFinished, isUpdated := [], false, false;
    }

    method Update(message: seq<byte>) returns (r: Result<(), Error>)
      requires Valid()
      modifies this, bufferStrategy
      ensures Valid() && (Model(), r) == DoUpdate(p, old(Model()), message)
    {
      if isFinished {
        return Err(UpdateAfterFinish);
      }
      if |message| > MAX_MESSAGE {
        return Err(MessageTooBig);
      }
      if |message| == 0 {
        return Ok(());
      }
      var processed := EvpCipher.Update(p, config, ctx, message);
      var (context, out) := processed;
      ctx := context;
      if out.None? {
        return Err(CipherFailure);
      }
      var chunk := out.value;
      if |chunk| > 0 {
        bufferStrategy.Write(chunk);
      }
      assert Model().pending == old(Model()).pending + chunk;
      isUpdated := true;
      r := Ok(());
    }

    method AddAssociatedData(data: seq<byte>) returns (r: Result<(), Error>)
      requires Valid() && config.mode.GCM?
      modifies this
      ensures Valid() && (Model(), r) == DoAddAssociatedData(p, old(Model()), data)
    {
      if isUpdated {
        return Err(AssociatedDataAfterUpdate);
      }
      if isFinished {
        return Err(AssociatedDataAfterFinish);
      }
      var (context, outcome) := Authenticate(p, config, ctx, data);
      ctx := context;
      r := if outcome.Some? then Ok(()) else Err(CipherFailure);
    }

    method Read(length: nat) returns (r: seq<byte>)
      requires Valid()
      modifies bufferStrategy
      ensures Valid() && (Model(), r) == DoRead(old(Model()), length)
    {
      r := bufferStrategy.Read(length);
    }

    method ReadAll() returns (r: seq<byte>)
      requires Valid()
      modifies bufferStrategy
      ensures Valid() && (Model(), r) == DoReadAll(old(Model()))
    {
      r := bufferStrategy.ReadAll();
    }

    method SetAuthTag(tag: seq<byte>)
      requires Valid() && config.mode.GCM?
      modifies this
      ensures Valid() && Model() == old(Model()).(authTag := tag)
    {
      authTag := tag;
    }

    method Finish() returns (r: Result<seq<byte>, Error>)
      requires Valid()
      modifies this, bufferStrategy
      ensures Valid() && (Model(), r) == DoFinish(p, old(Model()))
    {
      if isFinished {
        return Err(FinishedTwice);
      }
      var decrypts := config.operation == Decryption;
      if config.mode == GCM && decrypts {
        if |authTag| == 0 {
          return Err(TagMissing);
        }
        if |authTag| > 16 {  // EVP_CTRL_GCM_SET_TAG refuses
          return Err(CipherFailure);
        }
      }
      var (context, tail) := Final(p, config, ctx, authTag);
      ctx := context;
      if tail.None? {
        return Err(CipherFailure);
      }
      if config.mode == GCM && !decrypts {
        authTag := Resize(authTag, requestedAuthTagLength);
        var (asked, tag) := GetTag(p, config, ctx, requestedAuthTagLength);
        ctx := asked;
        if tag.None? {
          return Err(CipherFailure);
        }
        authTag := tag.value;
      }
      bufferStrategy.Write(tail.value);
      isFinished := true;
      var rest := bufferStrategy.ReadAll();
      r := Ok(rest);
    }
  }

  // ---- the builder ----

  const DEFAULT_TAG_LENGTH: nat := 16

  datatype Settings = Settings(
    mode: Mode, keySize: KeySize, secretKey: seq<byte>, iv: seq<byte>, padding: Padding, authTagLength: nat)

  /** `buildEncryptor` and `buildAuthenticatedEncryptor`; `randomIv` stands for the random bytes drawn without an IV. */
  function EncryptorConfig(s: Settings, authenticated: bool, randomIv: seq<byte>, memory: Memory)
    : (r: Result<Config, Error>)
    ensures r.Ok? ==> ValidConfig(r.value)
  {
    if s.mode.GCM? && !authenticated then Err(ModeIsAuthenticated)
    else if !s.mode.GCM? && authenticated then Err(ModeIsNotAuthenticated)
    else CheckedConfig(s.mode, s.keySize, s.padding, s.secretKey, if s.iv == [] then randomIv else s.iv, memory,
                       Encryption)
  }

  function DecryptorConfig(s: Settings, authenticated: bool, memory: Memory): (r: Result<Config, Error>)
    ensures r.Ok? ==> ValidConfig(r.value)
  {
    if s.mode.GCM? && !authenticated then Err(ModeIsAuthenticated)
    else if !s.mode.GCM? && authenticated then Err(ModeIsNotAuthenticated)
    else if authenticated && s.authTagLength != DEFAULT_TAG_LENGTH then Err(TagLengthOnDecryptor)
    else CheckedConfig(s.mode, s.keySize, s.padding, s.secretKey, s.iv, memory, Decryption)
  }

  /** `getDefaultIVLength` */
  function DefaultIvLength(mode: Mode): nat {
    match mode case GCM => 12 case CBC => 16 case CTR => 16
  }

  /** Key lengths, and the IV that is used: the caller's where one was set. */
  predicate Fitting(s: Settings, iv: seq<byte>) {
    && |s.secretKey| == (match s.keySize case S_128 => 16 case S_256 => 32)
    && (match s.mode case GCM => iv != [] case _ => |iv| == 16)
  }

  predicate Keeps(s: Settings, iv: seq<byte>, operation: Operation, c: Config) {
    c.mode == s.mode && c.padding == s.padding && c.key == s.secretKey && c.iv == iv && c.operation == operation
  }

  /**
   * Exactly which encryptors are built: the mode must be the builder function's kind, and key and IV must fit, where
   * the IV is the caller's, or the random one only if the caller set none. All parameters are kept.
   */
  lemma EncryptorExactly(s: Settings, authenticated: bool, randomIv: seq<byte>, memory: Memory)
    ensures var r := EncryptorConfig(s, authenticated, randomIv, memory);
            var iv := if s.iv != [] then s.iv else randomIv;
            && (r.Ok? <==> (s.mode.GCM? <==> authenticated) && Fitting(s, iv))
            && (r.Ok? ==> Keeps(s, iv, Encryption, r.value))
            && (r == Err(ModeIsAuthenticated) <==> s.mode.GCM? && !authenticated)
            && (r == Err(ModeIsNotAuthenticated) <==> !s.mode.GCM? && authenticated)
  {
  }

  /** Exactly which decryptors are built: one that authenticates also refuses a tag length. */
  lemma DecryptorExactly(s: Settings, authenticated: bool, memory: Memory)
    ensures var r := DecryptorConfig(s, authenticated, memory);
            && (r.Ok? <==>
                  && (s.mode.GCM? <==> authenticated)
                  && (authenticated ==> s.authTagLength == 16)
                  && Fitting(s, s.iv))
            && (r.Ok? ==> Keeps(s, s.iv, Decryption, r.value))
            && (r == Err(ModeIsAuthenticated) <==> s.mode.GCM? && !authenticated)
            && (r == Err(ModeIsNotAuthenticated) <==> !s.mode.GCM? && authenticated)
            && (r == Err(TagLengthOnDecryptor) <==> s.mode.GCM? && authenticated && s.authTagLength != 16)
  {
  }

  /**
   * An encryptor is built exactly when the key has its size and a given IV suits the mode; and the decryptor
   * built with the same settings and the encryptor's IV has the same settings. Wherever the two IVs are stored,
   * it is the encryptor's inverse if the IV is long enough, as a generated one is.
   */
  lemma BuildersPair(s: Settings, randomIv: seq<byte>, here: Memory, there: Memory)
    requires |randomIv| == DefaultIvLength(s.mode)
    ensures var e := EncryptorConfig(s, s.mode.GCM?, randomIv, here);
            && (e.Ok? <==> |s.secretKey| == KeyLength(s.keySize) && (s.iv == [] || s.mode.GCM? || |s.iv| == BLOCK))
            && (e.Ok? ==>
                  var used := s.(iv := e.value.iv, authTagLength := DEFAULT_TAG_LENGTH);
                  var d := DecryptorConfig(used, s.mode.GCM?, there);
                  && d.Ok? && SameSettings(e.value, d.value)
                  && (IvSuffices(e.value) ==> d.value == Inverse(e.value))
                  && (IvSuffices(e.value) <==> s.iv == [] || !s.mode.GCM? || |s.iv| >= GCM_IV)
                  && (s.iv == [] ==> UsedIv(e.value) == randomIv))
  {
  }

  /** With an IV of the caller's, the very same settings build a matching pair. */
  lemma SameSettingsPair(s: Settings, randomIv: seq<byte>, here: Memory, there: Memory)
    requires s.iv != [] && s.authTagLength == 16
    ensures var e := EncryptorConfig(s, s.mode.GCM?, randomIv, here);
            var d := DecryptorConfig(s, s.mode.GCM?, there);
            && (e.Ok? <==> d.Ok?)
            && (e.Ok? ==>
                  && SameSettings(e.value, d.value)
                  && (IvSuffices(e.value) ==> d.value == Inverse(e.value)))
  {
  }

  class AESCipherBuilder {
    var settings: Settings

    constructor (mode: Mode, keySize: KeySize, secretKey: seq<byte>)
      ensures settings == Settings(mode, keySize, secretKey, [], PKCS, DEFAULT_TAG_LENGTH)
    {
      settings := Settings(mode, keySize, secretKey, [], PKCS, DEFAULT_TAG_LENGTH);
    }

    method SetIV(iv: seq<byte>)
      modifies this
      ensures settings == old(settings).(iv := iv)
    {
      settings := settings.(iv := iv);
    }

    method SetPadding(padding: Padding)
      modifies this
      ensures settings == old(settings).(padding := padding)
    {
      settings := settings.(padding := padding);
    }

    method SetAuthTagLength(length: nat)
      modifies this
      ensures settings == old(settings).(authTagLength := length)
    {
      settings := settings.(authTagLength := length);
    }

    method BuildEncryptor(p: Primitives, authenticated: bool, randomIv: seq<byte>, memory: Memory)
      returns (r: Result<AESCipher, Error>)
      ensures match EncryptorConfig(settings, authenticated, randomIv, memory)
              case Err(e) => r == Err(e)
              case Ok(c) =>
                && r.Ok? && fresh(r.value) && fresh(r.value.bufferStrategy) && r.value.Valid()
                && r.value.p == p && r.value.Model() == Initial(c, settings.authTagLength)
    {
      var config := EncryptorConfig(settings, authenticated, randomIv, memory);
      if config.Err? {
        return Err(config.error);
      }
      var cipher := new AESCipher(p, config.value, settings.authTagLength);
      r := Ok(cipher);
    }

    method BuildDecryptor(p: Primitives, authenticated: bool, memory: Memory) returns (r: Result<AESCipher, Error>)
      ensures match DecryptorConfig(settings, authenticated, memory)
              case Err(e) => r == Err(e)
              case Ok(c) =>
                && r.Ok? && fresh(r.value) && fresh(r.value.bufferStrategy) && r.value.Valid()
                && r.value.p == p && r.value.Model() == Initial(c, settings.authTagLength)
    {
      var config := DecryptorConfig(settings, authenticated, memory);
      if config.Err? {
        return Err(config.error);
      }
      var cipher := new AESCipher(p, config.value, settings.authTagLength);
      r := Ok(cipher);
    }
  }
}
