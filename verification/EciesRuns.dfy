/** What whole runs of an ECIES encryptor and decryptor guarantee, and that the second undoes the first. */
module EciesRuns {
  import opened Bytes
  import opened Cbc
  import opened EvpCipher
  import opened Ecies
  import S = AesStream
  import C = AesCipher
  import M = Mac

  // ---- encryption runs ----

  datatype EncryptCall = FeedPlaintext(message: seq<byte>) | FinishEncryption

  /** An encryptor with the plaintext it accepted and what `finish` returned. */
  datatype EncryptRun = EncryptRun(state: Encryptor, fed: seq<byte>, output: Option<seq<byte>>)

  function EncryptStep(w: World, r: EncryptRun, call: EncryptCall): (r': EncryptRun)
    requires S.Valid(r.state.cipher)
    ensures S.Valid(r'.state.cipher)
  {
    match call
    case FeedPlaintext(message) =>
      var (s, outcome) := EncryptUpdate(w, r.state, message);
      if outcome.Ok? then r.(state := s, fed := r.fed + message) else r.(state := s)
    case FinishEncryption =>
      var (s, outcome) := EncryptFinish(w, r.state);
      if outcome.Ok? then r.(state := s, output := Some(outcome.value)) else r.(state := s)
  }

  function EncryptAll(w: World, r: EncryptRun, calls: seq<EncryptCall>): (r': EncryptRun)
    requires S.Valid(r.state.cipher)
    ensures S.Valid(r'.state.cipher)
    decreases |calls|
  {
    if calls == [] then r else EncryptAll(w, EncryptStep(w, r, calls[0]), calls[1..])
  }

  /** Ciphertext and tag belong together: the tag authenticates what the MAC saw of ciphertext and salt. */
  predicate Tagged(w: World, kind: M.Kind, key: seq<byte>, ciphertext: seq<byte>, salt: seq<byte>, tag: seq<byte>) {
    var c, t := M.Seen(kind, ciphertext), M.Seen(kind, salt);
    c.Some? && t.Some? && tag == w.mac(kind, key, c.value + t.value)
  }

  /** What every call of an encryption keeps. */
  predicate Encrypting(w: World, start: Encryptor, r: EncryptRun) {
    var s := r.state;
    && S.Valid(s.cipher)
    && s.cipher.config == start.cipher.config
    && s.ephemeralKey == start.ephemeralKey && s.macSalt == start.macSalt
    && (s.isFinished <==> r.output.Some?)
    && (!s.cipher.isFinished ==>
          && r.output.None?
          && Feeding(w, s.cipher, r.fed)
          && s.cipher.requestedTagLength == C.DEFAULT_TAG_LENGTH
          && s.cipher.authTag == []
          && s.mac == start.mac)
    && (r.output.Some? ==>
          && OneShot(w.aes, s.cipher.config, r.fed, [], []) == r.output
          && Tagged(w, start.mac.kind, start.mac.key, r.output.value, start.macSalt, s.macValue))
  }

  predicate FreshEncryptor(s: Encryptor) {
    && ValidConfig(s.cipher.config)
    && s.cipher == S.Initial(s.cipher.config, C.DEFAULT_TAG_LENGTH)
    && s.mac.absorbed == [] && !s.mac.isFinished && !s.isFinished
  }

  lemma EncryptUpdateKeeps(w: World, start: Encryptor, r: EncryptRun, message: seq<byte>)
    requires FreshEncryptor(start) && Encrypting(w, start, r)
    ensures Encrypting(w, start, EncryptStep(w, r, FeedPlaintext(message)))
  {
    if !r.state.cipher.isFinished {
      FeedingUpdate(w, r.state.cipher, r.fed, message);
    }
  }

  /** A cipher of either direction that was given no tag is left as it was where `finish` throws. */
  lemma FailedFinishChangesNothing(w: World, cipher: S.State)
    requires S.Open(cipher) && cipher.authTag == [] && cipher.requestedTagLength == C.DEFAULT_TAG_LENGTH
    ensures S.DoFinish(w.aes, cipher).1.Err? ==> S.DoFinish(w.aes, cipher).0 == cipher
  {
  }

  lemma EncryptFinishKeeps(w: World, start: Encryptor, r: EncryptRun)
    requires FreshEncryptor(start) && Encrypting(w, start, r)
    ensures Encrypting(w, start, EncryptStep(w, r, FinishEncryption))
  {
    var s := r.state;
    if !s.isFinished && !s.cipher.isFinished {
      FeedingFinish(w, s.cipher, r.fed);
      FailedFinishChangesNothing(w, s.cipher);
      MacOfBoth(w, s.mac, S.DoFinish(w.aes, s.cipher).1, s.macSalt);
    }
  }

  /** A MAC that has absorbed nothing, then a ciphertext, then a salt. */
  lemma MacOfBoth(w: World, mac: M.State, ciphertext: Result<seq<byte>, S.Error>, salt: seq<byte>)
    requires mac.absorbed == []
    ensures ciphertext.Ok? ==>
              var seen, salted := M.Seen(mac.kind, ciphertext.value), M.Seen(mac.kind, salt);
              seen.Some? && salted.Some? ==> ([] + seen.value) + salted.value == seen.value + salted.value
  {
  }

  lemma {:induction false} EncryptRunKeeps(w: World, start: Encryptor, r: EncryptRun, calls: seq<EncryptCall>)
    requires FreshEncryptor(start) && Encrypting(w, start, r)
    ensures Encrypting(w, start, EncryptAll(w, r, calls))
    decreases |calls|
  {
    if calls != [] {
      match calls[0]
      case FeedPlaintext(message) =>
        EncryptUpdateKeeps(w, start, r, message);
        EncryptRunKeeps(w, start, EncryptStep(w, r, calls[0]), calls[1..]);
      case FinishEncryption =>
        EncryptFinishKeeps(w, start, r);
        EncryptRunKeeps(w, start, EncryptStep(w, r, calls[0]), calls[1..]);
    }
  }

  /** Whatever is called: what `finish` returned is the encryption of what was accepted, with its tag. */
  lemma EncryptionRuns(w: World, start: Encryptor, calls: seq<EncryptCall>)
    requires FreshEncryptor(start)
    ensures var r := EncryptAll(w, EncryptRun(start, [], None), calls);
            match r.output
            case None => GetMac(r.state) == Err(MacBeforeFinish)
            case Some(ciphertext) =>
              && OneShot(w.aes, start.cipher.config, r.fed, [], []) == Some(ciphertext)
              && GetMac(r.state).Ok?
              && Tagged(w, start.mac.kind, start.mac.key, ciphertext, start.macSalt, GetMac(r.state).value)
  {
    FreshIsFeeding(w, start.cipher.config, C.DEFAULT_TAG_LENGTH);
    EncryptRunKeeps(w, start, EncryptRun(start, [], None), calls);
  }

  // ---- decryption runs ----

  datatype DecryptCall = FeedCiphertext(message: seq<byte>) | SetTag(tag: seq<byte>) | FinishDecryption

  /** A decryptor with the bytes its cipher accepted, the last tag set, and every plaintext `finish` returned. */
  datatype DecryptRun = DecryptRun(
    state: Decryptor, fed: seq<byte>, lastTag: Option<seq<byte>>, plaintexts: seq<seq<byte>>)

  function DecryptStep(w: World, r: DecryptRun, call: DecryptCall): (r': DecryptRun)
    requires S.Valid(r.state.cipher)
    ensures S.Valid(r'.state.cipher)
  {
    match call
    case FeedCiphertext(message) =>
      var s := DecryptUpdate(w, r.state, message).0;
      var accepted := !r.state.isFinished && S.DoUpdate(w.aes, r.state.cipher, message).1.Ok?;
      if accepted then r.(state := s, fed := r.fed + message) else r.(state := s)
    case SetTag(tag) =>
      r.(state := SetMac(r.state, tag), lastTag := Some(tag))
    case FinishDecryption =>
      var (s, outcome) := DecryptFinish(w, r.state);
      if outcome.Ok? then r.(state := s, plaintexts := r.plaintexts + [outcome.value]) else r.(state := s)
  }

  function DecryptAll(w: World, r: DecryptRun, calls: seq<DecryptCall>): (r': DecryptRun)
    requires S.Valid(r.state.cipher)
    ensures S.Valid(r'.state.cipher)
    decreases |calls|
  {
    if calls == [] then r else DecryptAll(w, DecryptStep(w, r, calls[0]), calls[1..])
  }

  predicate FreshDecryptor(s: Decryptor) {
    && ValidConfig(s.cipher.config)
    && s.cipher == S.Initial(s.cipher.config, C.DEFAULT_TAG_LENGTH)
    && s.mac.absorbed == [] && !s.mac.isFinished && !s.macIsSet && !s.isFinished
  }

  /** What every call of a decryption keeps. */
  predicate Decrypting(w: World, start: Decryptor, r: DecryptRun) {
    var s := r.state;
    && S.Valid(s.cipher)
    && s.macSalt == start.macSalt
    && r.lastTag == (if s.macIsSet then Some(s.tag) else None)
    && (s.isFinished ==> s.mac.isFinished)
    && (!s.mac.isFinished ==>
          && r.plaintexts == []
          && s.mac == start.mac.(absorbed := r.fed)
          && s.cipher.config == start.cipher.config
          && s.cipher.authTag == []
          && Feeding(w, s.cipher, r.fed))
  }

  lemma DecryptUpdateKeeps(w: World, start: Decryptor, r: DecryptRun, message: seq<byte>)
    requires FreshDecryptor(start) && Decrypting(w, start, r)
    ensures Decrypting(w, start, DecryptStep(w, r, FeedCiphertext(message)))
  {
    var s := r.state;
    if !s.mac.isFinished {
      FeedingUpdate(w, s.cipher, r.fed, message);
    }
  }

  /** A `finish` that has not reached the MAC has changed nothing. */
  lemma FinishReachesMac(w: World, s: Decryptor)
    requires S.Valid(s.cipher) && (s.isFinished ==> s.mac.isFinished)
    ensures var (s', outcome) := DecryptFinish(w, s);
            && S.Valid(s'.cipher)
            && s'.macSalt == s.macSalt && s'.tag == s.tag && s'.macIsSet == s.macIsSet
            && (s'.mac.isFinished || (s' == s && outcome.Err?))
  {
  }

  lemma DecryptFinishKeeps(w: World, start: Decryptor, r: DecryptRun)
    requires FreshDecryptor(start) && Decrypting(w, start, r)
    ensures Decrypting(w, start, DecryptStep(w, r, FinishDecryption))
  {
    FinishReachesMac(w, r.state);
    var (s, outcome) := DecryptFinish(w, r.state);
    if !s.mac.isFinished {
      assert DecryptStep(w, r, FinishDecryption) == r;
    }
  }

  lemma {:induction false} DecryptRunKeeps(w: World, start: Decryptor, r: DecryptRun, calls: seq<DecryptCall>)
    requires FreshDecryptor(start) && Decrypting(w, start, r)
    ensures Decrypting(w, start, DecryptAll(w, r, calls))
    decreases |calls|
  {
    if calls != [] {
      match calls[0] {
        case FeedCiphertext(message) => DecryptUpdateKeeps(w, start, r, message);
        case SetTag(tag) =>
        case FinishDecryption => DecryptFinishKeeps(w, start, r);
      }
      DecryptRunKeeps(w, start, DecryptStep(w, r, calls[0]), calls[1..]);
    }
  }

  /** Once its MAC is finished, nothing makes a decryptor return a plaintext again. */
  lemma {:induction false} FinishedMacIsFinal(w: World, r: DecryptRun, calls: seq<DecryptCall>)
    requires S.Valid(r.state.cipher) && r.state.mac.isFinished
    ensures var r' := DecryptAll(w, r, calls);
            && r'.plaintexts == r.plaintexts
            && r'.state.mac.isFinished
            && DecryptFinish(w, r'.state).1.Err?
    decreases |calls|
  {
    if calls != [] {
      FinishedMacIsFinal(w, DecryptStep(w, r, calls[0]), calls[1..]);
    }
  }

  /** A decryption that returns has checked its last tag against what its cipher was fed. */
  lemma ReturningFinish(w: World, start: Decryptor, r: DecryptRun)
    requires FreshDecryptor(start) && Decrypting(w, start, r) && DecryptFinish(w, r.state).1.Ok?
    ensures var salt := M.Seen(start.mac.kind, start.macSalt);
            && r.plaintexts == []
            && salt.Some?
            && r.lastTag == Some(w.mac(start.mac.kind, start.mac.key, r.fed + salt.value))
            && OneShot(w.aes, start.cipher.config, r.fed, [], []) == Some(DecryptFinish(w, r.state).1.value)
            && DecryptFinish(w, r.state).0.mac.isFinished
  {
    if !r.state.mac.isFinished {
      FeedingFinish(w, r.state.cipher, r.fed);
    }
  }

  lemma DecryptionKept(w: World, start: Decryptor, calls: seq<DecryptCall>)
    requires FreshDecryptor(start)
    ensures Decrypting(w, start, DecryptAll(w, DecryptRun(start, [], None, []), calls))
  {
    FreshIsFeeding(w, start.cipher.config, C.DEFAULT_TAG_LENGTH);
    DecryptRunKeeps(w, start, DecryptRun(start, [], None, []), calls);
  }

  /**
   * Safety of every decryption run. When a `finish` returns, it is the first to do so, the last tag set is the
   * MAC of exactly the bytes fed to the cipher followed by the salt, and the plaintext is their decryption.
   * A `finish` that has reached the MAC, whether it returned or not, is the last that could return.
   */
  lemma DecryptionSafety(w: World, start: Decryptor, before: seq<DecryptCall>, after: seq<DecryptCall>)
    requires FreshDecryptor(start)
    ensures var r := DecryptAll(w, DecryptRun(start, [], None, []), before);
            var (s, outcome) := DecryptFinish(w, r.state);
            var later := DecryptAll(w, DecryptStep(w, r, FinishDecryption), after);
            var salt := M.Seen(start.mac.kind, start.macSalt);
            && (outcome.Ok? ==>
                  && r.plaintexts == []
                  && salt.Some?
                  && r.lastTag == Some(w.mac(start.mac.kind, start.mac.key, r.fed + salt.value))
                  && OneShot(w.aes, start.cipher.config, r.fed, [], []) == Some(outcome.value)
                  && later.plaintexts == [outcome.value])
            && (s.mac.isFinished ==>
                  && DecryptFinish(w, later.state).1.Err?
                  && later.plaintexts == DecryptStep(w, r, FinishDecryption).plaintexts)
            && (outcome == Err(MacThrew(M.LengthDiffers)) || outcome == Err(MacThrew(M.ValueDiffers)) ==>
                  s.mac.isFinished)
  {
    DecryptionKept(w, start, before);
    var r := DecryptAll(w, DecryptRun(start, [], None, []), before);
    if DecryptFinish(w, r.state).1.Ok? {
      ReturningFinish(w, start, r);
    }
    if DecryptFinish(w, r.state).0.mac.isFinished {
      FinishedMacIsFinal(w, DecryptStep(w, r, FinishDecryption), after);
    }
  }

  // ---- the round trip ----

  /** Both sides agree on everything, and the decryption cipher has the settings of the encryption cipher. */
  ghost predicate Matching(ke: Parameters, kd: Parameters) {
    && IsKdf(ke.kdf)
    && kd.kdf == ke.kdf
    && kd.macKeySize == ke.macKeySize && kd.symmetricKeySize == ke.symmetricKeySize
    && kd.macFactory == ke.macFactory
    && kd.kdfSalt == ke.kdfSalt && kd.macSalt == ke.macSalt
    && forall key: seq<byte> | ke.cipherFactory(key).Ok? ::
         && ke.cipherFactory(key).value.operation.Encryption?
         && kd.cipherFactory(key).Ok?
         && SameSettings(ke.cipherFactory(key).value, kd.cipherFactory(key).value)
  }

  predicate NeverFinishes(calls: seq<DecryptCall>) {
    forall i :: 0 <= i < |calls| ==> !calls[i].FinishDecryption?
  }

  /** No `finish` comes after a tag was set. */
  predicate FinishesTooEarly(calls: seq<DecryptCall>) {
    forall i :: 0 <= i < |calls| && calls[i].SetTag? ==> NeverFinishes(calls[i..])
  }

  /** A `finish` before the tag is set throws and changes nothing: the MAC stays open until one comes after. */
  lemma {:induction false} MacStaysOpen(w: World, r: DecryptRun, calls: seq<DecryptCall>)
    requires S.Valid(r.state.cipher)
    requires if r.state.macIsSet then NeverFinishes(calls) else FinishesTooEarly(calls)
    ensures DecryptAll(w, r, calls).state.mac.isFinished == r.state.mac.isFinished
    ensures DecryptAll(w, r, calls).state.isFinished == r.state.isFinished
    decreases |calls|
  {
    if calls != [] {
      var rest := calls[1..];
      if !r.state.macIsSet {
        assert calls[0].SetTag? ==> NeverFinishes(calls[0..]);
        forall i | 0 <= i < |rest| && rest[i].SetTag?
          ensures NeverFinishes(rest[i..])
        {
          assert calls[i + 1].SetTag? && calls[i + 1..] == rest[i..];
        }
      }
      MacStaysOpen(w, DecryptStep(w, r, calls[0]), rest);
    }
  }

  /** The keys agree: matching parameters and the ephemeral key give the decryptor the encryptor's MAC and cipher settings. */
  lemma KeysAgree(w: World, ke: Parameters, kd: Parameters, recipient: PrivateKey, ephemeral: PrivateKey)
    requires Lawful(w) && Matching(ke, kd)
    requires NewEncryptor(w, ke, w.publicOf(recipient), ephemeral).Ok?
    ensures var e := NewEncryptor(w, ke, w.publicOf(recipient), ephemeral).value;
            var d := NewDecryptor(w, kd, recipient, e.ephemeralKey);
            && FreshEncryptor(e) && e.cipher.config.operation.Encryption? && d.Ok? && FreshDecryptor(d.value)
            && d.value.mac == e.mac && d.value.macSalt == e.macSalt
            && SameSettings(e.cipher.config, d.value.cipher.config)
  {
    assert w.agree(w.publicOf(recipient), ephemeral) == w.agree(w.publicOf(ephemeral), recipient);
  }

  /** The tag of what the MAC saw of a ciphertext, in one call, is the tag of all of it. */
  predicate TagCoversAll(w: World, kind: M.Kind, key: seq<byte>, ciphertext: seq<byte>, salt: seq<byte>) {
    var c, t := M.Seen(kind, ciphertext), M.Seen(kind, salt);
    c.Some? && t.Some? && w.mac(kind, key, c.value + t.value) == w.mac(kind, key, ciphertext + t.value)
  }

  /** Some MAC function tells what was seen of a ciphertext from all of it, unless that is the same. */
  lemma TagCoversAllExactly(w: World, kind: M.Kind, key: seq<byte>, ciphertext: seq<byte>, salt: seq<byte>)
    requires M.Seen(kind, salt).Some?
    ensures (forall f: M.MacFunction :: TagCoversAll(w.(mac := f), kind, key, ciphertext, salt)) <==>
            kind.CMAC? || |ciphertext| <= INT_MAX
  {
    if kind.HMAC? && |ciphertext| > INT_MAX {
      var f := TagMissesBytes(w, kind, key, ciphertext, salt);
    }
  }

  /** For every ciphertext that HMAC's `int` cannot count, a MAC function whose tag does not cover all of it. */
  lemma TagMissesBytes(w: World, kind: M.Kind, key: seq<byte>, ciphertext: seq<byte>, salt: seq<byte>)
    returns (f: M.MacFunction)
    requires kind.HMAC? && |ciphertext| > INT_MAX
    ensures !TagCoversAll(w.(mac := f), kind, key, ciphertext, salt)
  {
    var whole := |ciphertext| + (match M.Seen(kind, salt) case None => 0 case Some(t) => |t|);
    f := (_, _, message) => if |message| == whole then [1] else [0];
    if M.Seen(kind, ciphertext).Some? && M.Seen(kind, salt).Some? {
      assert |M.Seen(kind, ciphertext).value| < |ciphertext|;
      assert [1] != [0];
    }
  }

  /**
   * What `finish` makes of the right ciphertext and tag. A GCM cipher cannot work, because the scheme has no way
   * to hand it its own tag.
   */
  predicate Outcome(w: World, e0: Encryptor, ciphertext: seq<byte>, plaintext: seq<byte>, r: Result<seq<byte>, Error>) {
    if !TagCoversAll(w, e0.mac.kind, e0.mac.key, ciphertext, e0.macSalt) then
      r == Err(MacThrew(M.LengthDiffers)) || r == Err(MacThrew(M.ValueDiffers))
    else if e0.cipher.config.mode.GCM? then r == Err(CipherThrew(S.TagMissing))
    else r == Ok(plaintext)
  }

  /**
   * The round trip, for ciphertexts of any length: after any encryption run that finished, a decryptor with
   * matching parameters, in any run that fed it the ciphertext and last set the tag, returns the plaintext that
   * the encryptor accepted, exactly if the tag covers the whole ciphertext. Only a `finish` that has reached the MAC
   * ends such a run early.
   */
  lemma EciesRoundTripExactly(
      w: World, ke: Parameters, kd: Parameters, recipient: PrivateKey, ephemeral: PrivateKey,
      encryption: seq<EncryptCall>, decryption: seq<DecryptCall>)
    requires Lawful(w) && Matching(ke, kd)
    requires NewEncryptor(w, ke, w.publicOf(recipient), ephemeral).Ok?
    ensures var e0 := NewEncryptor(w, ke, w.publicOf(recipient), ephemeral).value;
            var e := EncryptAll(w, EncryptRun(e0, [], None), encryption);
            var d0 := NewDecryptor(w, kd, recipient, e0.ephemeralKey);
            && d0.Ok?
            && var d := DecryptAll(w, DecryptRun(d0.value, [], None, []), decryption);
               (e.output == Some(d.fed) && d.lastTag == Some(e.state.macValue) && !d.state.mac.isFinished ==>
                  Outcome(w, e0, d.fed, e.fed, DecryptFinish(w, d.state).1))
  {
    KeysAgree(w, ke, kd, recipient, ephemeral);
    var e0 := NewEncryptor(w, ke, w.publicOf(recipient), ephemeral).value;
    var e := EncryptAll(w, EncryptRun(e0, [], None), encryption);
    var d0 := NewDecryptor(w, kd, recipient, e0.ephemeralKey).value;
    var d := DecryptAll(w, DecryptRun(d0, [], None, []), decryption);
    DecryptionKept(w, d0, decryption);
    if e.output == Some(d.fed) && d.lastTag == Some(e.state.macValue) && !d.state.mac.isFinished {
      EncryptionRuns(w, e0, encryption);
      MatchingFinish(w, e0, e.fed, d0, d);
    }
  }

  /** With CMAC, or up to INT_MAX bytes of ciphertext, the round trip always succeeds. */
  lemma EciesRoundTrip(
      w: World, ke: Parameters, kd: Parameters, recipient: PrivateKey, ephemeral: PrivateKey,
      encryption: seq<EncryptCall>, decryption: seq<DecryptCall>)
    requires Lawful(w) && Matching(ke, kd)
    requires NewEncryptor(w, ke, w.publicOf(recipient), ephemeral).Ok?
    ensures var e0 := NewEncryptor(w, ke, w.publicOf(recipient), ephemeral).value;
            var e := EncryptAll(w, EncryptRun(e0, [], None), encryption);
            var d0 := NewDecryptor(w, kd, recipient, e0.ephemeralKey);
            && d0.Ok?
            && var d := DecryptAll(w, DecryptRun(d0.value, [], None, []), decryption);
               (&& e.output == Some(d.fed)
                && (e0.mac.kind.CMAC? || |d.fed| <= INT_MAX)
                && d.lastTag == Some(e.state.macValue)
                && !d.state.mac.isFinished) ==>
               DecryptFinish(w, d.state).1 ==
               if e0.cipher.config.mode.GCM? then Err(CipherThrew(S.TagMissing)) else Ok(e.fed)
  {
    EciesRoundTripExactly(w, ke, kd, recipient, ephemeral, encryption, decryption);
    var e0 := NewEncryptor(w, ke, w.publicOf(recipient), ephemeral).value;
    KeysAgree(w, ke, kd, recipient, ephemeral);
    EncryptionRuns(w, e0, encryption);
  }

  /** A decryption that was fed a ciphertext and given its tag. */
  lemma MatchingFinish(w: World, e0: Encryptor, plaintext: seq<byte>, d0: Decryptor, d: DecryptRun)
    requires IsPermutation(w.aes.block) && FreshEncryptor(e0) && FreshDecryptor(d0)
    requires e0.cipher.config.operation.Encryption?
    requires d0.mac == e0.mac && d0.macSalt == e0.macSalt && SameSettings(e0.cipher.config, d0.cipher.config)
    requires Decrypting(w, d0, d) && !d.state.mac.isFinished && !d.state.isFinished && d.lastTag.Some?
    requires OneShot(w.aes, e0.cipher.config, plaintext, [], []) == Some(d.fed)
    requires Tagged(w, e0.mac.kind, e0.mac.key, d.fed, e0.macSalt, d.lastTag.value)
    ensures Outcome(w, e0, d.fed, plaintext, DecryptFinish(w, d.state).1)
  {
    FeedingFinish(w, d.state.cipher, d.fed);
    if !e0.cipher.config.mode.GCM? {
      OneShotRoundTrip(w.aes, e0.cipher.config, d0.cipher.config, plaintext, [], []);
    }
  }
}
