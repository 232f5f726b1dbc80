/**
 * `AESCipher` as a machine over values: what each call does to the cipher, when it throws, and what every run
 * of calls computes. Module `AesCipher` holds the class that carries the state and is proved against this machine.
 */
module AesStream {
  import opened Bytes
  import opened ChunkQueue
  import opened Cbc
  import opened EvpCipher

  datatype KeySize = S_128 | S_256

  function KeyLength(size: KeySize): nat {
    match size case S_128 => 16 case S_256 => 32
  }

  datatype Error =
    | UpdateAfterFinish | MessageTooBig | AssociatedDataAfterUpdate | AssociatedDataAfterFinish
    | FinishedTwice | TagMissing | CipherFailure
    | InvalidKeySize | EmptyIv | InvalidIvSize | ModeIsAuthenticated | ModeIsNotAuthenticated | TagLengthOnDecryptor

  /** INT_MAX - EVP_MAX_BLOCK_LENGTH: room for what the cipher may add to one message. */
  const MAX_MESSAGE: int := INT_MAX - 32

  datatype State = State(
    config: Config,
    context: Context,
    pending: seq<byte>,
    authTag: seq<byte>,
    requestedTagLength: nat,
    isFinished: bool,
    isUpdated: bool)

  predicate Valid(s: State) {
    Fits(s.config, s.context)
  }

  function Initial(c: Config, requestedTagLength: nat): State
    requires ValidConfig(c)
  {
    State(c, Fresh(c), [], [], requestedTagLength, false, false)
  }

  // ---- one call ----

  function DoUpdate(p: Primitives, s: State, message: seq<byte>): (State, Result<(), Error>)
    requires Valid(s)
  {
    if s.isFinished then (s, Err(UpdateAfterFinish))
    else if |message| > MAX_MESSAGE then (s, Err(MessageTooBig))
    else if message == [] then (s, Ok(()))
    else
      var (context, out) := Update(p, s.config, s.context, message);
      if out.None? then (s.(context := context), Err(CipherFailure))
      else (s.(context := context, pending := s.pending + out.value, isUpdated := true), Ok(()))
  }

  function DoAddAssociatedData(p: Primitives, s: State, data: seq<byte>): (State, Result<(), Error>)
    requires Valid(s) && s.config.mode.GCM?
  {
    if s.isUpdated then (s, Err(AssociatedDataAfterUpdate))
    else if s.isFinished then (s, Err(AssociatedDataAfterFinish))
    else
      var (context, outcome) := Authenticate(p, s.config, s.context, data);
      (s.(context := context), if outcome.Some? then Ok(()) else Err(CipherFailure))
  }

  function DoRead(s: State, requested: nat): (State, seq<byte>) {
    var n := Taken(requested, |s.pending|);
    (s.(pending := s.pending[n..]), s.pending[..n])
  }

  function DoReadAll(s: State): (State, seq<byte>) {
    (s.(pending := []), s.pending)
  }

  /** `std::vector::resize`: new elements are zero. */
  function Resize(v: seq<byte>, length: nat): (r: seq<byte>)
    ensures |r| == length && forall i :: 0 <= i < length ==> r[i] == if i < |v| then v[i] else 0
  {
    if length <= |v| then v[..length] else v + seq(length - |v|, _ => 0)
  }

  function DoFinish(p: Primitives, s: State): (State, Result<seq<byte>, Error>)
    requires Valid(s)
  {
    var decrypts := s.config.operation.Decryption?;
    if s.isFinished then (s, Err(FinishedTwice))
    else if s.config.mode.GCM? && decrypts && s.authTag == [] then (s, Err(TagMissing))
    else if s.config.mode.GCM? && decrypts && |s.authTag| > 16 then (s, Err(CipherFailure))
    else
      var (context, tail) := Final(p, s.config, s.context, s.authTag);
      var s' := s.(context := context);
      if tail.None? then (s', Err(CipherFailure))
      else if !s.config.mode.GCM? || decrypts then
        (s'.(pending := [], isFinished := true), Ok(s.pending + tail.value))
      else
        var (asked, tag) := GetTag(p, s.config, context, s.requestedTagLength);
        match tag
        case None => (s'.(context := asked, authTag := Resize(s.authTag, s.requestedTagLength)), Err(CipherFailure))
        case Some(tag) =>
          (s'.(context := asked, pending := [], authTag := tag, isFinished := true), Ok(s.pending + tail.value))
  }

  // ---- runs of calls ----

  datatype Call =
    | CallUpdate(message: seq<byte>)
    | CallAddAssociatedData(data: seq<byte>)
    | CallRead(requested: nat)
    | CallReadAll
    | CallSetAuthTag(tag: seq<byte>)
    | CallFinish

  /** Associated data and tags are offered by `AuthenticatedAESCipher` only. */
  predicate Offers(c: Config, call: Call) {
    (call.CallAddAssociatedData? || call.CallSetAuthTag?) ==> c.mode.GCM?
  }

  /**
   * The cipher and what its caller has seen: the messages and associated data it accepted, every byte it
   * returned, and the tag it held when `finish` returned.
   */
  datatype Run = Run(state: State, fed: seq<byte>, aad: seq<byte>, returned: seq<byte>, finishTag: seq<byte>)

  function Start(s: State): Run {
    Run(s, [], [], [], [])
  }

  function Perform(p: Primitives, r: Run, call: Call): (r': Run)
    requires Valid(r.state) && Offers(r.state.config, call)
    ensures Valid(r'.state) && r'.state.config == r.state.config
  {
    match call
    case CallUpdate(message) =>
      var (s, outcome) := DoUpdate(p, r.state, message);
      if outcome.Ok? then r.(state := s, fed := r.fed + message) else r.(state := s)
    case CallAddAssociatedData(data) =>
      var (s, outcome) := DoAddAssociatedData(p, r.state, data);
      if outcome.Ok? then r.(state := s, aad := r.aad + data) else r.(state := s)
    case CallRead(requested) =>
      var (s, out) := DoRead(r.state, requested);
      r.(state := s, returned := r.returned + out)
    case CallReadAll =>
      var (s, out) := DoReadAll(r.state);
      r.(state := s, returned := r.returned + out)
    case CallSetAuthTag(tag) =>
      r.(state := r.state.(authTag := tag))
    case CallFinish =>
      var (s, outcome) := DoFinish(p, r.state);
      if outcome.Ok? then r.(state := s, returned := r.returned + outcome.value, finishTag := s.authTag)
      else r.(state := s)
  }

  predicate OffersAll(c: Config, calls: seq<Call>) {
    forall i :: 0 <= i < |calls| ==> Offers(c, calls[i])
  }

  function PerformAll(p: Primitives, r: Run, calls: seq<Call>): (r': Run)
    requires Valid(r.state) && OffersAll(r.state.config, calls)
    ensures Valid(r'.state) && r'.state.config == r.state.config
    decreases |calls|
  {
    if calls == [] then r else PerformAll(p, Perform(p, r, calls[0]), calls[1..])
  }

  /** What every call keeps: facts about the output hold as long as the context is known. */
  predicate Coherent(p: Primitives, r: Run) {
    var s := r.state;
    && Valid(s)
    && (s.isUpdated <==> r.fed != [])
    && (s.isFinished ==>
          && s.pending == []
          && (s.config.mode.GCM? && s.config.operation.Decryption? ==> 1 <= |r.finishTag| <= 16))
    && (!s.context.UnknownContext? ==> if s.isFinished then Completed(p, r) else InProgress(p, r))
  }

  predicate InProgress(p: Primitives, r: Run)
    requires Valid(r.state)
  {
    var c := r.state.config;
    && r.returned + r.state.pending == Released(p, c, r.fed)
    && r.state.context == ContextAfter(p, c, r.fed, r.aad)
  }

  predicate Completed(p: Primitives, r: Run)
    requires Valid(r.state)
  {
    var c, length := r.state.config, r.state.requestedTagLength;
    && OneShot(p, c, r.fed, r.aad, r.finishTag) == Some(r.returned)
    && (c.mode.GCM? && c.operation.Encryption? ==>
          1 <= length <= 16 && r.finishTag == p.gcmTag(c.key, UsedIv(c), r.aad, r.returned)[..length])
  }

  lemma StartCoherent(p: Primitives, c: Config, requestedTagLength: nat)
    requires ValidConfig(c)
    ensures Coherent(p, Start(Initial(c, requestedTagLength)))
  {
  }

  /** A message the cipher takes moves context and output along together. */
  lemma AcceptedUpdate(p: Primitives, r: Run, message: seq<byte>)
    requires Coherent(p, r) && Open(r.state)
    ensures var u := Update(p, r.state.config, r.state.context, message);
            && u.0 == ContextAfter(p, r.state.config, r.fed + message, r.aad)
            && u.1.Some?
            && r.returned + (r.state.pending + u.1.value) == Released(p, r.state.config, r.fed + message)
  {
    var u := Update(p, r.state.config, r.state.context, message);
    UpdateContinues(p, r.state.config, r.fed, r.aad, message);
    Associative(r.returned, r.state.pending, u.1.value);
  }

  lemma UpdateCoherent(p: Primitives, r: Run, message: seq<byte>)
    requires Coherent(p, r)
    ensures Coherent(p, Perform(p, r, CallUpdate(message)))
  {
    var s := r.state;
    if s.isFinished || |message| > MAX_MESSAGE {
      assert Perform(p, r, CallUpdate(message)) == r;
    } else if message == [] {
      assert r.fed + message == r.fed;
      assert Perform(p, r, CallUpdate(message)) == r;
    } else if !s.context.UnknownContext? {
      AcceptedUpdate(p, r, message);
    }
  }

  lemma AddAssociatedDataCoherent(p: Primitives, r: Run, data: seq<byte>)
    requires Coherent(p, r) && r.state.config.mode.GCM?
    ensures Coherent(p, Perform(p, r, CallAddAssociatedData(data)))
  {
  }

  /** A tail that `Final` releases completes what the caller has seen to the one-shot result. */
  lemma CompletedOutput(p: Primitives, r: Run)
    requires Coherent(p, r) && Open(r.state)
    ensures var s := r.state;
            var tail := Final(p, s.config, s.context, s.authTag).1;
            OneShot(p, s.config, r.fed, r.aad, s.authTag) ==
            if tail.Some? then Some(r.returned + (s.pending + tail.value)) else None
  {
    var s := r.state;
    var whole := OneShot(p, s.config, r.fed, r.aad, s.authTag);
    var tail := Final(p, s.config, s.context, s.authTag).1;
    var released := r.returned + s.pending;
    assert whole == if tail.Some? then Some(released + tail.value) else None by {
      FinalCompletes(p, s.config, r.fed, r.aad, s.authTag);
    }
    if tail.Some? {
      Associative(r.returned, s.pending, tail.value);
    }
  }

  lemma AuthenticationOnlyForGcm(
      p: Primitives, c: Config, data: seq<byte>, aad: seq<byte>, tag: seq<byte>, aad': seq<byte>, tag': seq<byte>)
    requires ValidConfig(c) && (!c.mode.GCM? || (aad == aad' && tag == tag'))
    ensures OneShot(p, c, data, aad, tag) == OneShot(p, c, data, aad', tag')
  {
  }

  /** The tag plays no part unless GCM decrypts. */
  lemma TagOnlyForDecryption(p: Primitives, c: Config, data: seq<byte>, aad: seq<byte>, tag: seq<byte>, other: seq<byte>)
    requires ValidConfig(c) && !(c.mode.GCM? && c.operation.Decryption?)
    ensures OneShot(p, c, data, aad, tag) == OneShot(p, c, data, aad, other)
  {
  }

  lemma FinishCoherent(p: Primitives, r: Run)
    requires Coherent(p, r)
    ensures Coherent(p, Perform(p, r, CallFinish))
  {
    var s := r.state;
    if Open(s) {
      CompletedOutput(p, r);
      if s.config.mode.GCM? && s.config.operation.Encryption? {
        var r' := Perform(p, r, CallFinish);
        TagOnlyForDecryption(p, s.config, r.fed, r.aad, s.authTag, r'.finishTag);
      }
    }
  }

  lemma PerformCoherent(p: Primitives, r: Run, call: Call)
    requires Coherent(p, r) && Offers(r.state.config, call)
    ensures Coherent(p, Perform(p, r, call))
  {
    match call
    case CallUpdate(message) => UpdateCoherent(p, r, message);
    case CallAddAssociatedData(data) => AddAssociatedDataCoherent(p, r, data);
    case CallRead(requested) =>
      var n := Taken(requested, |r.state.pending|);
      assert r.returned + r.state.pending == (r.returned + r.state.pending[..n]) + r.state.pending[n..];
      assert r.state.pending == [] ==> r.returned + r.state.pending[..n] == r.returned;
    case CallReadAll =>
      assert (r.returned + r.state.pending) + [] == r.returned + r.state.pending;
      assert r.state.pending == [] ==> r.returned + r.state.pending == r.returned;
    case CallSetAuthTag(tag) =>
    case CallFinish => FinishCoherent(p, r);
  }

  lemma {:induction false} RunCoherent(p: Primitives, r: Run, calls: seq<Call>)
    requires Coherent(p, r) && OffersAll(r.state.config, calls)
    ensures Coherent(p, PerformAll(p, r, calls))
    decreases |calls|
  {
    if calls != [] {
      PerformCoherent(p, r, calls[0]);
      RunCoherent(p, Perform(p, r, calls[0]), calls[1..]);
    }
  }

  // ---- what leaves a context unknown ----

  /**
   * The calls after which nothing is known of a GCM context: a `finish` that failed inside OpenSSL, and associated
   * data that is empty or too long for an `int`.
   */
  predicate Disturbs(p: Primitives, s: State, call: Call)
    requires Valid(s) && Offers(s.config, call)
  {
    && s.config.mode.GCM? && !s.isFinished
    && match call
       case CallAddAssociatedData(data) => !s.isUpdated && !IsAssociatedData(data)
       case CallFinish =>
         && DoFinish(p, s).1 == Err(CipherFailure)
         && (s.config.operation.Decryption? ==> |s.authTag| <= 16)
       case _ => false
  }

  predicate Undisturbed(p: Primitives, r: Run, calls: seq<Call>)
    requires Valid(r.state) && OffersAll(r.state.config, calls)
    decreases |calls|
  {
    calls == [] || (!Disturbs(p, r.state, calls[0]) && Undisturbed(p, Perform(p, r, calls[0]), calls[1..]))
  }

  lemma DisturbingCall(p: Primitives, r: Run, call: Call)
    requires Valid(r.state) && Offers(r.state.config, call)
    ensures Perform(p, r, call).state.context.UnknownContext? <==>
            r.state.context.UnknownContext? || Disturbs(p, r.state, call)
  {
  }

  /** A context that was known stays known exactly as long as no call disturbs it. */
  lemma {:induction false} KnownExactly(p: Primitives, r: Run, calls: seq<Call>)
    requires Valid(r.state) && OffersAll(r.state.config, calls)
    ensures PerformAll(p, r, calls).state.context.UnknownContext? <==>
            r.state.context.UnknownContext? || !Undisturbed(p, r, calls)
    decreases |calls|
  {
    if calls != [] {
      DisturbingCall(p, r, calls[0]);
      KnownExactly(p, Perform(p, r, calls[0]), calls[1..]);
    }
  }

  predicate WithoutFinish(calls: seq<Call>) {
    forall i :: 0 <= i < |calls| ==> !calls[i].CallFinish?
  }

  predicate ProperData(calls: seq<Call>) {
    forall i :: 0 <= i < |calls| ==> (calls[i].CallAddAssociatedData? ==> IsAssociatedData(calls[i].data))
  }

  predicate Open(s: State) {
    Valid(s) && !s.isFinished && !s.context.UnknownContext?
  }

  lemma CallStaysOpen(p: Primitives, r: Run, call: Call)
    requires Open(r.state) && Offers(r.state.config, call) && WithoutFinish([call]) && ProperData([call])
    ensures !Disturbs(p, r.state, call) && Open(Perform(p, r, call).state)
  {
    assert [call][0] == call;
  }

  /** Until `finish` is called, and given proper associated data, the cipher is open and undisturbed. */
  lemma {:induction false} StaysOpen(p: Primitives, r: Run, calls: seq<Call>)
    requires Open(r.state) && OffersAll(r.state.config, calls) && WithoutFinish(calls) && ProperData(calls)
    ensures Open(PerformAll(p, r, calls).state) && Undisturbed(p, r, calls)
    decreases |calls|
  {
    if calls != [] {
      CallStaysOpen(p, r, calls[0]);
      StaysOpen(p, Perform(p, r, calls[0]), calls[1..]);
    }
  }

  // ---- what every run computes ----

  /** A new cipher after some calls. */
  function After(p: Primitives, c: Config, tagLength: nat, calls: seq<Call>): (r: Run)
    requires ValidConfig(c) && OffersAll(c, calls)
    ensures Valid(r.state) && r.state.config == c
  {
    PerformAll(p, Start(Initial(c, tagLength)), calls)
  }

  predicate AllUndisturbed(p: Primitives, c: Config, tagLength: nat, calls: seq<Call>)
    requires ValidConfig(c) && OffersAll(c, calls)
  {
    Undisturbed(p, Start(Initial(c, tagLength)), calls)
  }

  /** A run from the start is coherent, and its context is known exactly if no call has disturbed it. */
  lemma RunFromStart(p: Primitives, c: Config, tagLength: nat, calls: seq<Call>)
    requires ValidConfig(c) && OffersAll(c, calls)
    ensures var r := After(p, c, tagLength, calls);
            Coherent(p, r) && (AllUndisturbed(p, c, tagLength, calls) <==> !r.state.context.UnknownContext?)
  {
    var start := Start(Initial(c, tagLength));
    StartCoherent(p, c, tagLength);
    RunCoherent(p, start, calls);
    KnownExactly(p, start, calls);
  }

  /**
   * However the input is cut and whenever output is read, a finished cipher has returned, in all, the one-shot
   * result for the concatenation of the accepted messages, and nothing is left to read.
   */
  lemma ChunksDoNotMatter(p: Primitives, c: Config, requestedTagLength: nat, calls: seq<Call>, n: nat)
    requires ValidConfig(c) && OffersAll(c, calls)
    ensures var r := After(p, c, requestedTagLength, calls);
            && (r.state.isFinished ==> DoRead(r.state, n).1 == [] && DoReadAll(r.state).1 == [])
            && (AllUndisturbed(p, c, requestedTagLength, calls) ==>
                  if r.state.isFinished then OneShot(p, c, r.fed, r.aad, r.finishTag) == Some(r.returned)
                  else r.returned + r.state.pending == Released(p, c, r.fed))
  {
    RunFromStart(p, c, requestedTagLength, calls);
  }

  /** The first `finish` after any run returns exactly when the accepted input has a one-shot result. */
  lemma FinishReturnsExactly(p: Primitives, c: Config, requestedTagLength: nat, calls: seq<Call>)
    requires ValidConfig(c) && OffersAll(c, calls) && WithoutFinish(calls) && ProperData(calls)
    ensures var r := After(p, c, requestedTagLength, calls);
            DoFinish(p, r.state).1.Ok? <==>
            && OneShot(p, c, r.fed, r.aad, r.state.authTag).Some?
            && (c.mode.GCM? && c.operation.Encryption? ==> 1 <= r.state.requestedTagLength <= 16)
  {
    RunFromStart(p, c, requestedTagLength, calls);
    StaysOpen(p, Start(Initial(c, requestedTagLength)), calls);
    CompletedOutput(p, After(p, c, requestedTagLength, calls));
  }

  /**
   * In every run: once payload bytes were accepted, associated data is refused, and decryption never finishes
   * without a tag. Until a call disturbs the context, `finish` returns only if the tag is that of the associated
   * data and the ciphertext that were accepted, in full or cut; and a finished encryptor holds such a tag, of the
   * length asked for.
   */
  lemma AuthenticatedRuns(
      p: Primitives, c: Config, requestedTagLength: nat, calls: seq<Call>, data: seq<byte>, iv: seq<byte>)
    requires ValidConfig(c) && OffersAll(c, calls) && c.mode.GCM? && IsStreamIv(c, iv)
    ensures var r := After(p, c, requestedTagLength, calls);
            && (r.fed != [] ==> DoAddAssociatedData(p, r.state, data).1 == Err(AssociatedDataAfterUpdate))
            && (c.operation.Decryption? && r.state.isFinished ==> 1 <= |r.finishTag| <= 16)
            && (c.operation.Decryption? && AllUndisturbed(p, c, requestedTagLength, calls) ==>
                  var full := p.gcmTag(c.key, iv, r.aad, r.fed);
                  && (r.state.isFinished ==> r.finishTag == full[..|r.finishTag|])
                  && (DoFinish(p, r.state).1.Ok? ==> 1 <= |r.state.authTag| <= 16 && r.state.authTag <= full))
            && (c.operation.Encryption? && r.state.isFinished && AllUndisturbed(p, c, requestedTagLength, calls) ==>
                  && 1 <= requestedTagLength <= 16
                  && r.finishTag == p.gcmTag(c.key, iv, r.aad, r.returned)[..requestedTagLength])
  {
    assert UsedIv(c) == iv;
    RunFromStart(p, c, requestedTagLength, calls);
    TagLengthKept(p, Start(Initial(c, requestedTagLength)), calls);
  }

  /** A decryptor whose accepted input has a one-shot result completes it. */
  lemma FinishCompletes(p: Primitives, d: Run, m: seq<byte>)
    requires Coherent(p, d) && Open(d.state) && d.state.config.operation.Decryption?
    requires OneShot(p, d.state.config, d.fed, d.aad, d.state.authTag) == Some(m)
    ensures var d' := Perform(p, d, CallFinish); d'.state.isFinished && d'.returned == m
  {
    CompletedOutput(p, d);
  }

  /** The decryptor `d` has accepted what the finished encryptor `e` has given out. */
  predicate Received(e: Run, d: Run) {
    && e.state.isFinished && !d.state.isFinished
    && d.fed == e.returned
    && (e.state.config.mode.GCM? ==> d.aad == e.aad && d.state.authTag == e.finishTag)
  }

  lemma RoundTripOfRuns(p: Primitives, e: Run, d: Run)
    requires IsPermutation(p.block) && Coherent(p, e) && Coherent(p, d) && Received(e, d)
    requires e.state.config.operation.Encryption? && IvSuffices(e.state.config)
    requires !e.state.context.UnknownContext? && Open(d.state) && SameSettings(e.state.config, d.state.config)
    ensures var d' := Perform(p, d, CallFinish); d'.state.isFinished && d'.returned == e.fed
  {
    var c, c' := e.state.config, d.state.config;
    OneShotRoundTrip(p, c, c', e.fed, e.aad, e.finishTag);
    AuthenticationOnlyForGcm(p, c', d.fed, d.aad, d.state.authTag, e.aad, e.finishTag);
    assert OneShot(p, c', d.fed, d.aad, d.state.authTag) == Some(e.fed);
    FinishCompletes(p, d, e.fed);
  }

  /**
   * Every mode, every chunking on both sides: once a decryptor with the encryptor's settings has accepted exactly
   * the encryptor's output (and, for GCM, its associated data and tag), `finish` completes the plaintext.
   */
  lemma StreamRoundTrip(
      p: Primitives, c: Config, tagLength: nat, encryption: seq<Call>, c': Config, otherLength: nat,
      decryption: seq<Call>)
    requires IsPermutation(p.block) && ValidConfig(c) && ValidConfig(c') && c.operation.Encryption?
    requires SameSettings(c, c') && IvSuffices(c) && OffersAll(c, encryption) && OffersAll(c, decryption)
    requires AllUndisturbed(p, c, tagLength, encryption) && AllUndisturbed(p, c', otherLength, decryption)
    ensures var e, d := After(p, c, tagLength, encryption), After(p, c', otherLength, decryption);
            Received(e, d) ==>
            var d' := Perform(p, d, CallFinish);
            d'.state.isFinished && d'.returned == e.fed
  {
    RunFromStart(p, c, tagLength, encryption);
    RunFromStart(p, c', otherLength, decryption);
    var e, d := After(p, c, tagLength, encryption), After(p, c', otherLength, decryption);
    if Received(e, d) {
      RoundTripOfRuns(p, e, d);
    }
  }

  // ---- which calls throw ----

  /** What an open cipher refuses: messages too long for an `int` with two blocks to spare, and late associated data. */
  lemma OpenRefusals(p: Primitives, s: State, message: seq<byte>, data: seq<byte>)
    requires Open(s)
    ensures DoUpdate(p, s, message).1 == if |message| > 0x7fff_ffff - 32 then Err(MessageTooBig) else Ok(())
    ensures s.config.mode.GCM? ==>
              var r := DoAddAssociatedData(p, s, data).1;
              && (s.isUpdated ==> r == Err(AssociatedDataAfterUpdate))
              && (!s.isUpdated && IsAssociatedData(data) ==> r == Ok(()))
  {
  }

  /** What a finished cipher refuses: everything but reads. */
  lemma FinishedRefusals(p: Primitives, s: State, message: seq<byte>, data: seq<byte>)
    requires Valid(s) && s.isFinished
    ensures DoUpdate(p, s, message) == (s, Err(UpdateAfterFinish))
    ensures DoFinish(p, s) == (s, Err(FinishedTwice))
    ensures s.config.mode.GCM? ==>
              DoAddAssociatedData(p, s, data) ==
              (s, Err(if s.isUpdated then AssociatedDataAfterUpdate else AssociatedDataAfterFinish))
  {
  }

  /** A read returns the oldest bytes, as many as asked for where there are as many, and leaves the rest. */
  lemma ReadExactly(s: State, requested: nat)
    ensures var (s', out) := DoRead(s, requested);
            && out + s'.pending == s.pending && s' == s.(pending := s'.pending)
            && (if requested <= |s.pending| then |out| == requested else s'.pending == [])
  {
  }

  // ---- feeding a list of messages ----

  predicate AllFit(messages: seq<seq<byte>>) {
    forall i :: 0 <= i < |messages| ==> |messages[i]| <= MAX_MESSAGE
  }

  function Updates(messages: seq<seq<byte>>): seq<Call> {
    seq(|messages|, i requires 0 <= i < |messages| => CallUpdate(messages[i]))
  }

  lemma UpdateAccepted(p: Primitives, r: Run, message: seq<byte>)
    requires Open(r.state) && |message| <= MAX_MESSAGE
    ensures var r' := Perform(p, r, CallUpdate(message));
            && DoUpdate(p, r.state, message).1.Ok?
            && Open(r'.state) && r'.fed == r.fed + message && r'.aad == r.aad && r'.returned == r.returned
            && r'.state.authTag == r.state.authTag
  {
  }

  /** An open cipher accepts every message that is not too big, and all their bytes. */
  lemma {:induction false} UpdatesAccepted(p: Primitives, r: Run, messages: seq<seq<byte>>)
    requires Open(r.state) && AllFit(messages)
    ensures var r' := PerformAll(p, r, Updates(messages));
            && Open(r'.state)
            && r'.fed == r.fed + Concat(messages) && r'.aad == r.aad && r'.returned == r.returned
            && r'.state.authTag == r.state.authTag
    decreases |messages|
  {
    if messages == [] {
      ConcatNone(r.fed);
    } else {
      ConcatFirst(r.fed, messages);
      var r1 := Perform(p, r, CallUpdate(messages[0]));
      UpdateAccepted(p, r, messages[0]);
      assert Updates(messages)[1..] == Updates(messages[1..]);
      UpdatesAccepted(p, r1, messages[1..]);
    }
  }

  // ---- associated data and payload, in any chunks ----

  predicate AllAssociatedData(chunks: seq<seq<byte>>) {
    forall i :: 0 <= i < |chunks| ==> IsAssociatedData(chunks[i])
  }

  function Authentications(chunks: seq<seq<byte>>): seq<Call> {
    seq(|chunks|, i requires 0 <= i < |chunks| => CallAddAssociatedData(chunks[i]))
  }

  /** Before any payload an authenticated cipher accepts associated data. */
  lemma AssociatedDataAccepted(p: Primitives, r: Run, data: seq<byte>)
    requires Open(r.state) && r.state.config.mode.GCM? && !r.state.isUpdated && IsAssociatedData(data)
    ensures var r' := Perform(p, r, CallAddAssociatedData(data));
            && DoAddAssociatedData(p, r.state, data).1.Ok?
            && Open(r'.state) && !r'.state.isUpdated
            && r'.aad == r.aad + data && r'.fed == r.fed && r'.returned == r.returned
  {
  }

  lemma {:induction false} AllAssociatedDataAccepted(p: Primitives, r: Run, chunks: seq<seq<byte>>)
    requires Open(r.state) && r.state.config.mode.GCM? && !r.state.isUpdated && AllAssociatedData(chunks)
    ensures var r' := PerformAll(p, r, Authentications(chunks));
            && Open(r'.state)
            && r'.aad == r.aad + Concat(chunks) && r'.fed == r.fed && r'.returned == r.returned
    decreases |chunks|
  {
    if chunks == [] {
      ConcatNone(r.aad);
    } else {
      ConcatFirst(r.aad, chunks);
      AssociatedDataAccepted(p, r, chunks[0]);
      assert Authentications(chunks)[1..] == Authentications(chunks[1..]);
      AllAssociatedDataAccepted(p, Perform(p, r, CallAddAssociatedData(chunks[0])), chunks[1..]);
    }
  }

  lemma {:induction false} PerformAllAppend(p: Primitives, r: Run, a: seq<Call>, b: seq<Call>)
    requires Valid(r.state) && OffersAll(r.state.config, a) && OffersAll(r.state.config, b)
    ensures PerformAll(p, r, a + b) == PerformAll(p, PerformAll(p, r, a), b)
    decreases |a|
  {
    if a == [] {
      assert a + b == b;
    } else {
      assert (a + b)[1..] == a[1..] + b;
      PerformAllAppend(p, Perform(p, r, a[0]), a[1..], b);
    }
  }

  /** All associated data, then all payload. */
  function Loading(data: seq<seq<byte>>, messages: seq<seq<byte>>): seq<Call> {
    Authentications(data) + Updates(messages)
  }

  /** A new authenticated cipher takes any associated data and then any payload, in any chunks. */
  lemma LoadingAccepted(p: Primitives, c: Config, tagLength: nat, data: seq<seq<byte>>, messages: seq<seq<byte>>)
    requires ValidConfig(c) && c.mode.GCM? && AllAssociatedData(data) && AllFit(messages)
    ensures var r := After(p, c, tagLength, Loading(data, messages));
            && Coherent(p, r) && Open(r.state)
            && r.aad == Concat(data) && r.fed == Concat(messages) && r.returned == []
  {
    var start := Start(Initial(c, tagLength));
    RunFromStart(p, c, tagLength, Loading(data, messages));
    PerformAllAppend(p, start, Authentications(data), Updates(messages));
    AllAssociatedDataAccepted(p, start, data);
    var authenticated := PerformAll(p, start, Authentications(data));
    UpdatesAccepted(p, authenticated, messages);
    ConcatNone(Concat(data));
    ConcatNone(Concat(messages));
  }

  /** An authenticated encryptor finishes exactly with a tag length that GCM can give. */
  lemma EncryptionFinishes(p: Primitives, r: Run)
    requires Coherent(p, r) && Open(r.state) && r.state.config.mode.GCM? && r.state.config.operation.Encryption?
    requires 1 <= r.state.requestedTagLength <= 16
    ensures var e := Perform(p, r, CallFinish);
            e.state.isFinished && !e.state.context.UnknownContext? && e.fed == r.fed && e.aad == r.aad
  {
  }

  lemma {:induction false} TagLengthKept(p: Primitives, r: Run, calls: seq<Call>)
    requires Valid(r.state) && OffersAll(r.state.config, calls)
    ensures PerformAll(p, r, calls).state.requestedTagLength == r.state.requestedTagLength
    decreases |calls|
  {
    if calls != [] {
      TagLengthKept(p, Perform(p, r, calls[0]), calls[1..]);
    }
  }

  /** Encryption of a payload with associated data, in the given chunks. */
  function GcmEncryption(p: Primitives, c: Config, tagLength: nat, data: seq<seq<byte>>, messages: seq<seq<byte>>): Run
    requires ValidConfig(c) && c.mode.GCM?
  {
    Perform(p, After(p, c, tagLength, Loading(data, messages)), CallFinish)
  }

  function GcmDecryption(p: Primitives, c: Config, data: seq<seq<byte>>, messages: seq<seq<byte>>, tag: seq<byte>): Run
    requires ValidConfig(c) && c.mode.GCM?
  {
    Perform(p, Perform(p, After(p, c, 16, Loading(data, messages)), CallSetAuthTag(tag)), CallFinish)
  }

  /** Encryption finishes, with a tag of the length asked for. */
  lemma GcmEncrypts(p: Primitives, c: Config, tagLength: nat, data: seq<seq<byte>>, messages: seq<seq<byte>>)
    requires ValidConfig(c) && c.mode.GCM? && c.operation.Encryption? && 1 <= tagLength <= 16
    requires AllAssociatedData(data) && AllFit(messages)
    ensures var e := GcmEncryption(p, c, tagLength, data, messages);
            && Coherent(p, e) && e.state.isFinished && !e.state.context.UnknownContext? && e.state.config == c
            && e.fed == Concat(messages) && e.aad == Concat(data) && |e.finishTag| == tagLength
  {
    LoadingAccepted(p, c, tagLength, data, messages);
    var r := After(p, c, tagLength, Loading(data, messages));
    TagLengthKept(p, Start(Initial(c, tagLength)), Loading(data, messages));
    EncryptionFinishes(p, r);
    PerformCoherent(p, r, CallFinish);
  }

  lemma TagIsSet(p: Primitives, d: Run, tag: seq<byte>)
    requires Coherent(p, d) && Open(d.state) && d.state.config.mode.GCM?
    ensures var d' := Perform(p, d, CallSetAuthTag(tag));
            && Coherent(p, d') && Open(d'.state) && d'.state.config == d.state.config
            && d'.fed == d.fed && d'.aad == d.aad && d'.state.authTag == tag
  {
    PerformCoherent(p, d, CallSetAuthTag(tag));
  }

  /** A decryptor that is given the output, associated data and tag of a finished encryption returns its payload. */
  lemma GcmDecrypts(p: Primitives, e: Run, c': Config, data: seq<seq<byte>>, messages: seq<seq<byte>>)
    requires IsPermutation(p.block) && Coherent(p, e) && e.state.isFinished && !e.state.context.UnknownContext?
    requires e.state.config.operation.Encryption? && e.state.config.mode.GCM? && IvSuffices(e.state.config)
    requires ValidConfig(c') && SameSettings(e.state.config, c') && AllAssociatedData(data) && AllFit(messages)
    requires Concat(data) == e.aad && Concat(messages) == e.returned
    ensures var d := GcmDecryption(p, c', data, messages, e.finishTag);
            d.state.isFinished && d.returned == e.fed
  {
    LoadingAccepted(p, c', 16, data, messages);
    var d := After(p, c', 16, Loading(data, messages));
    TagIsSet(p, d, e.finishTag);
    RoundTripOfRuns(p, e, Perform(p, d, CallSetAuthTag(e.finishTag)));
  }

  /**
   * The authenticated round trip: with a decryptor of the same settings, for all associated data and every
   * payload, each cut into any chunks on either side, and every tag length.
   */
  lemma GcmRoundTrip(
      p: Primitives, c: Config, c': Config, tagLength: nat, data: seq<seq<byte>>, messages: seq<seq<byte>>,
      data': seq<seq<byte>>, messages': seq<seq<byte>>)
    requires IsPermutation(p.block) && ValidConfig(c) && ValidConfig(c') && SameSettings(c, c')
    requires c.mode.GCM? && c.operation.Encryption? && IvSuffices(c) && 1 <= tagLength <= 16
    requires AllAssociatedData(data) && AllAssociatedData(data') && AllFit(messages) && AllFit(messages')
    ensures var e := GcmEncryption(p, c, tagLength, data, messages);
            && e.state.isFinished && |e.finishTag| == tagLength
            && (Concat(data') == Concat(data) && Concat(messages') == e.returned ==>
                  var d := GcmDecryption(p, c', data', messages', e.finishTag);
                  d.state.isFinished && d.returned == Concat(messages))
  {
    GcmEncrypts(p, c, tagLength, data, messages);
    var e := GcmEncryption(p, c, tagLength, data, messages);
    if Concat(data') == Concat(data) && Concat(messages') == e.returned {
      GcmDecrypts(p, e, c', data', messages');
    }
  }
}
