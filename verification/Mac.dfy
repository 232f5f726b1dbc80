/** HMAC and CMAC objects: the same life cycle around two different functions. */
module Mac {
  import opened Bytes

  /** HMAC with a digest of the given size, or CMAC with a key of the given size. */
  datatype Kind = HMAC(digestSize: nat) | CMAC(keySize: nat)

  /** The value a kind of MAC assigns to a key and a message. */
  type MacFunction = (Kind, seq<byte>, seq<byte>) -> seq<byte>

  datatype Error =
    | EmptyKey | InvalidKeySize | UpdateAfterFinish | FinishedTwice | LengthDiffers | ValueDiffers
    | LengthNotRepresentable

  datatype State = State(kind: Kind, key: seq<byte>, absorbed: seq<byte>, isFinished: bool, result: seq<byte>)

  /** The value a `size_t` has once it was converted to a 32-bit `int`. */
  function Narrow(length: nat): int {
    var low := length % 0x1_0000_0000;
    if low <= INT_MAX then low else low - 0x1_0000_0000
  }

  /**
   * The part of a message that reaches the MAC context: HMAC's length parameter is an `int`. None where the
   * narrowed length is negative and the original reads out of bounds; the model stops there.
   */
  function Seen(kind: Kind, message: seq<byte>): (r: Option<seq<byte>>)
    ensures r.Some? ==> r.value <= message
    ensures r == Some(message) <==> kind.CMAC? || |message| <= INT_MAX
    ensures r.None? <==> kind.HMAC? && |message| % 0x1_0000_0000 > 0x7fff_ffff
    ensures r.Some? && kind.HMAC? ==> |r.value| == |message| % 0x1_0000_0000
  {
    if kind.CMAC? then Some(message)
    else if Narrow(|message|) < 0 then None
    else
      assert |message| <= INT_MAX ==> message[..Narrow(|message|)] == message;
      Some(message[..Narrow(|message|)])
  }

  /** The checks of the two constructors. */
  function Initial(kind: Kind, key: seq<byte>): Result<State, Error> {
    if kind.HMAC? && key == [] then Err(EmptyKey)
    else if kind.CMAC? && |key| != kind.keySize then Err(InvalidKeySize)
    else Ok(State(kind, key, [], false, []))
  }

  /** Exactly which keys are accepted; a new MAC has that key and has absorbed nothing. */
  lemma InitialExactly(kind: Kind, key: seq<byte>)
    ensures var r := Initial(kind, key);
            && (r.Ok? <==> match kind case HMAC(_) => |key| > 0 case CMAC(size) => |key| == size)
            && (r.Err? ==> r.error == match kind case HMAC(_) => EmptyKey case CMAC(_) => InvalidKeySize)
            && (r.Ok? ==> r.value.kind == kind && r.value.key == key && r.value.absorbed == [] && !r.value.isFinished)
  {
  }

  function DoUpdate(s: State, message: seq<byte>): (State, Result<(), Error>) {
    if s.isFinished then (s, Err(UpdateAfterFinish))
    else
      match Seen(s.kind, message)
      case None => (s, Err(LengthNotRepresentable))
      case Some(m) => (s.(absorbed := s.absorbed + m), Ok(()))
  }

  function DoFinish(f: MacFunction, s: State): (State, Result<seq<byte>, Error>) {
    if s.isFinished then (s, Err(FinishedTwice))
    else
      var result := f(s.kind, s.key, s.absorbed);
      (s.(isFinished := true, result := result), Ok(result))
  }

  /** `verify` finishes the computation itself where that has not happened yet. */
  function DoVerify(f: MacFunction, s: State, value: seq<byte>): (State, Result<(), Error>) {
    var s' := if s.isFinished then s else DoFinish(f, s).0;
    if |value| != |s'.result| then (s', Err(LengthDiffers))
    else if value != s'.result then (s', Err(ValueDiffers))
    else (s', Ok(()))
  }

  // ---- runs of calls ----

  datatype Call = CallUpdate(message: seq<byte>) | CallFinish | CallVerify(value: seq<byte>)

  function Perform(f: MacFunction, s: State, call: Call): State {
    match call
    case CallUpdate(message) => DoUpdate(s, message).0
    case CallFinish => DoFinish(f, s).0
    case CallVerify(value) => DoVerify(f, s, value).0
  }

  function PerformAll(f: MacFunction, s: State, calls: seq<Call>): State
    decreases |calls|
  {
    if calls == [] then s else PerformAll(f, Perform(f, s, calls[0]), calls[1..])
  }

  /** A finished MAC holds the value of everything it absorbed. */
  predicate Coherent(f: MacFunction, s: State) {
    s.isFinished ==> s.result == f(s.kind, s.key, s.absorbed)
  }

  lemma {:induction false} RunCoherent(f: MacFunction, s: State, calls: seq<Call>)
    requires Coherent(f, s)
    ensures var s' := PerformAll(f, s, calls);
            && Coherent(f, s') && s'.kind == s.kind && s'.key == s.key && s.absorbed <= s'.absorbed
            && (s.isFinished ==> s' == s)
    decreases |calls|
  {
    if calls != [] {
      var s1 := Perform(f, s, calls[0]);
      assert s.isFinished ==> s1 == s;
      RunCoherent(f, s1, calls[1..]);
    }
  }

  /**
   * After any run of calls, failing ones included, `verify` returns exactly for the MAC of the absorbed bytes,
   * and from then on the object is frozen: no later call changes what it verifies.
   */
  lemma VerifyIsExact(f: MacFunction, s: State, calls: seq<Call>, value: seq<byte>, later: seq<Call>, other: seq<byte>)
    requires Coherent(f, s)
    ensures var r := PerformAll(f, s, calls);
            var (r', outcome) := DoVerify(f, r, value);
            && (outcome.Ok? <==> value == f(s.kind, s.key, r.absorbed))
            && (outcome == Err(LengthDiffers) <==> |value| != |f(s.kind, s.key, r.absorbed)|)
            && (DoVerify(f, PerformAll(f, r', later), other).1.Ok? <==> other == f(s.kind, s.key, r.absorbed))
  {
    RunCoherent(f, s, calls);
    var r := PerformAll(f, s, calls);
    RunCoherent(f, DoVerify(f, r, value).0, later);
  }

  function Updates(messages: seq<seq<byte>>): seq<Call> {
    seq(|messages|, i requires 0 <= i < |messages| => CallUpdate(messages[i]))
  }

  /** Messages of any number are absorbed in order: the MAC is that of their concatenation. */
  lemma {:induction false} MessagesAbsorbed(f: MacFunction, s: State, messages: seq<seq<byte>>)
    requires !s.isFinished && forall i :: 0 <= i < |messages| ==> |messages[i]| <= INT_MAX
    ensures var r := PerformAll(f, s, Updates(messages));
            && !r.isFinished && r.absorbed == s.absorbed + Concat(messages)
            && DoFinish(f, r).1 == Ok(f(s.kind, s.key, s.absorbed + Concat(messages)))
    decreases |messages|
  {
    if messages == [] {
      ConcatNone(s.absorbed);
    } else {
      ConcatFirst(s.absorbed, messages);
      assert Updates(messages)[1..] == Updates(messages[1..]);
      MessagesAbsorbed(f, Perform(f, s, CallUpdate(messages[0])), messages[1..]);
    }
  }

  class MessageAuthenticationCode {
    const f: MacFunction
    const kind: Kind
    const key: seq<byte>
    var ctx: seq<byte>
    var isFinished: bool
    var result: seq<byte>

    ghost function Model(): State
      reads this
    {
      State(kind, key, ctx, isFinished, result)
    }

    constructor (f: MacFunction, kind: Kind, key: seq<byte>)
      requires Initial(kind, key).Ok?
      ensures this.f == f && Initial(kind, key) == Ok(Model())
    {
      this.f, this.kind, this.key := f, kind, key;
      ctx, isFinished, result := [], false, [];
    }

    method Update(message: seq<byte>) returns (r: Result<(), Error>)
      modifies this
      ensures (Model(), r) == DoUpdate(old(Model()), message)
    {
      if isFinished {
        return Err(UpdateAfterFinish);
      }
      var seen := Seen(kind, message);
      if seen.None? {
        return Err(LengthNotRepresentable);
      }
      ctx := ctx + seen.value;
      r := Ok(());
    }

    method Finish() returns (r: Result<seq<byte>, Error>)
      modifies this
      ensures (Model(), r) == DoFinish(f, old(Model()))
    {
      if isFinished {
        return Err(FinishedTwice);
      }
      result := f(kind, key, ctx);
      isFinished := true;
      r := Ok(result);
    }

    method Verify(value: seq<byte>) returns (r: Result<(), Error>)
      modifies this
      ensures (Model(), r) == DoVerify(f, old(Model()), value)
    {
      if !isFinished {
        var _ := Finish();
      }
      if |value| != |result| {
        return Err(LengthDiffers);
      }
      if value != result {
        return Err(ValueDiffers);
      }
      r := Ok(());
    }
  }
}
