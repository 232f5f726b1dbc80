/**
 * The OpenSSL cipher context that `AESCipher` drives, as a small state machine, next to the one-shot meaning
 * of each mode; the lemmas say that feeding a context in pieces computes the one-shot meaning.
 */
module EvpCipher {
  import opened Bytes
  import opened Cbc

  datatype Mode = GCM | CBC | CTR
  datatype Padding = NO | PKCS
  datatype Operation = Encryption | Decryption

  type Tag = t: seq<byte> | |t| == 16 witness seq(16, _ => 0)

  /** What a context has been given by one call of OpenSSL. */
  datatype Touch = Fed(input: seq<byte>) | Authenticated(data: seq<byte>) | Finalized(tag: seq<byte>)

  /**
   * AES, seen from outside: a block permutation, a key stream per counter mode, and the GCM tag. `respond` and
   * `laterTag` stand for whatever a GCM context does of which nothing is known, given all it has been through.
   */
  datatype Primitives = Primitives(
    block: Permutation,
    keystream: (Mode, seq<byte>, seq<byte>, nat) -> byte,
    gcmTag: (seq<byte>, seq<byte>, seq<byte>, seq<byte>) -> Tag,
    respond: (Config, seq<Touch>) -> Option<seq<byte>>,
    laterTag: (Config, seq<Touch>) -> Tag)

  /** What a cipher is made from. `beyond` holds the bytes that follow the IV in memory, where they are read. */
  datatype Config = Config(
    mode: Mode, padding: Padding, key: seq<byte>, iv: seq<byte>, beyond: seq<byte>, operation: Operation)

  /** The length of a GCM IV in a context that was told no other. */
  const GCM_IV: nat := 12

  function Missing(iv: seq<byte>): nat {
    if |iv| < GCM_IV then GCM_IV - |iv| else 0
  }

  /** The IV lengths that survive the checks of the cipher's constructor. */
  predicate ValidConfig(c: Config) {
    match c.mode
    case GCM => c.iv != [] && |c.beyond| == Missing(c.iv)
    case CBC => |c.iv| == BLOCK && c.beyond == []
    case CTR => |c.iv| == BLOCK && c.beyond == []
  }

  /**
   * The IV that reaches the cipher. The constructor sets the length of a GCM IV and then resets the context, which
   * forgets it: twelve bytes are read, from behind the IV's end where it is shorter.
   */
  function UsedIv(c: Config): seq<byte> {
    var all := c.iv + c.beyond;
    if c.mode.GCM? && |all| > GCM_IV then all[..GCM_IV] else all
  }

  function XorStream(p: Primitives, c: Config, from: nat, data: seq<byte>): seq<byte> {
    var iv := UsedIv(c);
    seq(|data|, i requires 0 <= i < |data| => Xor(data[i], p.keystream(c.mode, c.key, iv, from + i)))
  }

  predicate TagAccepted(p: Primitives, c: Config, aad: seq<byte>, ciphertext: seq<byte>, tag: seq<byte>) {
    && 1 <= |tag| <= 16
    && tag == p.gcmTag(c.key, UsedIv(c), aad, ciphertext)[..|tag|]
  }

  /** What the mode means, on the whole input at once. */
  function OneShot(p: Primitives, c: Config, data: seq<byte>, aad: seq<byte>, tag: seq<byte>): Option<seq<byte>>
    requires ValidConfig(c)
  {
    match (c.mode, c.operation)
    case (CTR, _) => Some(XorStream(p, c, 0, data))
    case (GCM, Encryption) => Some(XorStream(p, c, 0, data))
    case (GCM, Decryption) => if TagAccepted(p, c, aad, data, tag) then Some(XorStream(p, c, 0, data)) else None
    case (CBC, Encryption) =>
      var padded := if c.padding.PKCS? then data + PaddingFor(|data|) else data;
      if Aligned(padded) then Some(Encrypt(p.block, c.key, c.iv, padded)) else None
    case (CBC, Decryption) =>
      if !Aligned(data) || (c.padding.PKCS? && data == []) then None else
      var m := Decrypt(p.block, c.key, c.iv, data);
      if c.padding.PKCS? then Unpad(m) else Some(m)
  }

  /** The IV of a stream: all of it, except that GCM reads exactly twelve bytes. */
  predicate IsStreamIv(c: Config, iv: seq<byte>) {
    && (c.mode.CTR? ==> iv == c.iv)
    && (c.mode.GCM? ==> |iv| == 12 && (if |c.iv| >= 12 then iv <= c.iv else iv == c.iv + c.beyond))
  }

  /** CTR and GCM combine each byte with the key stream at its position; GCM decryption demands the right tag. */
  lemma StreamExactly(p: Primitives, c: Config, data: seq<byte>, aad: seq<byte>, tag: seq<byte>, iv: seq<byte>)
    requires ValidConfig(c) && !c.mode.CBC? && IsStreamIv(c, iv)
    ensures var r := OneShot(p, c, data, aad, tag);
            && (r.None? <==>
                  && c.mode.GCM? && c.operation.Decryption?
                  && !(1 <= |tag| <= 16 && tag <= p.gcmTag(c.key, iv, aad, data)))
            && (r.Some? ==>
                  && |r.value| == |data|
                  && forall i :: 0 <= i < |data| ==> r.value[i] == Xor(data[i], p.keystream(c.mode, c.key, iv, i)))
  {
    assert UsedIv(c) == iv;
  }

  // ---- the context ----

  /**
   * Nothing is known of a GCM context once finalizing it has failed, or once it was given associated data that
   * OpenSSL does not take as such.
   */
  datatype Context =
    | CbcContext(chain: Block, held: seq<byte>)
    | StreamContext(position: nat, aad: seq<byte>, ciphertext: seq<byte>)
    | UnknownContext(history: seq<Touch>)

  function Fresh(c: Config): Context
    requires ValidConfig(c)
  {
    if c.mode.CBC? then CbcContext(c.iv, []) else StreamContext(0, [], [])
  }

  predicate Fits(c: Config, ctx: Context) {
    ValidConfig(c) && (ctx.CbcContext? <==> c.mode.CBC?) && (ctx.UnknownContext? ==> c.mode.GCM?)
  }

  /**
   * How many of `n` pending bytes CBC may process now. Encryption holds back a partial block; decryption with
   * padding also holds back the last full block, which may turn out to hold the padding.
   */
  function Ready(c: Config, n: nat): (r: nat)
    ensures r <= n && r % BLOCK == 0
  {
    var countable := if c.operation.Decryption? && c.padding.PKCS? && n > 0 then n - 1 else n;
    countable - countable % BLOCK
  }

  function Touches(ctx: Context): seq<Touch>
    requires !ctx.CbcContext?
  {
    match ctx
    case StreamContext(_, aad, ciphertext) => [Authenticated(aad), Fed(ciphertext)]
    case UnknownContext(history) => history
  }

  /** A call on a context of which nothing is known, or of which nothing is known from this call on. */
  function Unforeseen(p: Primitives, c: Config, ctx: Context, touch: Touch): (Context, Option<seq<byte>>)
    requires !ctx.CbcContext?
  {
    var history := Touches(ctx) + [touch];
    (UnknownContext(history), p.respond(c, history))
  }

  /** EVP_CipherUpdate with an output buffer. */
  function Update(p: Primitives, c: Config, ctx: Context, input: seq<byte>): (r: (Context, Option<seq<byte>>))
    requires Fits(c, ctx)
    ensures Fits(c, r.0)
  {
    match ctx
    case CbcContext(chain, held) =>
      var all := held + input;
      var now, later := all[..Ready(c, |all|)], all[Ready(c, |all|)..];
      if c.operation.Encryption? then
        var out := Encrypt(p.block, c.key, chain, now);
        (CbcContext(LastBlock(chain, out), later), Some(out))
      else
        (CbcContext(LastBlock(chain, now), later), Some(Decrypt(p.block, c.key, chain, now)))
    case StreamContext(position, aad, ciphertext) =>
      var out := XorStream(p, c, position, input);
      var seen := if c.operation.Encryption? then out else input;
      (StreamContext(position + |input|, aad, ciphertext + seen), Some(out))
    case UnknownContext(_) => Unforeseen(p, c, ctx, Fed(input))
  }

  /** No data may be no pointer, which asks OpenSSL to finalize; and the length is passed as an `int`. */
  predicate IsAssociatedData(data: seq<byte>) {
    1 <= |data| <= INT_MAX
  }

  /** EVP_CipherUpdate without an output buffer, as GCM uses it for associated data. */
  function Authenticate(p: Primitives, c: Config, ctx: Context, data: seq<byte>): (r: (Context, Option<seq<byte>>))
    requires Fits(c, ctx) && c.mode.GCM?
    ensures Fits(c, r.0)
  {
    if ctx.StreamContext? && IsAssociatedData(data) then (ctx.(aad := ctx.aad + data), Some([]))
    else Unforeseen(p, c, ctx, Authenticated(data))
  }

  /**
   * EVP_CipherFinal_ex; `tag` is what EVP_CTRL_GCM_SET_TAG has set. Where it succeeds, the cipher makes no
   * more use of the context than to ask for the tag.
   */
  function Final(p: Primitives, c: Config, ctx: Context, tag: seq<byte>): (r: (Context, Option<seq<byte>>))
    requires Fits(c, ctx)
    ensures Fits(c, r.0)
  {
    match ctx
    case CbcContext(chain, held) =>
      (ctx,
       if c.padding.NO? then if held == [] then Some([]) else None
       else if c.operation.Encryption? then Some(Encrypt(p.block, c.key, chain, held + PaddingFor(|held|)))
       else if |held| != BLOCK then None
       else Unpad(Decrypt(p.block, c.key, chain, held)))
    case StreamContext(_, aad, ciphertext) =>
      if c.mode.GCM? && c.operation.Decryption? && !TagAccepted(p, c, aad, ciphertext, tag) then
        (Unforeseen(p, c, ctx, Finalized(tag)).0, None)
      else (ctx, Some([]))
    case UnknownContext(_) => Unforeseen(p, c, ctx, Finalized(tag))
  }

  /** EVP_CTRL_GCM_GET_TAG, asked of a finalized context. */
  function GetTag(p: Primitives, c: Config, ctx: Context, length: nat): (r: (Context, Option<seq<byte>>))
    requires Fits(c, ctx) && c.mode.GCM?
    ensures Fits(c, r.0)
  {
    if !(1 <= length <= 16) then (Unforeseen(p, c, ctx, Finalized([])).0, None)
    else if ctx.StreamContext? then (ctx, Some(p.gcmTag(c.key, UsedIv(c), ctx.aad, ctx.ciphertext)[..length]))
    else (ctx, Some(p.laterTag(c, ctx.history)[..length]))
  }

  // ---- a context fed in pieces ----

  /** The context that has consumed exactly `data`. */
  function ContextAfter(p: Primitives, c: Config, data: seq<byte>, aad: seq<byte>): Context
    requires ValidConfig(c)
  {
    if c.mode.CBC? then
      var n := Ready(c, |data|);
      CbcContext(
        if c.operation.Encryption? then LastBlock(c.iv, Encrypt(p.block, c.key, c.iv, data[..n]))
        else LastBlock(c.iv, data[..n]),
        data[n..])
    else
      StreamContext(|data|, aad, if c.operation.Encryption? then XorStream(p, c, 0, data) else data)
  }

  /** The output a context has released once it has consumed exactly `data`. */
  function Released(p: Primitives, c: Config, data: seq<byte>): seq<byte>
    requires ValidConfig(c)
  {
    if c.mode.CBC? then
      var now := data[..Ready(c, |data|)];
      if c.operation.Encryption? then Encrypt(p.block, c.key, c.iv, now) else Decrypt(p.block, c.key, c.iv, now)
    else
      XorStream(p, c, 0, data)
  }

  /**
   * How much is released at once: everything by a stream, all whole blocks by CBC, but the last one only where no
   * padding can be in it.
   */
  lemma ReleasedSize(p: Primitives, c: Config, data: seq<byte>)
    requires ValidConfig(c)
    ensures var n, held := |Released(p, c, data)|, |data| - |Released(p, c, data)|;
            && (!c.mode.CBC? ==> held == 0)
            && (c.mode.CBC? ==> n % 16 == 0)
            && (c.mode.CBC? && (c.operation.Encryption? || c.padding.NO?) ==> 0 <= held < 16)
            && (c.mode.CBC? && c.operation.Decryption? && c.padding.PKCS? ==>
                  if data == [] then held == 0 else 1 <= held <= 16)
  {
  }

  lemma BlocksShift(blocks: nat, n: nat)
    ensures (blocks * BLOCK + n) / BLOCK * BLOCK == blocks * BLOCK + n / BLOCK * BLOCK
  {
    assert (blocks * BLOCK + n) / BLOCK == blocks + n / BLOCK;
  }

  lemma ReadySplits(c: Config, n: nat, m: nat)
    ensures Ready(c, n) + Ready(c, n - Ready(c, n) + m) == Ready(c, n + m)
  {
    var done := Ready(c, n);
    var left := n - done;
    var blocks := done / BLOCK;
    assert done == blocks * BLOCK;
    if c.operation.Decryption? && c.padding.PKCS? {
      if left + m > 0 {
        BlocksShift(blocks, left + m - 1);
      }
    } else {
      BlocksShift(blocks, left + m);
    }
  }

  lemma LastBlockAppend(iv: Block, a: seq<byte>, b: seq<byte>)
    requires Aligned(a) && Aligned(b)
    ensures LastBlock(iv, a + b) == LastBlock(LastBlock(iv, a), b)
  {
  }

  /** A context cut at the bytes it has processed. */
  lemma CutContext(p: Primitives, c: Config, done: seq<byte>, held: seq<byte>)
    requires ValidConfig(c) && c.mode.CBC? && |done| == Ready(c, |done + held|)
    ensures Aligned(done)
    ensures c.operation.Encryption? ==>
              var out := Encrypt(p.block, c.key, c.iv, done);
              && Released(p, c, done + held) == out
              && ContextAfter(p, c, done + held, []) == CbcContext(LastBlock(c.iv, out), held)
    ensures c.operation.Decryption? ==>
              && Released(p, c, done + held) == Decrypt(p.block, c.key, c.iv, done)
              && ContextAfter(p, c, done + held, []) == CbcContext(LastBlock(c.iv, done), held)
  {
    assert (done + held)[..|done|] == done && (done + held)[|done|..] == held;
  }

  /** What is processed and held back before and after `input`. */
  lemma CutAgain(c: Config, data: seq<byte>, input: seq<byte>)
    returns (before: seq<byte>, held: seq<byte>, now: seq<byte>, later: seq<byte>)
    ensures data == before + held && |before| == Ready(c, |before + held|)
    ensures held + input == now + later && |now| == Ready(c, |held + input|)
    ensures data + input == before + now + later && |before + now| == Ready(c, |before + now + later|)
  {
    before, held := data[..Ready(c, |data|)], data[Ready(c, |data|)..];
    var all := held + input;
    now, later := all[..Ready(c, |all|)], all[Ready(c, |all|)..];
    ReadySplits(c, |data|, |input|);
    assert data + input == before + all == before + now + later;
  }

  lemma CutUpdate(p: Primitives, c: Config, chain: Block, held: seq<byte>, input: seq<byte>, now: seq<byte>, later: seq<byte>)
    requires ValidConfig(c) && c.mode.CBC? && held + input == now + later && |now| == Ready(c, |held + input|)
    ensures c.operation.Encryption? ==>
              var out := Encrypt(p.block, c.key, chain, now);
              Update(p, c, CbcContext(chain, held), input) == (CbcContext(LastBlock(chain, out), later), Some(out))
    ensures c.operation.Decryption? ==>
              Update(p, c, CbcContext(chain, held), input) ==
              (CbcContext(LastBlock(chain, now), later), Some(Decrypt(p.block, c.key, chain, now)))
  {
    assert (now + later)[..|now|] == now && (now + later)[|now|..] == later;
  }

  lemma CbcUpdate(p: Primitives, c: Config, data: seq<byte>, input: seq<byte>)
    requires ValidConfig(c) && c.mode.CBC?
    ensures var r := Update(p, c, ContextAfter(p, c, data, []), input);
            && r.0 == ContextAfter(p, c, data + input, [])
            && r.1.Some?
            && Released(p, c, data + input) == Released(p, c, data) + r.1.value
  {
    var before, held, now, later := CutAgain(c, data, input);
    CutContext(p, c, before, held);
    CutContext(p, c, before + now, later);
    if c.operation.Encryption? {
      var done := Encrypt(p.block, c.key, c.iv, before);
      var chain := LastBlock(c.iv, done);
      CutUpdate(p, c, chain, held, input, now, later);
      EncryptAppend(p.block, c.key, c.iv, before, now);
      LastBlockAppend(c.iv, done, Encrypt(p.block, c.key, chain, now));
    } else {
      CutUpdate(p, c, LastBlock(c.iv, before), held, input, now, later);
      DecryptAppend(p.block, c.key, c.iv, before, now);
      LastBlockAppend(c.iv, before, now);
    }
  }

  /** Feeding `input` after `data` releases exactly what is missing from the output for `data + input`. */
  lemma UpdateContinues(p: Primitives, c: Config, data: seq<byte>, aad: seq<byte>, input: seq<byte>)
    requires ValidConfig(c)
    ensures var r := Update(p, c, ContextAfter(p, c, data, aad), input);
            && r.0 == ContextAfter(p, c, data + input, aad)
            && r.1.Some?
            && Released(p, c, data + input) == Released(p, c, data) + r.1.value
  {
    if c.mode.CBC? {
      CbcUpdate(p, c, data, input);
    } else {
      var whole := XorStream(p, c, 0, data + input);
      assert whole == XorStream(p, c, 0, data) + XorStream(p, c, |data|, input);
    }
  }

  lemma CbcFinalEncrypts(p: Primitives, c: Config, data: seq<byte>)
    requires ValidConfig(c) && c.mode.CBC? && c.operation.Encryption?
    ensures var tail := Final(p, c, ContextAfter(p, c, data, []), []).1;
            OneShot(p, c, data, [], []) == if tail.Some? then Some(Released(p, c, data) + tail.value) else None
  {
    var n := Ready(c, |data|);
    var rest := data[n..];
    assert data == data[..n] + rest;
    if c.padding.PKCS? {
      assert PaddingFor(|data|) == PaddingFor(|rest|);
      assert data + PaddingFor(|data|) == data[..n] + (rest + PaddingFor(|rest|));
      EncryptAppend(p.block, c.key, c.iv, data[..n], rest + PaddingFor(|rest|));
    } else if Aligned(data) {
      assert data[..n] == data && Released(p, c, data) + [] == Released(p, c, data);
    }
  }

  /** With padding, the last full block is held back, and holds the padding. */
  lemma PaddedFinalDecrypts(p: Primitives, c: Config, done: seq<byte>, last: Block)
    requires ValidConfig(c) && c.mode.CBC? && c.operation.Decryption? && c.padding.PKCS? && Aligned(done)
    ensures var data := done + last;
            var tail := Final(p, c, ContextAfter(p, c, data, []), []).1;
            OneShot(p, c, data, [], []) == if tail.Some? then Some(Released(p, c, data) + tail.value) else None
  {
    CutContext(p, c, done, last);
    DecryptAppend(p.block, c.key, c.iv, done, last);
    UnpadLastBlock(Decrypt(p.block, c.key, c.iv, done), Decrypt(p.block, c.key, LastBlock(c.iv, done), last));
  }

  lemma CbcFinalDecrypts(p: Primitives, c: Config, data: seq<byte>)
    requires ValidConfig(c) && c.mode.CBC? && c.operation.Decryption?
    ensures var tail := Final(p, c, ContextAfter(p, c, data, []), []).1;
            OneShot(p, c, data, [], []) == if tail.Some? then Some(Released(p, c, data) + tail.value) else None
  {
    var n := Ready(c, |data|);
    var done, rest := data[..n], data[n..];
    assert data == done + rest;
    if c.padding.PKCS? && data != [] && Aligned(data) {
      PaddedFinalDecrypts(p, c, done, rest);
    } else if c.padding.NO? && Aligned(data) {
      assert done == data && Released(p, c, data) + [] == Released(p, c, data);
    }
  }

  /** Finalizing completes the released output to the one-shot result, and fails exactly when that has none. */
  lemma FinalCompletes(p: Primitives, c: Config, data: seq<byte>, aad: seq<byte>, tag: seq<byte>)
    requires ValidConfig(c)
    ensures var tail := Final(p, c, ContextAfter(p, c, data, aad), tag).1;
            OneShot(p, c, data, aad, tag) == if tail.Some? then Some(Released(p, c, data) + tail.value) else None
  {
    if c.mode.CBC? {
      if c.operation.Encryption? {
        CbcFinalEncrypts(p, c, data);
      } else {
        CbcFinalDecrypts(p, c, data);
      }
    } else {
      assert Released(p, c, data) + [] == Released(p, c, data);
    }
  }

  // ---- decryption inverts encryption ----

  /** The decryptor that matches an encryptor: the same mode, padding, key and IV. */
  function Inverse(c: Config): Config {
    c.(operation := if c.operation.Encryption? then Decryption else Encryption)
  }

  lemma XorStreamCancels(p: Primitives, c: Config, from: nat, data: seq<byte>)
    ensures XorStream(p, Inverse(c), from, XorStream(p, c, from, data)) == data
  {
    forall i | 0 <= i < |data|
      ensures XorStream(p, Inverse(c), from, XorStream(p, c, from, data))[i] == data[i]
    {
      XorCancels(data[i], p.keystream(c.mode, c.key, UsedIv(c), from + i));
    }
  }

  /** Padding makes every plaintext encryptable, at the price of one to sixteen bytes. */
  lemma PaddingAlwaysEncrypts(p: Primitives, c: Config, m: seq<byte>, aad: seq<byte>, tag: seq<byte>)
    requires ValidConfig(c) && c.operation.Encryption? && c.mode.CBC? && c.padding.PKCS?
    ensures var r := OneShot(p, c, m, aad, tag);
            r.Some? && |r.value| == (|m| / BLOCK + 1) * BLOCK
  {
    assert (|m| + |PaddingFor(|m|)|) == (|m| / BLOCK + 1) * BLOCK;
  }

  lemma CbcOneShotRoundTrip(p: Primitives, c: Config, m: seq<byte>, aad: seq<byte>, tag: seq<byte>)
    requires IsPermutation(p.block) && ValidConfig(c) && c.mode.CBC? && c.operation.Encryption?
    requires OneShot(p, c, m, aad, tag).Some?
    ensures OneShot(p, Inverse(c), OneShot(p, c, m, aad, tag).value, aad, tag) == Some(m)
  {
    var padded := if c.padding.PKCS? then m + PaddingFor(|m|) else m;
    DecryptInvertsEncrypt(p.block, c.key, c.iv, padded);
    UnpadInvertsPadding(m);
  }

  function Directed(c: Config, operation: Operation): Config {
    c.(operation := operation)
  }

  lemma UnpaddedEncryptsBack(p: Primitives, c: Config, m: seq<byte>)
    requires IsPermutation(p.block) && ValidConfig(c) && c.mode.CBC? && c.padding.PKCS?
    requires OneShot(p, Directed(c, Decryption), m, [], []).Some?
    ensures var x := OneShot(p, Directed(c, Decryption), m, [], []).value;
            |m| % BLOCK == 0 && |x| < |m| && OneShot(p, Directed(c, Encryption), x, [], []) == Some(m)
  {
    var d := Decrypt(p.block, c.key, c.iv, m);
    PaddingInvertsUnpad(d);
    EncryptInvertsDecrypt(p.block, c.key, c.iv, m);
  }

  /** CBC encryption: of the padded message where the cipher pads, and otherwise of whole blocks only. */
  lemma CbcExactly(p: Primitives, c: Config, m: seq<byte>) returns (padded: seq<byte>)
    requires ValidConfig(c) && c.mode.CBC?
    ensures var r := OneShot(p, Directed(c, Encryption), m, [], []);
            && (r.Some? <==> c.padding.PKCS? || |m| % 16 == 0)
            && (r.Some? ==> Aligned(padded) && r.value == Encrypt(p.block, c.key, c.iv, padded))
    ensures if c.padding.PKCS? then Unpad(padded) == Some(m) else padded == m
  {
    padded := if c.padding.PKCS? then m + PaddingFor(|m|) else m;
    UnpadInvertsPadding(m);
  }

  /** CBC decryption returns exactly the message whose encryption it was given, and otherwise throws. */
  lemma CbcInverse(p: Primitives, c: Config, m: seq<byte>, ct: seq<byte>)
    requires IsPermutation(p.block) && ValidConfig(c) && c.mode.CBC?
    ensures OneShot(p, Directed(c, Decryption), ct, [], []) == Some(m) <==>
            OneShot(p, Directed(c, Encryption), m, [], []) == Some(ct)
  {
    if OneShot(p, Directed(c, Encryption), m, [], []) == Some(ct) {
      CbcOneShotRoundTrip(p, Directed(c, Encryption), m, [], []);
    }
    if OneShot(p, Directed(c, Decryption), ct, [], []) == Some(m) {
      if c.padding.PKCS? {
        UnpaddedEncryptsBack(p, c, ct);
      } else {
        EncryptInvertsDecrypt(p.block, c.key, c.iv, ct);
      }
    }
  }

  /**
   * Two passes of a padding cipher, each in either direction: encryption always succeeds and lengthens, decryption
   * shortens if it succeeds, and the second pass undoes the first exactly if they go in opposite directions.
   */
  lemma TwoPasses(p: Primitives, c: Config, m: seq<byte>, first: Operation, second: Operation)
    requires IsPermutation(p.block) && ValidConfig(c) && c.mode.CBC? && c.padding.PKCS?
    ensures var x := OneShot(p, Directed(c, first), m, [], []);
            && (first.Encryption? ==> x.Some? && |m| < |x.value| <= |m| + BLOCK)
            && (first.Decryption? && x.Some? ==> |m| % BLOCK == 0 && |x.value| < |m|)
            && (x.Some? ==>
                  var y := OneShot(p, Directed(c, second), x.value, [], []);
                  && (y == Some(m) <==> first != second)
                  && (second.Encryption? ==> y.Some? && |y.value| > |x.value|))
  {
    var x := OneShot(p, Directed(c, first), m, [], []);
    if first.Encryption? {
      PaddingAlwaysEncrypts(p, Directed(c, first), m, [], []);
      CbcOneShotRoundTrip(p, Directed(c, first), m, [], []);
    } else if x.Some? {
      UnpaddedEncryptsBack(p, c, m);
    }
    if x.Some? {
      if second.Encryption? {
        PaddingAlwaysEncrypts(p, Directed(c, second), x.value, [], []);
      } else if first.Decryption? && OneShot(p, Directed(c, second), x.value, [], []).Some? {
        UnpaddedEncryptsBack(p, c, x.value);
      }
    }
  }

  /** The same in all a caller chooses, for the opposite direction. */
  predicate SameSettings(c: Config, d: Config) {
    d.mode == c.mode && d.padding == c.padding && d.key == c.key && d.iv == c.iv && d.operation != c.operation
  }

  /** The IV reaches the cipher whole, or cut, but nothing else does. */
  predicate IvSuffices(c: Config) {
    c.mode.GCM? ==> |c.iv| >= GCM_IV
  }

  /** In every mode, decrypting what one-shot encryption returns gives the plaintext back. */
  lemma OneShotRoundTrip(p: Primitives, c: Config, d: Config, m: seq<byte>, aad: seq<byte>, tag: seq<byte>)
    requires IsPermutation(p.block) && ValidConfig(c) && ValidConfig(d) && c.operation.Encryption?
    requires SameSettings(c, d) && IvSuffices(c) && OneShot(p, c, m, aad, tag).Some?
    ensures var ct := OneShot(p, c, m, aad, tag).value;
            (c.mode.GCM? ==> TagAccepted(p, c, aad, ct, tag)) ==>
            OneShot(p, d, ct, aad, tag) == Some(m)
  {
    assert d == Inverse(c);
    if c.mode.CBC? {
      CbcOneShotRoundTrip(p, c, m, aad, tag);
    } else {
      XorStreamCancels(p, c, 0, m);
    }
  }

  // ---- how long a GCM IV must be ----

  /** `d` decrypts what `c` makes of a message, given the tag that `c` computes. */
  predicate RoundTrips(p: Primitives, c: Config, d: Config, m: seq<byte>, aad: seq<byte>)
    requires ValidConfig(c) && ValidConfig(d)
  {
    var ct := OneShot(p, c, m, aad, []);
    ct.Some? ==> OneShot(p, d, ct.value, aad, p.gcmTag(c.key, UsedIv(c), aad, ct.value)) == Some(m)
  }

  ghost predicate AlwaysRoundTrips(c: Config)
    requires ValidConfig(c)
  {
    forall p: Primitives, d: Config, m: seq<byte>, aad: seq<byte> |
        IsPermutation(p.block) && ValidConfig(d) && SameSettings(c, d) ::
      RoundTrips(p, c, d, m, aad)
  }

  /** A full tag is accepted, and plays no part in encryption. */
  lemma OwnTagRoundTrips(p: Primitives, c: Config, d: Config, m: seq<byte>, aad: seq<byte>)
    requires IsPermutation(p.block) && ValidConfig(c) && ValidConfig(d) && c.operation.Encryption?
    requires SameSettings(c, d) && IvSuffices(c)
    ensures RoundTrips(p, c, d, m, aad)
  {
    var ct := OneShot(p, c, m, aad, []);
    if ct.Some? {
      var tag := p.gcmTag(c.key, UsedIv(c), aad, ct.value);
      assert tag[..|tag|] == tag;
      assert OneShot(p, c, m, aad, tag) == ct;
      OneShotRoundTrip(p, c, d, m, aad, tag);
    }
  }

  /** Primitives with a key stream of ones after one IV and of zeros after every other. */
  function OnesAfter(iv: seq<byte>): Primitives {
    Primitives(
      Permutation((_, b) => b, (_, b) => b),
      (_, _, other, _) => if other == iv then 1 else 0,
      (_, _, _, _) => seq(16, _ => 0),
      (_, _) => None,
      (_, _) => seq(16, _ => 0))
  }

  function Changed(b: byte): byte {
    if b == 0 then 1 else 0
  }

  lemma {:induction false} XorOfZeros(width: nat)
    requires 0 < Pow2(width)
    ensures XorBits(width, 0, 0) == 0
  {
    if width > 0 {
      XorOfZeros(width - 1);
    }
  }

  lemma XorOfBits()
    ensures Xor(0, 1) == 1 && Xor(1, 0) == 1
  {
    assert Pow2(8) == 256;
    XorOfZeros(7);
  }

  lemma XorStreamOfOne(p: Primitives, c: Config, b: byte)
    ensures XorStream(p, c, 0, [b]) == [Xor(b, p.keystream(c.mode, c.key, UsedIv(c), 0))]
  {
  }

  /** Other bytes behind a short IV are another IV. */
  lemma OtherMemory(c: Config) returns (d: Config)
    requires ValidConfig(c) && c.mode.GCM? && |c.iv| < GCM_IV
    ensures ValidConfig(d) && SameSettings(c, d) && UsedIv(d) != UsedIv(c)
  {
    d := Inverse(c).(beyond := [Changed(c.beyond[0])] + c.beyond[1..]);
    assert UsedIv(d)[|c.iv|] != UsedIv(c)[|c.iv|];
  }

  /** Two contexts with the same short IV, and different bytes behind it. */
  lemma ShortIvFails(c: Config) returns (p: Primitives, d: Config, m: seq<byte>)
    requires ValidConfig(c) && c.operation.Encryption? && c.mode.GCM? && |c.iv| < GCM_IV
    ensures IsPermutation(p.block) && ValidConfig(d) && SameSettings(c, d) && !RoundTrips(p, c, d, m, [])
  {
    p, m := OnesAfter(UsedIv(c)), [0];
    d := OtherMemory(c);
    XorOfBits();
    XorStreamOfOne(p, c, 0);
    XorStreamOfOne(p, d, 1);
  }

  /** What a caller sets makes every round trip succeed exactly where a GCM IV has at least twelve bytes. */
  lemma RoundTripNeedsIv(c: Config)
    requires ValidConfig(c) && c.operation.Encryption?
    ensures AlwaysRoundTrips(c) <==> IvSuffices(c)
  {
    if !IvSuffices(c) {
      var p, d, m := ShortIvFails(c);
    } else {
      forall p: Primitives, d: Config, m: seq<byte>, aad: seq<byte> |
          IsPermutation(p.block) && ValidConfig(d) && SameSettings(c, d)
        ensures RoundTrips(p, c, d, m, aad)
      {
        OwnTagRoundTrips(p, c, d, m, aad);
      }
    }
  }
}
