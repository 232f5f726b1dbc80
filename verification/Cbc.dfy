/**
 * Cipher block chaining (section 6.2 of NIST SP 800-38A) with PKCS padding (section 6.3 of RFC 5652)
 * over an abstract block permutation: the textbook meaning the streaming context is held against.
 */
module Cbc {
  import opened Bytes

  const BLOCK: nat := 16

  type Block = b: seq<byte> | |b| == 16 witness seq(16, _ => 0)

  /** One direction per member: encipher and decipher one block under a key. */
  datatype Permutation = Permutation(
    encipher: (seq<byte>, Block) -> Block,
    decipher: (seq<byte>, Block) -> Block)

  /** The two directions undo each other. */
  ghost predicate IsPermutation(p: Permutation) {
    forall key: seq<byte>, b: Block ::
      p.decipher(key, p.encipher(key, b)) == b && p.encipher(key, p.decipher(key, b)) == b
  }

  function XorBlock(a: Block, b: Block): Block {
    seq(BLOCK, i requires 0 <= i < BLOCK => Xor(a[i], b[i]))
  }

  lemma XorBlockCancels(a: Block, b: Block)
    ensures XorBlock(XorBlock(a, b), b) == a
  {
    forall i | 0 <= i < BLOCK
      ensures XorBlock(XorBlock(a, b), b)[i] == a[i]
    {
      XorCancels(a[i], b[i]);
    }
  }

  /** Whole blocks only. */
  predicate Aligned(data: seq<byte>) {
    |data| % BLOCK == 0
  }

  function Encrypt(p: Permutation, key: seq<byte>, iv: Block, data: seq<byte>): (r: seq<byte>)
    requires Aligned(data)
    ensures |r| == |data|
    decreases |data|
  {
    if data == [] then [] else
    var c := p.encipher(key, XorBlock(data[..BLOCK], iv));
    c + Encrypt(p, key, c, data[BLOCK..])
  }

  function Decrypt(p: Permutation, key: seq<byte>, iv: Block, data: seq<byte>): (r: seq<byte>)
    requires Aligned(data)
    ensures |r| == |data|
    decreases |data|
  {
    if data == [] then [] else
    XorBlock(p.decipher(key, data[..BLOCK]), iv) + Decrypt(p, key, data[..BLOCK], data[BLOCK..])
  }

  /** The chaining value after `data` has been seen. */
  function LastBlock(iv: Block, data: seq<byte>): Block
    requires Aligned(data)
  {
    if data == [] then iv else data[|data| - BLOCK..]
  }

  lemma {:induction false} DecryptInvertsEncrypt(p: Permutation, key: seq<byte>, iv: Block, data: seq<byte>)
    requires IsPermutation(p) && Aligned(data)
    ensures Decrypt(p, key, iv, Encrypt(p, key, iv, data)) == data
    decreases |data|
  {
    if data != [] {
      var head: Block := data[..BLOCK];
      var c := p.encipher(key, XorBlock(head, iv));
      var e := Encrypt(p, key, iv, data);
      assert e[..BLOCK] == c && e[BLOCK..] == Encrypt(p, key, c, data[BLOCK..]);
      XorBlockCancels(head, iv);
      DecryptInvertsEncrypt(p, key, c, data[BLOCK..]);
      assert data == head + data[BLOCK..];
    }
  }

  lemma {:induction false} EncryptInvertsDecrypt(p: Permutation, key: seq<byte>, iv: Block, data: seq<byte>)
    requires IsPermutation(p) && Aligned(data)
    ensures Encrypt(p, key, iv, Decrypt(p, key, iv, data)) == data
    decreases |data|
  {
    if data != [] {
      var head: Block := data[..BLOCK];
      var d := p.decipher(key, head);
      var rest := Decrypt(p, key, head, data[BLOCK..]);
      XorBlockCancels(d, iv);
      EncryptFirstBlock(p, key, iv, XorBlock(d, iv), rest);
      EncryptInvertsDecrypt(p, key, head, data[BLOCK..]);
      assert data == head + data[BLOCK..];
    }
  }

  lemma EncryptFirstBlock(p: Permutation, key: seq<byte>, iv: Block, head: Block, rest: seq<byte>)
    requires Aligned(rest)
    ensures var c := p.encipher(key, XorBlock(head, iv));
            Encrypt(p, key, iv, head + rest) == c + Encrypt(p, key, c, rest)
  {
    assert (head + rest)[..BLOCK] == head && (head + rest)[BLOCK..] == rest;
  }

  lemma DecryptFirstBlock(p: Permutation, key: seq<byte>, iv: Block, head: Block, rest: seq<byte>)
    requires Aligned(rest)
    ensures Decrypt(p, key, iv, head + rest) == XorBlock(p.decipher(key, head), iv) + Decrypt(p, key, head, rest)
  {
    assert (head + rest)[..BLOCK] == head && (head + rest)[BLOCK..] == rest;
  }

  lemma LastBlockStep(iv: Block, c: Block, rest: seq<byte>)
    requires Aligned(rest)
    ensures LastBlock(iv, c + rest) == LastBlock(c, rest)
  {
  }

  lemma {:induction false} EncryptAppend(p: Permutation, key: seq<byte>, iv: Block, a: seq<byte>, b: seq<byte>)
    requires Aligned(a) && Aligned(b)
    ensures var ea := Encrypt(p, key, iv, a);
            Encrypt(p, key, iv, a + b) == ea + Encrypt(p, key, LastBlock(iv, ea), b)
    decreases |a|
  {
    if a == [] {
      assert a + b == b;
    } else {
      var head: Block, rest := a[..BLOCK], a[BLOCK..];
      var c := p.encipher(key, XorBlock(head, iv));
      var er := Encrypt(p, key, c, rest);
      EncryptFirstBlock(p, key, iv, head, rest + b);
      assert a + b == head + (rest + b);
      EncryptAppend(p, key, c, rest, b);
      LastBlockStep(iv, c, er);
    }
  }

  lemma {:induction false} DecryptAppend(p: Permutation, key: seq<byte>, iv: Block, a: seq<byte>, b: seq<byte>)
    requires Aligned(a) && Aligned(b)
    ensures Decrypt(p, key, iv, a + b) == Decrypt(p, key, iv, a) + Decrypt(p, key, LastBlock(iv, a), b)
    decreases |a|
  {
    if a == [] {
      assert a + b == b;
    } else {
      var head: Block, rest := a[..BLOCK], a[BLOCK..];
      assert a + b == head + (rest + b);
      DecryptFirstBlock(p, key, iv, head, rest + b);
      DecryptAppend(p, key, head, rest, b);
      assert LastBlock(iv, a) == LastBlock(head, rest);
      Associative(XorBlock(p.decipher(key, head), iv), Decrypt(p, key, head, rest), Decrypt(p, key, LastBlock(iv, a), b));
    }
  }

  // ---- block by block (section 6.2 of NIST SP 800-38A) ----

  function BlockAt(data: seq<byte>, i: nat): Block
    requires (i + 1) * BLOCK <= |data|
  {
    data[i * BLOCK..(i + 1) * BLOCK]
  }

  lemma BlockAfterFirst(first: Block, rest: seq<byte>, i: nat)
    requires 0 < i && (i + 1) * BLOCK <= BLOCK + |rest|
    ensures BlockAt(first + rest, i) == BlockAt(rest, i - 1)
  {
    assert i * BLOCK == (i - 1) * BLOCK + BLOCK;
  }

  lemma FirstBlock(first: Block, rest: seq<byte>)
    ensures BlockAt(first + rest, 0) == first
  {
  }

  /** The block that block `i` is chained to: the ciphertext block before it, or the IV. */
  function Previous(iv: Block, ciphertext: seq<byte>, i: nat): Block
    requires i * BLOCK <= |ciphertext|
  {
    if i == 0 then iv else BlockAt(ciphertext, i - 1)
  }

  predicate IsXor(x: Block, a: Block, b: Block) {
    forall k :: 0 <= k < 16 ==> x[k] == Xor(a[k], b[k])
  }

  lemma PreviousAfterFirst(iv: Block, first: Block, rest: seq<byte>, i: nat)
    requires 0 < i && i * BLOCK <= BLOCK + |rest|
    ensures Previous(iv, first + rest, i) == Previous(first, rest, i - 1)
  {
    if i == 1 {
      FirstBlock(first, rest);
    } else {
      BlockAfterFirst(first, rest, i - 1);
    }
  }

  /** Each ciphertext block is the plaintext block, combined with the previous ciphertext block, and enciphered. */
  lemma {:induction false} EncryptBlock(p: Permutation, key: seq<byte>, iv: Block, data: seq<byte>, i: nat)
    returns (x: Block)
    requires Aligned(data) && (i + 1) * BLOCK <= |data|
    ensures IsXor(x, BlockAt(data, i), Previous(iv, Encrypt(p, key, iv, data), i))
    ensures BlockAt(Encrypt(p, key, iv, data), i) == p.encipher(key, x)
    decreases |data|
  {
    var head: Block, rest := data[..BLOCK], data[BLOCK..];
    assert data == head + rest;
    x := XorBlock(head, iv);
    var c := p.encipher(key, x);
    var er := Encrypt(p, key, c, rest);
    if i == 0 {
      FirstBlock(head, rest);
      FirstBlock(c, er);
    } else {
      x := EncryptBlock(p, key, c, rest, i - 1);
      BlockAfterFirst(head, rest, i);
      BlockAfterFirst(c, er, i);
      PreviousAfterFirst(iv, c, er, i);
    }
  }

  /** Each plaintext block is the deciphered ciphertext block, combined with the previous ciphertext block. */
  lemma {:induction false} DecryptBlock(p: Permutation, key: seq<byte>, iv: Block, data: seq<byte>, i: nat)
    requires Aligned(data) && (i + 1) * BLOCK <= |data|
    ensures IsXor(BlockAt(Decrypt(p, key, iv, data), i), p.decipher(key, BlockAt(data, i)), Previous(iv, data, i))
    decreases |data|
  {
    var head: Block, rest := data[..BLOCK], data[BLOCK..];
    assert data == head + rest;
    var d, dr := XorBlock(p.decipher(key, head), iv), Decrypt(p, key, head, rest);
    if i == 0 {
      FirstBlock(head, rest);
      FirstBlock(d, dr);
    } else {
      DecryptBlock(p, key, head, rest, i - 1);
      BlockAfterFirst(head, rest, i);
      BlockAfterFirst(d, dr, i);
      PreviousAfterFirst(iv, head, rest, i);
    }
  }

  // ---- PKCS padding ----

  /** The bytes appended to a message whose last partial block is `rest`: n bytes of value n, 1 <= n <= 16. */
  function PaddingFor(length: nat): (r: seq<byte>)
    ensures 1 <= |r| <= BLOCK && (length + |r|) % BLOCK == 0
    ensures forall i :: 0 <= i < |r| ==> r[i] as nat == |r|
  {
    var n := BLOCK - length % BLOCK;
    seq(n, _ => n as byte)
  }

  function Unpad(data: seq<byte>): Option<seq<byte>> {
    if data == [] then None else
    var n := data[|data| - 1] as nat;
    if n == 0 || n > BLOCK || n > |data| then None
    else if forall i :: |data| - n <= i < |data| ==> data[i] == n as byte then Some(data[..|data| - n])
    else None
  }

  lemma UnpadInvertsPadding(m: seq<byte>)
    ensures Unpad(m + PaddingFor(|m|)) == Some(m)
  {
  }

  /** Exactly which bytes are a padded message: n bytes of value n follow it, for some n from one to sixteen. */
  lemma UnpadExactly(data: seq<byte>, m: seq<byte>)
    ensures Unpad(data) == Some(m) <==>
            && m <= data && 1 <= |data| - |m| <= 16
            && forall i :: |m| <= i < |data| ==> data[i] as nat == |data| - |m|
  {
    var n := |data| - |m|;
    if Unpad(data) == Some(m) {
      assert m == data[..|m|] && data[|data| - 1] as nat == n;
    } else if m <= data && 1 <= n <= 16 {
      assert m == data[..|m|];
      assert data[|data| - 1] as nat == n ==> exists i :: |m| <= i < |data| && data[i] as nat != n;
    }
  }

  /** What was unpadded was padded. */
  lemma PaddingInvertsUnpad(data: seq<byte>)
    requires Aligned(data) && Unpad(data).Some?
    ensures var m := Unpad(data).value; |m| < |data| && data == m + PaddingFor(|m|)
  {
    var m := Unpad(data).value;
    var n := |data| - |m|;
    PaddingLength(|m|, n);
    assert data[|m|..] == PaddingFor(|m|);
  }

  lemma PaddingLength(length: nat, n: nat)
    requires 1 <= n <= BLOCK && (length + n) % BLOCK == 0
    ensures |PaddingFor(length)| == n
  {
  }

  /** Only the last block matters for the padding. */
  lemma UnpadLastBlock(a: seq<byte>, last: Block)
    ensures Unpad(a + last) ==
            match Unpad(last) case None => None case Some(m) => Some(a + m)
  {
    var d := a + last;
    var n := last[BLOCK - 1] as nat;
    assert d[|d| - 1] == last[BLOCK - 1];
    if 0 < n <= BLOCK {
      assert forall i :: BLOCK - n <= i < BLOCK ==> last[i] == d[|a| + i];
      assert forall i :: |d| - n <= i < |d| ==> d[i] == last[i - |a|];
      assert d[..|d| - n] == a + last[..BLOCK - n];
    }
  }
}
