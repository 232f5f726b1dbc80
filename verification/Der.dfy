/**
 * Big-endian numbers and the DER encoding of an ECDSA signature: a SEQUENCE of two INTEGERs (section 2.2.3 of
 * RFC 3279, with lengths and integers by sections 8.1.3 and 8.3 of X.690).
 */
module Der {
  import opened Bytes

  // ---- big-endian numbers ----

  function Pow256(k: nat): (r: nat)
    ensures r >= 1
  {
    if k == 0 then 1 else 256 * Pow256(k - 1)
  }

  /** BN_bin2bn */
  function Number(s: seq<byte>): nat {
    if s == [] then 0 else 256 * Number(s[..|s| - 1]) + s[|s| - 1] as nat
  }

  /** BN_bn2binpad into `k` bytes, for a number that fits. */
  function Padded(n: nat, k: nat): (r: seq<byte>)
    ensures |r| == k
  {
    if k == 0 then [] else Padded(n / 256, k - 1) + [(n % 256) as byte]
  }

  lemma NumberOfOne(b: byte)
    ensures Number([b]) == b as nat
  {
    assert [b][..0] == [];
  }

  /** Big-endian: bytes in front weigh 256 times as much for each byte behind them. */
  lemma {:induction false} NumberJoins(a: seq<byte>, b: seq<byte>)
    ensures Number(a + b) == Number(a) * Pow256(|b|) + Number(b)
  {
    if b == [] {
      assert a + b == a;
    } else {
      var front, last := b[..|b| - 1], b[|b| - 1];
      assert (a + b)[..|a + b| - 1] == a + front;
      NumberJoins(a, front);
      Distribute(Number(a), Pow256(|front|), Number(front), last as nat);
    }
  }

  lemma Distribute(n: nat, power: nat, m: nat, last: nat)
    ensures 256 * (n * power + m) + last == n * (256 * power) + (256 * m + last)
  {
  }

  /** The place values: section 8.3 of X.690 and BN_bin2bn agree on them. */
  lemma NumberOfTwo(x: byte, y: byte)
    ensures Number([x, y]) == 256 * x as nat + y as nat
  {
    assert [x, y][..1] == [x];
    NumberOfOne(x);
  }

  lemma {:induction false} NumberBound(s: seq<byte>)
    ensures Number(s) < Pow256(|s|)
  {
    if s != [] {
      NumberBound(s[..|s| - 1]);
    }
  }

  lemma {:induction false} PaddedOfNumber(s: seq<byte>)
    ensures Padded(Number(s), |s|) == s
  {
    if s != [] {
      var front, last := s[..|s| - 1], s[|s| - 1];
      PaddedOfNumber(front);
      assert Number(s) / 256 == Number(front) && Number(s) % 256 == last as nat;
      assert s == front + [last];
    }
  }

  lemma {:induction false} NumberOfPadded(n: nat, k: nat)
    requires n < Pow256(k)
    ensures Number(Padded(n, k)) == n
  {
    if k > 0 {
      NumberOfPadded(n / 256, k - 1);
      assert Padded(n, k)[..k - 1] == Padded(n / 256, k - 1);
    }
  }

  /** The shortest bytes of a number, as a long-form length has them. */
  function Shortest(n: nat): (r: seq<byte>)
    ensures r != []
  {
    if n < 256 then [n as byte] else Shortest(n / 256) + [(n % 256) as byte]
  }

  lemma {:induction false} NumberOfShortest(n: nat)
    ensures Number(Shortest(n)) == n
  {
    var s := Shortest(n);
    if n < 256 {
      assert s[..0] == [];
    } else {
      NumberOfShortest(n / 256);
      assert s[..|s| - 1] == Shortest(n / 256);
    }
  }

  lemma {:induction false} ShortestSize(n: nat, k: nat)
    requires n < Pow256(k) && k >= 1
    ensures |Shortest(n)| <= k
  {
    if n >= 256 {
      assert k > 1 by {
        assert Pow256(1) == 256;
      }
      ShortestSize(n / 256, k - 1);
    }
  }

  lemma LengthOfInt(n: nat)
    requires n <= INT_MAX
    ensures |Shortest(n)| <= 4
  {
    assert Pow256(4) == 256 * Pow256(3) && Pow256(3) == 256 * Pow256(2) && Pow256(2) == 256 * Pow256(1);
    ShortestSize(n, 4);
  }

  /** The shortest two's complement bytes of a non-negative number: the first bit is 0. */
  function Signed(n: nat): (r: seq<byte>)
    ensures r != [] && r[0] < 128
  {
    if n < 128 then [n as byte] else Signed(n / 256) + [(n % 256) as byte]
  }

  lemma {:induction false} NumberOfSigned(n: nat)
    ensures Number(Signed(n)) == n
  {
    var s := Signed(n);
    if n < 128 {
      assert s[..0] == [];
    } else {
      NumberOfSigned(n / 256);
      assert s[..|s| - 1] == Signed(n / 256);
    }
  }

  lemma {:induction false} SignedSize(n: nat, k: nat)
    requires n < Pow256(k)
    ensures |Signed(n)| <= k + 1
  {
    if n >= 128 && k > 0 {
      SignedSize(n / 256, k - 1);
    }
  }

  lemma {:induction false} ShortestIsShortest(n: nat)
    ensures n > 0 ==> Shortest(n)[0] != 0
  {
    if n >= 256 {
      ShortestIsShortest(n / 256);
    }
  }

  /** A leading zero only keeps the first bit 0 (section 8.3.2 of X.690). */
  lemma {:induction false} SignedIsShortest(n: nat)
    ensures |Signed(n)| > 1 && Signed(n)[0] == 0 ==> Signed(n)[1] >= 128
  {
    if n >= 128 {
      SignedIsShortest(n / 256);
      if n / 256 < 128 {
        assert Signed(n) == [(n / 256) as byte, (n % 256) as byte];
      }
    }
  }

  // ---- tag, length, value ----

  /** Lengths of at least 128 take a byte that counts the bytes of the length. */
  function Length(n: nat): (r: seq<byte>)
    requires n <= INT_MAX
    ensures 1 <= |r| <= 5
  {
    LengthOfInt(n);
    if n < 128 then [n as byte] else [(128 + |Shortest(n)|) as byte] + Shortest(n)
  }

  function LengthSize(n: nat): nat {
    if n < 128 then 1 else 1 + |Shortest(n)|
  }

  function Tlv(tag: byte, content: seq<byte>): seq<byte>
    requires |content| <= INT_MAX
  {
    [tag] + Length(|content|) + content
  }

  function TlvSize(n: nat): nat {
    1 + LengthSize(n) + n
  }

  datatype Parsed = Malformed | Value(content: seq<byte>, rest: seq<byte>)

  /** The element with the given tag at the start of `s`. Only the shortest form of a length is read. */
  function ReadTlv(tag: byte, s: seq<byte>): Parsed {
    if |s| < 2 || s[0] != tag then Malformed
    else if s[1] < 128 then ReadContent(s, 2, s[1] as nat)
    else
      var count := s[1] as nat - 128;
      if count == 0 || count > 4 || |s| < 2 + count then Malformed
      else
        var n := Number(s[2..2 + count]);
        if n < 128 || Shortest(n) != s[2..2 + count] then Malformed else ReadContent(s, 2 + count, n)
  }

  function ReadContent(s: seq<byte>, from: nat, length: nat): Parsed {
    if from + length <= |s| then Value(s[from..from + length], s[from + length..]) else Malformed
  }

  lemma ReadTlvReads(tag: byte, content: seq<byte>, rest: seq<byte>)
    requires |content| <= INT_MAX
    ensures ReadTlv(tag, Tlv(tag, content) + rest) == Value(content, rest)
  {
    var s, n := Tlv(tag, content) + rest, |content|;
    var length := Length(n);
    assert s[1..1 + |length|] == length;
    assert s[1] == length[0];
    if n >= 128 {
      LengthOfInt(n);
      NumberOfShortest(n);
      assert s[2..1 + |length|] == Shortest(n);
    }
    assert s[1 + |length|..1 + |length| + n] == content;
    assert s[1 + |length| + n..] == rest;
  }

  // ---- signatures ----

  datatype Signature = Signature(r: nat, s: nat)

  const SEQUENCE: byte := 0x30
  const INTEGER: byte := 0x02

  function SignatureSize(sig: Signature): nat {
    TlvSize(TlvSize(|Signed(sig.r)|) + TlvSize(|Signed(sig.s)|))
  }

  /** i2d_ECDSA_SIG, whose result is a size in an `int`. */
  function Encode(sig: Signature): Option<seq<byte>> {
    if SignatureSize(sig) > INT_MAX then None
    else
      var r, s := Tlv(INTEGER, Signed(sig.r)), Tlv(INTEGER, Signed(sig.s));
      Some(Tlv(SEQUENCE, r + s))
  }

  function ReadInteger(s: seq<byte>): Option<(nat, seq<byte>)> {
    match ReadTlv(INTEGER, s)
    case Malformed => None
    case Value(content, rest) =>
      if content != [] && Signed(Number(content)) == content then Some((Number(content), rest)) else None
  }

  /** The length octets of `n` (sections 8.1.3 and 10.1 of X.690): one byte below 128, else a count and that many bytes. */
  predicate IsLength(l: seq<byte>, n: nat) {
    if n < 128 then l == [n as byte]
    else
      && 2 <= |l| <= 127 && l[0] as nat == 128 + |l| - 1
      && l[1] != 0 && Number(l[1..]) == n
  }

  /** The content octets of an INTEGER that is not negative: big-endian, the first bit 0, no more bytes than needed. */
  predicate IsInteger(content: seq<byte>, n: nat) {
    && content != [] && Number(content) == n && content[0] < 128
    && (|content| > 1 && content[0] == 0 ==> content[1] >= 128)
  }

  lemma LengthIsLength(n: nat)
    requires n <= INT_MAX
    ensures IsLength(Length(n), n)
  {
    LengthOfInt(n);
    NumberOfShortest(n);
    ShortestIsShortest(n);
    if n >= 128 {
      assert Length(n)[1..] == Shortest(n);
    }
  }

  /** The encoding, octet by octet: a SEQUENCE (tag 0x30) of the INTEGERs (tag 0x02) r and s, each with its length. */
  lemma EncodeExactly(sig: Signature)
    returns (l: seq<byte>, lr: seq<byte>, r: seq<byte>, ls: seq<byte>, s: seq<byte>)
    requires Encode(sig).Some?
    ensures Encode(sig).value == [0x30] + l + (([0x02] + lr + r) + ([0x02] + ls + s))
    ensures IsLength(l, 1 + |lr| + |r| + 1 + |ls| + |s|)
    ensures IsLength(lr, |r|) && IsInteger(r, sig.r) && IsLength(ls, |s|) && IsInteger(s, sig.s)
  {
    r, s := Signed(sig.r), Signed(sig.s);
    lr, ls := Length(|r|), Length(|s|);
    var size := |Tlv(INTEGER, r) + Tlv(INTEGER, s)|;
    l := Length(size);
    LengthIsLength(|r|);
    LengthIsLength(|s|);
    LengthIsLength(size);
    SignedIsInteger(sig.r);
    SignedIsInteger(sig.s);
  }

  lemma SignedIsInteger(n: nat)
    ensures IsInteger(Signed(n), n)
  {
    NumberOfSigned(n);
    SignedIsShortest(n);
  }

  /** d2i_ECDSA_SIG on DER; bytes after the sequence are ignored. */
  function Decode(bytes: seq<byte>): Option<Signature> {
    match ReadTlv(SEQUENCE, bytes)
    case Malformed => None
    case Value(content, _) =>
      match ReadInteger(content)
      case None => None
      case Some((r, rest)) =>
        match ReadInteger(rest)
        case None => None
        case Some((s, end)) => if end == [] then Some(Signature(r, s)) else None
  }

  lemma ReadIntegerReads(n: nat, rest: seq<byte>)
    requires |Signed(n)| <= INT_MAX
    ensures ReadInteger(Tlv(INTEGER, Signed(n)) + rest) == Some((n, rest))
  {
    ReadTlvReads(INTEGER, Signed(n), rest);
    NumberOfSigned(n);
  }

  /** Decoding inverts encoding, whatever follows. */
  lemma DecodeEncode(sig: Signature, rest: seq<byte>)
    requires Encode(sig).Some?
    ensures Decode(Encode(sig).value + rest) == Some(sig)
  {
    var r, s := Tlv(INTEGER, Signed(sig.r)), Tlv(INTEGER, Signed(sig.s));
    ReadTlvReads(SEQUENCE, r + s, rest);
    ReadIntegerReads(sig.r, s);
    ReadIntegerReads(sig.s, []);
    assert s + [] == s;
  }

  // ---- only DER is decoded ----

  lemma ReadTlvIsTlv(tag: byte, s: seq<byte>)
    requires ReadTlv(tag, s).Value? && |s| <= INT_MAX
    ensures var v := ReadTlv(tag, s);
            |v.content| + |v.rest| <= |s| && s == Tlv(tag, v.content) + v.rest
  {
    var v := ReadTlv(tag, s);
    var from := if s[1] < 128 then 2 else 2 + (s[1] as nat - 128);
    assert s == s[..from] + v.content + v.rest;
    if s[1] < 128 {
      assert s[..from] == [tag] + [s[1]];
    } else {
      assert s[..from] == [tag] + ([s[1]] + s[2..from]);
    }
  }

  lemma ReadIntegerIsTlv(s: seq<byte>)
    requires ReadInteger(s).Some? && |s| <= INT_MAX
    ensures var (n, rest) := ReadInteger(s).value;
            |Signed(n)| + |rest| <= |s| && s == Tlv(INTEGER, Signed(n)) + rest
  {
    ReadTlvIsTlv(INTEGER, s);
  }

  lemma TlvLength(tag: byte, content: seq<byte>)
    requires |content| <= INT_MAX
    ensures |Tlv(tag, content)| == TlvSize(|content|)
  {
  }

  lemma DecodedIsEncoded(bytes: seq<byte>)
    requires Decode(bytes).Some? && |bytes| <= INT_MAX
    ensures var sig := Decode(bytes).value; Encode(sig).Some? && Encode(sig).value <= bytes
  {
    var sig := Decode(bytes).value;
    var content := ReadTlv(SEQUENCE, bytes).content;
    ReadTlvIsTlv(SEQUENCE, bytes);
    ReadIntegerIsTlv(content);
    var rest := ReadInteger(content).value.1;
    ReadIntegerIsTlv(rest);
    var s := Tlv(INTEGER, Signed(sig.s));
    assert rest == s + [] == s;
    TlvLength(INTEGER, Signed(sig.r));
    TlvLength(INTEGER, Signed(sig.s));
    TlvLength(SEQUENCE, content);
  }

  /** Bytes decode to a signature exactly if they start with its DER encoding. */
  lemma DecodesExactly(bytes: seq<byte>, sig: Signature)
    requires |bytes| <= INT_MAX
    ensures Decode(bytes) == Some(sig) <==> Encode(sig).Some? && Encode(sig).value <= bytes
  {
    if Decode(bytes) == Some(sig) {
      DecodedIsEncoded(bytes);
    }
    if Encode(sig).Some? && Encode(sig).value <= bytes {
      DecodeOfPrefix(bytes, sig, Encode(sig).value);
    }
  }

  lemma DecodeOfPrefix(bytes: seq<byte>, sig: Signature, der: seq<byte>)
    requires Encode(sig) == Some(der) && der <= bytes
    ensures Decode(bytes) == Some(sig)
  {
    var rest := bytes[|der|..];
    assert der + rest == bytes;
    DecodeEncode(sig, rest);
  }
}
