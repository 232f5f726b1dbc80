/** ECDSA signatures as a DER sequence and as two padded numbers side by side (IEEE 1363), and back. */
module EcdsaFormat {
  import opened Bytes
  import opened Der

  datatype Error =
    | InvalidSignatureSize | NumberTooLong | SerializationFailed | NotDer | DoesNotFit
    | InvalidDigestSize | VerificationFailed

  /** `_BN_bin2bn` */
  function BinToNumber(data: seq<byte>): Result<nat, Error> {
    if |data| > INT_MAX then Err(NumberTooLong) else Ok(Number(data))
  }

  /** `_BN_bn2binpad`, which demands a positive number of bytes written */
  function NumberToBin(n: nat, length: nat): Result<seq<byte>, Error> {
    if 0 < length && n < Pow256(length) then Ok(Padded(n, length)) else Err(DoesNotFit)
  }

  /** `_Asn1ECSignatureToIEEE1363EcSignature` */
  function ToIeee1363(signature: seq<byte>, keySizeBytes: nat): Result<seq<byte>, Error> {
    match Decode(signature)
    case None => Err(NotDer)
    case Some(sig) =>
      match NumberToBin(sig.r, keySizeBytes)
      case Err(e) => Err(e)
      case Ok(r) =>
        match NumberToBin(sig.s, keySizeBytes)
        case Err(e) => Err(e)
        case Ok(s) => Ok(r + s)
  }

  /** `_IEEE1363EcSignatureToAsn1ECSignature` */
  function ToAsn1(signature: seq<byte>, keySizeBytes: nat): Result<seq<byte>, Error> {
    if |signature| != 2 * keySizeBytes then Err(InvalidSignatureSize)
    else
      match BinToNumber(signature[..keySizeBytes])
      case Err(e) => Err(e)
      case Ok(r) =>
        match BinToNumber(signature[keySizeBytes..])
        case Err(e) => Err(e)
        case Ok(s) =>
          match Encode(Signature(r, s))
          case None => Err(SerializationFailed)
          case Some(der) => Ok(der)
  }

  lemma DecodeOfEncode(sig: Signature)
    requires Encode(sig).Some?
    ensures Decode(Encode(sig).value) == Some(sig)
  {
    DecodeEncode(sig, []);
    assert Encode(sig).value + [] == Encode(sig).value;
  }

  /** Two numbers of k bytes side by side, cut in the middle. */
  lemma CutInTheMiddle(r: seq<byte>, s: seq<byte>)
    ensures (r + s)[..|r|] == r && (r + s)[|r|..] == s
  {
  }

  lemma CutJoins(signature: seq<byte>, k: nat)
    requires k <= |signature|
    ensures signature[..k] + signature[k..] == signature
  {
  }

  /** The conversion of a DER signature whose numbers are those of two byte vectors of the key's length. */
  lemma ToIeee1363Of(sig: Signature, left: seq<byte>, right: seq<byte>)
    requires Encode(sig).Some? && 0 < |left| == |right| && sig == Signature(Number(left), Number(right))
    ensures ToIeee1363(Encode(sig).value, |left|) == Ok(left + right)
  {
    DecodeOfEncode(sig);
    NumberBound(left);
    NumberBound(right);
    PaddedOfNumber(left);
    PaddedOfNumber(right);
  }

  lemma NothingConvertsToNothing(signature: seq<byte>)
    ensures var asn1 := ToAsn1(signature, 0);
            asn1.Ok? ==> ToIeee1363(asn1.value, 0) == Err(DoesNotFit)
  {
    if ToAsn1(signature, 0).Ok? {
      DecodeOfEncode(Signature(Number([]), Number([])));
    }
  }

  /** To DER and back: the identity on every vector that converts at all, unless the key has no bytes. */
  lemma ThroughAsn1(signature: seq<byte>, keySizeBytes: nat)
    ensures var asn1 := ToAsn1(signature, keySizeBytes);
            asn1.Ok? ==>
              ToIeee1363(asn1.value, keySizeBytes) == if keySizeBytes == 0 then Err(DoesNotFit) else Ok(signature)
  {
    if keySizeBytes == 0 {
      NothingConvertsToNothing(signature);
    } else if ToAsn1(signature, keySizeBytes).Ok? {
      var left, right := signature[..keySizeBytes], signature[keySizeBytes..];
      ToIeee1363Of(Signature(Number(left), Number(right)), left, right);
      CutJoins(signature, keySizeBytes);
    }
  }

  /** The sizes for which DER stays within an `int`; every curve in use is far below. */
  const MAX_KEY_BYTES: nat := 1_000_000_000

  lemma SmallSignaturesEncode(sig: Signature, k: nat)
    requires sig.r < Pow256(k) && sig.s < Pow256(k) && k <= MAX_KEY_BYTES
    ensures Encode(sig).Some?
  {
    SignedSize(sig.r, k);
    SignedSize(sig.s, k);
    var r, s := |Signed(sig.r)|, |Signed(sig.s)|;
    LengthOfInt(r);
    LengthOfInt(s);
    LengthOfInt(TlvSize(r) + TlvSize(s));
  }

  /**
   * A vector converts to DER exactly when it has twice the key's bytes; and then the conversion back returns it,
   * exactly if the key has any bytes.
   */
  lemma Ieee1363RoundTrip(signature: seq<byte>, keySizeBytes: nat)
    requires keySizeBytes <= MAX_KEY_BYTES
    ensures var asn1 := ToAsn1(signature, keySizeBytes);
            && (asn1.Ok? <==> |signature| == 2 * keySizeBytes)
            && (asn1.Ok? ==> (ToIeee1363(asn1.value, keySizeBytes) == Ok(signature) <==> keySizeBytes > 0))
  {
    ThroughAsn1(signature, keySizeBytes);
    if |signature| == 2 * keySizeBytes {
      var left, right := signature[..keySizeBytes], signature[keySizeBytes..];
      NumberBound(left);
      NumberBound(right);
      SmallSignaturesEncode(Signature(Number(left), Number(right)), keySizeBytes);
    }
  }

  function SideBySide(sig: Signature, k: nat): seq<byte>
    requires sig.r < Pow256(k) && sig.s < Pow256(k)
  {
    Padded(sig.r, k) + Padded(sig.s, k)
  }

  lemma ConvertsExactly(sig: Signature, k: nat)
    requires Encode(sig).Some?
    ensures ToIeee1363(Encode(sig).value, k) ==
            if 0 < k && sig.r < Pow256(k) && sig.s < Pow256(k) then Ok(SideBySide(sig, k)) else Err(DoesNotFit)
  {
    DecodeOfEncode(sig);
  }

  lemma HalvesOf(sig: Signature, k: nat)
    requires sig.r < Pow256(k) && sig.s < Pow256(k)
    ensures Number(SideBySide(sig, k)[..k]) == sig.r && Number(SideBySide(sig, k)[k..]) == sig.s
  {
    NumberOfPadded(sig.r, k);
    NumberOfPadded(sig.s, k);
    CutInTheMiddle(Padded(sig.r, k), Padded(sig.s, k));
  }

  lemma ConvertsBack(sig: Signature, k: nat)
    requires Encode(sig).Some? && sig.r < Pow256(k) && sig.s < Pow256(k) && k <= INT_MAX
    ensures |SideBySide(sig, k)| == 2 * k && ToAsn1(SideBySide(sig, k), k) == Ok(Encode(sig).value)
  {
    NumberOfPadded(sig.r, k);
    NumberOfPadded(sig.s, k);
    CutInTheMiddle(Padded(sig.r, k), Padded(sig.s, k));
  }

  /**
   * A DER signature converts to the padded form exactly when the key has bytes and both numbers fit them; and then the
   * conversion back returns the same DER.
   */
  lemma Asn1RoundTrip(sig: Signature, keySizeBytes: nat)
    requires Encode(sig).Some? && keySizeBytes <= INT_MAX
    ensures var asn1 := Encode(sig).value;
            var ieee := ToIeee1363(asn1, keySizeBytes);
            && (ieee.Ok? <==> 0 < keySizeBytes && sig.r < Pow256(keySizeBytes) && sig.s < Pow256(keySizeBytes))
            && (ieee.Ok? ==>
                  && |ieee.value| == 2 * keySizeBytes
                  && Number(ieee.value[..keySizeBytes]) == sig.r && Number(ieee.value[keySizeBytes..]) == sig.s
                  && ToAsn1(ieee.value, keySizeBytes) == Ok(asn1))
  {
    ConvertsExactly(sig, keySizeBytes);
    if sig.r < Pow256(keySizeBytes) && sig.s < Pow256(keySizeBytes) {
      HalvesOf(sig, keySizeBytes);
      ConvertsBack(sig, keySizeBytes);
    }
  }

  // ---- signing and verifying ----

  datatype Format = ASN1_SEQUENCE_OF_INTS | IEEE1363

  /** An elliptic curve key pair, seen from outside: its signatures and which of them verify. */
  datatype Key = Key(
    sizeBits: nat,
    digestSize: nat,
    sign: seq<byte> -> Signature,
    verifies: (seq<byte>, seq<byte>) -> bool)

  function SizeBytes(k: Key): nat {
    (k.sizeBits + 7) / 8
  }

  /** The group has a positive number of bits, and both numbers of a signature are below its order. */
  ghost predicate IsKey(k: Key) {
    && 0 < SizeBytes(k) <= MAX_KEY_BYTES
    && forall digest: seq<byte> ::
         && k.sign(digest).r < Pow256(SizeBytes(k)) && k.sign(digest).s < Pow256(SizeBytes(k))
  }

  /** `_signAsn1` */
  function SignAsn1(k: Key, digest: seq<byte>): Result<seq<byte>, Error> {
    if |digest| != k.digestSize then Err(InvalidDigestSize)
    else
      match Encode(k.sign(digest))
      case None => Err(SerializationFailed)
      case Some(der) => Ok(der)
  }

  /** `_verifyAsn1` */
  function VerifyAsn1(k: Key, signature: seq<byte>, digest: seq<byte>): Result<(), Error> {
    if |digest| != k.digestSize then Err(InvalidDigestSize)
    else if k.verifies(signature, digest) then Ok(())
    else Err(VerificationFailed)
  }

  function SignDigest(k: Key, format: Format, digest: seq<byte>): Result<seq<byte>, Error> {
    match SignAsn1(k, digest)
    case Err(e) => Err(e)
    case Ok(signature) =>
      match format
      case ASN1_SEQUENCE_OF_INTS => Ok(signature)
      case IEEE1363 => ToIeee1363(signature, SizeBytes(k))
  }

  function VerifyDigest(k: Key, format: Format, signature: seq<byte>, digest: seq<byte>): Result<(), Error> {
    match format
    case ASN1_SEQUENCE_OF_INTS => VerifyAsn1(k, signature, digest)
    case IEEE1363 =>
      match ToAsn1(signature, SizeBytes(k))
      case Err(e) => Err(e)
      case Ok(asn1) => VerifyAsn1(k, asn1, digest)
  }

  /** What a key says of the DER encoding of a signature, and of any digest of the right size. */
  predicate Accepts(k: Key, sig: Signature, digest: seq<byte>) {
    |digest| == k.digestSize && Encode(sig).Some? && k.verifies(Encode(sig).value, digest)
  }

  /** The two big-endian numbers that stand side by side in a vector. */
  function Halves(signature: seq<byte>): Signature {
    Signature(Number(signature[..|signature| / 2]), Number(signature[|signature| / 2..]))
  }

  /**
   * Exactly which signatures verify: in ASN.1 format those that the key verifies; in the other format those of twice
   * the key's bytes whose two numbers make a DER signature that the key verifies.
   */
  lemma VerifiesExactly(k: Key, format: Format, signature: seq<byte>, digest: seq<byte>)
    requires SizeBytes(k) <= MAX_KEY_BYTES
    ensures VerifyDigest(k, format, signature, digest).Ok? <==>
            match format
            case ASN1_SEQUENCE_OF_INTS => |digest| == k.digestSize && k.verifies(signature, digest)
            case IEEE1363 => |signature| == 2 * ((k.sizeBits + 7) / 8) && Accepts(k, Halves(signature), digest)
    ensures format.IEEE1363? && |signature| != 2 * ((k.sizeBits + 7) / 8) ==>
              VerifyDigest(k, format, signature, digest) == Err(InvalidSignatureSize)
  {
    if format.IEEE1363? && |signature| == 2 * SizeBytes(k) {
      var sig := Halves(signature);
      NumberBound(signature[..SizeBytes(k)]);
      NumberBound(signature[SizeBytes(k)..]);
      SmallSignaturesEncode(sig, SizeBytes(k));
      assert ToAsn1(signature, SizeBytes(k)) == Ok(Encode(sig).value);
    }
  }

  /**
   * The format does not matter: in either format signing returns exactly for digests of the right size, and what it
   * returns verifies against a digest exactly if that has the right size and the key verifies its own DER signature;
   * in the format with numbers side by side, these are the numbers of that signature.
   */
  lemma FormatsAreTransparent(k: Key, format: Format, digest: seq<byte>, other: seq<byte>)
    requires IsKey(k)
    ensures var signature := SignDigest(k, format, digest);
            && (signature.Ok? <==> |digest| == k.digestSize)
            && (signature.Ok? ==>
                  && Encode(k.sign(digest)).Some?
                  && (format.ASN1_SEQUENCE_OF_INTS? ==> signature.value == Encode(k.sign(digest)).value)
                  && (format.IEEE1363? ==>
                        |signature.value| == 2 * ((k.sizeBits + 7) / 8) && Halves(signature.value) == k.sign(digest))
                  && (VerifyDigest(k, format, signature.value, other).Ok? <==>
                        |other| == k.digestSize && k.verifies(Encode(k.sign(digest)).value, other)))
  {
    SmallSignaturesEncode(k.sign(digest), SizeBytes(k));
    Asn1RoundTrip(k.sign(digest), SizeBytes(k));
    if |digest| == k.digestSize {
      VerifiesExactly(k, format, SignDigest(k, format, digest).value, other);
    }
  }
}
