/** Hexadecimal text, written and read the way the C library does. */
module Hex {
  import opened Bytes
  import opened Pem

  datatype Error = InvalidHexString

  const DIGITS: string := "0123456789abcdef"

  /** One byte, two digits, zero filled. */
  function ByteToHex(b: byte): string {
    [DIGITS[b as nat / 16], DIGITS[b as nat % 16]]
  }

  function ToHexText(data: seq<byte>): string {
    if data == [] then "" else ByteToHex(data[0]) + ToHexText(data[1..])
  }

  method ToHex(data: seq<byte>) returns (r: string)
    ensures r == ToHexText(data)
  {
    r := "";
    assert data[0..] == data;
    for i := 0 to |data|
      invariant r + ToHexText(data[i..]) == ToHexText(data)
    {
      assert data[i..][1..] == data[i + 1..];
      Associative(r, ByteToHex(data[i]), ToHexText(data[i + 1..]));
      r := r + ByteToHex(data[i]);
    }
  }

  /** The value of a digit, or none. */
  function DigitValue(c: char): Option<nat> {
    if '0' <= c <= '9' then Some((c - '0') as nat)
    else if 'a' <= c <= 'f' then Some((c - 'a') as nat + 10)
    else if 'A' <= c <= 'F' then Some((c - 'A') as nat + 10)
    else None
  }

  /**
   * `strtoul` in base 16 on a text of one or two characters, when it reads to the end: a digit, two digits, or
   * white space or a sign before one digit; a minus sign negates in 64 bits. A zero byte ends the text.
   */
  function ParseByte(s: string): Option<byte>
    requires 1 <= |s| <= 2
  {
    if s[0] == '\0' then None
    else if |s| == 1 || s[1] == '\0' then
      match DigitValue(s[0]) case None => None case Some(d) => Some(d as byte)
    else
      match DigitValue(s[1])
      case None => None
      case Some(low) =>
        match DigitValue(s[0])
        case Some(high) => Some((16 * high + low) as byte)
        case None =>
          if s[0] == '-' then Some(((0x1_0000_0000_0000_0000 - low) % 256) as byte)
          else if s[0] == '+' || IsSpace(s[0]) then Some(low as byte)
          else None
  }

  /** `rfind("0x") == 0`: the text starts with 0x and has it nowhere else. */
  predicate HasPrefix(s: string) {
    MatchesAt(s, "0x", 0) && Find(s, "0x", 1).None?
  }

  function FromHexText(s: string): Result<seq<byte>, Error>
    decreases |s|
  {
    if s == "" then Ok([])
    else
      var n := if |s| == 1 then 1 else 2;
      match ParseByte(s[..n])
      case None => Err(InvalidHexString)
      case Some(b) => match FromHexText(s[n..]) case Err(e) => Err(e) case Ok(rest) => Ok([b] + rest)
  }

  function FromHexSpec(s: string): Result<seq<byte>, Error> {
    if HasPrefix(s) then FromHexText(s[2..]) else FromHexText(s)
  }

  /** How one turn advances the bytes that were read. */
  lemma FromHexStep(done: seq<byte>, rest: string)
    requires rest != ""
    ensures var n := if |rest| == 1 then 1 else 2;
            Prepend(done, FromHexText(rest)) ==
            match ParseByte(rest[..n])
            case None => Err(InvalidHexString)
            case Some(b) => Prepend(done + [b], FromHexText(rest[n..]))
  {
    var n := if |rest| == 1 then 1 else 2;
    var b, tail := ParseByte(rest[..n]), FromHexText(rest[n..]);
    if b.Some? && tail.Ok? {
      Associative(done, [b.value], tail.value);
    }
  }

  method FromHex(hexData: string) returns (r: Result<seq<byte>, Error>)
    ensures r == FromHexSpec(hexData)
  {
    var startPos := if HasPrefix(hexData) then 2 else 0;
    ghost var whole := FromHexText(hexData[startPos..]);
    assert hexData[0..] == hexData;
    var binary := [];
    PrependTwice([], [], whole);
    var i := startPos;
    while i < |hexData|
      invariant startPos <= i
      invariant whole == Prepend(binary, FromHexText(if i <= |hexData| then hexData[i..] else ""))
      decreases |hexData| - i
    {
      var n := if i + 2 <= |hexData| then 2 else 1;  // substr stops at the end
      ghost var rest := hexData[i..];
      assert rest[..n] == hexData[i..i + n] && rest[n..] == hexData[i + n..];
      FromHexStep(binary, rest);
      var b := ParseByte(hexData[i..i + n]);
      if b.None? {
        return Err(InvalidHexString);
      }
      binary := binary + [b.value];
      i := i + 2;
    }
    PrependTwice<byte, Error>(binary, [], Ok([]));
    r := Ok(binary);
  }

  // ---- which texts are accepted ----

  /** A digit, two digits, or white space or a sign and a digit; a zero byte may stand after a single digit. */
  predicate IsHexPair(s: string) {
    match |s|
    case 1 => IsDigit(s[0])
    case 2 =>
      || (IsDigit(s[0]) && (IsDigit(s[1]) || s[1] == '\0'))
      || ((s[0] == '+' || s[0] == '-' || IsSpace(s[0])) && IsDigit(s[1]))
    case _ => false
  }

  lemma PairAccepted(s: string)
    requires 1 <= |s| <= 2
    ensures ParseByte(s).Some? <==> IsHexPair(s)
  {
  }

  /** The two characters from `i` on, or the last one. */
  function PairAt(s: string, i: nat): string
    requires i < |s|
  {
    if i + 2 <= |s| then s[i..i + 2] else s[i..]
  }

  predicate AllPairs(s: string) {
    forall i :: 0 <= i < |s| && i % 2 == 0 ==> IsHexPair(PairAt(s, i))
  }

  lemma PairAfter(s: string, i: nat)
    requires |s| > 2 && 2 <= i < |s|
    ensures PairAt(s, i) == PairAt(s[2..], i - 2)
  {
  }

  lemma PairsAfterFirst(s: string)
    requires s != ""
    ensures AllPairs(s) <==> IsHexPair(PairAt(s, 0)) && (|s| > 2 ==> AllPairs(s[2..]))
  {
    if |s| > 2 {
      if AllPairs(s) {
        forall i | 0 <= i < |s[2..]| && i % 2 == 0
          ensures IsHexPair(PairAt(s[2..], i))
        {
          PairAfter(s, i + 2);
        }
      }
      if IsHexPair(PairAt(s, 0)) && AllPairs(s[2..]) {
        forall i | 0 <= i < |s| && i % 2 == 0
          ensures IsHexPair(PairAt(s, i))
        {
          if i > 0 {
            PairAfter(s, i);
          }
        }
      }
    }
  }

  /** A text is accepted exactly if all its pairs are, and yields one byte for each. */
  lemma {:induction false} PairsAccepted(s: string)
    ensures FromHexText(s).Ok? <==> AllPairs(s)
    ensures FromHexText(s).Ok? ==> |FromHexText(s).value| == (|s| + 1) / 2
    decreases |s|
  {
    if s != "" {
      var n := if |s| == 1 then 1 else 2;
      PairAccepted(s[..n]);
      assert PairAt(s, 0) == s[..n];
      PairsAfterFirst(s);
      PairsAccepted(s[n..]);
    }
  }

  /** The texts that are accepted, with or without the prefix. */
  lemma AcceptedExactly(s: string)
    ensures var digits := if HasPrefix(s) then s[2..] else s;
            && (FromHexSpec(s).Ok? <==> AllPairs(digits))
            && (FromHexSpec(s).Ok? ==> |FromHexSpec(s).value| == (|digits| + 1) / 2)
  {
    PairsAccepted(if HasPrefix(s) then s[2..] else s);
  }

  /** Not every accepted text is made of digits: a sign negates in 64 bits. */
  lemma SignIsAccepted()
    ensures !AllDigits("-1") && FromHexSpec("-1") == Ok([255])
  {
    var s := "-1";
    assert !IsDigit(s[0]);
    assert s[..2] == s && s[2..] == "";
    assert !MatchesAt(s, "0x", 0) by {
      NoPrefixAt(s, 0);
    }
    assert ParseByte(s) == Some(255);
    assert FromHexText(s) == Prepend([255], FromHexText(""));
    assert [255] + [] == [255];
  }

  // ---- round trips ----

  predicate IsDigit(c: char) {
    DigitValue(c).Some?
  }

  predicate AllDigits(s: string) {
    forall i :: 0 <= i < |s| ==> IsDigit(s[i])
  }

  function LowerDigit(c: char): char {
    match DigitValue(c) case None => c case Some(d) => DIGITS[d]
  }

  function LowerCase(s: string): string {
    seq(|s|, i requires 0 <= i < |s| => LowerDigit(s[i]))
  }

  lemma DigitsAreDigits(d: nat)
    requires d < 16
    ensures DigitValue(DIGITS[d]) == Some(d) && DIGITS[d] != '\0' && DIGITS[d] != 'x'
  {
  }

  lemma {:induction false} HexOfBytesIsDigits(data: seq<byte>)
    ensures AllDigits(ToHexText(data)) && |ToHexText(data)| == 2 * |data|
    ensures forall i :: 0 <= i < |ToHexText(data)| ==> ToHexText(data)[i] != 'x'
  {
    if data != [] {
      DigitsAreDigits(data[0] as nat / 16);
      DigitsAreDigits(data[0] as nat % 16);
      HexOfBytesIsDigits(data[1..]);
    }
  }

  lemma NoPrefixAt(s: string, i: nat)
    requires i + 1 < |s| ==> s[i + 1] != 'x'
    ensures !MatchesAt(s, "0x", i)
  {
  }

  /** Without another x, a text has the prefix exactly when it starts with it. */
  lemma PrefixWithoutX(s: string)
    requires forall i :: 0 <= i < |s| ==> s[i] != 'x'
    ensures !HasPrefix(s) && HasPrefix("0x" + s)
  {
    NoPrefixAt(s, 0);
    var t := "0x" + s;
    assert t[0..2] == "0x";
    FindFindsFirst(t, "0x", 1);
    forall i: nat | 1 <= i
      ensures !MatchesAt(t, "0x", i)
    {
      NoPrefixAt(t, i);
    }
  }

  lemma ParseOfWritten(b: byte)
    ensures ParseByte(ByteToHex(b)) == Some(b)
  {
    DigitsAreDigits(b as nat / 16);
    DigitsAreDigits(b as nat % 16);
  }

  /** Reading one pair of characters off the front. */
  lemma ReadPair(pair: string, rest: string)
    requires |pair| == 2 && ParseByte(pair).Some?
    ensures FromHexText(pair + rest) == Prepend([ParseByte(pair).value], FromHexText(rest))
  {
    assert (pair + rest)[..2] == pair && (pair + rest)[2..] == rest;
  }

  lemma {:induction false} ReadsWhatWasWritten(data: seq<byte>)
    ensures FromHexText(ToHexText(data)) == Ok(data)
  {
    if data != [] {
      ParseOfWritten(data[0]);
      ReadPair(ByteToHex(data[0]), ToHexText(data[1..]));
      ReadsWhatWasWritten(data[1..]);
      assert data == [data[0]] + data[1..];
    }
  }

  /** The digit, in lower case, that a text must have for a value. */
  predicate Denotes(c: char, value: nat) {
    if value < 10 then c as int == '0' as int + value else value < 16 && c as int == 'a' as int + value - 10
  }

  lemma DigitDenotes(d: nat)
    requires d < 16
    ensures Denotes(DIGITS[d], d)
  {
  }

  /** What is written: for each byte in order, the digit of its upper half and then that of its lower half. */
  lemma {:induction false} WritesExactly(data: seq<byte>)
    ensures |ToHexText(data)| == 2 * |data|
    ensures forall i :: 0 <= i < |data| ==>
              && Denotes(ToHexText(data)[2 * i], data[i] as nat / 16)
              && Denotes(ToHexText(data)[2 * i + 1], data[i] as nat % 16)
  {
    if data != [] {
      WritesExactly(data[1..]);
      DigitDenotes(data[0] as nat / 16);
      DigitDenotes(data[0] as nat % 16);
      var text, rest := ToHexText(data), ToHexText(data[1..]);
      forall i | 0 <= i < |data|
        ensures Denotes(text[2 * i], data[i] as nat / 16) && Denotes(text[2 * i + 1], data[i] as nat % 16)
      {
        if i > 0 {
          assert text[2 * i] == rest[2 * (i - 1)] && text[2 * i + 1] == rest[2 * (i - 1) + 1];
          assert data[i] == data[1..][i - 1];
        }
      }
    }
  }

  /** What a character is worth as a digit, in either case. */
  lemma DigitValueExactly(c: char, d: nat)
    ensures DigitValue(c) == Some(d) <==> Denotes(c, d) || (10 <= d < 16 && c as int == 'A' as int + d - 10)
  {
  }

  lemma {:induction false} ReadsDigits(s: string)
    requires AllDigits(s) && |s| % 2 == 0
    ensures var r := FromHexText(s);
            && r.Ok? && 2 * |r.value| == |s|
            && forall i :: 0 <= i < |r.value| ==>
                 r.value[i] as nat == 16 * DigitValue(s[2 * i]).value + DigitValue(s[2 * i + 1]).value
    decreases |s|
  {
    if s != "" {
      var pair, rest := s[..2], s[2..];
      assert s == pair + rest;
      var high, low := ParseOfDigits(pair);
      ReadPair(pair, rest);
      ReadsDigits(rest);
      var data := FromHexText(rest).value;
      forall i | 0 <= i < |data| + 1
        ensures ([(16 * high + low) as byte] + data)[i] as nat ==
                16 * DigitValue(s[2 * i]).value + DigitValue(s[2 * i + 1]).value
      {
        if i > 0 {
          assert s[2 * i] == rest[2 * (i - 1)] && s[2 * i + 1] == rest[2 * (i - 1) + 1];
        }
      }
    }
  }

  /** What is read from digits: each two make a byte, the upper half first. */
  lemma ReadsExactly(s: string)
    requires AllDigits(s) && |s| % 2 == 0
    ensures var r := FromHexSpec(s);
            && r.Ok? && 2 * |r.value| == |s|
            && forall i :: 0 <= i < |r.value| ==>
                 r.value[i] as nat == 16 * DigitValue(s[2 * i]).value + DigitValue(s[2 * i + 1]).value
  {
    forall i | 0 <= i < |s|
      ensures s[i] != 'x'
    {
      assert IsDigit(s[i]);
    }
    PrefixWithoutX(s);
    ReadsDigits(s);
  }

  /** Bytes to text and back, with or without the prefix. */
  lemma BytesRoundTrip(data: seq<byte>)
    ensures FromHexSpec(ToHexText(data)) == Ok(data)
    ensures FromHexSpec("0x" + ToHexText(data)) == Ok(data)
  {
    HexOfBytesIsDigits(data);
    PrefixWithoutX(ToHexText(data));
    ReadsWhatWasWritten(data);
    assert ("0x" + ToHexText(data))[2..] == ToHexText(data);
  }

  lemma HexOfDigits(high: nat, low: nat)
    requires high < 16 && low < 16
    ensures ByteToHex((16 * high + low) as byte) == [DIGITS[high], DIGITS[low]]
  {
    assert (16 * high + low) / 16 == high && (16 * high + low) % 16 == low;
  }

  lemma ParseOfDigits(pair: string) returns (high: nat, low: nat)
    requires |pair| == 2 && AllDigits(pair)
    ensures DigitValue(pair[0]) == Some(high) && DigitValue(pair[1]) == Some(low) && high < 16 && low < 16
    ensures ParseByte(pair) == Some((16 * high + low) as byte)
  {
    assert IsDigit(pair[0]) && IsDigit(pair[1]);
    high, low := DigitValue(pair[0]).value, DigitValue(pair[1]).value;
  }

  lemma LowerCaseOfPair(pair: string, high: nat, low: nat)
    requires |pair| == 2 && high < 16 && low < 16
    requires DigitValue(pair[0]) == Some(high) && DigitValue(pair[1]) == Some(low)
    ensures LowerCase(pair) == [DIGITS[high], DIGITS[low]]
  {
    var lower := LowerCase(pair);
    assert lower[0] == LowerDigit(pair[0]) && lower[1] == LowerDigit(pair[1]);
  }

  lemma WrittenOfParsed(pair: string)
    requires |pair| == 2 && AllDigits(pair)
    ensures ParseByte(pair).Some? && ByteToHex(ParseByte(pair).value) == LowerCase(pair)
  {
    var high, low := ParseOfDigits(pair);
    HexOfDigits(high, low);
    LowerCaseOfPair(pair, high, low);
  }

  lemma LowerCaseAppend(a: string, b: string)
    ensures LowerCase(a + b) == LowerCase(a) + LowerCase(b)
  {
  }

  lemma {:induction false} WritesWhatWasRead(s: string)
    requires AllDigits(s) && |s| % 2 == 0
    ensures FromHexText(s).Ok? && ToHexText(FromHexText(s).value) == LowerCase(s)
    decreases |s|
  {
    if s != "" {
      var pair, rest := s[..2], s[2..];
      assert s == pair + rest;
      WrittenOfParsed(pair);
      ReadPair(pair, rest);
      WritesWhatWasRead(rest);
      var b, data := ParseByte(pair).value, FromHexText(rest).value;
      assert ([b] + data)[0] == b && ([b] + data)[1..] == data;
      LowerCaseAppend(pair, rest);
    }
  }

  /** Text to bytes and back: an even number of digits comes back in lower case. */
  lemma TextRoundTrip(s: string)
    requires AllDigits(s) && |s| % 2 == 0
    ensures FromHexSpec(s).Ok? && ToHexText(FromHexSpec(s).value) == LowerCase(s)
  {
    forall i | 0 <= i < |s|
      ensures s[i] != 'x'
    {
      assert IsDigit(s[i]);
    }
    PrefixWithoutX(s);
    WritesWhatWasRead(s);
  }
}
