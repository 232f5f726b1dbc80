/**
 * Splitting a chain of PEM elements (sections 2 and 3 of RFC 7468) with arbitrary markers: the string searches and
 * the scanner.
 */
module Pem {
  import opened Bytes

  // ---- the string searches the scanner uses ----

  predicate IsBlank(c: char) {
    c == ' ' || c == '\r' || c == '\n' || c == '\t'
  }

  /** `std::isspace` in the C locale. */
  predicate IsSpace(c: char) {
    c == ' ' || '\t' <= c <= '\r'
  }

  predicate AllBlank(s: string) {
    forall i :: 0 <= i < |s| ==> IsBlank(s[i])
  }

  predicate MatchesAt(s: string, pattern: string, i: nat) {
    i + |pattern| <= |s| && s[i..i + |pattern|] == pattern
  }

  /** `std::string::find`: the first match at or after `from`. */
  function Find(s: string, pattern: string, from: nat): (r: Option<nat>)
    ensures r.Some? ==> from <= r.value && r.value + |pattern| <= |s|
    decreases |s| - from
  {
    if from + |pattern| > |s| then None
    else if MatchesAt(s, pattern, from) then Some(from)
    else Find(s, pattern, from + 1)
  }

  lemma {:induction false} FindFindsFirst(s: string, pattern: string, from: nat)
    ensures match Find(s, pattern, from)
            case None => forall i :: from <= i ==> !MatchesAt(s, pattern, i)
            case Some(at) => MatchesAt(s, pattern, at) && forall i :: from <= i < at ==> !MatchesAt(s, pattern, i)
    decreases |s| - from
  {
    if from + |pattern| <= |s| && !MatchesAt(s, pattern, from) {
      FindFindsFirst(s, pattern, from + 1);
    }
  }

  /** Only the first match is found. */
  lemma FindIs(s: string, pattern: string, from: nat, at: nat)
    requires from <= at && MatchesAt(s, pattern, at)
    requires forall i :: from <= i < at ==> !MatchesAt(s, pattern, i)
    ensures Find(s, pattern, from) == Some(at)
  {
    FindFindsFirst(s, pattern, from);
  }

  /** `find_first_not_of(" \r\n\t", from)` */
  function FirstNonBlank(s: string, from: nat): (r: Option<nat>)
    ensures r.Some? ==> from <= r.value < |s|
    decreases |s| - from
  {
    if from >= |s| then None
    else if !IsBlank(s[from]) then Some(from)
    else FirstNonBlank(s, from + 1)
  }

  lemma {:induction false} FirstNonBlankIsFirst(s: string, from: nat)
    ensures match FirstNonBlank(s, from)
            case None => forall i :: from <= i < |s| ==> IsBlank(s[i])
            case Some(at) => !IsBlank(s[at]) && forall i :: from <= i < at ==> IsBlank(s[i])
    decreases |s| - from
  {
    if from < |s| && IsBlank(s[from]) {
      FirstNonBlankIsFirst(s, from + 1);
    }
  }

  /** `find_last_not_of(" \r\n\t")` */
  function LastNonBlank(s: string): (r: Option<nat>)
    ensures r.Some? ==> r.value < |s|
  {
    if s == "" then None
    else if !IsBlank(s[|s| - 1]) then Some(|s| - 1)
    else LastNonBlank(s[..|s| - 1])
  }

  lemma {:induction false} LastNonBlankIsLast(s: string)
    ensures match LastNonBlank(s)
            case None => AllBlank(s)
            case Some(at) => !IsBlank(s[at]) && forall i :: at < i < |s| ==> IsBlank(s[i])
  {
    if s != "" && IsBlank(s[|s| - 1]) {
      LastNonBlankIsLast(s[..|s| - 1]);
    }
  }

  // ---- removing characters ----

  function Kept(drop: char -> bool, c: char): string {
    if drop(c) then "" else [c]
  }

  function Without(drop: char -> bool, s: string): string {
    if s == "" then "" else Kept(drop, s[0]) + Without(drop, s[1..])
  }

  lemma WithoutFirst(drop: char -> bool, c: char, rest: string)
    ensures Without(drop, [c] + rest) == Kept(drop, c) + Without(drop, rest)
  {
    assert ([c] + rest)[0] == c && ([c] + rest)[1..] == rest;
  }

  lemma {:induction false} WithoutAppend(drop: char -> bool, a: string, b: string)
    ensures Without(drop, a + b) == Without(drop, a) + Without(drop, b)
  {
    if a == "" {
      assert a + b == b;
    } else {
      var first, rest := a[0], a[1..];
      WithoutAppend(drop, rest, b);
      Associative([first], rest, b);
      assert a == [first] + rest;
      WithoutFirst(drop, first, rest);
      WithoutFirst(drop, first, rest + b);
      Associative(Kept(drop, first), Without(drop, rest), Without(drop, b));
    }
  }

  lemma {:induction false} WithoutAll(drop: char -> bool, s: string)
    requires forall i :: 0 <= i < |s| ==> drop(s[i])
    ensures Without(drop, s) == ""
  {
    if s != "" {
      WithoutAll(drop, s[1..]);
    }
  }

  lemma {:induction false} WithoutNone(drop: char -> bool, s: string)
    requires forall i :: 0 <= i < |s| ==> !drop(s[i])
    ensures Without(drop, s) == s
  {
    if s != "" {
      WithoutNone(drop, s[1..]);
      assert s == [s[0]] + s[1..];
    }
  }

  lemma {:induction false} NoneLeft(drop: char -> bool, s: string)
    ensures forall i :: 0 <= i < |Without(drop, s)| ==> !drop(Without(drop, s)[i])
  {
    if s != "" {
      NoneLeft(drop, s[1..]);
    }
  }

  // ---- the scanner ----

  datatype Error =
    | InvalidCharactersAtEnd
    | InvalidCharactersBefore(index: nat)
    | NoEndMarker(index: nat)
    | EmptyElement(index: nat)

  datatype Markers = Markers(begin: string, end: string)

  datatype Step = Exhausted | Broken(error: Error) | Element(body: string, next: nat)

  /** One turn of the scanner's loop, at position `pos` of the text. */
  function Scan(m: Markers, s: string, pos: nat, index: nat): Step
    requires pos <= |s|
  {
    match Find(s, m.begin, pos)
    case None => if FirstNonBlank(s[pos..], 0).Some? then Broken(InvalidCharactersAtEnd) else Exhausted
    case Some(begin) =>
      if FirstNonBlank(s[pos..begin], 0).Some? then Broken(InvalidCharactersBefore(index))
      else ScanBody(m, s, begin + |m.begin|, index)
  }

  /** The part of the turn that starts right after the begin marker. */
  function ScanBody(m: Markers, s: string, from: nat, index: nat): (r: Step)
    ensures r.Element? ==> from < r.next <= |s|
  {
    match FirstNonBlank(s, from)
    case None => Broken(NoEndMarker(index))  // `find` from `npos` finds nothing
    case Some(start) =>
      match Find(s, m.end, start)
      case None => Broken(NoEndMarker(index))
      case Some(end) =>
        match LastNonBlank(s[start..end])
        case None => Broken(EmptyElement(index))
        case Some(last) => Element(s[start..end][..last + 1], end + |m.end|)
  }

  /** A line break after the begin marker and before the end marker. */
  function Canonical(m: Markers, body: string): string {
    m.begin + "\n" + body + "\n" + m.end
  }

  function Split(m: Markers, s: string, pos: nat, index: nat): Result<seq<string>, Error>
    requires pos <= |s|
    decreases |s| - pos
  {
    if pos == |s| then Ok([])
    else
      match Scan(m, s, pos, index)
      case Exhausted => Ok([])
      case Broken(error) => Err(error)
      case Element(body, next) => Prepend([Canonical(m, body)], Split(m, s, next, index + 1))
  }

  /** How one turn advances the list that is being built. */
  lemma SplitFrom(m: Markers, s: string, pos: nat, index: nat, done: seq<string>)
    requires pos < |s|
    ensures var whole := Prepend(done, Split(m, s, pos, index));
            match Scan(m, s, pos, index)
            case Exhausted => whole == Ok(done)
            case Broken(error) => whole == Err(error)
            case Element(body, next) =>
              whole == Prepend(done + [Canonical(m, body)], Split(m, s, next, index + 1))
  {
    PrependTwice<string, Error>(done, [], Ok([]));
    var step := Scan(m, s, pos, index);
    if step.Element? {
      PrependTwice(done, [Canonical(m, step.body)], Split(m, s, step.next, index + 1));
    }
  }

  /** The body of the scanner's loop, up to the end marker of the element at `pos`. */
  method NextElement(pemChain: string, beginMarker: string, endMarker: string, pos: nat, index: nat) returns (r: Step)
    requires pos < |pemChain|
    ensures r == Scan(Markers(beginMarker, endMarker), pemChain, pos, index)
  {
    var nextBeginPos := Find(pemChain, beginMarker, pos);
    if nextBeginPos.None? {
      if FirstNonBlank(pemChain[pos..], 0).Some? {
        return Broken(InvalidCharactersAtEnd);
      }
      return Exhausted;
    }
    if nextBeginPos.value != pos {
      if FirstNonBlank(pemChain[pos..nextBeginPos.value], 0).Some? {
        return Broken(InvalidCharactersBefore(index));
      }
    } else {
      assert FirstNonBlank(pemChain[pos..pos], 0).None?;
    }
    assert Scan(Markers(beginMarker, endMarker), pemChain, pos, index)
        == ScanBody(Markers(beginMarker, endMarker), pemChain, nextBeginPos.value + |beginMarker|, index);
    var encodedPemBeginPos := FirstNonBlank(pemChain, nextBeginPos.value + |beginMarker|);
    if encodedPemBeginPos.None? {
      return Broken(NoEndMarker(index));
    }
    var nextEndPos := Find(pemChain, endMarker, encodedPemBeginPos.value);
    if nextEndPos.None? {
      return Broken(NoEndMarker(index));
    }
    var encodedPem := pemChain[encodedPemBeginPos.value..nextEndPos.value];
    var lastNonWhitespace := LastNonBlank(encodedPem);
    if lastNonWhitespace.None? {
      return Broken(EmptyElement(index));
    }
    r := Element(encodedPem[..lastNonWhitespace.value + 1], nextEndPos.value + |endMarker|);
  }

  /** The scanner's loop. `pos` strictly advances, so it ends on every input. */
  method SplitPEMChain(pemChain: string, beginMarker: string, endMarker: string) returns (r: Result<seq<string>, Error>)
    ensures r == Split(Markers(beginMarker, endMarker), pemChain, 0, 0)
  {
    ghost var m := Markers(beginMarker, endMarker);
    ghost var whole := Split(m, pemChain, 0, 0);
    var pos, index, pemList := 0, 0, [];
    PrependTwice([], [], whole);
    while pos < |pemChain|
      invariant 0 <= pos <= |pemChain|
      invariant whole == Prepend(pemList, Split(m, pemChain, pos, index))
      decreases |pemChain| - pos
    {
      SplitFrom(m, pemChain, pos, index, pemList);
      var step := NextElement(pemChain, beginMarker, endMarker, pos, index);
      match step
      case Exhausted => return Ok(pemList);
      case Broken(error) => return Err(error);
      case Element(encodedPem, next) =>
        var certificatePem := beginMarker + "\n" + encodedPem + "\n" + endMarker;
        pemList := pemList + [certificatePem];
        pos := next;
        index := index + 1;
    }
    PrependTwice<string, Error>(pemList, [], Ok([]));
    r := Ok(pemList);
  }
}
