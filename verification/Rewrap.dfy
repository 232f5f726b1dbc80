/** Rewriting the base64 part of a PEM certificate into lines of 64 characters, as `loadPEMChain` does for each element. */
module Rewrap {
  import opened Bytes
  import opened Pem
  import opened PemChain

  const BEGIN: string := "-----BEGIN CERTIFICATE-----"
  const END: string := "-----END CERTIFICATE-----"
  const CERTIFICATE := Markers(BEGIN, END)

  function WithoutSpace(s: string): string {
    Without(IsSpace, s)
  }

  const LINE: nat := 64

  /** The loop's result: a line break after every 64 characters, except at the end. */
  function Wrap(s: string): string
    decreases |s|
  {
    if |s| <= LINE then s else s[..LINE] + "\n" + Wrap(s[LINE..])
  }

  /** `findEndOfNextMarker`: a 64-bit `npos` plus the marker's length wraps around to the length minus one. */
  function EndOfNextMarker(pem: string, marker: string): int {
    match Find(pem, marker, 0)
    case None => |marker| - 1
    case Some(at) => at + |marker|
  }

  /** What rewriting puts between the end of the begin marker and the start of the end marker. */
  function Between(pem: string, endBeginMarker: nat, startEndMarker: nat): string
    requires endBeginMarker <= startEndMarker <= |pem|
  {
    var base64 := if startEndMarker == endBeginMarker then pem[endBeginMarker..]  // a length of npos
                  else pem[endBeginMarker..startEndMarker - 1];
    "\n" + Wrap(WithoutSpace(base64)) + "\n"
  }

  function Reformat(pem: string): string {
    var endBeginMarker := EndOfNextMarker(pem, BEGIN);
    match Find(pem, END, endBeginMarker)
    case None => pem
    case Some(startEndMarker) =>
      pem[..endBeginMarker] + Between(pem, endBeginMarker, startEndMarker) + pem[startEndMarker..]
  }

  lemma Surrounded(a: string, inner: string, c: string)
    ensures a + "\n" + inner + "\n" + c == a + ("\n" + inner + "\n") + c
  {
  }

  lemma WrapStep(done: string, rest: string)
    ensures |rest| > LINE ==> done + Wrap(rest) == (done + rest[..LINE] + "\n") + Wrap(rest[LINE..])
  {
    if |rest| > LINE {
      Associative(done, rest[..LINE] + "\n", Wrap(rest[LINE..]));
      Associative(done, rest[..LINE], "\n");
    }
  }

  method SplitLines(base64: string) returns (splittedBase64: string)
    ensures splittedBase64 == Wrap(base64)
  {
    var iter := 0;
    splittedBase64 := "";
    assert base64[0..] == base64;
    while |base64| - iter > LINE
      invariant 0 <= iter <= |base64|
      invariant splittedBase64 + Wrap(base64[iter..]) == Wrap(base64)
      decreases |base64| - iter
    {
      WrapStep(splittedBase64, base64[iter..]);
      assert base64[iter..][..LINE] == base64[iter..iter + LINE] && base64[iter..][LINE..] == base64[iter + LINE..];
      splittedBase64 := splittedBase64 + base64[iter..iter + LINE] + "\n";
      iter := iter + LINE;
    }
    splittedBase64 := splittedBase64 + base64[iter..];
  }

  method ReformatPEMCertificate(pem: string) returns (r: string)
    ensures r == Reformat(pem)
  {
    var endBeginMarker := EndOfNextMarker(pem, BEGIN);
    var startEndMarker := Find(pem, END, endBeginMarker);
    if startEndMarker.None? {
      return pem;
    }
    var prevBase64, postBase64 := pem[..endBeginMarker], pem[startEndMarker.value..];
    var base64 := if startEndMarker.value == endBeginMarker then pem[endBeginMarker..]
                  else pem[endBeginMarker..startEndMarker.value - 1];
    base64 := WithoutSpace(base64);
    var splittedBase64 := SplitLines(base64);
    Surrounded(prevBase64, splittedBase64, postBase64);
    r := prevBase64 + "\n" + splittedBase64 + "\n" + postBase64;
  }

  // ---- lines ----

  predicate NoSpace(s: string) {
    forall i :: 0 <= i < |s| ==> !IsSpace(s[i])
  }

  lemma {:induction false} WrapLength(s: string)
    ensures |Wrap(s)| == |s| + (if s == "" then 0 else (|s| - 1) / LINE)
    decreases |s|
  {
    if |s| > LINE {
      WrapLength(s[LINE..]);
    }
  }

  lemma {:induction false} WrapBreaks(s: string, k: nat)
    requires NoSpace(s) && k < |Wrap(s)|
    ensures Wrap(s)[k] == '\n' <==> k % (LINE + 1) == LINE
    decreases |s|
  {
    if |s| > LINE {
      if k > LINE {
        var j := k - (LINE + 1);
        assert Wrap(s)[k] == Wrap(s[LINE..])[j];
        WrapBreaks(s[LINE..], j);
        assert k % (LINE + 1) == j % (LINE + 1);
      }
    }
  }

  /** Every line is exactly 64 characters long, except a last line of one to 64. */
  predicate InLines(w: string) {
    && (forall k :: 0 <= k < |w| ==> (w[k] == '\n' <==> k % 65 == 64))
    && (w != "" ==> w[|w| - 1] != '\n')
  }

  lemma {:induction false} WrapLines(s: string)
    requires NoSpace(s)
    ensures InLines(Wrap(s)) && |Wrap(s)| == |s| + (if s == "" then 0 else (|s| - 1) / LINE)
  {
    WrapLength(s);
    forall k | 0 <= k < |Wrap(s)|
      ensures Wrap(s)[k] == '\n' <==> k % (LINE + 1) == LINE
    {
      WrapBreaks(s, k);
    }
    if s != "" {
      LastLine(|s|);
    }
  }

  lemma LastLine(n: nat)
    requires n > 0
    ensures (n + (n - 1) / LINE - 1) % (LINE + 1) != LINE
  {
    var lines, rest := (n - 1) / LINE, (n - 1) % LINE;
    assert n + lines - 1 == (LINE + 1) * lines + rest;
  }

  /** Wrapping only inserts line breaks. */
  lemma {:induction false} WrapKeepsContent(s: string)
    requires NoSpace(s)
    ensures WithoutSpace(Wrap(s)) == s
    decreases |s|
  {
    if |s| <= LINE {
      WithoutNone(IsSpace, s);
    } else {
      WrapKeepsContent(s[LINE..]);
      WithoutNone(IsSpace, s[..LINE]);
      WithoutAppend(IsSpace, s[..LINE] + "\n", Wrap(s[LINE..]));
      WithoutAppend(IsSpace, s[..LINE], "\n");
      assert s == s[..LINE] + s[LINE..];
    }
  }

  lemma {:induction false} WrapAddsOnlyBreaks(s: string, k: nat)
    requires NoSpace(s) && k < |Wrap(s)|
    ensures IsSpace(Wrap(s)[k]) ==> Wrap(s)[k] == '\n'
    decreases |s|
  {
    if |s| > LINE && k > LINE {
      assert Wrap(s)[k] == Wrap(s[LINE..])[k - (LINE + 1)];
      WrapAddsOnlyBreaks(s[LINE..], k - (LINE + 1));
    }
  }

  /** Lines of 64 characters, and no white space but the breaks between them. */
  predicate IsWrapped(x: string) {
    && InLines(x)
    && forall k :: 0 <= k < |x| && IsSpace(x[k]) ==> x[k] == '\n'
  }

  lemma FirstLine(x: string)
    requires IsWrapped(x) && |x| > LINE
    ensures |x| > LINE + 1 && x[LINE] == '\n' && NoSpace(x[..LINE]) && IsWrapped(x[LINE + 1..])
  {
    var rest := x[LINE + 1..];
    forall k | 0 <= k < |rest|
      ensures rest[k] == '\n' <==> k % (LINE + 1) == LINE
    {
      assert rest[k] == x[k + (LINE + 1)];
      assert (k + (LINE + 1)) % (LINE + 1) == k % (LINE + 1);
    }
  }

  lemma {:induction false} WrapOfWrapped(x: string)
    requires IsWrapped(x)
    ensures Wrap(WithoutSpace(x)) == x
    decreases |x|
  {
    if |x| <= LINE {
      WithoutNone(IsSpace, x);
    } else {
      FirstLine(x);
      var line, rest := x[..LINE], x[LINE + 1..];
      WrapOfWrapped(rest);
      assert x == line + "\n" + rest;
      ContentOfLines(line, rest);
      WrapOfLines(line, WithoutSpace(rest));
    }
  }

  lemma ContentOfLines(line: string, rest: string)
    requires NoSpace(line)
    ensures WithoutSpace(line + "\n" + rest) == line + WithoutSpace(rest)
  {
    WithoutAppend(IsSpace, line + "\n", rest);
    WithoutAppend(IsSpace, line, "\n");
    assert WithoutSpace(line) == line by {
      WithoutNone(IsSpace, line);
    }
    assert WithoutSpace("\n") == "" by {
      WithoutAll(IsSpace, "\n");
    }
    assert line + "" == line;
  }

  lemma WrapOfLines(line: string, content: string)
    requires |line| == LINE && content != ""
    ensures Wrap(line + content) == line + "\n" + Wrap(content)
  {
    assert (line + content)[..LINE] == line && (line + content)[LINE..] == content;
  }

  /** The texts that wrapping their own content gives back are those in lines of 64 characters. */
  lemma WrappedExactly(x: string)
    ensures Wrap(WithoutSpace(x)) == x <==> IsWrapped(x)
  {
    if IsWrapped(x) {
      WrapOfWrapped(x);
    }
    if Wrap(WithoutSpace(x)) == x {
      NoneLeft(IsSpace, x);
      WrapLines(WithoutSpace(x));
      forall k | 0 <= k < |x| && IsSpace(x[k])
        ensures x[k] == '\n'
      {
        WrapAddsOnlyBreaks(WithoutSpace(x), k);
      }
    }
  }

  // ---- texts that are left alone ----

  /** A line break, wrapped lines, and a line break. */
  predicate IsFramed(middle: string) {
    |middle| >= 2 && middle[0] == '\n' && middle[|middle| - 1] == '\n' && IsWrapped(middle[1..|middle| - 1])
  }

  lemma Framing(inner: string, middle: string)
    ensures "\n" + inner + "\n" == middle <==>
            && |middle| >= 2 && middle[0] == '\n' && middle[|middle| - 1] == '\n'
            && middle[1..|middle| - 1] == inner
  {
    var out := "\n" + inner + "\n";
    assert out[0] == '\n' && out[|out| - 1] == '\n' && out[1..|out| - 1] == inner;
    if |middle| >= 2 && middle[0] == '\n' && middle[|middle| - 1] == '\n' {
      assert middle == "\n" + middle[1..|middle| - 1] + "\n";
    }
  }

  lemma WithoutBreak(x: string)
    ensures WithoutSpace("\n" + x) == WithoutSpace(x)
  {
    WithoutAppend(IsSpace, "\n", x);
    assert WithoutSpace("\n") + WithoutSpace(x) == WithoutSpace(x) by {
      WithoutAll(IsSpace, "\n");
    }
  }

  /** What stands between the markers is replaced by itself exactly if it is framed; the last character is lost. */
  lemma FramedExactly(middle: string)
    requires middle != ""
    ensures "\n" + Wrap(WithoutSpace(middle[..|middle| - 1])) + "\n" == middle <==> IsFramed(middle)
  {
    var kept := middle[..|middle| - 1];
    Framing(Wrap(WithoutSpace(kept)), middle);
    if |middle| >= 2 && middle[0] == '\n' {
      var x := middle[1..|middle| - 1];
      assert kept == "\n" + x;
      WithoutBreak(x);
      WrappedExactly(x);
    }
  }

  lemma ReplacedMiddle(pem: string, from: nat, to: nat, middle: string)
    requires from <= to <= |pem|
    ensures pem[..from] + middle + pem[to..] == pem <==> middle == pem[from..to]
  {
    var out := pem[..from] + middle + pem[to..];
    if out == pem {
      assert |middle| == to - from;
      assert out[from..to] == middle;
    }
  }

  lemma BetweenFramed(pem: string, b: nat, s: nat)
    requires b <= s <= |pem|
    ensures Between(pem, b, s) == pem[b..s] <==> IsFramed(pem[b..s])
  {
    if b < s {
      assert pem[b..s][..s - b - 1] == pem[b..s - 1];
      FramedExactly(pem[b..s]);
    }
  }

  /**
   * When rewriting leaves a text alone, with and without the begin marker: without an end marker after the begin
   * marker, or after position 26 where that is missing; or if what stands before the end marker is framed already.
   */
  lemma UnchangedExactly(pem: string)
    ensures var b := EndOfNextMarker(pem, BEGIN);
            && (Find(pem, BEGIN, 0).None? ==> b == 26)
            && match Find(pem, END, b)
               case None => Reformat(pem) == pem
               case Some(s) => Reformat(pem) == pem <==> IsFramed(pem[b..s])
  {
    var b := EndOfNextMarker(pem, BEGIN);
    var end := Find(pem, END, b);
    if end.Some? {
      ReplacedMiddle(pem, b, end.value, Between(pem, b, end.value));
      BetweenFramed(pem, b, end.value);
    }
  }

  /**
   * What becomes of any text: without an end marker after the begin marker, nothing. Otherwise what stands between
   * them, but for its last character, is replaced by its content in lines of 64 characters with a line break on
   * either side; everything up to the end of the begin marker, or up to position 26 where that is missing, and
   * everything from the end marker on stays. Where nothing stands between them, all that follows is repeated.
   */
  lemma ReformatExactly(pem: string) returns (lines: string)
    ensures var b := match Find(pem, BEGIN, 0) case None => 26 case Some(at) => at + 27;
            match Find(pem, END, b)
            case None => Reformat(pem) == pem
            case Some(s) => IsRewritten(pem, b, s, lines)
  {
    MarkerTexts();
    var b := EndOfNextMarker(pem, BEGIN);
    var end := Find(pem, END, b);
    lines := "";
    if end.Some? {
      lines := ReformatLines(pem, b, end.value);
    }
  }

  /** The content of a text in lines of 64 characters. */
  predicate AreLinesOf(lines: string, text: string) {
    IsWrapped(lines) && WithoutSpace(lines) == WithoutSpace(text)
  }

  /** What stands between two positions was replaced by such lines, and a line break on either side. */
  predicate IsRewritten(pem: string, b: nat, s: nat, lines: string)
    requires b <= s <= |pem|
  {
    && Reformat(pem) == pem[..b] + ("\n" + lines + "\n") + pem[s..]
    && AreLinesOf(lines, if s == b then pem[b..] else pem[b..s - 1])
  }

  lemma ReformatLines(pem: string, b: nat, s: nat) returns (lines: string)
    requires b == EndOfNextMarker(pem, BEGIN) && Find(pem, END, b) == Some(s)
    ensures IsRewritten(pem, b, s, lines)
  {
    var kept := if s == b then pem[b..] else pem[b..s - 1];
    lines := Wrap(WithoutSpace(kept));
    LinesOf(kept);
    ReformatParts(pem, b, s);
  }

  lemma ReformatParts(pem: string, b: nat, s: nat)
    requires b == EndOfNextMarker(pem, BEGIN) && Find(pem, END, b) == Some(s)
    ensures var lines := Wrap(WithoutSpace(if s == b then pem[b..] else pem[b..s - 1]));
            Reformat(pem) == pem[..b] + ("\n" + lines + "\n") + pem[s..]
  {
  }

  lemma LinesOf(kept: string)
    ensures AreLinesOf(Wrap(WithoutSpace(kept)), kept)
  {
    NoneLeft(IsSpace, kept);
    WrapKeepsContent(WithoutSpace(kept));
    WrappedExactly(Wrap(WithoutSpace(kept)));
  }

  lemma OnlyEndFound(filler: string, begin: string, end: string)
    requires end != "" && |end| < |begin| == |filler| && begin[0] !in filler && end[0] !in filler
    ensures Find(filler + end, begin, 0).None? && Find(filler + end, end, |begin| - 1) == Some(|begin|)
  {
    var text, found := filler + end, Find(filler + end, begin, 0);
    FindFindsFirst(text, begin, 0);
    if found.Some? {
      assert text[found.value] == filler[found.value];
      OtherStart(text, begin, found.value);
    }
    assert text[|begin| - 1] == filler[|begin| - 1];
    OtherStart(text, end, |begin| - 1);
    FindIs(text, end, |begin| - 1, |begin|);
  }

  lemma MarkerTexts()
    ensures |BEGIN| == 27 && |END| == 25 && BEGIN[0] == '-' && END[0] == '-'
  {
  }

  /** The missing begin marker is not noticed: the text comes back with its 27th character lost. */
  lemma HeadlessIsMangled(filler: string)
    requires |filler| == 27 && '-' !in filler
    ensures Find(filler + END, BEGIN, 0).None? && Reformat(filler + END) == filler[..26] + "\n\n" + END
  {
    var pem := filler + END;
    MarkerTexts();
    OnlyEndFound(filler, BEGIN, END);
    assert pem[26..26] == "" && Between(pem, 26, 27) == "\n\n";
    assert pem[..26] == filler[..26] && pem[27..] == END;
  }

  // ---- certificates from a chain ----

  /** `x` framed as a canonical element holds no end marker before the element's own. */
  predicate NoEarlyEnd(x: string) {
    forall i :: 0 <= i < |x| + 1 ==> !MatchesAt(x + "\n" + END, END, i)
  }

  lemma FramedText(x: string)
    ensures var pem := Canonical(CERTIFICATE, x);
            MatchesAt(pem, BEGIN, 0) && pem[|BEGIN|] == '\n'
  {
    var pem := Canonical(CERTIFICATE, x);
    assert pem == BEGIN + ("\n" + x + "\n" + END);
  }

  /** No end marker starts in the line break after the begin marker, or in the body. */
  lemma NoEndYet(x: string, k: nat)
    requires NoEarlyEnd(x) && k < 1 + |x| + 1
    ensures !MatchesAt(Canonical(CERTIFICATE, x), END, |BEGIN| + k)
  {
    if k == 0 {
      FramedText(x);
      OtherStart(Canonical(CERTIFICATE, x), END, |BEGIN|);
    } else {
      SameMatches(CERTIFICATE, x, k - 1);
    }
  }

  lemma MarkersFound(x: string)
    requires NoEarlyEnd(x)
    ensures var pem := Canonical(CERTIFICATE, x);
            && EndOfNextMarker(pem, BEGIN) == |BEGIN|
            && Find(pem, END, |BEGIN|) == Some(|BEGIN| + 1 + |x| + 1)
  {
    var pem, b := Canonical(CERTIFICATE, x), |BEGIN|;
    FramedText(x);
    FindIs(pem, BEGIN, 0, 0);
    var at := b + 1 + |x| + 1;
    CanonicalText(CERTIFICATE, x);
    SameMatches(CERTIFICATE, x, |x| + 1);
    forall i | b <= i < at
      ensures !MatchesAt(pem, END, i)
    {
      NoEndYet(x, i - b);
    }
    FindIs(pem, END, b, at);
  }

  lemma CanonicalParts(x: string)
    ensures var pem, b := Canonical(CERTIFICATE, x), |BEGIN|;
            && pem[..b] == BEGIN
            && pem[b..b + 1 + |x|] == "\n" + x
            && pem[b + 1 + |x| + 1..] == END
            && pem[b + 1..b + 1 + |x|] == x
  {
  }

  lemma BetweenCanonical(x: string)
    ensures var pem, b := Canonical(CERTIFICATE, x), |BEGIN|;
            b + 1 + |x| + 1 <= |pem| && Between(pem, b, b + 1 + |x| + 1) == "\n" + Wrap(WithoutSpace(x)) + "\n"
  {
    CanonicalParts(x);
    WithoutBreak(x);
  }

  /** A canonical element is rewritten to a canonical element over the wrapped body. */
  lemma ReformatCanonical(x: string)
    requires NoEarlyEnd(x)
    ensures Reformat(Canonical(CERTIFICATE, x)) == Canonical(CERTIFICATE, Wrap(WithoutSpace(x)))
  {
    MarkersFound(x);
    CanonicalParts(x);
    BetweenCanonical(x);
    Surrounded(BEGIN, Wrap(WithoutSpace(x)), END);
  }

  /** A wrapped body has no blank, and the end marker has one, so no end marker can start in it. */
  lemma WrappedHasNoEarlyEnd(content: string)
    requires NoSpace(content)
    ensures NoEarlyEnd(Wrap(content))
  {
    var x := Wrap(content);
    var text := x + "\n" + END;
    forall i | 0 <= i < |x| + 1
      ensures !MatchesAt(text, END, i)
    {
      if MatchesAt(text, END, i) {
        MatchedChar(text, END, i, 8);
        assert END[8] == ' ';
        if i + 8 < |x| {
          WrapAddsOnlyBreaks(content, i + 8);
        }
      }
    }
  }

  /** The text between the line breaks that follow the begin marker and precede the end marker. */
  function BodyOf(pem: string): string {
    if |BEGIN| + 1 + 1 + |END| <= |pem| then pem[|BEGIN| + 1..|pem| - |END| - 1] else ""
  }

  lemma BodyOfCanonical(x: string)
    ensures BodyOf(Canonical(CERTIFICATE, x)) == x
  {
    CanonicalParts(x);
  }

  /** Lines of 64 characters over the same content, and nothing left to rewrite. */
  predicate Rewrapped(element: string, out: string) {
    var content := WithoutSpace(BodyOf(element));
    && out == Canonical(CERTIFICATE, Wrap(content))
    && InLines(BodyOf(out)) && WithoutSpace(BodyOf(out)) == content
    && Reformat(out) == out
  }

  lemma ElementRewrapped(x: string)
    requires NoEarlyEnd(x)
    ensures Rewrapped(Canonical(CERTIFICATE, x), Reformat(Canonical(CERTIFICATE, x)))
  {
    var content := WithoutSpace(x);
    NoneLeft(IsSpace, x);
    ReformatCanonical(x);
    BodyOfCanonical(x);
    WrapLines(content);
    WrapKeepsContent(content);
    WrappedHasNoEarlyEnd(content);
    ReformatCanonical(Wrap(content));
    BodyOfCanonical(Wrap(content));
  }

  /** `loadPEMChain` without OpenSSL's parser: split, then rewrite every element. */
  method LoadPEMChain(pemChain: string) returns (r: Result<seq<string>, Error>)
    ensures match Split(CERTIFICATE, pemChain, 0, 0)
            case Err(e) => r == Err(e)
            case Ok(elements) =>
              && r.Ok? && |r.value| == |elements|
              && forall i :: 0 <= i < |elements| ==> r.value[i] == Reformat(elements[i])
  {
    var pemList := SplitPEMChain(pemChain, BEGIN, END);
    if pemList.Err? {
      return Err(pemList.error);
    }
    var certChain := ReformatAll(pemList.value);
    r := Ok(certChain);
  }

  method ReformatAll(pemList: seq<string>) returns (certChain: seq<string>)
    ensures |certChain| == |pemList|
    ensures forall i :: 0 <= i < |pemList| ==> certChain[i] == Reformat(pemList[i])
  {
    certChain := [];
    for i := 0 to |pemList|
      invariant |certChain| == i
      invariant forall j :: 0 <= j < i ==> certChain[j] == Reformat(pemList[j])
    {
      var certificate := ReformatPEMCertificate(pemList[i]);
      certChain := certChain + [certificate];
    }
  }

  lemma WellFormedHasNoEarlyEnd(p: Piece)
    requires WellFormed(CERTIFICATE, p)
    ensures NoEarlyEnd(p.body)
  {
    assert OneLine(END);
    CanonicalWellFormed(CERTIFICATE, p);
    assert OwnEnd(CERTIFICATE, p.body, "\n");
  }

  /** Every element of a chain that splits is rewritten to lines of 64 characters with its content unchanged. */
  lemma ChainRewrapped(pemChain: string, i: nat)
    requires Split(CERTIFICATE, pemChain, 0, 0).Ok? && i < |Split(CERTIFICATE, pemChain, 0, 0).value|
    ensures var element := Split(CERTIFICATE, pemChain, 0, 0).value[i];
            Rewrapped(element, Reformat(element))
  {
    var ps, tail := SplitIsOfRendering(CERTIFICATE, pemChain, 0, 0);
    CanonicalsAt(CERTIFICATE, ps, i);
    WellFormedHasNoEarlyEnd(ps[i]);
    ElementRewrapped(ps[i].body);
  }
}
