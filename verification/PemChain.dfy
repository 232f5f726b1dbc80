/**
 * Which texts the PEM splitter accepts, and what it makes of them: it accepts exactly the renderings of lists of
 * elements, returns their canonical forms, and leaves canonical text alone.
 */
module PemChain {
  import opened Bytes
  import opened Pem

  /** An element as it may be written: white space before it, and around its body. */
  datatype Piece = Piece(before: string, lead: string, body: string, trail: string)

  predicate Trimmed(body: string) {
    body != "" && !IsBlank(body[0]) && !IsBlank(body[|body| - 1])
  }

  /** The first end marker after the start of the body is the element's own. */
  predicate OwnEnd(m: Markers, body: string, trail: string) {
    forall i :: 0 <= i < |body| + |trail| ==> !MatchesAt(body + trail + m.end, m.end, i)
  }

  predicate WellFormed(m: Markers, p: Piece) {
    AllBlank(p.before) && AllBlank(p.lead) && AllBlank(p.trail) && Trimmed(p.body) && OwnEnd(m, p.body, p.trail)
  }

  function Render(m: Markers, p: Piece): string {
    p.before + m.begin + p.lead + p.body + p.trail + m.end
  }

  function RenderAll(m: Markers, ps: seq<Piece>, tail: string): string {
    if ps == [] then tail else Render(m, ps[0]) + RenderAll(m, ps[1..], tail)
  }

  predicate AllWellFormed(m: Markers, ps: seq<Piece>) {
    forall i :: 0 <= i < |ps| ==> WellFormed(m, ps[i])
  }

  /** White space after the last element, in which no begin marker is found. */
  predicate Ends(m: Markers, tail: string) {
    AllBlank(tail) && (tail != "" ==> Find(tail, m.begin, 0).None?)
  }

  function Canonicals(m: Markers, ps: seq<Piece>): seq<string> {
    if ps == [] then [] else [Canonical(m, ps[0].body)] + Canonicals(m, ps[1..])
  }

  // ---- one element, in place ----

  function BeginAt(p: Piece, pos: nat): nat { pos + |p.before| }

  function BodyAt(m: Markers, p: Piece, pos: nat): nat { BeginAt(p, pos) + |m.begin| + |p.lead| }

  function EndAt(m: Markers, p: Piece, pos: nat): nat { BodyAt(m, p, pos) + |p.body| + |p.trail| }

  /** The six parts of `p` stand one after the other in `s` from `pos` on. */
  predicate Laid(m: Markers, s: string, pos: nat, p: Piece) {
    && MatchesAt(s, p.before, pos)
    && MatchesAt(s, m.begin, BeginAt(p, pos))
    && MatchesAt(s, p.lead, BeginAt(p, pos) + |m.begin|)
    && MatchesAt(s, p.body, BodyAt(m, p, pos))
    && MatchesAt(s, p.trail, BodyAt(m, p, pos) + |p.body|)
    && MatchesAt(s, m.end, EndAt(m, p, pos))
  }

  lemma MatchedChar(s: string, pattern: string, i: nat, k: nat)
    requires MatchesAt(s, pattern, i) && k < |pattern|
    ensures s[i + k] == pattern[k]
  {
    assert s[i..i + |pattern|][k] == s[i + k];
  }

  lemma OtherStart(s: string, pattern: string, i: nat)
    requires pattern != "" && i < |s| && s[i] != pattern[0]
    ensures !MatchesAt(s, pattern, i)
  {
  }

  /** A match inside a matched text is a match in the whole. */
  lemma MatchInside(s: string, text: string, start: nat, pattern: string, k: nat)
    requires MatchesAt(s, text, start) && k + |pattern| <= |text|
    ensures MatchesAt(s, pattern, start + k) <==> MatchesAt(text, pattern, k)
  {
    var inner, outer := text[k..k + |pattern|], s[start + k..start + k + |pattern|];
    forall j | 0 <= j < |pattern|
      ensures inner[j] == outer[j]
    {
      MatchedChar(s, text, start, k + j);
    }
    assert inner == outer;
  }

  predicate BlankFrom(s: string, from: nat, to: nat)
    requires to <= |s|
  {
    forall i :: from <= i < to ==> IsBlank(s[i])
  }

  lemma MatchedBlank(s: string, pattern: string, i: nat)
    requires MatchesAt(s, pattern, i) && AllBlank(pattern)
    ensures BlankFrom(s, i, i + |pattern|)
  {
    forall k | i <= k < i + |pattern|
      ensures IsBlank(s[k])
    {
      MatchedChar(s, pattern, i, k - i);
    }
  }

  /**
   * The scanner may meet the begin marker early, inside the white space before it, but only if the marker is
   * white space itself; either way only white space lies between what it has found and the body.
   */
  lemma BeginFound(m: Markers, s: string, pos: nat, p: Piece) returns (found: nat)
    requires AllBlank(p.before) && AllBlank(p.lead) && Laid(m, s, pos, p)
    ensures Find(s, m.begin, pos) == Some(found) && pos <= found <= BeginAt(p, pos)
    ensures BlankFrom(s, pos, found)
    ensures BlankFrom(s, found + |m.begin|, BodyAt(m, p, pos))
  {
    FindFindsFirst(s, m.begin, pos);
    var at := BeginAt(p, pos);
    found := Find(s, m.begin, pos).value;
    MatchedBlank(s, p.before, pos);
    MatchedBlank(s, p.lead, at + |m.begin|);
    if found < at {
      BeginIsBlank(m, s, pos, p, found, |m.begin|);
      MatchedBlank(s, m.begin, at);
    }
  }

  /** A marker that matches earlier within white space is white space, character by character. */
  lemma {:induction false} BeginIsBlank(m: Markers, s: string, pos: nat, p: Piece, found: nat, k: nat)
    requires AllBlank(p.before) && Laid(m, s, pos, p)
    requires pos <= found < BeginAt(p, pos) && MatchesAt(s, m.begin, found) && k <= |m.begin|
    ensures forall i :: 0 <= i < k ==> IsBlank(m.begin[i])
  {
    if k > 0 {
      BeginIsBlank(m, s, pos, p, found, k - 1);
      // The last of these characters stands at `found + k - 1`, before or inside the marker's own place.
      var at := BeginAt(p, pos);
      MatchedChar(s, m.begin, found, k - 1);
      if found + k - 1 < at {
        MatchedBlank(s, p.before, pos);
      } else {
        MatchedChar(s, m.begin, at, found + k - 1 - at);
      }
    }
  }

  lemma FirstNonBlankIs(s: string, from: nat, at: nat)
    requires from <= at < |s| && BlankFrom(s, from, at) && !IsBlank(s[at])
    ensures FirstNonBlank(s, from) == Some(at)
  {
    FirstNonBlankIsFirst(s, from);
  }

  lemma NoneWithin(s: string, from: nat, to: nat)
    requires from <= to <= |s|
    ensures FirstNonBlank(s[from..to], 0).None? <==> BlankFrom(s, from, to)
  {
    FirstNonBlankIsFirst(s[from..to], 0);
    if FirstNonBlank(s[from..to], 0).None? {
      forall i | from <= i < to
        ensures IsBlank(s[i])
      {
        assert s[from..to][i - from] == s[i];
      }
    }
  }

  lemma JoinMatches(s: string, a: string, b: string, i: nat)
    requires MatchesAt(s, a, i) && MatchesAt(s, b, i + |a|)
    ensures MatchesAt(s, a + b, i)
  {
    assert s[i..i + |a + b|] == s[i..i + |a|] + s[i + |a|..i + |a| + |b|];
  }

  lemma EndFound(m: Markers, s: string, pos: nat, p: Piece)
    requires WellFormed(m, p) && Laid(m, s, pos, p)
    ensures Find(s, m.end, BodyAt(m, p, pos)) == Some(EndAt(m, p, pos))
  {
    var start, end := BodyAt(m, p, pos), EndAt(m, p, pos);
    forall i | start <= i < end
      ensures !MatchesAt(s, m.end, i)
    {
      NoEndWithin(m, s, pos, p, i - start);
    }
    FindIs(s, m.end, start, end);
  }

  lemma NoEndWithin(m: Markers, s: string, pos: nat, p: Piece, k: nat)
    requires WellFormed(m, p) && Laid(m, s, pos, p) && k < |p.body| + |p.trail|
    ensures !MatchesAt(s, m.end, BodyAt(m, p, pos) + k)
  {
    var start := BodyAt(m, p, pos);
    JoinMatches(s, p.body, p.trail, start);
    JoinMatches(s, p.body + p.trail, m.end, start);
    MatchInside(s, p.body + p.trail + m.end, start, m.end, k);
  }

  lemma LastNonBlankIs(s: string, at: nat)
    requires at < |s| && !IsBlank(s[at]) && BlankFrom(s, at + 1, |s|)
    ensures LastNonBlank(s) == Some(at)
  {
    LastNonBlankIsLast(s);
  }

  lemma BodyEnds(m: Markers, s: string, pos: nat, p: Piece)
    requires WellFormed(m, p) && Laid(m, s, pos, p)
    ensures LastNonBlank(s[BodyAt(m, p, pos)..EndAt(m, p, pos)]) == Some(|p.body| - 1)
    ensures s[BodyAt(m, p, pos)..EndAt(m, p, pos)][..|p.body|] == p.body
  {
    var text := s[BodyAt(m, p, pos)..EndAt(m, p, pos)];
    JoinMatches(s, p.body, p.trail, BodyAt(m, p, pos));
    assert text == p.body + p.trail;
    LastNonBlankIs(text, |p.body| - 1);
  }

  /** Where an element stands in the text, the scanner finds the begin marker, and then the body. */
  lemma BodyAfterBegin(m: Markers, s: string, pos: nat, p: Piece) returns (found: nat)
    requires AllBlank(p.before) && AllBlank(p.lead) && Trimmed(p.body) && Laid(m, s, pos, p)
    ensures Find(s, m.begin, pos) == Some(found) && pos <= found && BlankFrom(s, pos, found)
    ensures FirstNonBlank(s, found + |m.begin|) == Some(BodyAt(m, p, pos))
  {
    found := BeginFound(m, s, pos, p);
    BodyStarts(m, s, pos, p, found + |m.begin|);
  }

  lemma BodyStarts(m: Markers, s: string, pos: nat, p: Piece, from: nat)
    requires Trimmed(p.body) && Laid(m, s, pos, p)
    requires from <= BodyAt(m, p, pos) && BlankFrom(s, from, BodyAt(m, p, pos))
    ensures FirstNonBlank(s, from) == Some(BodyAt(m, p, pos))
  {
    MatchedChar(s, p.body, BodyAt(m, p, pos), 0);
    FirstNonBlankIs(s, from, BodyAt(m, p, pos));
  }

  lemma ScanBegins(m: Markers, s: string, pos: nat, index: nat, found: nat)
    requires Find(s, m.begin, pos) == Some(found) && pos <= found && BlankFrom(s, pos, found)
    ensures Scan(m, s, pos, index) == ScanBody(m, s, found + |m.begin|, index)
  {
    NoneWithin(s, pos, found);
  }

  /** The scanner reads a well-formed element as its body, and stops right after its end marker. */
  lemma ScanReads(m: Markers, s: string, pos: nat, index: nat, p: Piece)
    requires WellFormed(m, p) && Laid(m, s, pos, p)
    ensures Scan(m, s, pos, index) == Element(p.body, EndAt(m, p, pos) + |m.end|)
  {
    var found := BodyAfterBegin(m, s, pos, p);
    ScanBegins(m, s, pos, index, found);
    EndFound(m, s, pos, p);
    BodyEnds(m, s, pos, p);
  }

  // ---- whole texts: rendering, then splitting ----

  lemma Peel(s: string, pos: nat, part: string, rest: string)
    requires pos <= |s| && s[pos..] == part + rest
    ensures MatchesAt(s, part, pos) && s[pos + |part|..] == rest
  {
    assert |s| == pos + |part| + |rest|;
    assert s[pos..pos + |part|] == s[pos..][..|part|];
    assert s[pos + |part|..] == s[pos..][|part|..];
  }

  lemma RenderNests(m: Markers, p: Piece, rest: string)
    ensures Render(m, p) + rest == p.before + (m.begin + (p.lead + (p.body + (p.trail + (m.end + rest)))))
    ensures |Render(m, p)| == |p.before| + |m.begin| + |p.lead| + |p.body| + |p.trail| + |m.end|
  {
  }

  lemma PeelThree(s: string, pos: nat, a: string, b: string, c: string, rest: string)
    requires pos <= |s| && s[pos..] == a + (b + (c + rest))
    ensures MatchesAt(s, a, pos) && MatchesAt(s, b, pos + |a|) && MatchesAt(s, c, pos + |a| + |b|)
    ensures s[pos + |a| + |b| + |c|..] == rest
  {
    Peel(s, pos, a, b + (c + rest));
    Peel(s, pos + |a|, b, c + rest);
    Peel(s, pos + |a| + |b|, c, rest);
  }

  lemma RenderedIsLaid(m: Markers, s: string, pos: nat, p: Piece, rest: string)
    requires pos <= |s| && s[pos..] == Render(m, p) + rest
    ensures Laid(m, s, pos, p)
    ensures EndAt(m, p, pos) + |m.end| == pos + |Render(m, p)| <= |s|
    ensures s[EndAt(m, p, pos) + |m.end|..] == rest
  {
    RenderNests(m, p, rest);
    PeelThree(s, pos, p.before, m.begin, p.lead, p.body + (p.trail + (m.end + rest)));
    PeelThree(s, BodyAt(m, p, pos), p.body, p.trail, m.end, rest);
  }

  lemma TailScans(m: Markers, s: string, pos: nat, index: nat)
    requires pos <= |s| && Ends(m, s[pos..])
    ensures Split(m, s, pos, index) == Ok([])
  {
    if pos < |s| {
      FindFromSuffix(s, m.begin, pos);
      FirstNonBlankIsFirst(s[pos..], 0);
    }
  }

  lemma FindFromSuffix(s: string, pattern: string, pos: nat)
    requires pos <= |s|
    ensures Find(s, pattern, pos).None? <==> Find(s[pos..], pattern, 0).None?
  {
    FindFindsFirst(s, pattern, pos);
    FindFindsFirst(s[pos..], pattern, 0);
    assert MatchesAt(s, s[pos..], pos);
    var there, here := Find(s, pattern, pos), Find(s[pos..], pattern, 0);
    if there.Some? {
      MatchInside(s, s[pos..], pos, pattern, there.value - pos);
    }
    if here.Some? {
      MatchInside(s, s[pos..], pos, pattern, here.value);
    }
  }

  lemma ElementAdvances(m: Markers, s: string, pos: nat, p: Piece)
    requires WellFormed(m, p) && Laid(m, s, pos, p)
    ensures pos < EndAt(m, p, pos) + |m.end| <= |s|
  {
  }

  lemma SplitOfElement(m: Markers, s: string, pos: nat, index: nat, body: string, next: nat)
    requires pos < |s| && pos < next <= |s| && Scan(m, s, pos, index) == Element(body, next)
    ensures Split(m, s, pos, index) == Prepend([Canonical(m, body)], Split(m, s, next, index + 1))
  {
  }

  lemma RenderedStep(m: Markers, s: string, pos: nat, index: nat, p: Piece, rest: string, others: seq<string>)
    returns (next: nat)
    requires pos <= |s| && s[pos..] == Render(m, p) + rest && WellFormed(m, p)
    ensures next <= |s| && s[next..] == rest
    ensures Split(m, s, next, index + 1) == Ok(others) ==>
              Split(m, s, pos, index) == Ok([Canonical(m, p.body)] + others)
    ensures next == pos + |Render(m, p)|
    ensures Split(m, s, next, index + 1).Err? ==> Split(m, s, pos, index) == Split(m, s, next, index + 1)
  {
    RenderedIsLaid(m, s, pos, p, rest);
    ElementAdvances(m, s, pos, p);
    ScanReads(m, s, pos, index, p);
    next := EndAt(m, p, pos) + |m.end|;
    SplitOfElement(m, s, pos, index, p.body, next);
  }

  lemma {:induction false} SplitsRendered(
      m: Markers, s: string, pos: nat, index: nat, ps: seq<Piece>, tail: string)
    requires pos <= |s| && s[pos..] == RenderAll(m, ps, tail)
    requires AllWellFormed(m, ps) && Ends(m, tail)
    ensures Split(m, s, pos, index) == Ok(Canonicals(m, ps))
    decreases |ps|
  {
    if ps == [] {
      TailScans(m, s, pos, index);
    } else {
      var p, rest := ps[0], RenderAll(m, ps[1..], tail);
      var next := RenderedStep(m, s, pos, index, p, rest, Canonicals(m, ps[1..]));
      SplitsRendered(m, s, next, index + 1, ps[1..], tail);
    }
  }

  /** Printing, then splitting: every rendering splits into the canonical forms of its elements, in order. */
  lemma RenderThenSplit(m: Markers, ps: seq<Piece>, tail: string)
    requires AllWellFormed(m, ps) && Ends(m, tail)
    ensures Split(m, RenderAll(m, ps, tail), 0, 0) == Ok(Canonicals(m, ps))
  {
    var s := RenderAll(m, ps, tail);
    assert s[0..] == s;
    SplitsRendered(m, s, 0, 0, ps, tail);
  }

  // ---- splitting, then rendering ----

  lemma BlankSlice(s: string, from: nat, to: nat)
    requires from <= to <= |s| && BlankFrom(s, from, to)
    ensures AllBlank(s[from..to])
  {
  }

  lemma SlicesJoin(s: string, a: nat, b: nat)
    requires a <= b <= |s|
    ensures s[a..] == s[a..b] + s[b..]
  {
  }

  /** The end marker that `find` returns is the first one in the text up to it. */
  lemma FoundIsFirst(s: string, pattern: string, start: nat)
    requires Find(s, pattern, start).Some?
    ensures var end := Find(s, pattern, start).value;
            forall i :: 0 <= i < end - start ==> !MatchesAt(s[start..end] + pattern, pattern, i)
  {
    FindFindsFirst(s, pattern, start);
    var end := Find(s, pattern, start).value;
    var text := s[start..end];
    JoinMatches(s, text, pattern, start);
    forall i | 0 <= i < |text|
      ensures !MatchesAt(text + pattern, pattern, i)
    {
      MatchInside(s, text + pattern, start, pattern, i);
    }
  }

  /** Cutting the white space off the end of a body. */
  lemma TrimmedBody(text: string, stop: nat)
    requires 0 < stop <= |text| && !IsBlank(text[0]) && !IsBlank(text[stop - 1]) && BlankFrom(text, stop, |text|)
    ensures Trimmed(text[..stop]) && AllBlank(text[stop..]) && text == text[..stop] + text[stop..]
  {
  }

  lemma ScanBodyParts(m: Markers, s: string, from: nat, index: nat) returns (start: nat, end: nat, stop: nat)
    requires ScanBody(m, s, from, index).Element?
    ensures FirstNonBlank(s, from) == Some(start) && Find(s, m.end, start) == Some(end)
    ensures start < end && 0 < stop && LastNonBlank(s[start..end]) == Some(stop - 1)
    ensures ScanBody(m, s, from, index) == Element(s[start..end][..stop], end + |m.end|)
  {
    start := FirstNonBlank(s, from).value;
    end := Find(s, m.end, start).value;
    stop := LastNonBlank(s[start..end]).value + 1;
  }

  lemma PartsAreWellFormed(m: Markers, s: string, from: nat, start: nat, end: nat, stop: nat)
    requires from <= |s| && FirstNonBlank(s, from) == Some(start) && Find(s, m.end, start) == Some(end)
    requires start < end && 0 < stop && LastNonBlank(s[start..end]) == Some(stop - 1)
    ensures var text := s[start..end];
            && AllBlank(s[from..start]) && AllBlank(text[stop..]) && Trimmed(text[..stop])
            && OwnEnd(m, text[..stop], text[stop..])
  {
    var text := s[start..end];
    assert !IsBlank(text[0]) && AllBlank(s[from..start]) by {
      FirstNonBlankIsFirst(s, from);
      BlankSlice(s, from, start);
    }
    assert !IsBlank(text[stop - 1]) && BlankFrom(text, stop, |text|) by {
      LastNonBlankIsLast(text);
    }
    TrimmedBody(text, stop);
    FoundIsFirst(s, m.end, start);
  }

  /** What the scanner reads from the start of a body on is a well-formed element. */
  lemma BodyOfPiece(m: Markers, s: string, from: nat, index: nat)
    returns (lead: string, body: string, trail: string, next: nat)
    requires from <= |s| && ScanBody(m, s, from, index).Element?
    ensures ScanBody(m, s, from, index) == Element(body, next) && next <= |s|
    ensures s[from..] == lead + (body + (trail + (m.end + s[next..])))
    ensures AllBlank(lead) && AllBlank(trail) && Trimmed(body) && OwnEnd(m, body, trail)
  {
    var start, end, stop := ScanBodyParts(m, s, from, index);
    var text := s[start..end];
    lead, body, trail, next := s[from..start], text[..stop], text[stop..], end + |m.end|;
    PartsAreWellFormed(m, s, from, start, end, stop);
    assert MatchesAt(s, m.end, end) by {
      FindFindsFirst(s, m.end, start);
    }
    TextInParts(s, from, start, end, m.end, body, trail, s[next..]);
  }

  lemma TextInParts(
      s: string, from: nat, start: nat, end: nat, marker: string, body: string, trail: string, rest: string)
    requires from <= start <= end && MatchesAt(s, marker, end) && s[start..end] == body + trail
    requires s[end + |marker|..] == rest
    ensures s[from..] == s[from..start] + (body + (trail + (marker + rest)))
  {
    SlicesJoin(s, from, start);
    SlicesJoin(s, start, end);
    SlicesJoin(s, end, end + |marker|);
    Associative(body, trail, marker + rest);
  }

  lemma ScanParts(m: Markers, s: string, pos: nat, index: nat) returns (begin: nat)
    requires pos <= |s| && Scan(m, s, pos, index).Element?
    ensures pos <= begin && MatchesAt(s, m.begin, begin) && AllBlank(s[pos..begin])
    ensures Scan(m, s, pos, index) == ScanBody(m, s, begin + |m.begin|, index)
  {
    begin := Find(s, m.begin, pos).value;
    FindFindsFirst(s, m.begin, pos);
    NoneWithin(s, pos, begin);
    BlankSlice(s, pos, begin);
  }

  lemma TextBegins(s: string, pos: nat, begin: nat, marker: string)
    requires pos <= begin && MatchesAt(s, marker, begin)
    ensures s[pos..] == s[pos..begin] + (marker + s[begin + |marker|..])
  {
    SlicesJoin(s, pos, begin);
    SlicesJoin(s, begin, begin + |marker|);
  }

  lemma PieceText(m: Markers, s: string, pos: nat, begin: nat, p: Piece, rest: string)
    requires pos <= begin && MatchesAt(s, m.begin, begin) && p.before == s[pos..begin]
    requires s[begin + |m.begin|..] == p.lead + (p.body + (p.trail + (m.end + rest)))
    ensures s[pos..] == Render(m, p) + rest
  {
    TextBegins(s, pos, begin, m.begin);
    RenderNests(m, p, rest);
  }

  lemma ScanOfPiece(m: Markers, s: string, pos: nat, index: nat) returns (p: Piece, next: nat)
    requires pos <= |s| && Scan(m, s, pos, index).Element?
    ensures Scan(m, s, pos, index) == Element(p.body, next) && pos < next <= |s|
    ensures WellFormed(m, p) && s[pos..] == Render(m, p) + s[next..]
  {
    var begin := ScanParts(m, s, pos, index);
    var lead, body, trail, after := BodyOfPiece(m, s, begin + |m.begin|, index);
    p, next := Piece(s[pos..begin], lead, body, trail), after;
    PieceText(m, s, pos, begin, p, s[next..]);
  }

  lemma {:induction false} SplitIsOfRendering(m: Markers, s: string, pos: nat, index: nat)
    returns (ps: seq<Piece>, tail: string)
    requires pos <= |s| && Split(m, s, pos, index).Ok?
    ensures s[pos..] == RenderAll(m, ps, tail) && AllWellFormed(m, ps) && Ends(m, tail)
    ensures Split(m, s, pos, index) == Ok(Canonicals(m, ps))
    decreases |s| - pos
  {
    if pos == |s| {
      ps, tail := [], "";
    } else {
      var step := Scan(m, s, pos, index);
      if step.Exhausted? {
        ps, tail := [], s[pos..];
        FindFromSuffix(s, m.begin, pos);
        FirstNonBlankIsFirst(tail, 0);
      } else {
        var p, next := ScanOfPiece(m, s, pos, index);
        var rest, end := SplitIsOfRendering(m, s, next, index + 1);
        ps, tail := [p] + rest, end;
        assert ps[1..] == rest;
      }
    }
  }

  /** The splitter accepts exactly the renderings of lists of well-formed elements. */
  lemma AcceptsExactlyRenderings(m: Markers, s: string)
    ensures Split(m, s, 0, 0).Ok? <==>
            exists ps: seq<Piece>, tail: string ::
              AllWellFormed(m, ps) && Ends(m, tail) && s == RenderAll(m, ps, tail)
  {
    if Split(m, s, 0, 0).Ok? {
      var ps, tail := SplitIsOfRendering(m, s, 0, 0);
      assert s[0..] == s;
    }
    forall ps: seq<Piece>, tail: string | AllWellFormed(m, ps) && Ends(m, tail) && s == RenderAll(m, ps, tail)
      ensures Split(m, s, 0, 0).Ok?
    {
      RenderThenSplit(m, ps, tail);
    }
  }

  // ---- conservation ----

  function WithoutBlanks(s: string): string {
    Without(IsBlank, s)
  }

  lemma PartAdded(a: string, blank: string, part: string)
    requires AllBlank(blank)
    ensures WithoutBlanks(a + blank + part) == WithoutBlanks(a) + WithoutBlanks(part)
  {
    WithoutAll(IsBlank, blank);
    WithoutAppend(IsBlank, a, blank);
    WithoutAppend(IsBlank, a + blank, part);
  }

  /** Blanks aside, only markers and body count. */
  lemma RenderWithoutBlanks(m: Markers, p: Piece)
    requires AllBlank(p.before) && AllBlank(p.lead) && AllBlank(p.trail)
    ensures WithoutBlanks(Render(m, p)) == WithoutBlanks(m.begin) + WithoutBlanks(p.body) + WithoutBlanks(m.end)
  {
    var begun := p.before + m.begin;
    assert WithoutBlanks(begun) == WithoutBlanks(m.begin) by {
      WithoutAll(IsBlank, p.before);
      WithoutAppend(IsBlank, p.before, m.begin);
    }
    PartAdded(begun, p.lead, p.body);
    PartAdded(begun + p.lead + p.body, p.trail, m.end);
  }

  function CanonicalPiece(p: Piece): Piece {
    Piece("", "\n", p.body, "\n")
  }

  lemma CanonicalIsRendering(m: Markers, p: Piece)
    ensures Render(m, CanonicalPiece(p)) == Canonical(m, p.body)
  {
    assert "" + m.begin == m.begin;
  }

  /** Blanks aside, an element and its canonical form are the same text. */
  lemma PieceConserved(m: Markers, p: Piece)
    requires WellFormed(m, p)
    ensures WithoutBlanks(Render(m, p)) == WithoutBlanks(Canonical(m, p.body))
  {
    RenderWithoutBlanks(m, p);
    RenderWithoutBlanks(m, CanonicalPiece(p));
    CanonicalIsRendering(m, p);
  }

  lemma {:induction false} RenderingConserved(m: Markers, ps: seq<Piece>, tail: string)
    requires AllWellFormed(m, ps) && AllBlank(tail)
    ensures WithoutBlanks(RenderAll(m, ps, tail)) == WithoutBlanks(Concat(Canonicals(m, ps)))
    decreases |ps|
  {
    if ps == [] {
      WithoutAll(IsBlank, tail);
    } else {
      PieceConserved(m, ps[0]);
      RenderingConserved(m, ps[1..], tail);
      var first := Canonical(m, ps[0].body);
      assert Canonicals(m, ps)[0] == first && Canonicals(m, ps)[1..] == Canonicals(m, ps[1..]);
      WithoutAppend(IsBlank, Render(m, ps[0]), RenderAll(m, ps[1..], tail));
      WithoutAppend(IsBlank, first, Concat(Canonicals(m, ps[1..])));
    }
  }

  /** Splitting loses and invents nothing but white space. */
  lemma SplitConserves(m: Markers, s: string)
    ensures var r := Split(m, s, 0, 0);
            r.Ok? ==> WithoutBlanks(Concat(r.value)) == WithoutBlanks(s)
  {
    if Split(m, s, 0, 0).Ok? {
      var ps, tail := SplitIsOfRendering(m, s, 0, 0);
      assert s[0..] == s;
      RenderingConserved(m, ps, tail);
    }
  }

  // ---- normal form ----

  function CanonicalPieces(ps: seq<Piece>): seq<Piece> {
    seq(|ps|, i requires 0 <= i < |ps| => CanonicalPiece(ps[i]))
  }

  predicate OneLine(s: string) {
    forall i :: 0 <= i < |s| ==> s[i] != '\n'
  }

  lemma EndIsNotEmpty(m: Markers, p: Piece)
    requires WellFormed(m, p)
    ensures m.end != ""
  {
    if m.end == "" {
      assert MatchesAt(p.body + p.trail + m.end, m.end, 0);
    }
  }

  /** With a one-line end marker, the inserted line break cannot complete a marker. */
  lemma CanonicalWellFormed(m: Markers, p: Piece)
    requires WellFormed(m, p) && OneLine(m.end)
    ensures WellFormed(m, CanonicalPiece(p))
  {
    EndIsNotEmpty(m, p);
    var text, original := p.body + "\n" + m.end, p.body + p.trail + m.end;
    forall i | 0 <= i < |p.body| + 1
      ensures !MatchesAt(text, m.end, i)
    {
      if i + |m.end| <= |p.body| {
        assert text[i..i + |m.end|] == p.body[i..i + |m.end|] == original[i..i + |m.end|];
        assert !MatchesAt(original, m.end, i);
      } else {
        assert text[|p.body|] == '\n';
        if MatchesAt(text, m.end, i) {
          MatchedChar(text, m.end, i, |p.body| - i);
        }
      }
    }
  }

  lemma {:induction false} CanonicalRendering(m: Markers, ps: seq<Piece>)
    ensures RenderAll(m, CanonicalPieces(ps), "") == Concat(Canonicals(m, ps))
    ensures Canonicals(m, CanonicalPieces(ps)) == Canonicals(m, ps)
    decreases |ps|
  {
    if ps != [] {
      var p := ps[0];
      assert CanonicalPieces(ps)[0] == CanonicalPiece(p) && CanonicalPieces(ps)[1..] == CanonicalPieces(ps[1..]);
      CanonicalRendering(m, ps[1..]);
      CanonicalIsRendering(m, p);
      assert Canonicals(m, ps)[1..] == Canonicals(m, ps[1..]);
    }
  }

  /** In an element, the first end marker after the line break that follows the begin marker is its last. */
  predicate EndsOnce(m: Markers, element: string) {
    Find(element, m.end, |m.begin| + 1) == Some(|element| - |m.end|)
  }

  /** Body, line break and end marker stand in a canonical element after the begin marker and its line break. */
  lemma CanonicalText(m: Markers, body: string)
    ensures MatchesAt(Canonical(m, body), m.begin + "\n", 0)
    ensures MatchesAt(Canonical(m, body), body + "\n" + m.end, |m.begin| + 1)
    ensures MatchesAt(body + "\n" + m.end, m.end, |body| + 1)
    ensures |Canonical(m, body)| == |m.begin| + 1 + |body| + 1 + |m.end|
  {
    assert Canonical(m, body) == (m.begin + "\n") + (body + "\n" + m.end);
  }

  lemma SameMatches(m: Markers, body: string, k: nat)
    requires k <= |body| + 1
    ensures MatchesAt(Canonical(m, body), m.end, |m.begin| + 1 + k) <==> MatchesAt(body + "\n" + m.end, m.end, k)
  {
    CanonicalText(m, body);
    MatchInside(Canonical(m, body), body + "\n" + m.end, |m.begin| + 1, m.end, k);
  }

  lemma NoEarlierEnd(m: Markers, body: string, k: nat)
    requires OwnEnd(m, body, "\n") && k < |body| + 1
    ensures !MatchesAt(Canonical(m, body), m.end, |m.begin| + 1 + k)
  {
    SameMatches(m, body, k);
  }

  lemma OwnEndEndsOnce(m: Markers, body: string)
    requires OwnEnd(m, body, "\n")
    ensures EndsOnce(m, Canonical(m, body))
  {
    var element, base := Canonical(m, body), |m.begin| + 1;
    CanonicalText(m, body);
    SameMatches(m, body, |body| + 1);
    forall i | base <= i < base + |body| + 1
      ensures !MatchesAt(element, m.end, i)
    {
      NoEarlierEnd(m, body, i - base);
    }
    FindIs(element, m.end, base, base + |body| + 1);
  }

  lemma EndsOnceIsOwnEnd(m: Markers, body: string)
    ensures EndsOnce(m, Canonical(m, body)) <==> OwnEnd(m, body, "\n")
  {
    if OwnEnd(m, body, "\n") {
      OwnEndEndsOnce(m, body);
    }
    if EndsOnce(m, Canonical(m, body)) {
      CanonicalText(m, body);
      FindFindsFirst(Canonical(m, body), m.end, |m.begin| + 1);
      forall i | 0 <= i < |body| + 1
        ensures !MatchesAt(body + "\n" + m.end, m.end, i)
      {
        SameMatches(m, body, i);
      }
    }
  }

  /** A marker that also matches one line break early consists of line breaks. */
  lemma {:induction false} BreaksOnly(s: string, marker: string, at: nat, k: nat)
    requires MatchesAt(s, "\n", at) && MatchesAt(s, marker, at) && MatchesAt(s, marker, at + 1) && k <= |marker|
    ensures forall i :: 0 <= i < k ==> marker[i] == '\n'
  {
    if k > 0 {
      BreaksOnly(s, marker, at, k - 1);
      MatchedChar(s, marker, at, k - 1);
      if k == 1 {
        MatchedChar(s, "\n", at, 0);
      } else {
        MatchedChar(s, marker, at + 1, k - 2);
      }
    }
  }

  /** The scan of an element goes on after the begin marker. */
  lemma ScanGoesOn(m: Markers, s: string, pos: nat, index: nat, found: nat, step: Step)
    requires pos <= |s| && Find(s, m.begin, pos) == Some(found) && step == Scan(m, s, pos, index) && step.Element?
    ensures step == ScanBody(m, s, found + |m.begin|, index)
  {
  }

  /** The end marker that the scanner finds stands after the body that it reads. */
  lemma EndAfterBody(m: Markers, s: string, from: nat, index: nat, start: nat, step: Step) returns (e: nat)
    requires step == ScanBody(m, s, from, index) && step.Element? && FirstNonBlank(s, from) == Some(start)
    ensures Find(s, m.end, start) == Some(e) && start + |step.body| <= e
  {
    var _, end, stop := ScanBodyParts(m, s, from, index);
    e := end;
  }

  lemma EndAfterBegin(m: Markers, s: string, pos: nat, index: nat, found: nat, start: nat, step: Step)
    returns (e: nat)
    requires pos <= |s| && Find(s, m.begin, pos) == Some(found) && FirstNonBlank(s, found + |m.begin|) == Some(start)
    requires step == Scan(m, s, pos, index) && step.Element?
    ensures Find(s, m.end, start) == Some(e) && start + |step.body| <= e
  {
    ScanGoesOn(m, s, pos, index, found, step);
    e := EndAfterBody(m, s, found + |m.begin|, index, start, step);
  }

  lemma FirstEndIs(s: string, marker: string, start: nat, e: nat, end: nat)
    requires Find(s, marker, start) == Some(e) && start <= end && MatchesAt(s, marker, end)
    ensures MatchesAt(s, marker, e) && e <= end
  {
    FindFindsFirst(s, marker, start);
  }

  /** Where the scanner finds the end of a canonical element whose body it reads unchanged. */
  lemma EndOfUnchangedBody(m: Markers, s: string, pos: nat, index: nat, p: Piece)
    requires Trimmed(p.body) && p == CanonicalPiece(p) && Laid(m, s, pos, p) && !OnlyLineBreaks(m.end)
    requires Scan(m, s, pos, index).Element? && Scan(m, s, pos, index).body == p.body
    ensures Find(s, m.end, BodyAt(m, p, pos)) == Some(EndAt(m, p, pos))
  {
    var found := BodyAfterBegin(m, s, pos, p);
    var e := EndAfterBegin(m, s, pos, index, found, BodyAt(m, p, pos), Scan(m, s, pos, index));
    FirstEndIs(s, m.end, BodyAt(m, p, pos), e, EndAt(m, p, pos));
    NotEarly(m, s, pos, p, e);
  }

  lemma NotEarly(m: Markers, s: string, pos: nat, p: Piece, e: nat)
    requires p.trail == "\n" && Laid(m, s, pos, p) && !OnlyLineBreaks(m.end)
    requires MatchesAt(s, m.end, e) && e <= EndAt(m, p, pos) <= e + 1
    ensures e == EndAt(m, p, pos)
  {
    if e + 1 == EndAt(m, p, pos) {
      BreaksOnly(s, m.end, e, |m.end|);
    }
  }

  predicate OnlyLineBreaks(marker: string) {
    forall i :: 0 <= i < |marker| ==> marker[i] == '\n'
  }

  lemma UnchangedIsOwn(m: Markers, s: string, pos: nat, index: nat, p: Piece)
    requires Trimmed(p.body) && p == CanonicalPiece(p) && Laid(m, s, pos, p) && !OnlyLineBreaks(m.end)
    requires Scan(m, s, pos, index).Element? && Scan(m, s, pos, index).body == p.body
    ensures WellFormed(m, p)
  {
    var start := BodyAt(m, p, pos);
    EndOfUnchangedBody(m, s, pos, index, p);
    OwnEndFound(m, s, start, p.body, p.trail);
  }

  lemma OwnEndFound(m: Markers, s: string, start: nat, body: string, trail: string)
    requires MatchesAt(s, body, start) && MatchesAt(s, trail, start + |body|)
    requires Find(s, m.end, start) == Some(start + |body| + |trail|)
    ensures OwnEnd(m, body, trail)
  {
    FoundIsFirst(s, m.end, start);
    JoinMatches(s, body, trail, start);
    assert s[start..start + |body| + |trail|] == body + trail;
  }

  predicate AllTrimmed(ps: seq<Piece>) {
    forall i :: 0 <= i < |ps| ==> Trimmed(ps[i].body)
  }

  lemma CanonicalInjective(m: Markers, a: string, b: string)
    requires Canonical(m, a) == Canonical(m, b)
    ensures a == b
  {
    var n := |m.begin| + 1;
    assert Canonical(m, a)[n..n + |a|] == a;
    assert Canonical(m, b)[n..n + |b|] == b;
  }

  lemma FirstOfCanonicals(m: Markers, s: string, pos: nat, index: nat, ps: seq<Piece>) returns (next: nat)
    requires ps != [] && pos < |s| && Split(m, s, pos, index) == Ok(Canonicals(m, ps))
    ensures Scan(m, s, pos, index) == Element(ps[0].body, next) && pos < next <= |s|
    ensures Split(m, s, next, index + 1) == Ok(Canonicals(m, ps[1..]))
  {
    var step, all := Scan(m, s, pos, index), Canonicals(m, ps);
    assert all == [Canonical(m, ps[0].body)] + Canonicals(m, ps[1..]);
    assert step.Element?;
    next := step.next;
    var tail := Split(m, s, next, index + 1);
    assert Prepend([Canonical(m, step.body)], tail) == Ok(all);
    assert all[0] == Canonical(m, step.body) && all[1..] == tail.value;
    CanonicalInjective(m, step.body, ps[0].body);
  }

  lemma ResplitStep(m: Markers, s: string, pos: nat, index: nat, ps: seq<Piece>, q: Piece) returns (next: nat)
    requires ps != [] && pos < |s| && Split(m, s, pos, index) == Ok(Canonicals(m, ps))
    requires q == CanonicalPiece(ps[0]) && Trimmed(q.body) && Laid(m, s, pos, q) && !OnlyLineBreaks(m.end)
    ensures WellFormed(m, q) && next == EndAt(m, q, pos) + |m.end| <= |s|
    ensures Split(m, s, next, index + 1) == Ok(Canonicals(m, ps[1..]))
  {
    next := FirstOfCanonicals(m, s, pos, index, ps);
    ResplitScan(m, s, pos, index, q, next);
  }

  lemma ResplitScan(m: Markers, s: string, pos: nat, index: nat, q: Piece, next: nat)
    requires Trimmed(q.body) && q == CanonicalPiece(q) && Laid(m, s, pos, q) && !OnlyLineBreaks(m.end)
    requires Scan(m, s, pos, index) == Element(q.body, next)
    ensures WellFormed(m, q) && next == EndAt(m, q, pos) + |m.end|
  {
    UnchangedIsOwn(m, s, pos, index, q);
    ScanReads(m, s, pos, index, q);
  }

  lemma FirstIsLaid(m: Markers, s: string, pos: nat, ps: seq<Piece>, q: Piece)
    requires ps != [] && q == CanonicalPiece(ps[0])
    requires pos <= |s| && s[pos..] == RenderAll(m, CanonicalPieces(ps), "")
    ensures Laid(m, s, pos, q) && pos < EndAt(m, q, pos) + |m.end| <= |s|
    ensures s[EndAt(m, q, pos) + |m.end|..] == RenderAll(m, CanonicalPieces(ps[1..]), "")
  {
    assert CanonicalPieces(ps)[0] == q && CanonicalPieces(ps)[1..] == CanonicalPieces(ps[1..]);
    RenderedIsLaid(m, s, pos, q, RenderAll(m, CanonicalPieces(ps[1..]), ""));
  }

  lemma ResplitFirst(m: Markers, s: string, pos: nat, index: nat, ps: seq<Piece>) returns (next: nat)
    requires pos <= |s| && s[pos..] == RenderAll(m, CanonicalPieces(ps), "") && AllTrimmed(ps) && ps != []
    requires !OnlyLineBreaks(m.end) && Split(m, s, pos, index) == Ok(Canonicals(m, ps))
    ensures WellFormed(m, CanonicalPiece(ps[0]))
    ensures next <= |s| && s[next..] == RenderAll(m, CanonicalPieces(ps[1..]), "")
    ensures Split(m, s, next, index + 1) == Ok(Canonicals(m, ps[1..]))
  {
    var q := CanonicalPiece(ps[0]);
    FirstIsLaid(m, s, pos, ps, q);
    next := ResplitStep(m, s, pos, index, ps, q);
  }

  /** If joined canonical elements split into themselves, each ends once. */
  lemma {:induction false} ResplitEndsOnce(
      m: Markers, s: string, pos: nat, index: nat, ps: seq<Piece>, i: nat)
    requires pos <= |s| && s[pos..] == RenderAll(m, CanonicalPieces(ps), "") && AllTrimmed(ps) && i < |ps|
    requires !OnlyLineBreaks(m.end) && Split(m, s, pos, index) == Ok(Canonicals(m, ps))
    ensures WellFormed(m, CanonicalPiece(ps[i]))
    decreases |ps|
  {
    var next := ResplitFirst(m, s, pos, index, ps);
    if i > 0 {
      ResplitEndsOnce(m, s, next, index + 1, ps[1..], i - 1);
    }
  }

  lemma {:induction false} CanonicalsAt(m: Markers, ps: seq<Piece>, i: nat)
    requires i < |Canonicals(m, ps)| || i < |ps|
    ensures |Canonicals(m, ps)| == |ps| && Canonicals(m, ps)[i] == Canonical(m, ps[i].body)
    decreases |ps|
  {
    if ps != [] {
      if i > 0 {
        CanonicalsAt(m, ps[1..], i - 1);
      } else if |ps| > 1 {
        CanonicalsAt(m, ps[1..], 0);
      }
    }
  }

  // ---- end markers of line breaks only ----

  /** The inserted line break goes after the end marker, where it looks the same: in front of the next element. */
  function Shifted(before: string, ps: seq<Piece>): seq<Piece>
    decreases |ps|
  {
    if ps == [] then [] else [Piece(before, "\n", ps[0].body, "")] + Shifted("\n", ps[1..])
  }

  lemma {:induction false} BreakMoves(marker: string)
    requires OnlyLineBreaks(marker)
    ensures "\n" + marker == marker + "\n"
  {
    var a, b := "\n" + marker, marker + "\n";
    forall i | 0 <= i < |a|
      ensures a[i] == '\n' && b[i] == '\n'
    {
      assert i > 0 ==> a[i] == marker[i - 1];
      assert i < |marker| ==> b[i] == marker[i];
    }
  }

  lemma ShiftedText(m: Markers, before: string, body: string, rest: string)
    requires OnlyLineBreaks(m.end)
    ensures Render(m, Piece(before, "\n", body, "")) + ("\n" + rest) == before + Canonical(m, body) + rest
  {
    var front := before + (m.begin + "\n" + body);
    BreakMoves(m.end);
    assert Render(m, Piece(before, "\n", body, "")) + ("\n" + rest) == front + (m.end + "\n") + rest;
    assert front + ("\n" + m.end) + rest == before + Canonical(m, body) + rest;
  }

  /** The joined elements are a rendering of the shifted pieces, and one line break. */
  lemma {:induction false} ShiftedRendering(m: Markers, before: string, ps: seq<Piece>)
    requires OnlyLineBreaks(m.end) && ps != []
    ensures RenderAll(m, Shifted(before, ps), "\n") == before + Concat(Canonicals(m, ps))
    ensures Canonicals(m, Shifted(before, ps)) == Canonicals(m, ps)
    decreases |ps|
  {
    var p, rest := Piece(before, "\n", ps[0].body, ""), Concat(Canonicals(m, ps[1..]));
    var shifted := Shifted(before, ps);
    assert shifted[0] == p && shifted[1..] == Shifted("\n", ps[1..]);
    assert Canonicals(m, ps)[1..] == Canonicals(m, ps[1..]);
    ShiftedText(m, before, ps[0].body, rest);
    if |ps| > 1 {
      ShiftedRendering(m, "\n", ps[1..]);
    } else {
      assert rest == "" && "\n" + rest == "\n";
    }
    assert RenderAll(m, shifted, "\n") == Render(m, p) + ("\n" + rest);
    Associative(before, Canonical(m, ps[0].body), rest);
  }

  lemma ShiftedWellFormed(m: Markers, p: Piece, before: string)
    requires WellFormed(m, p) && OnlyLineBreaks(m.end) && AllBlank(before)
    ensures WellFormed(m, Piece(before, "\n", p.body, ""))
  {
    EndIsNotEmpty(m, p);
    var text, original := p.body + "" + m.end, p.body + p.trail + m.end;
    assert text[|p.body| - 1] == p.body[|p.body| - 1];
    forall i | 0 <= i < |p.body|
      ensures !MatchesAt(text, m.end, i)
    {
      if i + |m.end| <= |p.body| {
        assert text[i..i + |m.end|] == p.body[i..i + |m.end|] == original[i..i + |m.end|];
        assert !MatchesAt(original, m.end, i);
      } else if MatchesAt(text, m.end, i) {
        MatchedChar(text, m.end, i, |p.body| - 1 - i);
      }
    }
  }

  lemma {:induction false} AllShiftedWellFormed(m: Markers, before: string, ps: seq<Piece>)
    requires AllWellFormed(m, ps) && OnlyLineBreaks(m.end) && AllBlank(before)
    ensures AllWellFormed(m, Shifted(before, ps))
    decreases |ps|
  {
    if ps != [] {
      ShiftedWellFormed(m, ps[0], before);
      AllShiftedWellFormed(m, "\n", ps[1..]);
    }
  }

  /** A begin marker that a single line break completes, or that is empty. */
  predicate BeginsAnywhere(m: Markers) {
    m.begin == "" || m.begin == "\n"
  }

  lemma BreakEnds(m: Markers)
    requires !BeginsAnywhere(m)
    ensures Ends(m, "\n")
  {
    FindFindsFirst("\n", m.begin, 0);
  }

  lemma BreakFails(m: Markers, s: string, pos: nat, index: nat)
    requires BeginsAnywhere(m) && pos < |s| && s[pos..] == "\n"
    ensures Split(m, s, pos, index).Err?
  {
    assert |s| == pos + 1 && s[pos] == '\n' == s[pos..][0];
    assert MatchesAt(s, m.begin, pos);
    FindIs(s, m.begin, pos, pos);
    assert s[pos..pos] == "";
    NoneWithin(s, pos + |m.begin|, |s|);
  }

  lemma {:induction false} FailsAtBreak(m: Markers, s: string, pos: nat, index: nat, ps: seq<Piece>)
    requires BeginsAnywhere(m) && AllWellFormed(m, ps)
    requires pos <= |s| && s[pos..] == RenderAll(m, ps, "\n")
    ensures Split(m, s, pos, index).Err?
    decreases |ps|
  {
    if ps == [] {
      BreakFails(m, s, pos, index);
    } else {
      var next := RenderedStep(m, s, pos, index, ps[0], RenderAll(m, ps[1..], "\n"), []);
      FailsAtBreak(m, s, next, index + 1, ps[1..]);
    }
  }

  /** With an end marker of line breaks only, splitting a joined list again works exactly with a begin marker of text. */
  lemma BreaksNormalForm(m: Markers, ps: seq<Piece>)
    requires OnlyLineBreaks(m.end) && AllWellFormed(m, ps)
    ensures Split(m, Concat(Canonicals(m, ps)), 0, 0) == Ok(Canonicals(m, ps)) <==> ps == [] || !BeginsAnywhere(m)
  {
    if ps != [] {
      var joined := Concat(Canonicals(m, ps));
      ShiftedRendering(m, "", ps);
      AllShiftedWellFormed(m, "", ps);
      assert "" + joined == joined && joined[0..] == joined;
      if BeginsAnywhere(m) {
        FailsAtBreak(m, joined, 0, 0, Shifted("", ps));
      } else {
        BreakEnds(m);
        RenderThenSplit(m, Shifted("", ps), "\n");
      }
    }
  }

  // ---- the normal form ----

  lemma TextNormalForm(m: Markers, ps: seq<Piece>)
    requires !OnlyLineBreaks(m.end) && AllWellFormed(m, ps)
    ensures Split(m, Concat(Canonicals(m, ps)), 0, 0) == Ok(Canonicals(m, ps)) <==>
            forall i :: 0 <= i < |Canonicals(m, ps)| ==> EndsOnce(m, Canonicals(m, ps)[i])
  {
    var list := Canonicals(m, ps);
    var joined := Concat(list);
    CanonicalRendering(m, ps);
    assert joined[0..] == joined;
    if Split(m, joined, 0, 0) == Ok(list) {
      forall i | 0 <= i < |list|
        ensures EndsOnce(m, list[i])
      {
        CanonicalsAt(m, ps, i);
        ResplitEndsOnce(m, joined, 0, 0, ps, i);
        EndsOnceIsOwnEnd(m, ps[i].body);
      }
    }
    if forall i :: 0 <= i < |list| ==> EndsOnce(m, list[i]) {
      forall i | 0 <= i < |ps|
        ensures WellFormed(m, CanonicalPieces(ps)[i])
      {
        CanonicalsAt(m, ps, i);
        EndsOnceIsOwnEnd(m, ps[i].body);
      }
      RenderThenSplit(m, CanonicalPieces(ps), "");
    }
  }

  /**
   * When splitting again gives the same list, for all markers: with an end marker of line breaks only, exactly if the
   * list is empty or the begin marker is neither empty nor one line break; with any other, exactly if in each element
   * of the list the first end marker is the last.
   */
  lemma NormalFormExactly(m: Markers, s: string)
    ensures var r := Split(m, s, 0, 0);
            r.Ok? ==>
              (Split(m, Concat(r.value), 0, 0) == r <==>
               if OnlyLineBreaks(m.end) then r.value == [] || !BeginsAnywhere(m)
               else forall i :: 0 <= i < |r.value| ==> EndsOnce(m, r.value[i]))
  {
    if Split(m, s, 0, 0).Ok? {
      var ps, tail := SplitIsOfRendering(m, s, 0, 0);
      if OnlyLineBreaks(m.end) {
        BreaksNormalForm(m, ps);
      } else {
        TextNormalForm(m, ps);
      }
    }
  }

  /** Whatever was split, splitting the joined result gives the same list again. */
  lemma SplitIsNormalForm(m: Markers, s: string)
    requires OneLine(m.end)
    ensures var r := Split(m, s, 0, 0);
            r.Ok? ==> Split(m, Concat(r.value), 0, 0) == r
  {
    if Split(m, s, 0, 0).Ok? {
      var ps, tail := SplitIsOfRendering(m, s, 0, 0);
      forall i | 0 <= i < |ps|
        ensures WellFormed(m, CanonicalPieces(ps)[i])
      {
        CanonicalWellFormed(m, ps[i]);
      }
      CanonicalRendering(m, ps);
      RenderThenSplit(m, CanonicalPieces(ps), "");
    }
  }

  /** A text with white space of each kind, and its elements. */
  lemma SplitsThis()
    ensures Split(Markers("{", "}"), "\t{\r\n a b \n} {c}\n", 0, 0) == Ok(["{\na b\n}", "{\nc\n}"])
  {
    var m := Markers("{", "}");
    var p, q := Piece("\t", "\r\n ", "a b", " \n"), Piece(" ", "", "c", "");
    BracesWellFormed(m, p);
    BracesWellFormed(m, q);
    BracesEnd(m);
    BracesText(m, p, q);
    RenderThenSplit(m, [p, q], "\n");
  }

  lemma BracesEnd(m: Markers)
    requires m == Markers("{", "}")
    ensures Ends(m, "\n")
  {
    var tail := "\n";
    FindFindsFirst(tail, m.begin, 0);
    OtherStart(tail, m.begin, 0);
  }

  lemma BracesText(m: Markers, p: Piece, q: Piece)
    requires m == Markers("{", "}")
    requires p == Piece("\t", "\r\n ", "a b", " \n") && q == Piece(" ", "", "c", "")
    ensures RenderAll(m, [p, q], "\n") == "\t{\r\n a b \n} {c}\n"
    ensures Canonicals(m, [p, q]) == ["{\na b\n}", "{\nc\n}"]
  {
    var ps := [p, q];
    assert ps[1..] == [q] && [q][1..] == [];
    assert Render(m, p) == "\t{\r\n a b \n}" && Render(m, q) == " {c}";
    assert RenderAll(m, [q], "\n") == Render(m, q) + "\n";
    assert Canonical(m, "c") == "{\nc\n}" && Canonical(m, "a b") == "{\na b\n}";
    assert Canonicals(m, [q]) == [Canonical(m, "c")] + [];
  }

  lemma BracesWellFormed(m: Markers, p: Piece)
    requires m == Markers("{", "}") && AllBlank(p.before) && AllBlank(p.lead) && AllBlank(p.trail) && Trimmed(p.body)
    requires '}' !in p.body + p.trail
    ensures WellFormed(m, p)
  {
    var text := p.body + p.trail + m.end;
    forall i | 0 <= i < |p.body| + |p.trail|
      ensures !MatchesAt(text, m.end, i)
    {
      assert text[i] == (p.body + p.trail)[i];
      OtherStart(text, m.end, i);
    }
  }

  // ---- which texts are refused, and why ----

  predicate Fails(m: Markers, s: string, pos: nat, index: nat, e: Error) {
    pos <= |s| && Split(m, s, pos, index) == Err(e)
  }

  lemma FailsBefore(m: Markers, s: string, pos: nat, index: nat, p: Piece, rest: string, e: Error) returns (next: nat)
    requires pos <= |s| && s[pos..] == Render(m, p) + rest && WellFormed(m, p)
    ensures next <= |s| && s[next..] == rest
    ensures Fails(m, s, next, index + 1, e) ==> Fails(m, s, pos, index, e)
  {
    next := RenderedStep(m, s, pos, index, p, rest, []);
  }

  lemma FailsThere(m: Markers, s: string, pos: nat, index: nat, at: nat, e: Error)
    requires pos <= |s| && at <= |s| && s[pos..] == RenderAll(m, [], s[at..])
    ensures Fails(m, s, at, index, e) ==> Fails(m, s, pos, index, e)
  {
    assert |s[pos..]| == |s[at..]|;
  }

  /** If the scanner fails after the elements that it has read, so does it on the whole. */
  lemma {:induction false} FailsAfter(
      m: Markers, s: string, pos: nat, index: nat, ps: seq<Piece>, at: nat, last: nat, e: Error)
    requires pos <= |s| && at <= |s| && s[pos..] == RenderAll(m, ps, s[at..]) && AllWellFormed(m, ps)
    requires last == index + |ps|
    ensures Fails(m, s, at, last, e) ==> Fails(m, s, pos, index, e)
    decreases |ps|
  {
    if ps == [] {
      FailsThere(m, s, pos, index, at, e);
    } else {
      var next := FailsBefore(m, s, pos, index, ps[0], RenderAll(m, ps[1..], s[at..]), e);
      FailsAfter(m, s, next, index + 1, ps[1..], at, last, e);
    }
  }

  predicate NonBlankIn(s: string, from: nat, to: nat) {
    exists i :: from <= i < to && i < |s| && !IsBlank(s[i])
  }

  /** The first character from `from` on that is no white space. */
  predicate BodyStart(s: string, from: nat, start: nat) {
    from <= start < |s| && !IsBlank(s[start]) && !NonBlankIn(s, from, start)
  }

  /** Why the scanner refuses a text, from a position on where it was to read the element with that index. */
  predicate IsRefused(m: Markers, s: string, pos: nat, index: nat, e: Error) {
    var begin := Find(s, m.begin, pos);
    if begin.None? then e == InvalidCharactersAtEnd && NonBlankIn(s, pos, |s|)
    else if NonBlankIn(s, pos, begin.value) then e == InvalidCharactersBefore(index)
    else IsBodyRefused(m, s, begin.value + |m.begin|, index, e)
  }

  /** The same after the begin marker: no end marker follows any text, or one does where the body was to start. */
  predicate IsBodyRefused(m: Markers, s: string, from: nat, index: nat, e: Error) {
    || (e == NoEndMarker(index)
        && forall start :: from <= start < |s| && BodyStart(s, from, start) ==> Find(s, m.end, start).None?)
    || (e == EmptyElement(index)
        && exists start :: from <= start < |s| && BodyStart(s, from, start) && Find(s, m.end, start) == Some(start))
  }

  lemma NonBlankExactly(s: string, from: nat, to: nat)
    requires from <= to <= |s|
    ensures NonBlankIn(s, from, to) <==> FirstNonBlank(s[from..to], 0).Some?
  {
    NoneWithin(s, from, to);
  }

  lemma StartExactly(s: string, from: nat, start: nat)
    ensures BodyStart(s, from, start) <==> FirstNonBlank(s, from) == Some(start)
  {
    FirstNonBlankIsFirst(s, from);
  }

  lemma EmptyExactly(s: string, start: nat, end: nat)
    requires start <= end <= |s| && start < |s| && !IsBlank(s[start])
    ensures LastNonBlank(s[start..end]).None? <==> end == start
  {
    LastNonBlankIsLast(s[start..end]);
    if start < end {
      assert s[start..end][0] == s[start];
    }
  }

  lemma BodyRefusedExactly(m: Markers, s: string, from: nat, index: nat, e: Error)
    ensures ScanBody(m, s, from, index) == Broken(e) <==>
            IsBodyRefused(m, s, from, index, e)
  {
    var start := FirstNonBlank(s, from);
    forall other: nat
      ensures BodyStart(s, from, other) <==> start == Some(other)
    {
      StartExactly(s, from, other);
    }
    if start.Some? {
      var end := Find(s, m.end, start.value);
      if end.Some? {
        EmptyExactly(s, start.value, end.value);
      }
    }
  }

  lemma ScanRefusedExactly(m: Markers, s: string, pos: nat, index: nat, e: Error)
    requires pos <= |s|
    ensures Scan(m, s, pos, index) == Broken(e) <==> IsRefused(m, s, pos, index, e)
  {
    var begin := Find(s, m.begin, pos);
    if begin.None? {
      TextAtEndExactly(s, pos);
    } else {
      NonBlankExactly(s, pos, begin.value);
      BodyRefusedExactly(m, s, begin.value + |m.begin|, index, e);
    }
  }

  lemma TextAtEndExactly(s: string, pos: nat)
    requires pos <= |s|
    ensures NonBlankIn(s, pos, |s|) <==> FirstNonBlank(s[pos..], 0).Some?
  {
    NonBlankExactly(s, pos, |s|);
    assert s[pos..|s|] == s[pos..];
  }

  /** Elements up to a position, and a reason to refuse what follows. */
  predicate RefusedAfter(m: Markers, s: string, pos: nat, index: nat, ps: seq<Piece>, at: nat, e: Error) {
    && pos <= |s| && at < |s| && s[pos..] == RenderAll(m, ps, s[at..]) && AllWellFormed(m, ps)
    && IsRefused(m, s, at, index + |ps|, e)
  }

  lemma RefusedHere(m: Markers, s: string, pos: nat, index: nat, e: Error)
    requires Fails(m, s, pos, index, e) && !Scan(m, s, pos, index).Element?
    ensures RefusedAfter(m, s, pos, index, [], pos, e)
  {
    ScanRefusedExactly(m, s, pos, index, e);
  }

  lemma FailsNext(m: Markers, s: string, pos: nat, index: nat, body: string, next: nat, e: Error)
    requires Fails(m, s, pos, index, e) && Scan(m, s, pos, index) == Element(body, next) && pos < next <= |s|
    ensures Fails(m, s, next, index + 1, e)
  {
    SplitOfElement(m, s, pos, index, body, next);
  }

  lemma {:induction false} RefusedIsAfterElements(m: Markers, s: string, pos: nat, index: nat, e: Error)
    returns (ps: seq<Piece>, at: nat)
    requires Fails(m, s, pos, index, e)
    ensures RefusedAfter(m, s, pos, index, ps, at, e)
    decreases |s| - pos
  {
    if Scan(m, s, pos, index).Element? {
      var p, next := ScanOfPiece(m, s, pos, index);
      FailsNext(m, s, pos, index, p.body, next, e);
      var rest, last := RefusedIsAfterElements(m, s, next, index + 1, e);
      ps, at := [p] + rest, last;
      RefusedLater(m, s, pos, next, index, p, rest, at, e);
    } else {
      ps, at := [], pos;
      RefusedHere(m, s, pos, index, e);
    }
  }

  lemma RefusedLater(
      m: Markers, s: string, pos: nat, next: nat, index: nat, p: Piece, rest: seq<Piece>, at: nat, e: Error)
    requires pos <= |s| && next <= |s| && WellFormed(m, p) && s[pos..] == Render(m, p) + s[next..]
    requires RefusedAfter(m, s, next, index + 1, rest, at, e)
    ensures RefusedAfter(m, s, pos, index, [p] + rest, at, e)
  {
    assert ([p] + rest)[1..] == rest;
  }

  /**
   * Exactly which texts are refused, and with which exception: those that start with well-formed elements, after
   * which there is text and no begin marker, or text before it, or no end marker after it, or nothing between them.
   */
  lemma RefusesExactly(m: Markers, s: string, e: Error)
    ensures Split(m, s, 0, 0) == Err(e) <==>
            exists ps: seq<Piece>, at: nat :: RefusedAfter(m, s, 0, 0, ps, at, e)
  {
    if Split(m, s, 0, 0) == Err(e) {
      var ps, at := RefusedIsAfterElements(m, s, 0, 0, e);
    }
    if ps: seq<Piece>, at: nat :| RefusedAfter(m, s, 0, 0, ps, at, e) {
      RefusedThere(m, s, at, |ps|, e);
      FailsAfter(m, s, 0, 0, ps, at, |ps|, e);
    }
  }

  lemma RefusedThere(m: Markers, s: string, at: nat, index: nat, e: Error)
    requires at < |s| && IsRefused(m, s, at, index, e)
    ensures Fails(m, s, at, index, e)
  {
    ScanRefusedExactly(m, s, at, index, e);
  }

  /** Anything but white space after the last element is refused. */
  lemma JunkAfterElement(m: Markers, p: Piece, junk: string)
    requires WellFormed(m, p) && junk != "" && !IsBlank(junk[0]) && Find(junk, m.begin, 0).None?
    ensures Split(m, Render(m, p) + junk, 0, 0) == Err(InvalidCharactersAtEnd)
  {
    var s := Render(m, p) + junk;
    assert s[0..] == s;
    RenderedIsLaid(m, s, 0, p, junk);
    ElementAdvances(m, s, 0, p);
    ScanReads(m, s, 0, 0, p);
    var next := EndAt(m, p, 0) + |m.end|;
    JunkScans(m, s, next, 1);
    SplitOfElement(m, s, 0, 0, p.body, next);
  }

  lemma JunkScans(m: Markers, s: string, pos: nat, index: nat)
    requires pos < |s| && !IsBlank(s[pos]) && Find(s[pos..], m.begin, 0).None?
    ensures Split(m, s, pos, index) == Err(InvalidCharactersAtEnd)
  {
    FindFromSuffix(s, m.begin, pos);
    FirstNonBlankIsFirst(s[pos..], 0);
  }

  /**
   * The end marker must be one line: with one that ends in a line break, the inserted break can complete a
   * marker early, and the joined result no longer splits.
   */
  lemma TwoLineEndMarkerBreaksNormalForm()
    ensures var m := Markers("B", "a\n");
            var r := Split(m, "Bxaa\n", 0, 0);
            r.Ok? && Split(m, Concat(r.value), 0, 0) == Err(InvalidCharactersAtEnd)
  {
    var m := Markers("B", "a\n");
    var p, q := Piece("", "", "xa", ""), Piece("", "\n", "x", "");
    EarlyMarker(m, p, q);
    EarlyMarkerTexts(m, p, q);
    RenderThenSplit(m, [p], "");
    SingleElement(m, p);
    JunkAfterElement(m, q, "a\n");
  }

  lemma SingleElement(m: Markers, p: Piece)
    ensures RenderAll(m, [p], "") == Render(m, p)
    ensures Concat(Canonicals(m, [p])) == Canonical(m, p.body)
  {
    assert [p][1..] == [];
    assert Render(m, p) + "" == Render(m, p);
    assert Canonicals(m, [p]) == [Canonical(m, p.body)] + [];
    assert Canonical(m, p.body) + Concat([]) == Canonical(m, p.body);
  }

  lemma EarlyMarkerTexts(m: Markers, p: Piece, q: Piece)
    requires m == Markers("B", "a\n") && p == Piece("", "", "xa", "") && q == Piece("", "\n", "x", "")
    ensures Render(m, p) == "Bxaa\n" && Canonical(m, p.body) == Render(m, q) + "a\n"
  {
  }

  lemma EarlyMarker(m: Markers, p: Piece, q: Piece)
    requires m == Markers("B", "a\n") && p == Piece("", "", "xa", "") && q == Piece("", "\n", "x", "")
    ensures WellFormed(m, p) && WellFormed(m, q)
  {
    var text, text' := p.body + p.trail + m.end, q.body + q.trail + m.end;
    OtherStart(text, m.end, 0);
    OtherStart(text', m.end, 0);
    assert !MatchesAt(text, m.end, 1) by {
      if MatchesAt(text, m.end, 1) {
        MatchedChar(text, m.end, 1, 1);
      }
    }
  }
}
