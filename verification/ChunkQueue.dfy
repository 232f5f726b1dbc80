/** The buffer between a cipher and its reader: a queue of chunks that behaves as a flat byte FIFO. */
module ChunkQueue {
  import opened Bytes

  /** What `read(n)` takes from the front of the flat contents: all it asks for, or all there is. */
  function Taken(requested: nat, stored: nat): (r: nat)
    ensures r <= requested && r <= stored && (r == requested || r == stored)
  {
    if requested <= stored then requested else stored
  }

  class QueueOfVectors {
    var queue: seq<seq<byte>>
    var totalBytesStored: nat

    ghost predicate Valid()
      reads this
    {
      totalBytesStored == |Concat(queue)|
    }

    ghost function Contents(): seq<byte>
      reads this
    {
      Concat(queue)
    }

    constructor ()
      ensures Valid() && Contents() == []
    {
      queue, totalBytesStored := [], 0;
    }

    method Write(chunk: seq<byte>)
      requires Valid()
      modifies this
      ensures Valid() && Contents() == old(Contents()) + chunk
    {
      totalBytesStored := totalBytesStored + |chunk|;
      ConcatSnoc(queue, chunk);
      queue := queue + [chunk];
    }

    method Read(requested: nat) returns (r: seq<byte>)
      requires Valid()
      modifies this
      ensures Valid() && |r| == Taken(requested, |old(Contents())|)
      ensures old(Contents()) == r + Contents()
    {
      if |queue| == 0 {
        r := [];
      } else if |queue[0]| == requested {
        r := ReadCompleteBlock();
      } else if |queue[0]| > requested {
        r := ReadPartialBlock(requested, []);
      } else if |queue| == 1 {
        assert queue == [queue[0]] && Concat(queue) == queue[0];
        r := ReadAll();
      } else {
        r := ReadAcrossBlocks(requested);
      }
    }

    /** The branch of `read` that has to gather several chunks. */
    method ReadAcrossBlocks(requested: nat) returns (r: seq<byte>)
      requires Valid()
      modifies this
      ensures Valid() && |r| == Taken(requested, |old(Contents())|)
      ensures old(Contents()) == r + Contents()
    {
      r := [];
      // First, as many complete blocks as fit.
      while |queue| != 0 && |queue[0]| <= requested - |r|
        invariant Valid() && |r| <= requested && old(Contents()) == r + Contents()
        decreases |queue|
      {
        var block := ReadCompleteBlock();
        r := r + block;
      }
      // Then a partial block, if needed.
      if |r| < requested && |queue| != 0 {
        r := ReadPartialBlock(requested - |r|, r);
      }
    }

    method ReadAll() returns (r: seq<byte>)
      requires Valid()
      modifies this
      ensures Valid() && r == old(Contents()) && Contents() == []
    {
      if |queue| == 1 {
        r := queue[0];
        assert queue == [r] && Concat([r]) == r;
        queue, totalBytesStored := [], 0;
        return;
      }
      r := [];
      while |queue| != 0
        invariant totalBytesStored == old(totalBytesStored)
        invariant old(Contents()) == r + Contents()
        decreases |queue|
      {
        r := r + queue[0];
        queue := queue[1..];
      }
      totalBytesStored := totalBytesStored - |r|;
      assert totalBytesStored == 0;
    }

    method ReadCompleteBlock() returns (r: seq<byte>)
      requires Valid() && |queue| != 0
      modifies this
      ensures Valid() && r == old(queue[0]) && queue == old(queue)[1..]
      ensures old(Contents()) == r + Contents()
    {
      r := queue[0];
      queue := queue[1..];
      totalBytesStored := totalBytesStored - |r|;
    }

    method ReadPartialBlock(requested: nat, output: seq<byte>) returns (r: seq<byte>)
      requires Valid() && |queue| != 0 && |queue[0]| > requested
      modifies this
      ensures Valid()
      ensures r == output + old(Contents())[..requested]
      ensures Contents() == old(Contents())[requested..]
    {
      r := output + queue[0][..requested];
      queue := [queue[0][requested..]] + queue[1..];
      assert Contents() == old(Contents())[requested..];
      totalBytesStored := totalBytesStored - requested;
    }
  }

  // ---- runs of calls against a flat FIFO ----

  datatype Call = CallWrite(chunk: seq<byte>) | CallRead(requested: nat) | CallReadAll

  /** One call on a flat FIFO: the new contents, and the bytes it returns. */
  function Serve(contents: seq<byte>, call: Call): (seq<byte>, seq<byte>) {
    match call
    case CallWrite(chunk) => (contents + chunk, [])
    case CallRead(requested) =>
      var n := Taken(requested, |contents|);
      (contents[n..], contents[..n])
    case CallReadAll => ([], contents)
  }

  /** All calls in order: the final contents, and every result. */
  function ServeAll(contents: seq<byte>, calls: seq<Call>): (seq<byte>, seq<seq<byte>>)
    decreases |calls|
  {
    if calls == [] then (contents, [])
    else
      var (next, out) := Serve(contents, calls[0]);
      var (last, outs) := ServeAll(next, calls[1..]);
      (last, [out] + outs)
  }

  function Written(calls: seq<Call>): seq<byte> {
    if calls == [] then [] else (if calls[0].CallWrite? then calls[0].chunk else []) + Written(calls[1..])
  }

  lemma ServeConserves(contents: seq<byte>, call: Call)
    ensures var (next, out) := Serve(contents, call);
            out + next == contents + if call.CallWrite? then call.chunk else []
  {
  }

  /** First in, first out: in every run, what was read, followed by what is left, is what was there and was written. */
  lemma {:induction false} RunsConserve(contents: seq<byte>, calls: seq<Call>)
    ensures var (last, outs) := ServeAll(contents, calls);
            Concat(outs) + last == contents + Written(calls)
    decreases |calls|
  {
    if calls == [] {
      ConcatNone(contents);
    } else {
      var (next, out) := Serve(contents, calls[0]);
      var (last, outs) := ServeAll(next, calls[1..]);
      var chunk := if calls[0].CallWrite? then calls[0].chunk else [];
      ServeConserves(contents, calls[0]);
      RunsConserve(next, calls[1..]);
      ConcatOne(out, outs);
      calc {
        Concat([out] + outs) + last;
        (out + Concat(outs)) + last;
        { Associative(out, Concat(outs), last); }
        out + (next + Written(calls[1..]));
        { Associative(out, next, Written(calls[1..])); }
        (contents + chunk) + Written(calls[1..]);
        { Associative(contents, chunk, Written(calls[1..])); }
        contents + Written(calls);
      }
    }
  }

  /** Any sequence of calls on the chunked queue returns what the flat FIFO returns. */
  method Replay(queue: QueueOfVectors, calls: seq<Call>) returns (outs: seq<seq<byte>>)
    requires queue.Valid()
    modifies queue
    ensures queue.Valid() && (queue.Contents(), outs) == ServeAll(old(queue.Contents()), calls)
    decreases |calls|
  {
    if |calls| == 0 {
      return [];
    }
    var out: seq<byte> := [];
    match calls[0] {
      case CallWrite(chunk) => queue.Write(chunk);
      case CallRead(requested) => out := queue.Read(requested);
      case CallReadAll => out := queue.ReadAll();
    }
    assert (queue.Contents(), out) == Serve(old(queue.Contents()), calls[0]);
    var rest := Replay(queue, calls[1..]);
    outs := [out] + rest;
  }
}
