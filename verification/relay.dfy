/**
 * The MJPEG re-framing relay: an incremental parser over a byte buffer that
 * pulls JPEG payloads out of an upstream multipart stream and re-frames each
 * one with a freshly computed header.
 */
module Relay {
  import opened Bytes
  import opened Search
  import opened Decimal
  import opened Multipart

  /** The number of trailing bytes kept when the buffer holds no boundary. */
  const Window: nat := 4096

  /** What the three searches of one loop iteration find in the buffer. */
  datatype Scan =
    | NoBoundary
      /** A boundary at `start`, but no header end after it, or no next boundary after that. */
    | Incomplete(start: nat)
      /** A boundary at `start`, the header end at `headerEnd`, and the next boundary at `next`. */
    | Complete(start: nat, headerEnd: nat, next: nat)

  /**
   * The three searches of one iteration of the parsing loop: the first
   * boundary, the first header end after it, and the first boundary after that.
   */
  function Locate(buf: seq<byte>): (s: Scan)
    ensures s.Complete? ==> s.start <= s.headerEnd && s.headerEnd + 4 <= s.next < |buf|
  {
    match Find(buf, Boundary, 0)
    case None => NoBoundary
    case Some(b) =>
      match Find(buf, HeaderEnd, b)
      case None => Incomplete(b)
      case Some(e) =>
        FindSpec(buf, HeaderEnd, b);
        FindSpec(buf, Boundary, e + 4);
        match Find(buf, Boundary, e + 4)
        case None => Incomplete(b)
        case Some(n) => Complete(b, e, n)
  }

  /** The first search fails exactly when the buffer holds no boundary. */
  lemma LocateNoBoundary(buf: seq<byte>)
    ensures Locate(buf).NoBoundary? <==> !Contains(buf, Boundary)
  {
    FindSpec(buf, Boundary, 0);
    var f := Find(buf, Boundary, 0);
    if f.Some? {
      assert OccursAt(buf, Boundary, f.value);
    }
  }

  /**
   * What a scan means: no boundary at all; or the first boundary, after which
   * either no header end or no later boundary occurs; or the first boundary,
   * the first header end after it, and the first boundary after that.
   */
  lemma LocateMeaning(buf: seq<byte>)
    ensures Locate(buf).NoBoundary? <==> !Contains(buf, Boundary)
    ensures !Locate(buf).NoBoundary? ==> FirstFrom(buf, Boundary, 0, Locate(buf).start)
    ensures Locate(buf).Complete? ==>
              FirstFrom(buf, HeaderEnd, Locate(buf).start, Locate(buf).headerEnd)
              && FirstFrom(buf, Boundary, Locate(buf).headerEnd + 4, Locate(buf).next)
    ensures Locate(buf).Incomplete? ==>
              forall e: nat :: FirstFrom(buf, HeaderEnd, Locate(buf).start, e) ==>
                forall j: nat :: e + 4 <= j ==> !OccursAt(buf, Boundary, j)
  {
    var s := Locate(buf);
    FindSpec(buf, Boundary, 0);
    if !s.NoBoundary? {
      FindSpec(buf, HeaderEnd, s.start);
      var e := Find(buf, HeaderEnd, s.start);
      if e.Some? {
        FindSpec(buf, Boundary, e.value + 4);
      }
    }
    if s.Incomplete? {
      var e := Find(buf, HeaderEnd, s.start);
      if e.Some? {
        forall e': nat | FirstFrom(buf, HeaderEnd, s.start, e') ensures e' == e.value {
          FindIsFirst(buf, HeaderEnd, s.start, e');
        }
      }
    }
    if !s.NoBoundary? {
      assert OccursAt(buf, Boundary, s.start);
    }
  }

  /** The bytes of the part that a complete scan delimits. */
  function Payload(buf: seq<byte>, s: Scan): seq<byte>
    requires s == Locate(buf) && s.Complete?
  {
    buf[s.headerEnd + 4..s.next]
  }

  /** A payload never holds the boundary: the next boundary is the first one after the header. */
  lemma PayloadClean(buf: seq<byte>)
    requires Locate(buf).Complete?
    ensures !Contains(Payload(buf, Locate(buf)), Boundary)
  {
    var s := Locate(buf);
    LocateMeaning(buf);
    SliceAvoids(buf, Boundary, s.headerEnd + 4, s.next);
  }

  /** The payloads cut out, in order, and the buffer left over. */
  datatype Drained = Drained(payloads: seq<seq<byte>>, buffer: seq<byte>)

  /** `s` is a suffix of `t`. */
  predicate IsSuffix(s: seq<byte>, t: seq<byte>) {
    |s| <= |t| && s == t[|t| - |s|..]
  }

  lemma SuffixTrans(a: seq<byte>, b: seq<byte>, c: seq<byte>)
    requires IsSuffix(a, b) && IsSuffix(b, c)
    ensures IsSuffix(a, c)
  {
    assert b[|b| - |a|..] == c[|c| - |a|..];
  }

  lemma SuffixAppend(a: seq<byte>, b: seq<byte>, t: seq<byte>)
    requires IsSuffix(a, b)
    ensures IsSuffix(a + t, b + t)
  {
    assert (b + t)[|b + t| - |a + t|..] == b[|b| - |a|..] + t;
  }

  /** No part can be cut out of `buf` until more bytes arrive. */
  predicate Settled(buf: seq<byte>) {
    !Locate(buf).Complete?
  }

  /** The memory bound: a buffer without a boundary holds at most `Window` bytes. */
  predicate Bounded(buf: seq<byte>) {
    Contains(buf, Boundary) || |buf| <= Window
  }

  /** No payload holds a boundary. */
  predicate Clean(payloads: seq<seq<byte>>) {
    forall i :: 0 <= i < |payloads| ==> !Contains(payloads[i], Boundary)
  }

  /** The parts yielded downstream for a run of payloads, one JPEG part each. */
  function Framed(payloads: seq<seq<byte>>): seq<seq<byte>> {
    if payloads == [] then [] else [JpegPart(payloads[0])] + Framed(payloads[1..])
  }

  /** A reader recovers every payload, in order, from the framed parts. */
  lemma {:induction false} ReadFramed(payloads: seq<seq<byte>>)
    ensures |Framed(payloads)| == |payloads|
    ensures forall i :: 0 <= i < |payloads| ==> ReadFrame(Framed(payloads)[i]) == Some(payloads[i])
  {
    if payloads != [] {
      ReadJpegPart(payloads[0]);
      ReadFramed(payloads[1..]);
    }
  }

  lemma FramedSnoc(a: seq<seq<byte>>, p: seq<byte>)
    ensures Framed(a + [p]) == Framed(a) + [JpegPart(p)]
  {
    FramedAppend(a, [p]);
    assert Framed([p]) == [JpegPart(p)];
  }

  /** Framing distributes over concatenation of payload runs. */
  lemma {:induction false} FramedAppend(a: seq<seq<byte>>, b: seq<seq<byte>>)
    ensures Framed(a + b) == Framed(a) + Framed(b)
  {
    if a == [] {
      assert a + b == b;
    } else {
      assert (a + b)[1..] == a[1..] + b;
      FramedAppend(a[1..], b);
    }
  }

  /** The bytes kept when the buffer holds no boundary (Python's `buffer[-4096:]`). */
  function Retain(buf: seq<byte>): (r: seq<byte>)
    ensures IsSuffix(r, buf)
    ensures |r| == if |buf| > Window then Window else |buf|
  {
    if |buf| > Window then buf[|buf| - Window..] else buf
  }

  /**
   * The inner `while True` loop: cut parts out of `buf` until a search fails.
   * Each emission restarts the buffer at the second boundary, which lies at
   * offset 4 or later, so the buffer shrinks strictly.
   */
  function Drain(buf: seq<byte>): Drained
    decreases |buf|
  {
    var s := Locate(buf);
    match s
    case NoBoundary => Drained([], Retain(buf))
    case Incomplete(_) => Drained([], buf)
    case Complete(_, _, next) =>
      var rest := Drain(buf[next..]);
      Drained([Payload(buf, s)] + rest.payloads, rest.buffer)
  }

  /** No payload that the inner loop cuts out holds a boundary. */
  lemma {:induction false} DrainClean(buf: seq<byte>)
    ensures Clean(Drain(buf).payloads)
    decreases |buf|
  {
    var s := Locate(buf);
    if s.Complete? {
      var rest := Drain(buf[s.next..]);
      DrainClean(buf[s.next..]);
      var p := Payload(buf, s);
      assert Drain(buf).payloads == [p] + rest.payloads;
      PayloadClean(buf);
    }
  }

  /** What is left over is the tail of the input. */
  lemma {:induction false} DrainSuffix(buf: seq<byte>)
    ensures IsSuffix(Drain(buf).buffer, buf)
    decreases |buf|
  {
    var s := Locate(buf);
    if s.Complete? {
      var tail := buf[s.next..];
      DrainSuffix(tail);
      var kept := Drain(tail).buffer;
      assert tail[|tail| - |kept|..] == buf[|buf| - |kept|..];
    }
  }

  /**
   * What is left over admits no further emission, and when it holds no
   * boundary it is at most `Window` bytes long.
   */
  lemma {:induction false} DrainSettles(buf: seq<byte>)
    ensures Settled(Drain(buf).buffer) && Bounded(Drain(buf).buffer)
    decreases |buf|
  {
    var s := Locate(buf);
    match s
    case NoBoundary =>
      var kept := Retain(buf);
      LocateMeaning(buf);
      SuffixAvoids(buf, Boundary, |buf| - |kept|);
      LocateMeaning(kept);
    case Incomplete(_) =>
      LocateMeaning(buf);
    case Complete(_, _, next) =>
      DrainSettles(buf[next..]);
  }

  /**
   * Each emission leaves a buffer that starts with the boundary and is
   * strictly shorter than before; a buffer that starts with the boundary keeps
   * doing so.
   */
  lemma {:induction false} DrainAdvances(buf: seq<byte>)
    ensures Drain(buf).payloads != [] ==> |Drain(buf).buffer| < |buf|
    ensures OccursAt(buf, Boundary, 0) || Drain(buf).payloads != [] ==>
              OccursAt(Drain(buf).buffer, Boundary, 0)
    decreases |buf|
  {
    var s := Locate(buf);
    LocateMeaning(buf);
    if s.Complete? {
      var tail := buf[s.next..];
      assert tail[..|Boundary|] == buf[s.next..s.next + |Boundary|];
      DrainAdvances(tail);
    } else if OccursAt(buf, Boundary, 0) {
      assert Contains(buf, Boundary);
    }
  }

  /**
   * When a search fails nothing is emitted and the buffer is unchanged, except
   * that a buffer with no boundary is cut down to its last `Window` bytes.
   */
  lemma DrainWaits(buf: seq<byte>)
    requires !Locate(buf).Complete?
    ensures Drain(buf) == Drained([], if Locate(buf).NoBoundary? then Retain(buf) else buf)
  {
  }

  /** A payload is cut out exactly when all three searches succeed. */
  lemma DrainEmitsIff(buf: seq<byte>)
    ensures Drain(buf).payloads != [] <==> Locate(buf).Complete?
  {
  }

  /** A buffer without any boundary yields nothing and keeps only its last `Window` bytes. */
  lemma NoBoundaryWaits(buf: seq<byte>)
    requires !Contains(buf, Boundary)
    ensures Drain(buf) == Drained([], Retain(buf))
  {
    LocateNoBoundary(buf);
    DrainWaits(buf);
  }

  /** A first boundary with no header end after it yields nothing and keeps the whole buffer. */
  lemma NoHeaderEndWaits(buf: seq<byte>, b: nat)
    requires FirstFrom(buf, Boundary, 0, b)
    requires !Contains(buf[b..], HeaderEnd)
    ensures Drain(buf) == Drained([], buf)
  {
    FindIsFirst(buf, Boundary, 0, b);
    DropAvoids(buf, HeaderEnd, b);
    FindSpec(buf, HeaderEnd, b);
    assert Locate(buf) == Incomplete(b);
    DrainWaits(buf);
  }

  /**
   * A first boundary and the first header end after it, but no boundary after
   * that: nothing is yielded and the whole buffer is kept.
   */
  lemma NoNextBoundaryWaits(buf: seq<byte>, b: nat, e: nat)
    requires FirstFrom(buf, Boundary, 0, b) && FirstFrom(buf, HeaderEnd, b, e)
    requires !Contains(buf[e + 4..], Boundary)
    ensures Drain(buf) == Drained([], buf)
  {
    FindIsFirst(buf, Boundary, 0, b);
    FindIsFirst(buf, HeaderEnd, b, e);
    DropAvoids(buf, Boundary, e + 4);
    FindSpec(buf, Boundary, e + 4);
    assert Locate(buf) == Incomplete(b);
    DrainWaits(buf);
  }

  /** The inner `while True` loop of `mjpeg_generator`, over a mutable buffer. */
  method DrainLoop(input: seq<byte>) returns (frames: seq<seq<byte>>, buffer: seq<byte>)
    ensures frames == Framed(Drain(input).payloads)
    ensures buffer == Drain(input).buffer
  {
    frames := [];
    buffer := input;
    ghost var done: seq<seq<byte>> := [];
    assert done + Drain(buffer).payloads == Drain(input).payloads;
    while true
      invariant frames == Framed(done)
      invariant done + Drain(buffer).payloads == Drain(input).payloads
      invariant Drain(buffer).buffer == Drain(input).buffer
      decreases |buffer|
    {
      var scan := Locate(buffer);
      if !scan.Complete? {
        Waiting(input, done, buffer);
        buffer := Trim(buffer, scan);
        return;
      }
      var jpgData, tail := Cut(buffer, scan);
      EmitKeeps(done, buffer, jpgData, tail);
      frames := frames + [JpegPart(jpgData)];
      done := done + [jpgData];
      buffer := tail;
    }
  }

  /** A failed search: with no boundary at all, keep only the last `Window` bytes. */
  method Trim(buffer: seq<byte>, scan: Scan) returns (kept: seq<byte>)
    requires scan == Locate(buffer) && !scan.Complete?
    ensures kept == Drain(buffer).buffer
  {
    kept := buffer;
    if scan.NoBoundary? && |buffer| > Window {
      kept := buffer[|buffer| - Window..];
    }
  }

  /** All three searches succeeded: the payload between the header end and the next boundary, and the rest. */
  method Cut(buffer: seq<byte>, scan: Scan) returns (jpgData: seq<byte>, tail: seq<byte>)
    requires scan == Locate(buffer) && scan.Complete?
    ensures jpgData == buffer[scan.headerEnd + 4..scan.next] && tail == buffer[scan.next..]
    ensures |tail| < |buffer|
  {
    jpgData := buffer[scan.headerEnd + 4..scan.next];
    tail := buffer[scan.next..];
  }

  /**
   * One emission of the loop body: the payload joins the emitted ones, the
   * rest of the buffer still accounts for everything else, and the framed
   * output grows by the payload's part.
   */
  lemma EmitKeeps(done: seq<seq<byte>>, buf: seq<byte>, p: seq<byte>, tail: seq<byte>)
    requires Locate(buf).Complete?
    requires p == buf[Locate(buf).headerEnd + 4..Locate(buf).next] && tail == buf[Locate(buf).next..]
    ensures (done + [p]) + Drain(tail).payloads == done + Drain(buf).payloads
    ensures Drain(tail).buffer == Drain(buf).buffer
    ensures Framed(done + [p]) == Framed(done) + [JpegPart(p)]
  {
    DrainEmits(buf);
    assert Drain(buf).payloads == [p] + Drain(tail).payloads;
    AppendAssoc(done, [p], Drain(tail).payloads);
    FramedSnoc(done, p);
  }

  /** At a failed search the loop has produced everything, and the buffer is what remains. */
  lemma Waiting(input: seq<byte>, done: seq<seq<byte>>, buf: seq<byte>)
    requires done + Drain(buf).payloads == Drain(input).payloads
    requires Drain(buf).buffer == Drain(input).buffer
    requires !Locate(buf).Complete?
    ensures done == Drain(input).payloads
    ensures Drain(input).buffer == if Locate(buf).NoBoundary? then Retain(buf) else buf
  {
    assert Drain(buf) == Drained([], if Locate(buf).NoBoundary? then Retain(buf) else buf);
    assert done + [] == done;
  }

  /** One emission of the inner loop. */
  lemma DrainEmits(buf: seq<byte>)
    requires Locate(buf).Complete?
    ensures
      var s := Locate(buf);
      Drain(buf) == Drained([buf[s.headerEnd + 4..s.next]] + Drain(buf[s.next..]).payloads,
                            Drain(buf[s.next..]).buffer)
  {
    var s := Locate(buf);
    assert Payload(buf, s) == buf[s.headerEnd + 4..s.next];
  }

  /** One chunk arrives: append it, then run the inner loop. */
  function Step(buffer: seq<byte>, chunk: seq<byte>): Drained {
    Drain(buffer + chunk)
  }

  /**
   * After a step the buffer is a tail of the old buffer plus the chunk; it
   * admits no further emission; it is bounded when it holds no boundary; and
   * after an emission it starts with the boundary and is shorter than the
   * old buffer plus the chunk.
   */
  lemma StepKeepsInvariant(buffer: seq<byte>, chunk: seq<byte>)
    ensures IsSuffix(Step(buffer, chunk).buffer, buffer + chunk)
    ensures Settled(Step(buffer, chunk).buffer) && Bounded(Step(buffer, chunk).buffer)
    ensures Step(buffer, chunk).payloads != [] ==>
              OccursAt(Step(buffer, chunk).buffer, Boundary, 0)
              && |Step(buffer, chunk).buffer| < |buffer| + |chunk|
  {
    DrainSuffix(buffer + chunk);
    DrainSettles(buffer + chunk);
    DrainAdvances(buffer + chunk);
  }

  /** All chunks, in order, as one byte string. */
  function Concat(chunks: seq<seq<byte>>): seq<byte> {
    if chunks == [] then [] else chunks[0] + Concat(chunks[1..])
  }

  /** The outer `for chunk in ...` loop: feed every chunk, collecting the payloads. */
  function Feed(buffer: seq<byte>, chunks: seq<seq<byte>>): Drained
    decreases |chunks|
  {
    if chunks == [] then Drained([], buffer)
    else
      var s := Step(buffer, chunks[0]);
      var t := Feed(s.buffer, chunks[1..]);
      Drained(s.payloads + t.payloads, t.buffer)
  }

  /**
   * Across any number of chunks the buffer stays a tail of everything read,
   * and once a chunk has arrived it is settled and bounded.
   */
  lemma {:induction false} FeedKeepsInvariant(buffer: seq<byte>, chunks: seq<seq<byte>>)
    ensures IsSuffix(Feed(buffer, chunks).buffer, buffer + Concat(chunks))
    ensures chunks != [] ==> Settled(Feed(buffer, chunks).buffer) && Bounded(Feed(buffer, chunks).buffer)
    decreases |chunks|
  {
    if chunks == [] {
      assert buffer + Concat(chunks) == buffer;
    } else {
      var s := Step(buffer, chunks[0]);
      StepKeepsInvariant(buffer, chunks[0]);
      FeedKeepsInvariant(s.buffer, chunks[1..]);
      var rest := Concat(chunks[1..]);
      AppendAssoc(buffer, chunks[0], rest);
      assert buffer + Concat(chunks) == (buffer + chunks[0]) + rest;
      SuffixAppend(s.buffer, buffer + chunks[0], rest);
      assert Feed(buffer, chunks).buffer == Feed(s.buffer, chunks[1..]).buffer;
      SuffixTrans(Feed(buffer, chunks).buffer, s.buffer + rest, buffer + Concat(chunks));
    }
  }

  /** No payload cut out of any chunk sequence holds a boundary. */
  lemma {:induction false} FeedClean(buffer: seq<byte>, chunks: seq<seq<byte>>)
    ensures Clean(Feed(buffer, chunks).payloads)
    decreases |chunks|
  {
    if chunks != [] {
      var s := Step(buffer, chunks[0]);
      FeedClean(s.buffer, chunks[1..]);
      var all := Feed(buffer, chunks).payloads;
      assert all == s.payloads + Feed(s.buffer, chunks[1..]).payloads;
      DrainClean(buffer + chunks[0]);
    }
  }

  /** How the upstream read ends: the server closes, or an exception carrying a message. */
  datatype Ending = Closed | Failed(message: seq<byte>)

  /**
   * Everything the generator yields for an upstream connection that delivers
   * `chunks` and then ends as `ending`. A failure to connect is `Failed` with no chunks.
   */
  function RelayOutput(chunks: seq<seq<byte>>, ending: Ending): (r: seq<seq<byte>>)
    ensures forall i :: 0 <= i < |r| ==>
              (ReadFrame(r[i]).None? <==> ending.Failed? && i == |r| - 1)
    ensures ending.Failed? ==> |r| >= 1 && r[|r| - 1] == ErrorPart(ending.message)
    ensures forall i :: 0 <= i < |r| && ReadFrame(r[i]).Some? ==>
              !Contains(ReadFrame(r[i]).value, Boundary)
  {
    var payloads := Feed([], chunks).payloads;
    var frames := Framed(payloads);
    FeedClean([], chunks);
    ReadFramed(payloads);
    match ending
    case Closed => frames
    case Failed(message) =>
      ErrorPartIsNotJpeg(message);
      frames + [ErrorPart(message)]
  }

  /** `mjpeg_generator` itself: the `for chunk` loop around the inner loop, then the diagnostic part on failure. */
  method Generate(chunks: seq<seq<byte>>, ending: Ending) returns (out: seq<seq<byte>>)
    ensures out == RelayOutput(chunks, ending)
  {
    var buffer: seq<byte> := [];
    out := [];
    ghost var done: seq<seq<byte>> := [];
    for i := 0 to |chunks|
      invariant out == Framed(done)
      invariant done + Feed(buffer, chunks[i..]).payloads == Feed([], chunks).payloads
      invariant Feed(buffer, chunks[i..]).buffer == Feed([], chunks).buffer
    {
      var fs, rest := DrainLoop(buffer + chunks[i]);
      ghost var now := Step(buffer, chunks[i]).payloads;
      ghost var later := Feed(rest, chunks[i + 1..]);
      assert chunks[i..][1..] == chunks[i + 1..];
      assert Feed(buffer, chunks[i..]) == Drained(now + later.payloads, later.buffer);
      AppendAssoc(done, now, later.payloads);
      FramedAppend(done, now);
      out := out + fs;
      done := done + now;
      buffer := rest;
    }
    assert done + [] == done;
    if ending.Failed? {
      out := out + [ErrorPart(ending.message)];
    }
  }
}
