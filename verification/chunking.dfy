/**
 * Why the way the upstream connection splits its bytes into chunks does not
 * matter: the relay cuts out the same payloads, in the same order, as it would
 * from the whole byte stream delivered at once.
 */
module Chunking {
  import opened Bytes
  import opened Search
  import opened Multipart
  import opened Relay

  /** Extending a buffer in which all three searches succeed changes none of them. */
  lemma LocateExtend(a: seq<byte>, t: seq<byte>)
    requires Locate(a).Complete?
    ensures Locate(a + t) == Locate(a)
  {
    var s := Locate(a);
    FindExtend(a, t, Boundary, 0);
    FindExtend(a, t, HeaderEnd, s.start);
    FindExtend(a, t, Boundary, s.headerEnd + 4);
  }

  /** No boundary starts in the first `d` bytes of `u`. */
  predicate NoBoundaryBefore(u: seq<byte>, d: nat) {
    forall j: nat :: j < d ==> !OccursAt(u, Boundary, j)
  }

  /** A scan with every position moved `d` bytes further on. */
  function ShiftScan(s: Scan, d: nat): Scan {
    match s
    case NoBoundary => NoBoundary
    case Incomplete(b) => Incomplete(b + d)
    case Complete(b, e, n) => Complete(b + d, e + d, n + d)
  }

  /** Bytes in front of the first boundary only move the positions the searches find. */
  lemma LocateDrop(u: seq<byte>, d: nat)
    requires d <= |u|
    requires NoBoundaryBefore(u, d)
    ensures Locate(u) == ShiftScan(Locate(u[d..]), d)
  {
    var v := u[d..];
    FindSkip(u, Boundary, 0, d);
    FindDrop(u, d, Boundary, d);
    match Find(v, Boundary, 0)
    case None =>
      assert Locate(v) == NoBoundary;
      assert Locate(u) == NoBoundary;
    case Some(b) =>
      FindDrop(u, d, HeaderEnd, b + d);
      match Find(v, HeaderEnd, b)
      case None =>
        assert Locate(v) == Incomplete(b);
        assert Locate(u) == Incomplete(b + d);
      case Some(e) =>
        FindDrop(u, d, Boundary, e + d + 4);
        match Find(v, Boundary, e + 4)
        case None =>
          assert Locate(v) == Incomplete(b);
          assert Locate(u) == Incomplete(b + d);
        case Some(n) =>
          assert Locate(v) == Complete(b, e, n);
          assert Locate(u) == Complete(b + d, e + d, n + d);
  }

  /** Two buffers that cut out the same payload and keep the same rest cut out the same payloads. */
  lemma SameEmission(u: seq<byte>, v: seq<byte>)
    requires Locate(u).Complete? && Locate(v).Complete?
    requires u[Locate(u).headerEnd + 4..Locate(u).next] == v[Locate(v).headerEnd + 4..Locate(v).next]
    requires u[Locate(u).next..] == v[Locate(v).next..]
    ensures Drain(u).payloads == Drain(v).payloads
  {
    DrainEmits(u);
    DrainEmits(v);
  }

  /** A complete part found at the same place, moved by `d`, is cut out the same way. */
  lemma ShiftedEmission(u: seq<byte>, d: nat)
    requires d <= |u|
    requires Locate(u[d..]).Complete?
    requires Locate(u) == ShiftScan(Locate(u[d..]), d)
    ensures Drain(u).payloads == Drain(u[d..]).payloads
  {
    var v := u[d..];
    var s := Locate(v);
    var r := Locate(u);
    assert r.Complete? && r.headerEnd == s.headerEnd + d && r.next == s.next + d;
    SliceOfDrop(u, d, s.headerEnd + 4, s.next);
    SameEmission(u, v);
  }

  /** A failed search, moved by `d`, fails in both, and neither cuts anything out. */
  lemma ShiftedWait(u: seq<byte>, d: nat)
    requires d <= |u|
    requires !Locate(u[d..]).Complete?
    requires Locate(u) == ShiftScan(Locate(u[d..]), d)
    ensures Drain(u).payloads == Drain(u[d..]).payloads
  {
    DrainWaits(u[d..]);
    DrainWaits(u);
  }

  /** When the searches in `u` are those in `u[d..]` moved by `d`, both cut out the same payloads. */
  lemma ShiftedScan(u: seq<byte>, d: nat)
    requires d <= |u|
    requires Locate(u) == ShiftScan(Locate(u[d..]), d)
    ensures Drain(u).payloads == Drain(u[d..]).payloads
  {
    if Locate(u[d..]).Complete? {
      ShiftedEmission(u, d);
    } else {
      ShiftedWait(u, d);
    }
  }

  /** Bytes in front of the first boundary never reach a payload. */
  lemma DropJunk(u: seq<byte>, d: nat)
    requires d <= |u|
    requires NoBoundaryBefore(u, d)
    ensures Drain(u).payloads == Drain(u[d..]).payloads
  {
    LocateDrop(u, d);
    ShiftedScan(u, d);
  }

  /**
   * When `a` holds no boundary, no boundary of `a + t` starts in the bytes
   * that truncation to the last `Window` bytes throws away: such a boundary
   * would lie wholly inside `a`.
   */
  lemma JunkBefore(a: seq<byte>, t: seq<byte>)
    requires !Contains(a, Boundary)
    ensures NoBoundaryBefore(a + t, |a| - |Retain(a)|)
  {
    forall j: nat | j < |a| - |Retain(a)|
      ensures !OccursAt(a + t, Boundary, j)
    {
      assert j + |Boundary| <= |a|;
      assert (a + t)[j..j + |Boundary|] == a[j..j + |Boundary|];
      assert !OccursAt(a, Boundary, j);
    }
  }

  /** With no boundary in `a`, appending `t` cuts out what the kept tail of `a` plus `t` would. */
  lemma AppendToUnbounded(a: seq<byte>, t: seq<byte>)
    requires Locate(a).NoBoundary?
    ensures Drain(a + t).payloads == Drain(Retain(a) + t).payloads
  {
    LocateNoBoundary(a);
    var r := Retain(a);
    var d := |a| - |r|;
    SliceOfAppend(a, t, d, d);
    assert (a + t)[d..] == r + t;
    JunkBefore(a, t);
    DropJunk(a + t, d);
  }

  /** A complete part in `a` is cut out of `a + t` the same way, leaving its rest plus `t`. */
  lemma AppendToComplete(a: seq<byte>, t: seq<byte>)
    requires Locate(a).Complete?
    ensures
      var s := Locate(a);
      && Drain(a).payloads == [a[s.headerEnd + 4..s.next]] + Drain(a[s.next..]).payloads
      && Drain(a).buffer == Drain(a[s.next..]).buffer
      && Drain(a + t).payloads == [a[s.headerEnd + 4..s.next]] + Drain(a[s.next..] + t).payloads
  {
    var s := Locate(a);
    LocateExtend(a, t);
    DrainEmits(a);
    DrainEmits(a + t);
    SliceOfAppend(a, t, s.headerEnd + 4, s.next);
  }

  /**
   * Draining `a` and then draining what is left together with `t` cuts out
   * the same payloads as draining `a + t` at once.
   */
  lemma {:induction false} DrainAppend(a: seq<byte>, t: seq<byte>)
    ensures Drain(a + t).payloads == Drain(a).payloads + Drain(Drain(a).buffer + t).payloads
    decreases |a|, 1
  {
    match Locate(a)
    case NoBoundary =>
      DrainWaits(a);
      AppendToUnbounded(a, t);
    case Incomplete(_) =>
      DrainWaits(a);
    case Complete(_, _, _) =>
      DrainAppendComplete(a, t);
  }

  /** The case of DrainAppend in which `a` holds a complete part: cut it out, then recurse on the rest. */
  lemma {:induction false} DrainAppendComplete(a: seq<byte>, t: seq<byte>)
    requires Locate(a).Complete?
    ensures Drain(a + t).payloads == Drain(a).payloads + Drain(Drain(a).buffer + t).payloads
    decreases |a|, 0
  {
    var s := Locate(a);
    var tail := a[s.next..];
    AppendToComplete(a, t);
    DrainAppend(tail, t);
    Regroup(Drain(a + t).payloads, a[s.headerEnd + 4..s.next], Drain(tail + t).payloads,
            Drain(tail).payloads, Drain(Drain(tail).buffer + t).payloads);
  }

  /**
   * From a settled buffer, feeding chunks one at a time cuts out the same
   * payloads as draining the buffer and all chunks at once.
   */
  lemma {:induction false} FeedMatchesWhole(buffer: seq<byte>, chunks: seq<seq<byte>>)
    requires Settled(buffer)
    ensures Feed(buffer, chunks).payloads == Drain(buffer + Concat(chunks)).payloads
    decreases |chunks|
  {
    if chunks == [] {
      assert buffer + Concat(chunks) == buffer;
      DrainWaits(buffer);
    } else {
      var first := buffer + chunks[0];
      var rest := Concat(chunks[1..]);
      DrainSettles(first);
      FeedMatchesWhole(Drain(first).buffer, chunks[1..]);
      DrainAppend(first, rest);
      AppendAssoc(buffer, chunks[0], rest);
      assert buffer + Concat(chunks) == first + rest;
    }
  }

  /** The empty buffer the generator starts from is settled. */
  lemma EmptySettled()
    ensures Settled([])
  {
    assert Find([], Boundary, 0).None?;
  }

  /** The payloads of a whole connection are those of its bytes drained at once. */
  lemma WholeStream(chunks: seq<seq<byte>>)
    ensures Feed([], chunks).payloads == Drain(Concat(chunks)).payloads
  {
    EmptySettled();
    FeedMatchesWhole([], chunks);
    assert [] + Concat(chunks) == Concat(chunks);
  }

  /** Two chunkings of the same bytes yield the same payloads. */
  lemma ChunkingIrrelevant(chunks1: seq<seq<byte>>, chunks2: seq<seq<byte>>)
    requires Concat(chunks1) == Concat(chunks2)
    ensures Feed([], chunks1).payloads == Feed([], chunks2).payloads
  {
    WholeStream(chunks1);
    WholeStream(chunks2);
  }

  /** Two chunkings of the same bytes yield the same downstream output. */
  lemma OutputIgnoresChunking(chunks1: seq<seq<byte>>, chunks2: seq<seq<byte>>, ending: Ending)
    requires Concat(chunks1) == Concat(chunks2)
    ensures RelayOutput(chunks1, ending) == RelayOutput(chunks2, ending)
  {
    ChunkingIrrelevant(chunks1, chunks2);
  }

  /** An upstream that never sends the boundary yields nothing. */
  lemma NoBoundaryNoOutput(chunks: seq<seq<byte>>)
    requires !Contains(Concat(chunks), Boundary)
    ensures Feed([], chunks).payloads == []
  {
    var all := Concat(chunks);
    WholeStream(chunks);
    LocateNoBoundary(all);
    DrainWaits(all);
  }

  /** A bounded tail of bytes that hold no boundary is at most `Window` bytes long. */
  lemma BoundedWithout(kept: seq<byte>, all: seq<byte>)
    requires IsSuffix(kept, all) && Bounded(kept) && !Contains(all, Boundary)
    ensures |kept| <= Window
  {
    SuffixAvoids(all, Boundary, |all| - |kept|);
  }

  /** An upstream that never sends the boundary leaves at most `Window` bytes buffered. */
  lemma NoBoundaryBounded(chunks: seq<seq<byte>>)
    requires !Contains(Concat(chunks), Boundary)
    ensures |Feed([], chunks).buffer| <= Window
  {
    FeedKeepsInvariant([], chunks);
    if chunks == [] {
      assert Feed([], chunks).buffer == [];
    } else {
      assert [] + Concat(chunks) == Concat(chunks);
      BoundedWithout(Feed([], chunks).buffer, Concat(chunks));
    }
  }
}
