/**
 * What the relay makes of a well-formed camera stream: every part the camera
 * sends, up to the boundary that opens the next one, comes out as exactly its
 * payload, in order, whatever way the connection splits the bytes.
 */
module Upstream {
  import opened Bytes
  import opened Search
  import opened Multipart
  import opened Relay
  import opened Chunking

  /** One part of the camera's multipart stream: its header lines and its body. */
  datatype Part = Part(header: seq<byte>, payload: seq<byte>)

  /** The bytes of one part on the wire: boundary, header, blank line, body. */
  function Wire(p: Part): seq<byte> {
    Boundary + p.header + HeaderEnd + p.payload
  }

  /** `pat`, placed right after `pre`, is the first occurrence: none starts inside `pre`. */
  predicate FirstAfter(pre: seq<byte>, pat: seq<byte>)
    requires |pat| > 0
  {
    !Contains(pre + pat[..|pat| - 1], pat)
  }

  /**
   * A part the relay can delimit: its header holds no blank line before the
   * one that ends it, and its body holds no boundary before the next part's.
   */
  predicate WellFormed(p: Part) {
    FirstAfter(Boundary + p.header, HeaderEnd) && FirstAfter(p.payload, Boundary)
  }

  /** The stream as far as the boundary that opens the part after `parts`. */
  function Stream(parts: seq<Part>): seq<byte> {
    if parts == [] then Boundary else Wire(parts[0]) + Stream(parts[1..])
  }

  /** The bodies of `parts`, in order. */
  function Payloads(parts: seq<Part>): seq<seq<byte>> {
    if parts == [] then [] else [parts[0].payload] + Payloads(parts[1..])
  }

  /** Searching `pre + pat + post` from the start finds `pat` right after `pre`. */
  lemma FindJoin(pre: seq<byte>, pat: seq<byte>, post: seq<byte>)
    requires |pat| > 0 && FirstAfter(pre, pat)
    ensures Find(pre + pat + post, pat, 0) == Some(|pre|)
  {
    var s := pre + pat + post;
    var w := pre + pat[..|pat| - 1];
    assert s[..|w|] == w;
    assert s[|pre|..|pre| + |pat|] == pat;
    forall j: nat | j < |pre|
      ensures !OccursAt(s, pat, j)
    {
      assert !OccursAt(w, pat, j);
      assert s[j..j + |pat|] == s[..|w|][j..j + |pat|];
    }
    FindIsFirst(s, pat, 0, |pre|);
  }

  /** A pattern at the very start of `s` is what searching `s` from the start finds. */
  lemma FindAtStart(pat: seq<byte>, post: seq<byte>)
    requires |pat| > 0
    ensures Find(pat + post, pat, 0) == Some(0)
  {
    FindJoin([], pat, post);
    assert [] + pat + post == pat + post;
  }

  /** The first search of the loop finds the part's own boundary, at the start. */
  lemma OpeningFound(p: Part, rest: seq<byte>)
    ensures Find(Wire(p) + (Boundary + rest), Boundary, 0) == Some(0)
  {
    Regroup5(Boundary, p.header, HeaderEnd, p.payload, Boundary + rest);
    FindAtStart(Boundary, p.header + HeaderEnd + p.payload + (Boundary + rest));
  }

  /** The second search finds the blank line that ends the part's header. */
  lemma HeaderEndFound(p: Part, rest: seq<byte>)
    requires FirstAfter(Boundary + p.header, HeaderEnd)
    ensures Find(Wire(p) + (Boundary + rest), HeaderEnd, 0) == Some(|Boundary| + |p.header|)
  {
    Regroup5(Boundary, p.header, HeaderEnd, p.payload, Boundary + rest);
    FindJoin(Boundary + p.header, HeaderEnd, p.payload + (Boundary + rest));
  }

  /** The third search finds the boundary that follows the part's body. */
  lemma ClosingFound(p: Part, rest: seq<byte>)
    requires FirstAfter(p.payload, Boundary)
    ensures Find(Wire(p) + (Boundary + rest), Boundary, |Boundary| + |p.header| + 4) == Some(|Wire(p)|)
  {
    var buf := Wire(p) + (Boundary + rest);
    var d := |Boundary| + |p.header| + 4;
    Regroup5(Boundary, p.header, HeaderEnd, p.payload, Boundary + rest);
    SliceOfAppend(Boundary + p.header + HeaderEnd, p.payload + (Boundary + rest), d, d);
    FindDrop(buf, d, Boundary, d);
    AppendAssoc(p.payload, Boundary, rest);
    FindJoin(p.payload, Boundary, rest);
  }

  /** The three searches over a well-formed part followed by a boundary delimit exactly that part. */
  lemma LocatePart(p: Part, rest: seq<byte>)
    requires WellFormed(p)
    ensures Locate(Wire(p) + (Boundary + rest))
              == Complete(0, |Boundary| + |p.header|, |Wire(p)|)
  {
    OpeningFound(p, rest);
    HeaderEndFound(p, rest);
    ClosingFound(p, rest);
  }

  /** A well-formed part followed by a boundary is cut out as its body, leaving the boundary on. */
  lemma PartEmitted(p: Part, rest: seq<byte>)
    requires WellFormed(p)
    ensures Drain(Wire(p) + (Boundary + rest)).payloads
              == [p.payload] + Drain(Boundary + rest).payloads
  {
    var buf := Wire(p) + (Boundary + rest);
    LocatePart(p, rest);
    DrainEmits(buf);
    var e := |Boundary| + |p.header|;
    assert buf[e + 4..|Wire(p)|] == p.payload;
    assert buf[|Wire(p)|..] == Boundary + rest;
  }

  /** A boundary on its own, with nothing after it yet, is kept and cuts out nothing. */
  lemma BoundaryWaits()
    ensures Drain(Boundary) == Drained([], Boundary)
  {
    FindSpec(Boundary, HeaderEnd, 0);
    assert Locate(Boundary).Incomplete?;
    DrainWaits(Boundary);
  }

  /** The stream starts with a boundary. */
  lemma StreamOpens(parts: seq<Part>)
    ensures |Boundary| <= |Stream(parts)| && Stream(parts)[..|Boundary|] == Boundary
  {
    if parts != [] {
      assert Stream(parts)[..|Boundary|] == Wire(parts[0])[..|Boundary|];
    }
  }

  /** The relay cuts exactly the bodies of well-formed parts, in order, out of their stream. */
  lemma {:induction false} StreamRelayed(parts: seq<Part>)
    requires forall i :: 0 <= i < |parts| ==> WellFormed(parts[i])
    ensures Drain(Stream(parts)).payloads == Payloads(parts)
  {
    if parts == [] {
      BoundaryWaits();
    } else {
      var later := Stream(parts[1..]);
      StreamOpens(parts[1..]);
      var rest := later[|Boundary|..];
      assert later == Boundary + rest;
      assert WellFormed(parts[0]);
      PartEmitted(parts[0], rest);
      StreamRelayed(parts[1..]);
    }
  }

  /**
   * End to end: however the connection chunks a stream of well-formed parts,
   * the generator yields one re-framed part per upstream part, carrying its
   * body, then the diagnostic part if the read failed.
   */
  lemma CameraRelayed(parts: seq<Part>, chunks: seq<seq<byte>>, ending: Ending)
    requires forall i :: 0 <= i < |parts| ==> WellFormed(parts[i])
    requires Concat(chunks) == Stream(parts)
    ensures RelayOutput(chunks, ending)
              == Framed(Payloads(parts)) + (if ending.Failed? then [ErrorPart(ending.message)] else [])
  {
    WholeStream(chunks);
    StreamRelayed(parts);
    if ending.Closed? {
      assert Framed(Payloads(parts)) + [] == Framed(Payloads(parts));
    }
  }

  /**
   * The camera ends each JPEG with a line break before the next boundary; the
   * relay keeps it, so the re-framed body is the JPEG plus those two bytes.
   */
  lemma LineBreakRelayed(header: seq<byte>, jpeg: seq<byte>, rest: seq<byte>)
    requires WellFormed(Part(header, jpeg + Crlf))
    ensures var relayed := Drain(Wire(Part(header, jpeg + Crlf)) + (Boundary + rest)).payloads;
            relayed != [] && relayed[0] == jpeg + Crlf
  {
    PartEmitted(Part(header, jpeg + Crlf), rest);
  }
}
