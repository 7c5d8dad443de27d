/** The bytes the relay writes downstream: one multipart part per JPEG frame, and the diagnostic part. */
module Multipart {
  import opened Bytes
  import opened Decimal

  /** The multipart boundary line, without its line break. */
  const Boundary: seq<byte> := [45, 45, 102, 114, 97, 109, 101]  // "--frame"
  const Crlf: seq<byte> := [13, 10]  // "\r\n"
  /** The blank line that ends a part's header block. */
  const HeaderEnd: seq<byte> := [13, 10, 13, 10]  // "\r\n\r\n"

  /** Everything of a JPEG part that precedes the decimal length. */
  const JpegLead: seq<byte> :=
    Boundary + Crlf + Ascii("Content-Type: image/jpeg") + Crlf + Ascii("Content-Length: ")

  /** Everything of the diagnostic part that precedes the message. */
  const TextLead: seq<byte> := Boundary + Crlf + Ascii("Content-Type: text/plain") + HeaderEnd

  /** "Virhe streamissä: " in UTF-8 (the a-umlaut is the two bytes C3 A4). */
  const ErrorPrefix: seq<byte> := Ascii("Virhe streamiss") + [0xC3, 0xA4] + Ascii(": ")

  /** The part emitted for one extracted payload, with its length recomputed. */
  function JpegPart(payload: seq<byte>): seq<byte> {
    JpegLead + Digits(|payload|) + HeaderEnd + payload + Crlf
  }

  /** The final part emitted when the upstream read fails; `message` is the exception text. */
  function ErrorPart(message: seq<byte>): seq<byte> {
    TextLead + ErrorPrefix + message + Crlf
  }

  /**
   * A downstream reader of one part: checks the fixed header, reads the decimal
   * Content-Length and returns exactly that many payload bytes, or None when `f`
   * is not a JPEG part in the relay's format.
   */
  function ReadFrame(f: seq<byte>): Option<seq<byte>> {
    if |f| < |JpegLead| || f[..|JpegLead|] != JpegLead then None
    else
      var rest := f[|JpegLead|..];
      var k := DigitRun(rest);
      if !Canonical(rest[..k]) then None
      else
        var n := Value(rest[..k]);
        var body := rest[k..];
        if |body| == 4 + n + 2 && body[..4] == HeaderEnd && body[4 + n..] == Crlf
        then Some(body[4..4 + n])
        else None
  }

  /** A reader recovers the payload of every JPEG part the relay builds. */
  lemma ReadJpegPart(payload: seq<byte>)
    ensures ReadFrame(JpegPart(payload)) == Some(payload)
  {
    var f := JpegPart(payload);
    var ds := Digits(|payload|);
    assert f == JpegLead + (ds + HeaderEnd + payload + Crlf);
    var rest := f[|JpegLead|..];
    assert rest == ds + (HeaderEnd + payload + Crlf);
    DigitRunStops(ds, HeaderEnd + payload + Crlf);
    var k := DigitRun(rest);
    assert rest[..k] == ds;
    ValueOfDigits(|payload|);
    var body := rest[k..];
    assert body == HeaderEnd + payload + Crlf;
  }

  /** Whatever a reader accepts is exactly the part the relay would build for that payload. */
  lemma ReadFrameExact(f: seq<byte>)
    requires ReadFrame(f).Some?
    ensures f == JpegPart(ReadFrame(f).value)
  {
    var rest := f[|JpegLead|..];
    var k := DigitRun(rest);
    var ds := rest[..k];
    var body := rest[k..];
    var payload := body[4..4 + Value(ds)];
    assert ReadFrame(f) == Some(payload);
    DigitsOfValue(ds);
    FramedBody(body, Value(ds));
    assert rest == ds + body;
    Reassemble(f, JpegLead, ds, HeaderEnd, payload, Crlf);
  }

  /** A body of the right length with the blank line in front and the line break behind. */
  lemma FramedBody(body: seq<byte>, n: nat)
    requires |body| == 4 + n + 2 && body[..4] == HeaderEnd && body[4 + n..] == Crlf
    ensures body == HeaderEnd + body[4..4 + n] + Crlf
  {
    assert body == body[..4] + body[4..4 + n] + body[4 + n..];
  }

  /** A part is a JPEG part exactly when a reader accepts it, and then with that payload. */
  lemma ReadFrameIff(f: seq<byte>, payload: seq<byte>)
    ensures ReadFrame(f) == Some(payload) <==> f == JpegPart(payload)
  {
    if f == JpegPart(payload) {
      ReadJpegPart(payload);
    }
    if ReadFrame(f) == Some(payload) {
      ReadFrameExact(f);
    }
  }

  /** The diagnostic part is never mistaken for a JPEG part. */
  lemma ErrorPartIsNotJpeg(message: seq<byte>)
    ensures ReadFrame(ErrorPart(message)).None?
  {
    var f := ErrorPart(message);
    assert f[23] == 't' as int as byte;
    assert JpegLead[23] == 'i' as int as byte;
  }
}
