/** Concrete buffers and what the parse makes of them, including the edge
    cases where serialisation does not give the content back. Each example
    is taken apart into the constructor's stages (the code at the front, the
    length field and slice, the damage scan) so that every proof stays small. */
module Examples {
  import opened Wrappers
  import opened Bytes
  import opened Markers
  import opened Segments
  import opened Splitter

  /** One step of the loop followed by the rest of the split. */
  lemma Then(c: seq<byte>, s: Segment, rest: seq<Segment>)
    requires |c| != 0 && NextSegment(c) == Ok(s) && Split(Drop(c, s.actualSize)) == Ok(rest)
    ensures Split(c) == Ok([s] + rest)
  {
    SplitStep(c);
  }

  /** The last step of the loop. */
  lemma Last(c: seq<byte>, s: Segment)
    requires |c| != 0 && NextSegment(c) == Ok(s) && |Drop(c, s.actualSize)| == 0
    ensures Split(c) == Ok([s])
  {
    SplitEmpty(Drop(c, s.actualSize));
    Then(c, s, []);
    assert [s] + [] == [s];
  }

  /** A sized code at the front hands the content over to ParseSized. */
  lemma SizedFront(c: seq<byte>, name: Name)
    requires KnownAt(c, 0) && NameAt(c) == name && IsSized(name)
    ensures ParseSegment(c) == ParseSized(c[..2], name, c)
  {
    assert Slice(c, 0, 2) == c[..2];
  }

  // ----- unsized codes -----

  lemma StartOfImage()
    ensures NextSegment([0xFF, 0xD8, 0xFF, 0xD9]) ==
      Ok(Marker([0xFF, 0xD8], SOI, [], [], 2, 2, false))
  {
    var c: seq<byte> := [0xFF, 0xD8, 0xFF, 0xD9];
    assert c[..2] == [0xFF, 0xD8];
    assert NameAt(c) == SOI;
    UnsizedMarker(c);
  }

  lemma EndOfImage()
    ensures NextSegment([0xFF, 0xD9]) == Ok(Marker([0xFF, 0xD9], EOI, [], [], 2, 2, false))
  {
    var c: seq<byte> := [0xFF, 0xD9];
    assert c[..2] == [0xFF, 0xD9];
    assert NameAt(c) == EOI;
    UnsizedMarker(c);
  }

  lemma EndOfImageAlone()
    ensures Split([0xFF, 0xD9]) == Ok([Marker([0xFF, 0xD9], EOI, [], [], 2, 2, false)])
  {
    EndOfImage();
    Last([0xFF, 0xD9], Marker([0xFF, 0xD9], EOI, [], [], 2, 2, false));
  }

  /** Start of image followed by end of image: two unsized segments. */
  lemma StartThenEnd()
    ensures Split([0xFF, 0xD8, 0xFF, 0xD9]) == Ok([
      Marker([0xFF, 0xD8], SOI, [], [], 2, 2, false),
      Marker([0xFF, 0xD9], EOI, [], [], 2, 2, false)])
  {
    var c: seq<byte> := [0xFF, 0xD8, 0xFF, 0xD9];
    var soi := Marker([0xFF, 0xD8], SOI, [], [], 2, 2, false);
    var eoi := Marker([0xFF, 0xD9], EOI, [], [], 2, 2, false);
    StartOfImage();
    EndOfImageAlone();
    assert Drop(c, 2) == [0xFF, 0xD9];
    Then(c, soi, [eoi]);
    assert [soi] + [eoi] == [soi, eoi];
  }

  // ----- a short comment -----

  /** A comment with length field 5 and three payload bytes: the stated size
      counts the code, so it is 7, and nothing is damaged. */
  lemma ShortComment()
    ensures NextSegment([0xFF, 0xFE, 0x00, 0x05, 0x41, 0x42, 0x43]) ==
      Ok(Marker([0xFF, 0xFE], COM, [0x00, 0x05], [0x41, 0x42, 0x43], 7, 7, false))
  {
    var c: seq<byte> := [0xFF, 0xFE, 0x00, 0x05, 0x41, 0x42, 0x43];
    assert c[..2] == [0xFF, 0xFE];
    assert NameAt(c) == COM;
    SizedFront(c, COM);
    ShortCommentSized();
  }

  lemma ShortCommentSized()
    ensures ParseSized([0xFF, 0xFE], COM, [0xFF, 0xFE, 0x00, 0x05, 0x41, 0x42, 0x43]) ==
      Built(Marker([0xFF, 0xFE], COM, [0x00, 0x05], [0x41, 0x42, 0x43], 7, 7, false))
  {
    var c: seq<byte> := [0xFF, 0xFE, 0x00, 0x05, 0x41, 0x42, 0x43];
    assert Slice(c, 2, 4) == [0x00, 0x05];
    assert Slice(c, 4, 7) == [0x41, 0x42, 0x43];
    ShortCommentScan();
  }

  lemma ShortCommentScan()
    ensures Scanned([0xFF, 0xFE], COM, [0x00, 0x05], [0x41, 0x42, 0x43], 7) ==
      Marker([0xFF, 0xFE], COM, [0x00, 0x05], [0x41, 0x42, 0x43], 7, 7, false)
  {
    assert FFIndices([0x41, 0x42, 0x43]) == [];
  }

  // ----- a damaged comment -----

  /** A comment whose declared payload holds an end-of-image code: it is
      flagged damaged and cut before the 0xFF, and the loop resumes at the
      end-of-image code. */
  lemma DamagedComment()
    ensures NextSegment([0xFF, 0xFE, 0x00, 0x06, 0x41, 0xFF, 0xD9, 0x42, 0xFF, 0xD9]) ==
      Ok(Marker([0xFF, 0xFE], COM, [0x00, 0x06], [0x41], 8, 5, true))
  {
    var c: seq<byte> := [0xFF, 0xFE, 0x00, 0x06, 0x41, 0xFF, 0xD9, 0x42, 0xFF, 0xD9];
    assert c[..2] == [0xFF, 0xFE];
    assert NameAt(c) == COM;
    SizedFront(c, COM);
    DamagedCommentSized();
  }

  lemma DamagedCommentSized()
    ensures ParseSized([0xFF, 0xFE], COM, [0xFF, 0xFE, 0x00, 0x06, 0x41, 0xFF, 0xD9, 0x42, 0xFF, 0xD9]) ==
      Built(Marker([0xFF, 0xFE], COM, [0x00, 0x06], [0x41], 8, 5, true))
  {
    var c: seq<byte> := [0xFF, 0xFE, 0x00, 0x06, 0x41, 0xFF, 0xD9, 0x42, 0xFF, 0xD9];
    assert Slice(c, 2, 4) == [0x00, 0x06];
    assert Slice(c, 4, 8) == [0x41, 0xFF, 0xD9, 0x42];
    DamagedCommentScan();
  }

  lemma DamagedCommentScan()
    ensures Scanned([0xFF, 0xFE], COM, [0x00, 0x06], [0x41, 0xFF, 0xD9, 0x42], 8) ==
      Marker([0xFF, 0xFE], COM, [0x00, 0x06], [0x41], 8, 5, true)
  {
    assert FFIndices([0x41, 0xFF, 0xD9, 0x42]) == [1];
    assert FirstUnstuffed([0x41, 0xFF, 0xD9, 0x42]) == Some(1);
    assert [0x41, 0xFF, 0xD9, 0x42][..1] == [0x41];
  }

  // ----- resynchronisation -----

  lemma UnknownBytes()
    ensures NextSegment([0x01, 0x02, 0xFF, 0xDA, 0x00, 0x02]) == Ok(Broken([0x01, 0x02], 2))
  {
    var c: seq<byte> := [0x01, 0x02, 0xFF, 0xDA, 0x00, 0x02];
    assert !KnownAt(c, 0);
    assert FirstKnownFrom(c, 0) == Some(2);
    assert c[..2] == [0x01, 0x02];
  }

  /** A start of scan with length field 2: an empty payload. */
  lemma EmptyScan()
    ensures NextSegment([0xFF, 0xDA, 0x00, 0x02]) ==
      Ok(Marker([0xFF, 0xDA], SOS, [0x00, 0x02], [], 4, 4, false))
  {
    var c: seq<byte> := [0xFF, 0xDA, 0x00, 0x02];
    assert c[..2] == [0xFF, 0xDA];
    assert NameAt(c) == SOS;
    SizedFront(c, SOS);
    EmptyScanSized();
  }

  lemma EmptyScanSized()
    ensures ParseSized([0xFF, 0xDA], SOS, [0xFF, 0xDA, 0x00, 0x02]) ==
      Built(Marker([0xFF, 0xDA], SOS, [0x00, 0x02], [], 4, 4, false))
  {
    var c: seq<byte> := [0xFF, 0xDA, 0x00, 0x02];
    assert Slice(c, 2, 4) == [0x00, 0x02];
    assert Slice(c, 4, 4) == [];
    assert FFIndices([]) == [];
  }

  lemma EmptyScanAlone()
    ensures Split([0xFF, 0xDA, 0x00, 0x02]) ==
      Ok([Marker([0xFF, 0xDA], SOS, [0x00, 0x02], [], 4, 4, false)])
  {
    EmptyScan();
    Last([0xFF, 0xDA, 0x00, 0x02], Marker([0xFF, 0xDA], SOS, [0x00, 0x02], [], 4, 4, false));
  }

  /** Two unknown bytes before a start of scan become one broken segment. */
  lemma ResyncBeforeScan()
    ensures Split([0x01, 0x02, 0xFF, 0xDA, 0x00, 0x02]) == Ok([
      Broken([0x01, 0x02], 2),
      Marker([0xFF, 0xDA], SOS, [0x00, 0x02], [], 4, 4, false)])
  {
    var c: seq<byte> := [0x01, 0x02, 0xFF, 0xDA, 0x00, 0x02];
    var broken := Broken([0x01, 0x02], 2);
    var sos := Marker([0xFF, 0xDA], SOS, [0x00, 0x02], [], 4, 4, false);
    UnknownBytes();
    EmptyScanAlone();
    assert Drop(c, 2) == [0xFF, 0xDA, 0x00, 0x02];
    Then(c, broken, [sos]);
    assert [broken] + [sos] == [broken, sos];
  }

  // ----- fatal errors -----

  /** No known code anywhere: `min` of nothing raises. */
  lemma NoMarkerAnywhere()
    ensures Split([0x01, 0x02, 0x03]) == Err(NoMarkerAhead)
  {
    NoMarkerIsFatal([0x01, 0x02, 0x03]);
  }

  /** A stray byte left after the last segment cannot be resynchronised. */
  lemma TrailingByte()
    ensures Split([0xFF, 0xD8, 0x00]) == Err(NoMarkerAhead)
  {
    var c: seq<byte> := [0xFF, 0xD8, 0x00];
    assert c[..2] == [0xFF, 0xD8];
    assert NameAt(c) == SOI;
    UnsizedMarker(c);
    assert Drop(c, 2) == [0x00];
    NoMarkerIsFatal([0x00]);
    SplitStep(c);
  }

  /** A sized code with its length field cut short: `struct.unpack` raises. */
  lemma TruncatedLengthField()
    ensures Split([0xFF, 0xFE, 0x00]) == Err(StructError)
  {
    var c: seq<byte> := [0xFF, 0xFE, 0x00];
    assert c[..2] == [0xFF, 0xFE];
    assert NameAt(c) == COM;
    SizedFront(c, COM);
    assert Slice(c, 2, 4) == [0x00];
    assert NextSegment(c) == Err(StructError);
    SplitStep(c);
  }

  // ----- where the echo differs from the content -----

  /** Any buffer that starts with a comment code and a length field of 0
      builds a comment of stated and actual size 2 with an empty payload. */
  lemma ZeroLengthFront(c: seq<byte>)
    requires |c| >= 4 && c[..4] == [0xFF, 0xFE, 0x00, 0x00]
    ensures NextSegment(c) == Ok(Marker([0xFF, 0xFE], COM, [0x00, 0x00], [], 2, 2, false))
  {
    assert c[0] == c[..4][0] && c[1] == c[..4][1];
    assert c[..2] == [0xFF, 0xFE];
    assert NameAt(c) == COM;
    SizedFront(c, COM);
    assert Slice(c, 2, 4) == [0x00, 0x00];
    assert Slice(c, 4, 2) == [];
    assert FFIndices([]) == [];
  }

  /** A length field of 0: the comment echoes four bytes while the loop skips
      only two, so the length bytes are parsed again as a broken segment. */
  lemma ZeroLength()
    ensures NextSegment([0xFF, 0xFE, 0x00, 0x00, 0xFF, 0xD9]) ==
      Ok(Marker([0xFF, 0xFE], COM, [0x00, 0x00], [], 2, 2, false))
    ensures Marker([0xFF, 0xFE], COM, [0x00, 0x00], [], 2, 2, false).Bytes() ==
      [0xFF, 0xFE, 0x00, 0x00]
  {
    var c: seq<byte> := [0xFF, 0xFE, 0x00, 0x00, 0xFF, 0xD9];
    assert c[..4] == [0xFF, 0xFE, 0x00, 0x00];
    ZeroLengthFront(c);
  }

  lemma ZeroLengthIsLossy()
    ensures !LosslessAt([0xFF, 0xFE, 0x00, 0x00, 0xFF, 0xD9])
  {
    var c: seq<byte> := [0xFF, 0xFE, 0x00, 0x00, 0xFF, 0xD9];
    assert c[..2] == [0xFF, 0xFE];
    assert NameAt(c) == COM;
    assert Slice(c, 2, 4) == [0x00, 0x00];
  }

  /** A declared length past the end of the buffer, with an unstuffed 0xFF
      in what is present: the loop skips past the end, while the comment
      echoes only the five bytes before the 0xFF. */
  lemma ClampedAndDamaged()
    ensures NextSegment([0xFF, 0xFE, 0x00, 0x10, 0x01, 0xFF, 0x02]) ==
      Ok(Marker([0xFF, 0xFE], COM, [0x00, 0x10], [0x01], 18, 16, true))
    ensures Marker([0xFF, 0xFE], COM, [0x00, 0x10], [0x01], 18, 16, true).Bytes() ==
      [0xFF, 0xFE, 0x00, 0x10, 0x01]
  {
    var c: seq<byte> := [0xFF, 0xFE, 0x00, 0x10, 0x01, 0xFF, 0x02];
    assert c[..2] == [0xFF, 0xFE];
    assert NameAt(c) == COM;
    SizedFront(c, COM);
    ClampedAndDamagedSized();
  }

  lemma ClampedAndDamagedSized()
    ensures ParseSized([0xFF, 0xFE], COM, [0xFF, 0xFE, 0x00, 0x10, 0x01, 0xFF, 0x02]) ==
      Built(Marker([0xFF, 0xFE], COM, [0x00, 0x10], [0x01], 18, 16, true))
  {
    var c: seq<byte> := [0xFF, 0xFE, 0x00, 0x10, 0x01, 0xFF, 0x02];
    assert Slice(c, 2, 4) == [0x00, 0x10];
    assert Slice(c, 4, 18) == [0x01, 0xFF, 0x02];
    ClampedAndDamagedScan();
  }

  lemma ClampedAndDamagedScan()
    ensures Scanned([0xFF, 0xFE], COM, [0x00, 0x10], [0x01, 0xFF, 0x02], 18) ==
      Marker([0xFF, 0xFE], COM, [0x00, 0x10], [0x01], 18, 16, true)
  {
    assert FFIndices([0x01, 0xFF, 0x02]) == [1];
    assert FirstUnstuffed([0x01, 0xFF, 0x02]) == Some(1);
    assert [0x01, 0xFF, 0x02][..1] == [0x01];
  }

  /** The same buffer is not lossless: the length runs past the end and
      what is present holds an unstuffed 0xFF. */
  lemma ClampedAndDamagedIsLossy()
    ensures !LosslessAt([0xFF, 0xFE, 0x00, 0x10, 0x01, 0xFF, 0x02])
  {
    var c: seq<byte> := [0xFF, 0xFE, 0x00, 0x10, 0x01, 0xFF, 0x02];
    assert c[..2] == [0xFF, 0xFE];
    assert NameAt(c) == COM;
    assert Slice(c, 2, 4) == [0x00, 0x10];
    assert Slice(c, 4, 18) == [0x01, 0xFF, 0x02];
    assert Unstuffed(Slice(c, 4, 18), 1);
  }

  // ----- a whole stream that neither round-trips nor re-splits the same -----

  /** Two zero bytes before an end-of-image code. */
  lemma TwoZerosThenEnd()
    ensures Split([0x00, 0x00, 0xFF, 0xD9]) == Ok([
      Broken([0x00, 0x00], 2),
      Marker([0xFF, 0xD9], EOI, [], [], 2, 2, false)])
  {
    var c: seq<byte> := [0x00, 0x00, 0xFF, 0xD9];
    var broken := Broken([0x00, 0x00], 2);
    var eoi := Marker([0xFF, 0xD9], EOI, [], [], 2, 2, false);
    assert !KnownAt(c, 0) && !KnownAt(c, 1) && KnownAt(c, 2);
    assert FirstKnownFrom(c, 0) == Some(2);
    assert c[..2] == [0x00, 0x00];
    assert NextSegment(c) == Ok(broken);
    assert Drop(c, 2) == [0xFF, 0xD9];
    EndOfImageAlone();
    Then(c, broken, [eoi]);
    assert [broken] + [eoi] == [broken, eoi];
  }

  /** Four zero bytes before an end-of-image code. */
  lemma FourZerosThenEnd()
    ensures Split([0x00, 0x00, 0x00, 0x00, 0xFF, 0xD9]) == Ok([
      Broken([0x00, 0x00, 0x00, 0x00], 4),
      Marker([0xFF, 0xD9], EOI, [], [], 2, 2, false)])
  {
    var c: seq<byte> := [0x00, 0x00, 0x00, 0x00, 0xFF, 0xD9];
    var broken := Broken([0x00, 0x00, 0x00, 0x00], 4);
    var eoi := Marker([0xFF, 0xD9], EOI, [], [], 2, 2, false);
    assert !KnownAt(c, 0) && !KnownAt(c, 1) && !KnownAt(c, 2) && !KnownAt(c, 3) && KnownAt(c, 4);
    assert FirstKnownFrom(c, 0) == Some(4);
    assert c[..4] == [0x00, 0x00, 0x00, 0x00];
    assert NextSegment(c) == Ok(broken);
    assert Drop(c, 4) == [0xFF, 0xD9];
    EndOfImageAlone();
    Then(c, broken, [eoi]);
    assert [broken] + [eoi] == [broken, eoi];
  }

  /** `FF FE 00 00 FF D9` parses with no error: the comment, its length bytes
      again as a broken segment, and the end of image. */
  lemma ZeroLengthStream()
    ensures Split([0xFF, 0xFE, 0x00, 0x00, 0xFF, 0xD9]) == Ok([
      Marker([0xFF, 0xFE], COM, [0x00, 0x00], [], 2, 2, false),
      Broken([0x00, 0x00], 2),
      Marker([0xFF, 0xD9], EOI, [], [], 2, 2, false)])
  {
    var c: seq<byte> := [0xFF, 0xFE, 0x00, 0x00, 0xFF, 0xD9];
    var com := Marker([0xFF, 0xFE], COM, [0x00, 0x00], [], 2, 2, false);
    var broken := Broken([0x00, 0x00], 2);
    var eoi := Marker([0xFF, 0xD9], EOI, [], [], 2, 2, false);
    ZeroLength();
    assert Drop(c, 2) == [0x00, 0x00, 0xFF, 0xD9];
    TwoZerosThenEnd();
    Then(c, com, [broken, eoi]);
    assert [com] + [broken, eoi] == [com, broken, eoi];
  }

  /** Joining that parse gives eight bytes: the length bytes appear twice. */
  lemma ZeroLengthEcho()
    ensures Concat([
      Marker([0xFF, 0xFE], COM, [0x00, 0x00], [], 2, 2, false),
      Broken([0x00, 0x00], 2),
      Marker([0xFF, 0xD9], EOI, [], [], 2, 2, false)]) ==
      [0xFF, 0xFE, 0x00, 0x00, 0x00, 0x00, 0xFF, 0xD9]
  {
    var com := Marker([0xFF, 0xFE], COM, [0x00, 0x00], [], 2, 2, false);
    var broken := Broken([0x00, 0x00], 2);
    var eoi := Marker([0xFF, 0xD9], EOI, [], [], 2, 2, false);
    assert [com, broken, eoi] == [com] + [broken, eoi];
    assert [broken, eoi] == [broken] + [eoi];
    assert [eoi] == [eoi] + [];
    ConcatPrepend(com, [broken, eoi]);
    ConcatPrepend(broken, [eoi]);
    ConcatPrepend(eoi, []);
  }

  /** Those eight bytes parse to a different list: the broken segment now
      holds four zero bytes. */
  lemma ZeroLengthEchoSplit()
    ensures Split([0xFF, 0xFE, 0x00, 0x00, 0x00, 0x00, 0xFF, 0xD9]) == Ok([
      Marker([0xFF, 0xFE], COM, [0x00, 0x00], [], 2, 2, false),
      Broken([0x00, 0x00, 0x00, 0x00], 4),
      Marker([0xFF, 0xD9], EOI, [], [], 2, 2, false)])
  {
    var c: seq<byte> := [0xFF, 0xFE, 0x00, 0x00, 0x00, 0x00, 0xFF, 0xD9];
    var com := Marker([0xFF, 0xFE], COM, [0x00, 0x00], [], 2, 2, false);
    var broken := Broken([0x00, 0x00, 0x00, 0x00], 4);
    var eoi := Marker([0xFF, 0xD9], EOI, [], [], 2, 2, false);
    assert c[..4] == [0xFF, 0xFE, 0x00, 0x00];
    ZeroLengthFront(c);
    assert Drop(c, 2) == [0x00, 0x00, 0x00, 0x00, 0xFF, 0xD9];
    FourZerosThenEnd();
    Then(c, com, [broken, eoi]);
    assert [com] + [broken, eoi] == [com, broken, eoi];
  }

  /** A buffer that parses to completion, yet whose `bytes` are not the
      buffer and whose `bytes` parse to a different segment list: neither
      the round trip nor idempotence holds without the lossless condition. */
  lemma ZeroLengthBreaksRoundTrip()
    ensures var c: seq<byte> := [0xFF, 0xFE, 0x00, 0x00, 0xFF, 0xD9];
      && Split(c).Ok?
      && Concat(Split(c).value) != c
      && Split(Concat(Split(c).value)) != Split(c)
  {
    var c: seq<byte> := [0xFF, 0xFE, 0x00, 0x00, 0xFF, 0xD9];
    ZeroLengthStream();
    ZeroLengthEcho();
    ZeroLengthEchoSplit();
    var out := Concat(Split(c).value);
    assert |out| == 8 != |c|;
    assert Split(out).value[1] != Split(c).value[1];
  }
}
