/** The stream splitter: `JPEG.__init__` walks the buffer front to back,
    building one segment per step and skipping its actual size, and `bytes`
    concatenates what the segments echo. */
module Splitter {
  import opened Wrappers
  import opened Bytes
  import opened Markers
  import opened Segments

  /** A `JPEG` object: the list of segments its constructor appends to, in
      buffer order. */
  class Jpeg {
    var segments: seq<Segment>

    constructor ()
      ensures segments == []
    {
      segments := [];
    }

    /** The `bytes` property. */
    function Bytes(): seq<byte>
      reads this
    {
      Concat(segments)
    }
  }

  /** `''.join(s.bytes for s in segments)`. */
  function Concat(segments: seq<Segment>): seq<byte> {
    if segments == [] then [] else segments[0].Bytes() + Concat(segments[1..])
  }

  /** One step of the loop: `Segment(content)`, and `BrokenSegment(content)`
      when that raises `JPYGError`; the other errors propagate. */
  function NextSegment(content: seq<byte>): (r: Result<Segment, Fatal>)
    ensures r.Ok? ==> r.value.actualSize >= 1
  {
    match ParseSegment(content)
    case Built(s) => Ok(s)
    case Unpackable => Err(StructError)
    case NoSuchHeader => ResyncSegment(content)
  }

  /** A step builds a broken segment exactly when the front is not a known
      code; it fails with `struct.error` exactly when a sized code has no
      room for its length field, and with the error of `min` exactly when no
      known code occurs anywhere. */
  lemma NextSegmentOutcome(content: seq<byte>)
    ensures NextSegment(content).Ok? ==>
      (NextSegment(content).value.Broken? <==> !KnownAt(content, 0))
    ensures NextSegment(content) == Err(StructError) <==>
      KnownAt(content, 0) && IsSized(NameAt(content)) && |content| < 4
    ensures NextSegment(content) == Err(NoMarkerAhead) <==> forall i :: !KnownAt(content, i)
  {
    ConstructionFails(content);
    ResyncFails(content);
  }

  /** The whole parse: the segments in buffer order, or the error that
      escapes the loop (no partial list survives it). */
  function Split(content: seq<byte>): Result<seq<Segment>, Fatal>
    decreases |content|
  {
    if |content| == 0 then Ok([])
    else
      match NextSegment(content)
      case Err(e) => Err(e)
      case Ok(s) => Prepend([s], Split(Drop(content, s.actualSize)))
  }

  function Prepend(done: seq<Segment>, r: Result<seq<Segment>, Fatal>): Result<seq<Segment>, Fatal> {
    match r
    case Ok(rest) => Ok(done + rest)
    case Err(e) => Err(e)
  }

  lemma PrependAppend(done: seq<Segment>, s: Segment, r: Result<seq<Segment>, Fatal>)
    ensures Prepend(done, Prepend([s], r)) == Prepend(done + [s], r)
  {
    if r.Ok? {
      assert done + ([s] + r.value) == (done + [s]) + r.value;
    }
  }

  lemma SplitEmpty(content: seq<byte>)
    requires |content| == 0
    ensures Split(content) == Ok([])
  {
  }

  /** One unfolding of Split on non-empty content. */
  lemma SplitStep(content: seq<byte>)
    requires |content| != 0
    ensures NextSegment(content).Err? ==> Split(content) == Err(NextSegment(content).error)
    ensures NextSegment(content).Ok? ==>
      var s := NextSegment(content).value;
      Split(content) == Prepend([s], Split(Drop(content, s.actualSize)))
  {
  }

  /** `JPEG.__init__`: the loop that appends one segment per step to a new
      object and drops its actual size from the front of the content. An
      error escapes the loop and no object is returned. When every step is
      lossless the object's `bytes` are the content again. */
  method Parse(content: seq<byte>) returns (r: Result<Jpeg, Fatal>)
    ensures r.Ok? <==> Split(content).Ok?
    ensures r.Ok? ==> fresh(r.value) && r.value.segments == Split(content).value
    ensures r.Err? ==> r.error == Split(content).error
    ensures AllLossless(content) ==> r.Ok? && r.value.Bytes() == content
  {
    var jpeg := new Jpeg();
    var rest := content;
    assert Split(content).Ok? ==> [] + Split(content).value == Split(content).value;
    while |rest| != 0
      invariant fresh(jpeg)
      invariant Split(content) == Prepend(jpeg.segments, Split(rest))
      decreases |rest|
    {
      var step := NextSegment(rest);
      SplitStep(rest);
      if step.Err? {
        if AllLossless(content) {
          RoundTrip(content);
        }
        return Err(step.error);
      }
      var s := step.value;
      PrependAppend(jpeg.segments, s, Split(Drop(rest, s.actualSize)));
      jpeg.segments := jpeg.segments + [s];
      rest := Drop(rest, s.actualSize);
    }
    assert jpeg.segments + [] == jpeg.segments;
    if AllLossless(content) {
      RoundTrip(content);
    }
    return Ok(jpeg);
  }

  // ----- What serialisation gives back -----

  /** The condition, on the content alone, under which the segment built at
      its front echoes exactly the bytes the loop skips: the front is not a
      known code, or the code is unsized, or the length field is at least 2
      and the declared payload is either fully present or free of unstuffed
      0xFF bytes. */
  ghost predicate LosslessAt(content: seq<byte>) {
    KnownAt(content, 0) && IsSized(NameAt(content)) && |content| >= 4 ==>
      var statedSize := 2 + 256 * content[2] as int + content[3] as int;
      && statedSize >= 4
      && (statedSize <= |content| || forall i :: !Unstuffed(Slice(content, 4, statedSize), i))
  }

  /** What a sized segment echoes, from the facts SizedMarker gives about
      it: the code, the length field and a prefix of the declared payload. */
  lemma SizedEcho(content: seq<byte>, s: Segment)
    requires |content| >= 4 && s.Marker? && s.statedSize >= 2
    requires s.header == content[..2] && s.sizeBytes == content[2..4]
    requires s.payload <= Slice(content, 4, s.statedSize)
    requires s.actualSize == s.statedSize - (|Slice(content, 4, s.statedSize)| - |s.payload|)
    requires !s.damaged ==> s.payload == Slice(content, 4, s.statedSize)
    requires s.damaged ==> |s.payload| < |Slice(content, 4, s.statedSize)|
    ensures s.Bytes() == Slice(content, 0, s.actualSize) <==>
      s.statedSize >= 4 && (s.statedSize <= |content| || !s.damaged)
  {
    var declared := Slice(content, 4, s.statedSize);
    assert content[..2] + content[2..4] == content[..4];
    if s.statedSize >= 4 && !s.damaged {
      assert s.Bytes() == Slice(content, 0, s.actualSize);
    } else if s.statedSize >= 4 && s.statedSize <= |content| {
      assert |declared| == s.statedSize - 4;
      assert s.payload == content[4..4 + |s.payload|];
      assert s.Bytes() == Slice(content, 0, s.actualSize);
    } else {
      assert |s.Bytes()| != |Slice(content, 0, s.actualSize)|;
    }
  }

  /** LosslessAt for a sized code, in terms of the segment built there. */
  lemma LosslessSized(content: seq<byte>, s: Segment)
    requires KnownAt(content, 0) && IsSized(NameAt(content)) && |content| >= 4
    requires s.Marker?
    requires s.statedSize == 2 + 256 * content[2] as int + content[3] as int
    requires s.damaged <==> exists i :: Unstuffed(Slice(content, 4, s.statedSize), i)
    ensures LosslessAt(content) <==> s.statedSize >= 4 && (s.statedSize <= |content| || !s.damaged)
  {
  }

  /** The sized case of StepEcho. */
  lemma SizedStepEcho(content: seq<byte>)
    requires KnownAt(content, 0) && IsSized(NameAt(content)) && |content| >= 4
    ensures ParseSegment(content).Built?
    ensures var s := ParseSegment(content).segment;
      s.Bytes() == Slice(content, 0, s.actualSize) <==> LosslessAt(content)
  {
    SizedMarker(content);
    var s := ParseSegment(content).segment;
    SizedEcho(content, s);
    LosslessSized(content, s);
  }

  /** A step echoes `content[:actual_size]` exactly when LosslessAt holds.
      Otherwise a length field of 0 or 1 echoes four bytes while the loop
      skips two or three, and a clamped payload that is also damaged echoes
      fewer bytes than the loop skips. */
  lemma StepEcho(content: seq<byte>)
    requires NextSegment(content).Ok?
    ensures var s := NextSegment(content).value;
      s.Bytes() == Slice(content, 0, s.actualSize) <==> LosslessAt(content)
  {
    var s := NextSegment(content).value;
    ConstructionFails(content);
    if !KnownAt(content, 0) {
      assert Slice(content, 0, s.actualSize) == content[..s.actualSize];
    } else if !IsSized(NameAt(content)) {
      UnsizedMarker(content);
    } else {
      SizedStepEcho(content);
    }
  }

  /** Every step of the parse is lossless in the sense of LosslessAt (and
      none raises). */
  ghost predicate AllLossless(content: seq<byte>)
    decreases |content|
  {
    |content| == 0 ||
    (NextSegment(content).Ok? && LosslessAt(content) &&
     AllLossless(Drop(content, NextSegment(content).value.actualSize)))
  }

  lemma ConcatPrepend(s: Segment, rest: seq<Segment>)
    ensures Concat([s] + rest) == s.Bytes() + Concat(rest)
  {
    assert ([s] + rest)[1..] == rest;
  }

  /** Round trip: when every step is lossless the parse succeeds and its
      `bytes` are the content it was given. */
  lemma {:induction false} RoundTrip(content: seq<byte>)
    requires AllLossless(content)
    ensures Split(content).Ok?
    ensures Concat(Split(content).value) == content
    decreases |content|
  {
    if |content| != 0 {
      var s := NextSegment(content).value;
      var rest := Drop(content, s.actualSize);
      RoundTrip(rest);
      SplitStep(content);
      StepEcho(content);
      ConcatPrepend(s, Split(rest).value);
      SliceThenDrop(content, s.actualSize);
    }
  }

  /** Splitting the serialised output of a lossless parse gives the same
      segment list again. */
  lemma SplitIdempotent(content: seq<byte>)
    requires AllLossless(content)
    ensures Split(content).Ok?
    ensures Split(Concat(Split(content).value)) == Split(content)
  {
    RoundTrip(content);
  }

  /** Every segment of a parse has actual size at least 1, so the parse takes
      at most one step per byte; it yields a segment exactly when the content
      is not empty. */
  lemma {:induction false} SplitProgress(content: seq<byte>)
    requires Split(content).Ok?
    ensures forall s | s in Split(content).value :: s.actualSize >= 1
    ensures |Split(content).value| <= |content|
    ensures |Split(content).value| == 0 <==> |content| == 0
    decreases |content|
  {
    if |content| != 0 {
      var s := NextSegment(content).value;
      var rest := Drop(content, s.actualSize);
      SplitStep(content);
      SplitProgress(rest);
      assert Split(content).value == [s] + Split(rest).value;
    }
  }

  /** Content without any known code anywhere cannot be parsed. */
  lemma NoMarkerIsFatal(content: seq<byte>)
    requires |content| != 0
    requires forall i :: !KnownAt(content, i)
    ensures Split(content) == Err(NoMarkerAhead)
  {
    NextSegmentOutcome(content);
    SplitStep(content);
  }
}
