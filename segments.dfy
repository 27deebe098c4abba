/** The segment tokenizer: the two kinds of segment the splitter builds,
    recognising one well-formed segment at the front of a buffer (the
    constructor of `Segment`), and resynchronising past bytes that do not
    start with a known marker (the constructor of `BrokenSegment`). */
module Segments {
  import opened Wrappers
  import opened Bytes
  import opened Markers

  /** A segment as the splitter stores it.  `Marker` is a `Segment` object:
      its two-byte code, the name it maps to, the length field (empty for an
      unsized marker), the payload after the damage scan, the size the length
      field announces (counting the code) and the number of bytes the splitter
      skips.  `Broken` is a `BrokenSegment` object, whose code, name and
      length field are empty. */
  datatype Segment =
    | Marker(header: seq<byte>, name: Name, sizeBytes: seq<byte>, payload: seq<byte>,
             statedSize: nat, actualSize: nat, damaged: bool)
    | Broken(payload: seq<byte>, actualSize: nat)
  {
    /** The `bytes` property of both classes: code, length field and payload. */
    function Bytes(): seq<byte> {
      match this
      case Marker(header, _, sizeBytes, payload, _, _, _) => header + sizeBytes + payload
      case Broken(payload, _) => payload
    }
  }

  /** The two errors that escape the splitter's `except JPYGError`: the
      `struct.error` of decoding a length field that is not two bytes long,
      and the `ValueError` of `min` over no resynchronisation point. */
  datatype Fatal = StructError | NoMarkerAhead

  /** What constructing a `Segment` does: it builds one, raises `JPYGError`
      because the front is not a known code, or raises `struct.error`. */
  datatype Construction = Built(segment: Segment) | NoSuchHeader | Unpackable

  // ----- The damage scan -----

  /** Index i of p holds a 0xFF that is the last byte or is not followed by
      the stuffing byte 0x00. */
  predicate Unstuffed(p: seq<byte>, i: int) {
    0 <= i < |p| && p[i] == 0xFF && (i + 1 == |p| || p[i + 1] != 0x00)
  }

  /** The list `ff_indices` of the constructor, from index i on: every
      unstuffed 0xFF at or after i, in increasing order. */
  function FFIndicesFrom(p: seq<byte>, i: nat): (r: seq<nat>)
    decreases |p| - i
    ensures forall j: nat :: j in r <==> i <= j && Unstuffed(p, j)
    ensures forall a, b | 0 <= a < b < |r| :: r[a] < r[b]
  {
    if i >= |p| then []
    else
      var rest := FFIndicesFrom(p, i + 1);
      if Unstuffed(p, i) then
        assert forall b | 0 <= b < |rest| :: rest[b] in rest;
        [i] + rest
      else rest
  }

  function FFIndices(p: seq<byte>): seq<nat> {
    FFIndicesFrom(p, 0)
  }

  /** The first unstuffed 0xFF of a payload, if any: where the scan cuts. */
  function FirstUnstuffed(p: seq<byte>): (r: Option<nat>)
    ensures r.None? <==> forall i :: !Unstuffed(p, i)
    ensures r.Some? ==> Unstuffed(p, r.value) && forall j | 0 <= j < r.value :: !Unstuffed(p, j)
  {
    var ff := FFIndices(p);
    if ff == [] then None
    else
      assert ff[0] in ff;
      assert forall j: nat | j < ff[0] && Unstuffed(p, j) :: j in ff;
      Some(ff[0])
  }

  /** The last steps of the constructor: the damage scan over the payload
      sliced so far, which cuts the payload before its first unstuffed 0xFF,
      shrinks the actual size by the bytes it drops and flags the damage. */
  function Scanned(header: seq<byte>, name: Name, sizeBytes: seq<byte>,
                   payload: seq<byte>, statedSize: nat): (r: Segment)
    requires |payload| <= statedSize
    ensures r.Marker? && r.statedSize == statedSize
    ensures statedSize - |payload| <= r.actualSize <= statedSize
  {
    match FirstUnstuffed(payload)
    case None => Marker(header, name, sizeBytes, payload, statedSize, statedSize, false)
    case Some(cut) =>
      var kept := payload[..cut];
      Marker(header, name, sizeBytes, kept, statedSize, statedSize - (|payload| - |kept|), true)
  }

  /** Cutting a payload before its first unstuffed 0xFF leaves no unstuffed
      0xFF behind: the byte before the cut is not a 0xFF, or it would have been
      the first. */
  lemma CutIsClean(p: seq<byte>, cut: nat)
    requires Unstuffed(p, cut)
    requires forall j | 0 <= j < cut :: !Unstuffed(p, j)
    ensures forall i :: !Unstuffed(p[..cut], i)
  {
    forall i | 0 <= i < cut
      ensures !Unstuffed(p[..cut], i)
    {
      assert !Unstuffed(p, i);
    }
  }

  /** What the damage scan does to the payload it is given: the payload is
      cut to a prefix, exactly when it holds an unstuffed 0xFF, just before
      the first one; the actual size drops by the bytes cut off; the result
      holds no unstuffed 0xFF at all. */
  lemma ScannedSpec(header: seq<byte>, name: Name, sizeBytes: seq<byte>,
                    payload: seq<byte>, statedSize: nat)
    requires |payload| <= statedSize
    ensures var s := Scanned(header, name, sizeBytes, payload, statedSize);
      && s.header == header && s.name == name && s.sizeBytes == sizeBytes
      && s.statedSize == statedSize
      && s.payload <= payload
      && s.actualSize == statedSize - (|payload| - |s.payload|)
      && (s.damaged <==> exists i :: Unstuffed(payload, i))
      && (s.damaged ==> Unstuffed(payload, |s.payload|) &&
                        forall j | 0 <= j < |s.payload| :: !Unstuffed(payload, j))
      && (!s.damaged ==> s.payload == payload)
      && forall i :: !Unstuffed(s.payload, i)
  {
    var cut := FirstUnstuffed(payload);
    if cut.Some? {
      CutIsClean(payload, cut.value);
    }
  }

  // ----- Segment.__init__ -----

  /** The sized branch of the constructor: decode the length field and
      slice the declared payload out of the content. */
  function ParseSized(header: seq<byte>, name: Name, content: seq<byte>): (r: Construction)
    ensures r.Built? ==> r.segment.Marker? && 2 <= r.segment.actualSize <= r.segment.statedSize
  {
    var sizeBytes := Slice(content, 2, 4);
    match Unpack16(sizeBytes)
    case None => Unpackable
    case Some(length) =>
      var statedSize := 2 + length;
      Built(Scanned(header, name, sizeBytes, Slice(content, 4, statedSize), statedSize))
  }

  /** The constructor of `Segment` on the remaining content. */
  function ParseSegment(content: seq<byte>): (r: Construction)
    ensures r.Built? ==> r.segment.Marker? && 2 <= r.segment.actualSize <= r.segment.statedSize
  {
    var header := Slice(content, 0, 2);
    if !KnownAt(content, 0) then NoSuchHeader
    else
      assert header == content[..2];
      var name := NameAt(content);
      if IsSized(name) then ParseSized(header, name, content)
      else Built(Scanned(header, name, [], [], 2))
  }

  /** Construction raises `JPYGError` exactly when the front is not a known
      code, and `struct.error` exactly when the code is sized and the content
      is shorter than four bytes. */
  lemma ConstructionFails(content: seq<byte>)
    ensures ParseSegment(content).NoSuchHeader? <==> !KnownAt(content, 0)
    ensures ParseSegment(content).Unpackable? <==>
      KnownAt(content, 0) && IsSized(NameAt(content)) && |content| < 4
  {
    if KnownAt(content, 0) {
      assert Slice(content, 0, 2) == content[..2];
      assert |Slice(content, 2, 4)| == 2 <==> |content| >= 4;
    }
  }

  /** An unsized marker: the two-byte code, no length field, no payload,
      stated and actual size 2, not damaged; it echoes the code alone. */
  lemma UnsizedMarker(content: seq<byte>)
    requires KnownAt(content, 0) && !IsSized(NameAt(content))
    ensures ParseSegment(content) ==
      Built(Marker(content[..2], NameAt(content), [], [], 2, 2, false))
    ensures ParseSegment(content).segment.Bytes() == content[..2]
  {
    assert Slice(content, 0, 2) == content[..2];
    assert FFIndices([]) == [];
  }

  /** A sized marker with its length field present: the stated size is two
      plus the big-endian length, the payload before the scan is the content
      from index 4 up to the stated size, clamped to the content, and the
      scan then acts on that payload as ScannedSpec says. */
  lemma SizedMarker(content: seq<byte>)
    requires KnownAt(content, 0) && IsSized(NameAt(content)) && |content| >= 4
    ensures ParseSegment(content).Built?
    ensures var s := ParseSegment(content).segment;
      var declared := Slice(content, 4, s.statedSize);
      && s.header == content[..2] && s.name == NameAt(content)
      && s.sizeBytes == content[2..4]
      && s.statedSize == 2 + 256 * content[2] as int + content[3] as int
      && s.payload <= declared
      && s.actualSize == s.statedSize - (|declared| - |s.payload|)
      && (s.damaged <==> exists i :: Unstuffed(declared, i))
      && (s.damaged ==> Unstuffed(declared, |s.payload|) &&
                        forall j | 0 <= j < |s.payload| :: !Unstuffed(declared, j))
      && (!s.damaged ==> s.payload == declared)
  {
    assert Slice(content, 0, 2) == content[..2];
    var sizeBytes := Slice(content, 2, 4);
    assert sizeBytes == content[2..4];
    var statedSize := 2 + Unpack16(sizeBytes).value;
    ScannedSpec(content[..2], NameAt(content), sizeBytes,
                Slice(content, 4, statedSize), statedSize);
  }

  /** After construction no payload holds a 0xFF that is its last byte or is
      not followed by 0x00, damaged or not. */
  lemma PayloadIsClean(content: seq<byte>)
    requires ParseSegment(content).Built?
    ensures forall i :: !Unstuffed(ParseSegment(content).segment.payload, i)
  {
    ConstructionFails(content);
    var name := NameAt(content);
    assert Slice(content, 0, 2) == content[..2];
    if IsSized(name) {
      var sizeBytes := Slice(content, 2, 4);
      var statedSize := 2 + Unpack16(sizeBytes).value;
      ScannedSpec(content[..2], name, sizeBytes, Slice(content, 4, statedSize), statedSize);
    } else {
      ScannedSpec(content[..2], name, [], [], 2);
    }
  }

  // ----- BrokenSegment.__init__ -----

  /** k occurs in s at index j. */
  predicate OccursAt(s: seq<byte>, k: seq<byte>, j: nat) {
    j + |k| <= |s| && s[j..j + |k|] == k
  }

  /** Python's `s.index(k)` searched from index i: the first occurrence of k
      at or after i, or None when `k in s[i:]` is false. */
  function FindFrom(s: seq<byte>, k: seq<byte>, i: nat): (r: Option<nat>)
    decreases |s| - i
    ensures r.Some? ==> i <= r.value && OccursAt(s, k, r.value)
    ensures forall j | i <= j && (r.None? || j < r.value) :: !OccursAt(s, k, j)
  {
    if i + |k| > |s| then None
    else if OccursAt(s, k, i) then Some(i)
    else FindFrom(s, k, i + 1)
  }

  /** The earliest index at or after i where any known code starts. */
  function FirstKnownFrom(s: seq<byte>, i: nat): (r: Option<nat>)
    decreases |s| - i
    ensures r.Some? ==> i <= r.value && KnownAt(s, r.value)
    ensures forall j | i <= j && (r.None? || j < r.value) :: !KnownAt(s, j)
  {
    if i + 2 > |s| then None
    else if KnownAt(s, i) then Some(i)
    else FirstKnownFrom(s, i + 1)
  }

  /** The list `next_headers`: the first index of every code that occurs. */
  ghost function NextHeaders(content: seq<byte>): set<nat> {
    set k | k in SegmentTags && FindFrom(content, k, 0).Some? :: FindFrom(content, k, 0).value
  }

  /** The constructor of `BrokenSegment`: the prefix up to the nearest known
      code, so no known code starts before the cut; `min` of no candidates
      raises. */
  function ResyncSegment(content: seq<byte>): (r: Result<Segment, Fatal>)
    ensures r.Ok? ==> r.value.Broken? && r.value.actualSize < |content|
    ensures r.Ok? ==> r.value.Bytes() == content[..r.value.actualSize]
    ensures r.Ok? ==> KnownAt(content, r.value.actualSize)
    ensures r.Ok? ==> forall j: nat | j < r.value.actualSize :: !KnownAt(content, j)
    ensures r.Ok? && !KnownAt(content, 0) ==> r.value.actualSize >= 1
  {
    match FirstKnownFrom(content, 0)
    case None => Err(NoMarkerAhead)
    case Some(j) => Ok(Broken(content[..j], j))
  }

  /** Resynchronisation fails exactly when no known code occurs anywhere. */
  lemma ResyncFails(content: seq<byte>)
    ensures ResyncSegment(content).Err? <==> forall i :: !KnownAt(content, i)
  {
  }

  /** Every member of `next_headers` is an index where a known code starts. */
  lemma NextHeadersAreKnown(content: seq<byte>, x: nat)
    requires x in NextHeaders(content)
    ensures KnownAt(content, x)
  {
    CodesShape();
    var k :| k in SegmentTags && FindFrom(content, k, 0).Some? && FindFrom(content, k, 0).value == x;
    assert OccursAt(content, k, x);
    KnownAtIsLookup(content, x);
  }

  /** Every index where a known code starts first is in `next_headers`. */
  lemma FirstKnownIsNextHeader(content: seq<byte>, j: nat)
    requires KnownAt(content, j)
    requires forall i: nat | i < j :: !KnownAt(content, i)
    ensures j in NextHeaders(content)
  {
    var k := content[j..j + 2];
    KnownAtIsLookup(content, j);
    assert OccursAt(content, k, j);
    var found := FindFrom(content, k, 0);
    assert found.Some? && found.value <= j;
    assert content[found.value..found.value + 2] == k;
    KnownAtIsLookup(content, found.value);
    assert found.value == j;
    assert k in SegmentTags && FindFrom(content, k, 0).Some? && FindFrom(content, k, 0).value == j;
  }

  /** The resynchronisation point the scan finds is `min(next_headers)`, and
      the scan finds none exactly when `next_headers` is empty. */
  lemma ResyncIsMinimum(content: seq<byte>)
    ensures FirstKnownFrom(content, 0).None? <==> NextHeaders(content) == {}
    ensures FirstKnownFrom(content, 0).Some? ==>
      var j := FirstKnownFrom(content, 0).value;
      j in NextHeaders(content) && forall x | x in NextHeaders(content) :: j <= x
  {
    var first := FirstKnownFrom(content, 0);
    forall x | x in NextHeaders(content)
      ensures first.Some? && first.value <= x
    {
      NextHeadersAreKnown(content, x);
    }
    if first.Some? {
      FirstKnownIsNextHeader(content, first.value);
    }
  }
}
