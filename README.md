# jpyg: a verified model of a JPEG marker-segment tokenizer

jpyg splits a JPEG byte string into its marker segments and joins them back
together. The model covers the whole of `jpyg.py`:

- **the marker table.** `segment_tags` maps 33 two-byte codes to names.
  `segment_sized` says whether a name's segment carries a two-byte
  big-endian length field. These are 33 of the markers of table B.1 of ITU-T T.81.
- **`Segment`.** The constructor reads the code at the front of the buffer.
  For a sized code it decodes the length with `struct.unpack(">H")` and
  slices the declared payload (Python slicing clamps at the end of the
  buffer). It then runs the damage scan: the payload is cut before its
  first `0xFF` that is its last byte or is not followed by the stuffing
  byte `0x00` (the stuffing rule of section F.1.2.3 of T.81). The cut
  shrinks `actual_size` and sets `damaged`.
- **`BrokenSegment`.** When the front is not a known code, this
  constructor takes the prefix up to the nearest index where any known code
  occurs, `min(next_headers)`. With no candidate, `min` raises.
- **`JPEG`.** The constructor loop builds one segment per step, appends it
  and drops its `actual_size` from the front. `bytes` concatenates what
  each segment echoes.

Modules, one file each:

- `Wrappers`: `Option` and `Result`.
- `Bytes`: bytes, Python's clamping slice, and `>H` decoding.
- `Markers`: the two tables and the facts about them.
- `Segments`: both segment constructors and their `bytes`.
- `Splitter`: the `JPEG` class, its loop and the round-trip results.
- `Examples`: concrete buffers worked through the model.

Segments are values of the datatype `Segment`:

- `Marker` holds the fields of a `Segment`: header, name, size bytes,
  payload, stated size, actual size and damaged.
- `Broken` holds the fields of a `BrokenSegment`: payload and actual size.

Errors that escape the loop are the datatype `Fatal`:

- `StructError` is a sized code with fewer than four bytes of content.
- `NoMarkerAhead` is `min([])`.

`JPYGError` is the constructor outcome `NoSuchHeader`. The loop catches it
and falls through to resynchronisation.

How the tables are used. Python tests `content[:2] in segment_tags` and then
looks the name up. The model decides the same two things on the second byte:
`KnownAt` checks that byte against a set, and `NameAt` matches on it. Three
lemmas prove this agrees with the dictionary displays, which list the
entries in source order:

- `KnownAtIsLookup` proves `KnownAt` is membership in `SegmentTags`.
- `NameAtIsLookup` proves `NameAt` is the lookup in `SegmentTags`.
- `SizedExactly` proves `IsSized` is the lookup in `SegmentSized`.

This keeps proofs about the constructor from reasoning through a 33-entry
map each time.

Behaviour of the code worth knowing, which a reader expecting a lossless
tokenizer that honours the `0xFF` stuffing rule might not assume:

- The stated size counts the two code bytes: `stated_size = 2 + L`. A
  comment with length field 5 has stated size 7.
- A clamped payload is not flagged as damaged on its own account. Only the
  `0xFF` scan sets `damaged`.
- The scan has no exception for a `0xFF` that starts a legitimate marker.
- An error raised inside the loop escapes `JPEG.__init__`, so no partial
  segment list survives it.
- Serialising a parse gives the content back, and re-parsing gives the same
  segment list, as proved when every step is lossless (below); the converse
  is not proved. A buffer can
  parse without error and still break both: `FF FE 00 00 FF D9` parses to a
  comment, a broken segment `00 00` and an end of image, whose `bytes` are
  the eight bytes `FF FE 00 00 00 00 FF D9`; these parse with a broken
  segment `00 00 00 00` instead (`Examples.ZeroLengthBreaksRoundTrip`).

Round trip. One step echoes exactly the bytes the loop skips (`StepEcho`)
in these cases:

- the segment is broken;
- the marker is unsized;
- the length field is at least 2, and the declared payload is either fully
  present or free of unstuffed `0xFF` bytes.

A clamped but clean payload still echoes exactly: the slice and the skip
clamp alike. When every step is lossless the whole parse gives the content
back (`RoundTrip`).

The counterexamples are in `Examples`:

- a length field of 0 echoes four bytes while the loop skips two;
- a clamped and damaged comment echoes fewer bytes than the loop skips;
- a whole buffer with a zero-length comment parses, but neither round-trips
  nor re-parses to the same list.

The code table is written out more than once in `Markers`: as the two
dictionary displays in source order, as a match on the second byte
(`NameAt`), as the inverse table `CodeOf`, and as the set and ascending list
of second bytes. The lemmas that tie them together are split into groups of
rows (`NameRows`, `CodeRows`, `SizedRows`) only to keep each proof small.
The `## Model` rows below marked "proof helper" are unfoldings or sequence
algebra used by the other proofs, not properties of the source.

## Model

| member | source | states |
|---|---|---|
| `Bytes.Slice` | jpyg.py:92 | Python's `s[lo:hi]`. The result is empty when the clamped upper bound is at most `lo`; otherwise it is `s[lo..min(hi, len)]`, with that length. |
| `Bytes.Drop` | jpyg.py:141 | Python's `s[n:]`. The result is the suffix after `n`, or empty when `n` passes the end. |
| `Bytes.SliceThenDrop` | jpyg.py:141 | `s[:n] + s[n:] == s` for every `n`: the bytes a step takes and the bytes the loop keeps make up the content. |
| `Bytes.Unpack16` | jpyg.py:91 | `struct.unpack(">H", b)` succeeds exactly when `b` has two bytes, and its value is below 65536. |
| `Bytes.UnpackPack` | jpyg.py:91 | Decoding the big-endian encoding of any `n < 65536` gives `n` back. |
| `Bytes.PackUnpack` | jpyg.py:91 | For any two bytes, encoding the decoded value gives the same two bytes, so decoding is a bijection onto 0..65535. |
| `Markers.CodesShape` | jpyg.py:6-40 | Every code in `segment_tags` is two bytes long and starts with `0xFF`. |
| `Markers.CodeCount` | jpyg.py:6-40 | `segment_tags` holds exactly 33 codes. |
| `Markers.NamesDistinct` | jpyg.py:6-40 | No two codes map to the same name. |
| `Markers.CodeOfLookup` | jpyg.py:6-40 | `CodeOf`, an independent name-to-code table, inverts every lookup: `CodeOf(segment_tags[k]) == k`. |
| `Markers.LookupCodeOf` | jpyg.py:6-40 | Every name is reached by its code: `CodeOf(n)` is a key and maps to `n`. That no other code reaches it is `NamesDistinct`. |
| `Markers.CodeOfInjective` | jpyg.py:6-40 | Different names have different codes. |
| `Markers.NameAtCodeOf` | jpyg.py:6-40 | The code of every name is a known code, and `NameAt` maps it back to that name. |
| `Markers.KnownAt` | jpyg.py:82 | No contract of its own: a `0xFF` followed by one of the 33 second bytes at index `i`. `KnownAtIsLookup` proves it is the `in segment_tags` test. The table constants `SegmentTags` and `SegmentSized` (jpyg.py:6-76) are specified by the `Markers` lemmas in these rows. |
| `Markers.NameAt` | jpyg.py:85 | No contract of its own: the name of the known code at the front, by its second byte. `NameAtIsLookup` and `NameAtCodeOf` specify it. |
| `Markers.IsSized` | jpyg.py:86 | No contract of its own: false for SOI, EOI and RST0 to RST7. `SizedExactly` proves it is `segment_sized[name]`. |
| `Markers.KnownAtIsLookup` | jpyg.py:82 | The two bytes at index `i` form a key of `segment_tags` exactly when `KnownAt(s, i)` holds: a `0xFF` followed by one of the 33 second bytes. |
| `Markers.NameAtIsLookup` | jpyg.py:85 | For a known code at the front, `NameAt` is `segment_tags[content[:2]]`. |
| `Markers.TagNamesSized` | jpyg.py:6-76 | Every name in `segment_tags` has an entry in `segment_sized`, so the lookup at line 86 never raises. |
| `Markers.SizedExactly` | jpyg.py:42-76 | Every name has a `segment_sized` entry, and it is false for exactly SOI, EOI and RST0 to RST7. |
| `Segments.Unstuffed` | jpyg.py:100 | No contract of its own: the filter of the comprehension, a `0xFF` that is the last byte or not followed by `0x00`. `FFIndicesFrom` and `ScannedSpec` use it as their specification. |
| `Segments.FFIndicesFrom` | jpyg.py:100 | `ff_indices` from index `i` on. An index is in the list exactly when it is at least `i` and holds an unstuffed `0xFF` (the last byte, or not followed by `0x00`). The list is strictly increasing. |
| `Segments.FirstUnstuffed` | jpyg.py:100-102 | There is no cut point exactly when the payload has no unstuffed `0xFF`. Otherwise the cut is the first unstuffed `0xFF`. |
| `Segments.CutIsClean` | jpyg.py:102 | Proof helper. Cutting before the first unstuffed `0xFF` leaves no unstuffed `0xFF` in the prefix. |
| `Segments.Segment.Bytes` | jpyg.py:107-109 | No contract of its own: the `bytes` property of `Segment`, and of `BrokenSegment` at jpyg.py:124-126, whose code and length field are empty. `UnsizedMarker`, `ResyncSegment`, `SizedEcho` and `StepEcho` state what it echoes. |
| `Segments.Scanned` | jpyg.py:97-105 | The scan keeps `stated_size` and gives a marker segment. Its `actual_size` lies between `stated_size` minus the payload length and `stated_size`. |
| `Segments.ScannedSpec` | jpyg.py:97-105 | The scan in full. The payload becomes a prefix of itself. `actual_size` drops by exactly the bytes removed. `damaged` holds exactly when an unstuffed `0xFF` exists, and the cut is just before the first one. An undamaged payload is unchanged. No unstuffed `0xFF` remains. |
| `Segments.ParseSized` | jpyg.py:89-92 | The sized branch. Any segment it builds is a marker with `2 <= actual_size <= stated_size`. |
| `Segments.ParseSegment` | jpyg.py:79-105 | `Segment(content)`. Any segment it builds is a marker with `2 <= actual_size <= stated_size`. |
| `Segments.ConstructionFails` | jpyg.py:82-91 | `JPYGError` is raised exactly when the front is not a known code. `struct.error` is raised exactly when the code is sized and the content is shorter than 4 bytes. |
| `Segments.UnsizedMarker` | jpyg.py:85-98 | An unsized code gives the two-byte header, the name, empty size bytes, an empty payload, stated and actual size 2, and not damaged. Its `bytes` are `content[:2]`. |
| `Segments.SizedMarker` | jpyg.py:89-105 | A sized code with its length field present. The header and size bytes are `content[:2]` and `content[2:4]`. `stated_size == 2 + 256*content[2] + content[3]`. The pre-scan payload is `content[4:stated_size]`, clamped. The scan then acts on it as `ScannedSpec` says. |
| `Segments.PayloadIsClean` | jpyg.py:100-105 | After construction no payload holds an unstuffed `0xFF`, damaged or not. |
| `Segments.NextHeaders` | jpyg.py:119 | No contract of its own: the set of first indices of every code that occurs. `NextHeadersAreKnown`, `FirstKnownIsNextHeader` and `ResyncIsMinimum` specify it. |
| `Segments.FindFrom` | jpyg.py:119 | `content.index(k)` from index `i`. When found, it is the first occurrence at or after `i`. `None` means `k` does not occur from `i` on. |
| `Segments.FirstKnownFrom` | jpyg.py:119-121 | The first index at or after `i` where a known code starts, or `None` when there is none. |
| `Segments.ResyncSegment` | jpyg.py:115-122 | `BrokenSegment(content)`. The payload is `content[:actual_size]` and so are its `bytes`. A known code starts at `actual_size`, which is below `len(content)`, and none starts before it. When the front is not a known code, `actual_size >= 1`. |
| `Segments.ResyncFails` | jpyg.py:119-121 | `min(next_headers)` raises exactly when no known code occurs anywhere in the content. |
| `Segments.NextHeadersAreKnown` | jpyg.py:119 | Every member of `next_headers` is an index where a known code starts. |
| `Segments.FirstKnownIsNextHeader` | jpyg.py:119 | The first index where a known code starts is a member of `next_headers`. |
| `Segments.ResyncIsMinimum` | jpyg.py:119-121 | The resynchronisation point is `min(next_headers)`. There is none exactly when `next_headers` is empty. |
| `Splitter.NextSegment` | jpyg.py:136-139 | One loop step. Any segment it builds has `actual_size >= 1`, so the loop makes progress. |
| `Splitter.NextSegmentOutcome` | jpyg.py:136-139 | The step builds a broken segment exactly when the front is not a known code. It fails with `struct.error` exactly when a sized code lacks its length field. It fails with `min`'s error exactly when no known code occurs. |
| `Splitter.Split` | jpyg.py:132-141 | No contract of its own: the loop as a recursive function, giving the segment list or the escaping error. `Parse`, `SplitStep`, `SplitProgress`, `RoundTrip` and `SplitIdempotent` specify it. |
| `Splitter.SplitEmpty` | jpyg.py:135 | Proof helper. Empty content gives no segments. |
| `Splitter.SplitStep` | jpyg.py:135-141 | Proof helper, one unfolding of `Split`. On non-empty content, a failed step is the parse's error. Otherwise the parse is the step's segment followed by the parse of `content[actual_size:]`. |
| `Splitter.PrependAppend` | jpyg.py:140 | Proof helper. Appending the step's segment to the list so far is prepending it to the rest of the parse. |
| `Splitter.Jpeg.constructor` | jpyg.py:133 | A new object has an empty segment list. |
| `Splitter.Jpeg.Bytes` | jpyg.py:143-145 | No contract of its own: the `bytes` property, the join of the segments' `bytes`. `Parse` and `RoundTrip` state when it is the content. |
| `Splitter.Concat` | jpyg.py:145 | No contract of its own: `''.join(s.bytes for s in segments)`. `ConcatPrepend` and `RoundTrip` specify it. |
| `Splitter.Parse` | jpyg.py:132-141 | `JPEG(content)` succeeds exactly when the parse does. The new object's segments are the parse, and a failure carries the parse's error. When every step is lossless, the object's `bytes` equal `content`. |
| `Splitter.SizedEcho` | jpyg.py:89-109 | A sized segment echoes exactly the bytes the loop skips when the stated size is at least 4 and the payload is fully present or undamaged, and only then. |
| `Splitter.LosslessSized` | jpyg.py:89-105 | For a sized code, `LosslessAt` is that same condition, stated on the segment built there. |
| `Splitter.SizedStepEcho` | jpyg.py:89-109 | For a sized code with a length field, the segment's `bytes` equal `content[:actual_size]` exactly when `LosslessAt` holds. |
| `Splitter.StepEcho` | jpyg.py:107-126 | For any successful step, the segment's `bytes` equal `content[:actual_size]` exactly when `LosslessAt` holds. |
| `Splitter.ConcatPrepend` | jpyg.py:145 | Proof helper. The join of a segment followed by a list is that segment's `bytes` followed by the join of the list. |
| `Splitter.RoundTrip` | jpyg.py:132-145 | When every step is lossless, the parse succeeds and joining its segments gives the content back. |
| `Splitter.SplitIdempotent` | jpyg.py:132-145 | When every step is lossless, parsing the serialised output gives the same segment list. |
| `Splitter.SplitProgress` | jpyg.py:135-141 | Every segment of a successful parse has `actual_size >= 1`. There are at most as many segments as bytes. The list is empty exactly when the content is. |
| `Splitter.NoMarkerIsFatal` | jpyg.py:119-139 | Non-empty content with no known code anywhere fails with `min`'s error. |
| `Examples.StartOfImage` | jpyg.py:85-98 | `FF D8 FF D9` starts with an unsized SOI of size 2. |
| `Examples.EndOfImage` | jpyg.py:85-98 | `FF D9` is an unsized EOI of size 2. |
| `Examples.StartThenEnd` | jpyg.py:132-141 | `FF D8 FF D9` parses to SOI followed by EOI. |
| `Examples.ShortComment` | jpyg.py:89-98 | A comment with length field 5 and payload `41 42 43` has stated and actual size 7 and is not damaged. |
| `Examples.DamagedComment` | jpyg.py:100-105 | A comment with length 6 whose payload holds `FF D9` is cut to `41`. It has stated size 8, actual size 5, and is damaged. |
| `Examples.UnknownBytes` | jpyg.py:115-122 | `01 02` before a start of scan becomes a broken segment of size 2. |
| `Examples.EmptyScan` | jpyg.py:89-98 | A start of scan with length field 2 has an empty payload and size 4. |
| `Examples.ResyncBeforeScan` | jpyg.py:132-141 | `01 02 FF DA 00 02` parses to a broken segment followed by the start of scan. |
| `Examples.NoMarkerAnywhere` | jpyg.py:119-121 | `01 02 03` fails with `min`'s error. |
| `Examples.TrailingByte` | jpyg.py:119-141 | `FF D8 00` fails: the stray `00` after SOI cannot be resynchronised. |
| `Examples.TruncatedLengthField` | jpyg.py:89-91 | `FF FE 00` fails with `struct.error`. |
| `Examples.ZeroLength` | jpyg.py:89-109 | A comment with length field 0 has stated size 2, but its `bytes` are four bytes long. |
| `Examples.ZeroLengthIsLossy` | jpyg.py:89-92 | That buffer fails `LosslessAt`. |
| `Examples.ZeroLengthFront` | jpyg.py:89-98 | Any buffer starting `FF FE 00 00` builds a comment of stated and actual size 2 with an empty payload. |
| `Examples.ZeroLengthStream` | jpyg.py:132-141 | `FF FE 00 00 FF D9` parses without error to the comment, a broken segment `00 00` and an end of image. |
| `Examples.TwoZerosThenEnd` | jpyg.py:115-141 | `00 00 FF D9` parses to a broken segment `00 00` and an end of image. |
| `Examples.FourZerosThenEnd` | jpyg.py:115-141 | `00 00 00 00 FF D9` parses to a broken segment `00 00 00 00` and an end of image. |
| `Examples.ZeroLengthEcho` | jpyg.py:143-145 | The `bytes` of that parse are the eight bytes `FF FE 00 00 00 00 FF D9`: the length bytes appear twice. |
| `Examples.ZeroLengthEchoSplit` | jpyg.py:132-141 | Those eight bytes parse to the comment, a broken segment `00 00 00 00` and an end of image. |
| `Examples.ZeroLengthBreaksRoundTrip` | jpyg.py:132-145 | `FF FE 00 00 FF D9` parses without error, its `bytes` differ from it, and re-parsing those `bytes` gives a different segment list. |
| `Examples.ClampedAndDamaged` | jpyg.py:89-109 | A comment declaring 16 bytes with only `01 FF 02` present has stated size 18, actual size 16 and is damaged. It echoes five bytes. |
| `Examples.ClampedAndDamagedIsLossy` | jpyg.py:89-105 | That buffer fails `LosslessAt`. |

## Left out

- `__repr__` of `Segment` and `BrokenSegment` (jpyg.py:111-112, 128-129) is left out because it is presentation only.
- The `struct` module is not modelled. `unpack(">H")` is the arithmetic `256*b0 + b1` and fails unless given exactly two bytes.
- Python exceptions are not modelled as such. `JPYGError` is the constructor outcome `NoSuchHeader`. The uncaught `struct.error` and the `ValueError` of `min([])` are the `Fatal` errors returned by `Split` and `Parse`.
- Python 2 `str` becomes a sequence of bytes, and the dictionary's iteration order is not modelled. The order cannot matter because `min` is taken over all keys.
- `Segment` and `BrokenSegment` are values. Their constructors' step-by-step field assignments, including the in-place shrink of `actual_size` and `payload` at jpyg.py:103-104, are one function giving the final fields. Nothing can observe the intermediate object.
- `Splitter.RoundTrip`: only the direction "every step lossless implies the output equals the input" is proved. The converse is not proved. `Examples.ZeroLengthBreaksRoundTrip` shows one buffer where a lossy step does break the round trip.
- No file I/O or command-line wrapper exists in the source, so none is modelled.
