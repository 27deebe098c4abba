/** The fixed marker table of the tokenizer: the two-byte marker codes of
    ITU-T T.81 (table B.1) it recognises, the symbolic name of each, and
    whether the segment that a marker opens carries a two-byte length field. */
module Markers {
  import opened Bytes

  /** The symbolic names used as keys of the "sized" table. */
  datatype Name =
    | SOI | SOF0 | SOF2 | DHT | DQT | DRI | SOS
    | RST0 | RST1 | RST2 | RST3 | RST4 | RST5 | RST6 | RST7
    | APP0 | APP1 | APP2 | APP3 | APP4 | APP5 | APP6 | APP7
    | APP8 | APP9 | APPa | APPb | APPc | APPd | APPe | APPf
    | COM | EOI

  /** Marker code to name. */
  const SegmentTags: map<seq<byte>, Name> := map[
    [0xFF, 0xD8] := SOI,
    [0xFF, 0xC0] := SOF0,
    [0xFF, 0xC2] := SOF2,
    [0xFF, 0xC4] := DHT,
    [0xFF, 0xDB] := DQT,
    [0xFF, 0xDD] := DRI,
    [0xFF, 0xDA] := SOS,
    [0xFF, 0xD0] := RST0,
    [0xFF, 0xD1] := RST1,
    [0xFF, 0xD2] := RST2,
    [0xFF, 0xD3] := RST3,
    [0xFF, 0xD4] := RST4,
    [0xFF, 0xD5] := RST5,
    [0xFF, 0xD6] := RST6,
    [0xFF, 0xD7] := RST7,
    [0xFF, 0xE0] := APP0,
    [0xFF, 0xE1] := APP1,
    [0xFF, 0xE2] := APP2,
    [0xFF, 0xE3] := APP3,
    [0xFF, 0xE4] := APP4,
    [0xFF, 0xE5] := APP5,
    [0xFF, 0xE6] := APP6,
    [0xFF, 0xE7] := APP7,
    [0xFF, 0xE8] := APP8,
    [0xFF, 0xE9] := APP9,
    [0xFF, 0xEA] := APPa,
    [0xFF, 0xEB] := APPb,
    [0xFF, 0xEC] := APPc,
    [0xFF, 0xED] := APPd,
    [0xFF, 0xEE] := APPe,
    [0xFF, 0xEF] := APPf,
    [0xFF, 0xFE] := COM,
    [0xFF, 0xD9] := EOI
  ]

  /** Name to "has a length field". */
  const SegmentSized: map<Name, bool> := map[
    SOI := false,
    SOF0 := true,
    SOF2 := true,
    DHT := true,
    DQT := true,
    DRI := true,
    SOS := true,
    RST0 := false,
    RST1 := false,
    RST2 := false,
    RST3 := false,
    RST4 := false,
    RST5 := false,
    RST6 := false,
    RST7 := false,
    APP0 := true,
    APP1 := true,
    APP2 := true,
    APP3 := true,
    APP4 := true,
    APP5 := true,
    APP6 := true,
    APP7 := true,
    APP8 := true,
    APP9 := true,
    APPa := true,
    APPb := true,
    APPc := true,
    APPd := true,
    APPe := true,
    APPf := true,
    COM := true,
    EOI := false
  ]

  /** `segment_tags[s[:2]]`, for content that starts with a known code,
      decided on the second byte (NameAtIsLookup shows it is the lookup). */
  function NameAt(s: seq<byte>): Name
    requires KnownAt(s, 0)
  {
    match s[1]
    case 0xD8 => SOI
    case 0xC0 => SOF0
    case 0xC2 => SOF2
    case 0xC4 => DHT
    case 0xDB => DQT
    case 0xDD => DRI
    case 0xDA => SOS
    case 0xD0 => RST0
    case 0xD1 => RST1
    case 0xD2 => RST2
    case 0xD3 => RST3
    case 0xD4 => RST4
    case 0xD5 => RST5
    case 0xD6 => RST6
    case 0xD7 => RST7
    case 0xE0 => APP0
    case 0xE1 => APP1
    case 0xE2 => APP2
    case 0xE3 => APP3
    case 0xE4 => APP4
    case 0xE5 => APP5
    case 0xE6 => APP6
    case 0xE7 => APP7
    case 0xE8 => APP8
    case 0xE9 => APP9
    case 0xEA => APPa
    case 0xEB => APPb
    case 0xEC => APPc
    case 0xED => APPd
    case 0xEE => APPe
    case 0xEF => APPf
    case 0xFE => COM
    case _ => EOI // the one second byte left, 0xD9
  }

  /** `segment_sized[name]` (SizedExactly shows it is the lookup). */
  function IsSized(n: Name): bool {
    !IsStandalone(n)
  }

  /** The markers that open a segment without a length field. */
  predicate IsStandalone(n: Name) {
    n in {SOI, EOI, RST0, RST1, RST2, RST3, RST4, RST5, RST6, RST7}
  }

  /** A known marker code starts at index i of s: a 0xFF followed by one of
      the 33 second bytes (KnownAtIsLookup shows this is a key of SegmentTags). */
  predicate KnownAt(s: seq<byte>, i: nat) {
    i + 2 <= |s| && s[i] == 0xFF && s[i + 1] in SecondBytes
  }

  /** The code of each name: the inverse of SegmentTags, used to state that
      the table is a bijection between its codes and the names. */
  function CodeOf(n: Name): (k: seq<byte>)
    ensures |k| == 2 && k[0] == 0xFF
  {
    match n
    case SOI => [0xFF, 0xD8]
    case SOF0 => [0xFF, 0xC0]
    case SOF2 => [0xFF, 0xC2]
    case DHT => [0xFF, 0xC4]
    case DQT => [0xFF, 0xDB]
    case DRI => [0xFF, 0xDD]
    case SOS => [0xFF, 0xDA]
    case RST0 => [0xFF, 0xD0]
    case RST1 => [0xFF, 0xD1]
    case RST2 => [0xFF, 0xD2]
    case RST3 => [0xFF, 0xD3]
    case RST4 => [0xFF, 0xD4]
    case RST5 => [0xFF, 0xD5]
    case RST6 => [0xFF, 0xD6]
    case RST7 => [0xFF, 0xD7]
    case APP0 => [0xFF, 0xE0]
    case APP1 => [0xFF, 0xE1]
    case APP2 => [0xFF, 0xE2]
    case APP3 => [0xFF, 0xE3]
    case APP4 => [0xFF, 0xE4]
    case APP5 => [0xFF, 0xE5]
    case APP6 => [0xFF, 0xE6]
    case APP7 => [0xFF, 0xE7]
    case APP8 => [0xFF, 0xE8]
    case APP9 => [0xFF, 0xE9]
    case APPa => [0xFF, 0xEA]
    case APPb => [0xFF, 0xEB]
    case APPc => [0xFF, 0xEC]
    case APPd => [0xFF, 0xED]
    case APPe => [0xFF, 0xEE]
    case APPf => [0xFF, 0xEF]
    case COM => [0xFF, 0xFE]
    case EOI => [0xFF, 0xD9]
  }

  /** The second bytes of the 33 codes, as a set and in increasing order. */
  const SecondBytes: set<byte> := {
      0xC0, 0xC2, 0xC4, 0xD0, 0xD1, 0xD2, 0xD3, 0xD4, 0xD5, 0xD6, 0xD7,
      0xD8, 0xD9, 0xDA, 0xDB, 0xDD, 0xE0, 0xE1, 0xE2, 0xE3, 0xE4, 0xE5,
      0xE6, 0xE7, 0xE8, 0xE9, 0xEA, 0xEB, 0xEC, 0xED, 0xEE, 0xEF, 0xFE
    }
  ghost const SecondBytesAscending: seq<byte> := [
      0xC0, 0xC2, 0xC4, 0xD0, 0xD1, 0xD2, 0xD3, 0xD4, 0xD5, 0xD6, 0xD7,
      0xD8, 0xD9, 0xDA, 0xDB, 0xDD, 0xE0, 0xE1, 0xE2, 0xE3, 0xE4, 0xE5,
      0xE6, 0xE7, 0xE8, 0xE9, 0xEA, 0xEB, 0xEC, 0xED, 0xEE, 0xEF, 0xFE
    ]

  /** Every code is two bytes long and begins with 0xFF. */
  lemma CodesShape()
    ensures forall k: seq<byte> | k in SegmentTags :: |k| == 2 && k[0] == 0xFF
  {
  }

  /** NameAt undoes CodeOf. */
  lemma NameAtCodeOf(n: Name)
    ensures KnownAt(CodeOf(n), 0) && NameAt(CodeOf(n)) == n
  {
    if n in {SOI, SOF0, SOF2, DHT, DQT, DRI, SOS, RST0, RST1, RST2, RST3} {
      NameRows1(n);
    } else if n in {RST4, RST5, RST6, RST7, APP0, APP1, APP2, APP3, APP4, APP5, APP6} {
      NameRows2(n);
    } else {
      NameRows3(n);
    }
  }

  /* NameAtCodeOf, a third of the names at a time. */
  lemma NameRows1(n: Name)
    requires n in {SOI, SOF0, SOF2, DHT, DQT, DRI, SOS, RST0, RST1, RST2, RST3}
    ensures KnownAt(CodeOf(n), 0) && NameAt(CodeOf(n)) == n
  {
  }

  lemma NameRows2(n: Name)
    requires n in {RST4, RST5, RST6, RST7, APP0, APP1, APP2, APP3, APP4, APP5, APP6}
    ensures KnownAt(CodeOf(n), 0) && NameAt(CodeOf(n)) == n
  {
  }

  lemma NameRows3(n: Name)
    requires n in {APP7, APP8, APP9, APPa, APPb, APPc, APPd, APPe, APPf, COM, EOI}
    ensures KnownAt(CodeOf(n), 0) && NameAt(CodeOf(n)) == n
  {
  }

  /** CodeOf undoes the table lookup. */
  lemma CodeOfLookup()
    ensures forall k | k in SegmentTags :: CodeOf(SegmentTags[k]) == k
  {
    forall k | k in SegmentTags
      ensures CodeOf(SegmentTags[k]) == k
    {
      KeysAreSecondBytes();
      var b :| b in SecondBytes && k == [0xFF, b];
      if b in {0xC0, 0xC2, 0xC4, 0xD0, 0xD1, 0xD2} {
        CodeRows1(b);
      } else if b in {0xD3, 0xD4, 0xD5, 0xD6, 0xD7, 0xD8} {
        CodeRows2(b);
      } else if b in {0xD9, 0xDA, 0xDB, 0xDD, 0xE0, 0xE1} {
        CodeRows3(b);
      } else if b in {0xE2, 0xE3, 0xE4, 0xE5, 0xE6, 0xE7} {
        CodeRows4(b);
      } else if b in {0xE8, 0xE9, 0xEA, 0xEB, 0xEC, 0xED} {
        CodeRows5(b);
      } else {
        CodeRows6(b);
      }
    }
  }

  /* CodeOfLookup, a few rows of the table at a time. */
  lemma CodeRows1(b: byte)
    requires b in {0xC0, 0xC2, 0xC4, 0xD0, 0xD1, 0xD2}
    ensures [0xFF, b] in SegmentTags && CodeOf(SegmentTags[[0xFF, b]]) == [0xFF, b]
  {
  }

  lemma CodeRows2(b: byte)
    requires b in {0xD3, 0xD4, 0xD5, 0xD6, 0xD7, 0xD8}
    ensures [0xFF, b] in SegmentTags && CodeOf(SegmentTags[[0xFF, b]]) == [0xFF, b]
  {
  }

  lemma CodeRows3(b: byte)
    requires b in {0xD9, 0xDA, 0xDB, 0xDD, 0xE0, 0xE1}
    ensures [0xFF, b] in SegmentTags && CodeOf(SegmentTags[[0xFF, b]]) == [0xFF, b]
  {
  }

  lemma CodeRows4(b: byte)
    requires b in {0xE2, 0xE3, 0xE4, 0xE5, 0xE6, 0xE7}
    ensures [0xFF, b] in SegmentTags && CodeOf(SegmentTags[[0xFF, b]]) == [0xFF, b]
  {
  }

  lemma CodeRows5(b: byte)
    requires b in {0xE8, 0xE9, 0xEA, 0xEB, 0xEC, 0xED}
    ensures [0xFF, b] in SegmentTags && CodeOf(SegmentTags[[0xFF, b]]) == [0xFF, b]
  {
  }

  lemma CodeRows6(b: byte)
    requires b in {0xEE, 0xEF, 0xFE}
    ensures [0xFF, b] in SegmentTags && CodeOf(SegmentTags[[0xFF, b]]) == [0xFF, b]
  {
  }

  /** NameAt is the lookup of the first two bytes in SegmentTags. */
  lemma NameAtIsLookup(s: seq<byte>)
    requires KnownAt(s, 0)
    ensures s[..2] in SegmentTags && SegmentTags[s[..2]] == NameAt(s)
  {
    KnownAtIsLookup(s, 0);
    CodeOfLookup();
    NameOfCode(s, SegmentTags[s[..2]]);
  }

  lemma NameOfCode(s: seq<byte>, n: Name)
    requires KnownAt(s, 0) && CodeOf(n) == s[..2]
    ensures NameAt(s) == n
  {
    NameAtCodeOf(n);
    assert CodeOf(n)[1] == s[1];
  }

  /** The table lookup undoes CodeOf: every name has exactly one code. */
  lemma LookupCodeOf(n: Name)
    ensures CodeOf(n) in SegmentTags && SegmentTags[CodeOf(n)] == n
  {
    NameAtCodeOf(n);
    NameAtIsLookup(CodeOf(n));
    assert CodeOf(n)[..2] == CodeOf(n);
  }

  /** Different names have different codes. */
  lemma CodeOfInjective(m: Name, n: Name)
    requires CodeOf(m) == CodeOf(n)
    ensures m == n
  {
    NameAtCodeOf(m);
    NameAtCodeOf(n);
  }

  /** No two codes share a name. */
  lemma NamesDistinct(k1: seq<byte>, k2: seq<byte>)
    requires k1 in SegmentTags && k2 in SegmentTags
    requires SegmentTags[k1] == SegmentTags[k2]
    ensures k1 == k2
  {
    CodeOfLookup();
  }

  function Prefixed(s: set<byte>): set<seq<byte>> {
    set b | b in s :: [0xFF, b]
  }

  lemma {:induction false} PrefixedCard(s: set<byte>)
    ensures |Prefixed(s)| == |s|
  {
    if s != {} {
      var x :| x in s;
      var t := s - {x};
      PrefixedCard(t);
      assert Prefixed(s) == Prefixed(t) + {[0xFF, x]};
      assert [0xFF, x] !in Prefixed(t);
    }
  }

  lemma {:induction false} AscendingBelowLast(s: seq<byte>, j: nat)
    requires forall i | 0 < i < |s| :: s[i - 1] < s[i]
    requires j < |s| - 1
    ensures s[j] < s[|s| - 1]
    decreases |s| - j
  {
    if j < |s| - 2 {
      AscendingBelowLast(s, j + 1);
    }
  }

  lemma {:induction false} AscendingCard(s: seq<byte>)
    requires forall i | 0 < i < |s| :: s[i - 1] < s[i]
    ensures |set b | b in s| == |s|
  {
    if s != [] {
      var t := s[..|s| - 1];
      AscendingCard(t);
      forall j | 0 <= j < |t|
        ensures t[j] != s[|s| - 1]
      {
        AscendingBelowLast(s, j);
      }
      assert (set b | b in s) == (set b | b in t) + {s[|s| - 1]};
    }
  }

  lemma KeysAreSecondBytes()
    ensures SegmentTags.Keys == Prefixed(SecondBytes)
  {
  }

  /** KnownAt is membership of the two bytes at i in the code table. */
  lemma KnownAtIsLookup(s: seq<byte>, i: nat)
    ensures KnownAt(s, i) <==> i + 2 <= |s| && s[i..i + 2] in SegmentTags
  {
    KeysAreSecondBytes();
    if i + 2 <= |s| {
      assert s[i..i + 2] == [s[i], s[i + 1]];
    }
  }

  lemma SecondBytesListed()
    ensures SecondBytes == set b | b in SecondBytesAscending
  {
  }

  lemma SecondBytesAreAscending()
    ensures |SecondBytesAscending| == 33
    ensures forall i | 0 < i < |SecondBytesAscending| ::
      SecondBytesAscending[i - 1] < SecondBytesAscending[i]
  {
  }

  /** The table holds 33 distinct codes. */
  lemma CodeCount()
    ensures |SegmentTags| == 33
  {
    KeysAreSecondBytes();
    SecondBytesListed();
    SecondBytesAreAscending();
    PrefixedCard(SecondBytes);
    AscendingCard(SecondBytesAscending);
  }

  /** Every name reached through the code table has a "sized" entry. */
  lemma TagNamesSized()
    ensures forall k | k in SegmentTags :: SegmentTags[k] in SegmentSized
  {
  }

  /** A name has a "sized" entry, and it is unsized exactly when it is SOI,
      EOI or one of RST0 to RST7. */
  lemma SizedExactly(n: Name)
    ensures n in SegmentSized
    ensures SegmentSized[n] <==> !IsStandalone(n)
  {
    if n.SOI? || n.SOF0? || n.SOF2? || n.DHT? || n.DQT? || n.DRI? || n.SOS? || n.RST0? {
      SizedRowsFirst(n);
    } else if n.RST1? || n.RST2? || n.RST3? || n.RST4? || n.RST5? || n.RST6? || n.RST7? || n.APP0? {
      SizedRowsSecond(n);
    } else if n.APP1? || n.APP2? || n.APP3? || n.APP4? || n.APP5? || n.APP6? || n.APP7? || n.APP8? {
      SizedRowsThird(n);
    } else {
      SizedRowsFourth(n);
    }
  }

  /* The "sized" rows, a quarter at a time. */
  lemma SizedRowsFirst(n: Name)
    requires n.SOI? || n.SOF0? || n.SOF2? || n.DHT? || n.DQT? || n.DRI? || n.SOS? || n.RST0?
    ensures n in SegmentSized && (SegmentSized[n] <==> !IsStandalone(n))
  {
  }

  lemma SizedRowsSecond(n: Name)
    requires n.RST1? || n.RST2? || n.RST3? || n.RST4? || n.RST5? || n.RST6? || n.RST7? || n.APP0?
    ensures n in SegmentSized && (SegmentSized[n] <==> !IsStandalone(n))
  {
  }

  lemma SizedRowsThird(n: Name)
    requires n.APP1? || n.APP2? || n.APP3? || n.APP4? || n.APP5? || n.APP6? || n.APP7? || n.APP8?
    ensures n in SegmentSized && (SegmentSized[n] <==> !IsStandalone(n))
  {
  }

  lemma SizedRowsFourth(n: Name)
    requires n.APP9? || n.APPa? || n.APPb? || n.APPc? || n.APPd? || n.APPe? || n.APPf? || n.COM? || n.EOI?
    ensures n in SegmentSized && (SegmentSized[n] <==> !IsStandalone(n))
  {
  }
}
