/**
 The bytes of an event and of a .ksr recording. The event struct has four bytes of
 padding after `classification` and four after `flags`; a memory copy leaves them with
 whatever they held, so they are explicit arguments here. The ring-buffer record has
 the same layout.
 */
module KsrFormat {
  import opened Words
  import opened Events

  const EVENT_SIZE: nat := 88
  const HEADER_SIZE: nat := 64
  const RECORD_SIZE: nat := 92
  const MAX_RECORD: nat := 65536
  const KSR_VERSION: u32 := 1

  /** "KSCOPE", 1, 0 */
  function Magic(): seq<u8> {
    [75, 83, 67, 79, 80, 69, 1, 0]
  }

  type Pad = s: seq<u8> | |s| == 4 witness [0, 0, 0, 0]

  function Identity(e: Event): (r: seq<u8>)
    ensures |r| == 32
  {
    LittleEndian(e.timestampNs, 8) + LittleEndian(e.pid, 4) + LittleEndian(e.tid, 4) + e.comm
  }

  function Labels(e: Event, pad: Pad): (r: seq<u8>)
    ensures |r| == 16
  {
    LittleEndian(e.cpu, 4) + LittleEndian(e.kind, 4) + LittleEndian(e.classification, 4) + pad
  }

  function Measures(e: Event, pad: Pad): (r: seq<u8>)
    ensures |r| == 40
  {
    LittleEndian(e.durationNs, 8) + LittleEndian(e.syscallId, 8) + LittleEndian(AsU64(e.userStackId), 8)
    + LittleEndian(AsU64(e.kernStackId), 8) + LittleEndian(e.flags, 4) + pad
  }

  function EncodeEvent(e: Event, pad: Pad, tailPad: Pad): (r: seq<u8>)
    ensures |r| == EVENT_SIZE
  {
    Identity(e) + Labels(e, pad) + Measures(e, tailPad)
  }

  function DecodeFields(d: seq<u8>): Event
    requires |d| >= EVENT_SIZE
  {
    Event(ReadU64(d[0..8]), ReadU32(d[8..12]), ReadU32(d[12..16]), d[16..32], ReadU32(d[32..36]), ReadU32(d[36..40]),
          ReadU32(d[40..44]), ReadU64(d[48..56]), ReadU64(d[56..64]), AsI64(ReadU64(d[64..72])),
          AsI64(ReadU64(d[72..80])), ReadU32(d[80..84]))
  }

  /** Too few bytes are refused; bytes past the struct are ignored. */
  function DecodeEvent(d: seq<u8>): Option<Event> {
    if |d| < EVENT_SIZE then None else Some(DecodeFields(d))
  }

  lemma SubSlice<T>(d: seq<T>, lo: nat, hi: nat, a: nat, b: nat)
    requires lo <= hi <= |d| && a <= b <= hi - lo
    ensures d[lo..hi][a..b] == d[lo + a..lo + b]
  {
    forall i | 0 <= i < b - a
      ensures d[lo..hi][a..b][i] == d[lo + a..lo + b][i]
    {
      assert d[lo..hi][a + i] == d[lo + a + i];
    }
  }

  /** The pieces of a concatenation. */
  lemma SixParts<T>(a: seq<T>, b: seq<T>, c: seq<T>, d: seq<T>, e: seq<T>, f: seq<T>, s: seq<T>)
    requires s == a + b + c + d + e + f
    ensures var i, j := |a|, |a| + |b|;
            var k := j + |c|;
            var l := k + |d|;
            var m := l + |e|;
            s[..i] == a && s[i..j] == b && s[j..k] == c && s[k..l] == d && s[l..m] == e && s[m..] == f
  {
  }

  lemma IdentitySlices(e: Event, d: seq<u8>)
    requires |d| >= 32 && d[0..32] == Identity(e)
    ensures d[0..8] == LittleEndian(e.timestampNs, 8) && d[8..12] == LittleEndian(e.pid, 4)
    ensures d[12..16] == LittleEndian(e.tid, 4) && d[16..32] == e.comm
  {
    SubSlice(d, 0, 32, 0, 8);
    SubSlice(d, 0, 32, 8, 12);
    SubSlice(d, 0, 32, 12, 16);
    SubSlice(d, 0, 32, 16, 32);
    IdentityParts(e);
  }

  lemma IdentityParts(e: Event)
    ensures var h := Identity(e);
            && h[0..8] == LittleEndian(e.timestampNs, 8) && h[8..12] == LittleEndian(e.pid, 4)
            && h[12..16] == LittleEndian(e.tid, 4) && h[16..32] == e.comm
  {
  }

  lemma LabelSlices(e: Event, pad: Pad, d: seq<u8>)
    requires |d| >= 48 && d[32..48] == Labels(e, pad)
    ensures d[32..36] == LittleEndian(e.cpu, 4) && d[36..40] == LittleEndian(e.kind, 4)
    ensures d[40..44] == LittleEndian(e.classification, 4)
  {
    SubSlice(d, 32, 48, 0, 4);
    SubSlice(d, 32, 48, 4, 8);
    SubSlice(d, 32, 48, 8, 12);
    LabelParts(e, pad);
  }

  lemma LabelParts(e: Event, pad: Pad)
    ensures var l := Labels(e, pad);
            && l[0..4] == LittleEndian(e.cpu, 4) && l[4..8] == LittleEndian(e.kind, 4)
            && l[8..12] == LittleEndian(e.classification, 4) && l[12..16] == pad
  {
  }

  lemma MeasureSlices(e: Event, pad: Pad, d: seq<u8>)
    requires |d| >= EVENT_SIZE && d[48..88] == Measures(e, pad)
    ensures d[48..56] == LittleEndian(e.durationNs, 8) && d[56..64] == LittleEndian(e.syscallId, 8)
    ensures d[64..72] == LittleEndian(AsU64(e.userStackId), 8) && d[72..80] == LittleEndian(AsU64(e.kernStackId), 8)
    ensures d[80..84] == LittleEndian(e.flags, 4)
  {
    SubSlice(d, 48, 88, 0, 8);
    SubSlice(d, 48, 88, 8, 16);
    SubSlice(d, 48, 88, 16, 24);
    SubSlice(d, 48, 88, 24, 32);
    SubSlice(d, 48, 88, 32, 36);
    MeasureParts(e, pad);
  }

  lemma MeasureParts(e: Event, pad: Pad)
    ensures var m := Measures(e, pad);
            && m[0..8] == LittleEndian(e.durationNs, 8) && m[8..16] == LittleEndian(e.syscallId, 8)
            && m[16..24] == LittleEndian(AsU64(e.userStackId), 8) && m[24..32] == LittleEndian(AsU64(e.kernStackId), 8)
            && m[32..36] == LittleEndian(e.flags, 4) && m[36..40] == pad
  {
    SixParts(LittleEndian(e.durationNs, 8), LittleEndian(e.syscallId, 8), LittleEndian(AsU64(e.userStackId), 8),
             LittleEndian(AsU64(e.kernStackId), 8), LittleEndian(e.flags, 4), pad, Measures(e, pad));
  }

  /** Where each field of an event is in its 88 bytes. */
  lemma EventLayout(e: Event, pad: Pad, tailPad: Pad, d: seq<u8>)
    requires d == EncodeEvent(e, pad, tailPad)
    ensures |d| == 88
    ensures ReadU64(d[0..8]) == e.timestampNs && ReadU32(d[8..12]) == e.pid && ReadU32(d[12..16]) == e.tid
    ensures d[16..32] == e.comm
    ensures ReadU32(d[32..36]) == e.cpu && ReadU32(d[36..40]) == e.kind && ReadU32(d[40..44]) == e.classification
    ensures ReadU64(d[48..56]) == e.durationNs && ReadU64(d[56..64]) == e.syscallId
    ensures AsI64(ReadU64(d[64..72])) == e.userStackId && AsI64(ReadU64(d[72..80])) == e.kernStackId
    ensures ReadU32(d[80..84]) == e.flags
    ensures d[44..48] == pad && d[84..88] == tailPad
  {
    assert d[0..32] == Identity(e) && d[32..48] == Labels(e, pad) && d[48..88] == Measures(e, tailPad);
    IdentitySlices(e, d);
    LabelSlices(e, pad, d);
    MeasureSlices(e, tailPad, d);
    SubSlice(d, 32, 48, 12, 16);
    SubSlice(d, 48, 88, 36, 40);
    LabelParts(e, pad);
    MeasureParts(e, tailPad);
    WordRoundTrips(e.pid, e.timestampNs, e.userStackId);
    WordRoundTrips(e.tid, e.durationNs, e.kernStackId);
    WordRoundTrips(e.cpu, e.syscallId, 0);
    WordRoundTrips(e.kind, 0, 0);
    WordRoundTrips(e.classification, 0, 0);
    WordRoundTrips(e.flags, 0, 0);
  }

  /** Reading back what was written gives the event, whatever the padding and whatever follows. */
  lemma EventRoundTrip(e: Event, pad: Pad, tailPad: Pad, rest: seq<u8>)
    ensures DecodeEvent(EncodeEvent(e, pad, tailPad) + rest) == Some(e)
  {
    var d := EncodeEvent(e, pad, tailPad) + rest;
    assert d[0..32] == Identity(e) && d[32..48] == Labels(e, pad) && d[48..88] == Measures(e, tailPad);
    IdentitySlices(e, d);
    LabelSlices(e, pad, d);
    MeasureSlices(e, tailPad, d);
    WordRoundTrips(e.pid, e.timestampNs, e.userStackId);
    WordRoundTrips(e.tid, e.durationNs, e.kernStackId);
    WordRoundTrips(e.cpu, e.syscallId, 0);
    WordRoundTrips(e.kind, 0, 0);
    WordRoundTrips(e.classification, 0, 0);
    WordRoundTrips(e.flags, 0, 0);
  }

  lemma LittleEndianCons(b: u8, n: nat, width: nat)
    ensures LittleEndian(b + 256 * n, width + 1) == [b] + LittleEndian(n, width)
  {
    assert (b + 256 * n) % 256 == b && (b + 256 * n) / 256 == n;
  }

  lemma {:induction false} ReadWriteBytes(bytes: seq<u8>)
    ensures LittleEndian(FromLittleEndian(bytes), |bytes|) == bytes
  {
    if bytes != [] {
      ReadWriteBytes(bytes[1..]);
      LittleEndianCons(bytes[0], FromLittleEndian(bytes[1..]), |bytes| - 1);
      assert bytes == [bytes[0]] + bytes[1..];
    }
  }

  lemma SignRoundTrip(x: u64)
    ensures AsU64(AsI64(x)) == x
  {
  }

  lemma Join<T>(d: seq<T>, a: nat, b: nat, c: nat)
    requires a <= b <= c <= |d|
    ensures d[a..b] + d[b..c] == d[a..c]
  {
  }

  lemma IdentityReads(d: seq<u8>)
    requires |d| == EVENT_SIZE
    ensures Identity(DecodeFields(d)) == d[0..32]
  {
    ReadWriteBytes(d[0..8]);
    ReadWriteBytes(d[8..12]);
    ReadWriteBytes(d[12..16]);
    Join(d, 0, 8, 12);
    Join(d, 0, 12, 16);
    Join(d, 0, 16, 32);
  }

  lemma LabelsRead(d: seq<u8>)
    requires |d| == EVENT_SIZE
    ensures Labels(DecodeFields(d), d[44..48]) == d[32..48]
  {
    ReadWriteBytes(d[32..36]);
    ReadWriteBytes(d[36..40]);
    ReadWriteBytes(d[40..44]);
    Join(d, 32, 36, 40);
    Join(d, 32, 40, 44);
    Join(d, 32, 44, 48);
  }

  lemma MeasuresRead(d: seq<u8>)
    requires |d| == EVENT_SIZE
    ensures Measures(DecodeFields(d), d[84..88]) == d[48..88]
  {
    ReadWriteBytes(d[48..56]);
    ReadWriteBytes(d[56..64]);
    ReadWriteBytes(d[64..72]);
    ReadWriteBytes(d[72..80]);
    ReadWriteBytes(d[80..84]);
    SignRoundTrip(ReadU64(d[64..72]));
    SignRoundTrip(ReadU64(d[72..80]));
    Join(d, 48, 56, 64);
    Join(d, 48, 64, 72);
    Join(d, 48, 72, 80);
    Join(d, 48, 80, 84);
    Join(d, 48, 84, 88);
  }

  /** Conversely, writing what was read gives the same bytes, given the same padding. */
  lemma BytesRoundTrip(d: seq<u8>)
    requires |d| == EVENT_SIZE
    ensures EncodeEvent(DecodeFields(d), d[44..48], d[84..88]) == d
  {
    IdentityReads(d);
    LabelsRead(d);
    MeasuresRead(d);
    Join(d, 0, 32, 48);
    Join(d, 0, 48, 88);
  }

  // ---------------------------------------------------------------- header

  function Header(timebaseNs: u64, startNs: u64): (r: seq<u8>)
    ensures |r| == HEADER_SIZE
  {
    Magic() + LittleEndian(KSR_VERSION, 4) + LittleEndian(0, 4) + LittleEndian(timebaseNs, 8) + LittleEndian(startNs, 8)
    + seq(32, i => 0)
  }

  predicate ValidHeader(h: seq<u8>)
    requires |h| == HEADER_SIZE
  {
    h[0..8] == Magic() && ReadU32(h[8..12]) <= KSR_VERSION
  }

  lemma HeaderIsValid(timebaseNs: u64, startNs: u64)
    ensures ValidHeader(Header(timebaseNs, startNs))
  {
    var h := Header(timebaseNs, startNs);
    assert h[0..8] == Magic();
    assert h[8..12] == LittleEndian(KSR_VERSION, 4);
    WordRoundTrips(KSR_VERSION, 0, 0);
  }

  /** The bytes of a header that the recorder makes. */
  lemma HeaderLayout(timebaseNs: u64, startNs: u64, h: seq<u8>)
    requires h == Header(timebaseNs, startNs)
    ensures |h| == 64
    ensures h[0..8] == [75, 83, 67, 79, 80, 69, 1, 0]
    ensures ReadU32(h[8..12]) == 1 && ReadU32(h[12..16]) == 0
    ensures ReadU64(h[16..24]) == timebaseNs && ReadU64(h[24..32]) == startNs
    ensures forall i :: 32 <= i < 64 ==> h[i] == 0
  {
    HeaderParts(timebaseNs, startNs, h);
    WordRoundTrips(KSR_VERSION, timebaseNs, 0);
    WordRoundTrips(0, startNs, 0);
  }

  lemma HeaderParts(timebaseNs: u64, startNs: u64, h: seq<u8>)
    requires h == Header(timebaseNs, startNs)
    ensures h[0..8] == Magic() && h[8..12] == LittleEndian(KSR_VERSION, 4) && h[12..16] == LittleEndian(0, 4)
    ensures h[16..24] == LittleEndian(timebaseNs, 8) && h[24..32] == LittleEndian(startNs, 8)
  {
    SixParts(Magic(), LittleEndian(KSR_VERSION, 4), LittleEndian(0, 4), LittleEndian(timebaseNs, 8),
             LittleEndian(startNs, 8), seq(32, i => 0), h);
  }

  /** A header is accepted exactly with that magic and a version up to the current one. */
  lemma ValidHeaderMeaning(h: seq<u8>)
    requires |h| == HEADER_SIZE
    ensures ValidHeader(h) <==> h[0..8] == [75, 83, 67, 79, 80, 69, 1, 0] && ReadU32(h[8..12]) <= 1
  {
  }
}
