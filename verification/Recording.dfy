/** Recording events to a .ksr file and replaying them. Files are byte sequences. */
module Recording {
  import opened Words
  import opened Events
  import opened KsrFormat

  /** A recorded event with the padding bytes that its struct happened to hold. */
  datatype Record = Record(event: Event, pad: Pad, tailPad: Pad)

  function RecordBytes(r: Record): (b: seq<u8>)
    ensures |b| == RECORD_SIZE
  {
    LittleEndian(EVENT_SIZE, 4) + EncodeEvent(r.event, r.pad, r.tailPad)
  }

  function Body(records: seq<Record>): (b: seq<u8>)
    ensures |b| == RECORD_SIZE * |records|
  {
    if records == [] then [] else RecordBytes(records[0]) + Body(records[1..])
  }

  function EventsOf(records: seq<Record>): (es: seq<Event>)
    ensures |es| == |records| && forall i :: 0 <= i < |es| ==> es[i] == records[i].event
  {
    seq(|records|, i requires 0 <= i < |records| => records[i].event)
  }

  datatype Outcome = Outcome(events: seq<Event>, ok: bool)

  /** What the replay loop delivers from `data`, and whether it ends without an error. */
  function Replayed(data: seq<u8>): Outcome
    decreases |data|
  {
    if |data| < 4 then Outcome([], true)
    else
      var size := ReadU32(data[..4]);
      if size > MAX_RECORD then Outcome([], false)
      else if |data| - 4 < size then Outcome([], true)
      else
        var rest := Replayed(data[4 + size..]);
        var e := DecodeEvent(data[4..4 + size]);
        if e.Some? then rest.(events := [e.value] + rest.events) else rest
  }

  /** The length prefix of every record. */
  lemma PrefixBytes()
    ensures LittleEndian(88, 4) == [88, 0, 0, 0]
  {
    assert LittleEndian(0, 3) == [0] + LittleEndian(0, 2);
    assert LittleEndian(0, 2) == [0] + LittleEndian(0, 1);
  }

  /**
   The record format, with its numbers: a length that is cut short or asks for more than
   there is ends the replay, one over 65536 fails it, a record under 88 bytes is skipped and
   any other gives one event.
   */
  lemma ReplayedMeaning(data: seq<u8>, size: nat)
    requires |data| >= 4 ==> size == ReadU32(data[..4])
    ensures |data| < 4 ==> Replayed(data) == Outcome([], true)
    ensures |data| >= 4 && size > 65536 ==> Replayed(data) == Outcome([], false)
    ensures |data| >= 4 && |data| - 4 < size <= 65536 ==> Replayed(data) == Outcome([], true)
    ensures |data| >= 4 + size && size < 88 ==> Replayed(data) == Replayed(data[4 + size..])
    ensures |data| >= 4 + size && 88 <= size <= 65536 ==>
              var rest := Replayed(data[4 + size..]);
              Replayed(data) == Outcome([DecodeFields(data[4..92])] + rest.events, rest.ok)
  {
    if |data| >= 4 + size && 88 <= size <= 65536 {
      assert |data[4..4 + size]| >= 88;
      assert data[4..4 + size][..88] == data[4..92];
      DecodedPrefix(data[4..4 + size]);
    }
  }

  lemma DecodedPrefix(d: seq<u8>)
    requires |d| >= 88
    ensures DecodeFields(d) == DecodeFields(d[..88])
  {
    SubSlice(d, 0, 88, 0, 8);
    SubSlice(d, 0, 88, 8, 12);
    SubSlice(d, 0, 88, 12, 16);
    SubSlice(d, 0, 88, 16, 32);
    SubSlice(d, 0, 88, 32, 36);
    SubSlice(d, 0, 88, 36, 40);
    SubSlice(d, 0, 88, 40, 44);
    SubSlice(d, 0, 88, 48, 56);
    SubSlice(d, 0, 88, 56, 64);
    SubSlice(d, 0, 88, 64, 72);
    SubSlice(d, 0, 88, 72, 80);
    SubSlice(d, 0, 88, 80, 84);
  }

  /** One turn of the replay loop on a record that is there in full. */
  lemma ReplayedNext(data: seq<u8>, size: nat, buf: seq<u8>, rest: seq<u8>)
    requires |data| == 4 + size + |rest| && size == ReadU32(data[..4]) <= MAX_RECORD
    requires buf == data[4..4 + size] && rest == data[4 + size..]
    ensures var after, e := Replayed(rest), DecodeEvent(buf);
            Replayed(data) == if e.Some? then after.(events := [e.value] + after.events) else after
  {
  }

  /** The outcome of the whole loop when `delivered` came first and `data` is left. */
  ghost function ReplayedAfter(delivered: seq<Event>, data: seq<u8>): Outcome {
    Outcome(delivered + Replayed(data).events, Replayed(data).ok)
  }

  lemma ReplayedTurn(delivered: seq<Event>, file: seq<u8>, pos: nat, size: nat, buf: seq<u8>)
    requires pos + 4 + size <= |file| && size == ReadU32(file[pos..pos + 4]) <= MAX_RECORD
    requires buf == file[pos + 4..pos + 4 + size]
    ensures var e := DecodeEvent(buf);
            ReplayedAfter(delivered, file[pos..]) ==
            ReplayedAfter(if e.Some? then delivered + [e.value] else delivered, file[pos + 4 + size..])
  {
    var data := file[pos..];
    assert data[..4] == file[pos..pos + 4] && data[4..4 + size] == buf;
    assert data[4 + size..] == file[pos + 4 + size..];
    ReplayedNext(data, size, buf, file[pos + 4 + size..]);
  }

  /** The loop stops where a length or a record is cut short, and fails on a length over the limit. */
  lemma ReplayedStops(delivered: seq<Event>, file: seq<u8>, pos: nat)
    requires pos <= |file|
    ensures |file| - pos < 4 ==> ReplayedAfter(delivered, file[pos..]) == Outcome(delivered, true)
    ensures |file| - pos >= 4 && ReadU32(file[pos..pos + 4]) > MAX_RECORD ==>
              ReplayedAfter(delivered, file[pos..]) == Outcome(delivered, false)
    ensures |file| - pos >= 4 && |file| - pos - 4 < ReadU32(file[pos..pos + 4]) <= MAX_RECORD ==>
              ReplayedAfter(delivered, file[pos..]) == Outcome(delivered, true)
  {
    if |file| - pos >= 4 {
      assert file[pos..][..4] == file[pos..pos + 4];
    }
  }

  lemma ReplayedRecord(r: Record, rest: seq<u8>)
    ensures var after := Replayed(rest);
            Replayed(RecordBytes(r) + rest) == after.(events := [r.event] + after.events)
  {
    var data := RecordBytes(r) + rest;
    assert data[..4] == LittleEndian(EVENT_SIZE, 4);
    WordRoundTrips(EVENT_SIZE, 0, 0);
    assert data[4..92] == EncodeEvent(r.event, r.pad, r.tailPad) + [];
    EventRoundTrip(r.event, r.pad, r.tailPad, []);
    assert data[92..] == rest;
  }

  lemma {:induction false} RecordedOutcome(records: seq<Record>, data: seq<u8>, outcome: Outcome)
    requires data == Body(records) && outcome == Replayed(data)
    ensures outcome == Outcome(EventsOf(records), true)
    decreases |records|
  {
    if records == [] {
      assert data == [];
    } else {
      var rest := Body(records[1..]);
      var after := Replayed(rest);
      RecordedOutcome(records[1..], rest, after);
      ReplayedRecord(records[0], rest);
      assert outcome.events == [records[0].event] + after.events;
      assert EventsOf(records) == [records[0].event] + EventsOf(records[1..]);
    }
  }

  /** Replaying a whole recording delivers exactly the recorded events. */
  lemma ReplayRecorded(records: seq<Record>)
    ensures Replayed(Body(records)) == Outcome(EventsOf(records), true)
  {
    RecordedOutcome(records, Body(records), Replayed(Body(records)));
  }

  /** A piece of a recording shorter than one record delivers nothing, without an error. */
  lemma ReplayPartRecord(r: Record, m: nat)
    requires m < RECORD_SIZE
    ensures Replayed(RecordBytes(r)[..m]) == Outcome([], true)
  {
    if m >= 4 {
      assert RecordBytes(r)[..m][..4] == LittleEndian(EVENT_SIZE, 4);
      WordRoundTrips(EVENT_SIZE, 0, 0);
    }
  }

  /** `k` whole records and `r` more bytes deliver the first `k` events. */
  lemma {:induction false} TruncatedOutcome(records: seq<Record>, k: nat, r: nat, data: seq<u8>, outcome: Outcome)
    requires r < RECORD_SIZE && RECORD_SIZE * k + r <= RECORD_SIZE * |records|
    requires data == Body(records)[..RECORD_SIZE * k + r] && outcome == Replayed(data)
    ensures k <= |records| && outcome == Outcome(EventsOf(records[..k]), true)
    decreases k
  {
    if k == 0 {
      if records != [] {
        assert data == RecordBytes(records[0])[..r];
        ReplayPartRecord(records[0], r);
      }
    } else {
      var rest := Body(records[1..])[..RECORD_SIZE * (k - 1) + r];
      var after := Replayed(rest);
      TruncatedOutcome(records[1..], k - 1, r, rest, after);
      assert data == RecordBytes(records[0]) + rest;
      ReplayedRecord(records[0], rest);
      FirstEvent(records, k);
    }
  }

  lemma FirstEvent(records: seq<Record>, k: nat)
    requires 0 < k <= |records|
    ensures EventsOf(records[..k]) == [records[0].event] + EventsOf(records[1..][..k - 1])
  {
  }

  /** A recording cut after `m` bytes of its body delivers the whole records that remain. */
  lemma ReplayTruncated(records: seq<Record>, m: nat)
    requires m <= RECORD_SIZE * |records|
    ensures m / RECORD_SIZE <= |records|
    ensures Replayed(Body(records)[..m]) == Outcome(EventsOf(records[..m / RECORD_SIZE]), true)
  {
    var k, r := m / RECORD_SIZE, m % RECORD_SIZE;
    assert m == RECORD_SIZE * k + r;
    TruncatedOutcome(records, k, r, Body(records)[..m], Replayed(Body(records)[..m]));
  }

  lemma {:induction false} OutcomePrefix(data: seq<u8>, all: seq<u8>, part: Outcome, whole: Outcome)
    requires data <= all && part == Replayed(data) && whole == Replayed(all)
    ensures part.events <= whole.events
    decreases |data|
  {
    if |data| >= 4 {
      assert all[..4] == data[..4];
      var size := ReadU32(data[..4]);
      if size <= MAX_RECORD && |data| - 4 >= size {
        var buf, rest, restAll := data[4..4 + size], data[4 + size..], all[4 + size..];
        assert all[4..4 + size] == buf && rest <= restAll;
        OutcomePrefix(rest, restAll, Replayed(rest), Replayed(restAll));
        ReplayPrefixTurn(data, all, size, buf, rest, restAll);
      }
    }
  }

  /**
   For any bytes at all, what is delivered is a prefix of what any extension delivers:
   undersized, oversized and refused records included.
   */
  lemma ReplayPrefix(data: seq<u8>, more: seq<u8>)
    ensures Replayed(data).events <= Replayed(data + more).events
  {
    OutcomePrefix(data, data + more, Replayed(data), Replayed(data + more));
  }

  lemma ReplayPrefixTurn(data: seq<u8>, all: seq<u8>, size: nat, buf: seq<u8>, rest: seq<u8>, restAll: seq<u8>)
    requires |data| == 4 + size + |rest| && |all| == 4 + size + |restAll|
    requires size == ReadU32(data[..4]) == ReadU32(all[..4]) <= MAX_RECORD
    requires buf == data[4..4 + size] == all[4..4 + size] && rest == data[4 + size..] && restAll == all[4 + size..]
    requires Replayed(rest).events <= Replayed(restAll).events
    ensures Replayed(data).events <= Replayed(all).events
  {
    ReplayedNext(data, size, buf, rest);
    ReplayedNext(all, size, buf, restAll);
  }

  // ---------------------------------------------------------------- the recorder

  datatype Status = Ok | IoError | FormatError | Internal

  class Recorder {
    var isOpen: bool
    var file: seq<u8>
    var eventsWritten: u64
    ghost var header: seq<u8>
    ghost var records: seq<Record>  // written since the file was opened
    ghost var earlier: nat          // written to files opened before

    ghost predicate Valid()
      reads this
    {
      && |header| == HEADER_SIZE && (isOpen ==> ValidHeader(header))
      && (isOpen ==> file == header + Body(records))
      && eventsWritten == Wrap(earlier + |records|, W64)
    }

    constructor ()
      ensures Valid() && !isOpen && records == [] && eventsWritten == 0 && earlier == 0
    {
      isOpen, file, eventsWritten := false, [], 0;
      header, records, earlier := Header(0, 0), [], 0;
    }

    /** Opening truncates the file and writes a header; the event counter runs on. */
    method Open(timebaseNs: u64, startNs: u64) returns (status: Status)
      requires Valid()
      modifies this
      ensures Valid() && status == Ok && isOpen && records == [] && eventsWritten == old(eventsWritten)
      ensures earlier == old(earlier) + |old(records)| && file == Header(timebaseNs, startNs)
    {
      earlier, records := earlier + |records|, [];
      header := Header(timebaseNs, startNs);
      HeaderIsValid(timebaseNs, startNs);
      isOpen := true;
      file := Header(timebaseNs, startNs);
      status := Ok;
    }

    method WriteEvent(e: Event, pad: Pad, tailPad: Pad) returns (status: Status)
      requires Valid()
      modifies this
      ensures Valid() && isOpen == old(isOpen) && earlier == old(earlier)
      ensures status == if isOpen then Ok else Internal
      ensures records == old(records) + if isOpen then [Record(e, pad, tailPad)] else []
      ensures file == old(file) + if isOpen then [88, 0, 0, 0] + EncodeEvent(e, pad, tailPad) else []
    {
      if !isOpen {
        return Internal;
      }
      var data := EncodeEvent(e, pad, tailPad);
      var size := |data|;
      WrittenFile(header, records, Record(e, pad, tailPad), file, data);
      file := file + LittleEndian(size, 4);
      file := file + data;
      WrappedCounters(earlier + |records|, 1);
      records := records + [Record(e, pad, tailPad)];
      eventsWritten := Add64(eventsWritten, 1);
      status := Ok;
    }

    method Close()
      requires Valid()
      modifies this`isOpen
      ensures Valid() && !isOpen
    {
      isOpen := false;
    }
  }

  lemma WrittenFile(header: seq<u8>, records: seq<Record>, r: Record, file: seq<u8>, data: seq<u8>)
    requires file == header + Body(records) && data == EncodeEvent(r.event, r.pad, r.tailPad)
    ensures file + LittleEndian(88, 4) + data == header + Body(records + [r])
    ensures file + LittleEndian(88, 4) + data == file + ([88, 0, 0, 0] + data)
  {
    BodyAppend(records, r);
    PrefixBytes();
    assert RecordBytes(r) == LittleEndian(88, 4) + data;
    Associates(header, Body(records), LittleEndian(88, 4), data);
  }

  lemma Associates<T>(a: seq<T>, b: seq<T>, c: seq<T>, d: seq<T>)
    ensures a + b + c + d == a + (b + (c + d)) == a + b + (c + d)
  {
  }

  lemma {:induction false} BodyAppend(records: seq<Record>, r: Record)
    ensures Body(records + [r]) == Body(records) + RecordBytes(r)
  {
    if records != [] {
      BodyAppend(records[1..], r);
      assert (records + [r])[1..] == records[1..] + [r];
    } else {
      assert (records + [r])[1..] == [];
    }
  }

  // ---------------------------------------------------------------- the replayer

  class ReplaySource {
    var isOpen: bool
    var file: seq<u8>
    var pos: nat
    var eventsReplayed: u64

    ghost predicate Valid()
      reads this
    {
      isOpen ==> pos <= |file|
    }

    constructor ()
      ensures Valid() && !isOpen && eventsReplayed == 0
    {
      isOpen, file, pos, eventsReplayed := false, [], 0, 0;
    }

    /** Succeeds exactly on a file that starts with a valid header. The handle stays open even on failure. */
    method Open(contents: seq<u8>) returns (status: Status)
      modifies this
      ensures Valid() && isOpen && file == contents && eventsReplayed == old(eventsReplayed)
      ensures pos == if |contents| < HEADER_SIZE then |contents| else HEADER_SIZE
      ensures status == Ok <==> |contents| >= HEADER_SIZE && ValidHeader(contents[..HEADER_SIZE])
      ensures status == Ok <==>
              |contents| >= 64 && contents[0..8] == [75, 83, 67, 79, 80, 69, 1, 0] && ReadU32(contents[8..12]) <= 1
      ensures status == Ok || status == FormatError
    {
      isOpen, file := true, contents;
      if |contents| < HEADER_SIZE {
        pos := |contents|;
        return FormatError;
      }
      pos := HEADER_SIZE;
      ValidHeaderMeaning(contents[..HEADER_SIZE]);
      assert contents[..HEADER_SIZE][0..8] == contents[0..8] && contents[..HEADER_SIZE][8..12] == contents[8..12];
      if !ValidHeader(contents[..HEADER_SIZE]) {
        return FormatError;
      }
      return Ok;
    }

    /** Delivers events to the callback, here the list `delivered`. */
    method Replay() returns (status: Status, delivered: seq<Event>)
      requires Valid()
      modifies this`pos, this`eventsReplayed
      ensures Valid()
      ensures !isOpen ==> status == Internal && delivered == [] && pos == old(pos)
      ensures isOpen ==> Replayed(file[old(pos)..]) == Outcome(delivered, status == Ok)
      ensures status == Ok || status == FormatError || status == Internal
      ensures eventsReplayed == Wrap(old(eventsReplayed) + |delivered|, W64)
    {
      delivered := [];
      WrapOnce(eventsReplayed, W64);
      if !isOpen {
        return Internal, [];
      }
      ghost var goal := Replayed(file[pos..]);
      while true
        invariant pos <= |file| && goal == ReplayedAfter(delivered, file[pos..])
        invariant eventsReplayed == Wrap(old(eventsReplayed) + |delivered|, W64)
        decreases |file| - pos
      {
        var stop, e := ReadRecord(delivered);
        if stop.Some? {
          return stop.value, delivered;
        }
        if e.Some? {
          WrappedCounters(old(eventsReplayed) + |delivered|, 1);
          delivered := delivered + [e.value];
          eventsReplayed := Add64(eventsReplayed, 1);
        }
      }
    }

    /** One turn of the loop: stops with a status, or moves past a record and decodes it. */
    method ReadRecord(ghost delivered: seq<Event>) returns (stop: Option<Status>, e: Option<Event>)
      requires pos <= |file|
      modifies this`pos
      ensures pos <= |file|
      ensures stop.Some? ==> stop.value == Ok || stop.value == FormatError
      ensures stop.Some? ==> ReplayedAfter(delivered, file[old(pos)..]) == Outcome(delivered, stop.value == Ok)
      ensures stop.None? ==> old(pos) < pos
      ensures stop.None? ==> ReplayedAfter(delivered, file[old(pos)..]) ==
                             ReplayedAfter(if e.Some? then delivered + [e.value] else delivered, file[pos..])
    {
      ReplayedStops(delivered, file, pos);
      e := None;
      if |file| - pos < 4 {
        pos := |file|;
        return Some(Ok), e;
      }
      var size := ReadU32(file[pos..pos + 4]);
      if size > MAX_RECORD {
        pos := pos + 4;
        return Some(FormatError), e;
      }
      if |file| - pos - 4 < size {
        pos := |file|;
        return Some(Ok), e;
      }
      var buf := file[pos + 4..pos + 4 + size];
      ReplayedTurn(delivered, file, pos, size, buf);
      pos := pos + 4 + size;
      stop, e := None, DecodeEvent(buf);
    }

    method Close()
      modifies this`isOpen
      ensures !isOpen
    {
      isOpen := false;
    }
  }

  lemma TruncatedEvents(records: seq<Record>, m: nat, outcome: Outcome)
    requires m <= RECORD_SIZE * |records| && outcome == Replayed(Body(records)[..m])
    ensures m / RECORD_SIZE <= |records| && outcome == Outcome(EventsOf(records)[..m / RECORD_SIZE], true)
  {
    ReplayTruncated(records, m);
    EventsOfPrefix(records, m / RECORD_SIZE);
  }

  lemma HeaderDropped<T>(header: seq<T>, body: seq<T>, len: nat)
    requires |header| <= len <= |header| + |body|
    ensures (header + body)[..len][|header|..] == body[..len - |header|]
  {
  }

  lemma EventsOfPrefix(records: seq<Record>, k: nat)
    requires k <= |records|
    ensures EventsOf(records[..k]) == EventsOf(records)[..k]
  {
  }

  /** A recording cut at `len` bytes, opened and replayed. */
  method ReplayCut(header: seq<u8>, records: seq<Record>, len: nat) returns (openStatus: Status, status: Status, delivered: seq<Event>)
    requires |header| == HEADER_SIZE && ValidHeader(header)
    requires len <= HEADER_SIZE + RECORD_SIZE * |records|
    ensures openStatus == Ok <==> len >= HEADER_SIZE
    ensures len >= HEADER_SIZE ==>
              status == Ok && delivered == EventsOf(records)[..(len - HEADER_SIZE) / RECORD_SIZE]
  {
    var contents := (header + Body(records))[..len];
    var source := new ReplaySource();
    openStatus := source.Open(contents);
    if len >= HEADER_SIZE {
      assert contents[..HEADER_SIZE] == header;
      HeaderDropped(header, Body(records), len);
      TruncatedEvents(records, len - HEADER_SIZE, Replayed(contents[HEADER_SIZE..]));
    }
    status, delivered := source.Replay();
  }
}
