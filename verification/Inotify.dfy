/** The two inotify record decoders: parseEvents of the monitor and the inline loop of the job
    watcher. Both walk a buffer of which the last read filled the first n bytes. */
module Inotify {
  import opened Words

  const EVENT_SIZE := 16

  /** A record: its mask and its name field, zero padding included. */
  datatype Record = Record(mask: U32, field: seq<Byte>)

  datatype EventInfo = EventInfo(mask: U32, name: seq<Byte>)

  /** A slice expression out of range stops the program. */
  datatype Panic = SliceOutOfRange

  // ---- the common walk ----

  /** The records from offset off on. Slices are checked against the whole buffer, not against n. */
  function Walk(e: Endian, buf: seq<Byte>, n: nat, off: nat): Result<seq<Record>, Panic>
    requires n <= |buf|
    decreases if off < n then n - off else 0
  {
    if off + EVENT_SIZE > n then Ok([])
    else
      var len := LoadU32(e, buf, off + 12);
      var next := off + EVENT_SIZE + len;
      if next > |buf| then Err(SliceOutOfRange)
      else Prepend([Record(LoadU32(e, buf, off + 4), buf[off + EVENT_SIZE..next])], Walk(e, buf, n, next))
  }

  /** One record on the bytes: the mask is the second word, the length the fourth, the name field what
      follows the sixteenth byte; fewer than sixteen bytes end the walk, and a field that reaches past
      the buffer stops it. */
  lemma WalkByBytes(e: Endian, buf: seq<Byte>, n: nat, off: nat)
    requires n <= |buf|
    ensures off + 16 > n ==> Walk(e, buf, n, off) == Ok([])
    ensures off + 16 <= n ==>
              var mask, len := Get(e, buf[off + 4..off + 8]), Get(e, buf[off + 12..off + 16]);
              var next := off + 16 + len;
              mask < 0x1_0000_0000 &&
              Walk(e, buf, n, off)
              == if next > |buf| then Err(SliceOutOfRange)
                 else Prepend([Record(mask, buf[off + 16..next])], Walk(e, buf, n, next))
  {
    if off + 16 <= n {
      SpanValues();
      GetBound(e, buf[off + 4..off + 8]);
      assert Get(e, buf[off + 4..off + 8]) == LoadU32(e, buf, off + 4);
      assert Get(e, buf[off + 12..off + 16]) == LoadU32(e, buf, off + 12);
      hide Get;
    }
  }

  // ---- the monitor ----

  function FirstNul(b: seq<Byte>): (i: nat)
    ensures i <= |b| && (i < |b| ==> b[i] == 0)
    ensures forall j :: 0 <= j < i ==> b[j] != 0
  {
    if b == [] || b[0] == 0 then 0 else 1 + FirstNul(b[1..])
  }

  /** The name stays empty when no zero byte ends it. */
  function CutAtNul(field: seq<Byte>): seq<Byte> {
    if FirstNul(field) == |field| then [] else field[..FirstNul(field)]
  }

  /** The name ends at the first zero byte; without one there is no name. */
  lemma CutIs(field: seq<Byte>)
    ensures 0 !in field ==> CutAtNul(field) == []
    ensures 0 in field ==>
              var name := CutAtNul(field);
              |name| < |field| && name == field[..|name|] && 0 !in name && field[|name|] == 0
  {
    hide FirstNul;
    if 0 in field {
      var i :| 0 <= i < |field| && field[i] == 0;
      assert FirstNul(field) <= i;
    }
  }

  function EventsOf(records: seq<Record>): (r: seq<EventInfo>)
    ensures |r| == |records|
  {
    seq(|records|, i requires 0 <= i < |records| => EventInfo(records[i].mask, CutAtNul(records[i].field)))
  }

  function MonitorResult(walk: Result<seq<Record>, Panic>): Result<seq<EventInfo>, Panic> {
    match walk
    case Ok(records) => Ok(EventsOf(records))
    case Err(x) => Err(x)
  }

  lemma EventsOfCons(record: Record, rest: seq<Record>)
    ensures EventsOf([record] + rest) == [EventInfo(record.mask, CutAtNul(record.field))] + EventsOf(rest)
  {
    hide CutAtNul;
  }

  /** One turn of the loop of parseEvents. */
  lemma MonitorStep(e: Endian, buf: seq<Byte>, n: nat, off: nat, done: seq<EventInfo>)
    requires off + EVENT_SIZE <= n <= |buf|
    ensures var next := off + EVENT_SIZE + LoadU32(e, buf, off + 12);
            Prepend(done, MonitorResult(Walk(e, buf, n, off)))
            == if next > |buf| then Err(SliceOutOfRange)
               else var event := EventInfo(LoadU32(e, buf, off + 4), CutAtNul(buf[off + EVENT_SIZE..next]));
                    Prepend(done + [event], MonitorResult(Walk(e, buf, n, next)))
  {
    hide LoadU32, CutAtNul;
    var next := off + EVENT_SIZE + LoadU32(e, buf, off + 12);
    if next <= |buf| {
      var record, rest := Record(LoadU32(e, buf, off + 4), buf[off + EVENT_SIZE..next]), Walk(e, buf, n, next);
      if rest.Ok? {
        EventsOfCons(record, rest.value);
      }
      PrependTwice(done, [EventInfo(record.mask, CutAtNul(record.field))], MonitorResult(rest));
    }
  }

  lemma MonitorEnd(e: Endian, buf: seq<Byte>, n: nat, off: nat)
    requires n <= |buf| && off + EVENT_SIZE > n
    ensures MonitorResult(Walk(e, buf, n, off)) == Ok([])
  {}

  /** The uint32 slice bounds are in range exactly when the true ones are, and then they are exact. */
  lemma OffsetsExact(off: U32, len: U32, size: nat)
    requires off + EVENT_SIZE <= size < B32
    ensures var lo := WrapAdd(off, EVENT_SIZE);
            var hi := WrapAdd(lo, len);
            && lo == off + EVENT_SIZE
            && (lo <= hi <= size <==> off + EVENT_SIZE + len <= size)
            && (lo <= hi <= size ==> hi == off + EVENT_SIZE + len == WrapAdd(off, WrapAdd(EVENT_SIZE, len)))
  {}

  /** parseEvents, offsets in uint32; a wrapped slice bound panics like any other bad one. */
  method ParseEvents(e: Endian, buf: seq<Byte>, n: nat) returns (r: Result<seq<EventInfo>, Panic>)
    requires n <= |buf| < B32
    ensures r == MonitorResult(Walk(e, buf, n, 0))
  {
    hide LoadU32, CutAtNul, Walk, MonitorResult;
    var events: seq<EventInfo> := [];
    var offset: U32 := 0;
    NoFront(MonitorResult(Walk(e, buf, n, 0)));
    while offset < n % B32
      invariant offset <= |buf|
      invariant MonitorResult(Walk(e, buf, n, 0)) == Prepend(events, MonitorResult(Walk(e, buf, n, offset)))
      decreases if offset < n then n - offset else 0
    {
      if WrapSub(n % B32, offset) < EVENT_SIZE {
        break;
      }
      MonitorStep(e, buf, n, offset, events);
      var mask := LoadU32(e, buf, offset + 4);
      var len := LoadU32(e, buf, offset + 12);
      OffsetsExact(offset, len, |buf|);
      var lo := WrapAdd(offset, EVENT_SIZE);
      var hi := WrapAdd(lo, len);
      var name: seq<Byte> := [];
      if len > 0 {
        if !(lo <= hi <= |buf|) {
          return Err(SliceOutOfRange);
        }
        name := FindName(buf[lo..hi]);
      } else {
        EmptyField();
        assert buf[lo..hi] == [];
      }
      events := events + [EventInfo(mask, name)];
      offset := WrapAdd(offset, WrapAdd(EVENT_SIZE, len));
    }
    MonitorEnd(e, buf, n, offset);
    assert events + [] == events;
    return Ok(events);
  }

  lemma EmptyField()
    ensures CutAtNul([]) == []
  {}

  method FindName(nameBytes: seq<Byte>) returns (name: seq<Byte>)
    ensures name == CutAtNul(nameBytes)
    ensures 0 !in nameBytes ==> name == []
    ensures 0 in nameBytes ==>
              |name| < |nameBytes| && name == nameBytes[..|name|] && 0 !in name && nameBytes[|name|] == 0
  {
    CutIs(nameBytes);
    for i := 0 to |nameBytes|
      invariant forall j :: 0 <= j < i ==> nameBytes[j] != 0
    {
      if nameBytes[i] == 0 {
        assert FirstNul(nameBytes) == i;
        return nameBytes[..i];
      }
    }
    return [];
  }

  // ---- the job watcher ----

  const DOT: Byte := 46

  function StartsWithDot(name: seq<Byte>): bool { name != [] && name[0] == DOT }

  /** The job a record launches, if any. */
  function JobOf(field: seq<Byte>): Option<seq<Byte>> {
    if field == [] || StartsWithDot(TrimNuls(field)) then None else Some(TrimNuls(field))
  }

  /** A record launches the name without the zeros that end it, unless there is no name field or the
      name starts with a dot, byte 46. */
  lemma JobIs(field: seq<Byte>)
    ensures JobOf(field) == None <==> field == [] || field[0] == 46
    ensures JobOf(field).Some? ==>
              var name := JobOf(field).value;
              && |name| <= |field| && name == field[..|name|] && (name != [] ==> name[|name| - 1] != 0)
              && forall i :: |name| <= i < |field| ==> field[i] == 0
  {
    TrimNulsIs(field);
    hide TrimNuls;
    assert field != [] && field[0] != 0 ==> TrimNuls(field) != [] && TrimNuls(field)[0] == field[0];
  }

  function JobsOf(records: seq<Record>): seq<seq<Byte>> {
    if records == [] then []
    else (match JobOf(records[0].field)
          case None => []
          case Some(name) => [name]) + JobsOf(records[1..])
  }

  /** What the watcher has launched by the end of the buffer, or by the time it panics. */
  function Launched(e: Endian, buf: seq<Byte>, n: nat, off: nat): (seq<seq<Byte>>, bool)
    requires n <= |buf|
    decreases if off < n then n - off else 0
  {
    if off + EVENT_SIZE > n then ([], true)
    else
      var len := LoadU32(e, buf, off + 12);
      var next := off + EVENT_SIZE + len;
      if next > |buf| then ([], false)
      else
        var (more, ok) := Launched(e, buf, n, next);
        (JobsOf([Record(0, buf[off + EVENT_SIZE..next])]) + more, ok)
  }

  /** One turn of the loop of watchJobs. */
  lemma JobStep(e: Endian, buf: seq<Byte>, n: nat, off: nat, done: seq<seq<Byte>>)
    requires off + EVENT_SIZE <= n <= |buf|
    ensures var next := off + EVENT_SIZE + LoadU32(e, buf, off + 12);
            WithFront(done, Launched(e, buf, n, off))
            == if next > |buf| then (done, false)
               else WithFront(done + JobsOf([Record(0, buf[off + EVENT_SIZE..next])]), Launched(e, buf, n, next))
  {
    hide LoadU32, JobsOf;
    var next := off + EVENT_SIZE + LoadU32(e, buf, off + 12);
    if next <= |buf| {
      var jobs, more := JobsOf([Record(0, buf[off + EVENT_SIZE..next])]), Launched(e, buf, n, next).0;
      assert done + (jobs + more) == done + jobs + more;
    } else {
      assert done + [] == done;
    }
  }

  function WithFront(done: seq<seq<Byte>>, r: (seq<seq<Byte>>, bool)): (seq<seq<Byte>>, bool) {
    (done + r.0, r.1)
  }

  lemma JobEnd(e: Endian, buf: seq<Byte>, n: nat, off: nat, done: seq<seq<Byte>>)
    requires n <= |buf| && off + EVENT_SIZE > n
    ensures WithFront(done, Launched(e, buf, n, off)) == (done, true)
  {
    assert done + [] == done;
  }

  /** The decode loop of watchJobs over its reused buffer. */
  method DecodeJobs(e: Endian, buf: array<Byte>, n: nat) returns (launched: seq<seq<Byte>>, ok: bool)
    requires n <= buf.Length
    ensures (launched, ok) == Launched(e, buf[..], n, 0)
  {
    hide LoadU32, Launched, TrimNuls;
    launched := [];
    var offset := 0;
    assert [] + Launched(e, buf[..], n, 0).0 == Launched(e, buf[..], n, 0).0;
    while offset < n
      invariant Launched(e, buf[..], n, 0) == WithFront(launched, Launched(e, buf[..], n, offset))
      decreases if offset < n then n - offset else 0
    {
      if n - offset < EVENT_SIZE {
        break;
      }
      JobStep(e, buf[..], n, offset, launched);
      var len := LoadU32(e, buf[..], offset + 12);
      var next := offset + EVENT_SIZE + len;
      if next > buf.Length {
        return launched, false;
      }
      OneJob(Record(0, buf[..][offset + EVENT_SIZE..next]));
      if len > 0 {
        var nameBytes := buf[offset + EVENT_SIZE..next];
        assert nameBytes == buf[..][offset + EVENT_SIZE..next];
        var name := TrimNuls(nameBytes);
        if !StartsWithDot(name) {
          launched := launched + [name];
        } else {
          assert launched + [] == launched;
        }
      } else {
        assert launched + [] == launched;
      }
      offset := next;
    }
    JobEnd(e, buf[..], n, offset, launched);
    return launched, true;
  }

  lemma OneJob(r: Record)
    ensures JobsOf([r]) == match JobOf(r.field) case None => [] case Some(name) => [name]
  {
    assert [r][1..] == [];
  }

  lemma LaunchedOnce(e: Endian, buf: seq<Byte>, n: nat, off: nat)
    requires off + 16 <= n <= |buf|
    ensures var next := off + 16 + LoadU32(e, buf, off + 12);
            if next > |buf| then Launched(e, buf, n, off) == ([], false)
            else
              Launched(e, buf, n, off)
              == (JobsOf([Record(0, buf[off + 16..next])]) + Launched(e, buf, n, next).0, Launched(e, buf, n, next).1)
  {
    hide LoadU32, JobsOf;
  }

  /** What the watcher launches from one record on, on the bytes. */
  lemma LaunchedByBytes(e: Endian, buf: seq<Byte>, n: nat, off: nat)
    requires n <= |buf|
    ensures off + 16 > n ==> Launched(e, buf, n, off) == ([], true)
    ensures off + 16 <= n ==>
              var next := off + 16 + Get(e, buf[off + 12..off + 16]);
              if next > |buf| then Launched(e, buf, n, off) == ([], false)
              else
                var (more, ok) := Launched(e, buf, n, next);
                Launched(e, buf, n, off)
                == ((match JobOf(buf[off + 16..next]) case None => [] case Some(name) => [name]) + more, ok)
  {
    if off + 16 <= n {
      LaunchedOnce(e, buf, n, off);
      assert Get(e, buf[off + 12..off + 16]) == LoadU32(e, buf, off + 12);
      hide Get, LoadU32, JobOf, JobsOf, Launched;
      var next := off + 16 + Get(e, buf[off + 12..off + 16]);
      if next <= |buf| {
        OneJob(Record(0, buf[off + 16..next]));
      }
    }
  }

  /** When the walk succeeds, the jobs launched are those of its records, in order. */
  lemma {:induction false} LaunchedFromWalk(e: Endian, buf: seq<Byte>, n: nat, off: nat)
    requires n <= |buf| && Walk(e, buf, n, off).Ok?
    ensures Launched(e, buf, n, off) == (JobsOf(Walk(e, buf, n, off).value), true)
    decreases if off < n then n - off else 0
  {
    hide LoadU32, JobOf;
    if off + EVENT_SIZE <= n {
      var next := off + EVENT_SIZE + LoadU32(e, buf, off + 12);
      LaunchedFromWalk(e, buf, n, next);
      var r, rest := Record(LoadU32(e, buf, off + 4), buf[off + EVENT_SIZE..next]), Walk(e, buf, n, next).value;
      assert ([r] + rest)[1..] == rest && [Record(0, r.field)][1..] == [];
      assert JobsOf([Record(0, r.field)]) + [] == JobsOf([Record(0, r.field)]);
      assert JobsOf([r] + rest) == JobsOf([Record(0, r.field)]) + JobsOf(rest);
    }
  }

  // ---- the encoding ----

  /** An event as the kernel writes it. */
  datatype RawEvent = RawEvent(wd: I32, mask: U32, cookie: U32, field: seq<Byte>)

  predicate Encodable(ev: RawEvent) { |ev.field| < B32 }

  function EncodeEvent(e: Endian, ev: RawEvent): (b: seq<Byte>)
    ensures |b| == EVENT_SIZE + |ev.field|
  {
    Put(e, 4, I32ToU32(ev.wd)) + Put(e, 4, ev.mask) + Put(e, 4, ev.cookie) + Put(e, 4, |ev.field|) + ev.field
  }

  lemma EventBytes(e: Endian, ev: RawEvent)
    ensures var b := EncodeEvent(e, ev);
            && b[0..4] == Put(e, 4, if ev.wd < 0 then ev.wd + 0x1_0000_0000 else ev.wd)
            && b[4..8] == Put(e, 4, ev.mask) && b[8..12] == Put(e, 4, ev.cookie)
            && b[12..16] == Put(e, 4, |ev.field|) && b[16..] == ev.field
  {
    ConversionsAre(ev.wd, 0, 0, 0);
    hide Put;
  }

  function EncodeEvents(e: Endian, events: seq<RawEvent>): seq<Byte> {
    if events == [] then [] else EncodeEvent(e, events[0]) + EncodeEvents(e, events[1..])
  }

  predicate AllEncodable(events: seq<RawEvent>) {
    forall i :: 0 <= i < |events| ==> Encodable(events[i])
  }

  function RecordsOf(events: seq<RawEvent>): (r: seq<Record>)
    ensures |r| == |events|
  {
    seq(|events|, i requires 0 <= i < |events| => Record(events[i].mask, events[i].field))
  }

  /** Walking does not depend on what lies before the offset. */
  lemma {:induction false} WalkShift(e: Endian, a: seq<Byte>, b: seq<Byte>, n: nat, off: nat)
    requires n <= |b|
    ensures Walk(e, a + b, |a| + n, |a| + off) == Walk(e, b, n, off)
    decreases if off < n then n - off else 0
  {
    hide Get;
    if off + EVENT_SIZE <= n {
      var s := a + b;
      assert s[|a| + off + 12..|a| + off + 16] == b[off + 12..off + 16];
      assert s[|a| + off + 4..|a| + off + 8] == b[off + 4..off + 8];
      var next := off + EVENT_SIZE + LoadU32(e, b, off + 12);
      if next <= |b| {
        assert s[|a| + off + EVENT_SIZE..|a| + next] == b[off + EVENT_SIZE..next];
        WalkShift(e, a, b, n, next);
      }
    }
  }

  /** A whole record at the front is taken off, whatever follows it. */
  lemma WalkEvent(e: Endian, ev: RawEvent, rest: seq<Byte>, n: nat)
    requires Encodable(ev) && n <= |rest|
    ensures Walk(e, EncodeEvent(e, ev) + rest, EVENT_SIZE + |ev.field| + n, 0)
         == Prepend([Record(ev.mask, ev.field)], Walk(e, rest, n, 0))
  {
    hide Get, Put;
    var head := EncodeEvent(e, ev);
    var s := head + rest;
    SpanValues();
    assert s[4..8] == Put(e, 4, ev.mask) && s[12..16] == Put(e, 4, |ev.field|);
    GetPut(e, 4, ev.mask);
    GetPut(e, 4, |ev.field|);
    assert s[EVENT_SIZE..EVENT_SIZE + |ev.field|] == ev.field;
    WalkShift(e, head, rest, n, 0);
  }

  /** Decoding distributes over concatenation at a record boundary: however the kernel cuts the
      stream into reads of whole records, and whatever stale bytes follow, the same events come out. */
  lemma {:induction false} WalkDistributes(e: Endian, events: seq<RawEvent>, rest: seq<Byte>, n: nat)
    requires AllEncodable(events) && n <= |rest|
    ensures var front := EncodeEvents(e, events);
            Walk(e, front + rest, |front| + n, 0) == Prepend(RecordsOf(events), Walk(e, rest, n, 0))
  {
    hide EncodeEvent, Walk;
    if events == [] {
      assert EncodeEvents(e, events) + rest == rest;
      NoFront(Walk(e, rest, n, 0));
    } else {
      var tail := EncodeEvents(e, events[1..]);
      WalkDistributes(e, events[1..], rest, n);
      WalkEvent(e, events[0], tail + rest, |tail| + n);
      assert EncodeEvents(e, events) + rest == EncodeEvent(e, events[0]) + (tail + rest);
      PrependTwice([Record(events[0].mask, events[0].field)], RecordsOf(events[1..]), Walk(e, rest, n, 0));
      assert RecordsOf(events) == [Record(events[0].mask, events[0].field)] + RecordsOf(events[1..]);
    }
  }

  /** A name as the kernel pads it: absent, or non-empty and free of zero bytes with at least one
      zero byte after it. */
  predicate KernelField(field: seq<Byte>, name: seq<Byte>) {
    || (field == [] && name == [])
    || (name != [] && 0 !in name && |field| > |name| && field == name + Zeros(|field| - |name|))
  }

  ghost predicate KernelEvents(events: seq<RawEvent>, names: seq<seq<Byte>>) {
    |events| == |names| && AllEncodable(events)
    && forall i :: 0 <= i < |events| ==> KernelField(events[i].field, names[i])
  }

  lemma FieldDecodes(field: seq<Byte>, name: seq<Byte>)
    requires KernelField(field, name)
    ensures CutAtNul(field) == name && TrimNuls(field) == name
  {
    if field != [] {
      TrimPadding(name, |field| - |name|);
      assert FirstNul(field) == |name| by {
        assert field[|name|] == 0;
        assert forall j :: 0 <= j < |name| ==> field[j] == name[j];
      }
    }
  }

  lemma WalkOfStray(e: Endian, rest: seq<Byte>, stray: nat)
    requires stray < EVENT_SIZE && stray <= |rest|
    ensures Walk(e, rest, stray, 0) == Ok([])
  {}

  /** The monitor undoes the kernel's encoding, for any amount of padding, at most fifteen stray
      bytes and any stale bytes after them. */
  lemma MonitorRoundTrip(e: Endian, events: seq<RawEvent>, names: seq<seq<Byte>>, rest: seq<Byte>, stray: nat)
    requires KernelEvents(events, names) && stray < EVENT_SIZE && stray <= |rest|
    ensures var front := EncodeEvents(e, events);
            MonitorResult(Walk(e, front + rest, |front| + stray, 0))
            == Ok(seq(|events|, i requires 0 <= i < |events| => EventInfo(events[i].mask, names[i])))
  {
    hide EncodeEvents, CutAtNul, KernelField;
    WalkDistributes(e, events, rest, stray);
    WalkOfStray(e, rest, stray);
    hide Walk;
    assert RecordsOf(events) + [] == RecordsOf(events);
    forall i | 0 <= i < |events| ensures CutAtNul(events[i].field) == names[i] {
      FieldDecodes(events[i].field, names[i]);
    }
    assert EventsOf(RecordsOf(events))
        == seq(|events|, i requires 0 <= i < |events| => EventInfo(events[i].mask, names[i]));
  }

  // ---- the two decoders compared ----

  /** The job the name of a monitor event would mean. */
  function JobOfName(name: seq<Byte>): Option<seq<Byte>> {
    if name == [] || StartsWithDot(name) then None else Some(name)
  }

  lemma JobOfNameIs(name: seq<Byte>)
    ensures JobOfName(name) == if name == [] || name[0] == 46 then None else Some(name)
  {}

  function JobsOfEvents(events: seq<EventInfo>): seq<seq<Byte>> {
    if events == [] then []
    else (match JobOfName(events[0].name)
          case None => []
          case Some(name) => [name]) + JobsOfEvents(events[1..])
  }

  /** On everything the kernel writes, the watcher launches exactly the non-empty names without a
      leading dot that the monitor reports, in the same order. */
  lemma DecodersAgree(e: Endian, events: seq<RawEvent>, names: seq<seq<Byte>>, rest: seq<Byte>, stray: nat)
    requires KernelEvents(events, names) && stray < EVENT_SIZE && stray <= |rest|
    ensures var front := EncodeEvents(e, events);
            var walk := Walk(e, front + rest, |front| + stray, 0);
            && walk.Ok?
            && Launched(e, front + rest, |front| + stray, 0) == (JobsOfEvents(MonitorResult(walk).value), true)
  {
    hide EncodeEvents, CutAtNul, Launched;
    WalkDistributes(e, events, rest, stray);
    WalkOfStray(e, rest, stray);
    hide Walk;
    assert RecordsOf(events) + [] == RecordsOf(events);
    var front := EncodeEvents(e, events);
    LaunchedFromWalk(e, front + rest, |front| + stray, 0);
    JobsAgree(RecordsOf(events), names);
  }

  lemma {:induction false} JobsAgree(records: seq<Record>, names: seq<seq<Byte>>)
    requires |records| == |names|
    requires forall i :: 0 <= i < |records| ==> KernelField(records[i].field, names[i])
    ensures JobsOf(records) == JobsOfEvents(EventsOf(records))
  {
    hide CutAtNul, KernelField;
    if records != [] {
      AgreeOnKernelField(records[0].field, names[0]);
      JobsAgree(records[1..], names[1..]);
      assert EventsOf(records)[1..] == EventsOf(records[1..]);
    }
  }

  lemma AgreeOnKernelField(field: seq<Byte>, name: seq<Byte>)
    requires KernelField(field, name)
    ensures JobOf(field) == JobOfName(CutAtNul(field))
  {
    FieldDecodes(field, name);
  }

  /** The zero bytes of a field all stand at its end. */
  predicate NulsOnlyAtEnd(field: seq<Byte>) {
    forall i :: FirstNul(field) <= i < |field| ==> field[i] == 0
  }

  lemma {:induction false} TrimNulsIs(field: seq<Byte>)
    ensures |TrimNuls(field)| <= |field| && TrimNuls(field) == field[..|TrimNuls(field)|]
    ensures forall i :: |TrimNuls(field)| <= i < |field| ==> field[i] == 0
    ensures TrimNuls(field) != [] ==> field[|TrimNuls(field)| - 1] != 0
  {
    if field != [] && field[|field| - 1] == 0 {
      TrimNulsIs(field[..|field| - 1]);
    }
  }

  /** Beyond what the kernel writes the decoders part: they mean the same job exactly for an empty
      field, one that starts with a dot, or a non-empty name ended by zero bytes and nothing else. */
  lemma DecodersAgreeIff(field: seq<Byte>)
    ensures JobOf(field) == JobOfName(CutAtNul(field))
       <==> field == [] || field[0] == 46
            || (field[0] != 0 && FirstNul(field) < |field| && NulsOnlyAtEnd(field))
  {
    hide TrimNuls, FirstNul;
    TrimNulsIs(field);
    CutWithinTrim(field);
    var t, i := TrimNuls(field), FirstNul(field);
    if field != [] && field[0] != DOT && field[0] != 0 && i < |field| && !NulsOnlyAtEnd(field) {
      var j :| i <= j < |field| && field[j] != 0;
      assert |t| > j;
    }
  }

  /** The trimmed name reaches at least to the first zero byte, and no further when zeros only end
      the field. */
  lemma CutWithinTrim(field: seq<Byte>)
    ensures FirstNul(field) <= |TrimNuls(field)| <= |field|
    ensures NulsOnlyAtEnd(field) ==> |TrimNuls(field)| == FirstNul(field)
  {
    hide TrimNuls, FirstNul;
    TrimNulsIs(field);
    var n := |TrimNuls(field)|;
    if n < |field| {
      assert field[n] == 0;
    }
    if n > 0 {
      assert field[n - 1] != 0;
    }
  }
}
