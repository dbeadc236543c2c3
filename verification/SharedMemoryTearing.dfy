/** When an uninterrupted read in the middle of a write is whole, what a torn one costs a watcher,
    and what a watcher prints under any interleaving. */
module SharedMemoryTearing {
  import opened Words
  import opened SharedMemory
  import opened SharedMemorySteps
  import Runs = SharedMemoryRuns

  // ---- what a read returns at every moment of a write ----

  lemma HeaderAndArea(header: seq<Byte>, area: seq<Byte>, n: nat)
    requires |header| == PAYLOAD_OFFSET && n <= |area|
    ensures (header + area)[PAYLOAD_OFFSET..PAYLOAD_OFFSET + n] == area[..n]
  {}

  /** A read never fails: the number is the newest, the time and the length may be one write behind,
      the payload is what the area holds up to that length. */
  lemma ReadMidway(s: State)
    requires MemoryExact(s)
    ensures |At(s.posts, LengthIndex(s)).payload| <= MAX_PAYLOAD
    ensures Read(s.mem) == Ok(Message(|s.posts| % B64, At(s.posts, TimeIndex(s)).nanos,
                                      Area(s)[..|At(s.posts, LengthIndex(s)).payload|]))
  {
    hide PageHeader, HasValidHeader, SeqWord, TimeWord, LoadU32, Area;
    var nanos, length := At(s.posts, TimeIndex(s)).nanos, |At(s.posts, LengthIndex(s)).payload|;
    HeaderWords(|s.posts|, nanos, length, Area(s));
    HeaderAndArea(PageHeader(|s.posts|, nanos, length), Area(s), length);
  }

  /** The places of the writer at which the page reads as the write under way, whole. */
  predicate ReadsWhole(s: State) {
    var n := |s.posts|;
    var before := At(s.posts, if n == 0 then 0 else n - 1);
    match s.writer
    case WIdle => true
    case StoredSeq(p) => before == p
    case StoredTime(p) => before.payload == p.payload
    case Clearing(p, i) =>
      forall k: nat :: k < |p.payload| ==> p.payload[k] == if k < i then 0 else ByteOf(before, k)
    case Copying(p, i) => forall k: nat :: i <= k < |p.payload| ==> p.payload[k] == 0
  }

  lemma AreaIsPayload(s: State, p: Post)
    requires |p.payload| <= MAX_PAYLOAD
    ensures Area(s)[..|p.payload|] == p.payload
       <==> forall k: nat :: k < |p.payload| ==> AreaByte(s, k) == p.payload[k]
  {
    var area := Area(s)[..|p.payload|];
    assert forall k: nat :: k < |p.payload| ==> area[k] == AreaByte(s, k);
  }

  /** At any moment a read returns the write begun last exactly at those places; everywhere else it
      returns a message that no write posted under that number. */
  lemma ReadsWholeIff(s: State)
    requires MemoryExact(s)
    ensures Read(s.mem) == Ok(LatestMessage(s.posts)) <==> ReadsWhole(s)
  {
    ReadMidway(s);
    hide Read, Area;
    var n := |s.posts|;
    AreaIsPayload(s, At(s.posts, LengthIndex(s)));
    assert s.writer.StoredSeq? || s.writer.StoredTime? ==>
        forall k: nat :: k < |At(s.posts, n - 1).payload| ==> AreaByte(s, k) == At(s.posts, n - 1).payload[k];
  }

  /** The same for the loads taken one by one with no store between them. */
  lemma UninterruptedReadIff(s: State)
    requires |s.mem| == MAPPING_SIZE && MemoryExact(s) && s.reader.RIdle?
    ensures var loads := Repeat(Reader, |At(s.posts, LengthIndex(s)).payload| + 4);
            Run(s, loads).results == s.results + [Ok(LatestMessage(s.posts))] <==> ReadsWhole(s)
  {
    ReadMidway(s);
    hide Area, MemoryExact, ReadsWhole, LatestMessage, Read, Run, Repeat;
    ReadsWholeIff(s);
    UninterruptedRead(s);
    var whole := Ok(LatestMessage(s.posts));
    assert s.results + [Read(s.mem)] == s.results + [whole] <==> Read(s.mem) == whole by {
      assert (s.results + [Read(s.mem)])[|s.results|] == Read(s.mem);
      assert (s.results + [whole])[|s.results|] == whole;
    }
  }

  // ---- what a torn read costs ----

  /** The steps left of the write under way. */
  function Remaining(w: WriterPc): seq<Label> {
    match w
    case WIdle => []
    case StoredSeq(p) => Repeat(Writer, 2) + Repeat(Writer, MAX_PAYLOAD + 1) + Repeat(Writer, |p.payload| + 1)
    case StoredTime(p) => Repeat(Writer, 1) + Repeat(Writer, MAX_PAYLOAD + 1) + Repeat(Writer, |p.payload| + 1)
    case Clearing(p, i) =>
      Repeat(Writer, if i <= MAX_PAYLOAD then MAX_PAYLOAD - i + 1 else 0) + Repeat(Writer, |p.payload| + 1)
    case Copying(p, i) => Repeat(Writer, if i <= |p.payload| then |p.payload| - i + 1 else 0)
  }

  lemma FinishBytes(s: State, words: seq<Label>)
    requires |s.mem| == MAPPING_SIZE
    requires var t := Run(s, words);
             t == s.(mem := t.mem, writer := t.writer)
             && t.writer.Clearing? && t.writer.next <= MAX_PAYLOAD && |t.writer.post.payload| <= MAX_PAYLOAD
    ensures var t := Run(s, words);
            var labels := words + Repeat(Writer, MAX_PAYLOAD - t.writer.next + 1)
                          + Repeat(Writer, |t.writer.post.payload| + 1);
            var s' := Run(s, labels);
            s' == s.(mem := s'.mem, writer := WIdle)
  {
    hide Step, Run, WriterStep, Repeat;
    var t := Run(s, words);
    var clears := Repeat(Writer, MAX_PAYLOAD - t.writer.next + 1);
    FinishClearing(t);
    FinishCopying(Run(t, clears));
    RunThree(s, words, clears, Repeat(Writer, |t.writer.post.payload| + 1));
  }

  lemma WordsFinish(s: State)
    requires |s.mem| == MAPPING_SIZE
    requires (s.writer.StoredSeq? || s.writer.StoredTime?) && |s.writer.post.payload| <= MAX_PAYLOAD
    ensures var s' := Run(s, Remaining(s.writer)); s' == s.(mem := s'.mem, writer := WIdle)
  {
    var p := s.writer.post;
    var t := if s.writer.StoredSeq? then WriterStep(s) else s;
    assert Run(t, Repeat(Writer, 1)) == WriterStep(t) by {
      RunFirst(t, Writer, 1);
      assert Repeat(Writer, 0) == [];
    }
    var words := Repeat(Writer, if s.writer.StoredSeq? then 2 else 1);
    assert Run(s, words) == WriterStep(t) by {
      if s.writer.StoredSeq? {
        RunFirst(s, Writer, 2);
      }
    }
    hide Run, Repeat;
    FinishBytes(s, words);
  }

  lemma ClearingFinishes(s: State)
    requires |s.mem| == MAPPING_SIZE && s.writer.Clearing? && s.writer.next <= MAX_PAYLOAD
    requires |s.writer.post.payload| <= MAX_PAYLOAD
    ensures var s' := Run(s, Remaining(s.writer)); s' == s.(mem := s'.mem, writer := WIdle)
  {
    assert Run(s, []) == s;
    var clears := Repeat(Writer, MAX_PAYLOAD - s.writer.next + 1);
    assert [] + clears == clears;
    hide Run, Repeat;
    FinishBytes(s, []);
  }

  lemma WriterBounds(s: State)
    requires MemoryExact(s) && !s.writer.WIdle?
    ensures |s.writer.post.payload| <= MAX_PAYLOAD
    ensures s.writer.Clearing? ==> s.writer.next <= MAX_PAYLOAD
    ensures s.writer.Copying? ==> s.writer.next <= |s.writer.post.payload|
  {
    hide PageHeader, Area;
  }

  /** Left alone, the writer finishes the write it has begun, wherever it stands. */
  lemma WriterFinishes(s: State)
    requires |s.mem| == MAPPING_SIZE && MemoryExact(s)
    ensures var s' := Run(s, Remaining(s.writer)); s' == s.(mem := s'.mem, writer := WIdle)
  {
    if !s.writer.WIdle? {
      WriterBounds(s);
    }
    hide MemoryExact, Repeat, Step;
    match s.writer
    case WIdle =>
    case StoredSeq(_) =>
      hide Run, Remaining;
      WordsFinish(s);
    case StoredTime(_) =>
      hide Run, Remaining;
      WordsFinish(s);
    case Clearing(_, _) =>
      hide Run, Remaining;
      ClearingFinishes(s);
    case Copying(_, _) =>
      hide Run;
      FinishCopying(s);
  }

  /** A torn read hides a write. Whenever a read falls on a moment that is not whole, the write
      finishes under the number already read; a watcher that looks at both, whatever it printed
      before, ends where the torn message left it and drops the complete write. */
  lemma TornReadIsFinal(s: State, w: Runs.Watcher)
    requires |s.mem| == MAPPING_SIZE && MemoryExact(s) && !ReadsWhole(s)
    ensures Read(s.mem).Ok? && Read(Run(s, Remaining(s.writer)).mem) == Ok(LatestMessage(s.posts))
    ensures var torn, complete := Read(s.mem).value, LatestMessage(s.posts);
            && torn != complete && torn.sequence == complete.sequence
            && Runs.Seen(Runs.Seen(w, torn), complete) == Runs.Seen(w, torn)
            && (torn.sequence != 0 && torn.sequence != w.lastSeq ==>
                  Runs.Seen(w, torn).printed == w.printed + [torn])
  {
    var done := Run(s, Remaining(s.writer));
    ReadMidway(s);
    ReadsWholeIff(s);
    WriterFinishes(s);
    RunKeepsExact(s, Remaining(s.writer));
    hide Run, Remaining, Read, MemoryExact, Area;
    ReadsWholeIff(done);
  }

  /** Such moments are reached, and the simplest is the first: in the middle of the first write of
      all, with only its number stored, a reader gets the empty page under the number of the write.
      That message is no write at all, and a new watcher that prints it drops the write itself. */
  lemma TornReadHidesAWrite(s: State, post: Post)
    requires MemoryExact(s) && s.writer.WIdle? && s.reader.RIdle? && s.posts == [] && s.results == []
    requires 0 < |post.payload| <= MAX_PAYLOAD
    ensures |s.mem| == MAPPING_SIZE
    ensures Run(Step(s, Begin(post)), Repeat(Reader, 4)).results == [Ok(Message(1, 0, []))]
    ensures Read(Run(s, WriteSteps(post)).mem) == Ok(Message(1, post.nanos, post.payload))
    ensures var w := Runs.Seen(Runs.Seen(Runs.Watcher(0, []), Message(1, 0, [])), Message(1, post.nanos, post.payload));
            w.printed == [Message(1, 0, [])]
  {
    hide Run, WriteSteps, Read, MemoryExact, HasValidHeader, Area, Patch, Put;
    ExactSize(s);
    IdleHeaderValid(s);
    BeginAccepted(s, post);
    BeginExact(s, post);
    var s1 := Step(s, Begin(post));
    ReadMidway(s1);
    UninterruptedRead(s1);
    QuietWriteReads(s, post);
  }

  // ---- a watcher under any interleaving ----

  /** The watcher, fed with what the reads return one after another. */
  function WatcherOfReads(results: seq<Result<Message, PageError>>): Runs.Watcher {
    if results == [] then Runs.Watcher(0, [])
    else
      var w, last := WatcherOfReads(results[..|results| - 1]), results[|results| - 1];
      if last.Ok? then Runs.Seen(w, last.value) else w
  }

  /** Numbers that never go down are printed strictly increasing, each message one that was read. */
  lemma {:induction false} PrintsOfReads(results: seq<Result<Message, PageError>>)
    requires forall i :: 0 <= i < |results| ==> results[i].Ok?
    requires forall i, j :: 0 <= i < j < |results| ==> results[i].value.sequence <= results[j].value.sequence
    ensures var w := WatcherOfReads(results);
            && Increasing(w.printed) && (forall i :: 0 <= i < |w.printed| ==> Ok(w.printed[i]) in results)
            && w.lastSeq == (if w.printed == [] then 0 else w.printed[|w.printed| - 1].sequence)
            && (results != [] ==> w.lastSeq == results[|results| - 1].value.sequence)
  {
    if results != [] {
      var init, last := results[..|results| - 1], results[|results| - 1].value;
      PrintsOfReads(init);
      var w := WatcherOfReads(init);
      if init != [] {
        assert init[|init| - 1].value.sequence <= last.sequence;
      }
      if Runs.Seen(w, last) != w {
        assert w.lastSeq < last.sequence;
        IncreasingGrows(w.printed, last);
      }
    }
  }

  lemma ExplainedFromStart(posts: seq<Post>, floor: nat, m: Message)
    requires ExplainedSince(posts, floor, m)
    ensures ExplainedSince(posts, 0, m)
  {
    var j: nat :|
      j <= m.sequence && LengthKnown(posts, floor, j, |m.payload|) && TimeFrom(posts, j, m.nanos);
    assert LengthKnown(posts, 0, j, |m.payload|);
  }

  /** In every interleaving of single stores and loads with fewer than 2^64 writes, a watcher prints
      strictly increasing numbers, every message explained, and ends on the number read last. */
  lemma WatcherUnderInterleaving(labels: seq<Label>)
    requires |Run(Start(), labels).posts| < B64
    ensures var s := Run(Start(), labels);
            var w := WatcherOfReads(s.results);
            && Increasing(w.printed)
            && (forall i :: 0 <= i < |w.printed| ==>
                  Ok(w.printed[i]) in s.results && ExplainedSince(s.posts, 0, w.printed[i]))
            && (s.results != [] ==> s.results[|s.results| - 1].Ok?
                                    && w.lastSeq == s.results[|s.results| - 1].value.sequence)
  {
    var s := Run(Start(), labels);
    ReadsAreExplained(labels);
    hide Run, ExplainedSince;
    PrintsOfReads(s.results);
    var w := WatcherOfReads(s.results);
    forall i | 0 <= i < |w.printed| ensures ExplainedSince(s.posts, 0, w.printed[i]) {
      var k :| 0 <= k < |s.results| && s.results[k] == Ok(w.printed[i]);
      ExplainedFromStart(s.posts, Floor(s.results, k), w.printed[i]);
    }
  }
}
