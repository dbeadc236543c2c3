/** What a read returns in every interleaving: it is determined by where the writer stood at each of
    its loads. From that, exactly when a read is whole, and when a watcher gets the latest write. */
module SharedMemoryTraces {
  import opened Words
  import opened SharedMemory
  import opened SharedMemorySteps
  import opened SharedMemoryTearing
  import Runs = SharedMemoryRuns

  // ---- traces ----

  /** Where the writer stands: how many writes it has begun, and its place in the last one. */
  datatype Place = Place(count: nat, writer: WriterPc)

  function PlaceOf(s: State): Place { Place(|s.posts|, s.writer) }

  /** The places of the writer at the loads of one read; number is the count at the third load. */
  datatype Trace = Trace(length: Place, time: Place, number: nat, bytes: seq<Place>)

  const NO_TRACE := Trace(Place(0, WIdle), Place(0, WIdle), 0, [])

  /** A run that also keeps the trace of the read under way and of every read that has returned. */
  datatype Traced = Traced(s: State, reading: Trace, finished: seq<Trace>)

  predicate TakesByte(r: ReaderPc) {
    r.GotSeq? && |r.got| < r.length && |r.got| < MAX_PAYLOAD
  }

  function TracedStep(t: Traced, l: Label): Traced
    requires |t.s.mem| == MAPPING_SIZE
  {
    var s, here, tr := t.s, PlaceOf(t.s), t.reading;
    var next := t.(s := Step(s, l));
    if !l.Reader? then next
    else match s.reader
      case RIdle => next.(reading := NO_TRACE.(length := here))
      case GotLength(_) => next.(reading := tr.(time := here))
      case GotTime(_, _) => next.(reading := tr.(number := |s.posts|))
      case GotSeq(_, _, _, _) =>
        if TakesByte(s.reader) then next.(reading := tr.(bytes := tr.bytes + [here]))
        else next.(finished := t.finished + [tr])
  }

  function TracedRun(t: Traced, labels: seq<Label>): (t': Traced)
    requires |t.s.mem| == MAPPING_SIZE
    ensures |t'.s.mem| == MAPPING_SIZE
    decreases |labels|
  {
    if labels == [] then t else TracedRun(TracedStep(t, labels[0]), labels[1..])
  }

  const TRACED_START := Traced(Start(), NO_TRACE, [])

  /** Keeping traces changes nothing. */
  lemma {:induction false} TracesAreSilent(t: Traced, labels: seq<Label>)
    requires |t.s.mem| == MAPPING_SIZE
    ensures TracedRun(t, labels).s == Run(t.s, labels)
    decreases |labels|
  {
    hide Step;
    if labels != [] {
      TracesAreSilent(TracedStep(t, labels[0]), labels[1..]);
    }
  }

  // ---- what a trace says was read ----

  /** The writer's side of the state at a place, among the writes of a longer run. */
  function Then(posts: seq<Post>, place: Place): State
    requires place.count <= |posts|
  {
    State([], place.writer, RIdle, posts[..place.count], [])
  }

  function LengthFound(posts: seq<Post>, place: Place): nat
    requires place.count <= |posts|
  {
    |At(posts[..place.count], LengthIndex(Then(posts, place))).payload|
  }

  function TimeFound(posts: seq<Post>, place: Place): I64
    requires place.count <= |posts|
  {
    At(posts[..place.count], TimeIndex(Then(posts, place))).nanos
  }

  function ByteFound(posts: seq<Post>, place: Place, k: nat): Byte
    requires place.count <= |posts|
  {
    AreaByte(Then(posts, place), k)
  }

  /** A busy writer has begun a write. */
  predicate Begun(place: Place) { place.writer.WIdle? || place.count > 0 }

  /** The loads came in this order, with writes begun in between or not. */
  ghost predicate InOrder(posts: seq<Post>, tr: Trace) {
    && Begun(tr.length) && Begun(tr.time) && tr.length.count <= tr.time.count <= tr.number <= |posts|
    && forall k :: 0 <= k < |tr.bytes| ==> Begun(tr.bytes[k]) && tr.number <= tr.bytes[k].count <= |posts|
  }

  function ReadFrom(posts: seq<Post>, tr: Trace): Message
    requires InOrder(posts, tr)
  {
    Message(tr.number % B64, TimeFound(posts, tr.time),
            seq(|tr.bytes|, k requires 0 <= k < |tr.bytes| => ByteFound(posts, tr.bytes[k], k)))
  }

  /** A finished read: it took as many bytes as the length it found. */
  ghost predicate Finished(posts: seq<Post>, tr: Trace) {
    InOrder(posts, tr) && |tr.bytes| == LengthFound(posts, tr.length)
  }

  // ---- every read is determined by its trace ----

  ghost predicate ReadingTracks(posts: seq<Post>, r: ReaderPc, tr: Trace) {
    match r
    case RIdle => true
    case GotLength(length) =>
      tr.bytes == [] && Begun(tr.length) && tr.length.count <= |posts| && length == LengthFound(posts, tr.length)
    case GotTime(length, nanos) =>
      && tr.bytes == [] && Begun(tr.length) && Begun(tr.time) && tr.length.count <= tr.time.count <= |posts|
      && length == LengthFound(posts, tr.length) && nanos == TimeFound(posts, tr.time)
    case GotSeq(length, nanos, sequence, got) =>
      && InOrder(posts, tr) && |got| <= length == LengthFound(posts, tr.length)
      && Message(sequence, nanos, got) == ReadFrom(posts, tr)
  }

  ghost predicate ReadsTrack(posts: seq<Post>, results: seq<Result<Message, PageError>>, finished: seq<Trace>) {
    && |results| == |finished|
    && forall i :: 0 <= i < |finished| ==>
         Finished(posts, finished[i]) && results[i] == Ok(ReadFrom(posts, finished[i]))
  }

  ghost predicate Tracks(t: Traced) {
    && MemoryExact(t.s) && ReadingTracks(t.s.posts, t.s.reader, t.reading)
    && ReadsTrack(t.s.posts, t.s.results, t.finished)
  }

  /** What is in memory now is what the trace will say was there. */
  lemma FoundNow(s: State, k: nat)
    ensures LengthFound(s.posts, PlaceOf(s)) == |At(s.posts, LengthIndex(s)).payload|
    ensures TimeFound(s.posts, PlaceOf(s)) == At(s.posts, TimeIndex(s)).nanos
    ensures ByteFound(s.posts, PlaceOf(s), k) == AreaByte(s, k)
    ensures MemoryExact(s) ==> Begun(PlaceOf(s))
  {
    assert s.posts[..|s.posts|] == s.posts;
  }

  lemma FoundLater(posts: seq<Post>, p: Post, place: Place)
    requires place.count <= |posts|
    ensures Then(posts + [p], place) == Then(posts, place)
  {
    assert (posts + [p])[..place.count] == posts[..place.count];
  }

  lemma ReadLater(posts: seq<Post>, p: Post, tr: Trace)
    requires InOrder(posts, tr)
    ensures InOrder(posts + [p], tr) && ReadFrom(posts + [p], tr) == ReadFrom(posts, tr)
    ensures LengthFound(posts + [p], tr.length) == LengthFound(posts, tr.length)
  {
    FoundLater(posts, p, tr.length);
    FoundLater(posts, p, tr.time);
    forall k | 0 <= k < |tr.bytes| ensures ByteFound(posts + [p], tr.bytes[k], k) == ByteFound(posts, tr.bytes[k], k) {
      FoundLater(posts, p, tr.bytes[k]);
    }
    hide ByteFound;
    assert ReadFrom(posts + [p], tr).payload == ReadFrom(posts, tr).payload;
  }

  lemma BeginTracks(t: Traced, p: Post)
    requires ReadingTracks(t.s.posts, t.s.reader, t.reading) && ReadsTrack(t.s.posts, t.s.results, t.finished)
    ensures ReadingTracks(t.s.posts + [p], t.s.reader, t.reading)
    ensures ReadsTrack(t.s.posts + [p], t.s.results, t.finished)
  {
    var posts := t.s.posts;
    forall i | 0 <= i < |t.finished|
      ensures Finished(posts + [p], t.finished[i])
           && ReadFrom(posts + [p], t.finished[i]) == ReadFrom(posts, t.finished[i])
    {
      ReadLater(posts, p, t.finished[i]);
    }
    match t.s.reader
    case RIdle =>
    case GotLength(_) => FoundLater(posts, p, t.reading.length);
    case GotTime(_, _) =>
      FoundLater(posts, p, t.reading.length);
      FoundLater(posts, p, t.reading.time);
    case GotSeq(_, _, _, _) => ReadLater(posts, p, t.reading);
  }

  lemma ByteTracks(posts: seq<Post>, tr: Trace, here: Place)
    requires InOrder(posts, tr) && Begun(here) && here.count == |posts|
    ensures var tr' := tr.(bytes := tr.bytes + [here]);
            && InOrder(posts, tr')
            && ReadFrom(posts, tr')
               == ReadFrom(posts, tr).(payload := ReadFrom(posts, tr).payload + [ByteFound(posts, here, |tr.bytes|)])
  {
    hide ByteFound, TimeFound;
    var tr' := tr.(bytes := tr.bytes + [here]);
    assert ReadFrom(posts, tr').payload == ReadFrom(posts, tr).payload + [ByteFound(posts, here, |tr.bytes|)];
  }

  /** The reader's step, in terms of what memory holds. */
  lemma LoadsFind(s: State)
    requires MemoryExact(s)
    ensures Begun(PlaceOf(s))
    ensures var r, r' := s.reader, ReaderStep(s).reader;
            match r
            case RIdle => r' == GotLength(LengthFound(s.posts, PlaceOf(s)))
            case GotLength(length) => r' == GotTime(length, TimeFound(s.posts, PlaceOf(s)))
            case GotTime(length, nanos) => r' == GotSeq(length, nanos, |s.posts| % B64, [])
            case GotSeq(length, nanos, sequence, got) =>
              if TakesByte(r) then r' == GotSeq(length, nanos, sequence, got + [ByteFound(s.posts, PlaceOf(s), |got|)])
              else r' == RIdle
  {
    ExactHeader(s);
    FoundNow(s, if s.reader.GotSeq? then |s.reader.got| else 0);
    if TakesByte(s.reader) {
      MemoryByte(s, |s.reader.got|);
    }
    hide MemoryExact, HasValidHeader, LoadU32, SeqWord, TimeWord, LengthFound, TimeFound, ByteFound, AreaByte;
  }

  lemma LoadsReturn(s: State)
    requires MemoryExact(s)
    ensures var s' := ReaderStep(s);
            && s'.posts == s.posts
            && s'.results == s.results
                + (if s.reader.GotSeq? && !TakesByte(s.reader)
                   then [Ok(Message(s.reader.sequence, s.reader.nanos, s.reader.got))] else [])
  {
    ExactHeader(s);
    hide MemoryExact, HasValidHeader, LoadU32, SeqWord, TimeWord;
  }

  /** No length found exceeds the payload area. */
  lemma LengthFits(posts: seq<Post>, place: Place)
    requires AllAccepted(posts) && place.count <= |posts|
    ensures LengthFound(posts, place) <= MAX_PAYLOAD
  {
    var i := LengthIndex(Then(posts, place));
    assert i > 0 ==> posts[..place.count][i - 1] == posts[i - 1];
  }

  lemma ReaderTracks(t: Traced)
    requires Tracks(t)
    ensures var t' := TracedStep(t, Reader);
            ReadingTracks(t'.s.posts, t'.s.reader, t'.reading) && ReadsTrack(t'.s.posts, t'.s.results, t'.finished)
  {
    ExactSize(t.s);
    LoadsFind(t.s);
    LoadsReturn(t.s);
    ExactHeader(t.s);
    var s, tr := t.s, t.reading;
    if TakesByte(s.reader) {
      ByteTracks(s.posts, tr, PlaceOf(s));
    } else if s.reader.GotSeq? {
      LengthFits(s.posts, tr.length);
    }
    hide MemoryExact, HeaderLoads, AllAccepted, ReaderStep, LengthFound, TimeFound, ByteFound;
  }

  lemma StepTracks(t: Traced, l: Label)
    requires Tracks(t) && |t.s.mem| == MAPPING_SIZE
    ensures Tracks(TracedStep(t, l))
  {
    StepExact(t.s, l);
    match l
    case Begin(post) =>
      BeginTracks(t, post);
      hide MemoryExact, ReadingTracks, ReadsTrack, HasValidHeader, Patch, Put, SeqWord;
    case Writer =>
      hide MemoryExact, ReadingTracks, ReadsTrack, Patch, Put;
    case Reader =>
      ReaderTracks(t);
      hide MemoryExact, ReadingTracks, ReadsTrack, ReaderStep;
  }

  lemma {:induction false} RunTracks(t: Traced, labels: seq<Label>)
    requires Tracks(t) && |t.s.mem| == MAPPING_SIZE
    ensures Tracks(TracedRun(t, labels))
    decreases |labels|
  {
    hide TracedStep, Tracks;
    if labels != [] {
      StepTracks(t, labels[0]);
      TracedSize(t, labels[0]);
      RunTracks(TracedStep(t, labels[0]), labels[1..]);
    }
  }

  lemma TracedSize(t: Traced, l: Label)
    requires |t.s.mem| == MAPPING_SIZE
    ensures |TracedStep(t, l).s.mem| == MAPPING_SIZE
  {
    hide Step;
  }

  /** In every interleaving, with any number of writes: every read returns what its trace says. */
  lemma EveryReadIsTraced(labels: seq<Label>)
    ensures var t := TracedRun(TRACED_START, labels);
            t.s == Run(Start(), labels) && ReadsTrack(t.s.posts, t.s.results, t.finished)
  {
    StartExact();
    assert ReadsTrack([], [], []);
    TracesAreSilent(TRACED_START, labels);
    RunTracks(TRACED_START, labels);
  }

  // ---- when a read is whole ----

  /** Write i is wholly what was read under number i. */
  ghost predicate Whole(posts: seq<Post>, tr: Trace)
    requires InOrder(posts, tr)
  {
    ReadFrom(posts, tr) == MessageAt(posts, tr.number)
  }

  /** What was found at the loads agrees with the write counted at the number load. */
  ghost predicate FoundAgrees(posts: seq<Post>, tr: Trace)
    requires InOrder(posts, tr)
  {
    var p := At(posts, tr.number);
    && TimeFound(posts, tr.time) == p.nanos && LengthFound(posts, tr.length) == |p.payload|
    && forall k: nat :: k < |tr.bytes| && k < |p.payload| ==> ByteFound(posts, tr.bytes[k], k) == p.payload[k]
  }

  lemma WholeIffFound(posts: seq<Post>, tr: Trace)
    requires Finished(posts, tr)
    ensures Whole(posts, tr) <==> FoundAgrees(posts, tr)
  {
    hide ByteFound, TimeFound, LengthFound;
    var got, payload := ReadFrom(posts, tr).payload, At(posts, tr.number).payload;
    assert forall k: nat :: k < |tr.bytes| ==> got[k] == ByteFound(posts, tr.bytes[k], k);
    assert got == payload <==>
        |tr.bytes| == |payload| && forall k: nat :: k < |payload| ==> ByteFound(posts, tr.bytes[k], k) == payload[k];
  }

  /** Byte k of write n is in memory at this place: stored by write n and not yet cleared or
      overwritten by the next. */
  predicate Holds(place: Place, n: nat, k: nat) {
    match place.writer
    case WIdle => place.count == n
    case StoredSeq(_) => place.count == n + 1
    case StoredTime(_) => place.count == n + 1
    case Clearing(_, i) => place.count == n + 1 && i <= k
    case Copying(_, i) => place.count == n && k < i
  }

  /** No write begins between the time load and the number load, and the time load does not fall
      between the stores of the number and the time. */
  predicate TimeIsCurrent(tr: Trace) {
    tr.time.count == tr.number && !tr.time.writer.StoredSeq?
  }

  ghost predicate BytesAreCurrent(tr: Trace) {
    forall k: nat {:trigger tr.bytes[k]} :: k < |tr.bytes| ==> Holds(tr.bytes[k], tr.number, k)
  }

  lemma PrefixAt(posts: seq<Post>, count: nat, i: nat)
    requires i <= count <= |posts|
    ensures At(posts[..count], i) == At(posts, i)
  {}

  lemma HeldByte(posts: seq<Post>, place: Place, n: nat, k: nat)
    requires place.count <= |posts| && n <= |posts| && Holds(place, n, k)
    ensures ByteFound(posts, place, k) == ByteOf(At(posts, n), k)
  {
    PrefixAt(posts, place.count, n);
  }

  /** Whatever the writes contain: a read whose time and bytes are current and whose length is that
      of the write is whole. */
  lemma CurrentIsWhole(posts: seq<Post>, tr: Trace)
    requires Finished(posts, tr) && TimeIsCurrent(tr) && BytesAreCurrent(tr)
    requires LengthFound(posts, tr.length) == |At(posts, tr.number).payload|
    ensures Whole(posts, tr)
  {
    PrefixAt(posts, tr.time.count, tr.number);
    var payload := At(posts, tr.number).payload;
    forall k: nat | k < |tr.bytes| ensures ByteFound(posts, tr.bytes[k], k) == payload[k] {
      HeldByte(posts, tr.bytes[k], tr.number, k);
    }
    hide ByteFound, LengthFound;
    assert ReadFrom(posts, tr).payload == payload;
  }

  ghost predicate TimesDiffer(posts: seq<Post>) {
    forall i: nat, j: nat :: i < j <= |posts| ==> At(posts, i).nanos != At(posts, j).nanos
  }

  /** No byte is zero, and no two writes have the same byte at the same position. */
  ghost predicate BytesDiffer(posts: seq<Post>) {
    && (forall i: nat, k: nat :: i <= |posts| && k < |At(posts, i).payload| ==> At(posts, i).payload[k] != 0)
    && forall i: nat, j: nat, k: nat ::
         i < j <= |posts| && k < |At(posts, i).payload| && k < |At(posts, j).payload| ==>
           At(posts, i).payload[k] != At(posts, j).payload[k]
  }

  /** When the times of the writes differ, the time read is that of the number exactly when it is
      current. */
  lemma TimeTells(posts: seq<Post>, tr: Trace)
    requires InOrder(posts, tr) && TimesDiffer(posts)
    ensures TimeFound(posts, tr.time) == At(posts, tr.number).nanos <==> TimeIsCurrent(tr)
  {
    var i := TimeIndex(Then(posts, tr.time));
    PrefixAt(posts, tr.time.count, i);
    assert i == tr.number <==> TimeIsCurrent(tr);
  }

  lemma ByteTells(posts: seq<Post>, place: Place, n: nat, k: nat)
    requires place.count <= |posts| && n <= |posts| && k < |At(posts, n).payload| && BytesDiffer(posts)
    requires Begun(place)
    ensures ByteFound(posts, place, k) == At(posts, n).payload[k] <==> Holds(place, n, k)
  {
    PrefixAt(posts, place.count, place.count);
    if place.count > 0 {
      PrefixAt(posts, place.count, place.count - 1);
    }
    var b := At(posts, n).payload[k];
    assert b != 0;
    forall i: nat | i <= |posts| ensures ByteOf(At(posts, i), k) == b <==> i == n {
    }
  }

  /** Whatever the bytes: when the times of the writes differ, a read is whole exactly when no write
      begins between its time load and its number load, its time is stored by then, and its length
      and bytes are those of the write counted at the number load. */
  lemma WholeIffTimeIsCurrent(posts: seq<Post>, tr: Trace)
    requires Finished(posts, tr) && TimesDiffer(posts)
    ensures Whole(posts, tr) <==> TimeIsCurrent(tr) && ReadFrom(posts, tr).payload == At(posts, tr.number).payload
  {
    TimeTells(posts, tr);
    hide TimeFound, ByteFound, LengthFound, TimesDiffer;
  }

  lemma PayloadTells(posts: seq<Post>, tr: Trace)
    requires Finished(posts, tr) && BytesDiffer(posts)
    ensures ReadFrom(posts, tr).payload == At(posts, tr.number).payload
       <==> LengthFound(posts, tr.length) == |At(posts, tr.number).payload| && BytesAreCurrent(tr)
  {
    var got, payload := ReadFrom(posts, tr).payload, At(posts, tr.number).payload;
    if |tr.bytes| == |payload| {
      forall k: nat | k < |tr.bytes| ensures got[k] == payload[k] <==> Holds(tr.bytes[k], tr.number, k) {
        ByteTells(posts, tr.bytes[k], tr.number, k);
      }
      hide ByteFound, LengthFound, TimeFound, BytesDiffer, Holds;
      assert BytesAreCurrent(tr) <==> forall k: nat :: k < |payload| ==> got[k] == payload[k];
    }
  }

  /** When the times differ and the bytes tell the writes apart, wholeness is a matter of places
      alone: the time is current, every byte was loaded while that write's byte was in memory, and
      the length loaded is the length of that write. */
  lemma WholeIffCurrent(posts: seq<Post>, tr: Trace)
    requires Finished(posts, tr) && TimesDiffer(posts) && BytesDiffer(posts)
    ensures Whole(posts, tr)
       <==> TimeIsCurrent(tr) && BytesAreCurrent(tr)
            && LengthFound(posts, tr.length) == |At(posts, tr.number).payload|
  {
    WholeIffTimeIsCurrent(posts, tr);
    PayloadTells(posts, tr);
    hide *;
  }

  /** In every interleaving, whatever is written: a read returns the write of its number exactly when
      the time, the length and the bytes in memory at its loads are those of that write. */
  lemma EveryReadWholeIffFound(labels: seq<Label>, i: nat)
    requires i < |TracedRun(TRACED_START, labels).finished|
    ensures var t := TracedRun(TRACED_START, labels);
            var s, tr := t.s, t.finished[i];
            && s == Run(Start(), labels) && |s.results| == |t.finished| && Finished(s.posts, tr)
            && (s.results[i] == Ok(MessageAt(s.posts, tr.number)) <==> FoundAgrees(s.posts, tr))
  {
    EveryReadIsTraced(labels);
    var t := TracedRun(TRACED_START, labels);
    hide TracedRun, Run, LengthFound, ReadFrom, FoundAgrees, Start;
    WholeIffFound(t.s.posts, t.finished[i]);
  }

  /** When the writes can be told apart, that is a matter of places alone. */
  lemma EveryReadWholeIff(labels: seq<Label>, i: nat)
    requires var t := TracedRun(TRACED_START, labels);
             i < |t.finished| && TimesDiffer(t.s.posts) && BytesDiffer(t.s.posts)
    ensures var t := TracedRun(TRACED_START, labels);
            var s, tr := t.s, t.finished[i];
            && s == Run(Start(), labels) && |s.results| == |t.finished| && Finished(s.posts, tr)
            && (s.results[i] == Ok(MessageAt(s.posts, tr.number)) <==>
                  TimeIsCurrent(tr) && BytesAreCurrent(tr)
                  && LengthFound(s.posts, tr.length) == |At(s.posts, tr.number).payload|)
  {
    EveryReadIsTraced(labels);
    var t := TracedRun(TRACED_START, labels);
    hide TracedRun, Run, TimesDiffer, BytesDiffer, LengthFound, ReadFrom, Start;
    WholeIffCurrent(t.s.posts, t.finished[i]);
  }

  // ---- a read torn between two writes ----

  /** Reads are torn by whole writes too: at each of the loads the page is whole, yet the time is that
      of the write before and the number that of the write in between, and the message is neither. */
  lemma TornBetweenWrites(s: State, post: Post)
    requires |s.mem| == MAPPING_SIZE && MemoryExact(s) && s.writer.WIdle? && s.reader.RIdle?
    requires Latest(s.posts).payload == [] && |post.payload| <= MAX_PAYLOAD
    ensures var m := Message((|s.posts| + 1) % B64, Latest(s.posts).nanos, []);
            && Run(s, Repeat(Reader, 2) + WriteSteps(post) + Repeat(Reader, 2)).results == s.results + [Ok(m)]
            && (post.nanos != Latest(s.posts).nanos || post.payload != [] ==> m != LatestMessage(s.posts + [post]))
    ensures ReadsWhole(s) && ReadsWhole(Run(s, Repeat(Reader, 1)))
    ensures ReadsWhole(Run(s, Repeat(Reader, 2) + WriteSteps(post)))
    ensures ReadsWhole(Run(s, Repeat(Reader, 2) + WriteSteps(post) + Repeat(Reader, 1)))
  {
    var s1, s2 := TwoLoads(s);
    StepExact(s, Reader);
    StepExact(s1, Reader);
    QuietWrite(s2, post);
    RunKeepsExact(s2, WriteSteps(post));
    var s3 := Run(s2, WriteSteps(post));
    var s4, s5 := TwoMoreLoads(s3);
    hide Run, Repeat, WriteSteps, MemoryExact, Step;
    RunAppend(s, Repeat(Reader, 2), WriteSteps(post));
    RunAppend(s, Repeat(Reader, 2) + WriteSteps(post), Repeat(Reader, 2));
    RunAppend(s, Repeat(Reader, 2) + WriteSteps(post), Repeat(Reader, 1));
  }

  lemma OneStep(s: State, l: Label)
    requires |s.mem| == MAPPING_SIZE
    ensures Run(s, Repeat(l, 1)) == Step(s, l) && Run(s, Repeat(l, 2)) == Step(Step(s, l), l)
  {
    hide Step;
    RunFirst(s, l, 1);
    RunFirst(s, l, 2);
    RunFirst(Step(s, l), l, 1);
    assert Repeat(l, 0) == [];
  }

  lemma TwoLoads(s: State) returns (s1: State, s2: State)
    requires |s.mem| == MAPPING_SIZE && MemoryExact(s) && s.writer.WIdle? && s.reader.RIdle?
    ensures s1 == Step(s, Reader) == Run(s, Repeat(Reader, 1)) && |s1.mem| == MAPPING_SIZE
    ensures s2 == Step(s1, Reader) == Run(s, Repeat(Reader, 2))
    ensures s1 == s.(reader := s1.reader)
    ensures s2 == s.(reader := GotTime(|Latest(s.posts).payload|, Latest(s.posts).nanos))
  {
    OneStep(s, Reader);
    s1 := ReaderStep(s);
    s2 := ReaderStep(s1);
    ExactHeader(s);
    hide HasValidHeader, LoadU32, SeqWord, TimeWord, MemoryExact, Run, Repeat;
  }

  lemma TwoMoreLoads(s: State) returns (s1: State, s2: State)
    requires |s.mem| == MAPPING_SIZE && MemoryExact(s) && s.writer.WIdle?
    requires s.reader.GotTime? && s.reader.length == 0
    ensures s1 == Run(s, Repeat(Reader, 1)) && s1 == s.(reader := s1.reader)
    ensures s2 == Run(s, Repeat(Reader, 2))
    ensures s2.results == s.results + [Ok(Message(|s.posts| % B64, s.reader.nanos, []))]
  {
    OneStep(s, Reader);
    s1 := ReaderStep(s);
    s2 := ReaderStep(s1);
    ExactHeader(s);
    hide HasValidHeader, LoadU32, SeqWord, TimeWord, MemoryExact, Run, Repeat;
  }

  // ---- what the watcher has of the latest write ----

  /** Index of the first result with this number, or how many results there are. */
  function FirstNumbered(results: seq<Result<Message, PageError>>, number: nat): (i: nat)
    ensures i <= |results|
    ensures i < |results| ==> results[i].Ok? && results[i].value.sequence == number
    ensures forall j :: 0 <= j < i && results[j].Ok? ==> results[j].value.sequence != number
  {
    if results == [] then 0
    else
      var init, last := results[..|results| - 1], results[|results| - 1];
      var i := FirstNumbered(init, number);
      if i < |init| || (last.Ok? && last.value.sequence == number) then i else |results|
  }

  /** The message printed last is the first one read under its number. */
  lemma {:induction false} LastPrintIsFirstRead(results: seq<Result<Message, PageError>>)
    requires forall i :: 0 <= i < |results| ==> results[i].Ok?
    requires forall i, j :: 0 <= i < j < |results| ==> results[i].value.sequence <= results[j].value.sequence
    ensures var w := WatcherOfReads(results);
            w.printed != [] ==>
              var i := FirstNumbered(results, w.lastSeq);
              i < |results| && w.printed[|w.printed| - 1] == results[i].value
  {
    if results != [] {
      var init, last := results[..|results| - 1], results[|results| - 1].value;
      LastPrintIsFirstRead(init);
      PrintsOfReads(init);
      var w := WatcherOfReads(init);
      if last.sequence != 0 && last.sequence != w.lastSeq {
        assert forall j :: 0 <= j < |init| ==> init[j].value.sequence <= w.lastSeq;
        var i := FirstNumbered(init, last.sequence);
        assert i == |init|;
      }
    }
  }

  ghost predicate LastPrintedIs(w: Runs.Watcher, m: Message) {
    w.printed != [] && w.printed[|w.printed| - 1] == m
  }

  lemma {:induction false} NumbersSorted(posts: seq<Post>, results: seq<Result<Message, PageError>>)
    requires ResultsKnown(posts, results)
    ensures forall i :: 0 <= i < |results| ==> results[i].Ok?
    ensures forall i, j :: 0 <= i < j < |results| ==> results[i].value.sequence <= results[j].value.sequence
  {
    hide ExplainedSince;
    forall i, j | 0 <= i < j < |results| ensures results[i].value.sequence <= results[j].value.sequence {
      NumbersNeverDrop(posts, results, i, j);
    }
  }

  /** What a watcher has of the latest write after the results so far and m. */
  ghost predicate CatchesUpIff(results: seq<Result<Message, PageError>>, more: seq<Result<Message, PageError>>,
                               m: Message)
  {
    var w, w', i := WatcherOfReads(results), WatcherOfReads(more), FirstNumbered(results, m.sequence);
    && (LastPrintedIs(w', m) <==> w.lastSeq != m.sequence || LastPrintedIs(w, m))
    && (LastPrintedIs(w', m) <==> i == |results| || results[i] == Ok(m))
  }

  lemma LastSeenIsLastRead(results: seq<Result<Message, PageError>>, number: nat)
    requires forall i :: 0 <= i < |results| ==> results[i].Ok? && results[i].value.sequence <= number
    requires forall i, j :: 0 <= i < j < |results| ==> results[i].value.sequence <= results[j].value.sequence
    requires number != 0
    ensures WatcherOfReads(results).lastSeq == number <==> FirstNumbered(results, number) < |results|
  {
    PrintsOfReads(results);
    var i := FirstNumbered(results, number);
    hide WatcherOfReads, FirstNumbered;
    if i < |results| {
      assert number == results[i].value.sequence <= results[|results| - 1].value.sequence;
    } else if results != [] {
      assert results[|results| - 1].value.sequence != number;
    }
  }

  lemma WatcherSnoc(results: seq<Result<Message, PageError>>, m: Message)
    ensures WatcherOfReads(results + [Ok(m)]) == Runs.Seen(WatcherOfReads(results), m)
  {
    assert (results + [Ok(m)])[..|results|] == results;
  }

  /** What is printed last after one more look at m. */
  lemma OneMoreLook(w: Runs.Watcher, m: Message)
    requires m.sequence != 0
    ensures LastPrintedIs(Runs.Seen(w, m), m) <==> w.lastSeq != m.sequence || LastPrintedIs(w, m)
  {}

  /** One more result m, with a number no read so far has exceeded. */
  lemma OneMoreRead(results: seq<Result<Message, PageError>>, m: Message)
    requires forall i :: 0 <= i < |results| ==> results[i].Ok? && results[i].value.sequence <= m.sequence
    requires forall i, j :: 0 <= i < j < |results| ==> results[i].value.sequence <= results[j].value.sequence
    requires m.sequence != 0
    ensures CatchesUpIff(results, results + [Ok(m)], m)
  {
    LastSeenIsLastRead(results, m.sequence);
    LastPrintIsFirstRead(results);
    PrintsOfReads(results);
    WatcherSnoc(results, m);
    OneMoreLook(WatcherOfReads(results), m);
    hide WatcherOfReads, FirstNumbered, Increasing, Runs.Seen;
  }

  lemma QuietResults(s: State)
    requires |s.mem| == MAPPING_SIZE && MemoryExact(s) && s.writer.WIdle? && s.reader.RIdle?
    ensures Run(s, Repeat(Reader, |Latest(s.posts).payload| + 4)).results == s.results + [Ok(LatestMessage(s.posts))]
  {
    QuietRead(s);
    hide Run, MemoryExact, Repeat;
  }

  lemma LatestNumber(posts: seq<Post>)
    requires posts != [] && |posts| < B64
    ensures LatestMessage(posts).sequence == |posts| != 0
  {}

  lemma ResultsCatchUpIff(posts: seq<Post>, results: seq<Result<Message, PageError>>)
    requires ResultsKnown(posts, results) && posts != [] && |posts| < B64
    ensures CatchesUpIff(results, results + [Ok(LatestMessage(posts))], LatestMessage(posts))
  {
    LatestNumber(posts);
    NumbersBounded(posts, results);
    NumbersSorted(posts, results);
    hide ResultsKnown, CatchesUpIff, LatestMessage;
    OneMoreRead(results, LatestMessage(posts));
  }

  /** In every interleaving with fewer than 2^64 writes, once writer and reader are idle: after one
      more read the last message printed is the latest write exactly when the watcher had not yet
      come to its number, or had it already; that is, when the first read that got its number, if
      there was one, was whole. A torn first read hides the write for good. */
  lemma WatcherCatchesUpIff(labels: seq<Label>)
    requires var s := Run(Start(), labels);
             s.posts != [] && |s.posts| < B64 && s.writer.WIdle? && s.reader.RIdle?
    ensures var s := Run(Start(), labels);
            var again := Run(s, Repeat(Reader, |Latest(s.posts).payload| + 4));
            CatchesUpIff(s.results, again.results, LatestMessage(s.posts))
  {
    ReadsAreExplained(labels);
    StartExact();
    RunKeepsExact(Start(), labels);
    var s := Run(Start(), labels);
    ResultsCatchUpIff(s.posts, s.results);
    QuietResults(s);
    hide Run, MemoryExact, CatchesUpIff, ResultsKnown, Start, Repeat;
  }

  lemma NumbersBounded(posts: seq<Post>, results: seq<Result<Message, PageError>>)
    requires ResultsKnown(posts, results)
    ensures forall i :: 0 <= i < |results| ==> results[i].Ok? && results[i].value.sequence <= |posts|
  {
    hide ExplainedSince;
    forall i | 0 <= i < |results| ensures results[i].value.sequence <= |posts| {
      ExplainedNumber(posts, Floor(results, i), results[i].value);
    }
  }
}
