/** The same page at the grain of single stores and loads: one writer and one reader, every word
    and every payload byte a step of its own, in any interleaving. Memory is sequentially
    consistent and word accesses are atomic. */
module SharedMemorySteps {
  import opened Words
  import opened SharedMemory

  datatype WriterPc =
    | WIdle
    | StoredSeq(post: Post)
    | StoredTime(post: Post)
    | Clearing(post: Post, next: nat)
    | Copying(post: Post, next: nat)

  datatype ReaderPc =
    | RIdle
    | GotLength(length: nat)
    | GotTime(length: nat, nanos: I64)
    | GotSeq(length: nat, nanos: I64, sequence: U64, got: seq<Byte>)

  /** posts lists the writes begun so far; results lists what the reader's calls returned. */
  datatype State = State(mem: seq<Byte>, writer: WriterPc, reader: ReaderPc, posts: seq<Post>,
                         results: seq<Result<Message, PageError>>)

  datatype Label = Begin(post: Post) | Writer | Reader

  function Start(): State {
    State(Page(0, NO_POST), WIdle, RIdle, [], [])
  }

  /** One step; a label that is not enabled, and a write that is rejected, change nothing. */
  function Step(s: State, l: Label): (s': State)
    requires |s.mem| == MAPPING_SIZE
    ensures |s'.mem| == MAPPING_SIZE
  {
    match l
    case Begin(post) =>
      if s.writer.WIdle? && HasValidHeader(s.mem) && |post.payload| <= MAX_PAYLOAD then
        s.(mem := Patch(s.mem, SEQ_OFFSET, Put(Little, 8, (SeqWord(s.mem) + 1) % B64)),
           writer := StoredSeq(post), posts := s.posts + [post])
      else s
    case Writer => WriterStep(s)
    case Reader => ReaderStep(s)
  }

  function WriterStep(s: State): (s': State)
    requires |s.mem| == MAPPING_SIZE
    ensures |s'.mem| == MAPPING_SIZE
  {
    match s.writer
    case WIdle => s
    case StoredSeq(post) =>
      s.(mem := Patch(s.mem, TIME_OFFSET, Put(Little, 8, I64ToU64(post.nanos))), writer := StoredTime(post))
    case StoredTime(post) =>
      s.(mem := Patch(s.mem, LEN_OFFSET, Put(Little, 4, |post.payload|)), writer := Clearing(post, 0))
    case Clearing(post, i) =>
      if i < MAX_PAYLOAD then s.(mem := s.mem[PAYLOAD_OFFSET + i := 0], writer := Clearing(post, i + 1))
      else s.(writer := Copying(post, 0))
    case Copying(post, i) =>
      if i < |post.payload| && i < MAX_PAYLOAD
      then s.(mem := s.mem[PAYLOAD_OFFSET + i := post.payload[i]], writer := Copying(post, i + 1))
      else s.(writer := WIdle)
  }

  function ReaderStep(s: State): (s': State)
    requires |s.mem| == MAPPING_SIZE
    ensures s'.mem == s.mem
  {
    match s.reader
    case RIdle =>
      if !HasValidHeader(s.mem) then s.(results := s.results + [Err(InvalidMapping)])
      else
        var length := LoadU32(Little, s.mem, LEN_OFFSET);
        if length > MAX_PAYLOAD then s.(results := s.results + [Err(TooLong(length))])
        else s.(reader := GotLength(length))
    case GotLength(length) => s.(reader := GotTime(length, TimeWord(s.mem)))
    case GotTime(length, nanos) => s.(reader := GotSeq(length, nanos, SeqWord(s.mem), []))
    case GotSeq(length, nanos, sequence, got) =>
      if |got| < length && |got| < MAX_PAYLOAD
      then s.(reader := GotSeq(length, nanos, sequence, got + [s.mem[PAYLOAD_OFFSET + |got|]]))
      else s.(reader := RIdle, results := s.results + [Ok(Message(sequence, nanos, got))])
  }

  function Run(s: State, labels: seq<Label>): (s': State)
    requires |s.mem| == MAPPING_SIZE
    ensures |s'.mem| == MAPPING_SIZE
    decreases |labels|
  {
    if labels == [] then s else Run(Step(s, labels[0]), labels[1..])
  }

  // ---- what the memory holds at every moment ----

  /** The payload area after a post: its bytes, then zeros. */
  function ByteOf(p: Post, k: nat): Byte {
    if k < |p.payload| then p.payload[k] else 0
  }

  /** Number of the write whose time, or length, is in memory: all but the newest words are stored
      after its sequence number. */
  function TimeIndex(s: State): nat
  {
    if s.writer.StoredSeq? && s.posts != [] then |s.posts| - 1 else |s.posts|
  }

  function LengthIndex(s: State): nat {
    if (s.writer.StoredSeq? || s.writer.StoredTime?) && s.posts != [] then |s.posts| - 1 else |s.posts|
  }

  function AreaByte(s: State, k: nat): Byte {
    var n := |s.posts|;
    match s.writer
    case WIdle => ByteOf(At(s.posts, n), k)
    case StoredSeq(_) => ByteOf(At(s.posts, LengthIndex(s)), k)
    case StoredTime(_) => ByteOf(At(s.posts, LengthIndex(s)), k)
    case Clearing(_, i) => if k < i || n == 0 then 0 else ByteOf(At(s.posts, n - 1), k)
    case Copying(_, i) => if k < i then ByteOf(At(s.posts, n), k) else 0
  }

  function Area(s: State): (a: seq<Byte>)
    ensures |a| == MAX_PAYLOAD
  {
    seq(MAX_PAYLOAD, k requires 0 <= k < MAX_PAYLOAD => AreaByte(s, k))
  }

  ghost predicate AllAccepted(posts: seq<Post>) {
    forall i :: 0 <= i < |posts| ==> |posts[i].payload| <= MAX_PAYLOAD
  }

  /** Memory is determined by the writes begun and the place the writer has reached. */
  ghost predicate MemoryExact(s: State) {
    && AllAccepted(s.posts)
    && (!s.writer.WIdle? ==> s.posts != [] && s.writer.post == s.posts[|s.posts| - 1])
    && (s.writer.Clearing? ==> s.writer.next <= MAX_PAYLOAD)
    && (s.writer.Copying? ==> s.writer.next <= |s.writer.post.payload|)
    && s.mem == PageHeader(|s.posts|, At(s.posts, TimeIndex(s)).nanos, |At(s.posts, LengthIndex(s)).payload|) + Area(s)
  }

  lemma StartExact()
    ensures MemoryExact(Start())
  {
    assert Area(Start()) == [] + Zeros(MAX_PAYLOAD);
  }

  lemma PatchHeader(count: nat, nanos: I64, length: nat, area: seq<Byte>, count': nat, nanos': I64, length': nat)
    requires |area| == MAX_PAYLOAD
    ensures var m := PageHeader(count, nanos, length) + area;
            && Patch(m, SEQ_OFFSET, Put(Little, 8, count' % B64)) == PageHeader(count', nanos, length) + area
            && Patch(m, TIME_OFFSET, Put(Little, 8, I64ToU64(nanos'))) == PageHeader(count, nanos', length) + area
            && Patch(m, LEN_OFFSET, Put(Little, 4, length')) == PageHeader(count, nanos, length') + area
  {
    hide Put;
  }

  lemma BeginExact(s: State, post: Post)
    requires MemoryExact(s)
    ensures MemoryExact(Step(s, Begin(post)))
  {
    hide PageHeader, Put, Get;
    var s' := Step(s, Begin(post));
    var n, nanos, length := |s.posts|, At(s.posts, TimeIndex(s)).nanos, |At(s.posts, LengthIndex(s)).payload|;
    if s' != s {
      HeaderWords(n, nanos, length, Area(s));
      PatchHeader(n, nanos, length, Area(s), n + 1, 0, 0);
      assert (SeqWord(s.mem) + 1) % B64 == (n + 1) % B64;
      assert At(s'.posts, n) == At(s.posts, n);
      assert Area(s') == Area(s);
    }
  }

  lemma WriterWordsExact(s: State)
    requires MemoryExact(s) && (s.writer.StoredSeq? || s.writer.StoredTime?)
    ensures MemoryExact(WriterStep(s))
  {
    hide PageHeader, Put, Get;
    var s' := WriterStep(s);
    var n := |s.posts|;
    PatchHeader(n, At(s.posts, TimeIndex(s)).nanos, |At(s.posts, LengthIndex(s)).payload|, Area(s),
                0, s.writer.post.nanos, |s.writer.post.payload|);
    assert At(s.posts, n) == s.writer.post;
    assert Area(s') == Area(s);
  }

  lemma StoreAreaByte(header: seq<Byte>, area: seq<Byte>, i: nat, b: Byte)
    requires |header| == PAYLOAD_OFFSET && |area| == MAX_PAYLOAD && i < MAX_PAYLOAD
    ensures (header + area)[PAYLOAD_OFFSET + i := b] == header + area[i := b]
  {}

  lemma WriterBytesExact(s: State)
    requires MemoryExact(s) && (s.writer.WIdle? || s.writer.Clearing? || s.writer.Copying?)
    ensures MemoryExact(WriterStep(s))
  {
    hide PageHeader, Put, Get;
    var s', n := WriterStep(s), |s.posts|;
    if s.writer.Clearing? {
      var i := s.writer.next;
      if i < MAX_PAYLOAD {
        StoreAreaByte(PageHeader(n, At(s.posts, TimeIndex(s)).nanos, |At(s.posts, LengthIndex(s)).payload|), Area(s), i,
                      0);
        assert Area(s') == Area(s)[i := 0];
      } else {
        assert Area(s') == Area(s);
      }
    } else if s.writer.Copying? {
      var i := s.writer.next;
      if i < |s.writer.post.payload| {
        StoreAreaByte(PageHeader(n, At(s.posts, TimeIndex(s)).nanos, |At(s.posts, LengthIndex(s)).payload|), Area(s), i,
                      s.writer.post.payload[i]);
        assert Area(s') == Area(s)[i := s.writer.post.payload[i]];
      } else {
        assert Area(s') == Area(s);
      }
    }
  }

  lemma ExactSize(s: State)
    requires MemoryExact(s)
    ensures |s.mem| == MAPPING_SIZE
  {}

  lemma ReaderExact(s: State)
    requires MemoryExact(s)
    ensures MemoryExact(ReaderStep(s))
  {
    hide PageHeader, Put, Get, HasValidHeader;
    assert Area(ReaderStep(s)) == Area(s);
  }

  lemma StepExact(s: State, l: Label)
    requires MemoryExact(s)
    ensures MemoryExact(Step(s, l))
  {
    match l
    case Begin(post) => BeginExact(s, post);
    case Writer => if s.writer.StoredSeq? || s.writer.StoredTime? { WriterWordsExact(s); } else { WriterBytesExact(s); }
    case Reader => ReaderExact(s);
  }

  // ---- what the reader can have seen ----

  /** A byte the reader may find at k once the number of write l is in memory: cleared, or stored
      by write l - 1 or a later one. */
  ghost predicate ByteFrom(posts: seq<Post>, l: nat, k: nat, b: Byte) {
    b == 0 || exists i: nat :: l <= i + 1 && i <= |posts| && b == ByteOf(At(posts, i), k)
  }

  /** The length was stored by write l. */
  ghost predicate LengthFrom(posts: seq<Post>, l: nat, length: nat) {
    l <= |posts| && length == |At(posts, l).payload|
  }

  /** The time was stored by write j. */
  ghost predicate TimeFrom(posts: seq<Post>, j: nat, nanos: I64) {
    j <= |posts| && nanos == At(posts, j).nanos
  }

  /** A length stored by some write l from floor - 1 up to last. */
  ghost predicate LengthKnown(posts: seq<Post>, floor: nat, last: nat, length: nat) {
    exists l: nat :: floor <= l + 1 && l <= last && LengthFrom(posts, l, length)
  }

  /** ... and a time stored by that write or a later one, up to last. */
  ghost predicate Sourced(posts: seq<Post>, floor: nat, last: nat, length: nat, nanos: I64) {
    exists j: nat :: j <= last && LengthKnown(posts, floor, j, length) && TimeFrom(posts, j, nanos)
  }

  ghost predicate SeenBytes(posts: seq<Post>, l: nat, got: seq<Byte>) {
    forall k :: 0 <= k < |got| ==> ByteFrom(posts, l, k, got[k])
  }

  /** A message with number s, read when the reader had already returned number floor: s is no less
      than floor, its length and time are those of writes no later than s, the length of none later
      than the time and none older than write floor - 1, and no payload byte is older than write
      s - 1. */
  ghost predicate ExplainedSince(posts: seq<Post>, floor: nat, m: Message) {
    && floor <= m.sequence <= |posts| && SeenBytes(posts, m.sequence, m.payload)
    && Sourced(posts, floor, m.sequence, |m.payload|, m.nanos)
  }

  /** The number of the last message among the first i results. */
  function Floor(results: seq<Result<Message, PageError>>, i: nat): nat
    requires i <= |results|
  {
    if i == 0 || results[i - 1].Err? then 0 else results[i - 1].value.sequence
  }

  ghost predicate ReaderKnows(s: State) {
    var n, floor := |s.posts|, Floor(s.results, |s.results|);
    match s.reader
    case RIdle => true
    case GotLength(length) => LengthKnown(s.posts, floor, TimeIndex(s), length)
    case GotTime(length, nanos) => Sourced(s.posts, floor, n, length, nanos)
    case GotSeq(length, nanos, sequence, got) =>
      && |got| <= length && floor <= sequence <= n && SeenBytes(s.posts, sequence, got)
      && Sourced(s.posts, floor, sequence, length, nanos)
  }

  /** Every read so far succeeded with a message explained by the writes and the read before it. */
  ghost predicate ResultsKnown(posts: seq<Post>, results: seq<Result<Message, PageError>>) {
    forall i :: 0 <= i < |results| ==>
      results[i].Ok? && ExplainedSince(posts, Floor(results, i), results[i].value)
  }

  ghost predicate Invariant(s: State) {
    MemoryExact(s) && ReaderKnows(s) && ResultsKnown(s.posts, s.results)
  }

  // Beginning another write changes nothing about the earlier ones.

  lemma LengthKnownGrows(posts: seq<Post>, p: Post, floor: nat, last: nat, length: nat)
    requires LengthKnown(posts, floor, last, length)
    ensures LengthKnown(posts + [p], floor, last, length)
  {
    var l: nat :| floor <= l + 1 && l <= last && LengthFrom(posts, l, length);
    assert LengthFrom(posts + [p], l, length);
  }

  lemma SourcedGrows(posts: seq<Post>, p: Post, floor: nat, last: nat, length: nat, nanos: I64)
    requires Sourced(posts, floor, last, length, nanos)
    ensures Sourced(posts + [p], floor, last, length, nanos)
  {
    hide LengthKnown;
    var j: nat :| j <= last && LengthKnown(posts, floor, j, length) && TimeFrom(posts, j, nanos);
    LengthKnownGrows(posts, p, floor, j, length);
    assert TimeFrom(posts + [p], j, nanos);
  }

  lemma SourcedLater(posts: seq<Post>, floor: nat, last: nat, later: nat, length: nat, nanos: I64)
    requires Sourced(posts, floor, last, length, nanos) && last <= later
    ensures Sourced(posts, floor, later, length, nanos)
  {
    hide LengthKnown;
  }

  lemma SeenBytesGrow(posts: seq<Post>, p: Post, l: nat, got: seq<Byte>)
    requires SeenBytes(posts, l, got)
    ensures SeenBytes(posts + [p], l, got)
  {
    forall k | 0 <= k < |got| ensures ByteFrom(posts + [p], l, k, got[k]) {
      assert ByteFrom(posts, l, k, got[k]);
      if got[k] != 0 {
        var i: nat :| l <= i + 1 && i <= |posts| && got[k] == ByteOf(At(posts, i), k);
        assert At(posts + [p], i) == At(posts, i);
      }
    }
  }

  lemma ExplainedGrows(posts: seq<Post>, p: Post, floor: nat, m: Message)
    requires ExplainedSince(posts, floor, m)
    ensures ExplainedSince(posts + [p], floor, m)
  {
    SourcedGrows(posts, p, floor, m.sequence, |m.payload|, m.nanos);
    SeenBytesGrow(posts, p, m.sequence, m.payload);
  }

  lemma PostKeepsResults(posts: seq<Post>, p: Post, results: seq<Result<Message, PageError>>)
    requires ResultsKnown(posts, results)
    ensures ResultsKnown(posts + [p], results)
  {
    hide ExplainedSince;
    forall i | 0 <= i < |results| ensures ExplainedSince(posts + [p], Floor(results, i), results[i].value) {
      ExplainedGrows(posts, p, Floor(results, i), results[i].value);
    }
  }

  lemma ResultAdded(posts: seq<Post>, results: seq<Result<Message, PageError>>, m: Message)
    requires ResultsKnown(posts, results) && ExplainedSince(posts, Floor(results, |results|), m)
    ensures ResultsKnown(posts, results + [Ok(m)])
  {
    hide ExplainedSince;
    var all := results + [Ok(m)];
    forall i | 0 <= i < |all| ensures all[i].Ok? && ExplainedSince(posts, Floor(all, i), all[i].value) {
      assert Floor(all, i) == Floor(results, i);
    }
  }

  lemma BeginKeepsKnowledge(s: State, post: Post)
    requires Invariant(s)
    ensures var s' := Step(s, Begin(post)); ReaderKnows(s') && ResultsKnown(s'.posts, s'.results)
  {
    ExactSize(s);
    hide Patch, Put, Get, HasValidHeader, SeqWord, MemoryExact, ResultsKnown, Sourced, LengthKnown, SeenBytes;
    var s' := Step(s, Begin(post));
    if s' != s {
      PostKeepsResults(s.posts, post, s.results);
      BeginKeepsReader(s, post);
    }
  }

  lemma BeginKeepsReader(s: State, post: Post)
    requires Invariant(s) && s.writer.WIdle?
    ensures ReaderKnows(s.(posts := s.posts + [post], writer := StoredSeq(post)))
  {
    hide MemoryExact, ResultsKnown, Sourced, LengthKnown, SeenBytes;
    var posts, floor := s.posts, Floor(s.results, |s.results|);
    match s.reader
    case RIdle =>
    case GotLength(length) => LengthKnownGrows(posts, post, floor, |posts|, length);
    case GotTime(length, nanos) =>
      SourcedGrows(posts, post, floor, |posts|, length, nanos);
      SourcedLater(posts + [post], floor, |posts|, |posts| + 1, length, nanos);
    case GotSeq(length, nanos, sequence, got) =>
      SourcedGrows(posts, post, floor, sequence, length, nanos);
      SeenBytesGrow(posts, post, sequence, got);
  }

  lemma WriterKeepsKnowledge(s: State)
    requires Invariant(s)
    ensures var s' := WriterStep(s); ReaderKnows(s') && ResultsKnown(s'.posts, s'.results)
  {
    hide Patch, Put, Get, ResultsKnown, Sourced, SeenBytes;
    var s' := WriterStep(s);
    assert TimeIndex(s) <= TimeIndex(s');
  }

  /** In memory, the length is never of a later write than the time, and at most one behind. */
  lemma IndicesOrdered(s: State)
    ensures LengthIndex(s) <= TimeIndex(s) <= |s.posts| <= LengthIndex(s) + 1
  {}

  lemma AreaByteFrom(s: State, l: nat, k: nat)
    requires MemoryExact(s) && l <= |s.posts| && k < MAX_PAYLOAD
    ensures ByteFrom(s.posts, l, k, AreaByte(s, k))
  {
    var n := |s.posts|;
    assert AreaByte(s, k) == 0 || AreaByte(s, k) == ByteOf(At(s.posts, n), k)
        || (n > 0 && AreaByte(s, k) == ByteOf(At(s.posts, n - 1), k));
  }

  /** What the loads of the header find. */
  ghost predicate HeaderLoads(s: State) {
    && |s.mem| == MAPPING_SIZE && HasValidHeader(s.mem) && SeqWord(s.mem) == |s.posts| % B64
    && TimeWord(s.mem) == At(s.posts, TimeIndex(s)).nanos
    && LoadU32(Little, s.mem, LEN_OFFSET) == |At(s.posts, LengthIndex(s)).payload| <= MAX_PAYLOAD
  }

  lemma ExactHeader(s: State)
    requires MemoryExact(s)
    ensures HeaderLoads(s) && AllAccepted(s.posts)
  {
    hide PageHeader, HasValidHeader, LoadU32, SeqWord, TimeWord, Area;
    HeaderWords(|s.posts|, At(s.posts, TimeIndex(s)).nanos, |At(s.posts, LengthIndex(s)).payload|, Area(s));
  }

  lemma FloorBounded(posts: seq<Post>, results: seq<Result<Message, PageError>>)
    requires ResultsKnown(posts, results)
    ensures Floor(results, |results|) <= |posts|
  {}

  lemma LengthLoadKnows(s: State)
    requires HeaderLoads(s) && ReaderKnows(s) && ResultsKnown(s.posts, s.results) && s.reader.RIdle?
    ensures ReaderKnows(ReaderStep(s))
  {
    IndicesOrdered(s);
    FloorBounded(s.posts, s.results);
    hide HasValidHeader, LoadU32, SeqWord, TimeWord, ResultsKnown, Floor;
    var s', l := ReaderStep(s), LengthIndex(s);
    hide TimeIndex, LengthIndex;
    assert LengthFrom(s.posts, l, s'.reader.length) && Floor(s.results, |s.results|) <= l + 1;
  }

  lemma TimeLoadKnows(s: State)
    requires HeaderLoads(s) && ReaderKnows(s) && ResultsKnown(s.posts, s.results) && s.reader.GotLength?
    ensures ReaderKnows(ReaderStep(s))
  {
    IndicesOrdered(s);
    hide HasValidHeader, LoadU32, SeqWord, TimeWord, ResultsKnown, Floor, TimeIndex, LengthIndex, LengthKnown;
    assert TimeFrom(s.posts, TimeIndex(s), At(s.posts, TimeIndex(s)).nanos);
  }

  lemma NumberLoad(s: State)
    requires HeaderLoads(s) && |s.posts| < B64 && s.reader.GotTime?
    ensures ReaderStep(s) == s.(reader := GotSeq(s.reader.length, s.reader.nanos, |s.posts|, []))
  {
    hide HasValidHeader, LoadU32, SeqWord, TimeWord;
  }

  lemma NumberLoadKnows(s: State)
    requires HeaderLoads(s) && ReaderKnows(s) && ResultsKnown(s.posts, s.results)
    requires |s.posts| < B64 && s.reader.GotTime?
    ensures ReaderKnows(ReaderStep(s))
  {
    NumberLoad(s);
    FloorBounded(s.posts, s.results);
    NothingSeen(s.posts, |s.posts|);
    hide HeaderLoads, ReaderStep, ResultsKnown, Floor, TimeIndex, Sourced, SeenBytes;
  }

  lemma NothingSeen(posts: seq<Post>, l: nat)
    ensures SeenBytes(posts, l, [])
  {}

  lemma MemoryByte(s: State, k: nat)
    requires MemoryExact(s) && k < MAX_PAYLOAD
    ensures |s.mem| == MAPPING_SIZE && s.mem[PAYLOAD_OFFSET + k] == AreaByte(s, k)
  {
    hide PageHeader, AreaByte;
  }

  lemma SeenByteAdded(posts: seq<Post>, l: nat, got: seq<Byte>, b: Byte)
    requires SeenBytes(posts, l, got) && ByteFrom(posts, l, |got|, b)
    ensures SeenBytes(posts, l, got + [b])
  {
    hide ByteFrom;
  }

  lemma ReaderByteKnown(s: State)
    requires Invariant(s) && s.reader.GotSeq? && |s.reader.got| < s.reader.length && |s.reader.got| < MAX_PAYLOAD
    ensures ReaderKnows(ReaderStep(s))
  {
    var sequence, got, k := s.reader.sequence, s.reader.got, |s.reader.got|;
    MemoryByte(s, k);
    AreaByteFrom(s, sequence, k);
    SeenByteAdded(s.posts, sequence, got, AreaByte(s, k));
    hide MemoryExact, ResultsKnown, SeenBytes, Sourced, AreaByte, HasValidHeader, LoadU32, SeqWord, TimeWord, Floor;
  }

  lemma SourcedFits(posts: seq<Post>, floor: nat, last: nat, length: nat, nanos: I64)
    requires AllAccepted(posts) && Sourced(posts, floor, last, length, nanos)
    ensures length <= MAX_PAYLOAD
  {
    var j: nat :| j <= last && LengthKnown(posts, floor, j, length) && TimeFrom(posts, j, nanos);
    var l: nat :| floor <= l + 1 && l <= j && LengthFrom(posts, l, length);
    assert |At(posts, l).payload| <= MAX_PAYLOAD;
  }

  lemma ReaderResultKnown(s: State)
    requires |s.mem| == MAPPING_SIZE && AllAccepted(s.posts) && ReaderKnows(s) && ResultsKnown(s.posts, s.results)
    requires s.reader.GotSeq? && !(|s.reader.got| < s.reader.length && |s.reader.got| < MAX_PAYLOAD)
    ensures var s' := ReaderStep(s); ReaderKnows(s') && ResultsKnown(s'.posts, s'.results)
  {
    var sequence, floor := s.reader.sequence, Floor(s.results, |s.results|);
    SourcedFits(s.posts, floor, sequence, s.reader.length, s.reader.nanos);
    hide AllAccepted, ResultsKnown, SeenBytes, Sourced, Floor, HasValidHeader, LoadU32, SeqWord, TimeWord;
    ResultAdded(s.posts, s.results, Message(sequence, s.reader.nanos, s.reader.got));
  }

  lemma LoadKeepsResults(s: State)
    requires HeaderLoads(s)
    requires s.reader.GotSeq? ==> |s.reader.got| < s.reader.length && |s.reader.got| < MAX_PAYLOAD
    ensures ReaderStep(s).results == s.results && ReaderStep(s).posts == s.posts
  {}

  lemma ReaderKeepsKnowledge(s: State)
    requires Invariant(s) && |s.posts| < B64
    ensures var s' := ReaderStep(s); ReaderKnows(s') && ResultsKnown(s'.posts, s'.results)
  {
    ExactHeader(s);
    hide *;
    if s.reader.GotSeq? ==> |s.reader.got| < s.reader.length && |s.reader.got| < MAX_PAYLOAD {
      LoadKeepsResults(s);
    }
    if s.reader.RIdle? {
      LengthLoadKnows(s);
    } else if s.reader.GotLength? {
      TimeLoadKnows(s);
    } else if s.reader.GotTime? {
      NumberLoadKnows(s);
    } else if |s.reader.got| < s.reader.length && |s.reader.got| < MAX_PAYLOAD {
      ReaderByteKnown(s);
    } else {
      ReaderResultKnown(s);
    }
  }

  lemma StepKeepsInvariant(s: State, l: Label)
    requires Invariant(s) && |Step(s, l).posts| < B64
    ensures Invariant(Step(s, l))
  {
    StepExact(s, l);
    hide MemoryExact, ReaderKnows, ResultsKnown, Patch, Put, Get;
    match l
    case Begin(post) => BeginKeepsKnowledge(s, post);
    case Writer => WriterKeepsKnowledge(s);
    case Reader => ReaderKeepsKnowledge(s);
  }

  lemma PostsOnlyGrow(s: State, l: Label)
    requires |s.mem| == MAPPING_SIZE
    ensures |s.posts| <= |Step(s, l).posts|
  {}

  lemma {:induction false} RunGrows(s: State, labels: seq<Label>)
    requires |s.mem| == MAPPING_SIZE
    ensures |s.posts| <= |Run(s, labels).posts|
    decreases |labels|
  {
    if labels != [] {
      PostsOnlyGrow(s, labels[0]);
      hide Step;
      RunGrows(Step(s, labels[0]), labels[1..]);
    }
  }

  lemma {:induction false} RunKeepsInvariant(s: State, labels: seq<Label>)
    requires |s.mem| == MAPPING_SIZE && Invariant(s) && |Run(s, labels).posts| < B64
    ensures Invariant(Run(s, labels))
    decreases |labels|
  {
    hide Step, Invariant;
    if labels != [] {
      RunGrows(Step(s, labels[0]), labels[1..]);
      StepKeepsInvariant(s, labels[0]);
      RunKeepsInvariant(Step(s, labels[0]), labels[1..]);
    }
  }

  lemma StartInvariant()
    ensures Invariant(Start())
  {
    StartExact();
  }

  // ---- the main results ----

  lemma ExplainedNumber(posts: seq<Post>, floor: nat, m: Message)
    requires ExplainedSince(posts, floor, m)
    ensures floor <= m.sequence <= |posts|
  {}

  lemma {:induction false} NumbersNeverDrop(posts: seq<Post>, results: seq<Result<Message, PageError>>, i: nat, j: nat)
    requires ResultsKnown(posts, results) && i <= j < |results|
    ensures results[i].value.sequence <= results[j].value.sequence
    decreases j
  {
    hide ExplainedSince;
    if i < j {
      NumbersNeverDrop(posts, results, i, j - 1);
      ExplainedNumber(posts, Floor(results, j), results[j].value);
    }
  }

  /** In every interleaving with fewer than 2^64 writes: no read fails, the numbers read never
      decrease, and each message is explained by writes no later than its number and no older than
      the messages before it allow. */
  lemma ReadsAreExplained(labels: seq<Label>)
    requires |Run(Start(), labels).posts| < B64
    ensures var s := Run(Start(), labels);
            && ResultsKnown(s.posts, s.results)
            && (forall i :: 0 <= i < |s.results| ==> s.results[i].Ok?)
            && (forall i, j :: 0 <= i < j < |s.results| ==>
                  s.results[i].value.sequence <= s.results[j].value.sequence)
  {
    StartInvariant();
    hide Step;
    RunKeepsInvariant(Start(), labels);
    var s := Run(Start(), labels);
    forall i, j | 0 <= i < j < |s.results| ensures s.results[i].value.sequence <= s.results[j].value.sequence {
      NumbersNeverDrop(s.posts, s.results, i, j);
    }
  }

  function Repeat(l: Label, n: nat): (r: seq<Label>)
    ensures |r| == n
  {
    seq(n, _ => l)
  }

  lemma {:induction false} RunAppend(s: State, a: seq<Label>, b: seq<Label>)
    requires |s.mem| == MAPPING_SIZE
    ensures Run(s, a + b) == Run(Run(s, a), b)
    decreases |a|
  {
    hide Step;
    if a == [] {
      assert a + b == b;
    } else {
      assert (a + b)[1..] == a[1..] + b;
      RunAppend(Step(s, a[0]), a[1..], b);
    }
  }

  lemma RunFirst(s: State, l: Label, n: nat)
    requires |s.mem| == MAPPING_SIZE && n > 0
    ensures Run(s, Repeat(l, n)) == Run(Step(s, l), Repeat(l, n - 1))
  {
    assert Repeat(l, n)[1..] == Repeat(l, n - 1);
  }

  /** The memory between two writes is the page of the last one. */
  lemma IdleMemoryIsPage(s: State)
    requires MemoryExact(s) && s.writer.WIdle?
    ensures var last := At(s.posts, |s.posts|);
            |last.payload| <= MAX_PAYLOAD && s.mem == Page(|s.posts|, last)
  {
    hide PageHeader;
    var last := At(s.posts, |s.posts|);
    assert Area(s) == last.payload + Zeros(MAX_PAYLOAD - |last.payload|);
  }

  lemma {:induction false} ReadBytes(s: State)
    requires |s.mem| == MAPPING_SIZE && s.reader.GotSeq? && |s.reader.got| <= s.reader.length <= MAX_PAYLOAD
    ensures var area, got := s.mem[PAYLOAD_OFFSET..], s.reader.got;
            Run(s, Repeat(Reader, s.reader.length - |got| + 1))
            == s.(reader := RIdle, results := s.results
                    + [Ok(Message(s.reader.sequence, s.reader.nanos, got + area[|got|..s.reader.length]))])
    decreases s.reader.length - |s.reader.got|
  {
    hide HasValidHeader, Load;
    var got, length := s.reader.got, s.reader.length;
    RunFirst(s, Reader, length - |got| + 1);
    if |got| < length {
      ReadBytes(ReaderStep(s));
      var area := s.mem[PAYLOAD_OFFSET..];
      assert got + [area[|got|]] + area[|got| + 1..length] == got + area[|got|..length];
    } else {
      assert got + s.mem[PAYLOAD_OFFSET..][|got|..length] == got;
      assert Repeat(Reader, 0) == [];
    }
  }

  /** Loads taken one by one with no store between them are the whole-operation read. */
  lemma UninterruptedRead(s: State)
    requires |s.mem| == MAPPING_SIZE && s.reader.RIdle? && Read(s.mem).Ok?
    ensures var s' := Run(s, Repeat(Reader, |Read(s.mem).value.payload| + 4));
            s' == s.(results := s.results + [Read(s.mem)])
  {
    hide HasValidHeader, SeqWord, TimeWord, LoadU32;
    var n := LoadU32(Little, s.mem, LEN_OFFSET);
    var s1 := ReaderStep(s);
    var s2 := ReaderStep(s1);
    var s3 := ReaderStep(s2);
    RunFirst(s, Reader, n + 4);
    RunFirst(s1, Reader, n + 3);
    RunFirst(s2, Reader, n + 2);
    ReadBytes(s3);
    assert [] + s.mem[PAYLOAD_OFFSET..][0..n] == s.mem[PAYLOAD_OFFSET..PAYLOAD_OFFSET + n];
  }

  /** A read during which no write is in progress returns the latest accepted write. */
  lemma QuietRead(s: State)
    requires |s.mem| == MAPPING_SIZE && MemoryExact(s) && s.writer.WIdle? && s.reader.RIdle?
    ensures var last := At(s.posts, |s.posts|);
            var s' := Run(s, Repeat(Reader, |last.payload| + 4));
            s' == s.(results := s.results + [Ok(Message(|s.posts| % B64, last.nanos, last.payload))])
  {
    hide *;
    IdleMemoryIsPage(s);
    ReadPage(|s.posts|, At(s.posts, |s.posts|));
    UninterruptedRead(s);
  }

  lemma {:induction false} FinishClearing(s: State)
    requires |s.mem| == MAPPING_SIZE && s.writer.Clearing? && s.writer.next <= MAX_PAYLOAD
    ensures var s' := Run(s, Repeat(Writer, MAX_PAYLOAD - s.writer.next + 1));
            s' == s.(mem := s'.mem, writer := Copying(s.writer.post, 0))
    decreases MAX_PAYLOAD - s.writer.next
  {
    RunFirst(s, Writer, MAX_PAYLOAD - s.writer.next + 1);
    if s.writer.next < MAX_PAYLOAD {
      FinishClearing(WriterStep(s));
    } else {
      assert Repeat(Writer, 0) == [];
    }
  }

  lemma {:induction false} FinishCopying(s: State)
    requires |s.mem| == MAPPING_SIZE && s.writer.Copying? && s.writer.next <= |s.writer.post.payload| <= MAX_PAYLOAD
    ensures var s' := Run(s, Repeat(Writer, |s.writer.post.payload| - s.writer.next + 1));
            s' == s.(mem := s'.mem, writer := WIdle)
    decreases |s.writer.post.payload| - s.writer.next
  {
    var n := |s.writer.post.payload|;
    RunFirst(s, Writer, n - s.writer.next + 1);
    if s.writer.next < n {
      FinishCopying(WriterStep(s));
    } else {
      assert Repeat(Writer, 0) == [];
    }
  }

  /** All the steps of one write. */
  function WriteSteps(post: Post): seq<Label> {
    [Begin(post)] + Repeat(Writer, 2) + Repeat(Writer, MAX_PAYLOAD + 1) + Repeat(Writer, |post.payload| + 1)
  }

  lemma {:induction false} RunKeepsExact(s: State, labels: seq<Label>)
    requires |s.mem| == MAPPING_SIZE && MemoryExact(s)
    ensures MemoryExact(Run(s, labels))
    decreases |labels|
  {
    hide Step, MemoryExact;
    if labels != [] {
      StepExact(s, labels[0]);
      RunKeepsExact(Step(s, labels[0]), labels[1..]);
    }
  }

  lemma WriteWords(s: State, post: Post)
    requires |s.mem| == MAPPING_SIZE && MemoryExact(s) && s.writer.WIdle? && |post.payload| <= MAX_PAYLOAD
    ensures var s' := Run(s, [Begin(post)] + Repeat(Writer, 2));
            s' == s.(mem := s'.mem, writer := Clearing(post, 0), posts := s.posts + [post])
  {
    IdleMemoryIsPage(s);
    ReadPage(|s.posts|, At(s.posts, |s.posts|));
    hide Page, MemoryExact, Put, Patch, HasValidHeader;
    var s1 := Step(s, Begin(post));
    var s2 := WriterStep(s1);
    RunFirst(s1, Writer, 2);
    RunFirst(s2, Writer, 1);
    assert Repeat(Writer, 0) == [];
    assert ([Begin(post)] + Repeat(Writer, 2))[1..] == Repeat(Writer, 2);
  }

  lemma RunThree(s: State, a: seq<Label>, b: seq<Label>, c: seq<Label>)
    requires |s.mem| == MAPPING_SIZE
    ensures Run(s, a + b + c) == Run(Run(Run(s, a), b), c)
  {
    RunAppend(s, a + b, c);
    RunAppend(s, a, b);
  }

  lemma BytesFinish(s: State)
    requires |s.mem| == MAPPING_SIZE && s.writer.Clearing? && s.writer.next == 0
    requires |s.writer.post.payload| <= MAX_PAYLOAD
    ensures var p := s.writer.post;
            var s' := Run(Run(s, Repeat(Writer, MAX_PAYLOAD + 1)), Repeat(Writer, |p.payload| + 1));
            s' == s.(mem := s'.mem, writer := WIdle)
  {
    hide Step, Run, WriterStep, Repeat;
    FinishClearing(s);
    FinishCopying(Run(s, Repeat(Writer, MAX_PAYLOAD + 1)));
  }

  lemma WriteFinishes(s: State, post: Post)
    requires |s.mem| == MAPPING_SIZE && MemoryExact(s) && s.writer.WIdle? && |post.payload| <= MAX_PAYLOAD
    ensures var s' := Run(s, WriteSteps(post));
            s' == s.(mem := s'.mem, posts := s.posts + [post])
  {
    WriteWords(s, post);
    hide Step, Run, WriterStep, MemoryExact, Put, Patch, Repeat;
    var words := [Begin(post)] + Repeat(Writer, 2);
    BytesFinish(Run(s, words));
    RunThree(s, words, Repeat(Writer, MAX_PAYLOAD + 1), Repeat(Writer, |post.payload| + 1));
  }

  /** The stores of a write, taken one by one and left alone, are the whole-operation write. */
  lemma QuietWrite(s: State, post: Post)
    requires |s.mem| == MAPPING_SIZE && MemoryExact(s) && s.writer.WIdle? && |post.payload| <= MAX_PAYLOAD
    ensures var s' := Run(s, WriteSteps(post));
            s'.mem == Written(s.mem, post) && s' == s.(mem := s'.mem, posts := s.posts + [post])
  {
    var n := |s.posts|;
    IdleMemoryIsPage(s);
    RunKeepsExact(s, WriteSteps(post));
    WriteFinishes(s, post);
    hide Step, Run, WriteSteps, Page, Written;
    IdleMemoryIsPage(Run(s, WriteSteps(post)));
    WrittenPage(n, At(s.posts, n), post);
  }

  /** ... and a reader after it gets exactly that write, under the next number. */
  lemma QuietWriteReads(s: State, post: Post)
    requires |s.mem| == MAPPING_SIZE && MemoryExact(s) && s.writer.WIdle? && |post.payload| <= MAX_PAYLOAD
    ensures Read(Run(s, WriteSteps(post)).mem) == Ok(Message((|s.posts| + 1) % B64, post.nanos, post.payload))
  {
    hide Run, WriteSteps, Read, Written, Page, MemoryExact;
    IdleMemoryIsPage(s);
    QuietWrite(s, post);
    WrittenPage(|s.posts|, At(s.posts, |s.posts|), post);
    ReadPage(|s.posts| + 1, post);
  }

  lemma IdleHeaderValid(s: State)
    requires MemoryExact(s) && s.writer.WIdle?
    ensures HasValidHeader(s.mem)
  {
    hide *;
    IdleMemoryIsPage(s);
    ReadPage(|s.posts|, At(s.posts, |s.posts|));
  }

  lemma BeginAccepted(s: State, post: Post)
    requires |s.mem| == MAPPING_SIZE && HasValidHeader(s.mem) && s.writer.WIdle? && |post.payload| <= MAX_PAYLOAD
    ensures var s' := Step(s, Begin(post));
            s' == s.(mem := s'.mem, writer := StoredSeq(post), posts := s.posts + [post])
  {}
}
