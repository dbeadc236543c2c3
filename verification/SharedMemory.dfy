/** The message page shared by the writer and the watcher: whole operations on its bytes. */
module SharedMemory {
  import opened Words

  const MAPPING_SIZE := 4096
  const LAYOUT_VERSION := 1
  const MAGIC_OFFSET := 0
  const VERSION_OFFSET := 8
  const SEQ_OFFSET := 16
  const TIME_OFFSET := 24
  const LEN_OFFSET := 32
  const PAYLOAD_OFFSET := 64
  const MAX_PAYLOAD := MAPPING_SIZE - PAYLOAD_OFFSET

  /** "MMAPIPC1" */
  function Magic(): (b: seq<Byte>)
    ensures |b| == 8
  {
    [0x4d, 0x4d, 0x41, 0x50, 0x49, 0x50, 0x43, 0x31]
  }

  /** A payload with the time it was written, as UnixNano gives it. */
  datatype Post = Post(payload: seq<Byte>, nanos: I64)

  datatype Message = Message(sequence: U64, nanos: I64, payload: seq<Byte>)

  datatype PageError = InvalidMapping | TooLong(length: nat)

  predicate HasValidHeader(m: seq<Byte>) {
    && |m| >= MAPPING_SIZE
    && m[MAGIC_OFFSET..MAGIC_OFFSET + 8] == Magic()
    && LoadU32(Little, m, VERSION_OFFSET) == LAYOUT_VERSION
  }

  function SeqWord(m: seq<Byte>): U64
    requires |m| >= MAPPING_SIZE
  {
    LoadU64(Little, m, SEQ_OFFSET)
  }

  function TimeWord(m: seq<Byte>): I64
    requires |m| >= MAPPING_SIZE
  {
    U64ToI64(LoadU64(Little, m, TIME_OFFSET))
  }

  /** readMessage */
  function Read(m: seq<Byte>): Result<Message, PageError> {
    if !HasValidHeader(m) then Err(InvalidMapping)
    else
      var length := LoadU32(Little, m, LEN_OFFSET);
      if length > MAX_PAYLOAD then Err(TooLong(length))
      else Ok(Message(SeqWord(m), TimeWord(m), m[PAYLOAD_OFFSET..PAYLOAD_OFFSET + length]))
  }

  // What the bytes of a page mean, in numbers and without the accessors above.

  /** At least a page long, "MMAPIPC1", and version 1 with its low byte first. */
  predicate Stamped(m: seq<Byte>) {
    |m| >= 4096 && m[..12] == [0x4d, 0x4d, 0x41, 0x50, 0x49, 0x50, 0x43, 0x31, 1, 0, 0, 0]
  }

  lemma VersionWord(m: seq<Byte>)
    requires |m| >= 12
    ensures LoadU32(Little, m, VERSION_OFFSET) == LAYOUT_VERSION <==> m[8..12] == [1, 0, 0, 0]
  {
    SpanValues();
    WordAt(m, 8, 4, 1);
    PutBytes(1);
    hide Put, Load;
  }

  /** A header is valid exactly when the page is stamped. */
  lemma ValidIffStamped(m: seq<Byte>)
    ensures HasValidHeader(m) <==> Stamped(m)
  {
    if |m| >= 4096 {
      VersionWord(m);
      hide LoadU32;
      assert m[..12] == m[..8] + m[8..12];
      var magic: seq<Byte> := [0x4d, 0x4d, 0x41, 0x50, 0x49, 0x50, 0x43, 0x31];
      var stamp: seq<Byte> := [0x4d, 0x4d, 0x41, 0x50, 0x49, 0x50, 0x43, 0x31, 1, 0, 0, 0];
      assert stamp[..8] == magic && stamp[8..] == [1, 0, 0, 0] && stamp == magic + [1, 0, 0, 0];
      assert m[..12][..8] == m[..8] && m[..12][8..] == m[8..12];
    }
  }

  /** The page carries a message: its number, its time in two's complement, its length and payload. */
  predicate Carries(m: seq<Byte>, message: Message) {
    var t := message.nanos;
    && Stamped(m) && |message.payload| <= 4032
    && m[16..24] == Put(Little, 8, message.sequence)
    && m[24..32] == Put(Little, 8, if t < 0 then t + 0x1_0000_0000_0000_0000 else t)
    && m[32..36] == Put(Little, 4, |message.payload|)
    && message.payload <= m[64..]
  }

  lemma SignRoundTrip(x: I64, w: U64)
    ensures U64ToI64(w) == x <==> w == I64ToU64(x)
  {}

  lemma ValidSize(m: seq<Byte>)
    requires HasValidHeader(m)
    ensures |m| >= MAPPING_SIZE
  {}

  /** A word is loaded from some bytes exactly when storing it would put those bytes there. */
  lemma WordAt(m: seq<Byte>, off: nat, w: nat, v: nat)
    requires off + w <= |m| && v < Span(w)
    ensures Load(Little, w, m, off) == v <==> m[off..off + w] == Put(Little, w, v)
  {
    hide Put, Get;
    GetPut(Little, w, v);
    PutGet(Little, m[off..off + w]);
  }

  /** What a result of reading says about the page. */
  predicate Reports(r: Result<Message, PageError>, m: seq<Byte>) {
    match r
    case Ok(message) => Carries(m, message)
    case Err(InvalidMapping) => !Stamped(m)
    case Err(TooLong(length)) =>
      Stamped(m) && 4032 < length < 0x1_0000_0000 && m[32..36] == Put(Little, 4, length)
  }

  /** Reading inverts the layout on every byte string: exactly one result is true of a page, and it
      is the one read. */
  lemma ReadIsTheReport(m: seq<Byte>, r: Result<Message, PageError>)
    ensures Reports(r, m) <==> r == Read(m)
  {
    hide Put, Get, HasValidHeader;
    SpanValues();
    ValidIffStamped(m);
    if HasValidHeader(m) {
      ValidSize(m);
      var n := LoadU32(Little, m, LEN_OFFSET);
      match r
      case Ok(message) =>
        WordAt(m, SEQ_OFFSET, 8, message.sequence);
        WordAt(m, TIME_OFFSET, 8, I64ToU64(message.nanos));
        SignRoundTrip(message.nanos, LoadU64(Little, m, TIME_OFFSET));
        if |message.payload| <= MAX_PAYLOAD {
          WordAt(m, LEN_OFFSET, 4, |message.payload|);
        }
        hide Load;
        assert n == |message.payload| && n <= MAX_PAYLOAD ==>
            (message.payload <= m[PAYLOAD_OFFSET..] <==> m[PAYLOAD_OFFSET..PAYLOAD_OFFSET + n] == message.payload);
      case Err(InvalidMapping) =>
      case Err(TooLong(length)) =>
        if length < B32 {
          WordAt(m, LEN_OFFSET, 4, length);
        }
    }
  }

  method ReadMessage(mapping: array<Byte>) returns (r: Result<Message, PageError>)
    ensures r == Read(mapping[..]) && Reports(r, mapping[..])
    ensures r == Err(InvalidMapping) <==>
              mapping.Length < 4096
              || mapping[..12] != [0x4d, 0x4d, 0x41, 0x50, 0x49, 0x50, 0x43, 0x31, 1, 0, 0, 0]
  {
    ReadIsTheReport(mapping[..], Read(mapping[..]));
    ReadIsTheReport(mapping[..], Err(InvalidMapping));
    assert mapping.Length >= 12 ==> mapping[..][..12] == mapping[..12];
    hide Put, Get;
    if !HasValidHeader(mapping[..]) {
      return Err(InvalidMapping);
    }
    var length := LoadU32(Little, mapping[..], LEN_OFFSET);
    if length > MAX_PAYLOAD {
      return Err(TooLong(length));
    }
    var nanos := TimeWord(mapping[..]);
    return Ok(Message(SeqWord(mapping[..]), nanos, mapping[PAYLOAD_OFFSET..PAYLOAD_OFFSET + length]));
  }

  method Clear(a: array<Byte>, from: nat)
    requires from <= a.Length
    modifies a
    ensures a[..] == old(a[..from]) + Zeros(a.Length - from)
  {
    for i := from to a.Length
      invariant forall j :: 0 <= j < a.Length ==> a[j] == if from <= j < i then 0 else old(a[j])
    {
      a[i] := 0;
    }
  }

  // ---- the page as a function of what was written ----

  /** Every byte of a mapping in which post was the count-th accepted write; count 0 is the page
      right after initMapping, with an empty post at time zero. */
  function Page(count: nat, post: Post): (m: seq<Byte>)
    requires |post.payload| <= MAX_PAYLOAD
    ensures |m| == MAPPING_SIZE
  {
    PageHeader(count, post.nanos, |post.payload|) + (post.payload + Zeros(MAX_PAYLOAD - |post.payload|))
  }

  function PageHeader(count: nat, nanos: I64, length: nat): (m: seq<Byte>)
    ensures |m| == PAYLOAD_OFFSET
  {
    Magic() + Put(Little, 4, LAYOUT_VERSION) + Zeros(4) + Put(Little, 8, count % B64)
    + Put(Little, 8, I64ToU64(nanos)) + Put(Little, 4, length) + Zeros(28)
  }

  /** The words a reader loads from a header, whatever the payload area holds. */
  lemma HeaderWords(count: nat, nanos: I64, length: U32, area: seq<Byte>)
    requires |area| == MAX_PAYLOAD
    ensures var m := PageHeader(count, nanos, length) + area;
            && HasValidHeader(m) && SeqWord(m) == count % B64 && TimeWord(m) == nanos
            && LoadU32(Little, m, LEN_OFFSET) == length
  {
    hide Put, Get;
    var m := PageHeader(count, nanos, length) + area;
    SpanValues();
    GetPut(Little, 4, LAYOUT_VERSION);
    GetPut(Little, 8, count % B64);
    GetPut(Little, 8, I64ToU64(nanos));
    GetPut(Little, 4, length);
    assert m[0..8] == Magic();
    assert m[8..12] == Put(Little, 4, LAYOUT_VERSION);
    assert m[16..24] == Put(Little, 8, count % B64);
    assert m[24..32] == Put(Little, 8, I64ToU64(nanos));
    assert m[32..36] == Put(Little, 4, length);
  }

  const NO_POST := Post([], 0)

  /** The i-th write, counted from one; the zeroth is the freshly initialised page. */
  function At(posts: seq<Post>, i: nat): Post
    requires i <= |posts|
  {
    if i == 0 then NO_POST else posts[i - 1]
  }

  /** The i-th write as a reader should get it. */
  function MessageAt(posts: seq<Post>, i: nat): Message
    requires i <= |posts|
  {
    Message(i % B64, At(posts, i).nanos, At(posts, i).payload)
  }

  function Latest(posts: seq<Post>): Post { At(posts, |posts|) }

  function LatestMessage(posts: seq<Post>): Message { MessageAt(posts, |posts|) }

  /** Strictly increasing numbers. */
  ghost predicate Increasing(printed: seq<Message>) {
    forall i, j :: 0 <= i < j < |printed| ==> printed[i].sequence < printed[j].sequence
  }

  lemma IncreasingGrows(printed: seq<Message>, m: Message)
    requires Increasing(printed) && (printed != [] ==> printed[|printed| - 1].sequence < m.sequence)
    ensures Increasing(printed + [m])
  {
    var all := printed + [m];
    forall i, j | 0 <= i < j < |all| ensures all[i].sequence < all[j].sequence {
      if j == |printed| && i < |printed| - 1 {
        assert printed[i].sequence < printed[|printed| - 1].sequence;
      }
    }
  }

  lemma {:induction false} PutZero(w: nat)
    ensures Put(Little, w, 0) == Zeros(w)
  {
    if w != 0 {
      PutZero(w - 1);
    }
  }

  /** Reading a page gives the count as its sequence number and the post itself. */
  lemma ReadPage(count: nat, post: Post)
    requires |post.payload| <= MAX_PAYLOAD
    ensures HasValidHeader(Page(count, post))
    ensures Read(Page(count, post)) == Ok(Message(count % B64, post.nanos, post.payload))
  {
    hide PageHeader;
    var area := post.payload + Zeros(MAX_PAYLOAD - |post.payload|);
    HeaderWords(count, post.nanos, |post.payload|, area);
    var m := Page(count, post);
    assert m[PAYLOAD_OFFSET..PAYLOAD_OFFSET + |post.payload|] == area[..|post.payload|] == post.payload;
  }

  lemma PageCarries(count: nat, post: Post)
    requires |post.payload| <= MAX_PAYLOAD
    ensures Carries(Page(count, post), Message(count % B64, post.nanos, post.payload))
  {
    ReadPage(count, post);
    ReadIsTheReport(Page(count, post), Read(Page(count, post)));
    hide Page, Read, Carries;
  }

  /** initMapping leaves the page of no writes, whatever was in the mapping. */
  method InitMapping(mapping: array<Byte>)
    requires mapping.Length == MAPPING_SIZE
    modifies mapping
    ensures mapping[..] == Page(0, NO_POST) == FreshPage()
  {
    FreshIsInitial();
    Clear(mapping, 0);
    CopyInto(mapping, MAGIC_OFFSET, Magic());
    PutUint(mapping, VERSION_OFFSET, Little, 4, LAYOUT_VERSION);
    hide Put, Page, Patch, Magic, FreshPage;
    ghost var z := Zeros(MAPPING_SIZE);
    StampedZeros(z, Magic(), Put(Little, 4, LAYOUT_VERSION));
    assert mapping[..] == Magic() + Put(Little, 4, LAYOUT_VERSION) + Zeros(MAPPING_SIZE - 12);
    InitialPage();
  }

  /** The stamp and nothing else. */
  function FreshPage(): (m: seq<Byte>)
    ensures |m| == 4096
  {
    [0x4d, 0x4d, 0x41, 0x50, 0x49, 0x50, 0x43, 0x31, 1, 0, 0, 0] + Zeros(4084)
  }

  lemma FreshIsInitial()
    ensures FreshPage() == Page(0, NO_POST)
  {
    InitialPage();
    VersionBytes();
    hide Put, Page, Zeros;
    assert Magic() + [1, 0, 0, 0] == [0x4d, 0x4d, 0x41, 0x50, 0x49, 0x50, 0x43, 0x31, 1, 0, 0, 0];
  }

  lemma VersionBytes()
    ensures Put(Little, 4, LAYOUT_VERSION) == [1, 0, 0, 0]
  {
    PutBytes(LAYOUT_VERSION);
    hide Put;
  }

  lemma StampedZeros(z: seq<Byte>, magic: seq<Byte>, version: seq<Byte>)
    requires z == Zeros(MAPPING_SIZE) && |magic| == 8 && |version| == 4
    ensures Patch(Patch(z, MAGIC_OFFSET, magic), VERSION_OFFSET, version) == magic + version + Zeros(MAPPING_SIZE - 12)
  {}

  lemma InitialPage()
    ensures Magic() + Put(Little, 4, LAYOUT_VERSION) + Zeros(MAPPING_SIZE - 12) == Page(0, NO_POST)
  {
    PutZero(8);
    PutZero(4);
    hide Put;
    var m := Magic() + Put(Little, 4, LAYOUT_VERSION) + Zeros(MAPPING_SIZE - 12);
    assert PageHeader(0, 0, 0) == m[..PAYLOAD_OFFSET];
    assert m[PAYLOAD_OFFSET..] == Zeros(MAX_PAYLOAD) == [] + Zeros(MAX_PAYLOAD);
  }

  /** What an accepted write makes of a valid mapping: the three words, then the payload area;
      the header and the bytes between the fields stay as they are. */
  function Written(m: seq<Byte>, post: Post): (m': seq<Byte>)
    requires |m| >= MAPPING_SIZE && |post.payload| <= MAX_PAYLOAD
    ensures |m'| == |m|
  {
    m[..SEQ_OFFSET] + Put(Little, 8, (SeqWord(m) + 1) % B64) + Put(Little, 8, I64ToU64(post.nanos))
    + Put(Little, 4, |post.payload|) + m[LEN_OFFSET + 4..PAYLOAD_OFFSET]
    + post.payload + Zeros(|m| - PAYLOAD_OFFSET - |post.payload|)
  }

  /** What a write does to the bytes m, in numbers: an error leaves them alone. */
  ghost predicate Wrote(m: seq<Byte>, post: Post, r: Result<Message, PageError>, m': seq<Byte>) {
    if !Stamped(m) then r == Err(InvalidMapping) && m' == m
    else if |post.payload| > 4032 then r == Err(TooLong(|post.payload|)) && m' == m
    else
      var n := (Get(Little, m[16..24]) + 1) % 0x1_0000_0000_0000_0000;
      var t := if post.nanos < 0 then post.nanos + 0x1_0000_0000_0000_0000 else post.nanos;
      && r == Ok(Message(n, post.nanos, post.payload)) && |m'| == |m|
      && m'[..16] == m[..16] && m'[36..64] == m[36..64]
      && m'[16..24] == Put(Little, 8, n) && m'[24..32] == Put(Little, 8, t)
      && m'[32..36] == Put(Little, 4, |post.payload|)
      && m'[64..] == post.payload + Zeros(|m| - 64 - |post.payload|)
  }

  lemma WrittenBytes(m: seq<Byte>, post: Post)
    requires HasValidHeader(m) && |post.payload| <= MAX_PAYLOAD
    ensures Wrote(m, post, Ok(Message((SeqWord(m) + 1) % B64, post.nanos, post.payload)), Written(m, post))
  {
    ValidIffStamped(m);
    ConversionsAre(0, 0, post.nanos, 0);
    SpanValues();
    GetBound(Little, m[16..24]);
    assert SeqWord(m) == Get(Little, m[16..24]);
    hide Put, Get, HasValidHeader, SeqWord, Stamped, I64ToU64;
  }

  method WriteMessage(mapping: array<Byte>, post: Post) returns (r: Result<Message, PageError>)
    modifies mapping
    ensures if !HasValidHeader(old(mapping[..])) then r == Err(InvalidMapping) && mapping[..] == old(mapping[..])
            else if |post.payload| > MAX_PAYLOAD
            then r == Err(TooLong(|post.payload|)) && mapping[..] == old(mapping[..])
            else r == Ok(Message((SeqWord(old(mapping[..])) + 1) % B64, post.nanos, post.payload))
                 && mapping[..] == Written(old(mapping[..]), post)
    ensures Wrote(old(mapping[..]), post, r, mapping[..])
  {
    ValidIffStamped(mapping[..]);
    if HasValidHeader(mapping[..]) && |post.payload| <= MAX_PAYLOAD {
      WrittenBytes(mapping[..], post);
    }
    hide Wrote, Stamped, Written, SeqWord, HasValidHeader;
    if !HasValidHeader(mapping[..]) {
      return Err(InvalidMapping);
    }
    if |post.payload| > MAX_PAYLOAD {
      return Err(TooLong(|post.payload|));
    }
    ValidSize(mapping[..]);
    var seqNo := StoreMessage(mapping, post);
    return Ok(Message(seqNo, post.nanos, post.payload));
  }

  /** The stores of a write that is accepted. */
  method StoreMessage(mapping: array<Byte>, post: Post) returns (seqNo: U64)
    requires mapping.Length >= MAPPING_SIZE && |post.payload| <= MAX_PAYLOAD
    modifies mapping
    ensures seqNo == (SeqWord(old(mapping[..])) + 1) % B64 && mapping[..] == Written(old(mapping[..]), post)
  {
    hide Put, Get;
    ghost var m := mapping[..];
    seqNo := (SeqWord(mapping[..]) + 1) % B64;
    PutUint(mapping, SEQ_OFFSET, Little, 8, seqNo);
    PutUint(mapping, TIME_OFFSET, Little, 8, I64ToU64(post.nanos));
    PutUint(mapping, LEN_OFFSET, Little, 4, |post.payload|);
    ThreeWords(m, Put(Little, 8, seqNo), Put(Little, 8, I64ToU64(post.nanos)), Put(Little, 4, |post.payload|));
    ghost var header := mapping[..PAYLOAD_OFFSET];
    assert mapping[..][..PAYLOAD_OFFSET] == header;
    Clear(mapping, PAYLOAD_OFFSET);
    PayloadStored(header, post.payload, mapping.Length - PAYLOAD_OFFSET);
    CopyInto(mapping, PAYLOAD_OFFSET, post.payload);
  }

  lemma PayloadStored(header: seq<Byte>, payload: seq<Byte>, n: nat)
    requires |payload| <= n
    ensures Patch(header + Zeros(n), |header|, payload) == header + payload + Zeros(n - |payload|)
  {}

  lemma ThreeWords(m: seq<Byte>, s: seq<Byte>, t: seq<Byte>, l: seq<Byte>)
    requires |m| >= MAPPING_SIZE && |s| == |t| == 8 && |l| == 4
    ensures Patch(Patch(Patch(m, SEQ_OFFSET, s), TIME_OFFSET, t), LEN_OFFSET, l)[..PAYLOAD_OFFSET]
         == m[..SEQ_OFFSET] + s + t + l + m[LEN_OFFSET + 4..PAYLOAD_OFFSET]
  {
    var m1 := Patch(m, SEQ_OFFSET, s);
    assert m1 == m[..SEQ_OFFSET] + s + m[TIME_OFFSET..];
    var m2 := Patch(m1, TIME_OFFSET, t);
    assert m2 == m[..SEQ_OFFSET] + s + t + m[LEN_OFFSET..];
    assert Patch(m2, LEN_OFFSET, l) == m[..SEQ_OFFSET] + s + t + l + m[LEN_OFFSET + 4..];
  }

  /** A write on the page of count posts makes the page of count + 1. */
  lemma WrittenPage(count: nat, before: Post, post: Post)
    requires |before.payload| <= MAX_PAYLOAD && |post.payload| <= MAX_PAYLOAD
    ensures Written(Page(count, before), post) == Page(count + 1, post)
  {
    hide Put, Get;
    ReadPage(count, before);
    var m := Page(count, before);
    assert (SeqWord(m) + 1) % B64 == (count + 1) % B64;
    assert m[..16] == Magic() + Put(Little, 4, LAYOUT_VERSION) + Zeros(4);
    assert m[36..64] == Zeros(28);
  }

  /** The write command initialises an invalid mapping first. */
  method RunWrite(mapping: array<Byte>, post: Post) returns (r: Result<Message, PageError>)
    requires mapping.Length == MAPPING_SIZE
    modifies mapping
    ensures mapping[..] == Command(old(mapping[..]), post)
    ensures r.Ok? <==> |post.payload| <= MAX_PAYLOAD
    ensures r.Ok? ==> Read(mapping[..]) == r
    ensures Wrote(if Stamped(old(mapping[..])) then old(mapping[..]) else FreshPage(), post, r, mapping[..])
    ensures Stamped(mapping[..]) && (r.Ok? ==> Carries(mapping[..], r.value))
  {
    ValidIffStamped(mapping[..]);
    hide Page, Written, Read, Stamped, Wrote, FreshPage;
    if !HasValidHeader(mapping[..]) {
      InitMapping(mapping);
      ReadPage(0, NO_POST);
    }
    ghost var m := mapping[..];
    r := WriteMessage(mapping, post);
    if r.Ok? {
      ReadWritten(m, post);
      ReadIsTheReport(mapping[..], r);
    }
    StaysStamped(m, post, r, mapping[..]);
  }

  lemma StaysStamped(m: seq<Byte>, post: Post, r: Result<Message, PageError>, m': seq<Byte>)
    requires HasValidHeader(m) && Wrote(m, post, r, m')
    ensures Stamped(m')
  {
    ValidIffStamped(m);
    hide Put, Get, HasValidHeader;
    assert m'[..16][..12] == m[..16][..12];
    assert r.Ok? ==> m'[..12] == m'[..16][..12] && m[..12] == m[..16][..12];
  }

  function Command(m: seq<Byte>, post: Post): (m': seq<Byte>)
    requires |m| == MAPPING_SIZE
    ensures |m'| == MAPPING_SIZE
  {
    var start := if HasValidHeader(m) then m else Page(0, NO_POST);
    if |post.payload| <= MAX_PAYLOAD then Written(start, post) else start
  }

  /** On any valid mapping, a reader right after an accepted write gets exactly that write. */
  lemma ReadWritten(m: seq<Byte>, post: Post)
    requires HasValidHeader(m) && |post.payload| <= MAX_PAYLOAD
    ensures Read(Written(m, post)) == Ok(Message((SeqWord(m) + 1) % B64, post.nanos, post.payload))
    ensures forall i :: PAYLOAD_OFFSET + |post.payload| <= i < |m| ==> Written(m, post)[i] == 0
  {
    hide Put, Get;
    var m' := Written(m, post);
    SpanValues();
    GetPut(Little, 8, (SeqWord(m) + 1) % B64);
    GetPut(Little, 8, I64ToU64(post.nanos));
    GetPut(Little, 4, |post.payload|);
    assert m'[0..8] == m[0..8] && m'[8..12] == m[8..12];
    assert m'[16..24] == Put(Little, 8, (SeqWord(m) + 1) % B64);
    assert m'[24..32] == Put(Little, 8, I64ToU64(post.nanos));
    assert m'[32..36] == Put(Little, 4, |post.payload|);
    assert m'[64..64 + |post.payload|] == post.payload;
  }
}
