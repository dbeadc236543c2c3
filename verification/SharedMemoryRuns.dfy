/** One writer and one watcher taking turns: runs of whole operations. */
module SharedMemoryRuns {
  import opened Words
  import opened SharedMemory

  // ---- the watcher ----

  datatype Watcher = Watcher(lastSeq: U64, printed: seq<Message>)

  /** One tick: print the message unless its number is zero or the one printed last. */
  function Seen(w: Watcher, message: Message): Watcher {
    if message.sequence == 0 || message.sequence == w.lastSeq then w
    else Watcher(message.sequence, w.printed + [message])
  }

  function Watch(pages: seq<seq<Byte>>): Result<Watcher, PageError> {
    if pages == [] then Ok(Watcher(0, []))
    else match Watch(pages[..|pages| - 1])
      case Err(x) => Err(x)
      case Ok(w) => match Read(pages[|pages| - 1])
                    case Err(x) => Err(x)
                    case Ok(message) => Ok(Seen(w, message))
  }

  lemma {:induction false} WatchStopsAtError(pages: seq<seq<Byte>>, k: nat)
    requires k <= |pages| && Watch(pages[..k]).Err?
    ensures Watch(pages) == Watch(pages[..k])
    decreases |pages|
  {
    if k < |pages| {
      assert pages[..|pages| - 1][..k] == pages[..k];
      WatchStopsAtError(pages[..|pages| - 1], k);
    } else {
      assert pages[..k] == pages;
    }
  }

  /** The loop of runWatch; pages are the contents of the mapping at each tick. */
  method RunWatch(pages: seq<seq<Byte>>) returns (r: Result<Watcher, PageError>)
    ensures r == Watch(pages)
  {
    var lastSeq: U64 := 0;
    var printed: seq<Message> := [];
    for i := 0 to |pages|
      invariant Watch(pages[..i]) == Ok(Watcher(lastSeq, printed))
    {
      assert pages[..i + 1][..i] == pages[..i];
      var message := Read(pages[i]);
      if message.Err? {
        WatchStopsAtError(pages, i + 1);
        return Err(message.error);
      }
      if message.value.sequence == 0 || message.value.sequence == lastSeq {
        continue;
      }
      lastSeq := message.value.sequence;
      printed := printed + [message.value];
    }
    assert pages[..|pages|] == pages;
    return Ok(Watcher(lastSeq, printed));
  }

  // ---- runs ----

  /** The init and write commands, and a tick of the watcher. */
  datatype Label = Init | Write(post: Post) | Tick

  datatype System = System(page: seq<Byte>, ticks: seq<seq<Byte>>)

  /** From a freshly initialised mapping; ticks collects what the watcher finds at each tick. */
  function Run(labels: seq<Label>): (s: System)
    ensures |s.page| == MAPPING_SIZE
  {
    if labels == [] then System(Page(0, NO_POST), [])
    else
      var s := Run(labels[..|labels| - 1]);
      match labels[|labels| - 1]
      case Init => s.(page := Page(0, NO_POST))
      case Write(post) => s.(page := Command(s.page, post))
      case Tick => s.(ticks := s.ticks + [s.page])
  }

  /** The writes since the last initialisation small enough to be accepted, in order. */
  function Accepted(labels: seq<Label>): (posts: seq<Post>)
    ensures forall i :: 0 <= i < |posts| ==> |posts[i].payload| <= MAX_PAYLOAD
  {
    if labels == [] || labels[|labels| - 1].Init? then []
    else
      var l := labels[|labels| - 1];
      Accepted(labels[..|labels| - 1]) + (if l.Write? && |l.post.payload| <= MAX_PAYLOAD then [l.post] else [])
  }

  ghost predicate NoInit(labels: seq<Label>) {
    Init !in labels
  }

  /** At every moment each byte of the page is determined by the writes accepted since the last
      initialisation, their count and the last of them:
      the header is valid, the number is the count modulo 2^64, a reader gets that write, and
      rejected writes left no trace. */
  lemma {:induction false} PageOfRun(labels: seq<Label>)
    ensures var posts := Accepted(labels);
            && Run(labels).page == Page(|posts|, Latest(posts))
            && HasValidHeader(Run(labels).page) && Read(Run(labels).page) == Ok(LatestMessage(posts))
    ensures Carries(Run(labels).page, LatestMessage(Accepted(labels)))
  {
    hide Page, Written, HasValidHeader, Read, Carries;
    var posts := Accepted(labels);
    ReadPage(|posts|, Latest(posts));
    PageCarries(|posts|, Latest(posts));
    if labels != [] {
      var init := labels[..|labels| - 1];
      PageOfRun(init);
      var l := labels[|labels| - 1];
      if l.Write? && |l.post.payload| <= MAX_PAYLOAD {
        WrittenPage(|Accepted(init)|, Latest(Accepted(init)), l.post);
      }
    }
  }

  /** The watcher of a run, fed at each tick. */
  function WatcherOf(labels: seq<Label>): Watcher {
    if labels == [] then Watcher(0, [])
    else
      var w, init := WatcherOf(labels[..|labels| - 1]), labels[..|labels| - 1];
      if labels[|labels| - 1].Tick? then Seen(w, LatestMessage(Accepted(init))) else w
  }

  /** The watcher never stops on an error, and sees the latest accepted write at each tick. */
  lemma {:induction false} WatchOfRun(labels: seq<Label>)
    ensures Watch(Run(labels).ticks) == Ok(WatcherOf(labels))
  {
    if labels != [] {
      var init := labels[..|labels| - 1];
      WatchOfRun(init);
      PageOfRun(init);
      var s := Run(init);
      assert (s.ticks + [s.page])[..|s.ticks|] == s.ticks;
    }
  }

  /** Printed messages carry strictly increasing numbers and the contents of those writes. */
  ghost predicate FaithfulPrints(printed: seq<Message>, posts: seq<Post>) {
    && (forall i :: 0 <= i < |printed| ==>
          1 <= printed[i].sequence <= |posts|
          && Post(printed[i].payload, printed[i].nanos) == posts[printed[i].sequence - 1])
    && Increasing(printed)
  }

  ghost predicate Faithful(w: Watcher, posts: seq<Post>) {
    && FaithfulPrints(w.printed, posts)
    && w.lastSeq == (if w.printed == [] then 0 else w.printed[|w.printed| - 1].sequence)
  }

  predicate UpToDate(w: Watcher, posts: seq<Post>) {
    posts != [] ==> w.printed != [] && w.printed[|w.printed| - 1] == LatestMessage(posts)
  }

  lemma PrintsGrow(printed: seq<Message>, posts: seq<Post>, m: Message)
    requires FaithfulPrints(printed, posts)
    requires 1 <= m.sequence <= |posts| && Post(m.payload, m.nanos) == posts[m.sequence - 1]
    requires printed != [] ==> printed[|printed| - 1].sequence < m.sequence
    ensures FaithfulPrints(printed + [m], posts)
  {
    IncreasingGrows(printed, m);
  }

  lemma FaithfulAfterTick(w: Watcher, posts: seq<Post>)
    requires Faithful(w, posts) && |posts| < B64
    ensures Faithful(Seen(w, LatestMessage(posts)), posts) && UpToDate(Seen(w, LatestMessage(posts)), posts)
  {
    var m := LatestMessage(posts);
    if posts != [] {
      assert m.sequence == |posts| && Post(m.payload, m.nanos) == posts[|posts| - 1];
      if w.printed != [] {
        var last := w.printed[|w.printed| - 1];
        assert 1 <= last.sequence <= |posts| && Post(last.payload, last.nanos) == posts[last.sequence - 1];
      }
      if m.sequence != w.lastSeq {
        hide FaithfulPrints;
        PrintsGrow(w.printed, posts, m);
      }
    }
  }

  lemma FaithfulAfterWrite(w: Watcher, posts: seq<Post>, post: Post)
    requires Faithful(w, posts)
    ensures Faithful(w, posts + [post])
  {
    var posts' := posts + [post];
    forall i | 0 <= i < |w.printed|
      ensures 1 <= w.printed[i].sequence <= |posts'|
           && Post(w.printed[i].payload, w.printed[i].nanos) == posts'[w.printed[i].sequence - 1]
    {
      assert posts'[w.printed[i].sequence - 1] == posts[w.printed[i].sequence - 1];
    }
  }

  /** On any run without re-initialisation and with fewer than 2^64 accepted writes the watcher
      prints a strictly increasing subsequence of the accepted writes with their exact contents,
      and right after a tick the last message printed is the latest accepted write. */
  lemma {:induction false} WatcherPrintsSubsequence(labels: seq<Label>)
    requires NoInit(labels) && |Accepted(labels)| < B64
    ensures Faithful(WatcherOf(labels), Accepted(labels))
    ensures labels != [] && labels[|labels| - 1].Tick? ==> UpToDate(WatcherOf(labels), Accepted(labels))
  {
    hide Faithful, UpToDate;
    if labels == [] {
      FreshWatcherFaithful();
    } else {
      var init, last := labels[..|labels| - 1], labels[|labels| - 1];
      assert last in labels;
      WatcherPrintsSubsequence(init);
      assert Accepted(init) + [] == Accepted(init);
      if last.Tick? {
        FaithfulAfterTick(WatcherOf(init), Accepted(init));
      } else {
        FaithfulAfterWrite(WatcherOf(init), Accepted(init), last.post);
      }
    }
  }

  lemma FreshWatcherFaithful()
    ensures Faithful(Watcher(0, []), [])
  {}

  /** The writes that made up the page when the watcher last printed. */
  function PrintedFrom(labels: seq<Label>): seq<Post> {
    if labels == [] then []
    else
      var init := labels[..|labels| - 1];
      if WatcherOf(labels) != WatcherOf(init) then Accepted(init) else PrintedFrom(init)
  }

  /** The last message printed is the one that was current then; its number is never zero. */
  lemma {:induction false} LastPrinted(labels: seq<Label>)
    ensures var seen, w := PrintedFrom(labels), WatcherOf(labels);
            && w.lastSeq == |seen| % B64
            && (seen == [] <==> w.printed == [])
            && (seen != [] ==> w.lastSeq != 0 && w.printed[|w.printed| - 1] == LatestMessage(seen))
            && (NoInit(labels) ==> seen <= Accepted(labels))
  {
    if labels != [] {
      var init, last := labels[..|labels| - 1], labels[|labels| - 1];
      LastPrinted(init);
      var w, m := WatcherOf(init), LatestMessage(Accepted(init));
      assert last in labels;
      assert Accepted(init) + [] == Accepted(init);
      if last.Tick? && m.sequence != 0 && m.sequence != w.lastSeq {
        assert |w.printed + [m]| != |w.printed|;
      }
    }
  }

  lemma TickSees(labels: seq<Label>)
    ensures var w, posts := WatcherOf(labels), Accepted(labels);
            var m := LatestMessage(posts);
            && WatcherOf(labels + [Tick]) == Seen(w, m)
            && PrintedFrom(labels + [Tick])
               == (if m.sequence == 0 || m.sequence == w.lastSeq then PrintedFrom(labels) else posts)
  {
    var w, m := WatcherOf(labels), LatestMessage(Accepted(labels));
    assert (labels + [Tick])[..|labels|] == labels;
    assert |w.printed + [m]| != |w.printed|;
  }

  /** With any number of writes and initialisations, seen being the writes that made up the page when
      the watcher last printed: after a tick the latest write is the last message printed exactly
      when there is none, or the count modulo 2^64 is not zero, and either differs from the one of
      seen or stands for the same write. */
  lemma TickCatchesUpIff(labels: seq<Label>)
    ensures var posts, seen := Accepted(labels), PrintedFrom(labels);
            UpToDate(WatcherOf(labels + [Tick]), posts) <==>
              posts == []
              || (|posts| % B64 != 0 && (|posts| % B64 != |seen| % B64 || Latest(seen) == Latest(posts)))
    ensures var n, p := |Accepted(labels)|, |PrintedFrom(labels)|;
            |PrintedFrom(labels + [Tick])| == n <==> p == n || (n % B64 != 0 && n % B64 != p % B64)
  {
    LastPrinted(labels);
    TickSees(labels);
    hide WatcherOf, PrintedFrom, Accepted;
  }

  /** What is printed, at any rate, is always a write that was the latest at some moment. */
  lemma {:induction false} PrintsWereLatest(labels: seq<Label>, i: nat) returns (k: nat)
    requires i < |WatcherOf(labels).printed|
    ensures k <= |labels| && Accepted(labels[..k]) != []
    ensures WatcherOf(labels).printed[i] == LatestMessage(Accepted(labels[..k]))
  {
    var n := |labels| - 1;
    var init := labels[..n];
    if i < |WatcherOf(init).printed| {
      k := PrintsWereLatest(init, i);
      assert init[..k] == labels[..k];
    } else {
      k := n;
    }
  }

  function Writes(post: Post, k: nat): (labels: seq<Label>)
    ensures |labels| == k
  {
    seq(k, _ => Write(post))
  }

  /** Accepted writes with no tick among them. */
  lemma {:induction false} UnwatchedWrites(labels: seq<Label>, post: Post, k: nat)
    requires |post.payload| <= MAX_PAYLOAD
    ensures var more := labels + Writes(post, k);
            && Accepted(more) == Accepted(labels) + seq(k, _ => post)
            && PrintedFrom(more) == PrintedFrom(labels) && WatcherOf(more) == WatcherOf(labels)
  {
    var more := labels + Writes(post, k);
    if k == 0 {
      assert more == labels;
    } else {
      assert more[..|more| - 1] == labels + Writes(post, k - 1);
      UnwatchedWrites(labels, post, k - 1);
      assert seq(k - 1, _ => post) + [post] == seq(k, _ => post);
    }
  }

  /** After 2^64 writes the number is zero again and a tick prints nothing. */
  lemma ZeroCountIsMissed(post: Post)
    requires |post.payload| <= MAX_PAYLOAD
    ensures var labels := Writes(post, B64);
            && !UpToDate(WatcherOf(labels + [Tick]), Accepted(labels))
            && WatcherOf(labels + [Tick]).printed == []
  {
    UnwatchedWrites([], post, B64);
    assert [] + Writes(post, B64) == Writes(post, B64);
    TickSees(Writes(post, B64));
  }

  lemma PrintedOnce(first: Post)
    requires |first.payload| <= MAX_PAYLOAD
    ensures var labels := [Write(first), Tick];
            && WatcherOf(labels) == Watcher(1, [Message(1, first.nanos, first.payload)])
            && Accepted(labels) == [first]
  {
    var one, two := [Write(first)], [Write(first), Tick];
    assert one[..0] == [] && two[..1] == one;
    assert Accepted(one) == [] + [first] && WatcherOf(one) == Watcher(0, []);
    assert Accepted(two) == [first] + [];
  }

  lemma RoundAgain(first: Post, post: Post)
    ensures var posts := [first] + seq(B64, _ => post);
            posts != [] && Latest(posts) == post && LatestMessage(posts) == Message(1, post.nanos, post.payload)
  {}

  /** After one printed write and 2^64 further ones the number is one again, and a tick leaves the
      first write as the last message printed. */
  lemma RepeatedCountIsMissed(first: Post, post: Post)
    requires |first.payload| <= MAX_PAYLOAD && |post.payload| <= MAX_PAYLOAD && first != post
    ensures var labels := [Write(first), Tick] + Writes(post, B64);
            && !UpToDate(WatcherOf(labels + [Tick]), Accepted(labels)) && Latest(Accepted(labels)) == post
            && WatcherOf(labels + [Tick]).printed == [Message(1, first.nanos, first.payload)]
  {
    PrintedOnce(first);
    UnwatchedWrites([Write(first), Tick], post, B64);
    TickSees([Write(first), Tick] + Writes(post, B64));
    RoundAgain(first, post);
    hide WatcherOf, Accepted, PrintedFrom, Writes, LatestMessage, Latest;
  }

  /** It takes no 2^64 writes when the page is initialised again: the number restarts, and the first
      write after that is dropped by a watcher that printed another first write before. */
  lemma ReinitialisedIsMissed(first: Post, post: Post)
    requires |first.payload| <= MAX_PAYLOAD && |post.payload| <= MAX_PAYLOAD && first != post
    ensures var labels := [Write(first), Tick, Init, Write(post)];
            && !UpToDate(WatcherOf(labels + [Tick]), Accepted(labels)) && Accepted(labels) == [post]
            && WatcherOf(labels + [Tick]).printed == [Message(1, first.nanos, first.payload)]
  {
    var labels := [Write(first), Tick, Init, Write(post)];
    var two, three := [Write(first), Tick], [Write(first), Tick, Init];
    assert three[..2] == two && labels[..3] == three;
    PrintedOnce(first);
    assert WatcherOf(three) == WatcherOf(two) && WatcherOf(labels) == WatcherOf(three);
    assert Accepted(three) == [] && Accepted(labels) == [] + [post];
    TickSees(labels);
  }
}
