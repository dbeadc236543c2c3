/** The epoll server: one loop multiplexing a handshake-then-echo protocol over many descriptors. */
module EventLoop {
  import opened Words
  import opened TrimSpace

  datatype ConnState = Handshake | Authenticated

  /** What read(2) gave: a chunk, or an error. An empty chunk is end of file. */
  datatype ReadResult = Chunk(bytes: seq<Byte>) | ReadFails

  /** One entry of the event list, with what the system call on it returned. */
  datatype Event = Accept(accepted: Option<nat>) | Ready(ready: nat, read: ReadResult)

  /** What the loop did to the outside. */
  datatype Effect = Sent(fd: nat, bytes: seq<Byte>) | Closed(fd: nat)

  datatype State = State(connections: map<nat, ConnState>, effects: seq<Effect>)

  function Ascii(s: string): (b: seq<Byte>)
    ensures |b| == |s|
    ensures forall i :: 0 <= i < |s| && s[i] as int < 256 ==> b[i] == s[i] as int
  {
    seq(|s|, i requires 0 <= i < |s| => s[i] as int % 256)
  }

  const CLIENT_HELLO := "CLIENT_HELLO"
  const BANNER := "SERVER_READY\n"
  const AUTH_SUCCESS := "AUTH_SUCCESS: Welcome to Echo Room\n"
  const BAD_HANDSHAKE := "ERROR: Send CLIENT_HELLO to begin\n"
  const ECHO := "ECHO: "

  predicate IsHello(chunk: seq<Byte>) { Trim(chunk) == Ascii(CLIENT_HELLO) }

  /** The reply to a chunk, one element per write. */
  function Reply(state: ConnState, chunk: seq<Byte>): seq<seq<Byte>> {
    if state.Authenticated? then [Ascii(ECHO), chunk]
    else if IsHello(chunk) then [Ascii(AUTH_SUCCESS)]
    else [Ascii(BAD_HANDSHAKE)]
  }

  function Next(state: ConnState, chunk: seq<Byte>): ConnState {
    if IsHello(chunk) then Authenticated else state
  }

  function SendAll(fd: nat, writes: seq<seq<Byte>>): seq<Effect> {
    seq(|writes|, i requires 0 <= i < |writes| => Sent(fd, writes[i]))
  }

  predicate Gone(r: ReadResult) { r.ReadFails? || r.bytes == [] }

  /** The loop body for one event. */
  function Handle(s: State, ev: Event): State {
    match ev
    case Accept(None) => s
    case Accept(Some(fd)) => State(s.connections[fd := Handshake], s.effects + [Sent(fd, Ascii(BANNER))])
    case Ready(fd, read) =>
      if fd !in s.connections then s
      else if Gone(read) then State(s.connections - {fd}, s.effects + [Closed(fd)])
      else State(s.connections[fd := Next(s.connections[fd], read.bytes)],
                 s.effects + SendAll(fd, Reply(s.connections[fd], read.bytes)))
  }

  function RunEvents(s: State, events: seq<Event>): State
    decreases |events|
  {
    if events == [] then s else RunEvents(Handle(s, events[0]), events[1..])
  }

  const START := State(map[], [])

  /** One pass of the outer loop: epoll_wait fails, or returns (possibly no) events; stop says
      whether shutdown has been requested by then. */
  datatype Round = WaitFails | Wait(stop: bool, events: seq<Event>)

  datatype Outcome = Failed | Stopped | Running

  /** The events the loop handles before it returns, and how it ends. */
  function Handled(rounds: seq<Round>): (seq<Event>, Outcome) {
    if rounds == [] then ([], Running)
    else match rounds[0]
      case WaitFails => ([], Failed)
      case Wait(stop, events) =>
        if stop then ([], Stopped)
        else
          var (more, outcome) := Handled(rounds[1..]);
          (events + more, outcome)
  }

  /** The events after seen, taken from the i-th round on. */
  ghost predicate HandledFrom(rounds: seq<Round>, seen: seq<Event>, i: nat)
    requires i <= |rounds|
  {
    Handled(rounds) == (seen + Handled(rounds[i..]).0, Handled(rounds[i..]).1)
  }

  lemma FirstRound(rounds: seq<Round>)
    requires rounds != []
    ensures match rounds[0]
            case WaitFails => Handled(rounds) == ([], Failed)
            case Wait(stop, events) =>
              if stop then Handled(rounds) == ([], Stopped)
              else Handled(rounds) == (events + Handled(rounds[1..]).0, Handled(rounds[1..]).1)
  {}

  lemma NextRound(rounds: seq<Round>, seen: seq<Event>, i: nat)
    requires i < |rounds| && HandledFrom(rounds, seen, i)
    ensures match rounds[i]
            case WaitFails => Handled(rounds) == (seen, Failed)
            case Wait(stop, events) =>
              if stop then Handled(rounds) == (seen, Stopped) else HandledFrom(rounds, seen + events, i + 1)
  {
    hide Handled;
    FirstRound(rounds[i..]);
    assert rounds[i..][1..] == rounds[i + 1..];
    assert seen + [] == seen;
    if rounds[i].Wait? {
      var more := Handled(rounds[i + 1..]).0;
      assert seen + (rounds[i].events + more) == (seen + rounds[i].events) + more;
    }
  }

  lemma AllRounds(rounds: seq<Round>, seen: seq<Event>)
    ensures HandledFrom(rounds, [], 0)
    ensures HandledFrom(rounds, seen, |rounds|) ==> Handled(rounds) == (seen, Running)
  {
    assert rounds[0..] == rounds && [] + Handled(rounds).0 == Handled(rounds).0;
    assert rounds[|rounds|..] == [] && seen + [] == seen;
  }

  function Flatten(eventLists: seq<seq<Event>>): seq<Event> {
    if eventLists == [] then [] else eventLists[0] + Flatten(eventLists[1..])
  }

  function Rounds(eventLists: seq<seq<Event>>): seq<Round> {
    seq(|eventLists|, i requires 0 <= i < |eventLists| => Wait(false, eventLists[i]))
  }

  lemma {:induction false} HandledFirst(eventLists: seq<seq<Event>>, more: seq<Round>)
    ensures Handled(Rounds(eventLists) + more) == (Flatten(eventLists) + Handled(more).0, Handled(more).1)
  {
    hide Handled;
    if eventLists == [] {
      assert Rounds([]) + more == more && [] + Handled(more).0 == Handled(more).0;
    } else {
      var rest := eventLists[1..];
      HandledFirst(rest, more);
      assert Rounds(eventLists) + more == [Wait(false, eventLists[0])] + (Rounds(rest) + more);
      HandledRest(Wait(false, eventLists[0]), Rounds(rest) + more);
      hide Rounds;
      assert eventLists[0] + (Flatten(rest) + Handled(more).0) == Flatten(eventLists) + Handled(more).0;
    }
  }

  /** Every event of the rounds before the loop ends is handled, in order; the events that come with a
      requested stop are not, and neither is anything after the end. */
  lemma HandledAre(eventLists: seq<seq<Event>>, events: seq<Event>, more: seq<Round>)
    ensures Handled(Rounds(eventLists)) == (Flatten(eventLists), Running)
    ensures Handled(Rounds(eventLists) + ([Wait(true, events)] + more)) == (Flatten(eventLists), Stopped)
    ensures Handled(Rounds(eventLists) + ([WaitFails] + more)) == (Flatten(eventLists), Failed)
  {
    HandledFirst(eventLists, []);
    HandledFirst(eventLists, [Wait(true, events)] + more);
    HandledFirst(eventLists, [WaitFails] + more);
    hide Rounds, Flatten;
    assert Rounds(eventLists) + [] == Rounds(eventLists);
    assert Flatten(eventLists) + [] == Flatten(eventLists);
  }

  lemma HandledRest(round: Round, rest: seq<Round>)
    requires round.Wait? && !round.stop
    ensures Handled([round] + rest) == (round.events + Handled(rest).0, Handled(rest).1)
  {
    assert ([round] + rest)[1..] == rest;
  }

  lemma {:induction false} RunAppend(s: State, a: seq<Event>, b: seq<Event>)
    ensures RunEvents(s, a + b) == RunEvents(RunEvents(s, a), b)
    decreases |a|
  {
    hide Handle;
    if a == [] {
      assert a + b == b;
    } else {
      assert (a + b)[1..] == a[1..] + b;
      RunAppend(Handle(s, a[0]), a[1..], b);
    }
  }

  lemma RunSnoc(s: State, events: seq<Event>, ev: Event)
    ensures RunEvents(s, events + [ev]) == Handle(RunEvents(s, events), ev)
  {
    RunAppend(s, events, [ev]);
    assert [ev][1..] == [];
  }

  lemma RunNone(s: State)
    ensures RunEvents(s, []) == s
  {}

  lemma HelloText()
    ensures Ascii(CLIENT_HELLO)
         == [67, 76, 73, 69, 78, 84, 95, 72, 69, 76, 76, 79]
  {}

  /** What one event makes of the table and the effects, case by case. */
  ghost predicate TurnIs(table: map<nat, ConnState>, effects: seq<Effect>, ev: Event,
                         table': map<nat, ConnState>, effects': seq<Effect>)
  {
    match ev
    case Accept(None) => table' == table && effects' == effects
    case Accept(Some(fd)) =>
      table' == table[fd := Handshake] && effects' == effects + [Sent(fd, Ascii("SERVER_READY\n"))]
    case Ready(fd, read) =>
      if fd !in table then table' == table && effects' == effects
      else if read == ReadFails || read == Chunk([]) then
        table' == table - {fd} && effects' == effects + [Closed(fd)]
      else if table[fd] == Authenticated then
        table' == table && effects' == effects + [Sent(fd, Ascii("ECHO: ")), Sent(fd, read.bytes)]
      else if Trim(read.bytes) == Ascii("CLIENT_HELLO") then
        && table' == table[fd := Authenticated]
        && effects' == effects + [Sent(fd, Ascii("AUTH_SUCCESS: Welcome to Echo Room\n"))]
      else
        && table' == table
        && effects' == effects + [Sent(fd, Ascii("ERROR: Send CLIENT_HELLO to begin\n"))]
  }

  lemma HandleInFull(s: State, ev: Event)
    ensures var s' := Handle(s, ev); TurnIs(s.connections, s.effects, ev, s'.connections, s'.effects)
  {
    hide Trim, Ascii;
    var s' := Handle(s, ev);
    if ev.Ready? && ev.ready in s.connections && !Gone(ev.read) {
      var fd, chunk := ev.ready, ev.read.bytes;
      assert s.connections[fd := s.connections[fd]] == s.connections;
      assert s'.effects == s.effects + SendAll(fd, Reply(s.connections[fd], chunk));
      if s.connections[fd] == Authenticated {
        assert SendAll(fd, [Ascii(ECHO), chunk]) == [Sent(fd, Ascii(ECHO)), Sent(fd, chunk)];
      } else {
        assert forall w: seq<Byte> :: SendAll(fd, [w]) == [Sent(fd, w)];
      }
    }
  }

  /** The shutdown closes, in any order, each open descriptor exactly once. */
  ghost predicate ClosesEach(effects: seq<Effect>, fds: set<nat>) {
    && (forall i :: 0 <= i < |effects| ==> effects[i].Closed? && effects[i].fd in fds)
    && (forall i, j :: 0 <= i < j < |effects| ==> effects[i] != effects[j])
    && (forall fd :: fd in fds ==> Closed(fd) in effects)
  }

  class Server {
    var connections: map<nat, ConnState>
    var effects: seq<Effect>

    constructor ()
      ensures connections == map[] && effects == []
    {
      connections := map[];
      effects := [];
    }

    /** One entry of the event list. */
    method HandleEvent(ev: Event)
      modifies this
      ensures State(connections, effects) == Handle(old(State(connections, effects)), ev)
      ensures TurnIs(old(connections), old(effects), ev, connections, effects)
    {
      HandleInFull(State(connections, effects), ev);
      hide Trim, Ascii;
      if ev.Accept? {
        if ev.accepted == None {
          return;
        }
        var cfd := ev.accepted.value;
        connections := connections[cfd := Handshake];
        effects := effects + [Sent(cfd, Ascii(BANNER))];
        return;
      }
      var fd := ev.ready;
      if fd !in connections {
        return;
      }
      if Gone(ev.read) {
        effects := effects + [Closed(fd)];
        connections := connections - {fd};
        return;
      }
      var chunk := ev.read.bytes;
      var input := Trim(chunk);
      ghost var before := effects;
      if connections[fd] == Handshake {
        if input == Ascii(CLIENT_HELLO) {
          connections := connections[fd := Authenticated];
          effects := effects + [Sent(fd, Ascii(AUTH_SUCCESS))];
        } else {
          effects := effects + [Sent(fd, Ascii(BAD_HANDSHAKE))];
        }
      } else {
        effects := effects + [Sent(fd, Ascii(ECHO))];
        effects := effects + [Sent(fd, chunk)];
        assert effects == before + SendAll(fd, [Ascii(ECHO), chunk]);
      }
    }

    method CloseAll()
      modifies this`effects
      ensures exists closes :: effects == old(effects) + closes && ClosesEach(closes, connections.Keys)
    {
      var left := connections.Keys;
      ghost var closes: seq<Effect> := [];
      while left != {}
        invariant left <= connections.Keys
        invariant effects == old(effects) + closes && ClosesEach(closes, connections.Keys - left)
        decreases |left|
      {
        var fd :| fd in left;
        effects := effects + [Closed(fd)];
        closes := closes + [Closed(fd)];
        left := left - {fd};
      }
      assert connections.Keys - left == connections.Keys;
    }

    /** runServer after its sockets are open. */
    method RunServer(rounds: seq<Round>) returns (outcome: Outcome)
      modifies this
      ensures outcome == Handled(rounds).1
      ensures var s := RunEvents(old(State(connections, effects)), Handled(rounds).0);
              && connections == s.connections
              && if outcome.Stopped?
                 then exists closes :: effects == s.effects + closes && ClosesEach(closes, connections.Keys)
                 else effects == s.effects
    {
      hide Handled, HandledFrom, Handle, RunEvents;
      ghost var start := State(connections, effects);
      ghost var seen: seq<Event> := [];
      AllRounds(rounds, []);
      RunNone(start);
      for i := 0 to |rounds|
        invariant State(connections, effects) == RunEvents(start, seen)
        invariant HandledFrom(rounds, seen, i)
      {
        NextRound(rounds, seen, i);
        if rounds[i].WaitFails? {
          return Failed;
        }
        if rounds[i].stop {
          CloseAll();
          return Stopped;
        }
        var events := rounds[i].events;
        ghost var before := seen;
        for j := 0 to |events|
          invariant seen == before + events[..j]
          invariant State(connections, effects) == RunEvents(start, seen)
        {
          RunSnoc(start, seen, events[j]);
          HandleEvent(events[j]);
          seen := seen + [events[j]];
          assert events[..j + 1] == events[..j] + [events[j]];
        }
        assert events[..|events|] == events;
      }
      AllRounds(rounds, seen);
      return Running;
    }
  }
}

/** What every run of the event loop guarantees. */
module EventLoopTheorems {
  import opened Words
  import opened TrimSpace
  import opened EventLoop

  /** A chunk is a hello exactly when it is CLIENT_HELLO between runs of white space. */
  lemma HelloIff(chunk: seq<Byte>)
    ensures IsHello(chunk)
       <==> exists before, after :: AllSpaces(before) && AllSpaces(after)
              && chunk == Flat(before) + Ascii(CLIENT_HELLO) + Flat(after)
  {
    TrimsToIff(chunk, Ascii(CLIENT_HELLO));
  }

  lemma HelloBetween(before: seq<seq<Byte>>, after: seq<seq<Byte>>, chunk: seq<Byte>)
    requires AllSpaces(before) && AllSpaces(after)
    requires chunk == Flat(before) + [67, 76, 73, 69, 78, 84, 95, 72, 69, 76, 76, 79] + Flat(after)
    ensures IsHello(chunk)
  {
    HelloText();
    hide Ascii;
    HelloIff(chunk);
  }

  lemma SolidIsItself(t: seq<Byte>)
    requires Solid(t)
    ensures Trim(t) == t
  {
    hide Trim;
    TrimsToIff(t, t);
    assert Flat([]) + t + Flat([]) == t;
  }

  lemma FlatOf(a: seq<Byte>, b: seq<Byte>)
    ensures Flat([]) == [] && Flat([a]) == a && Flat([a, b]) == a + b
  {
    assert [a][1..] == [] && [a, b][1..] == [b] && [b][1..] == [];
  }

  lemma HelloAmid(b: seq<Byte>, hello: seq<Byte>, a: seq<Byte>, a2: seq<Byte>)
    requires hello == [67, 76, 73, 69, 78, 84, 95, 72, 69, 76, 76, 79]
    requires (b == [] || IsSpaceRune(b)) && (a == [] || IsSpaceRune(a)) && (a2 == [] || IsSpaceRune(a2))
    ensures IsHello(b + hello + (a + a2))
  {
    FlatOf(b, []);
    FlatOf(a, a2);
    FlatOf(a2, []);
    hide IsHello, Flat, IsSpaceRune;
    var before := if b == [] then [] else [b];
    var after := if a == [] && a2 == [] then [] else if a2 == [] then [a] else if a == [] then [a2] else [a, a2];
    assert Flat(before) == b && Flat(after) == a + a2;
    HelloBetween(before, after, b + hello + (a + a2));
  }

  lemma Joins(b: seq<Byte>, t: seq<Byte>, a: seq<Byte>)
    ensures [] + t + ([] + []) == t && b + t + ([] + []) == b + t && [] + t + (a + []) == t + a && [] + t + a == t + a
  {}

  /** A blank or an end of line around the text does not matter. */
  lemma HelloExamples(hello: seq<Byte>)
    requires hello == [67, 76, 73, 69, 78, 84, 95, 72, 69, 76, 76, 79]
    ensures IsHello(hello) && IsHello([9] + hello)
    ensures IsHello(hello + [10]) && IsHello(hello + [32]) && IsHello(hello + ([13] + [10]))
  {
    HelloAmid([], hello, [], []);
    HelloAmid([], hello, [10], []);
    HelloAmid([], hello, [32], []);
    HelloAmid([], hello, [13], [10]);
    HelloAmid([9], hello, [], []);
    hide IsHello, IsSpaceRune;
    Joins([9], hello, [10]);
    Joins([9], hello, [32]);
    Joins([9], hello, [13] + [10]);
  }

  /** Anything else does: a longer word, a shorter one, and nothing at all are no hello. */
  lemma OtherWords(hello: seq<Byte>)
    requires hello == [67, 76, 73, 69, 78, 84, 95, 72, 69, 76, 76, 79]
    ensures !IsHello(hello + [33]) && !IsHello(hello[..11]) && !IsHello([])
  {
    HelloText();
    assert Trim([]) == [];
    hide Trim, Ascii;
    SolidIsItself(hello + [33]);
    SolidIsItself(hello[..11]);
  }

  // ---- one connection on its own ----

  /** The writes to one descriptor, in order. */
  function SentTo(effects: seq<Effect>, fd: nat): seq<seq<Byte>> {
    if effects == [] then []
    else
      var last := effects[|effects| - 1];
      SentTo(effects[..|effects| - 1], fd) + (if last.Sent? && last.fd == fd then [last.bytes] else [])
  }

  predicate Concerns(ev: Event, fd: nat) {
    match ev
    case Accept(accepted) => accepted == Some(fd)
    case Ready(ready, _) => ready == fd
  }

  /** The events of one descriptor. */
  function Only(events: seq<Event>, fd: nat): seq<Event> {
    if events == [] then []
    else (if Concerns(events[0], fd) then [events[0]] else []) + Only(events[1..], fd)
  }

  lemma {:induction false} SentToAppend(a: seq<Effect>, b: seq<Effect>, fd: nat)
    ensures SentTo(a + b, fd) == SentTo(a, fd) + SentTo(b, fd)
    decreases |b|
  {
    if b == [] {
      assert a + b == a;
    } else {
      assert (a + b)[..|a + b| - 1] == a + b[..|b| - 1];
      SentToAppend(a, b[..|b| - 1], fd);
    }
  }

  lemma {:induction false} SentToSendAll(fd: nat, writes: seq<seq<Byte>>, c: nat)
    ensures SentTo(SendAll(fd, writes), c) == if fd == c then writes else []
  {
    if writes != [] {
      var init := writes[..|writes| - 1];
      assert SendAll(fd, writes)[..|writes| - 1] == SendAll(fd, init);
      SentToSendAll(fd, init, c);
      assert writes == init + [writes[|writes| - 1]];
    }
  }

  /** Two states agree about a descriptor: its table entry and what it was sent. */
  ghost predicate AgreeOn(s: State, t: State, fd: nat) {
    && (fd in s.connections <==> fd in t.connections)
    && (fd in s.connections ==> s.connections[fd] == t.connections[fd])
    && SentTo(s.effects, fd) == SentTo(t.effects, fd)
  }

  lemma SentToOne(e: Effect, fd: nat)
    ensures SentTo([e], fd) == if e.Sent? && e.fd == fd then [e.bytes] else []
  {
    assert [e][..0] == [];
  }

  lemma ForeignEvent(s: State, ev: Event, fd: nat)
    requires !Concerns(ev, fd)
    ensures AgreeOn(Handle(s, ev), s, fd)
  {
    hide Reply, Ascii;
    match ev
    case Accept(None) =>
    case Accept(Some(c)) =>
      SentToAppend(s.effects, [Sent(c, Ascii(BANNER))], fd);
      SentToOne(Sent(c, Ascii(BANNER)), fd);
    case Ready(c, read) =>
      if c in s.connections && Gone(read) {
        SentToAppend(s.effects, [Closed(c)], fd);
        SentToOne(Closed(c), fd);
      } else if c in s.connections {
        var writes := Reply(s.connections[c], read.bytes);
        SentToAppend(s.effects, SendAll(c, writes), fd);
        SentToSendAll(c, writes, fd);
      }
  }

  lemma OwnEvent(s: State, t: State, ev: Event, fd: nat)
    requires Concerns(ev, fd) && AgreeOn(s, t, fd)
    ensures AgreeOn(Handle(s, ev), Handle(t, ev), fd)
  {
    match ev
    case Accept(_) =>
      SentToAppend(s.effects, [Sent(fd, Ascii(BANNER))], fd);
      SentToAppend(t.effects, [Sent(fd, Ascii(BANNER))], fd);
    case Ready(_, read) =>
      SentToAppend(s.effects, [Closed(fd)], fd);
      SentToAppend(t.effects, [Closed(fd)], fd);
      if fd in s.connections && !Gone(read) {
        SentToAppend(s.effects, SendAll(fd, Reply(s.connections[fd], read.bytes)), fd);
        SentToAppend(t.effects, SendAll(fd, Reply(s.connections[fd], read.bytes)), fd);
      }
  }

  /** Non-interference: for any interleaving of accepts, reads and closes, with descriptor numbers
      reused at will, a descriptor sees exactly what it would see if the loop got its events alone. */
  lemma {:induction false} Isolation(s: State, t: State, events: seq<Event>, fd: nat)
    requires AgreeOn(s, t, fd)
    ensures AgreeOn(RunEvents(s, events), RunEvents(t, Only(events, fd)), fd)
    decreases |events|
  {
    hide Handle, SentTo;
    if events != [] {
      var ev := events[0];
      var s' := Handle(s, ev);
      if Concerns(ev, fd) {
        OwnEvent(s, t, ev, fd);
        Isolation(s', Handle(t, ev), events[1..], fd);
        assert Only(events, fd)[1..] == Only(events[1..], fd);
      } else {
        ForeignEvent(s, ev, fd);
        Isolation(s', t, events[1..], fd);
        assert Only(events, fd) == Only(events[1..], fd);
      }
    }
  }

  // ---- the transcript of one session ----

  function FirstTrue(flags: seq<bool>): (i: nat)
    ensures i <= |flags|
    ensures i < |flags| ==> flags[i]
    ensures forall j :: 0 <= j < i ==> !flags[j]
  {
    if flags == [] || flags[0] then 0 else 1 + FirstTrue(flags[1..])
  }

  function Hellos(chunks: seq<seq<Byte>>): (flags: seq<bool>)
    ensures |flags| == |chunks|
    ensures forall i :: 0 <= i < |chunks| ==> flags[i] == IsHello(chunks[i])
  {
    seq(|chunks|, i requires 0 <= i < |chunks| => IsHello(chunks[i]))
  }

  /** Position of the first chunk that trims to CLIENT_HELLO, or the number of chunks. */
  function FirstHello(chunks: seq<seq<Byte>>): (i: nat)
    ensures i <= |chunks|
  {
    FirstTrue(Hellos(chunks))
  }

  lemma FirstHelloCons(chunks: seq<seq<Byte>>)
    requires chunks != []
    ensures FirstHello(chunks) == if IsHello(chunks[0]) then 0 else 1 + FirstHello(chunks[1..])
  {
    hide IsHello;
    assert Hellos(chunks)[1..] == Hellos(chunks[1..]);
  }

  function Echoes(chunks: seq<seq<Byte>>): (r: seq<seq<Byte>>)
    ensures |r| == 2 * |chunks|
  {
    if chunks == [] then [] else [Ascii(ECHO), chunks[0]] + Echoes(chunks[1..])
  }

  /** The writes of a session: the banner, an error for each chunk before the first hello, one
      success, then the raw chunks echoed in order. */
  function Transcript(chunks: seq<seq<Byte>>): seq<seq<Byte>> {
    [Ascii(BANNER)] + Dialogue(chunks)
  }

  function Errors(m: nat): (r: seq<seq<Byte>>)
    ensures |r| == m
  {
    seq(m, _ => Ascii(BAD_HANDSHAKE))
  }

  function Dialogue(chunks: seq<seq<Byte>>): seq<seq<Byte>> {
    var m := FirstHello(chunks);
    Errors(m) + (if m == |chunks| then [] else [Ascii(AUTH_SUCCESS)] + Echoes(chunks[m + 1..]))
  }

  function Reads(fd: nat, chunks: seq<seq<Byte>>): seq<Event> {
    seq(|chunks|, i requires 0 <= i < |chunks| => Ready(fd, Chunk(chunks[i])))
  }

  /** One chunk on an open connection. */
  lemma OneChunk(s: State, fd: nat, chunk: seq<Byte>)
    requires fd in s.connections && chunk != []
    ensures var s', state := Handle(s, Ready(fd, Chunk(chunk))), s.connections[fd];
            && SentTo(s'.effects, fd) == SentTo(s.effects, fd) + Reply(state, chunk)
            && fd in s'.connections && s'.connections[fd] == Next(state, chunk)
  {
    hide Reply, Next;
    SentToAppend(s.effects, SendAll(fd, Reply(s.connections[fd], chunk)), fd);
    SentToSendAll(fd, Reply(s.connections[fd], chunk), fd);
  }

  lemma ReadsCons(s: State, fd: nat, chunks: seq<seq<Byte>>)
    requires chunks != []
    ensures RunEvents(s, Reads(fd, chunks))
         == RunEvents(Handle(s, Ready(fd, Chunk(chunks[0]))), Reads(fd, chunks[1..]))
  {
    hide Handle;
    assert Reads(fd, chunks)[1..] == Reads(fd, chunks[1..]);
  }

  lemma {:induction false} AuthenticatedEchoes(s: State, fd: nat, chunks: seq<seq<Byte>>)
    requires fd in s.connections && s.connections[fd] == Authenticated
    requires forall i :: 0 <= i < |chunks| ==> chunks[i] != []
    ensures var s' := RunEvents(s, Reads(fd, chunks));
            && SentTo(s'.effects, fd) == SentTo(s.effects, fd) + Echoes(chunks)
            && fd in s'.connections && s'.connections[fd] == Authenticated
    decreases |chunks|
  {
    hide Handle, SentTo, Ascii, IsHello;
    if chunks != [] {
      OneChunk(s, fd, chunks[0]);
      ReadsCons(s, fd, chunks);
      AuthenticatedEchoes(Handle(s, Ready(fd, Chunk(chunks[0]))), fd, chunks[1..]);
    } else {
      assert RunEvents(s, Reads(fd, chunks)) == s;
    }
  }

  lemma DialogueOfHello(chunks: seq<seq<Byte>>)
    requires chunks != [] && FirstHello(chunks) == 0
    ensures Dialogue(chunks) == [Ascii(AUTH_SUCCESS)] + Echoes(chunks[1..])
  {
    hide Ascii, FirstHello, Echoes;
    assert Errors(0) == [];
  }

  lemma DialogueOfError(chunks: seq<seq<Byte>>)
    requires chunks != [] && FirstHello(chunks) == 1 + FirstHello(chunks[1..])
    ensures Dialogue(chunks) == [Ascii(BAD_HANDSHAKE)] + Dialogue(chunks[1..])
  {
    hide FirstHello, Echoes;
    var m, rest := FirstHello(chunks[1..]), chunks[1..];
    assert Errors(1 + m) == [Ascii(BAD_HANDSHAKE)] + Errors(m);
    assert m < |rest| ==> rest[m + 1..] == chunks[m + 2..];
    hide Ascii, Errors;
    var tail := if m == |rest| then [] else [Ascii(AUTH_SUCCESS)] + Echoes(rest[m + 1..]);
    assert [Ascii(BAD_HANDSHAKE)] + Errors(m) + tail == [Ascii(BAD_HANDSHAKE)] + (Errors(m) + tail);
  }

  lemma DialogueCons(chunks: seq<seq<Byte>>)
    requires chunks != []
    ensures Dialogue(chunks) == Reply(Handshake, chunks[0])
              + (if IsHello(chunks[0]) then Echoes(chunks[1..]) else Dialogue(chunks[1..]))
  {
    FirstHelloCons(chunks);
    hide Ascii, IsHello, FirstHello, Echoes, Dialogue;
    if IsHello(chunks[0]) {
      DialogueOfHello(chunks);
    } else {
      DialogueOfError(chunks);
    }
  }

  lemma {:induction false} HandshakeDialogue(s: State, fd: nat, chunks: seq<seq<Byte>>)
    requires fd in s.connections && s.connections[fd] == Handshake
    requires forall i :: 0 <= i < |chunks| ==> chunks[i] != []
    ensures var s' := RunEvents(s, Reads(fd, chunks));
            && SentTo(s'.effects, fd) == SentTo(s.effects, fd) + Dialogue(chunks)
            && fd in s'.connections
            && (s'.connections[fd] == Authenticated <==> exists i :: 0 <= i < |chunks| && IsHello(chunks[i]))
    decreases |chunks|
  {
    hide Handle, SentTo, Ascii, IsHello, Echoes, Reply;
    if chunks == [] {
      assert RunEvents(s, Reads(fd, chunks)) == s && Dialogue(chunks) == [];
    } else {
      OneChunk(s, fd, chunks[0]);
      ReadsCons(s, fd, chunks);
      DialogueCons(chunks);
      hide Dialogue;
      var s1 := Handle(s, Ready(fd, Chunk(chunks[0])));
      if IsHello(chunks[0]) {
        AuthenticatedEchoes(s1, fd, chunks[1..]);
      } else {
        HandshakeDialogue(s1, fd, chunks[1..]);
        assert forall i :: 1 <= i < |chunks| ==> chunks[i] == chunks[1..][i - 1];
      }
    }
  }

  /** Whatever else the loop does meanwhile: between its accept and its close a connection is
      written exactly the transcript of its own chunks. */
  lemma SessionTranscript(s: State, fd: nat, events: seq<Event>, chunks: seq<seq<Byte>>)
    requires Only(events, fd) == Reads(fd, chunks) && forall i :: 0 <= i < |chunks| ==> chunks[i] != []
    ensures var s' := RunEvents(s, [Accept(Some(fd))] + events);
            && SentTo(s'.effects, fd) == SentTo(s.effects, fd) + Transcript(chunks)
            && fd in s'.connections
            && (s'.connections[fd] == Authenticated <==> exists i :: 0 <= i < |chunks| && IsHello(chunks[i]))
  {
    hide Ascii, Dialogue, IsHello;
    var s1 := Handle(s, Accept(Some(fd)));
    assert ([Accept(Some(fd))] + events)[1..] == events;
    SentToAppend(s.effects, [Sent(fd, Ascii(BANNER))], fd);
    SentToOne(Sent(fd, Ascii(BANNER)), fd);
    Isolation(s1, s1, events, fd);
    HandshakeDialogue(s1, fd, chunks);
  }

  /** A descriptor that is not open is never written to or closed until it is accepted again. */
  lemma {:induction false} ClosedStaysSilent(s: State, fd: nat, events: seq<Event>)
    requires fd !in s.connections && Accept(Some(fd)) !in events
    ensures AgreeOn(RunEvents(s, events), s, fd) && Closes(RunEvents(s, events).effects, fd) == Closes(s.effects, fd)
    decreases |events|
  {
    if events != [] {
      var ev := events[0];
      if !Concerns(ev, fd) {
        ForeignEvent(s, ev, fd);
        ForeignCloses(s, ev, fd);
      }
      hide Handle;
      ClosedStaysSilent(Handle(s, ev), fd, events[1..]);
    }
  }

  // ---- the connection table ----

  function Closes(effects: seq<Effect>, fd: nat): nat {
    if effects == [] then 0
    else Closes(effects[..|effects| - 1], fd) + (if effects[|effects| - 1] == Closed(fd) then 1 else 0)
  }

  function Accepts(events: seq<Event>, fd: nat): nat {
    if events == [] then 0
    else (if events[0] == Accept(Some(fd)) then 1 else 0) + Accepts(events[1..], fd)
  }

  /** accept(2) never returns a descriptor that is still open. */
  predicate OsPromise(s: State, events: seq<Event>)
    decreases |events|
  {
    events == [] ||
    (&& (events[0].Accept? && events[0].accepted.Some? ==> events[0].accepted.value !in s.connections)
     && OsPromise(Handle(s, events[0]), events[1..]))
  }

  function Open(s: State, fd: nat): nat { if fd in s.connections then 1 else 0 }

  lemma {:induction false} ClosesAppend(a: seq<Effect>, b: seq<Effect>, fd: nat)
    ensures Closes(a + b, fd) == Closes(a, fd) + Closes(b, fd)
    decreases |b|
  {
    if b == [] {
      assert a + b == a;
    } else {
      assert (a + b)[..|a + b| - 1] == a + b[..|b| - 1];
      ClosesAppend(a, b[..|b| - 1], fd);
    }
  }

  lemma {:induction false} NoCloses(effects: seq<Effect>, fd: nat)
    requires Closed(fd) !in effects
    ensures Closes(effects, fd) == 0
  {
    if effects != [] {
      NoCloses(effects[..|effects| - 1], fd);
    }
  }

  lemma ForeignCloses(s: State, ev: Event, fd: nat)
    requires !Concerns(ev, fd)
    ensures Closes(Handle(s, ev).effects, fd) == Closes(s.effects, fd)
  {
    var s' := Handle(s, ev);
    if s'.effects != s.effects {
      var added := s'.effects[|s.effects|..];
      assert s'.effects == s.effects + added;
      ClosesAppend(s.effects, added, fd);
      NoCloses(added, fd);
    }
  }

  lemma EventBalance(s: State, ev: Event, fd: nat)
    requires ev.Accept? && ev.accepted.Some? ==> ev.accepted.value !in s.connections
    ensures var s' := Handle(s, ev);
            Closes(s'.effects, fd) + Open(s', fd) == Closes(s.effects, fd) + Open(s, fd) + Accepts([ev], fd)
  {
    var s' := Handle(s, ev);
    assert [ev][1..] == [];
    if !Concerns(ev, fd) {
      ForeignCloses(s, ev, fd);
    } else if s'.effects != s.effects {
      var added := s'.effects[|s.effects|..];
      assert s'.effects == s.effects + added;
      ClosesAppend(s.effects, added, fd);
      if ev.Ready? && Gone(ev.read) {
        assert added == [Closed(fd)];
        assert added[..0] == [];
      } else {
        NoCloses(added, fd);
      }
    }
  }

  /** The table holds exactly the descriptors accepted and not yet closed, each closed at most once
      per accept. */
  lemma {:induction false} TableIsAcceptedMinusClosed(s: State, events: seq<Event>, fd: nat)
    requires OsPromise(s, events)
    ensures var s' := RunEvents(s, events);
            Closes(s'.effects, fd) + Open(s', fd) == Closes(s.effects, fd) + Open(s, fd) + Accepts(events, fd)
    decreases |events|
  {
    hide Handle;
    if events != [] {
      EventBalance(s, events[0], fd);
      assert [events[0]][1..] == [];
      TableIsAcceptedMinusClosed(Handle(s, events[0]), events[1..], fd);
    }
  }

  lemma ClosesAt(closes: seq<Effect>, i: nat, fd: nat)
    requires i < |closes| && closes[i] == Closed(fd)
    requires Closed(fd) !in closes[..i] && Closed(fd) !in closes[i + 1..]
    ensures Closes(closes, fd) == 1
  {
    NoCloses(closes[..i], fd);
    NoCloses(closes[i + 1..], fd);
    hide Closes;
    ClosesAppend(closes[..i + 1], closes[i + 1..], fd);
    assert closes[..i + 1] + closes[i + 1..] == closes;
    ClosesAppend(closes[..i], [closes[i]], fd);
    assert closes[..i] + [closes[i]] == closes[..i + 1];
    OneClose(fd);
  }

  lemma OneClose(fd: nat)
    ensures Closes([Closed(fd)], fd) == 1
  {
    assert [Closed(fd)][..0] == [];
  }

  lemma ClosesOnce(closes: seq<Effect>, fds: set<nat>, fd: nat)
    requires ClosesEach(closes, fds)
    ensures Closes(closes, fd) == if fd in fds then 1 else 0
  {
    hide Closes;
    if fd in fds {
      var i :| 0 <= i < |closes| && closes[i] == Closed(fd);
      ClosesAt(closes, i, fd);
    } else {
      NoCloses(closes, fd);
    }
  }

  /** The peer of fd is found gone: end of file, or a failed read. */
  predicate Leaves(ev: Event, fd: nat) { ev == Ready(fd, Chunk([])) || ev == Ready(fd, ReadFails) }

  /** Then it is closed and dropped from the table, and sent nothing. */
  lemma LeavingCloses(s: State, ev: Event, fd: nat)
    requires fd in s.connections && Leaves(ev, fd)
    ensures Handle(s, ev) == State(s.connections - {fd}, s.effects + [Closed(fd)])
  {}

  /** Somebody is accepted as fd and does not leave after that. */
  ghost predicate Stays(events: seq<Event>, fd: nat) {
    exists i :: 0 <= i < |events| && StaysFrom(events, i, fd)
  }

  ghost predicate StaysFrom(events: seq<Event>, i: nat, fd: nat)
    requires i < |events|
  {
    events[i] == Accept(Some(fd)) && NeverLeaves(events[i + 1..], fd)
  }

  ghost predicate NeverLeaves(events: seq<Event>, fd: nat) {
    forall ev :: ev in events ==> !Leaves(ev, fd)
  }

  lemma StaysCons(events: seq<Event>, fd: nat)
    requires events != []
    ensures Stays(events, fd) <==> Stays(events[1..], fd) || StaysFrom(events, 0, fd)
  {
    hide NeverLeaves;
    var rest := events[1..];
    forall i: nat | i < |rest| ensures StaysFrom(rest, i, fd) <==> StaysFrom(events, i + 1, fd) {
      assert rest[i + 1..] == events[i + 2..];
    }
    if i :| 0 <= i < |rest| && StaysFrom(rest, i, fd) {
      assert StaysFrom(events, i + 1, fd);
    }
    if i :| 0 < i < |events| && StaysFrom(events, i, fd) {
      assert StaysFrom(rest, i - 1, fd);
    }
  }

  lemma NeverLeavesCons(events: seq<Event>, fd: nat)
    requires events != []
    ensures NeverLeaves(events, fd) <==> !Leaves(events[0], fd) && NeverLeaves(events[1..], fd)
  {
    hide Leaves;
    forall ev | ev in events ensures ev == events[0] || ev in events[1..] {
      var k :| 0 <= k < |events| && events[k] == ev;
      assert k > 0 ==> events[1..][k - 1] == ev;
    }
  }

  lemma OpenAfter(s: State, ev: Event, fd: nat)
    ensures fd in Handle(s, ev).connections
       <==> ev == Accept(Some(fd)) || (fd in s.connections && !Leaves(ev, fd))
  {
    hide Reply, SendAll, Ascii, IsHello;
    match ev
    case Accept(None) =>
    case Accept(Some(other)) => assert ev == Accept(Some(fd)) <==> other == fd;
    case Ready(other, ReadFails) => assert Leaves(ev, fd) <==> other == fd;
    case Ready(other, Chunk(bytes)) => assert Leaves(ev, fd) <==> other == fd && bytes == [];
  }

  lemma StaysFromFirst(events: seq<Event>, fd: nat)
    requires events != []
    ensures StaysFrom(events, 0, fd) <==> events[0] == Accept(Some(fd)) && NeverLeaves(events[1..], fd)
  {
    hide NeverLeaves;
  }

  /** Which descriptors are open, told from the events alone. */
  lemma {:induction false} OpenIffStays(s: State, events: seq<Event>, fd: nat)
    ensures fd in RunEvents(s, events).connections
       <==> Stays(events, fd) || (fd in s.connections && NeverLeaves(events, fd))
    decreases |events|
  {
    if events != [] {
      var s' := Handle(s, events[0]);
      OpenIffStays(s', events[1..], fd);
      StaysCons(events, fd);
      StaysFromFirst(events, fd);
      NeverLeavesCons(events, fd);
      OpenAfter(s, events[0], fd);
      hide Handle, Stays, StaysFrom, NeverLeaves, Leaves;
    }
  }

  /** Graceful shutdown balances the books: every descriptor ever accepted has been closed exactly
      as often. When epoll_wait fails instead, that holds for fd unless the last one accepted as fd
      has not left by then. */
  lemma ShutdownClosesEverything(events: seq<Event>, closes: seq<Effect>, fd: nat)
    requires OsPromise(START, events)
    requires ClosesEach(closes, RunEvents(START, events).connections.Keys)
    ensures Closes(RunEvents(START, events).effects + closes, fd) == Accepts(events, fd)
    ensures Closes(RunEvents(START, events).effects, fd) == Accepts(events, fd) <==> !Stays(events, fd)
  {
    OpenIffStays(START, events, fd);
    TableIsAcceptedMinusClosed(START, events, fd);
    var s := RunEvents(START, events);
    ClosesAppend(s.effects, closes, fd);
    ClosesOnce(closes, s.connections.Keys, fd);
  }
}
