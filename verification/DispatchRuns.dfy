/** Whole runs of the dispatch pipeline: any interleaving of events, flushes and turns of the
    consumer, with a ledger of what became of every event. */
module DispatchRuns {
  import opened Wrappers
  import opened Bytes
  import opened BipBuffer
  import opened Dispatch

  /** What was made of the events, in order: a batch with the number of its header, an event
      sent as it is, or a pending batch that was thrown away. */
  datatype Chunk =
    | Batched(no: nat, events: seq<Key>, accepted: bool)
    | Raw(event: Key, accepted: bool)
    | Discarded(events: seq<Key>)

  type Log = seq<Chunk>

  function EventsOf(c: Chunk): seq<Key> {
    match c
    case Batched(_, es, _) => es
    case Raw(e, _) => [e]
    case Discarded(es) => es
  }

  predicate Lost(c: Chunk) {
    c.Discarded? || !c.accepted
  }

  function ChunkBytes(pid: nat, c: Chunk): Key
    requires !c.Discarded?
  {
    match c
    case Batched(no, es, _) => BatchBytes(no, pid, es)
    case Raw(e, _) => e
  }

  function LogEvents(log: Log): seq<Key> {
    if log == [] then [] else LogEvents(log[..|log| - 1]) + EventsOf(log[|log| - 1])
  }

  /** The chunks the ring took, in order. */
  function Queued(log: Log): Log {
    if log == [] then []
    else Queued(log[..|log| - 1]) + if Lost(log[|log| - 1]) then [] else [log[|log| - 1]]
  }

  function Losses(log: Log): Log {
    if log == [] then []
    else Losses(log[..|log| - 1]) + if Lost(log[|log| - 1]) then [log[|log| - 1]] else []
  }

  function Packets(pid: nat, cs: Log): (ps: seq<Key>)
    requires forall i | 0 <= i < |cs| :: !cs[i].Discarded?
    ensures |ps| == |cs| && forall i | 0 <= i < |cs| :: ps[i] == ChunkBytes(pid, cs[i])
  {
    seq(|cs|, i requires 0 <= i < |cs| => ChunkBytes(pid, cs[i]))
  }

  /** How many batch headers have been written. */
  function Headers(log: Log): nat {
    if log == [] then 0 else Headers(log[..|log| - 1]) + if log[|log| - 1].Batched? then 1 else 0
  }

  /** The k-th header written carries k. */
  predicate Numbered(log: Log) {
    forall i | 0 <= i < |log| && log[i].Batched? :: log[i].no == Headers(log[..i])
  }

  predicate ChunkOk(c: Chunk) {
    && Events(EventsOf(c))
    && (c.Batched? ==> HEADLEN + |Flatten(c.events)| <= MAX_PACKET_SIZE)
  }

  datatype System = System(
    sink: Sink,               // the batch under way and the ring
    delivered: seq<Key>,      // packets the consumer has taken, in order
    history: seq<Key>,        // every event given to the sink, in order
    pending: seq<Key>,        // the events in the batch under way
    log: Log)                 // what became of the others

  /** The batch under way holds the pending events behind the space for its header. */
  predicate Holds(b: Batch, pending: seq<Key>, headers: nat) {
    && |b.buf| == MAX_PACKET_SIZE && Events(pending)
    && b.length == HEADLEN + |Flatten(pending)| <= MAX_PACKET_SIZE
    && b.buf[HEADLEN..b.length] == Flatten(pending)
    && b.count == |pending| && b.sequence == headers % TWO_32
  }

  /** The packets not yet delivered stand in the ring, in order and whole. */
  ghost predicate InRing(r: State, pid: nat, log: Log, delivered: seq<Key>) {
    && (forall i | 0 <= i < |log| :: ChunkOk(log[i])) && Numbered(log)
    && (forall i | 0 <= i < |Queued(log)| :: !Queued(log)[i].Discarded?)
    && delivered <= Packets(pid, Queued(log))
    && Row(r, Packets(pid, Queued(log))[|delivered|..]) && Behind(r)
  }

  /** The ring holds exactly these messages. */
  ghost predicate Row(r: State, ms: seq<Key>) {
    exists k :: Framed(r, ms, k)
  }

  ghost predicate Inv(s: System) {
    && SinkOk(s.sink)
    && Holds(s.sink.batch, s.pending, Headers(s.log))
    && InRing(s.sink.ring, s.sink.batch.pid, s.log, s.delivered)
    && s.history == LogEvents(s.log) + s.pending
  }

  // ---------------------------------------------------------------- appending to the log

  lemma LogAppend(log: Log, c: Chunk)
    ensures LogEvents(log + [c]) == LogEvents(log) + EventsOf(c)
    ensures Queued(log + [c]) == Queued(log) + if Lost(c) then [] else [c]
    ensures Losses(log + [c]) == Losses(log) + if Lost(c) then [c] else []
    ensures Headers(log + [c]) == Headers(log) + if c.Batched? then 1 else 0
  {
    assert (log + [c])[..|log|] == log;
  }

  lemma NumberedAppend(log: Log, c: Chunk)
    requires Numbered(log) && (c.Batched? ==> c.no == Headers(log))
    ensures Numbered(log + [c])
  {
    forall i | 0 <= i < |log + [c]| && (log + [c])[i].Batched? ensures (log + [c])[i].no == Headers((log + [c])[..i]) {
      assert (log + [c])[..i] == log[..i];
    }
    assert log[..|log|] == log;
  }

  lemma PacketsAppend(pid: nat, cs: Log, c: Chunk)
    requires !c.Discarded? && forall i | 0 <= i < |cs| :: !cs[i].Discarded?
    ensures Packets(pid, cs + [c]) == Packets(pid, cs) + [ChunkBytes(pid, c)]
  {
  }

  /** A chunk that the ring did not take. */
  lemma RingLoses(r: State, pid: nat, log: Log, delivered: seq<Key>, c: Chunk)
    requires InRing(r, pid, log, delivered) && ChunkOk(c) && Lost(c) && (c.Batched? ==> c.no == Headers(log))
    ensures InRing(r, pid, log + [c], delivered)
  {
    hide Numbered, ChunkOk, LogEvents, Losses, Headers, Queued, Row;
    LogAppend(log, c);
    NumberedAppend(log, c);
    assert Queued(log + [c]) == Queued(log);
  }

  lemma FramedRegions(r: State, ms: seq<Key>, k: nat)
    requires Framed(r, ms, k)
    ensures Regions(r)
  {
  }

  /** A chunk that it took. */
  lemma RingTakes(r: State, pid: nat, log: Log, delivered: seq<Key>, c: Chunk)
    requires InRing(r, pid, log, delivered) && ChunkOk(c) && !Lost(c) && (c.Batched? ==> c.no == Headers(log))
    requires ChunkBytes(pid, c) != [] && Accepts(r, ChunkBytes(pid, c))
    ensures InRing(Offered(r, ChunkBytes(pid, c)), pid, log + [c], delivered)
  {
    hide Framed, Offered, Numbered, ChunkOk, ChunkBytes, LogEvents, Losses, Headers;
    var m := ChunkBytes(pid, c);
    LogAppend(log, c);
    NumberedAppend(log, c);
    PacketsAppend(pid, Queued(log), c);
    var ps := Packets(pid, Queued(log));
    var k :| Framed(r, ps[|delivered|..], k);
    FramedOffer(r, ps[|delivered|..], k, m);
    FramedRegions(r, ps[|delivered|..], k);
    OfferedBehind(r, m);
    assert (ps + [m])[|delivered|..] == ps[|delivered|..] + [m];
  }

  /** Offering the bytes of a chunk to the ring. */
  lemma RingOffer(r: State, pid: nat, log: Log, delivered: seq<Key>, c: Chunk)
    requires InRing(r, pid, log, delivered) && ChunkOk(c) && !c.Discarded? && (c.Batched? ==> c.no == Headers(log))
    requires ChunkBytes(pid, c) != [] && c.accepted == Accepts(r, ChunkBytes(pid, c))
    ensures Regions(r) && Regions(Offer(r, ChunkBytes(pid, c)))
    ensures InRing(Offer(r, ChunkBytes(pid, c)), pid, log + [c], delivered)
  {
    if c.accepted {
      RingTakes(r, pid, log, delivered, c);
    } else {
      RingLoses(r, pid, log, delivered, c);
    }
  }

  // ---------------------------------------------------------------- the steps

  /** The pending events become a batch. */
  function Close(s: System): (t: System)
    requires Regions(s.sink.ring) && HEADLEN <= s.sink.batch.length <= |s.sink.batch.buf| == MAX_PACKET_SIZE
    ensures Regions(t.sink.ring) && t.sink.batch.length == HEADLEN && |t.sink.batch.buf| == MAX_PACKET_SIZE
  {
    var b := WithHeader(s.sink.batch);
    var c := Batched(Headers(s.log), s.pending, Accepts(s.sink.ring, b.buf[..b.length]));
    s.(sink := Dispatched(s.sink), pending := [], log := s.log + [c])
  }

  function Take(s: System, e: Key): System
    requires s.sink.batch.length + |e| <= |s.sink.batch.buf|
  {
    s.(sink := s.sink.(batch := IntoBatch(s.sink.batch, e)), pending := s.pending + [e], history := s.history + [e])
  }

  /** The pending events are thrown away and the event goes out alone. */
  function SendRaw(s: System, e: Key): System
    requires Regions(s.sink.ring)
  {
    s.(sink := Sink(NewBatch(s.sink.batch), Offer(s.sink.ring, e)), pending := [], history := s.history + [e],
       log := s.log + [Discarded(s.pending)] + [Raw(e, Accepts(s.sink.ring, e))])
  }

  datatype Action = EmitEvent(event: Key) | Tick | Turn

  predicate ActionOk(a: Action) {
    a.EmitEvent? ==> IsEvent(a.event) && Safe(a.event)
  }

  /** One call of the sink or one turn of the consumer. */
  ghost function Step(s: System, a: Action): System
    requires Inv(s) && ActionOk(a)
  {
    hide Close, Regions, InRing, Holds, IsEvent, LogEvents, Headers;
    match a
    case EmitEvent(e) =>
      if s.sink.batch.length + |e| <= PACKET_SIZE then Take(s, e)
      else if HEADLEN + |e| <= PACKET_SIZE then Take(Close(s), e)
      else if |e| >= MAX_PACKET_SIZE - 2 then SendRaw(s, e)
      else Close(Take(Close(s), e))
    case Tick => if s.sink.batch.length == HEADLEN then s else Close(s)
    case Turn =>
      match Consume(s.sink.ring)
      case Sent(m, r) => s.(sink := s.sink.(ring := r), delivered := s.delivered + [m])
      case _ => s
  }

  /** The ledger only watches: the sink does what the sink does. */
  lemma StepIsSink(s: System, a: Action)
    requires Inv(s) && ActionOk(a)
    ensures a.EmitEvent? ==> Emit(s.sink, a.event) == Some(Step(s, a).sink)
    ensures a.EmitEvent? ==> Step(s, a).history == s.history + [a.event]
    ensures a.Tick? ==> Step(s, a).sink == Flush(s.sink) && Step(s, a).history == s.history
    ensures a.Turn? ==> Step(s, a).sink.batch == s.sink.batch && Step(s, a).history == s.history
  {
    hide InRing, Holds, HeaderBytes, Write, Offered, Headers, LogEvents, Consume;
  }

  ghost predicate Between(s: System) {
    && Regions(s.sink.ring)
    && Holds(s.sink.batch, s.pending, Headers(s.log))
    && InRing(s.sink.ring, s.sink.batch.pid, s.log, s.delivered)
    && s.history == LogEvents(s.log) + s.pending
  }

  /** The bytes of a finished batch. */
  lemma FinishedBytes(b: Batch, pending: seq<Key>, headers: nat)
    requires Holds(b, pending, headers)
    ensures WithHeader(b).buf[..b.length] == BatchBytes(headers, b.pid, pending)
  {
    var r := WithHeader(b).buf;
    assert r[..HEADLEN] == HeaderBytes(b.length, b.count, b.sequence, b.pid);
    assert r[HEADLEN..b.length] == b.buf[HEADLEN..b.length];
    assert r[..b.length] == r[..HEADLEN] + r[HEADLEN..b.length];
  }

  lemma CloseKeeps(s: System)
    requires Between(s)
    ensures Between(Close(s)) && SinkOk(Close(s).sink) && Close(s).sink.batch.length == HEADLEN &&
            Close(s).pending == []
  {
    hide InRing, HeaderBytes, Headers, LogEvents, Offered, Write, Regions;
    RegionsOf(s);
    var b := s.sink.batch;
    FinishedBytes(b, s.pending, Headers(s.log));
    var m := BatchBytes(Headers(s.log), b.pid, s.pending);
    var c := Batched(Headers(s.log), s.pending, Accepts(s.sink.ring, m));
    BatchBytesOk(Headers(s.log), b.pid, s.pending);
    RingOffer(s.sink.ring, b.pid, s.log, s.delivered, c);
    InRingRegions(Offer(s.sink.ring, m), b.pid, s.log + [c], s.delivered);
    LogAppend(s.log, c);
    assert Flatten([]) == [];
    NextSequence(Headers(s.log));
  }

  lemma BatchBytesOk(no: nat, pid: nat, es: seq<Key>)
    ensures BatchBytes(no, pid, es) != []
  {
  }

  lemma InRingRegions(r: State, pid: nat, log: Log, delivered: seq<Key>)
    requires InRing(r, pid, log, delivered)
    ensures Regions(r)
  {
  }

  lemma RegionsOf(s: System)
    requires Between(s)
    ensures Regions(s.sink.ring)
  {
  }

  lemma NextSequence(n: nat)
    ensures (n % TWO_32 + 1) % TWO_32 == (n + 1) % TWO_32
  {
  }

  lemma TakeKeeps(s: System, e: Key)
    requires Between(s) && IsEvent(e) && s.sink.batch.length + |e| <= MAX_PACKET_SIZE
    ensures Between(Take(s, e)) && Take(s, e).sink.batch.length == s.sink.batch.length + |e|
  {
    hide InRing, Headers, LogEvents, Regions;
    FlattenConcat(s.pending, [e]);
    FlattenOne(e);
    var b, r := s.sink.batch, IntoBatch(s.sink.batch, e);
    assert r.buf[HEADLEN..r.length] == b.buf[HEADLEN..b.length] + e;
    assert s.history + [e] == LogEvents(s.log) + (s.pending + [e]);
  }

  lemma SendRawKeeps(s: System, e: Key)
    requires Inv(s) && IsEvent(e)
    ensures Inv(SendRaw(s, e))
  {
    hide InRing, Offer, Regions, Headers, LogEvents, Queued, Losses;
    var d, c := Discarded(s.pending), Raw(e, Accepts(s.sink.ring, e));
    RingLoses(s.sink.ring, s.sink.batch.pid, s.log, s.delivered, d);
    LogAppend(s.log, d);
    RingOffer(s.sink.ring, s.sink.batch.pid, s.log + [d], s.delivered, c);
    LogAppend(s.log + [d], c);
    assert Flatten([]) == [];
    assert s.history + [e] == LogEvents(s.log + [d] + [c]) + [];
  }

  lemma ChunkMessage(pid: nat, c: Chunk)
    requires ChunkOk(c) && !c.Discarded?
    ensures IsMessage(ChunkBytes(pid, c))
  {
    match c
    case Batched(no, es, _) => BatchParses(no, pid, es);
    case Raw(e, _) => assert EventsOf(c)[0] == e;
  }

  lemma {:induction false} QueuedFrom(log: Log)
    requires forall i | 0 <= i < |log| :: ChunkOk(log[i])
    ensures forall i | 0 <= i < |Queued(log)| :: ChunkOk(Queued(log)[i]) && !Lost(Queued(log)[i])
  {
    if log != [] {
      QueuedFrom(log[..|log| - 1]);
    }
  }

  predicate Messages(ms: seq<Key>) {
    forall i | 0 <= i < |ms| :: IsMessage(ms[i])
  }

  /** What the ring took is a row of messages. */
  lemma PacketMessages(pid: nat, log: Log)
    requires forall i | 0 <= i < |log| :: ChunkOk(log[i])
    requires forall i | 0 <= i < |Queued(log)| :: !Queued(log)[i].Discarded?
    ensures Messages(Packets(pid, Queued(log)))
  {
    QueuedFrom(log);
    var cs := Queued(log);
    forall i | 0 <= i < |cs| ensures IsMessage(ChunkBytes(pid, cs[i])) {
      ChunkMessage(pid, cs[i]);
    }
  }

  /** The consumer takes the next packet of the log, if there is one. */
  lemma RingTurn(r: State, pid: nat, log: Log, delivered: seq<Key>)
    requires InRing(r, pid, log, delivered)
    ensures Regions(r) && !Consume(r).Exit?
    ensures Consume(r).Sent? <==> |delivered| < |Queued(log)|
    ensures Consume(r).Sent? ==> InRing(Consume(r).ring, pid, log, delivered + [Consume(r).message])
  {
    var ps := Packets(pid, Queued(log));
    PacketMessages(pid, log);
    TakeRest(r, ps, delivered);
  }

  lemma TakeRest(r: State, ps: seq<Key>, delivered: seq<Key>)
    requires Messages(ps) && delivered <= ps && Row(r, ps[|delivered|..])
    ensures Regions(r) && !Consume(r).Exit? && (Consume(r).Sent? <==> |delivered| < |ps|)
    ensures Consume(r).Sent? ==>
              delivered + [Consume(r).message] <= ps && Row(Consume(r).ring, ps[|delivered| + 1..]) &&
              Behind(Consume(r).ring)
  {
    var rest := ps[|delivered|..];
    var k :| Framed(r, rest, k);
    forall i | 0 <= i < |rest| ensures IsMessage(rest[i]) {
      assert rest[i] == ps[|delivered| + i];
    }
    ConsumeFramed(r, rest, k);
    if rest != [] {
      PolledBehind(r, NextSize(r));
      assert rest[1..] == ps[|delivered| + 1..];
    }
  }

  lemma TurnKeeps(s: System)
    requires Inv(s)
    ensures Inv(Step(s, Turn))
    ensures !Consume(s.sink.ring).Exit?
    ensures Consume(s.sink.ring).Sent? <==> |s.delivered| < |Queued(s.log)|
    ensures var t := Step(s, Turn);
            t.log == s.log && t.sink.batch == s.sink.batch &&
            |t.delivered| == |s.delivered| + if |s.delivered| < |Queued(s.log)| then 1 else 0
  {
    hide InRing, Holds, LogEvents, Consume, Headers, Regions, Queued;
    RingTurn(s.sink.ring, s.sink.batch.pid, s.log, s.delivered);
    if Consume(s.sink.ring).Sent? {
      InRingRegions(Consume(s.sink.ring).ring, s.sink.batch.pid, s.log, s.delivered + [Consume(s.sink.ring).message]);
    }
  }

  /** Every step keeps the invariant. */
  lemma StepKeeps(s: System, a: Action)
    requires Inv(s) && ActionOk(a)
    ensures Inv(Step(s, a))
  {
    match a
    case EmitEvent(e) =>
      if s.sink.batch.length + |e| <= PACKET_SIZE {
        TakeKeeps(s, e);
      } else if HEADLEN + |e| <= PACKET_SIZE {
        CloseKeeps(s);
        TakeKeeps(Close(s), e);
      } else if |e| >= MAX_PACKET_SIZE - 2 {
        SendRawKeeps(s, e);
      } else {
        CloseKeeps(s);
        TakeKeeps(Close(s), e);
        CloseKeeps(Take(Close(s), e));
      }
    case Tick =>
      if s.sink.batch.length != HEADLEN { CloseKeeps(s); }
    case Turn => TurnKeeps(s);
  }

  // ---------------------------------------------------------------- runs

  predicate ActionsOk(acts: seq<Action>) {
    forall i | 0 <= i < |acts| :: ActionOk(acts[i])
  }

  ghost function Run(s: System, acts: seq<Action>): (r: System)
    requires Inv(s) && ActionsOk(acts)
    ensures Inv(r)
    decreases |acts|
  {
    if acts == [] then s
    else
      StepKeeps(s, acts[0]);
      Run(Step(s, acts[0]), acts[1..])
  }

  /** A tracer just started: an empty batch and an empty ring of the given capacity. */
  function Initial(size: nat, pid: nat): System {
    System(Sink(Batch(seq(MAX_PACKET_SIZE, i => 0), HEADLEN, 0, 0, pid), State(seq(size, i => 0), 0, 0, 0, false)),
           [], [], [], [])
  }

  lemma InitialOk(size: nat, pid: nat)
    requires size <= MAX_SIZE
    ensures Inv(Initial(size, pid))
  {
    var s := Initial(size, pid);
    assert Flatten([]) == [];
    assert Framed(s.sink.ring, [], 0);
    assert Packets(pid, Queued([])) == [];
  }

  /** The events given to the sink during a run. */
  function Emitted(acts: seq<Action>): seq<Key> {
    if acts == [] then []
    else (if acts[0].EmitEvent? then [acts[0].event] else []) + Emitted(acts[1..])
  }

  lemma RunNext(s: System, acts: seq<Action>)
    requires Inv(s) && ActionsOk(acts) && acts != []
    ensures ActionOk(acts[0]) && ActionsOk(acts[1..]) && Inv(Step(s, acts[0]))
    ensures Run(s, acts) == Run(Step(s, acts[0]), acts[1..])
    ensures Emitted(acts) == (if acts[0].EmitEvent? then [acts[0].event] else []) + Emitted(acts[1..])
  {
    hide Inv, Step, ActionOk;
    ActionsFirst(acts);
    StepKeeps(s, acts[0]);
  }

  lemma ActionsFirst(acts: seq<Action>)
    requires ActionsOk(acts) && acts != []
    ensures ActionOk(acts[0])
  {
  }

  lemma RunNone(s: System)
    requires Inv(s)
    ensures Run(s, []) == s && Emitted([]) == [] && s.history + [] == s.history
  {
    hide Inv;
  }

  lemma {:induction false} RunHistory(s: System, acts: seq<Action>)
    requires Inv(s) && ActionsOk(acts)
    ensures Run(s, acts).history == s.history + Emitted(acts)
    ensures Run(s, acts).sink.batch.pid == s.sink.batch.pid
    decreases |acts|
  {
    hide *;
    if acts == [] {
      RunNone(s);
    } else {
      RunNext(s, acts);
      StepIsSink(s, acts[0]);
      StepPid(s, acts[0]);
      RunHistory(Step(s, acts[0]), acts[1..]);
      var e := if acts[0].EmitEvent? then [acts[0].event] else [];
      assert (s.history + e) + Emitted(acts[1..]) == s.history + (e + Emitted(acts[1..]));
      assert acts[0].Tick? || acts[0].Turn? ==> s.history + e == s.history;
    }
  }

  lemma StepPid(s: System, a: Action)
    requires Inv(s) && ActionOk(a)
    ensures Step(s, a).sink.batch.pid == s.sink.batch.pid
  {
    hide InRing, Holds, HeaderBytes, Write, Offered, Headers, LogEvents, Consume;
  }

  // ---------------------------------------------------------------- what holds of every run

  /** Delivered packets are the first of those the ring took, byte for byte and in order, and
      the ring holds the bytes of the others. */
  lemma FramedFifo(size: nat, pid: nat, acts: seq<Action>)
    requires size <= MAX_SIZE && ActionsOk(acts)
    ensures Inv(Initial(size, pid))
    ensures var s := Run(Initial(size, pid), acts);
            var packets := Packets(pid, Queued(s.log));
            s.delivered <= packets && Regions(s.sink.ring) &&
            Contents(s.sink.ring) == Flatten(packets[|s.delivered|..]) &&
            !Consume(s.sink.ring).Exit?
  {
    InitialOk(size, pid);
    var s := Run(Initial(size, pid), acts);
    RunHistory(Initial(size, pid), acts);
    TurnKeeps(s);
    RowContents(s.sink.ring, Packets(pid, Queued(s.log))[|s.delivered|..]);
  }

  lemma RowContents(r: State, ms: seq<Key>)
    requires Row(r, ms)
    ensures Regions(r) && Contents(r) == Flatten(ms)
  {
    var k: nat :| Framed(r, ms, k);
    FlattenConcat(ms[..k], ms[k..]);
    assert ms == ms[..k] + ms[k..];
  }

  /** A delivered packet is an event alone, or a batch that reads back as exactly the events of
      its chunk and carries the chunk's number. */
  lemma DeliveredReadBack(size: nat, pid: nat, acts: seq<Action>, i: nat)
    requires size <= MAX_SIZE && ActionsOk(acts) && Inv(Initial(size, pid))
    requires i < |Run(Initial(size, pid), acts).delivered|
    ensures var s := Run(Initial(size, pid), acts);
            i < |Queued(s.log)| &&
            match Queued(s.log)[i]
            case Batched(no, es, _) =>
              Parse(s.delivered[i]) == Some(es) && |s.delivered[i]| >= 13 && s.delivered[i][2] == 0xfa &&
                  W.Unlittle(s.delivered[i][5..9]) == no % TWO_32 &&
                  (pid < TWO_32 ==> W.Unlittle(s.delivered[i][9..13]) == pid)
            case Raw(e, _) => s.delivered[i] == e
            case Discarded(_) => false
  {
    FramedFifo(size, pid, acts);
    var s := Run(Initial(size, pid), acts);
    QueuedFrom(s.log);
    var c := Queued(s.log)[i];
    assert s.delivered[i] == Packets(pid, Queued(s.log))[i];
    if c.Batched? {
      BatchParses(c.no, pid, c.events);
    }
  }

  function Front(log: Log): Log
    requires log != []
  {
    log[..|log| - 1]
  }

  function Final(log: Log): Chunk
    requires log != []
  {
    log[|log| - 1]
  }

  lemma LogFront(log: Log)
    requires log != []
    ensures log == Front(log) + [Final(log)] && |Front(log)| < |log|
  {
  }

  lemma LogNil()
    ensures LogEvents([]) == [] && Queued([]) == [] && Losses([]) == [] && Headers([]) == 0
  {
  }

  lemma LogOne(c: Chunk)
    ensures LogEvents([c]) == EventsOf(c) && Headers([c]) == if c.Batched? then 1 else 0
  {
    assert [c][..0] == [];
  }

  lemma {:induction false} LogEventsConcat(a: Log, b: Log)
    ensures LogEvents(a + b) == LogEvents(a) + LogEvents(b)
    decreases |b|
  {
    hide *;
    LogNil();
    if b == [] {
      assert a + b == a;
    } else {
      LogFront(b);
      LogEventsConcat(a, Front(b));
      LogAppend(a + Front(b), Final(b));
      LogAppend(Front(b), Final(b));
      assert a + b == (a + Front(b)) + [Final(b)];
    }
  }

  lemma {:induction false} LogPartition(log: Log)
    ensures multiset(LogEvents(log)) == multiset(LogEvents(Queued(log))) + multiset(LogEvents(Losses(log)))
    decreases |log|
  {
    hide *;
    LogNil();
    if log != [] {
      var c := Final(log);
      LogFront(log);
      LogPartition(Front(log));
      LogAppend(Front(log), c);
      LogEventsConcat(Queued(Front(log)), [c]);
      LogEventsConcat(Losses(Front(log)), [c]);
      LogOne(c);
      assert Losses(Front(log)) + [] == Losses(Front(log)) && Queued(Front(log)) + [] == Queued(Front(log));
    }
  }

  lemma InitialHistory(size: nat, pid: nat)
    ensures Initial(size, pid).history == []
  {
  }

  lemma InvHistory(s: System)
    requires Inv(s)
    ensures s.history == LogEvents(s.log) + s.pending
  {
  }

  /** Every event given to the sink is in exactly one of the batch under way, the ring, the
      delivered packets and the losses. */
  ghost predicate Accounted(s: System, history: seq<Key>) {
    && |s.delivered| <= |Queued(s.log)|
    && history == LogEvents(s.log) + s.pending
    && var inRing, delivered := Queued(s.log)[|s.delivered|..], Queued(s.log)[..|s.delivered|];
       multiset(history) == multiset(s.pending) + multiset(LogEvents(inRing)) + multiset(LogEvents(delivered))
                            + multiset(LogEvents(Losses(s.log)))
  }

  lemma LedgerSum(log: Log, pending: seq<Key>, history: seq<Key>, delivered: Log, inRing: Log)
    requires history == LogEvents(log) + pending && Queued(log) == delivered + inRing
    ensures multiset(history) == multiset(pending) + multiset(LogEvents(inRing)) + multiset(LogEvents(delivered))
                                 + multiset(LogEvents(Losses(log)))
  {
    hide *;
    LogPartition(log);
    LogEventsConcat(delivered, inRing);
  }

  lemma CutAt(q: Log, d: nat)
    requires d <= |q|
    ensures q == q[..d] + q[d..]
  {
  }

  lemma Accounts(s: System)
    requires Inv(s)
    ensures Accounted(s, s.history)
  {
    DeliveredFirst(s);
    InvHistory(s);
    CutAt(Queued(s.log), |s.delivered|);
    LedgerSum(s.log, s.pending, s.history, Queued(s.log)[..|s.delivered|], Queued(s.log)[|s.delivered|..]);
    hide Inv, LogEvents, Queued, Losses;
  }

  lemma DeliveredFirst(s: System)
    requires Inv(s)
    ensures |s.delivered| <= |Queued(s.log)|
  {
  }

  /** Conservation over a run. */
  lemma Conservation(size: nat, pid: nat, acts: seq<Action>)
    requires size <= MAX_SIZE && ActionsOk(acts)
    ensures Inv(Initial(size, pid)) && Accounted(Run(Initial(size, pid), acts), Emitted(acts))
  {
    hide *;
    InitialOk(size, pid);
    InitialHistory(size, pid);
    RunHistory(Initial(size, pid), acts);
    Accounts(Run(Initial(size, pid), acts));
    assert [] + Emitted(acts) == Emitted(acts);
  }

  // ---------------------------------------------------------------- sequence numbers

  lemma {:induction false} HeadersConcat(a: Log, b: Log)
    ensures Headers(a + b) == Headers(a) + Headers(b)
    decreases |b|
  {
    hide *;
    LogNil();
    if b == [] {
      assert a + b == a;
    } else {
      LogFront(b);
      HeadersConcat(a, Front(b));
      LogAppend(a + Front(b), Final(b));
      LogAppend(Front(b), Final(b));
      assert a + b == (a + Front(b)) + [Final(b)];
    }
  }

  /** The numbers of two batches differ by the batches made from the first on. */
  lemma NumbersApart(log: Log, i: nat, j: nat)
    requires Numbered(log) && i < j < |log| && log[i].Batched? && log[j].Batched?
    ensures log[j].no == log[i].no + 1 + Headers(log[i + 1..j])
  {
    hide Headers;
    assert log[..j] == log[..i + 1] + log[i + 1..j] && log[..i + 1] == log[..i] + [log[i]];
    HeadersConcat(log[..i + 1], log[i + 1..j]);
    LogAppend(log[..i], log[i]);
  }

  /** Between two batches the numbers grow by one for every batch made in between: when none of
      those reached the ring, the gap counts exactly the offers that failed. */
  lemma SequenceGap(log: Log, i: nat, j: nat)
    requires Numbered(log) && i < j < |log| && log[i].Batched? && log[j].Batched?
    requires forall x | i < x < j && log[x].Batched? :: !log[x].accepted
    ensures log[j].no - log[i].no - 1 == Headers(log[i + 1..j]) == Headers(Losses(log[i + 1..j]))
  {
    NumbersApart(log, i, j);
    hide Headers, Losses, Numbered;
    var mid := log[i + 1..j];
    forall x | 0 <= x < |mid| && mid[x].Batched? ensures !mid[x].accepted {
      assert mid[x] == log[i + 1 + x];
    }
    AllLost(mid);
  }

  lemma {:induction false} AllLost(log: Log)
    requires forall x | 0 <= x < |log| && log[x].Batched? :: !log[x].accepted
    ensures Headers(log) == Headers(Losses(log))
    decreases |log|
  {
    hide Headers, Losses;
    LogNil();
    if log != [] {
      LogFront(log);
      AllLost(Front(log));
      LogAppend(Front(log), Final(log));
      HeadersConcat(Losses(Front(log)), [Final(log)]);
      LogOne(Final(log));
      assert Losses(Front(log)) + [] == Losses(Front(log));
    }
  }

  /** Later batches have greater numbers. */
  lemma SequenceAscends(log: Log, i: nat, j: nat)
    requires Numbered(log) && i < j < |log| && log[i].Batched? && log[j].Batched?
    ensures log[i].no < log[j].no
  {
    NumbersApart(log, i, j);
  }

  // ---------------------------------------------------------------- from the log to the packets

  /** The chunk at position p of the log is the i-th that the ring took. */
  predicate Stands(log: Log, p: nat, i: nat) {
    && p < |log| && !Lost(log[p]) && |Queued(log[..p])| == i
    && i < |Queued(log)| && log[p] == Queued(log)[i]
  }

  lemma {:induction false} QueuedPrefix(log: Log, p: nat)
    requires p <= |log|
    ensures Queued(log[..p]) <= Queued(log)
    decreases |log| - p
  {
    if p == |log| {
      assert log[..p] == log;
    } else {
      assert log[..p + 1][..p] == log[..p];
      QueuedPrefix(log, p + 1);
    }
  }

  lemma QueuedHere(log: Log, p: nat)
    requires p < |log| && !Lost(log[p])
    ensures Stands(log, p, |Queued(log[..p])|) && |Queued(log[..p + 1])| == |Queued(log[..p])| + 1
  {
    assert log[..p + 1][..p] == log[..p];
    QueuedPrefix(log, p + 1);
  }

  lemma {:induction false} QueuedAt(log: Log, i: nat) returns (p: nat)
    requires i < |Queued(log)|
    ensures Stands(log, p, i)
  {
    var front := log[..|log| - 1];
    if i < |Queued(front)| {
      p := QueuedAt(front, i);
      assert log[..p] == front[..p] && log[p] == front[p];
    } else {
      p := |log| - 1;
    }
    QueuedHere(log, p);
  }

  lemma QueuedBefore(log: Log, p: nat, q: nat)
    requires p <= q <= |log|
    ensures |Queued(log[..p])| <= |Queued(log[..q])|
  {
    assert log[..q][..p] == log[..p];
    QueuedPrefix(log[..q], p);
  }

  lemma StandsOrder(log: Log, p: nat, i: nat, q: nat, j: nat)
    requires Stands(log, p, i) && Stands(log, q, j) && i < j
    ensures p < q
  {
    if q <= p { QueuedBefore(log, q, p); }
  }

  /** What the ring took between two positions of the log is what lies between their chunks. */
  lemma StandsBetween(log: Log, p: nat, i: nat, q: nat, j: nat, x: nat) returns (k: nat)
    requires Stands(log, p, i) && Stands(log, q, j) && p < x < q && !Lost(log[x])
    ensures i < k < j && Stands(log, x, k)
  {
    k := |Queued(log[..x])|;
    QueuedHere(log, p);
    QueuedHere(log, x);
    QueuedBefore(log, p + 1, x);
    QueuedBefore(log, x + 1, q);
  }

  /** Two batches the ring took, and none between them. */
  lemma GapBetween(log: Log, p: nat, i: nat, q: nat, j: nat)
    requires Numbered(log) && Stands(log, p, i) && Stands(log, q, j) && i < j && log[p].Batched? && log[q].Batched?
    requires forall k | i < k < j :: !Queued(log)[k].Batched?
    ensures p < q && log[q].no - log[p].no - 1 == Headers(Losses(log[p + 1..q]))
  {
    hide Headers, Losses, Queued, Numbered;
    StandsOrder(log, p, i, q, j);
    forall x | p < x < q && log[x].Batched? ensures !log[x].accepted {
      if !Lost(log[x]) {
        var k := StandsBetween(log, p, i, q, j, x);
      }
    }
    SequenceGap(log, p, q);
  }

  /** The batches delivered in a run carry increasing numbers, modulo 2^32 in their bytes. Between
      two of them that follow each other the gap counts exactly the finished batches that the
      ring did not take in the meantime. */
  lemma DeliveredNumbers(size: nat, pid: nat, acts: seq<Action>, i: nat, j: nat) returns (p: nat, q: nat)
    requires size <= MAX_SIZE && ActionsOk(acts) && Inv(Initial(size, pid))
    requires i < j < |Run(Initial(size, pid), acts).delivered| && j < |Queued(Run(Initial(size, pid), acts).log)|
    requires Queued(Run(Initial(size, pid), acts).log)[i].Batched?
    requires Queued(Run(Initial(size, pid), acts).log)[j].Batched?
    ensures var s := Run(Initial(size, pid), acts);
            var a, b := Queued(s.log)[i], Queued(s.log)[j];
            && Stands(s.log, p, i) && Stands(s.log, q, j) && p < q && a.no < b.no
            && |s.delivered[i]| >= 9 && W.Unlittle(s.delivered[i][5..9]) == a.no % TWO_32
            && |s.delivered[j]| >= 9 && W.Unlittle(s.delivered[j][5..9]) == b.no % TWO_32
            && ((forall k | i < k < j :: !Queued(s.log)[k].Batched?) ==>
                b.no - a.no - 1 == Headers(Losses(s.log[p + 1..q])))
  {
    DeliveredReadBack(size, pid, acts, i);
    DeliveredReadBack(size, pid, acts, j);
    var s := Run(Initial(size, pid), acts);
    RunNumbered(s);
    hide Run, Inv, Initial, ActionsOk, Queued, Headers, Losses, Numbered;
    p := QueuedAt(s.log, i);
    q := QueuedAt(s.log, j);
    StandsOrder(s.log, p, i, q, j);
    SequenceAscends(s.log, p, q);
    if forall k | i < k < j :: !Queued(s.log)[k].Batched? {
      GapBetween(s.log, p, i, q, j);
    }
  }

  lemma RunNumbered(s: System)
    requires Inv(s)
    ensures Numbered(s.log)
  {
  }

  // ---------------------------------------------------------------- events of any size

  /** A run that stops where the sink appends past the buffer of its batch. */
  ghost function RunUntil(s: System, acts: seq<Action>): Option<System>
    requires Inv(s) && forall i | 0 <= i < |acts| && acts[i].EmitEvent? :: IsEvent(acts[i].event)
    decreases |acts|
  {
    if acts == [] then Some(s)
    else if acts[0].EmitEvent? && Emit(s.sink, acts[0].event).None? then None
    else
      NoOverrun(s, acts[0]);
      StepKeeps(s, acts[0]);
      RunUntil(Step(s, acts[0]), acts[1..])
  }

  lemma NoOverrun(s: System, a: Action)
    requires Inv(s) && (a.EmitEvent? ==> IsEvent(a.event))
    ensures ActionOk(a) <==> !(a.EmitEvent? && Emit(s.sink, a.event).None?)
  {
    if a.EmitEvent? { OverrunExactly(s.sink, a.event); }
  }

  /** A run is cut short exactly when it emits an event of one of the ten sizes; all other runs
      are those of the theorems above. */
  lemma {:induction false} OverrunsExactly(s: System, acts: seq<Action>)
    requires Inv(s) && forall i | 0 <= i < |acts| && acts[i].EmitEvent? :: IsEvent(acts[i].event)
    ensures RunUntil(s, acts).None? <==>
            exists i | 0 <= i < |acts| :: acts[i].EmitEvent? && 4084 <= |acts[i].event| <= 4093
    ensures RunUntil(s, acts).Some? <==> ActionsOk(acts)
    ensures ActionsOk(acts) ==> RunUntil(s, acts) == Some(Run(s, acts))
    decreases |acts|
  {
    hide Inv, Step, Emit;
    if acts != [] {
      var a := acts[0];
      NoOverrun(s, a);
      assert acts == [a] + acts[1..];
      if a.EmitEvent? { SinkHolds(s); OverrunExactly(s.sink, a.event); }
      if ActionOk(a) {
        StepKeeps(s, a);
        OverrunsExactly(Step(s, a), acts[1..]);
        if ActionsOk(acts) { RunNext(s, acts); }
        if i :| 0 <= i < |acts| && acts[i].EmitEvent? && 4084 <= |acts[i].event| <= 4093 {
          assert i > 0 && acts[1..][i - 1] == acts[i];
        }
      }
    }
  }

  lemma SinkHolds(s: System)
    requires Inv(s)
    ensures SinkOk(s.sink)
  {
  }

  // ---------------------------------------------------------------- why events are lost

  /** The ring has no room for the message: there is too little between region B and A, or B is not
      in use and neither the space behind A nor that in front of it is large enough. */
  predicate NoRoom(r: State, m: Key) {
    if r.bInUse then |m| > r.aStart - r.bEnd else |m| > |r.data| - r.aEnd >= r.aStart
  }

  lemma RefusedRoom(r: State, pid: nat, log: Log, delivered: seq<Key>, m: Key)
    requires InRing(r, pid, log, delivered) && !Accepts(r, m)
    ensures NoRoom(r, m)
  {
    hide Packets, Queued, Numbered;
  }

  /** In every run: when the ring does not take a chunk it has no room for it. The ring is the one
      before the step, or, for the second of two batches, the one after the first. */
  lemma RefusedOnlyFull(size: nat, pid: nat, acts: seq<Action>, a: Action, i: nat) returns (r: State)
    requires size <= MAX_SIZE && ActionsOk(acts) && ActionOk(a) && Inv(Initial(size, pid))
    requires var s := Run(Initial(size, pid), acts);
             |s.log| <= i < |Step(s, a).log| && !Step(s, a).log[i].Discarded? && !Step(s, a).log[i].accepted
    ensures var s := Run(Initial(size, pid), acts);
            && (r == s.sink.ring || (i == |s.log| + 1 && SinkOk(s.sink) && r == Close(s).sink.ring))
            && NoRoom(r, ChunkBytes(pid, Step(s, a).log[i]))
  {
    var s := Run(Initial(size, pid), acts);
    RunHistory(Initial(size, pid), acts);
    r := StepRefuses(s, a, i);
  }

  lemma StepRefuses(s: System, a: Action, i: nat) returns (r: State)
    requires Inv(s) && ActionOk(a) && |s.log| <= i < |Step(s, a).log|
    requires !Step(s, a).log[i].Discarded? && !Step(s, a).log[i].accepted
    ensures r == s.sink.ring || (i == |s.log| + 1 && SinkOk(s.sink) && r == Close(s).sink.ring)
    ensures NoRoom(r, ChunkBytes(s.sink.batch.pid, Step(s, a).log[i]))
  {
    hide InRing, Holds, HeaderBytes, Write, Offered, Headers, LogEvents, NoRoom, ChunkBytes;
    match a
    case EmitEvent(e) =>
      if s.sink.batch.length + |e| <= PACKET_SIZE {
        r := s.sink.ring;
      } else if HEADLEN + |e| <= PACKET_SIZE {
        r := CloseRefuses(s);
      } else if |e| >= MAX_PACKET_SIZE - 2 {
        r := s.sink.ring;
        RawRefused(s, e);
      } else {
        CloseKeeps(s);
        TakeKeeps(Close(s), e);
        if i == |s.log| {
          r := CloseRefuses(s);
        } else {
          r := CloseRefuses(Take(Close(s), e));
        }
      }
    case Tick => r := CloseRefuses(s);
    case Turn => r := s.sink.ring;
  }

  lemma RawRefused(s: System, e: Key)
    requires Inv(s) && !Accepts(s.sink.ring, e)
    ensures NoRoom(s.sink.ring, ChunkBytes(s.sink.batch.pid, Raw(e, false)))
  {
    RefusedRoom(s.sink.ring, s.sink.batch.pid, s.log, s.delivered, e);
  }

  lemma CloseRefuses(s: System) returns (r: State)
    requires Between(s)
    requires var c := Close(s).log[|s.log|]; !c.accepted
    ensures r == s.sink.ring && NoRoom(r, ChunkBytes(s.sink.batch.pid, Close(s).log[|s.log|]))
  {
    r := s.sink.ring;
    FinishedBytes(s.sink.batch, s.pending, Headers(s.log));
    RefusedRoom(r, s.sink.batch.pid, s.log, s.delivered, BatchBytes(Headers(s.log), s.sink.batch.pid, s.pending));
  }

  /** A finished batch is lost exactly when the ring has less room than it needs. */
  lemma CloseLoses(s: System)
    requires Between(s)
    ensures var t := Close(s);
            |t.log| == |s.log| + 1 && EventsOf(t.log[|s.log|]) == s.pending &&
            (Lost(t.log[|s.log|]) <==> Unused(s.sink.ring) < s.sink.batch.length)
  {
  }

  /** Pending events are thrown away only when an event is sent as it is. */
  lemma DiscardsOnlyRaw(s: System, a: Action)
    requires Inv(s) && ActionOk(a)
    ensures |s.log| <= |Step(s, a).log| && Step(s, a).log[..|s.log|] == s.log
    ensures forall i | |s.log| <= i < |Step(s, a).log| && Step(s, a).log[i].Discarded? ::
              a.EmitEvent? && |a.event| >= MAX_PACKET_SIZE - 2 && Step(s, a).log[i].events == s.pending
  {
    hide InRing, Holds, HeaderBytes, Write, Offered, Headers, LogEvents, Consume;
  }

  // ---------------------------------------------------------------- nothing stays in the ring

  function Turns(n: nat): seq<Action> {
    seq(n, i => Turn)
  }

  /** As many turns of the consumer as there are packets in the ring deliver them all. */
  lemma {:induction false} Drains(s: System)
    requires Inv(s) && |s.delivered| <= |Queued(s.log)|
    ensures var t := Run(s, Turns(|Queued(s.log)| - |s.delivered|));
            t.delivered == Packets(s.sink.batch.pid, Queued(s.log)) && t.log == s.log && Contents(t.sink.ring) == []
    decreases |Queued(s.log)| - |s.delivered|
  {
    hide *;
    var n := |Queued(s.log)| - |s.delivered|;
    if n == 0 {
      TurnsNone();
      RunNone(s);
      AllDelivered(s);
    } else {
      TurnKeeps(s);
      TurnsNext(n);
      RunNext(s, Turns(n));
      Drains(Step(s, Turn));
    }
  }

  lemma TurnsNone()
    ensures Turns(0) == []
  {
  }

  lemma TurnsNext(n: nat)
    requires n > 0
    ensures ActionsOk(Turns(n)) && Turns(n) != [] && Turns(n)[0] == Turn && Turns(n)[1..] == Turns(n - 1)
  {
  }

  lemma AllDelivered(s: System)
    requires Inv(s) && |s.delivered| == |Queued(s.log)|
    ensures forall i | 0 <= i < |Queued(s.log)| :: !Queued(s.log)[i].Discarded?
    ensures s.delivered == Packets(s.sink.batch.pid, Queued(s.log)) && Regions(s.sink.ring) &&
            Contents(s.sink.ring) == []
  {
    RowContents(s.sink.ring, Packets(s.sink.batch.pid, Queued(s.log))[|s.delivered|..]);
  }
}
