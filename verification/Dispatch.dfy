/** From encoded events to delivered packets: events are collected in a batch, finished batches
    go through the ring buffer, and a consumer takes them out by the length each starts with. */
module Dispatch {
  import opened Wrappers
  import opened Bytes
  import opened BipBuffer
  import W = WireEncoder

  const HEADLEN: nat := 13
  const PACKET_SIZE: nat := 1400
  const MAX_PACKET_SIZE: nat := 4096
  const RINGBUF_SIZE: nat := 10 * 1024 * 1024
  const EVENT_BATCH: Byte := 0xfa
  const TWO_16: nat := 0x1_0000

  // ---------------------------------------------------------------- messages

  /** The first two bytes are the length of the whole, positive as a signed number. */
  predicate IsMessage(m: Key) {
    HEADLEN <= |m| < 0x8000 && m[..2] == W.Little(|m|, 2)
  }

  predicate IsEvent(e: Key) {
    IsMessage(e) && W.MIN_PAYLOAD <= |e|
  }

  predicate Events(es: seq<Key>) {
    forall i | 0 <= i < |es| :: IsEvent(es[i])
  }

  /** The sizes for which the batch buffer is large enough. */
  predicate Safe(e: Key) {
    HEADLEN + |e| <= MAX_PACKET_SIZE || MAX_PACKET_SIZE - 2 <= |e|
  }

  /** What the encoder produces is an event. */
  lemma EncodedIsEvent(m: W.Message)
    requires W.MessageOk(m)
    ensures IsEvent(W.Encode(m))
  {
    W.LengthPrefix(m);
  }

  function HeaderBytes(length: nat, count: nat, sequence: nat, pid: nat): (h: Key)
    ensures |h| == HEADLEN
  {
    W.Little(length, 2) + [EVENT_BATCH] + W.Little(count, 2) + W.Little(sequence, 4) + W.Little(pid, 4)
  }

  // ---------------------------------------------------------------- the batch and the sink

  datatype Batch = Batch(buf: Key, length: nat, count: nat, sequence: nat, pid: nat)

  /** rg_encode_into_batch. */
  function IntoBatch(b: Batch, e: Key): Batch
    requires b.length + |e| <= |b.buf|
  {
    b.(buf := Write(b.buf, b.length, e), length := b.length + |e|, count := b.count + 1)
  }

  /** rg_encode_batch_header. */
  function WithHeader(b: Batch): Batch
    requires HEADLEN <= |b.buf|
  {
    b.(buf := Write(b.buf, 0, HeaderBytes(b.length, b.count, b.sequence, b.pid)), sequence := (b.sequence + 1) % TWO_32)
  }

  /** rb_rg_spawn_new_batch. */
  function NewBatch(b: Batch): Batch {
    b.(length := HEADLEN, count := 0)
  }

  datatype Sink = Sink(batch: Batch, ring: State)

  predicate Accepts(r: State, m: Key) {
    |m| <= Unused(r)
  }

  function Offer(r: State, m: Key): State
    requires Regions(r)
  {
    if Accepts(r, m) then Offered(r, m) else r
  }

  predicate SinkOk(s: Sink) {
    Regions(s.ring) && |s.batch.buf| == MAX_PACKET_SIZE && HEADLEN <= s.batch.length <= PACKET_SIZE
  }

  /** Give the batch its header, offer it to the ring and start a new one. */
  function Dispatched(s: Sink): Sink
    requires Regions(s.ring) && HEADLEN <= s.batch.length <= |s.batch.buf| == MAX_PACKET_SIZE
  {
    var b := WithHeader(s.batch);
    Sink(NewBatch(b), Offer(s.ring, b.buf[..b.length]))
  }

  /** rb_rg_batched_sink without an event: flush, but not an empty batch. */
  function Flush(s: Sink): Sink
    requires SinkOk(s)
  {
    if s.batch.length == HEADLEN then s else Dispatched(s)
  }

  /** The append, or None when it would write past the buffer. */
  function TryInto(b: Batch, e: Key): Option<Batch> {
    if b.length + |e| <= |b.buf| then Some(IntoBatch(b, e)) else None
  }

  function Appended(s: Sink, e: Key): (r: Option<Sink>)
    ensures r.Some? ==> s.batch.length + |e| <= |s.batch.buf| && r.value == s.(batch := IntoBatch(s.batch, e))
  {
    match TryInto(s.batch, e)
    case None => None
    case Some(b) => Some(s.(batch := b))
  }

  /** rb_rg_batched_sink with an event: None when it appends past the buffer of the batch. */
  function Emit(s: Sink, e: Key): Option<Sink>
    requires SinkOk(s)
  {
    if s.batch.length + |e| <= PACKET_SIZE then Appended(s, e)
    else if HEADLEN + |e| <= PACKET_SIZE then
      (if s.batch.length == HEADLEN then Some(s) else Appended(Dispatched(s), e))
    else if |e| >= MAX_PACKET_SIZE - 2 then Some(Sink(NewBatch(s.batch), Offer(s.ring, e)))
    else
      match Appended(Dispatched(s), e)
      case None => None
      case Some(d) => Some(Dispatched(d))
  }

  /** The guard before the last branch lets sizes through that do not fit behind the header: the
      sink appends past its buffer exactly for those ten, by at most ten bytes. */
  lemma OverrunExactly(s: Sink, e: Key)
    requires SinkOk(s)
    ensures Emit(s, e).None? <==> 4084 <= |e| <= 4093
    ensures Emit(s, e).None? ==>
              MAX_PACKET_SIZE < Dispatched(s).batch.length + |e| <= MAX_PACKET_SIZE + 10
    ensures Safe(e) <==> Emit(s, e).Some?
  {
    hide HeaderBytes, Write, Offered;
  }

  /** Such events exist: two strings of 4000 and 67 bytes. */
  lemma OverrunEvent() returns (m: W.Message)
    ensures W.MessageOk(m) && |W.Encode(m)| == 4090 && IsEvent(W.Encode(m)) && !Safe(W.Encode(m))
  {
    var e := W.ProcessType(seq(4000, _ => 0), seq(67, _ => 0));
    m := W.Message(0, 0, 0, e);
    assert W.Fields(e) == [W.Str(e.technology), W.Str(e.process)];
    assert forall i | 0 <= i < |W.Fields(e)| :: W.FieldOk(W.Fields(e)[i]);
    assert W.EventOk(e);
    W.LengthPrefix(m);
    EncodedIsEvent(m);
  }

  /** An event is never lost in the branch that does not flush an empty batch. */
  lemma EmptyBatchHasRoom(s: Sink, e: Key)
    requires SinkOk(s) && s.batch.length + |e| > PACKET_SIZE && HEADLEN + |e| <= PACKET_SIZE
    ensures s.batch.length != HEADLEN
  {
  }

  // ---------------------------------------------------------------- the consumer

  datatype Taken = Nothing | Exit | Sent(message: Key, ring: State)

  /** rg_ringbuf_next_message_size: 0 when there is nothing to look at. */
  function NextSize(r: State): int
    requires Regions(r)
  {
    if Pollable(r, 2) && r.aStart + 2 <= |r.data| then
      var n := W.Unlittle(r.data[r.aStart..r.aStart + 2]);
      if n >= 0x8000 then n - TWO_16 else n
    else 0
  }

  /** The prefix is a signed 16-bit number, so that a first message can look negative. */
  lemma NextSizeSigned(r: State)
    requires Regions(r) && Pollable(r, 2) && r.aStart + 2 <= |r.data|
    ensures var low, high := r.data[r.aStart] as int, r.data[r.aStart + 1] as int;
            NextSize(r) == if high < 128 then low + 256 * high else low + 256 * high - 65536
  {
    W.UnlittleTwo(r.data[r.aStart..r.aStart + 2]);
  }

  /** One turn of the consumer loop: poll as many bytes as the next message says, then copy them. */
  function Consume(r: State): Taken
    requires Regions(r)
  {
    if r.aStart == r.aEnd then Nothing
    else
      var size := NextSize(r);
      if size <= 0 then Exit
      else if !Pollable(r, size) || r.aStart + size > |r.data| then Exit
      else Sent(r.data[r.aStart..r.aStart + size], Polled(r, size))
  }

  lemma SliceHead(d: Key, a: nat, n: nat, m: Key)
    requires a + |m| <= |d| && d[a..a + |m|] == m && n <= |m|
    ensures d[a..a + n] == m[..n]
  {
    assert d[a..a + n] == d[a..a + |m|][..n];
  }

  /** The size is read from the first two bytes of the first message. */
  lemma FirstSize(r: State, m: Key)
    requires Regions(r) && IsMessage(m) && Pollable(r, |m|)
    requires r.aStart + |m| <= r.aEnd && r.data[r.aStart..r.aStart + |m|] == m
    ensures NextSize(r) == |m|
  {
    SliceHead(r.data, r.aStart, 2, m);
    W.LittleBack(|m|, 2);
  }

  /** A row of messages is taken from the front, whole and unchanged. */
  lemma ConsumeFramed(r: State, ms: seq<Key>, k: nat)
    requires Framed(r, ms, k) && forall i | 0 <= i < |ms| :: IsMessage(ms[i])
    ensures ms == [] ==> Consume(r) == Nothing
    ensures ms != [] ==> Consume(r).Sent? && Consume(r).message == ms[0]
    ensures ms != [] ==> exists k' :: Framed(Consume(r).ring, ms[1..], k')
  {
    FramedEmpty(r, ms, k);
    if ms != [] {
      FramedFirst(r, ms, k);
      FramedPoll(r, ms, k);
      FirstSize(r, ms[0]);
      hide Framed, NextSize, Polled, Pollable;
    }
  }

  // ---------------------------------------------------------------- what batches hold

  /** Walk n length prefixes; the pieces must use up the bytes exactly. */
  function Pieces(b: Key, n: nat): Option<seq<Key>>
    decreases n
  {
    if n == 0 then (if b == [] then Some([]) else None)
    else if |b| < 2 then None
    else
      var size := W.Unlittle(b[..2]);
      if size < 2 || size > |b| then None
      else
        match Pieces(b[size..], n - 1)
        case None => None
        case Some(rest) => Some([b[..size]] + rest)
  }

  /** Read a batch back: its length and count, then the events. */
  function Parse(b: Key): Option<seq<Key>> {
    if |b| < HEADLEN || W.Unlittle(b[..2]) != |b| || b[2] != EVENT_BATCH then None
    else Pieces(b[HEADLEN..], W.Unlittle(b[3..5]))
  }

  lemma {:induction false} PiecesOf(es: seq<Key>)
    requires Events(es)
    ensures Pieces(Flatten(es), |es|) == Some(es)
  {
    if es != [] {
      var b, e := Flatten(es), es[0];
      W.LittleBack(|e|, 2);
      assert b[..|e|] == e && b[|e|..] == Flatten(es[1..]);
      assert b[..2] == e[..2];
      PiecesOf(es[1..]);
      assert [e] + es[1..] == es;
    }
  }

  lemma {:induction false} FlattenSize(es: seq<Key>)
    requires Events(es)
    ensures |Flatten(es)| >= 19 * |es|
  {
    if es != [] {
      FlattenSize(es[1..]);
    }
  }

  function BatchBytes(no: nat, pid: nat, es: seq<Key>): Key {
    HeaderBytes(HEADLEN + |Flatten(es)|, |es|, no % TWO_32, pid) + Flatten(es)
  }

  /** A batch reads back as exactly its events: behind the length and the type byte it carries the
      number of events, its sequence number and the process id, and the events from byte 13 on. */
  lemma BatchParses(no: nat, pid: nat, es: seq<Key>)
    requires Events(es) && HEADLEN + |Flatten(es)| <= MAX_PACKET_SIZE
    ensures var b := BatchBytes(no, pid, es);
            Parse(b) == Some(es) && IsMessage(b) && |b| >= 13
    ensures var b := BatchBytes(no, pid, es);
            && W.Unlittle(b[..2]) == |b| && b[2] == 0xfa && W.Unlittle(b[3..5]) == |es|
            && W.Unlittle(b[5..9]) == no % 0x1_0000_0000 && (pid < 0x1_0000_0000 ==> W.Unlittle(b[9..13]) == pid)
            && b[13..] == Flatten(es)
  {
    var b, head := BatchBytes(no, pid, es), HeaderBytes(HEADLEN + |Flatten(es)|, |es|, no % TWO_32, pid);
    FlattenSize(es);
    HeaderRead(|b|, |es|, no % TWO_32, pid);
    hide HeaderBytes, W.Unlittle, Pieces;
    assert b[..2] == head[..2] && b[2] == head[2] && b[3..5] == head[3..5] && b[5..9] == head[5..9];
    assert b[9..13] == head[9..13] && b[HEADLEN..] == Flatten(es);
    PiecesOf(es);
  }

  lemma HeaderRead(length: nat, count: nat, sequence: nat, pid: nat)
    requires length < TWO_16 && count < TWO_16 && sequence < TWO_32
    ensures var h := HeaderBytes(length, count, sequence, pid);
            && h[..2] == W.Little(length, 2) && W.Unlittle(h[..2]) == length && h[2] == 0xfa
            && W.Unlittle(h[3..5]) == count && W.Unlittle(h[5..9]) == sequence
            && (pid < TWO_32 ==> W.Unlittle(h[9..13]) == pid)
  {
    var h := HeaderBytes(length, count, sequence, pid);
    W.LittleBack(length, 2);
    W.LittleBack(count, 2);
    W.LittleBack(sequence, 4);
    if pid < TWO_32 { W.LittleBack(pid, 4); }
    hide W.Unlittle, W.Little;
    HeaderParts(W.Little(length, 2), [EVENT_BATCH], W.Little(count, 2), W.Little(sequence, 4), W.Little(pid, 4));
  }

  lemma HeaderParts(a: Key, b: Key, c: Key, d: Key, e: Key)
    requires |a| == 2 && |b| == 1 && |c| == 2 && |d| == 4 && |e| == 4
    ensures var h := a + b + c + d + e;
            h[..2] == a && h[2] == b[0] && h[3..5] == c && h[5..9] == d && h[9..13] == e
  {
  }

  // ---------------------------------------------------------------- the sink as an object

  /** What rb_rg_batched_sink returns: 1 when the event found room in the batch under way or
      there was nothing to flush, otherwise what the last offer took. */
  function EmitReturns(s: Sink, e: Key): nat
    requires SinkOk(s)
  {
    if s.batch.length + |e| <= PACKET_SIZE || (HEADLEN + |e| <= PACKET_SIZE && s.batch.length == HEADLEN) then 1
    else if HEADLEN + |e| <= PACKET_SIZE then OfferReturns(s.ring, s.batch.length)
    else if |e| >= MAX_PACKET_SIZE - 2 then OfferReturns(s.ring, |e|)
    else OfferReturns(Dispatched(s).ring, HEADLEN + |e|)
  }

  lemma DispatchedRegions(s: Sink)
    requires Regions(s.ring) && HEADLEN <= s.batch.length <= |s.batch.buf| == MAX_PACKET_SIZE
    ensures Regions(Dispatched(s).ring)
  {
    var b := WithHeader(s.batch);
    if Accepts(s.ring, b.buf[..b.length]) { OfferedQueue(s.ring, b.buf[..b.length]); }
  }

  function OfferReturns(r: State, n: nat): nat {
    if n <= Unused(r) then n else 0
  }

  /** The ring took the message and n is its size, or it did not and n is 0. */
  predicate Took(r: State, m: Key, t: State, n: nat)
    requires Regions(r)
  {
    Regions(t) && if n > 0 then n == |m| && Contents(t) == Contents(r) + m else t == r
  }

  /** What the last offer of a call was, and that the result says whether the ring took it: the batch
      under way, the large event itself, or the batch that holds the large event. */
  lemma ReturnsQueued(s: Sink, e: Key) returns (m: Key)
    requires SinkOk(s) && Emit(s, e).Some? && s.batch.length + |e| > 1400 && !(|e| <= 1387 && s.batch.length == 13)
    ensures var t, n := Emit(s, e).value.ring, EmitReturns(s, e);
            && Regions(Dispatched(s).ring)
            && (|e| <= 1387 ==> |m| == s.batch.length && Took(s.ring, m, t, n))
            && (|e| >= 4094 ==> m == e && Took(s.ring, m, t, n))
            && (1387 < |e| < 4084 ==> |m| == 13 + |e| && m[13..] == e && Took(Dispatched(s).ring, m, t, n))
  {
    hide HeaderBytes, Write, Offered, Regions, Contents;
    DispatchedRegions(s);
    if |e| <= 1387 {
      m := WithHeader(s.batch).buf[..s.batch.length];
      OfferTakes(s.ring, m);
    } else if |e| >= 4094 {
      m := e;
      OfferTakes(s.ring, m);
    } else {
      var d := Appended(Dispatched(s), e).value;
      m := WithHeader(d.batch).buf[..d.batch.length];
      AppendedBytes(Dispatched(s).batch, e);
      OfferTakes(Dispatched(s).ring, m);
    }
  }

  lemma OfferTakes(r: State, m: Key)
    requires Regions(r) && m != []
    ensures Took(r, m, Offer(r, m), OfferReturns(r, |m|))
  {
    if Accepts(r, m) { OfferedQueue(r, m); }
  }

  lemma AppendedBytes(b: Batch, e: Key)
    requires b.length == HEADLEN && |b.buf| == MAX_PACKET_SIZE && HEADLEN + |e| <= MAX_PACKET_SIZE
    ensures WithHeader(IntoBatch(b, e)).buf[..HEADLEN + |e|][HEADLEN..] == e
  {
    var w := IntoBatch(b, e).buf;
    assert w[HEADLEN..HEADLEN + |e|] == e;
    assert WithHeader(IntoBatch(b, e)).buf[HEADLEN..] == w[HEADLEN..];
  }

  /** Which events are collected, which close the batch under way, and which go out alone or in a
      batch of their own; a flush leaves an empty batch alone. */
  lemma SinkBranches(s: Sink, e: Key)
    requires SinkOk(s) && Emit(s, e).Some?
    ensures var t, b := Emit(s, e).value, s.batch;
            && (b.length + |e| <= 1400 ==>
                  t.ring == s.ring && t.batch.length == b.length + |e| && t.batch.count == b.count + 1 &&
                  t.batch.sequence == b.sequence)
            && (b.length + |e| > 1400 && |e| <= 1387 ==>
                  t.batch.length == 13 + |e| && t.batch.count == 1 &&
                  t.batch.sequence == (b.sequence + 1) % 0x1_0000_0000)
            && (1387 < |e| < 4084 && b.length + |e| > 1400 ==>
                  t.batch.length == 13 && t.batch.count == 0 &&
                  t.batch.sequence == ((b.sequence + 1) % 0x1_0000_0000 + 1) % 0x1_0000_0000)
            && (|e| >= 4094 ==> t.batch.length == 13 && t.batch.count == 0 && t.batch.sequence == b.sequence)
    ensures Flush(s) == s <==> s.batch.length == 13
  {
    hide HeaderBytes, Write, Offered;
  }

  class BatchedSink {
    const buf: array<Byte>
    const ring: BipBuf
    var length: nat
    var count: nat
    var sequence: nat
    const pid: nat

    ghost predicate Apart()
      reads this, ring
    {
      buf != ring.data && buf.Length == MAX_PACKET_SIZE
    }

    function Value(): Sink
      reads this, buf, ring, ring.data
    {
      Sink(Batch(buf[..], length, count, sequence, pid), ring.Value())
    }

    constructor (pid: nat)
      ensures fresh(buf) && fresh(ring) && fresh(ring.data) && Apart() && SinkOk(Value())
      ensures length == HEADLEN && count == 0 && sequence == 0 && this.pid == pid && Framed(ring.Value(), [], 0)
      ensures ring.data.Length == 10485760
    {
      buf := new Byte[MAX_PACKET_SIZE](i => 0);
      ring := new BipBuf(RINGBUF_SIZE);
      length, count, sequence, this.pid := HEADLEN, 0, 0, pid;
    }

    /** rg_encode_into_batch. */
    method EncodeIntoBatch(e: Key)
      requires Apart() && length + |e| <= MAX_PACKET_SIZE
      modifies this`length, this`count, buf
      ensures Value() == old(Value()).(batch := IntoBatch(old(Value()).batch, e))
    {
      ghost var was := buf[..];
      forall i | 0 <= i < |e| {
        buf[length + i] := e[i];
      }
      assert buf[..] == Write(was, length, e);
      length, count := length + |e|, count + 1;
    }

    /** rg_encode_batch_header. */
    method EncodeBatchHeader()
      requires Apart()
      modifies this`sequence, buf
      ensures Value() == old(Value()).(batch := WithHeader(old(Value()).batch))
      ensures length < TWO_16 && count < TWO_16 && old(sequence) < TWO_32 ==>
                W.Unlittle(buf[..2]) == length && buf[2] == 0xfa && W.Unlittle(buf[3..5]) == count &&
                W.Unlittle(buf[5..9]) == old(sequence) && (pid < TWO_32 ==> W.Unlittle(buf[9..13]) == pid)
    {
      hide W.Little, W.Unlittle;
      var header := HeaderBytes(length, count, sequence, pid);
      if length < TWO_16 && count < TWO_16 && sequence < TWO_32 { HeaderRead(length, count, sequence, pid); }
      ghost var was := buf[..];
      forall i | 0 <= i < HEADLEN {
        buf[i] := header[i];
      }
      assert buf[..] == Write(was, 0, header);
      assert buf[..HEADLEN] == header;
      assert buf[..2] == header[..2] && buf[3..5] == header[3..5] && buf[5..9] == header[5..9] &&
             buf[9..13] == header[9..13];
      sequence := (sequence + 1) % TWO_32;
    }

    /** rb_rg_spawn_new_batch. */
    method SpawnNewBatch()
      modifies this`length, this`count
      ensures Value() == old(Value()).(batch := NewBatch(old(Value()).batch))
    {
      length, count := HEADLEN, 0;
    }

    /** Header, offer, new batch. */
    method Dispatch() returns (retval: nat)
      requires Apart() && HEADLEN <= length <= MAX_PACKET_SIZE && Regions(ring.Value())
      modifies this`length, this`count, this`sequence, buf, ring, ring.data
      ensures Value() == Dispatched(old(Value())) && retval == OfferReturns(old(ring.Value()), old(length))
    {
      hide HeaderBytes, Write, Offered;
      EncodeBatchHeader();
      retval := ring.Offer(buf[..length]);
      SpawnNewBatch();
    }

    /** rb_rg_batched_sink; None is the flush of the timer thread. Where the C code would append
        past the buffer the model stops and says so. */
    method Accept(event: Option<Key>) returns (retval: nat, overrun: bool)
      requires Apart() && SinkOk(Value())
      modifies this`length, this`count, this`sequence, buf, ring, ring.data
      ensures overrun == (event.Some? && Emit(old(Value()), event.value).None?)
      ensures event.Some? && !overrun ==> Value() == Emit(old(Value()), event.value).value
      ensures event.None? ==> Value() == Flush(old(Value()))
      ensures event.Some? && !overrun ==> retval == EmitReturns(old(Value()), event.value)
    {
      hide HeaderBytes, Write, Offered, WithHeader;
      retval, overrun := 1, false;
      if event.Some? && length + |event.value| <= PACKET_SIZE {
        EncodeIntoBatch(event.value);
      } else if event.None? || HEADLEN + |event.value| <= PACKET_SIZE {
        if length == HEADLEN { return; }
        retval := Dispatch();
        if event.Some? {
          EncodeIntoBatch(event.value);
        }
      } else if |event.value| >= MAX_PACKET_SIZE - 2 {
        retval := ring.Offer(event.value);
        SpawnNewBatch();
      } else {
        DispatchedRegions(Value());
        var ignored := Dispatch();
        if length + |event.value| > MAX_PACKET_SIZE {
          overrun := true;
          return;
        }
        EncodeIntoBatch(event.value);
        retval := Dispatch();
      }
    }

    /** One turn of the consumer loop. */
    method TakeMessage() returns (taken: bool, running: bool, payload: Key)
      requires Apart() && Regions(ring.Value())
      modifies ring
      ensures match Consume(old(ring.Value()))
              case Nothing => !taken && running && ring.Value() == old(ring.Value())
              case Exit => !taken && !running
              case Sent(m, r) => taken && running && payload == m && ring.Value() == r
    {
      taken, running, payload := false, true, [];
      if ring.aStart == ring.aEnd { return; }
      var size := NextMessageSize();
      if size <= 0 { return false, false, []; }
      var ptr := ring.Poll(size);
      if ptr.None? || ptr.value + size > ring.data.Length { return false, false, []; }
      taken, payload := true, ring.data[ptr.value..ptr.value + size];
    }

    /** rg_ringbuf_next_message_size. */
    method NextMessageSize() returns (size: int)
      requires Regions(ring.Value())
      ensures size == NextSize(ring.Value())
    {
      var at := ring.Peek(2);
      if at.Some? && at.value + 2 <= ring.data.Length {
        var n := W.Unlittle(ring.data[at.value..at.value + 2]);
        size := if n >= 0x8000 then n - TWO_16 else n;
      } else {
        size := 0;
      }
    }
  }
}
