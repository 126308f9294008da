/** The shadow stack of a traced thread: which calls are pushed and reported, which returns are
    popped and reported, and exactly when the two agree. */
module ShadowStack {
  const STACK_LIMIT: nat := 256

  /** How a method is treated: not at all (the tracer's own methods and blacklisted ones), as
      user code, as the code of a known library, or as waiting for synchronization. */
  datatype Kind = Excluded | User | Library | Sync

  datatype Method = Method(id: nat, kind: Kind)

  datatype Event = Begin(id: nat) | End(id: nat)

  /** shadow_top + 1 entries of the shadow stack, the depth of the VM stack and how many library
      frames deep the thread is. */
  datatype Thread = Thread(shadow: seq<nat>, vmTop: int, level: int)

  const START: Thread := Thread([], -1, 0)

  /** RUBY_EVENT_CALL: the thread afterwards and what is reported. */
  function Call(t: Thread, m: Method): (Thread, seq<Event>) {
    var u := t.(vmTop := t.vmTop + 1);
    if |t.shadow| == STACK_LIMIT || m.kind == Excluded then (u, [])
    else
      var v := if m.kind == Library then u.(level := u.level + 1) else u;
      if (m.kind == Library || m.kind == Sync) && v.level > 1 then (v, [])
      else (v.(shadow := v.shadow + [m.id]), [Begin(m.id)])
  }

  /** RUBY_EVENT_RETURN. */
  function Return(t: Thread, m: Method): (Thread, seq<Event>) {
    var u := t.(vmTop := t.vmTop - 1);
    if u.vmTop >= STACK_LIMIT - 1 || t.shadow == [] || m.kind == Excluded then (u, [])
    else
      var v := if m.kind == Library then u.(level := u.level - 1) else u;
      if (m.kind == Library || m.kind == Sync) && v.level > 0 then (v, [])
      else (v.(shadow := v.shadow[..|v.shadow| - 1]), [End(m.id)])
  }

  // ---------------------------------------------------------------- when a return undoes a call

  /** The condition on a call, to be checked before it, under which its return will treat it the
      same way: n frames are open, k of them on the shadow stack. CALL looks at the shadow
      stack, RETURN at the VM stack; a synchronization method is pushed one library level deeper
      than it is popped. */
  predicate Clean(kind: Kind, n: nat, k: nat, level: int) {
    match kind
    case Excluded => true
    case User => k < STACK_LIMIT <==> n < STACK_LIMIT
    case Library => k < STACK_LIMIT <==> n < STACK_LIMIT
    case Sync => level > 1 || (if level == 1 then k == STACK_LIMIT else k < STACK_LIMIT <==> n < STACK_LIMIT)
  }

  /** Threads as runs leave them. */
  predicate Sound(t: Thread) {
    && |t.shadow| <= STACK_LIMIT && |t.shadow| <= t.vmTop + 1 && t.level >= 0
    && (t.level > 0 ==> t.shadow != [])
  }

  /** A return right after the call restores the thread exactly when the call is clean. */
  lemma CleanExactly(t: Thread, m: Method)
    requires Sound(t)
    ensures Return(Call(t, m).0, m).0 == t <==> Clean(m.kind, t.vmTop + 1, |t.shadow|, t.level)
  {
    var c := Call(t, m).0;
    assert c.shadow == t.shadow || c.shadow == t.shadow + [m.id];
    if c.shadow != t.shadow {
      assert c.shadow[..|c.shadow| - 1] == t.shadow;
    }
  }

  // ---------------------------------------------------------------- runs

  /** An open frame: whether its call was pushed, and whether it raised the library level. */
  datatype Frame = Frame(m: Method, pushed: bool, raised: bool)

  type Frames = seq<Frame>

  function Pushed(fs: Frames): seq<nat> {
    if fs == [] then [] else Pushed(fs[..|fs| - 1]) + if fs[|fs| - 1].pushed then [fs[|fs| - 1].m.id] else []
  }

  function Raised(fs: Frames): nat {
    if fs == [] then 0 else Raised(fs[..|fs| - 1]) + if fs[|fs| - 1].raised then 1 else 0
  }

  /** What the hook makes of a call on top of the open frames. */
  function Opened(fs: Frames, m: Method): Frame {
    var room := |Pushed(fs)| < STACK_LIMIT;
    var raised := room && m.kind == Library;
    var level := Raised(fs) + if raised then 1 else 0;
    Frame(m, room && m.kind != Excluded && !((m.kind == Library || m.kind == Sync) && level > 1), raised)
  }

  /** Every open frame was opened by a clean call. */
  predicate Opening(fs: Frames) {
    fs == [] ||
    var below, f := fs[..|fs| - 1], fs[|fs| - 1];
    Opening(below) && f == Opened(below, f.m) && Clean(f.m.kind, |below|, |Pushed(below)|, Raised(below))
  }

  /** The BEGINs that are still open after the events, provided every END closes the last one. */
  function Replay(es: seq<Event>): (r: (bool, seq<nat>)) {
    if es == [] then (true, [])
    else
      var (ok, open) := Replay(es[..|es| - 1]);
      match es[|es| - 1]
      case Begin(id) => (ok, open + [id])
      case End(id) => if ok && open != [] && open[|open| - 1] == id then (true, open[..|open| - 1]) else (false, open)
  }

  /** The shadow stack is the open BEGINs, which are the pushed frames; the level is the raised
      ones; the VM depth is the open frames. */
  predicate Inv(t: Thread, fs: Frames, es: seq<Event>) {
    && Opening(fs) && t == Thread(Pushed(fs), |fs| - 1, Raised(fs)) && |t.shadow| <= STACK_LIMIT
    && Replay(es) == (true, t.shadow)
  }

  lemma {:induction false} PushedShort(fs: Frames)
    ensures |Pushed(fs)| <= |fs|
  {
    if fs != [] { PushedShort(fs[..|fs| - 1]); }
  }

  /** Below a raised level there is a pushed frame: the first library frame is one. */
  lemma {:induction false} RaisedPushed(fs: Frames)
    requires Opening(fs) && Raised(fs) > 0
    ensures Pushed(fs) != []
  {
    var below := fs[..|fs| - 1];
    if Raised(below) > 0 {
      RaisedPushed(below);
    }
  }

  lemma SoundBelow(fs: Frames)
    requires Opening(fs) && |Pushed(fs)| <= STACK_LIMIT
    ensures Sound(Thread(Pushed(fs), |fs| - 1, Raised(fs)))
  {
    PushedShort(fs);
    if Raised(fs) > 0 { RaisedPushed(fs); }
  }

  lemma InvSound(t: Thread, fs: Frames, es: seq<Event>)
    requires Inv(t, fs, es)
    ensures Sound(t)
  {
    SoundBelow(fs);
  }

  lemma ReplayAppend(es: seq<Event>, e: Event)
    requires Replay(es).0
    ensures e.Begin? ==> Replay(es + [e]) == (true, Replay(es).1 + [e.id])
    ensures var open := Replay(es).1;
            e.End? && open != [] && open[|open| - 1] == e.id ==> Replay(es + [e]) == (true, open[..|open| - 1])
  {
    assert (es + [e])[..|es|] == es;
  }

  /** A clean call keeps the invariant. */
  lemma CallKeeps(t: Thread, fs: Frames, es: seq<Event>, m: Method)
    requires Inv(t, fs, es) && Clean(m.kind, |fs|, |t.shadow|, t.level)
    ensures Inv(Call(t, m).0, fs + [Opened(fs, m)], es + Call(t, m).1)
  {
    var f := Opened(fs, m);
    assert (fs + [f])[..|fs|] == fs;
    if Call(t, m).1 == [] {
      assert es + [] == es;
    } else {
      ReplayAppend(es, Begin(m.id));
    }
  }

  /** What the top frame says about the thread below it. */
  lemma TopFrame(fs: Frames)
    requires Opening(fs) && fs != []
    ensures var below, f := fs[..|fs| - 1], fs[|fs| - 1];
            && Opening(below) && Clean(f.m.kind, |below|, |Pushed(below)|, Raised(below))
            && var u := Thread(Pushed(below), |below| - 1, Raised(below));
            && (|u.shadow| <= STACK_LIMIT ==> Call(u, f.m).0 == Thread(Pushed(fs), |fs| - 1, Raised(fs)))
            && (|u.shadow| <= STACK_LIMIT ==> (f.pushed <==> Call(u, f.m).1 != []))
            && (f.pushed ==> Pushed(fs) == u.shadow + [f.m.id])
            && |u.shadow| <= |Pushed(fs)|
  {
    assert fs[..|fs| - 1] + [] == fs[..|fs| - 1];
  }

  /** The events of a return that undoes a call: one END exactly when the call reported a BEGIN. */
  lemma CleanEvents(u: Thread, m: Method)
    requires Sound(u) && Clean(m.kind, u.vmTop + 1, |u.shadow|, u.level)
    ensures var c := Call(u, m);
            && Return(c.0, m).0 == u
            && Return(c.0, m).1 == (if c.1 == [] then [] else [End(m.id)])
            && c.0.shadow == u.shadow + (if c.1 == [] then [] else [m.id])
  {
    CleanExactly(u, m);
  }

  lemma ReplayNone(es: seq<Event>)
    ensures es + [] == es
  {
  }

  /** The return of the last open frame undoes its call, and ends what was begun. */
  lemma ReturnKeeps(t: Thread, fs: Frames, es: seq<Event>)
    requires Inv(t, fs, es) && fs != []
    ensures var below, f := fs[..|fs| - 1], fs[|fs| - 1];
            Inv(Return(t, f.m).0, below, es + Return(t, f.m).1) &&
            (Return(t, f.m).1 != [] <==> f.pushed) && (f.pushed ==> t.shadow[|t.shadow| - 1] == f.m.id)
  {
    hide Opening, Pushed, Raised, Replay, Clean, Call, Return, Sound;
    var below, f := fs[..|fs| - 1], fs[|fs| - 1];
    var u := Thread(Pushed(below), |below| - 1, Raised(below));
    TopFrame(fs);
    SoundBelow(below);
    CleanEvents(u, f.m);
    if f.pushed {
      ReplayAppend(es, End(f.m.id));
      assert t.shadow[..|t.shadow| - 1] == u.shadow;
    } else {
      ReplayNone(es);
      assert u.shadow + [] == u.shadow;
    }
  }

  datatype Action = Enter(m: Method) | Leave

  datatype System = System(thread: Thread, frames: Frames, events: seq<Event>)

  const IDLE: System := System(START, [], [])

  /** A call, or the return of the last open frame. */
  function Step(s: System, a: Action): System {
    match a
    case Enter(m) => System(Call(s.thread, m).0, s.frames + [Opened(s.frames, m)], s.events + Call(s.thread, m).1)
    case Leave =>
      if s.frames == [] then s
      else
        var m := s.frames[|s.frames| - 1].m;
        System(Return(s.thread, m).0, s.frames[..|s.frames| - 1], s.events + Return(s.thread, m).1)
  }

  function Run(s: System, acts: seq<Action>): System
    decreases |acts|
  {
    if acts == [] then s else Run(Step(s, acts[0]), acts[1..])
  }

  /** Every call of the run is clean when it happens. */
  predicate AllClean(s: System, acts: seq<Action>)
    decreases |acts|
  {
    acts == [] ||
    ((acts[0].Enter? ==> Clean(acts[0].m.kind, |s.frames|, |s.thread.shadow|, s.thread.level)) &&
     AllClean(Step(s, acts[0]), acts[1..]))
  }

  predicate Good(s: System) {
    Inv(s.thread, s.frames, s.events)
  }

  lemma StepKeeps(s: System, a: Action)
    requires Good(s) && (a.Enter? ==> Clean(a.m.kind, |s.frames|, |s.thread.shadow|, s.thread.level))
    ensures Good(Step(s, a))
  {
    match a
    case Enter(m) => CallKeeps(s.thread, s.frames, s.events, m);
    case Leave => if s.frames != [] { ReturnKeeps(s.thread, s.frames, s.events); }
  }

  lemma {:induction false} RunKeeps(s: System, acts: seq<Action>)
    requires Good(s) && AllClean(s, acts)
    ensures Good(Run(s, acts))
    decreases |acts|
  {
    if acts != [] {
      StepKeeps(s, acts[0]);
      RunKeeps(Step(s, acts[0]), acts[1..]);
    }
  }

  /** In a run of clean calls the BEGINs and ENDs match, the shadow stack is the open BEGINs, and
      when all frames have returned nothing is open. */
  lemma Balanced(acts: seq<Action>)
    requires AllClean(IDLE, acts)
    ensures var s := Run(IDLE, acts);
            Replay(s.events) == (true, s.thread.shadow) && s.thread.vmTop == |s.frames| - 1 &&
            (s.frames == [] ==> s.thread == START && Replay(s.events) == (true, []))
  {
    RunKeeps(IDLE, acts);
  }

  // ---------------------------------------------------------------- shallow runs

  /** At most STACK_LIMIT frames are open at any time, and no synchronization method is called
      exactly one library frame deep. */
  predicate Shallow(s: System, acts: seq<Action>)
    decreases |acts|
  {
    acts == [] ||
    ((acts[0].Enter? ==> |s.frames| < STACK_LIMIT && !(acts[0].m.kind == Sync && s.thread.level == 1)) &&
     Shallow(Step(s, acts[0]), acts[1..]))
  }

  /** Shallow runs are clean. */
  lemma {:induction false} ShallowClean(s: System, acts: seq<Action>)
    requires Good(s) && Shallow(s, acts)
    ensures AllClean(s, acts)
    decreases |acts|
  {
    if acts != [] {
      InvSound(s.thread, s.frames, s.events);
      StepKeeps(s, acts[0]);
      ShallowClean(Step(s, acts[0]), acts[1..]);
    }
  }

  /** The balance of BEGIN and END for runs within the depth limit. */
  lemma ShallowBalanced(acts: seq<Action>)
    requires Shallow(IDLE, acts)
    ensures var s := Run(IDLE, acts);
            Replay(s.events) == (true, s.thread.shadow) &&
            (s.frames == [] ==> s.thread == START && Replay(s.events) == (true, []))
  {
    ShallowClean(IDLE, acts);
    Balanced(acts);
  }

  // ---------------------------------------------------------------- what a leak leaves behind

  /** The open frames whose return will pop: the pushed ones, but for the synchronization methods
      called exactly one library frame deep. */
  function Popping(fs: Frames): nat {
    if fs == [] then 0
    else
      var below, f := fs[..|fs| - 1], fs[|fs| - 1];
      Popping(below) + if f.pushed && !(f.m.kind == Sync && Raised(below) == 1) then 1 else 0
  }

  predicate Leaky(s: System, a: Action) {
    a.Enter? && a.m.kind == Sync && s.thread.level == 1
  }

  function Leaks(s: System, acts: seq<Action>): nat
    decreases |acts|
  {
    if acts == [] then 0 else (if Leaky(s, acts[0]) then 1 else 0) + Leaks(Step(s, acts[0]), acts[1..])
  }

  /** Every call finds fewer than STACK_LIMIT frames open and room on the shadow stack. */
  predicate Roomy(s: System, acts: seq<Action>)
    decreases |acts|
  {
    acts == [] ||
    ((acts[0].Enter? ==> |s.frames| < STACK_LIMIT && |s.thread.shadow| < STACK_LIMIT) &&
     Roomy(Step(s, acts[0]), acts[1..]))
  }

  /** BEGINs less ENDs. */
  function Excess(es: seq<Event>): int {
    if es == [] then 0 else Excess(es[..|es| - 1]) + if es[|es| - 1].Begin? then 1 else -1
  }

  /** The frames were opened with room, and raised the level they say. */
  predicate OpenedWithRoom(fs: Frames) {
    fs == [] ||
    var below, f := fs[..|fs| - 1], fs[|fs| - 1];
    && OpenedWithRoom(below) && |below| < STACK_LIMIT
    && f.raised == (f.m.kind == Library)
    && f.pushed == (f.m.kind == User || (f.m.kind == Library && Raised(below) == 0) ||
                    (f.m.kind == Sync && Raised(below) <= 1))
  }

  /** The shadow stack is as deep as the frames that will pop and the leaks so far. */
  predicate Ledger(s: System, leaks: nat) {
    && OpenedWithRoom(s.frames) && |s.frames| <= STACK_LIMIT && |s.thread.shadow| <= STACK_LIMIT
    && s.thread.vmTop == |s.frames| - 1 && s.thread.level == Raised(s.frames)
    && |s.thread.shadow| == Popping(s.frames) + leaks && Excess(s.events) == |s.thread.shadow|
  }

  lemma {:induction false} RaisedPops(fs: Frames)
    requires OpenedWithRoom(fs) && Raised(fs) > 0
    ensures Popping(fs) > 0
  {
    var below := fs[..|fs| - 1];
    if Raised(below) > 0 { RaisedPops(below); }
  }

  lemma ExcessAppend(es: seq<Event>, e: Event)
    ensures Excess(es + [e]) == Excess(es) + if e.Begin? then 1 else -1
  {
    assert (es + [e])[..|es|] == es;
  }

  lemma LedgerEnter(s: System, m: Method, leaks: nat)
    requires Ledger(s, leaks) && |s.frames| < STACK_LIMIT && |s.thread.shadow| < STACK_LIMIT
    ensures Ledger(Step(s, Enter(m)), leaks + if Leaky(s, Enter(m)) then 1 else 0)
  {
    PushedShort(s.frames);
    var f := Opened(s.frames, m);
    assert (s.frames + [f])[..|s.frames|] == s.frames;
    ExcessAppend(s.events, Begin(m.id));
    ReplayNone(s.events);
  }

  lemma LedgerLeave(s: System, leaks: nat)
    requires Ledger(s, leaks)
    ensures Ledger(Step(s, Leave), leaks)
  {
    if s.frames != [] {
      var below, f := s.frames[..|s.frames| - 1], s.frames[|s.frames| - 1];
      if Raised(s.frames) > 0 { RaisedPops(s.frames); }
      ExcessAppend(s.events, End(f.m.id));
      ReplayNone(s.events);
    }
  }

  lemma {:induction false} LedgerRun(s: System, acts: seq<Action>, leaks: nat)
    requires Ledger(s, leaks) && Roomy(s, acts)
    ensures Ledger(Run(s, acts), leaks + Leaks(s, acts))
    decreases |acts|
  {
    hide Ledger, Step;
    if acts != [] {
      var a := acts[0];
      var now := leaks + if Leaky(s, a) then 1 else 0;
      match a {
        case Enter(m) => LedgerEnter(s, m, leaks);
        case Leave => LedgerLeave(s, leaks);
      }
      LedgerRun(Step(s, a), acts[1..], now);
    }
  }

  lemma {:induction false} ReplayExcess(es: seq<Event>)
    requires Replay(es).0
    ensures Excess(es) == |Replay(es).1|
  {
    if es != [] { ReplayExcess(es[..|es| - 1]); }
  }

  lemma {:induction false} RoomyShallow(s: System, acts: seq<Action>)
    requires Roomy(s, acts) && Leaks(s, acts) == 0
    ensures Shallow(s, acts)
    decreases |acts|
  {
    if acts != [] { RoomyShallow(Step(s, acts[0]), acts[1..]); }
  }

  /** Within the limits, a run that has returned from every frame leaves as many entries on the
      shadow stack as synchronization methods were called exactly one library frame deep, and its
      BEGINs and ENDs match exactly when there was none. */
  lemma BalancedExactly(acts: seq<Action>)
    requires Roomy(IDLE, acts) && Run(IDLE, acts).frames == []
    ensures var s := Run(IDLE, acts);
            && |s.thread.shadow| == Leaks(IDLE, acts)
            && (Replay(s.events) == (true, []) <==> Leaks(IDLE, acts) == 0)
            && (s.thread == START <==> Leaks(IDLE, acts) == 0)
  {
    hide Run, Roomy, Leaks, Shallow, Step, Call, Return;
    var s := Run(IDLE, acts);
    LedgerRun(IDLE, acts, 0);
    if Replay(s.events) == (true, []) {
      ReplayExcess(s.events);
    }
    if Leaks(IDLE, acts) == 0 {
      RoomyShallow(IDLE, acts);
      ShallowBalanced(acts);
    }
  }

  /** A library method that calls a synchronization method: the END of the library method comes
      while the BEGIN of the other is open, and its entry is never popped. */
  lemma SyncLeaks(library: nat, sync: nat)
    requires library != sync
    ensures var acts := [Enter(Method(library, Library)), Enter(Method(sync, Sync)), Leave, Leave];
            var s := Run(IDLE, acts);
            && s.frames == [] && s.thread.shadow == [library]
            && s.events == [Begin(library), Begin(sync), End(library)] && !Replay(s.events).0
  {
    hide Step, Run, Replay;
    var l, m := Method(library, Library), Method(sync, Sync);
    SyncEnters(l, m);
    SyncLeaves(l, m);
    RunFour(IDLE, Enter(l), Enter(m), Leave, Leave);
    ReplayThree(library, sync);
  }

  lemma SyncEnters(l: Method, m: Method)
    requires l.kind == Library && m.kind == Sync
    ensures Step(IDLE, Enter(l)) == System(Thread([l.id], 0, 1), [Frame(l, true, true)], [Begin(l.id)])
    ensures Step(Step(IDLE, Enter(l)), Enter(m)) ==
            System(Thread([l.id, m.id], 1, 1), [Frame(l, true, true), Frame(m, true, false)],
                   [Begin(l.id), Begin(m.id)])
  {
    hide Pushed, Raised;
    NonePushed();
    OnePushed(Frame(l, true, true));
    assert [Frame(l, true, true)] + [Frame(m, true, false)] == [Frame(l, true, true), Frame(m, true, false)];
  }

  lemma NonePushed()
    ensures Pushed([]) == [] && Raised([]) == 0
  {
  }

  lemma OnePushed(f: Frame)
    requires f.pushed && f.raised
    ensures Pushed([f]) == [f.m.id] && Raised([f]) == 1
  {
    assert [f][..0] == [];
  }

  lemma SyncLeaves(l: Method, m: Method)
    requires l.kind == Library && m.kind == Sync
    ensures var fs, es := [Frame(l, true, true), Frame(m, true, false)], [Begin(l.id), Begin(m.id)];
            && Step(System(Thread([l.id, m.id], 1, 1), fs, es), Leave) ==
               System(Thread([l.id, m.id], 0, 1), [fs[0]], es)
            && Step(System(Thread([l.id, m.id], 0, 1), [fs[0]], es), Leave) ==
               System(Thread([l.id], -1, 0), [], es + [End(l.id)])
  {
    var fs, es := [Frame(l, true, true), Frame(m, true, false)], [Begin(l.id), Begin(m.id)];
    assert fs[..1] == [fs[0]] && [fs[0]][..0] == [];
    assert es + [] == es;
    assert [l.id, m.id][..1] == [l.id];
  }

  lemma RunFour(s: System, a: Action, b: Action, c: Action, d: Action)
    ensures Run(s, [a, b, c, d]) == Step(Step(Step(Step(s, a), b), c), d)
  {
    hide Step;
    assert [a, b, c, d][1..] == [b, c, d] && [b, c, d][1..] == [c, d] && [c, d][1..] == [d] && [d][1..] == [];
    RunNext(s, [a, b, c, d]);
    RunNext(Step(s, a), [b, c, d]);
    RunNext(Step(Step(s, a), b), [c, d]);
    RunNext(Step(Step(Step(s, a), b), c), [d]);
  }

  lemma ReplayThree(x: nat, y: nat)
    requires x != y
    ensures !Replay([Begin(x), Begin(y), End(x)]).0
  {
    var es := [Begin(x), Begin(y), End(x)];
    assert es[..2] == [Begin(x), Begin(y)] && es[..2][..1] == [Begin(x)] && es[..2][..1][..0] == [];
    ReplayAppend([], Begin(x));
    ReplayAppend([Begin(x)], Begin(y));
    assert [] + [Begin(x)] == [Begin(x)] && [Begin(x)] + [Begin(y)] == es[..2];
  }

  // ---------------------------------------------------------------- deep recursion

  predicate UserOnly(acts: seq<Action>) {
    forall i | 0 <= i < |acts| && acts[i].Enter? :: acts[i].m.kind == User
  }

  function Min(a: int, b: int): int {
    if a < b then a else b
  }

  function Ids(fs: Frames): (ids: seq<nat>)
    ensures |ids| == |fs| && forall i | 0 <= i < |fs| :: ids[i] == fs[i].m.id
  {
    seq(|fs|, i requires 0 <= i < |fs| => fs[i].m.id)
  }

  /** The calls and returns of the frames at depth at most STACK_LIMIT, given the frames open. */
  function Projection(ids: seq<nat>, acts: seq<Action>): seq<Event>
    decreases |acts|
  {
    if acts == [] then []
    else
      match acts[0]
      case Enter(m) => (if |ids| < STACK_LIMIT then [Begin(m.id)] else []) + Projection(ids + [m.id], acts[1..])
      case Leave =>
        if ids == [] then Projection(ids, acts[1..])
        else (if |ids| <= STACK_LIMIT then [End(ids[|ids| - 1])] else []) + Projection(ids[..|ids| - 1], acts[1..])
  }

  /** User frames only: the shadow stack is the first STACK_LIMIT of them. */
  predicate Truncated(s: System) {
    && (forall i | 0 <= i < |s.frames| :: s.frames[i].m.kind == User)
    && s.thread == Thread(Ids(s.frames)[..Min(|s.frames|, STACK_LIMIT)], |s.frames| - 1, 0)
  }

  lemma TruncatedStep(s: System, a: Action)
    requires Truncated(s) && (a.Enter? ==> a.m.kind == User)
    ensures Truncated(Step(s, a))
    ensures a.Enter? ==> Call(s.thread, a.m).1 == if |s.frames| < STACK_LIMIT then [Begin(a.m.id)] else []
    ensures a.Leave? && s.frames != [] ==>
              var m := s.frames[|s.frames| - 1].m;
              Return(s.thread, m).1 == if |s.frames| <= STACK_LIMIT then [End(m.id)] else []
  {
    var t := Step(s, a);
    match a {
      case Enter(m) =>
        assert Ids(t.frames) == Ids(s.frames) + [m.id];
      case Leave =>
        if s.frames != [] {
          assert Ids(t.frames) == Ids(s.frames)[..|s.frames| - 1];
        }
    }
  }

  lemma ProjectionNext(ids: seq<nat>, acts: seq<Action>)
    requires acts != []
    ensures acts[0].Enter? ==>
              Projection(ids, acts) ==
              (if |ids| < STACK_LIMIT then [Begin(acts[0].m.id)] else []) + Projection(ids + [acts[0].m.id], acts[1..])
    ensures acts[0].Leave? && ids == [] ==> Projection(ids, acts) == Projection(ids, acts[1..])
    ensures acts[0].Leave? && ids != [] ==>
              Projection(ids, acts) ==
              (if |ids| <= STACK_LIMIT then [End(ids[|ids| - 1])] else []) + Projection(ids[..|ids| - 1], acts[1..])
  {
  }

  /** One step adds to the events what it takes off the projection. */
  lemma ProjectionStep(s: System, acts: seq<Action>)
    requires Truncated(s) && acts != [] && (acts[0].Enter? ==> acts[0].m.kind == User)
    ensures var t := Step(s, acts[0]);
            && Truncated(t)
            && s.events + Projection(Ids(s.frames), acts) == t.events + Projection(Ids(t.frames), acts[1..])
  {
    hide Call, Return, Projection, Truncated;
    var t := Step(s, acts[0]);
    TruncatedStep(s, acts[0]);
    ProjectionNext(Ids(s.frames), acts);
    match acts[0] {
      case Enter(m) =>
        assert Ids(t.frames) == Ids(s.frames) + [m.id];
        ConcatThree(s.events,
          if |s.frames| < STACK_LIMIT then [Begin(m.id)] else [],
          Projection(Ids(t.frames), acts[1..]));
      case Leave =>
        if s.frames != [] {
          assert Ids(t.frames) == Ids(s.frames)[..|s.frames| - 1];
          ConcatThree(s.events,
            if |s.frames| <= STACK_LIMIT then [End(s.frames[|s.frames| - 1].m.id)] else [],
            Projection(Ids(t.frames), acts[1..]));
        }
    }
  }

  lemma ConcatThree(a: seq<Event>, b: seq<Event>, c: seq<Event>)
    ensures a + (b + c) == (a + b) + c
  {
  }

  lemma TruncatedTop(s: System)
    requires Truncated(s)
    ensures |s.thread.shadow| - 1 == Min(s.thread.vmTop, STACK_LIMIT - 1) && s.thread.vmTop == |s.frames| - 1
  {
  }

  lemma NothingLeft(s: System)
    ensures Run(s, []) == s && s.events + Projection(Ids(s.frames), []) == s.events
  {
  }

  lemma RunNext(s: System, acts: seq<Action>)
    requires acts != []
    ensures Run(s, acts) == Run(Step(s, acts[0]), acts[1..])
  {
  }

  /** In any run of user code, however deep, the shadow stack holds the first frames up to the
      limit at every step, and what is reported is the run's projection onto those frames. */
  lemma {:induction false} DeepRecursion(s: System, acts: seq<Action>)
    requires Truncated(s) && UserOnly(acts)
    ensures var t := Run(s, acts);
            && Truncated(t) && |t.thread.shadow| - 1 == Min(t.thread.vmTop, STACK_LIMIT - 1)
            && t.thread.vmTop == |t.frames| - 1
            && t.events == s.events + Projection(Ids(s.frames), acts)
    decreases |acts|
  {
    hide Run, Projection, Truncated, Step, Min;
    if acts == [] {
      NothingLeft(s);
      TruncatedTop(s);
    } else {
      ProjectionStep(s, acts);
      RunNext(s, acts);
      DeepRecursion(Step(s, acts[0]), acts[1..]);
    }
  }

  /** 256 nested calls of user code are reported, the 257th is not, nor is its return. */
  lemma UserLimit(acts: seq<Action>, m: Method)
    requires UserOnly(acts) && m.kind == User
    ensures var s := Run(IDLE, acts);
            && Call(s.thread, m).1 == (if |s.frames| < 256 then [Begin(m.id)] else [])
            && (s.frames != [] ==>
                  Return(s.thread, m).1 == if |s.frames| <= 256 then [End(m.id)] else [])
  {
    DeepRecursion(IDLE, acts);
    hide Run, Projection;
  }

  // ---------------------------------------------------------------- the thread in place

  /** rg_thread_t, with the events it has reported. */
  class TracedThread {
    const shadowStack: array<nat>
    var shadowTop: int
    var vmTop: int
    var level: int
    var emitted: seq<Event>

    predicate Valid()
      reads this
    {
      shadowStack.Length == STACK_LIMIT && -1 <= shadowTop < STACK_LIMIT
    }

    function Value(): (t: Thread)
      requires Valid()
      reads this, shadowStack
      ensures |t.shadow| == shadowTop + 1
    {
      Thread(shadowStack[..shadowTop + 1], vmTop, level)
    }

    constructor ()
      ensures Valid() && fresh(shadowStack) && Value() == START && emitted == []
    {
      shadowStack := new nat[STACK_LIMIT];
      shadowTop, vmTop, level, emitted := -1, -1, 0, [];
    }

    method StackPush(function_id: nat)
      requires Valid() && shadowTop < STACK_LIMIT - 1
      modifies this`shadowTop, shadowStack
      ensures Valid() && Value() == old(Value()).(shadow := old(Value()).shadow + [function_id])
    {
      shadowTop := shadowTop + 1;
      shadowStack[shadowTop] := function_id;
    }

    method StackPop() returns (function_id: nat)
      requires Valid() && shadowTop >= 0
      modifies this`shadowTop
      ensures Valid() && Value() == old(Value()).(shadow := old(Value()).shadow[..old(shadowTop)])
      ensures function_id == old(Value()).shadow[old(shadowTop)]
    {
      function_id := shadowStack[shadowTop];
      shadowTop := shadowTop - 1;
    }

    method OnCall(m: Method)
      requires Valid()
      modifies this, shadowStack
      ensures Valid() && Value() == Call(old(Value()), m).0 && emitted == old(emitted) + Call(old(Value()), m).1
    {
      vmTop := vmTop + 1;
      if shadowTop == STACK_LIMIT - 1 { return; }
      if m.kind == Excluded { return; }
      if m.kind == Library {
        level := level + 1;
        if level > 1 { return; }
      }
      if m.kind == Sync && level > 1 { return; }
      StackPush(m.id);
      emitted := emitted + [Begin(m.id)];
    }

    method OnReturn(m: Method)
      requires Valid()
      modifies this
      ensures Valid() && Value() == Return(old(Value()), m).0 && emitted == old(emitted) + Return(old(Value()), m).1
    {
      vmTop := vmTop - 1;
      if vmTop >= STACK_LIMIT - 1 { return; }
      if shadowTop == -1 { return; }
      if m.kind == Excluded { return; }
      if m.kind == Library {
        level := level - 1;
        if level > 0 { return; }
      }
      if m.kind == Sync && level > 0 { return; }
      var _ := StackPop();
      emitted := emitted + [End(m.id)];
    }
  }
}
