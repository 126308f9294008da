/** Calls and returns of a thread with the table of methods in front: a call looks its method up
    and may discover it, a return looks it up again. */
module TracedCalls {
  import M = MethodTable
  import S = ShadowStack

  /** An open frame: the method, how its call was treated, whether the call found the shadow stack
      full and looked nothing up, and whether the blacklist has changed since. */
  datatype Frame = Frame(who: nat, seen: S.Method, full: bool, changed: bool)

  /** The table and the rules, the thread, its open frames and what it reported; the logs say what
      the table and the thread have been through. */
  datatype System = System(cache: M.System, thread: S.Thread, frames: seq<Frame>, events: seq<S.Event>,
                           cacheLog: seq<M.Action>, threadLog: seq<S.Action>)

  /** A call, the return of the last open frame, or a change of the table or the rules. */
  datatype Action = Enter(who: nat) | Leave(stray: S.Method) | Other(change: M.Action)

  const NOBODY: S.Method := S.Method(0, S.Excluded)

  function KindOf(source: nat): S.Kind {
    if source == M.KNOWN_LIBRARY then S.Library
    else if source == M.WAIT_FOR_SYNCHRONIZATION then S.Sync
    else S.User
  }

  /** How an entry of the table makes a call or return be treated. */
  function Treated(e: M.Entry): S.Method {
    match e
    case Blacklisted => NOBODY
    case Known(id, source) => S.Method(id, KindOf(source))
  }

  /** What a return finds; stray is whatever the variable for the entry held before, which is not
      set when the method is not in the table. */
  function Found(s: M.State, who: nat, stray: S.Method): S.Method {
    if who in s.table then Treated(s.table[who]) else stray
  }

  function Entered(s: System, who: nat): System {
    if |s.thread.shadow| == S.STACK_LIMIT then
      s.(thread := S.Call(s.thread, NOBODY).0, frames := s.frames + [Frame(who, NOBODY, true, false)],
         threadLog := s.threadLog + [S.Enter(NOBODY)])
    else
      var m := Treated(M.Looked(s.cache.state, who, s.cache.rules(who)).table[who]);
      var c := S.Call(s.thread, m);
      var call := M.Call(who, c.1 != []);
      System(M.Step(s.cache, call), c.0, s.frames + [Frame(who, m, false, false)], s.events + c.1,
             s.cacheLog + [call], s.threadLog + [S.Enter(m)])
  }

  function Left(s: System, stray: S.Method): System
    requires s.frames != []
  {
    var r := S.Return(s.thread, Found(s.cache.state, s.frames[|s.frames| - 1].who, stray));
    s.(thread := r.0, frames := s.frames[..|s.frames| - 1], events := s.events + r.1,
       threadLog := s.threadLog + [S.Leave])
  }

  function Marked(fs: seq<Frame>): (r: seq<Frame>)
    ensures |r| == |fs| && forall i | 0 <= i < |fs| :: r[i] == fs[i].(changed := true)
  {
    seq(|fs|, i requires 0 <= i < |fs| => fs[i].(changed := true))
  }

  /** What may happen next. */
  predicate Can(s: System, a: Action) {
    match a
    case Enter(_) => true
    case Leave(_) => s.frames != []
    case Other(c) => !c.Call? && (c.Resync? ==> M.Enumerates(c.order, s.cache.state.table))
  }

  function Step(s: System, a: Action): System
    requires Can(s, a)
  {
    match a
    case Enter(who) => Entered(s, who)
    case Leave(stray) => Left(s, stray)
    case Other(c) =>
      s.(cache := M.Step(s.cache, c), cacheLog := s.cacheLog + [c],
         frames := if c.Blacklist? then Marked(s.frames) else s.frames)
  }

  ghost predicate Possible(s: System, acts: seq<Action>)
    decreases |acts|
  {
    acts == [] || (Can(s, acts[0]) && Possible(Step(s, acts[0]), acts[1..]))
  }

  ghost function Run(s: System, acts: seq<Action>): System
    requires Possible(s, acts)
    decreases |acts|
  {
    if acts == [] then s else Run(Step(s, acts[0]), acts[1..])
  }

  function Start(rules: M.Rules): System {
    System(M.System(M.EMPTY, rules), S.START, [], [], [], [])
  }

  // ---------------------------------------------------------------- what every step keeps

  /** The table has been through its log. */
  ghost predicate CacheRun(s: System, rules: M.Rules) {
    && M.Possible(M.System(M.EMPTY, rules), s.cacheLog)
    && s.cache == M.Run(M.System(M.EMPTY, rules), s.cacheLog)
  }

  /** A frame whose call was looked up is found as it was treated; when the blacklist has changed
      since it is not found, or with another id. */
  predicate FrameOk(s: M.State, f: Frame) {
    && f.seen.id <= s.methods && (f.seen.kind != S.Excluded ==> f.seen.id > 0) && (f.full ==> f.seen == NOBODY)
    && (!f.full && !f.changed ==> f.who in s.table && Treated(s.table[f.who]) == f.seen)
    && (f.changed && f.seen.kind != S.Excluded && f.who in s.table ==> Treated(s.table[f.who]).id != f.seen.id)
  }

  ghost predicate Inv(s: System, rules: M.Rules) {
    && CacheRun(s, rules) && M.Inv(s.cache.state) && s.thread.vmTop == |s.frames| - 1
    && forall i | 0 <= i < |s.frames| :: FrameOk(s.cache.state, s.frames[i])
  }

  lemma CacheNext(s: System, rules: M.Rules, c: M.Action)
    requires CacheRun(s, rules) && (c.Resync? ==> M.Enumerates(c.order, s.cache.state.table))
    ensures M.Possible(M.System(M.EMPTY, rules), s.cacheLog + [c])
    ensures M.Run(M.System(M.EMPTY, rules), s.cacheLog + [c]) == M.Step(s.cache, c)
  {
    assert (s.cacheLog + [c])[..|s.cacheLog|] == s.cacheLog;
  }

  lemma CallOnly(t: S.Thread, m: S.Method)
    ensures S.Call(t, m).0.vmTop == t.vmTop + 1 && S.Return(t, m).0.vmTop == t.vmTop - 1
  {
  }

  /** A step of the table and a frame. */
  lemma FrameKept(s: M.System, c: M.Action, f: Frame)
    requires M.Inv(s.state) && FrameOk(s.state, f) && (c.Resync? ==> M.Enumerates(c.order, s.state.table))
    ensures FrameOk(M.Step(s, c).state, if c.Blacklist? then f.(changed := true) else f)
  {
    hide M.Inv, M.Enumerates;
  }

  /** The frame of a call that was looked up. */
  lemma FrameOpened(s: M.System, who: nat, reported: bool)
    requires M.Inv(s.state)
    ensures var m := Treated(M.Looked(s.state, who, s.rules(who)).table[who]);
            FrameOk(M.Step(s, M.Call(who, reported)).state, Frame(who, m, false, false))
  {
    M.StepInv(s, M.Call(who, reported));
    hide M.InOrder, M.Announced;
  }

  lemma StepKeeps(s: System, rules: M.Rules, a: Action)
    requires Inv(s, rules) && Can(s, a)
    ensures Inv(Step(s, a), rules)
  {
    hide M.Inv, M.Step, M.Possible, M.Run, M.Looked, M.Enumerates, FrameOk, Treated, S.Call, S.Return;
    var t := Step(s, a);
    match a
    case Enter(who) =>
      CallOnly(s.thread, NOBODY);
      if |s.thread.shadow| != S.STACK_LIMIT {
        var m := Treated(M.Looked(s.cache.state, who, s.cache.rules(who)).table[who]);
        var call := M.Call(who, S.Call(s.thread, m).1 != []);
        CallOnly(s.thread, m);
        TableStep(s, rules, call);
        FrameOpened(s.cache, who, call.reported);
      } else {
        NobodyOk(s.cache.state, who);
      }
    case Leave(stray) =>
      CallOnly(s.thread, Found(s.cache.state, s.frames[|s.frames| - 1].who, stray));
    case Other(c) => TableStep(s, rules, c);
  }

  lemma NobodyOk(s: M.State, who: nat)
    ensures FrameOk(s, Frame(who, NOBODY, true, false))
  {
  }

  lemma TableStep(s: System, rules: M.Rules, c: M.Action)
    requires Inv(s, rules) && (c.Resync? ==> M.Enumerates(c.order, s.cache.state.table))
    ensures CacheRun(s.(cache := M.Step(s.cache, c), cacheLog := s.cacheLog + [c]), rules)
    ensures M.Inv(M.Step(s.cache, c).state)
    ensures forall i | 0 <= i < |s.frames| ::
              FrameOk(M.Step(s.cache, c).state, if c.Blacklist? then s.frames[i].(changed := true) else s.frames[i])
  {
    hide M.Inv, M.Step, M.Possible, M.Run, M.Enumerates, FrameOk;
    CacheNext(s, rules, c);
    M.StepInv(s.cache, c);
    forall i | 0 <= i < |s.frames|
      ensures FrameOk(M.Step(s.cache, c).state, if c.Blacklist? then s.frames[i].(changed := true) else s.frames[i]) {
      FrameKept(s.cache, c, s.frames[i]);
    }
  }

  lemma {:induction false} RunKeeps(s: System, rules: M.Rules, acts: seq<Action>)
    requires Inv(s, rules) && Possible(s, acts)
    ensures Inv(Run(s, acts), rules)
    decreases |acts|
  {
    hide Inv, Step;
    if acts != [] {
      StepKeeps(s, rules, acts[0]);
      RunKeeps(Step(s, acts[0]), rules, acts[1..]);
    }
  }

  lemma StartInv(rules: M.Rules)
    ensures Inv(Start(rules), rules)
  {
  }

  // ---------------------------------------------------------------- when END carries the id of its BEGIN

  /** Over all runs, for an open frame whose call was looked up and not excluded: its return finds
      the method treated as the call treated it, with the same id, exactly when the blacklist has not
      changed since the call. Registering libraries and repeating METHODINFO do no harm. */
  lemma SameIdExactly(rules: M.Rules, acts: seq<Action>, i: nat)
    requires Possible(Start(rules), acts) && i < |Run(Start(rules), acts).frames|
    ensures var s := Run(Start(rules), acts);
            var f := s.frames[i];
            !f.full && f.seen.kind != S.Excluded ==>
              1 <= f.seen.id <= |M.Announced(s.cache.state.events)| &&
              (f.who in s.cache.state.table && Treated(s.cache.state.table[f.who]) == f.seen <==> !f.changed) &&
              (!f.changed ==> M.Announced(s.cache.state.events)[f.seen.id - 1] == f.who)
  {
    StartInv(rules);
    RunKeeps(Start(rules), rules, acts);
    hide Run, Possible, Start;
    FrameFound(Run(Start(rules), acts), rules, i);
  }

  lemma FrameFound(s: System, rules: M.Rules, i: nat)
    requires Inv(s, rules) && i < |s.frames|
    ensures var f := s.frames[i];
            !f.full && f.seen.kind != S.Excluded ==>
              1 <= f.seen.id <= |M.Announced(s.cache.state.events)| &&
              (f.who in s.cache.state.table && Treated(s.cache.state.table[f.who]) == f.seen <==> !f.changed) &&
              (!f.changed ==> M.Announced(s.cache.state.events)[f.seen.id - 1] == f.who)
  {
    hide M.InOrder, M.Announced, CacheRun;
    assert FrameOk(s.cache.state, s.frames[i]);
  }

  // ---------------------------------------------------------------- runs of the shadow stack alone

  /** The blacklist changes only while no call is open, and a call that finds the shadow stack full
      has that many frames below it. */
  ghost predicate Calm(s: System, acts: seq<Action>)
    requires Possible(s, acts)
    decreases |acts|
  {
    acts == [] ||
    (&& (acts[0].Other? && acts[0].change.Blacklist? ==> s.frames == [])
     && (acts[0].Enter? && |s.thread.shadow| == S.STACK_LIMIT ==> |s.frames| >= S.STACK_LIMIT)
     && Calm(Step(s, acts[0]), acts[1..]))
  }

  /** The thread is where the shadow stack alone would be after the log, with the same frames. */
  ghost predicate Alone(s: System) {
    var t := S.Run(S.IDLE, s.threadLog);
    && t.thread == s.thread && t.events == s.events && |t.frames| == |s.frames|
    && (forall i | 0 <= i < |s.frames| :: t.frames[i].m == s.frames[i].seen)
    && forall i | 0 <= i < |s.frames| :: !s.frames[i].changed && (s.frames[i].full ==> i >= S.STACK_LIMIT)
  }

  lemma {:induction false} ThreadNext(s: S.System, acts: seq<S.Action>, a: S.Action)
    ensures S.Run(s, acts + [a]) == S.Step(S.Run(s, acts), a)
    decreases |acts|
  {
    hide S.Step;
    if acts == [] {
      assert [] + [a] == [a] && [a][1..] == [];
    } else {
      assert (acts + [a])[1..] == acts[1..] + [a];
      ThreadNext(S.Step(s, acts[0]), acts[1..], a);
    }
  }

  /** A return deeper than the shadow stack reaches is not looked at. */
  lemma DeepReturn(t: S.Thread, m: S.Method, n: S.Method)
    requires m == n || t.vmTop >= S.STACK_LIMIT
    ensures S.Return(t, m) == S.Return(t, n)
  {
  }

  lemma StepAlone(s: System, rules: M.Rules, a: Action)
    requires Inv(s, rules) && Alone(s) && Can(s, a)
    requires a.Other? && a.change.Blacklist? ==> s.frames == []
    requires a.Enter? && |s.thread.shadow| == S.STACK_LIMIT ==> |s.frames| >= S.STACK_LIMIT
    ensures Alone(Step(s, a))
  {
    hide S.Run, S.Call, S.Return, M.Step, M.Looked, CacheRun, Treated, M.Enumerates, M.Inv, S.Opened;
    match a
    case Enter(who) => EnterAlone(s, who);
    case Leave(stray) => LeaveAlone(s, stray);
    case Other(c) =>
  }

  lemma EnterAlone(s: System, who: nat)
    requires Alone(s) && (|s.thread.shadow| == S.STACK_LIMIT ==> |s.frames| >= S.STACK_LIMIT)
    ensures Alone(Entered(s, who))
  {
    hide S.Run, S.Return, M.Step, M.Looked, Treated, S.Pushed, S.Raised;
    var m := if |s.thread.shadow| == S.STACK_LIMIT then NOBODY
             else Treated(M.Looked(s.cache.state, who, s.cache.rules(who)).table[who]);
    ThreadNext(S.IDLE, s.threadLog, S.Enter(m));
    assert s.events + [] == s.events;
  }

  lemma LeaveAlone(s: System, stray: S.Method)
    requires Alone(s) && s.frames != [] && s.thread.vmTop == |s.frames| - 1
    requires forall i | 0 <= i < |s.frames| :: FrameOk(s.cache.state, s.frames[i])
    ensures Alone(Left(s, stray))
  {
    hide S.Run, S.Return, S.Call, M.Step, M.Looked, Treated, S.Opened;
    var f := s.frames[|s.frames| - 1];
    assert FrameOk(s.cache.state, f);
    ThreadNext(S.IDLE, s.threadLog, S.Leave);
    DeepReturn(s.thread, Found(s.cache.state, f.who, stray), f.seen);
  }

  lemma {:induction false} CalmAlone(s: System, rules: M.Rules, acts: seq<Action>)
    requires Inv(s, rules) && Alone(s) && Possible(s, acts) && Calm(s, acts)
    ensures Alone(Run(s, acts))
    decreases |acts|
  {
    hide Inv, Alone, Step;
    if acts != [] {
      StepKeeps(s, rules, acts[0]);
      StepAlone(s, rules, acts[0]);
      CalmAlone(Step(s, acts[0]), rules, acts[1..]);
    }
  }

  /** In a calm run the table in front makes no difference: the thread and what it reports are those
      of the shadow stack alone, with every return treated like its call, and the table is that of
      the calls alone. */
  lemma CalmRefines(rules: M.Rules, acts: seq<Action>)
    requires Possible(Start(rules), acts) && Calm(Start(rules), acts)
    ensures var s := Run(Start(rules), acts);
            var t := S.Run(S.IDLE, s.threadLog);
            && t.thread == s.thread && t.events == s.events && |t.frames| == |s.frames|
            && M.Possible(M.System(M.EMPTY, rules), s.cacheLog)
            && s.cache == M.Run(M.System(M.EMPTY, rules), s.cacheLog)
  {
    StartInv(rules);
    RunKeeps(Start(rules), rules, acts);
    CalmAlone(Start(rules), rules, acts);
    hide Run, M.Run, M.Possible, S.Run, Possible, Calm;
  }

  /** So in a calm run of clean calls BEGINs and ENDs match, and when all frames have returned the
      thread is as it was. */
  lemma CalmBalanced(rules: M.Rules, acts: seq<Action>)
    requires Possible(Start(rules), acts) && Calm(Start(rules), acts)
    requires S.AllClean(S.IDLE, Run(Start(rules), acts).threadLog)
    ensures var s := Run(Start(rules), acts);
            && S.Replay(s.events) == (true, s.thread.shadow)
            && (s.frames == [] ==> s.thread == S.START && S.Replay(s.events) == (true, []))
  {
    CalmRefines(rules, acts);
    hide Run, Possible, Calm, S.Run, S.Replay, S.AllClean, M.Run, M.Possible;
    S.Balanced(Run(Start(rules), acts).threadLog);
  }

  // ---------------------------------------------------------------- a blacklist change inside an open call

  /** The first call of a method of user code. */
  lemma UserEnters(s: System, who: nat)
    requires s.cache.rules(who) == M.Traits(false, false, false, false) && who !in s.cache.state.table
    requires |s.thread.shadow| < S.STACK_LIMIT
    ensures var t, id := Step(s, Enter(who)), s.cache.state.methods + 1;
            && t.cache.rules == s.cache.rules && t.cache.state.methods == id
            && t.cache.state.table == s.cache.state.table[who := M.Known(id, M.USER_CODE)]
            && t.thread == S.Thread(s.thread.shadow + [id], s.thread.vmTop + 1, s.thread.level)
            && t.events == s.events + [S.Begin(id)] && |t.frames| == |s.frames| + 1
            && t.frames[..|s.frames|] == s.frames && t.frames[|s.frames|].who == who
  {
  }

  lemma UserLeaves(s: System, stray: S.Method, id: nat)
    requires s.frames != [] && s.frames[|s.frames| - 1].who in s.cache.state.table
    requires s.cache.state.table[s.frames[|s.frames| - 1].who] == M.Known(id, M.USER_CODE)
    requires s.thread.vmTop < S.STACK_LIMIT && s.thread.shadow != []
    ensures var t := Step(s, Leave(stray));
            && t.cache == s.cache && t.frames == s.frames[..|s.frames| - 1] && t.events == s.events + [S.End(id)]
            && t.thread == S.Thread(s.thread.shadow[..|s.thread.shadow| - 1], s.thread.vmTop - 1, s.thread.level)
  {
  }

  lemma TableEmptied(s: System, b: nat -> bool)
    ensures var t := Step(s, Other(M.Blacklist(b)));
            && t.cache == M.System(s.cache.state.(table := map[]), M.WithBlacklist(s.cache.rules, b))
            && t.thread == s.thread && t.events == s.events && t.frames == Marked(s.frames)
  {
  }

  lemma RunNext(s: System, acts: seq<Action>)
    requires acts != [] && Can(s, acts[0]) && Possible(Step(s, acts[0]), acts[1..])
    ensures Possible(s, acts) && Run(s, acts) == Run(Step(s, acts[0]), acts[1..])
  {
  }

  lemma RunFive(s0: System, acts: seq<Action>, s1: System, s2: System, s3: System, s4: System)
    requires |acts| == 5 && Can(s0, acts[0]) && Step(s0, acts[0]) == s1 && Can(s1, acts[1]) && Step(s1, acts[1]) == s2
    requires Can(s2, acts[2]) && Step(s2, acts[2]) == s3 && Can(s3, acts[3]) && Step(s3, acts[3]) == s4
    requires Can(s4, acts[4])
    ensures Possible(s0, acts) && Run(s0, acts) == Step(s4, acts[4])
  {
    NoRun(Step(s4, acts[4]), acts[5..]);
    hide *;
    RunNext(s4, acts[4..]);
    RunNext(s3, acts[3..]);
    RunNext(s2, acts[2..]);
    RunNext(s1, acts[1..]);
    RunNext(s0, acts);
  }

  lemma NoRun(s: System, acts: seq<Action>)
    requires acts == []
    ensures Possible(s, acts) && Run(s, acts) == s
  {
  }

  /** A call, a change of the blacklist, the call again, and both returns. */
  function ChangeInside(m: nat, stray: S.Method): (acts: seq<Action>) {
    [Enter(m), Other(M.Blacklist((x: nat) => false)), Enter(m), Leave(stray), Leave(stray)]
  }

  lemma ChangeSteps(rules: M.Rules, m: nat, stray: S.Method)
    returns (s1: System, s2: System, s3: System, s4: System)
    requires rules(m) == M.Traits(false, false, false, false)
    ensures var acts, s0 := ChangeInside(m, stray), Start(rules);
            && Can(s0, acts[0]) && Step(s0, acts[0]) == s1 && Can(s1, acts[1]) && Step(s1, acts[1]) == s2
            && Can(s2, acts[2]) && Step(s2, acts[2]) == s3 && Can(s3, acts[3]) && Step(s3, acts[3]) == s4
            && Can(s4, acts[4]) && Step(s4, acts[4]).frames == []
            && Step(s4, acts[4]).events == [S.Begin(1), S.Begin(2), S.End(2), S.End(2)]
  {
    var s0 := Start(rules);
    var none := (x: nat) => false;
    var a, b, l := Enter(m), Other(M.Blacklist(none)), Leave(stray);
    hide Step;
    s1 := Step(s0, a);
    s2 := Step(s1, b);
    s3 := Step(s2, a);
    UserEnters(s0, m);
    TableEmptied(s1, none);
    UserEnters(s2, m);
    UserLeaves(s3, stray, 2);
    s4 := Step(s3, l);
    UserLeaves(s4, stray, 2);
  }

  /** The table is emptied while a method calls itself: both returns carry the new id. */
  lemma ChangedInside(rules: M.Rules, m: nat, stray: S.Method)
    requires rules(m) == M.Traits(false, false, false, false)
    ensures Possible(Start(rules), ChangeInside(m, stray))
    ensures var s := Run(Start(rules), ChangeInside(m, stray));
            s.frames == [] && s.events == [S.Begin(1), S.Begin(2), S.End(2), S.End(2)]
  {
    hide Step, Possible, Run, Can;
    var s1, s2, s3, s4 := ChangeSteps(rules, m, stray);
    RunFive(Start(rules), ChangeInside(m, stray), s1, s2, s3, s4);
  }

  // ---------------------------------------------------------------- what is reported, by the traits alone

  /** The open frames of library code. */
  function LibraryFrames(fs: seq<Frame>, rules: M.Rules): nat {
    if fs == [] then 0
    else
      var t := rules(fs[|fs| - 1].who);
      LibraryFrames(fs[..|fs| - 1], rules) + if LibraryTrait(t) then 1 else 0
  }

  predicate LibraryTrait(t: M.Traits) {
    !t.blacklisted && t.library && !t.sync && !t.entrypoint
  }

  /** Calls and returns only; every call finds fewer than 256 open frames and fewer than 256
      entries on the shadow stack. */
  ghost predicate Within(s: System, acts: seq<Action>)
    requires Possible(s, acts)
    decreases |acts|
  {
    acts == [] ||
    (&& !acts[0].Other? && (acts[0].Enter? ==> |s.frames| < 256 && |s.thread.shadow| < 256)
     && Within(Step(s, acts[0]), acts[1..]))
  }

  /** An entry agrees with the traits. */
  predicate EntryRight(e: M.Entry, t: M.Traits) {
    match e
    case Blacklisted => t.blacklisted
    case Known(_, source) =>
      !t.blacklisted && source == if t.entrypoint then 1 else if t.sync then 4 else if t.library then 2 else 0
  }

  /** The table agrees with the rules, which do not change, and the shadow stack is accounted for. */
  ghost predicate Settled(s: System, rules: M.Rules) {
    && s.cache.rules == rules && Alone(s)
    && (forall m | m in s.cache.state.table :: EntryRight(s.cache.state.table[m], rules(m)))
    && (forall i | 0 <= i < |s.frames| :: !s.frames[i].full && !s.frames[i].changed)
    && exists leaks :: S.Ledger(S.Run(S.IDLE, s.threadLog), leaks)
  }

  lemma StartSettled(rules: M.Rules)
    ensures Settled(Start(rules), rules)
  {
    assert S.Ledger(S.IDLE, 0);
  }

  /** A lookup finds the method treated as its traits say. */
  lemma LookedRight(s: M.System, who: nat)
    requires forall m | m in s.state.table :: EntryRight(s.state.table[m], s.rules(m))
    ensures forall m | m in M.Looked(s.state, who, s.rules(who)).table ::
              EntryRight(M.Looked(s.state, who, s.rules(who)).table[m], s.rules(m))
  {
  }

  lemma EnterSettled(s: System, rules: M.Rules, who: nat)
    requires Inv(s, rules) && Settled(s, rules) && |s.frames| < 256 && |s.thread.shadow| < 256
    ensures Settled(Step(s, Enter(who)), rules)
  {
    hide S.Run, S.Ledger, S.Call, Treated, CacheRun, M.Inv, FrameOk, M.Looked, EntryRight;
    var m := Treated(M.Looked(s.cache.state, who, s.cache.rules(who)).table[who]);
    var leaks: nat :| S.Ledger(S.Run(S.IDLE, s.threadLog), leaks);
    StepAlone(s, rules, Enter(who));
    LookedRight(s.cache, who);
    ThreadNext(S.IDLE, s.threadLog, S.Enter(m));
    S.LedgerEnter(S.Run(S.IDLE, s.threadLog), m, leaks);
  }

  lemma LeaveSettled(s: System, rules: M.Rules, stray: S.Method)
    requires Inv(s, rules) && Settled(s, rules) && s.frames != []
    ensures Settled(Step(s, Leave(stray)), rules)
  {
    hide S.Run, S.Ledger, S.Call, Treated, CacheRun, M.Inv, FrameOk, EntryRight, S.Return;
    var leaks: nat :| S.Ledger(S.Run(S.IDLE, s.threadLog), leaks);
    StepAlone(s, rules, Leave(stray));
    ThreadNext(S.IDLE, s.threadLog, S.Leave);
    S.LedgerLeave(S.Run(S.IDLE, s.threadLog), leaks);
  }

  lemma {:induction false} RunSettled(s: System, rules0: M.Rules, acts: seq<Action>)
    requires Inv(s, rules0) && Settled(s, rules0) && Possible(s, acts) && Within(s, acts)
    ensures Inv(Run(s, acts), rules0) && Settled(Run(s, acts), rules0)
    decreases |acts|
  {
    hide Inv, Settled, Step;
    if acts != [] {
      StepKeeps(s, rules0, acts[0]);
      match acts[0] {
        case Enter(who) => EnterSettled(s, rules0, who);
        case Leave(stray) => LeftNonEmpty(s, stray); LeaveSettled(s, rules0, stray);
        case Other(c) =>
      }
      RunSettled(Step(s, acts[0]), rules0, acts[1..]);
    }
  }

  lemma LeftNonEmpty(s: System, stray: S.Method)
    requires Can(s, Leave(stray))
    ensures s.frames != []
  {
  }

  /** The level is the number of library frames. */
  lemma {:induction false} LevelIs(s: M.State, rules: M.Rules, fs: seq<Frame>, gs: S.Frames)
    requires |fs| == |gs| && S.OpenedWithRoom(gs) && forall i | 0 <= i < |fs| :: gs[i].m == fs[i].seen
    requires forall i | 0 <= i < |fs| :: FrameOk(s, fs[i]) && !fs[i].full && !fs[i].changed
    requires forall m | m in s.table :: EntryRight(s.table[m], rules(m))
    ensures S.Raised(gs) == LibraryFrames(fs, rules)
    decreases |fs|
  {
    if fs != [] {
      var i := |fs| - 1;
      LevelIs(s, rules, fs[..i], gs[..i]);
      assert FrameOk(s, fs[i]) && gs[i].m == fs[i].seen;
    }
  }

  /** What a call reports, by the traits of the method and the library frames open. */
  predicate CallReported(t: M.Traits, libraries: nat) {
    !t.blacklisted &&
    (t.entrypoint || (if t.sync then libraries <= 1 else t.library ==> libraries == 0))
  }

  /** What a return reports, with the library frames open before it. */
  predicate ReturnReported(t: M.Traits, libraries: nat) {
    !t.blacklisted &&
    (t.entrypoint || (if t.sync then libraries == 0 else t.library ==> libraries == 1))
  }

  lemma LevelOf(s: System, rules: M.Rules)
    requires Inv(s, rules) && Settled(s, rules)
    ensures s.thread.level == LibraryFrames(s.frames, rules) && |s.frames| <= 256
    ensures s.frames != [] ==>
              var f := s.frames[|s.frames| - 1];
              && f.who in s.cache.state.table && EntryRight(s.cache.state.table[f.who], rules(f.who))
              && (ReturnReported(rules(f.who), s.thread.level) ==> s.thread.shadow != [])
              && (s.thread.level > 0 ==> s.thread.shadow != [])
              && (LibraryTrait(rules(f.who)) ==> s.thread.level > 0) && s.thread.vmTop < 256
  {
    hide S.Run;
    var t := S.Run(S.IDLE, s.threadLog);
    var leaks: nat :| S.Ledger(t, leaks);
    LevelIs(s.cache.state, rules, s.frames, t.frames);
    if S.Raised(t.frames) > 0 { S.RaisedPops(t.frames); }
    if s.frames != [] {
      assert FrameOk(s.cache.state, s.frames[|s.frames| - 1]);
    }
  }

  /** Over all runs within the limits, whatever the rules: a call reports a BEGIN exactly as the
      traits of the method and the number of open library frames say, and so does a return an END. */
  lemma ReportsExactly(rules: M.Rules, acts: seq<Action>, who: nat, stray: S.Method)
    requires Possible(Start(rules), acts) && Within(Start(rules), acts)
    ensures var s := Run(Start(rules), acts);
            var libraries := LibraryFrames(s.frames, rules);
            && (|s.frames| < 256 && |s.thread.shadow| < 256 ==>
                  var es := Step(s, Enter(who)).events;
                  if CallReported(rules(who), libraries)
                  then |es| == |s.events| + 1 && s.events <= es && es[|s.events|].Begin?
                  else es == s.events)
            && (s.frames != [] ==>
                  var es, f := Step(s, Leave(stray)).events, s.frames[|s.frames| - 1];
                  if ReturnReported(rules(f.who), libraries)
                  then |es| == |s.events| + 1 && s.events <= es && es[|s.events|].End?
                  else es == s.events)
  {
    StartInv(rules);
    StartSettled(rules);
    RunSettled(Start(rules), rules, acts);
    hide Run, Possible, Within, Start;
    var s := Run(Start(rules), acts);
    CallReports(s, rules, who);
    ReturnReports(s, rules, stray);
  }

  lemma CallReports(s: System, rules: M.Rules, who: nat)
    requires Inv(s, rules) && Settled(s, rules)
    ensures |s.frames| < 256 && |s.thread.shadow| < 256 ==>
              var es := Step(s, Enter(who)).events;
              if CallReported(rules(who), LibraryFrames(s.frames, rules))
              then |es| == |s.events| + 1 && s.events <= es && es[|s.events|].Begin?
              else es == s.events
  {
    LevelOf(s, rules);
    if |s.frames| < 256 && |s.thread.shadow| < 256 {
      LookedRight(s.cache, who);
      var e := M.Looked(s.cache.state, who, s.cache.rules(who)).table[who];
      CallByTraits(s.thread, e, rules(who));
      EnterEvents(s, who);
      hide Settled, Inv, LibraryFrames, Step, M.Looked, S.Call, CallReported, EntryRight;
    }
  }

  lemma CallByTraits(t: S.Thread, e: M.Entry, traits: M.Traits)
    requires EntryRight(e, traits) && |t.shadow| < 256 && t.level >= 0
    ensures S.Call(t, Treated(e)).1 == if CallReported(traits, t.level) then [S.Begin(Treated(e).id)] else []
  {
  }

  lemma EnterEvents(s: System, who: nat)
    requires |s.thread.shadow| < 256
    ensures Step(s, Enter(who)).events ==
            s.events + S.Call(s.thread, Treated(M.Looked(s.cache.state, who, s.cache.rules(who)).table[who])).1
  {
  }

  lemma ReturnReports(s: System, rules: M.Rules, stray: S.Method)
    requires Inv(s, rules) && Settled(s, rules)
    ensures s.frames != [] ==>
              var es, f := Step(s, Leave(stray)).events, s.frames[|s.frames| - 1];
              if ReturnReported(rules(f.who), LibraryFrames(s.frames, rules))
              then |es| == |s.events| + 1 && s.events <= es && es[|s.events|].End?
              else es == s.events
  {
    LevelOf(s, rules);
    if s.frames != [] {
      var f := s.frames[|s.frames| - 1];
      ReturnByTraits(s.thread, s.cache.state.table[f.who], rules(f.who));
      LeaveEvents(s, stray);
      hide Settled, Inv, LibraryFrames, Step, S.Return, ReturnReported, EntryRight, Treated;
    }
  }

  lemma ReturnByTraits(t: S.Thread, e: M.Entry, traits: M.Traits)
    requires EntryRight(e, traits) && t.vmTop < 256 && (LibraryTrait(traits) ==> t.level > 0) && t.level >= 0
    requires ReturnReported(traits, t.level) || t.level > 0 ==> t.shadow != []
    ensures S.Return(t, Treated(e)).1 == if ReturnReported(traits, t.level) then [S.End(Treated(e).id)] else []
  {
  }

  lemma LeaveEvents(s: System, stray: S.Method)
    requires s.frames != [] && s.frames[|s.frames| - 1].who in s.cache.state.table
    ensures Step(s, Leave(stray)).events ==
            s.events + S.Return(s.thread, Treated(s.cache.state.table[s.frames[|s.frames| - 1].who])).1
  {
  }

  /** A call that finds the shadow stack full neither looks up nor discovers nor reports anything; any
      other call leaves its method in the table. */
  lemma FullCall(s: System, who: nat)
    ensures var t := Step(s, Enter(who));
            && t.thread.vmTop == s.thread.vmTop + 1 && |t.frames| == |s.frames| + 1
            && (|s.thread.shadow| == 256 ==>
                  t.cache == s.cache && t.events == s.events && t.thread.shadow == s.thread.shadow)
            && (|s.thread.shadow| != 256 ==> who in t.cache.state.table)
  {
  }

  // ---------------------------------------------------------------- libraries alone

  ghost predicate AllLibrary(rules: M.Rules) {
    forall m :: rules(m) == M.Traits(false, false, true, false)
  }

  /** Calls and returns only; every call finds fewer than 256 open frames. */
  ghost predicate Shallow(s: System, acts: seq<Action>)
    requires Possible(s, acts)
    decreases |acts|
  {
    acts == [] ||
    (&& !acts[0].Other? && (acts[0].Enter? ==> |s.frames| < 256) && Shallow(Step(s, acts[0]), acts[1..]))
  }

  lemma {:induction false} LibrariesAll(fs: seq<Frame>, rules: M.Rules)
    requires AllLibrary(rules)
    ensures LibraryFrames(fs, rules) == |fs|
  {
    if fs != [] {
      LibrariesAll(fs[..|fs| - 1], rules);
      assert rules(fs[|fs| - 1].who) == M.Traits(false, false, true, false);
    }
  }

  /** Only the outermost library frame is on the shadow stack. */
  lemma LibraryStep(s: System, rules: M.Rules, a: Action)
    requires Inv(s, rules) && Settled(s, rules) && AllLibrary(rules) && Can(s, a) && !a.Other?
    requires |s.thread.shadow| == (if s.frames == [] then 0 else 1) && (a.Enter? ==> |s.frames| < 256)
    ensures var t := Step(s, a); |t.thread.shadow| == if t.frames == [] then 0 else 1
  {
    LevelOf(s, rules);
    LibrariesAll(s.frames, rules);
    hide Settled, Inv, LibraryFrames, M.Looked;
    match a
    case Enter(who) =>
      assert rules(who) == M.Traits(false, false, true, false);
      LookedRight(s.cache, who);
      LibraryThread(s.thread, M.Looked(s.cache.state, who, s.cache.rules(who)).table[who]);
    case Leave(_) =>
      var f := s.frames[|s.frames| - 1];
      assert rules(f.who) == M.Traits(false, false, true, false);
      LibraryThread(s.thread, s.cache.state.table[f.who]);
  }

  lemma LibraryThread(t: S.Thread, e: M.Entry)
    requires EntryRight(e, M.Traits(false, false, true, false)) && t.level >= 0
    requires |t.shadow| == (if t.level == 0 then 0 else 1) && t.vmTop < 256
    ensures |S.Call(t, Treated(e)).0.shadow| == 1
    ensures t.level > 0 ==> |S.Return(t, Treated(e)).0.shadow| == if t.level == 1 then 0 else 1
  {
  }

  lemma {:induction false} LibraryRun(s: System, rules: M.Rules, acts: seq<Action>)
    requires Inv(s, rules) && Settled(s, rules) && AllLibrary(rules) && Possible(s, acts) && Shallow(s, acts)
    requires |s.thread.shadow| == if s.frames == [] then 0 else 1
    ensures Within(s, acts)
    ensures var t := Run(s, acts); |t.thread.shadow| == if t.frames == [] then 0 else 1
    decreases |acts|
  {
    hide Inv, Settled, Step, AllLibrary;
    if acts != [] {
      StepKeeps(s, rules, acts[0]);
      LibraryStep(s, rules, acts[0]);
      match acts[0] {
        case Enter(who) => EnterSettled(s, rules, who);
        case Leave(stray) => LeftNonEmpty(s, stray); LeaveSettled(s, rules, stray);
        case Other(c) =>
      }
      LibraryRun(Step(s, acts[0]), rules, acts[1..]);
    }
  }

  /** When everything is library code only the outermost frame is reported: a call reports a BEGIN
      exactly when no frame is open, a return an END exactly when it returns the only one. */
  lemma OutermostLibrary(rules: M.Rules, acts: seq<Action>, who: nat, stray: S.Method)
    requires AllLibrary(rules) && Possible(Start(rules), acts) && Shallow(Start(rules), acts)
    ensures var s := Run(Start(rules), acts);
            && (|s.frames| < 256 ==>
                  var es := Step(s, Enter(who)).events;
                  if s.frames == [] then |es| == |s.events| + 1 && s.events <= es && es[|s.events|].Begin?
                  else es == s.events)
            && (s.frames != [] ==>
                  var es := Step(s, Leave(stray)).events;
                  if |s.frames| == 1 then |es| == |s.events| + 1 && s.events <= es && es[|s.events|].End?
                  else es == s.events)
  {
    StartInv(rules);
    StartSettled(rules);
    LibraryRun(Start(rules), rules, acts);
    ReportsExactly(rules, acts, who, stray);
    LibrariesAll(Run(Start(rules), acts).frames, rules);
    hide Run, Step, Possible, Within, Shallow;
  }

  /** A synchronization method is reported outside of libraries, and not two library frames deep,
      whether or not it belongs to a library itself. */
  lemma SyncByDepth(rules: M.Rules, acts: seq<Action>, who: nat)
    requires Possible(Start(rules), acts) && Within(Start(rules), acts)
    requires rules(who).sync && !rules(who).blacklisted && !rules(who).entrypoint
    ensures var s := Run(Start(rules), acts);
            |s.frames| < 256 && |s.thread.shadow| < 256 ==>
              && (LibraryFrames(s.frames, rules) == 0 ==> |Step(s, Enter(who)).events| == |s.events| + 1)
              && (LibraryFrames(s.frames, rules) >= 2 ==> Step(s, Enter(who)).events == s.events)
  {
    ReportsExactly(rules, acts, who, NOBODY);
    hide Run, Step, Possible, Within, LibraryFrames;
  }
}
