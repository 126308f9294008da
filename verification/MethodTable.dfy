/** The table of methods seen so far, a cache in front of the rules: when what a lookup answers is
    what the rules say, and how function ids are announced before they are used. */
module MethodTable {
  import opened Wrappers

  const USER_CODE: nat := 0
  const SYSTEM: nat := 1
  const KNOWN_LIBRARY: nat := 2
  const WAIT_FOR_SYNCHRONIZATION: nat := 4

  /** What the rules make of a method: whether it is blacklisted, and where it comes from. */
  datatype Traits = Traits(blacklisted: bool, sync: bool, library: bool, entrypoint: bool)

  /** Methods are told apart by a number. */
  type Rules = nat -> Traits

  datatype Entry = Blacklisted | Known(id: nat, source: nat)

  datatype Event = MethodInfo(id: nat, who: nat) | Begin(id: nat)

  datatype State = State(table: map<nat, Entry>, methods: nat, events: seq<Event>)

  /** A synchronization method is not looked up among the libraries; the entrypoint is a system
      frame whatever else it is. */
  function SourceOf(t: Traits): nat {
    if t.entrypoint then SYSTEM
    else if t.sync then WAIT_FOR_SYNCHRONIZATION
    else if t.library then KNOWN_LIBRARY
    else USER_CODE
  }

  /** rb_rg_methodinfo. */
  function Discovered(s: State, m: nat, t: Traits): State {
    if t.blacklisted then s.(table := s.table[m := Blacklisted])
    else
      var id := s.methods + 1;
      State(s.table[m := Known(id, SourceOf(t))], id, s.events + [MethodInfo(id, m)])
  }

  /** The lookup of a call, which discovers the method on a miss. */
  function Looked(s: State, m: nat, t: Traits): (r: State)
    ensures m in r.table && s.events <= r.events
  {
    if m in s.table then s else Discovered(s, m, t)
  }

  /** What the lookup answers: nothing for a blacklisted method. */
  function Answer(s: State, m: nat, t: Traits): Option<(nat, nat)> {
    match Looked(s, m, t).table[m]
    case Blacklisted => None
    case Known(id, source) => Some((id, source))
  }

  // ---------------------------------------------------------------- announcements

  /** The methods announced, in the order of their ids. A METHODINFO that carries the next id is
      an announcement, others repeat one. */
  function Announced(es: seq<Event>): (ms: seq<nat>) {
    if es == [] then []
    else
      var last, before := es[|es| - 1], Announced(es[..|es| - 1]);
      if last.MethodInfo? && last.id == |before| + 1 then before + [last.who] else before
  }

  /** The event may come after the announcements: an announcement, a repetition, or a BEGIN with an
      id that was announced. */
  predicate Fitting(announced: seq<nat>, e: Event) {
    match e
    case MethodInfo(id, who) => 1 <= id <= |announced| + 1 && (id <= |announced| ==> announced[id - 1] == who)
    case Begin(id) => 1 <= id <= |announced|
  }

  predicate InOrder(es: seq<Event>) {
    forall i | 0 <= i < |es| :: Fitting(Announced(es[..i]), es[i])
  }

  lemma EventsAppend(es: seq<Event>, e: Event)
    requires InOrder(es) && Fitting(Announced(es), e)
    ensures InOrder(es + [e])
    ensures Announced(es + [e]) ==
            Announced(es) + if e.MethodInfo? && e.id == |Announced(es)| + 1 then [e.who] else []
  {
    assert (es + [e])[..|es|] == es;
    forall i | 0 <= i < |es| ensures (es + [e])[..i] == es[..i] {
    }
  }

  /** The METHODINFO events of the known methods, in the order given. */
  function Infos(order: seq<nat>, table: map<nat, Entry>): (es: seq<Event>)
    requires forall i | 0 <= i < |order| :: order[i] in table && table[order[i]].Known?
    ensures |es| == |order| && forall i | 0 <= i < |es| :: es[i] == MethodInfo(table[order[i]].id, order[i])
  {
    seq(|order|, i requires 0 <= i < |order| => MethodInfo(table[order[i]].id, order[i]))
  }

  /** Every known method once. */
  predicate Enumerates(order: seq<nat>, table: map<nat, Entry>) {
    && (forall i | 0 <= i < |order| :: order[i] in table && table[order[i]].Known?)
    && (forall m | m in table && table[m].Known? :: m in order)
    && forall i, j | 0 <= i < j < |order| :: order[i] != order[j]
  }

  /** rb_rg_async_emit_methodinfos, in whatever order the table is walked. */
  function Resynced(s: State, order: seq<nat>): State
    requires Enumerates(order, s.table)
  {
    s.(events := s.events + Infos(order, s.table))
  }

  /** Repeating what was announced announces nothing. */
  lemma {:induction false} ResyncQuiet(es: seq<Event>, order: seq<nat>, table: map<nat, Entry>)
    requires InOrder(es) && forall i | 0 <= i < |order| :: order[i] in table && table[order[i]].Known?
    requires forall m | m in table :: IdOk(table[m], m, Announced(es))
    ensures InOrder(es + Infos(order, table)) && Announced(es + Infos(order, table)) == Announced(es)
  {
    hide InOrder, Announced;
    if order == [] {
      assert es + Infos(order, table) == es;
    } else {
      var front, last := order[..|order| - 1], order[|order| - 1];
      ResyncQuiet(es, front, table);
      EventsAppend(es + Infos(front, table), MethodInfo(table[last].id, last));
      InfosLast(es, order, table);
    }
  }

  lemma InfosLast(es: seq<Event>, order: seq<nat>, table: map<nat, Entry>)
    requires order != [] && forall i | 0 <= i < |order| :: order[i] in table && table[order[i]].Known?
    ensures var last := order[|order| - 1];
            es + Infos(order, table) == es + Infos(order[..|order| - 1], table) + [MethodInfo(table[last].id, last)]
  {
  }

  // ---------------------------------------------------------------- what every step keeps

  /** The id of an entry was announced for the method. */
  predicate IdOk(e: Entry, m: nat, announced: seq<nat>) {
    e.Known? ==> 1 <= e.id <= |announced| && announced[e.id - 1] == m
  }

  /** An entry that is no longer right says user code where a library has been registered since. */
  predicate EntryOk(e: Entry, t: Traits, outdated: bool) {
    match e
    case Blacklisted => t.blacklisted && !outdated
    case Known(_, source) =>
      !t.blacklisted && if outdated then source == USER_CODE && SourceOf(t) == KNOWN_LIBRARY else source == SourceOf(t)
  }

  ghost predicate Inv(s: State) {
    && s.methods == |Announced(s.events)| && InOrder(s.events)
    && forall m | m in s.table :: IdOk(s.table[m], m, Announced(s.events))
  }

  lemma LookedKeeps(s: State, m: nat, t: Traits)
    requires Inv(s)
    ensures Inv(Looked(s, m, t))
    ensures Answer(s, m, t).Some? ==>
              var id := Answer(s, m, t).value.0;
              var announced := Announced(Looked(s, m, t).events);
              1 <= id <= |announced| && announced[id - 1] == m
  {
    hide InOrder, Announced;
    if m !in s.table && !t.blacklisted {
      EventsAppend(s.events, MethodInfo(s.methods + 1, m));
    }
  }

  // ---------------------------------------------------------------- runs

  /** A call, reported as a BEGIN or not; new rules of the blacklist, which empty the table;
      libraries registered, which leave it as it is; the periodic repetition of METHODINFO. */
  datatype Action =
    | Call(who: nat, reported: bool)
    | Blacklist(rules: nat -> bool)
    | Register(libraries: nat -> bool)
    | Resync(order: seq<nat>)

  datatype System = System(state: State, rules: Rules)

  function Reported(s: State, a: Option<(nat, nat)>, reported: bool): State {
    if reported && a.Some? then s.(events := s.events + [Begin(a.value.0)]) else s
  }

  function WithBlacklist(rules: Rules, b: nat -> bool): Rules {
    (m: nat) => rules(m).(blacklisted := b(m))
  }

  /** Registering adds libraries and takes none away. */
  function WithLibraries(rules: Rules, l: nat -> bool): Rules {
    (m: nat) => rules(m).(library := rules(m).library || l(m))
  }

  function Step(s: System, a: Action): System
    requires a.Resync? ==> Enumerates(a.order, s.state.table)
  {
    match a
    case Call(m, reported) =>
      s.(state := Reported(Looked(s.state, m, s.rules(m)), Answer(s.state, m, s.rules(m)), reported))
    case Blacklist(b) => System(s.state.(table := map[]), WithBlacklist(s.rules, b))
    case Register(l) => s.(rules := WithLibraries(s.rules, l))
    case Resync(order) => s.(state := Resynced(s.state, order))
  }

  /** Repetitions walk the table as it is when they happen. */
  ghost predicate Possible(s: System, acts: seq<Action>)
    decreases |acts|, 0
  {
    acts == [] ||
    var before := acts[..|acts| - 1];
    Possible(s, before) &&
    (acts[|acts| - 1].Resync? ==> Enumerates(acts[|acts| - 1].order, Run(s, before).state.table))
  }

  ghost function Run(s: System, acts: seq<Action>): System
    requires Possible(s, acts)
    decreases |acts|, 1
  {
    if acts == [] then s else Step(Run(s, acts[..|acts| - 1]), acts[|acts| - 1])
  }

  const EMPTY: State := State(map[], 0, [])

  /** The step registers a library for a method that is known as user code: a condition on the
      state before it. */
  predicate Outdates(s: System, a: Action, m: nat) {
    a.Register? && m in s.state.table && s.state.table[m].Known? && s.state.table[m].source == USER_CODE &&
    !s.rules(m).library && a.libraries(m)
  }

  /** Such a step happened, and the table has not been emptied since. */
  ghost predicate Outdated(s: System, acts: seq<Action>, m: nat)
    requires Possible(s, acts)
  {
    acts != [] && !acts[|acts| - 1].Blacklist? &&
    (Outdated(s, acts[..|acts| - 1], m) || Outdates(Run(s, acts[..|acts| - 1]), acts[|acts| - 1], m))
  }

  ghost predicate Good(s: System, acts: seq<Action>)
    requires Possible(s, acts)
  {
    var t := Run(s, acts);
    && Inv(t.state)
    && (forall m | m in t.state.table :: EntryOk(t.state.table[m], t.rules(m), Outdated(s, acts, m)))
    && forall m | m !in t.state.table :: !Outdated(s, acts, m)
  }

  lemma StepInv(s: System, a: Action)
    requires Inv(s.state) && (a.Resync? ==> Enumerates(a.order, s.state.table))
    ensures Inv(Step(s, a).state) && s.state.events <= Step(s, a).state.events
    ensures a.Call? && a.reported && Answer(s.state, a.who, s.rules(a.who)).Some? ==>
              var es := Step(s, a).state.events;
              es != [] && es[|es| - 1].Begin? && 1 <= es[|es| - 1].id <= |Announced(es)| &&
              Announced(es)[es[|es| - 1].id - 1] == a.who
  {
    hide InOrder, Announced, Looked, Answer;
    match a
    case Call(m, reported) =>
      var t := s.rules(m);
      LookedKeeps(s.state, m, t);
      if Answer(s.state, m, t).Some? && reported {
        EventsAppend(Looked(s.state, m, t).events, Begin(Answer(s.state, m, t).value.0));
      }
    case Blacklist(b) =>
    case Register(l) =>
    case Resync(order) => ResyncQuiet(s.state.events, order, s.state.table);
  }

  /** What one step does to the entry of one method. */
  lemma StepEntry(s: System, a: Action, m: nat, outdated: bool)
    requires a.Resync? ==> Enumerates(a.order, s.state.table)
    requires if m in s.state.table then EntryOk(s.state.table[m], s.rules(m), outdated) else !outdated
    ensures var t, now := Step(s, a), !a.Blacklist? && (outdated || Outdates(s, a, m));
            if m in t.state.table then EntryOk(t.state.table[m], t.rules(m), now) else !now
  {
  }

  lemma RunLast(s: System, acts: seq<Action>)
    requires Possible(s, acts) && acts != []
    ensures var before, a := acts[..|acts| - 1], acts[|acts| - 1];
            && Possible(s, before) && (a.Resync? ==> Enumerates(a.order, Run(s, before).state.table))
            && Run(s, acts) == Step(Run(s, before), a)
            && forall m :: Outdated(s, acts, m) <==>
                           !a.Blacklist? && (Outdated(s, before, m) || Outdates(Run(s, before), a, m))
  {
  }

  lemma {:induction false} RunGood(rules: Rules, acts: seq<Action>)
    requires Possible(System(EMPTY, rules), acts)
    ensures Good(System(EMPTY, rules), acts)
  {
    var s := System(EMPTY, rules);
    if acts != [] {
      var before, a := acts[..|acts| - 1], acts[|acts| - 1];
      RunLast(s, acts);
      RunGood(rules, before);
      StepInv(Run(s, before), a);
      hide Inv, EntryOk, Step, Outdates, Enumerates, Possible, Run, Outdated;
      forall m ensures if m in Run(s, acts).state.table
                       then EntryOk(Run(s, acts).state.table[m], Run(s, acts).rules(m), Outdated(s, acts, m))
                       else !Outdated(s, acts, m) {
        StepEntry(Run(s, before), a, m, Outdated(s, before, m));
      }
    }
  }

  /** However calls, rules, libraries and repetitions are mixed: the table blacklists what the
      current rules blacklist, and it gives the right source exactly for the methods that were not
      known as user code when their library was registered. */
  lemma CacheExactly(rules: Rules, acts: seq<Action>, m: nat)
    requires Possible(System(EMPTY, rules), acts)
    ensures var s := Run(System(EMPTY, rules), acts);
            var a := Answer(s.state, m, s.rules(m));
            && (a.None? <==> s.rules(m).blacklisted)
            && (a.Some? ==> (a.value.1 == SourceOf(s.rules(m)) <==> !Outdated(System(EMPTY, rules), acts, m)))
  {
    hide Inv;
    RunGood(rules, acts);
  }

  /** A method called before its library is registered stays user code. */
  lemma RegisteredTooLate(rules: Rules, m: nat)
    requires rules(m) == Traits(false, false, false, false)
    ensures var acts := [Call(m, true), Register(x => x == m)];
            && Possible(System(EMPTY, rules), acts)
            && var s := Run(System(EMPTY, rules), acts);
            Answer(s.state, m, s.rules(m)) == Some((1, USER_CODE)) && SourceOf(s.rules(m)) == KNOWN_LIBRARY
  {
    var s := System(EMPTY, rules);
    var acts := [Call(m, true), Register(x => x == m)];
    assert acts[..1] == [acts[0]] && [acts[0]][..0] == [];
    assert Possible(s, []) && Possible(s, [acts[0]]) && Possible(s, acts);
    assert Run(s, [acts[0]]) == Step(s, acts[0]);
    assert Run(s, acts) == Step(Step(s, acts[0]), acts[1]);
  }

  lemma {:induction false} AnnouncedMonotone(es: seq<Event>, i: nat)
    requires i <= |es|
    ensures Announced(es[..i]) <= Announced(es)
    decreases |es| - i
  {
    if i == |es| {
      assert es[..i] == es;
    } else {
      assert es[..i + 1][..i] == es[..i];
      AnnouncedMonotone(es, i + 1);
    }
  }

  lemma {:induction false} Announcer(es: seq<Event>, id: nat) returns (j: nat)
    requires InOrder(es) && 1 <= id <= |Announced(es)|
    ensures j < |es| && es[j] == MethodInfo(id, Announced(es)[id - 1])
  {
    var front := es[..|es| - 1];
    assert forall i | 0 <= i < |front| :: front[..i] == es[..i];
    if id <= |Announced(front)| {
      j := Announcer(front, id);
    } else {
      j := |es| - 1;
    }
  }

  /** A METHODINFO names the method its id was announced for. */
  lemma Named(es: seq<Event>, x: nat)
    requires InOrder(es) && x < |es| && es[x].MethodInfo?
    ensures 1 <= es[x].id <= |Announced(es)| && Announced(es)[es[x].id - 1] == es[x].who
  {
    AnnouncedMonotone(es, x + 1);
    hide InOrder, Announced;
    InOrderBefore(es, x);
    AnnouncedNext(es, x);
  }

  lemma AnnouncedNext(es: seq<Event>, x: nat)
    requires x < |es|
    ensures var before := Announced(es[..x]);
            Announced(es[..x + 1]) ==
            if es[x].MethodInfo? && es[x].id == |before| + 1 then before + [es[x].who] else before
  {
    assert es[..x + 1][..x] == es[..x];
  }

  lemma InOrderBefore(es: seq<Event>, i: nat)
    requires InOrder(es) && i < |es|
    ensures InOrder(es[..i]) && Fitting(Announced(es[..i]), es[i])
  {
    assert forall x | 0 <= x < i :: es[..i][..x] == es[..x];
  }

  lemma RunInv(rules: Rules, acts: seq<Action>)
    requires Possible(System(EMPTY, rules), acts)
    ensures Inv(Run(System(EMPTY, rules), acts).state)
  {
    RunGood(rules, acts);
  }

  lemma NamedBefore(es: seq<Event>, i: nat) returns (j: nat)
    requires InOrder(es) && i < |es| && es[i].Begin?
    ensures j < i && es[j].MethodInfo? && es[j].id == es[i].id
    ensures forall x | 0 <= x < |es| && es[x].MethodInfo? && es[x].id == es[i].id :: es[x].who == es[j].who
  {
    hide InOrder, Announced;
    InOrderBefore(es, i);
    j := Announcer(es[..i], es[i].id);
    Named(es, j);
    forall x | 0 <= x < |es| && es[x].MethodInfo? && es[x].id == es[i].id ensures es[x].who == es[j].who {
      Named(es, x);
    }
  }

  /** Before every BEGIN there is a METHODINFO with its id, and all METHODINFO events with that id,
      before or after, name the same method: ids are never reused. */
  lemma AnnouncedBefore(rules: Rules, acts: seq<Action>, i: nat) returns (j: nat)
    requires Possible(System(EMPTY, rules), acts)
    requires i < |Run(System(EMPTY, rules), acts).state.events|
    requires Run(System(EMPTY, rules), acts).state.events[i].Begin?
    ensures var es := Run(System(EMPTY, rules), acts).state.events;
            && j < i && es[j].MethodInfo? && es[j].id == es[i].id
            && forall x | 0 <= x < |es| && es[x].MethodInfo? && es[x].id == es[i].id :: es[x].who == es[j].who
  {
    RunInv(rules, acts);
    hide Possible, Run, InOrder, Announced;
    j := NamedBefore(Run(System(EMPTY, rules), acts).state.events, i);
  }

  /** While the blacklist stays, a method keeps its entry, and with it its id. */
  lemma EntryStays(s: System, a: Action, m: nat)
    requires m in s.state.table && !a.Blacklist? && (a.Resync? ==> Enumerates(a.order, s.state.table))
    ensures m in Step(s, a).state.table && Step(s, a).state.table[m] == s.state.table[m]
  {
  }

  // ---------------------------------------------------------------- the table in place

  class MethodCache {
    var methodinfo: map<nat, Entry>
    var methods: nat
    var events: seq<Event>

    function Value(): State
      reads this
    {
      State(methodinfo, methods, events)
    }

    constructor ()
      ensures Value() == EMPTY
    {
      methodinfo, methods, events := map[], 0, [];
    }

    /** rb_rg_methodinfo: classify the method, give it the next id, and announce it. */
    method Discover(m: nat, t: Traits) returns (found: Option<(nat, nat)>)
      requires m !in methodinfo
      modifies this
      ensures Value() == Discovered(old(Value()), m, t) && found == Answer(old(Value()), m, t)
      ensures t.blacklisted ==> found == None && events == old(events) && methods == old(methods)
      ensures !t.blacklisted ==>
                && methods == old(methods) + 1 && events == old(events) + [MethodInfo(methods, m)]
                && found == Some((methods,
                                  if t.entrypoint then 1 else if t.sync then 4 else if t.library then 2 else 0))
    {
      if !t.blacklisted {
        methods := methods + 1;
        var id, source := methods, USER_CODE;
        if t.sync { source := WAIT_FOR_SYNCHRONIZATION; }
        if t.library {
          if source == USER_CODE { source := KNOWN_LIBRARY; }
        }
        if t.entrypoint { source := SYSTEM; }
        methodinfo := methodinfo[m := Known(id, source)];
        events := events + [MethodInfo(id, m)];
        found := Some((id, source));
      } else {
        methodinfo := methodinfo[m := Blacklisted];
        found := None;
      }
    }

    /** The lookup of the CALL event. */
    method LookUp(m: nat, t: Traits) returns (found: Option<(nat, nat)>)
      modifies this
      ensures Value() == Looked(old(Value()), m, t) && found == Answer(old(Value()), m, t)
    {
      if m in methodinfo {
        match methodinfo[m]
        case Blacklisted => found := None;
        case Known(id, source) => found := Some((id, source));
      } else {
        found := Discover(m, t);
      }
    }

    /** rb_rg_flush_caches: every entry is deleted. */
    method FlushCaches()
      modifies this`methodinfo
      ensures methodinfo == map[]
    {
      while methodinfo != map[]
        decreases |methodinfo|
      {
        var m :| m in methodinfo;
        methodinfo := methodinfo - {m};
      }
    }

    /** rb_rg_async_emit_methodinfos: every known method is announced again. */
    method EmitMethodInfos() returns (ghost order: seq<nat>)
      modifies this`events
      ensures Enumerates(order, methodinfo) && Value() == Resynced(old(Value()), order)
    {
      order := [];
      var left := methodinfo.Keys;
      ghost var before := events;
      while left != {}
        invariant left <= methodinfo.Keys
        invariant forall i | 0 <= i < |order| ::
                    order[i] in methodinfo && methodinfo[order[i]].Known? && order[i] !in left
        invariant forall m | m in methodinfo && methodinfo[m].Known? :: m in left || m in order
        invariant forall i, j | 0 <= i < j < |order| :: order[i] != order[j]
        invariant events == before + Infos(order, methodinfo)
        decreases left
      {
        var m :| m in left;
        left := left - {m};
        match methodinfo[m] {
          case Blacklisted =>
          case Known(id, _) =>
            assert Infos(order + [m], methodinfo) == Infos(order, methodinfo) + [MethodInfo(id, m)];
            order := order + [m];
            events := events + [MethodInfo(id, m)];
        }
      }
    }
  }
}
