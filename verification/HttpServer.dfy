/**
 The connection table of src/http_server.cpp and its garbage-collection timer.

 A wait on the timer is either still pending or its completion is queued: as expired, or as
 cancelled. Cancelling does nothing to a completion that is already queued as expired.
 */
module HttpServer {
  import opened Basics

  const MAX_PER_ADDRESS: nat := 20
  const LIMIT: nat := 5_000_000_000  // five seconds, in ticks of the clock

  type Id = nat
  type Address = string

  datatype Connection = Connection(addr: Address, start: nat)

  datatype Server = Server(
    running: bool,               // the handler is set
    now: nat,
    table: map<Id, Connection>,  // m_connections
    owned: set<Id>,              // connections whose owner is set
    pending: Option<nat>,        // deadline of the wait the timer holds
    expiries: nat,               // queued completions of waits that expired
    cancels: nat,                // queued completions of waits that were cancelled
    accepted: nat, finished: nat, evicted: nat, expired: nat, stopped: nat)

  function Started(now: nat): Server {
    Server(true, now, map[], {}, None, 0, 0, 0, 0, 0, 0, 0)
  }

  function From(table: map<Id, Connection>, addr: Address): set<Id> {
    set i | i in table && table[i].addr == addr
  }

  ghost predicate Oldest(table: map<Id, Connection>, addr: Address, v: Id) {
    v in From(table, addr) && forall i :: i in From(table, addr) ==> table[v].start <= table[i].start
  }

  // ----- what each callback does to the whole state -----

  function Cancel(s: Server): Server {
    if s.pending.None? then s else s.(pending := None, cancels := s.cancels + 1)
  }

  function ScheduleGC(s: Server): Server {
    Cancel(s).(pending := Some(s.now + LIMIT))
  }

  function Drop(s: Server, ids: set<Id>): Server {
    s.(table := s.table - ids, owned := s.owned - ids)
  }

  function Evict(s: Server, victim: Option<Id>): Server {
    if victim.None? then s else Drop(s, {victim.value}).(evicted := s.evicted + 1)
  }

  function Accept(s: Server, id: Id, addr: Address, victim: Option<Id>): Server {
    var s1 := Evict(s, victim);
    var s2 := s1.(table := s1.table[id := Connection(addr, s.now)], owned := s1.owned + {id}, accepted := s1.accepted + 1);
    if s.table == map[] then ScheduleGC(s2) else s2
  }

  function Stale(s: Server): set<Id> {
    set i | i in s.table && s.now - s.table[i].start > LIMIT
  }

  /** The handler of an expired wait. */
  function RunGC(s: Server): Server {
    var s1 := s.(expiries := if s.expiries > 0 then s.expiries - 1 else 0);
    if !s.running then s1
    else
      var s2 := Drop(s1, Stale(s)).(expired := s.expired + |Stale(s)|);
      if s2.table != map[] then ScheduleGC(s2) else s2
  }

  function Finish(s: Server, id: Id): Server {
    var s1 := Drop(s, {id}).(finished := s.finished + 1);
    if s1.table == map[] then Cancel(s1) else s1
  }

  function Stop(s: Server): Server {
    Cancel(s).(running := false, stopped := s.stopped + |s.table|, table := map[], owned := s.owned - s.table.Keys)
  }

  // ----- runs -----

  datatype Step =
    | Advance(to: nat)
    | TimerExpires
    | ExpiredHandler
    | CancelledHandler
    | NewConnection(id: Id, addr: Address, victim: Option<Id>)
    | ConnectionFinished(id: Id)
    | ServerStop

  ghost predicate RightVictim(s: Server, addr: Address, victim: Option<Id>) {
    if |From(s.table, addr)| >= MAX_PER_ADDRESS then victim.Some? && Oldest(s.table, addr, victim.value)
    else victim.None?
  }

  ghost predicate Enabled(s: Server, step: Step) {
    match step
    case Advance(to) => to > s.now
    case TimerExpires => s.pending.Some? && s.now >= s.pending.value
    case ExpiredHandler => s.expiries > 0
    case CancelledHandler => s.cancels > 0
    case NewConnection(id, addr, victim) => s.running && id !in s.owned && id !in s.table && RightVictim(s, addr, victim)
    case ConnectionFinished(id) => id in s.owned
    case ServerStop => s.running
  }

  function Apply(s: Server, step: Step): Server {
    match step
    case Advance(to) => s.(now := to)
    case TimerExpires => s.(pending := None, expiries := s.expiries + 1)
    case ExpiredHandler => RunGC(s)
    case CancelledHandler => s.(cancels := if s.cancels > 0 then s.cancels - 1 else 0)
    case NewConnection(id, addr, victim) => Accept(s, id, addr, victim)
    case ConnectionFinished(id) => Finish(s, id)
    case ServerStop => Stop(s)
  }

  function Run(s: Server, steps: seq<Step>): Server
    decreases |steps|
  {
    if steps == [] then s else Run(Apply(s, steps[0]), steps[1..])
  }

  ghost predicate CanRun(s: Server, steps: seq<Step>)
    decreases |steps|
  {
    steps != [] ==> Enabled(s, steps[0]) && CanRun(Apply(s, steps[0]), steps[1..])
  }

  // ----- what every run keeps -----

  ghost predicate Inv(s: Server) {
    && s.owned == s.table.Keys
    && (!s.running ==> s.table == map[])
    && (forall a :: |From(s.table, a)| <= 20)
    && (s.table != map[] ==> s.pending.Some? || s.expiries > 0)
    && s.accepted == |s.table| + s.finished + s.evicted + s.expired + s.stopped
    && (forall i :: i in s.table ==> s.table[i].start <= s.now)
    && (s.pending.Some? ==> s.pending.value <= s.now + LIMIT)
  }

  lemma FromSmaller(t: map<Id, Connection>, u: map<Id, Connection>, a: Address)
    requires t.Keys <= u.Keys && forall i :: i in t ==> t[i] == u[i]
    ensures |From(t, a)| <= |From(u, a)|
  {
    SubsetSize(From(t, a), From(u, a));
  }

  lemma SubsetSize<T>(a: set<T>, b: set<T>)
    requires a <= b
    ensures |a| <= |b|
  {
    assert b == a + (b - a);
  }

  lemma DroppedSize(t: map<Id, Connection>, ids: set<Id>)
    requires ids <= t.Keys
    ensures |t - ids| == |t| - |ids|
  {
    assert (t - ids).Keys == t.Keys - ids;
    assert t.Keys == (t.Keys - ids) + ids;
    assert |t| == |t.Keys| && |t - ids| == |(t - ids).Keys|;
  }

  lemma DropKeeps(s: Server, ids: set<Id>)
    requires Inv(s) && ids <= s.table.Keys
    ensures var t := Drop(s, ids);
            && t.owned == t.table.Keys && |t.table| == |s.table| - |ids|
            && forall a :: |From(t.table, a)| <= MAX_PER_ADDRESS
  {
    var t := Drop(s, ids);
    DroppedSize(s.table, ids);
    forall a
      ensures |From(t.table, a)| <= MAX_PER_ADDRESS
    {
      FromSmaller(t.table, s.table, a);
    }
  }

  lemma FromInsert(t: map<Id, Connection>, id: Id, c: Connection, a: Address)
    requires id !in t
    ensures From(t[id := c], a) == if a == c.addr then From(t, a) + {id} else From(t, a)
  {
  }

  lemma InsertKeeps(t: map<Id, Connection>, id: Id, c: Connection)
    requires id !in t && |From(t, c.addr)| < MAX_PER_ADDRESS
    requires forall a :: |From(t, a)| <= MAX_PER_ADDRESS
    ensures var u := t[id := c]; |u| == |t| + 1 && forall a :: |From(u, a)| <= MAX_PER_ADDRESS
  {
    hide From;
    var u := t[id := c];
    forall a
      ensures |From(u, a)| <= MAX_PER_ADDRESS
    {
      FromInsert(t, id, c, a);
    }
    assert u.Keys == t.Keys + {id};
    assert |u| == |u.Keys| && |t| == |t.Keys|;
  }

  lemma EvictKeeps(s: Server, addr: Address, victim: Option<Id>)
    requires Inv(s) && RightVictim(s, addr, victim)
    ensures var t := Evict(s, victim);
            && t.owned == t.table.Keys && |t.table| + t.evicted == |s.table| + s.evicted
            && |From(t.table, addr)| < MAX_PER_ADDRESS
            && (forall a :: |From(t.table, a)| <= MAX_PER_ADDRESS)
  {
    if victim.Some? {
      DropKeeps(s, {victim.value});
      assert From(Evict(s, victim).table, addr) == From(s.table, addr) - {victim.value};
    }
  }

  lemma AcceptKeeps(s: Server, id: Id, addr: Address, victim: Option<Id>)
    requires Inv(s) && Enabled(s, NewConnection(id, addr, victim))
    ensures Inv(Accept(s, id, addr, victim))
  {
    EvictKeeps(s, addr, victim);
    InsertKeeps(Evict(s, victim).table, id, Connection(addr, s.now));
  }

  lemma RunGCKeeps(s: Server)
    requires Inv(s)
    ensures Inv(RunGC(s))
  {
    DropKeeps(s, Stale(s));
  }

  lemma StepKeeps(s: Server, step: Step)
    requires Inv(s) && Enabled(s, step)
    ensures Inv(Apply(s, step))
  {
    match step
    case Advance(_) =>
    case TimerExpires =>
    case ExpiredHandler => RunGCKeeps(s);
    case CancelledHandler =>
    case NewConnection(id, addr, victim) => AcceptKeeps(s, id, addr, victim);
    case ConnectionFinished(id) => DropKeeps(s, {id});
    case ServerStop =>
      assert forall a :: From(map[], a) == {};
  }

  /** Cap, owners, timer and the balance of connections, over every run. */
  lemma {:induction false} RunKeeps(s: Server, steps: seq<Step>)
    requires Inv(s) && CanRun(s, steps)
    ensures Inv(Run(s, steps))
    decreases |steps|
  {
    if steps != [] {
      StepKeeps(s, steps[0]);
      RunKeeps(Apply(s, steps[0]), steps[1..]);
    }
  }

  lemma StartedInv(now: nat)
    ensures Inv(Started(now))
  {
    assert forall a :: From(map[], a) == {};
  }

  /** An eviction removes one connection, no younger than any other from that address, and touches no other. */
  lemma EvictionIsExact(s: Server, id: Id, addr: Address, victim: Option<Id>)
    requires Inv(s) && Enabled(s, NewConnection(id, addr, victim))
    ensures var t := Apply(s, NewConnection(id, addr, victim));
            && t.table.Keys == s.table.Keys - (if victim.Some? then {victim.value} else {}) + {id}
            && (forall i :: i in t.table && i != id ==> t.table[i] == s.table[i])
            && t.table[id] == Connection(addr, s.now)
            && (victim.Some? <==> |From(s.table, addr)| == 20)
            && (victim.Some? ==> forall i :: i in s.table && s.table[i].addr == addr ==>
                  s.table[victim.value].start <= s.table[i].start)
  {
    hide From;
    InFrom(s.table, addr);
  }

  // ----- what takes a connection away -----

  /** The step that takes connection `i` away: its own end, a stop, its eviction, or an expiry when it is older than five seconds. */
  ghost predicate Removes(s: Server, step: Step, i: Id)
    requires i in s.table
  {
    match step
    case ConnectionFinished(id) => id == i
    case ServerStop => true
    case NewConnection(_, _, victim) => victim == Some(i)
    case ExpiredHandler => s.now > s.table[i].start + 5_000_000_000
    case _ => false
  }

  lemma StaysUnless(s: Server, step: Step, i: Id)
    requires Inv(s) && Enabled(s, step) && i in s.table
    ensures var t := Apply(s, step);
            && (i in t.table <==> !Removes(s, step, i))
            && (i in t.table ==> t.table[i] == s.table[i])
  {
    hide From;
    if step.ExpiredHandler? {
      InStale(s, i);
    }
  }

  lemma RunPrefix(s: Server, steps: seq<Step>, k: nat)
    requires 0 < k <= |steps|
    ensures Run(s, steps[..k]) == Run(Apply(s, steps[0]), steps[1..][..k - 1])
  {
    assert steps[..k][1..] == steps[1..][..k - 1];
  }

  /** In every run, a connection that is gone was taken away by such a step, and was as it had been accepted until then. */
  lemma {:induction false} LeavesOnlyBy(s: Server, steps: seq<Step>, i: Id) returns (k: nat)
    requires Inv(s) && CanRun(s, steps) && i in s.table
    requires i !in Run(s, steps).table || Run(s, steps).table[i] != s.table[i]
    ensures k < |steps|
    ensures var at := Run(s, steps[..k]); i in at.table && at.table[i] == s.table[i] && Removes(at, steps[k], i)
    decreases |steps|
  {
    var s1 := Apply(s, steps[0]);
    StaysUnless(s, steps[0], i);
    StepKeeps(s, steps[0]);
    if i in s1.table {
      var k1 := LeavesOnlyBy(s1, steps[1..], i);
      k := k1 + 1;
      RunPrefix(s, steps, k);
    } else {
      k := 0;
      assert steps[..0] == [];
    }
  }

  /** When a wait is set for five seconds from now, and when there is none any more. */
  lemma TimerIsSet(s: Server, step: Step)
    requires Inv(s) && Enabled(s, step)
    ensures var t := Apply(s, step); var later := Some(s.now + 5_000_000_000);
            match step
            case NewConnection(_, _, _) => t.pending == if s.table == map[] then later else s.pending
            case ExpiredHandler => t.pending == if t.table != map[] then later else s.pending
            case ConnectionFinished(_) => t.pending == if t.table == map[] then None else s.pending
            case ServerStop => t.pending == None && t.table == map[] && t.owned == {} && !t.running
            case TimerExpires => t.pending == None && t.expiries == s.expiries + 1
            case _ => t.pending == s.pending
  {
    hide From, Stale;
    if step.NewConnection? {
      NobodyThere(step.addr);
    }
  }

  // ----- runs with ideal timers: a wait expires at its deadline and its handler runs at once -----

  ghost predicate Punctual(s: Server, step: Step) {
    step.Advance? ==> s.expiries == 0 && (s.pending.Some? ==> step.to <= s.pending.value)
  }

  ghost predicate RunsPunctually(s: Server, steps: seq<Step>)
    decreases |steps|
  {
    steps != [] ==> Punctual(s, steps[0]) && RunsPunctually(Apply(s, steps[0]), steps[1..])
  }

  ghost predicate Timely(s: Server) {
    && Inv(s)
    && s.expiries <= 1
    && (s.pending.Some? ==> s.now <= s.pending.value)
    // no connection outlives its start by more than twice the limit
    && (forall i :: i in s.table ==> s.now <= s.table[i].start + 2 * LIMIT)
    && (s.pending.Some? ==> forall i :: i in s.table ==> s.pending.value <= s.table[i].start + 2 * LIMIT)
    // with no expiry queued, a wait is pending exactly while there is something to collect
    && (s.running && s.expiries == 0 ==> (s.pending.Some? <==> s.table != map[]))
    // a wait scheduled while an expiry is queued belongs to connections too young to be collected
    && (s.running && s.expiries == 1 && s.pending.Some? ==>
          && s.pending.value == s.now + LIMIT && s.table != map[]
          && forall i :: i in s.table ==> s.now <= s.table[i].start + LIMIT)
    && (!s.running ==> s.pending.None?)
  }

  /** How many waits can still lead to a collection. */
  function LiveWaits(s: Server): nat {
    s.expiries + if s.pending.Some? then 1 else 0
  }

  lemma TimelyGC(s: Server)
    requires Timely(s) && s.expiries > 0
    ensures Timely(RunGC(s))
  {
    RunGCKeeps(s);
    if s.running && s.table != map[] && s.pending.Some? {
      var i :| i in s.table;
      assert i in RunGC(s).table;
    }
  }

  lemma TimelyAccept(s: Server, id: Id, addr: Address, victim: Option<Id>)
    requires Timely(s) && Enabled(s, NewConnection(id, addr, victim))
    ensures Timely(Accept(s, id, addr, victim))
  {
    AcceptKeeps(s, id, addr, victim);
    assert id in Accept(s, id, addr, victim).table;
  }

  lemma TimelyFinish(s: Server, id: Id)
    requires Timely(s) && id in s.owned
    ensures Timely(Finish(s, id))
  {
    DropKeeps(s, {id});
  }

  lemma TimelyStep(s: Server, step: Step)
    requires Timely(s) && Enabled(s, step) && Punctual(s, step)
    ensures Timely(Apply(s, step))
  {
    match step
    case ExpiredHandler => TimelyGC(s);
    case NewConnection(id, addr, victim) => TimelyAccept(s, id, addr, victim);
    case ConnectionFinished(id) => TimelyFinish(s, id);
    case Advance(_) =>
    case TimerExpires =>
    case CancelledHandler =>
    case ServerStop => StepKeeps(s, step);
  }

  lemma {:induction false} TimelyRun(s: Server, steps: seq<Step>)
    requires Timely(s) && CanRun(s, steps) && RunsPunctually(s, steps)
    ensures Timely(Run(s, steps))
    decreases |steps|
  {
    if steps != [] {
      TimelyStep(s, steps[0]);
      TimelyRun(Apply(s, steps[0]), steps[1..]);
    }
  }

  /** Every connection is gone by its start plus twice the limit, once the timer has done what is due by then. */
  lemma GoneInTime(start: nat, steps: seq<Step>, i: Id)
    requires CanRun(Started(start), steps) && RunsPunctually(Started(start), steps)
    ensures var s := Run(Started(start), steps);
            && (i in s.table ==> s.now <= s.table[i].start + 10_000_000_000)
            && (i in s.table && s.expiries == 0 && s.pending.Some? && s.now < s.pending.value ==>
                  s.now < s.table[i].start + 10_000_000_000)
            && (s.running && s.table != map[] ==> 1 <= LiveWaits(s) <= 2)
            && (s.running && s.table != map[] && s.expiries == 0 ==> LiveWaits(s) == 1)
  {
    StartedInv(start);
    TimelyRun(Started(start), steps);
  }

  /** A connection comes in while the table is empty and an expiry is queued. */
  ghost predicate Races(s: Server, step: Step) {
    step.NewConnection? && s.table == map[] && s.expiries > 0
  }

  ghost predicate NeverRaces(s: Server, steps: seq<Step>)
    decreases |steps|
  {
    steps != [] ==> !Races(s, steps[0]) && NeverRaces(Apply(s, steps[0]), steps[1..])
  }

  /** In every state of the run, exactly one wait is live if there is a connection. */
  ghost predicate AlwaysOneWait(s: Server, steps: seq<Step>)
    decreases |steps|
  {
    && (s.table != map[] ==> LiveWaits(s) == 1)
    && (steps != [] ==> AlwaysOneWait(Apply(s, steps[0]), steps[1..]))
  }

  lemma StepWaits(s: Server, step: Step)
    requires Inv(s) && Enabled(s, step) && LiveWaits(s) <= 1
    ensures var t := Apply(s, step);
            if Races(s, step) then t.table != map[] && LiveWaits(t) == 2 else LiveWaits(t) <= 1
  {
    hide From, Stale;
    if step.NewConnection? && s.table == map[] {
      NobodyThere(step.addr);
      assert Apply(s, step).pending.Some?;
    }
  }

  /** Exactly one wait is live throughout a run, whatever the timers do, if and only if no step races. */
  lemma {:induction false} OneWaitIff(s: Server, steps: seq<Step>)
    requires Inv(s) && LiveWaits(s) <= 1 && CanRun(s, steps)
    ensures AlwaysOneWait(s, steps) <==> NeverRaces(s, steps)
    decreases |steps|
  {
    if steps != [] {
      StepWaits(s, steps[0]);
      StepKeeps(s, steps[0]);
      if !Races(s, steps[0]) {
        OneWaitIff(Apply(s, steps[0]), steps[1..]);
      }
    }
  }

  lemma FirstStep(s: Server, step: Step, rest: seq<Step>)
    ensures CanRun(s, [step] + rest) <==> Enabled(s, step) && CanRun(Apply(s, step), rest)
    ensures RunsPunctually(s, [step] + rest) <==> Punctual(s, step) && RunsPunctually(Apply(s, step), rest)
    ensures Run(s, [step] + rest) == Run(Apply(s, step), rest)
  {
    assert ([step] + rest)[1..] == rest;
  }

  /** A wait expires, its connection finishes before the handler runs, and another one comes in. */
  function Race(a: Address): seq<Step> {
    [NewConnection(0, a, None)] + ([Advance(LIMIT)] + ([TimerExpires] + ([ConnectionFinished(0)] + ([NewConnection(1, a, None)] + []))))
  }

  /** Two waits are live at once when a queued expiry, a cancel and a new connection race. */
  lemma RaceLeavesTwo(a: Address)
    ensures var s := Run(Started(0), Race(a));
            CanRun(Started(0), Race(a)) && RunsPunctually(Started(0), Race(a)) && LiveWaits(s) == 2 && s.table.Keys == {1}
  {
    hide Run, CanRun, RunsPunctually, From;
    var one, two := NewConnection(0, a, None), NewConnection(1, a, None);
    var s0 := Started(0);
    var s1 := Apply(s0, one);
    var s2 := Apply(s1, Advance(LIMIT));
    var s3 := Apply(s2, TimerExpires);
    var s4 := Apply(s3, ConnectionFinished(0));
    NobodyThere(a);
    assert s4.table == map[];
    FirstStep(s4, two, []);
    FirstStep(s3, ConnectionFinished(0), [two] + []);
    FirstStep(s2, TimerExpires, [ConnectionFinished(0)] + ([two] + []));
    FirstStep(s1, Advance(LIMIT), [TimerExpires] + ([ConnectionFinished(0)] + ([two] + [])));
    FirstStep(s0, one, [Advance(LIMIT)] + ([TimerExpires] + ([ConnectionFinished(0)] + ([two] + []))));
    NoSteps(Apply(s4, two));
  }

  lemma NobodyThere(a: Address)
    ensures From(map[], a) == {}
  {
  }

  lemma NoSteps(s: Server)
    ensures Run(s, []) == s && CanRun(s, []) && RunsPunctually(s, [])
  {
  }

  // ----- the class -----

  lemma InFrom(t: map<Id, Connection>, addr: Address)
    ensures forall i :: i in From(t, addr) <==> i in t && t[i].addr == addr
  {
  }

  lemma SameStale(s: Server, t: Server)
    requires s.table == t.table && s.now == t.now
    ensures Stale(s) == Stale(t)
  {
  }

  lemma OneFewer(stale: set<Id>, todo: set<Id>, id: Id)
    requires id in todo
    ensures stale - (todo - {id}) == if id in stale then (stale - todo) + {id} else stale - todo
  {
  }

  /** The state when the stale connections in `gone` have been dropped. */
  ghost function Swept(s: Server, gone: set<Id>): Server {
    Drop(s, gone).(expired := s.expired + |gone|)
  }

  lemma SweptNone(s: Server)
    ensures Swept(s, {}) == s
  {
    assert s.table - {} == s.table && s.owned - {} == s.owned;
  }

  lemma SweptOneMore(s: Server, gone: set<Id>, id: Id)
    requires id !in gone
    ensures var t := Swept(s, gone);
            && Swept(s, gone + {id}) == Drop(t, {id}).(expired := t.expired + 1)
            && (id in s.table ==> id in t.table && t.table[id] == s.table[id])
  {
    assert s.table - gone - {id} == s.table - (gone + {id});
    assert s.owned - gone - {id} == s.owned - (gone + {id});
  }

  lemma InStale(s: Server, id: Id)
    requires id in s.table
    ensures id in Stale(s) <==> s.now - s.table[id].start > LIMIT
  {
  }

  lemma StaleInTable(s: Server)
    ensures Stale(s) - s.table.Keys == {}
  {
  }

  class HttpServerImpl {
    var handler: bool
    var clock: nat
    var connections: map<Id, Connection>
    var owned: set<Id>
    var pendingWait: Option<nat>
    var queuedExpiries: nat
    var queuedCancels: nat
    ghost var accepted: nat
    ghost var finished: nat
    ghost var evicted: nat
    ghost var expired: nat
    ghost var stopped: nat

    ghost function View(): Server
      reads this
    {
      Server(handler, clock, connections, owned, pendingWait, queuedExpiries, queuedCancels,
             accepted, finished, evicted, expired, stopped)
    }

    constructor (clock: nat)
      ensures View() == Started(clock)
    {
      handler, this.clock, connections, owned := true, clock, map[], {};
      pendingWait, queuedExpiries, queuedCancels := None, 0, 0;
      accepted, finished, evicted, expired, stopped := 0, 0, 0, 0, 0;
    }

    /** HttpConnection::stop */
    method StopConnection(id: Id)
      modifies this`owned
      ensures owned == old(owned) - {id}
    {
      owned := owned - {id};
    }

    method CancelTimer()
      modifies this`pendingWait, this`queuedCancels
      ensures View() == Cancel(old(View()))
    {
      if pendingWait.Some? {
        pendingWait, queuedCancels := None, queuedCancels + 1;
      }
    }

    method ScheduleCollection()
      modifies this`pendingWait, this`queuedCancels
      ensures View() == ScheduleGC(old(View()))
    {
      CancelTimer();  // setting a new expiry cancels the wait that is pending
      pendingWait := Some(clock + LIMIT);
    }

    method FindOldest(addr: Address) returns (count: nat, oldest: Option<Id>)
      ensures count == |From(connections, addr)|
      ensures if count == 0 then oldest.None? else oldest.Some? && Oldest(connections, addr, oldest.value)
    {
      hide From;
      InFrom(connections, addr);
      count, oldest := 0, None;
      var todo := connections.Keys;
      ghost var seen: set<Id> := {};
      while todo != {}
        invariant todo <= connections.Keys && seen == From(connections, addr) - todo
        invariant count == |seen|
        invariant if count == 0 then oldest.None?
                  else oldest.Some? && oldest.value in seen &&
                       forall i :: i in seen ==> connections[oldest.value].start <= connections[i].start
        decreases |todo|
      {
        var con :| con in todo;
        OneFewer(From(connections, addr), todo, con);
        todo := todo - {con};
        if connections[con].addr == addr {
          if oldest.None? || connections[oldest.value].start > connections[con].start {
            oldest := Some(con);
          }
          count := count + 1;
          seen := seen + {con};
        }
      }
      assert seen == From(connections, addr);
    }

    /** The first part of handleConnection: the oldest connection makes room when there are too many. */
    method MakeRoom(addr: Address) returns (ghost victim: Option<Id>)
      modifies this`connections, this`owned, this`evicted
      ensures RightVictim(old(View()), addr, victim)
      ensures View() == Evict(old(View()), victim)
    {
      hide From;
      victim := None;
      var sameAddrCount, oldest := FindOldest(addr);
      if sameAddrCount >= MAX_PER_ADDRESS {
        StopConnection(oldest.value);
        connections := connections - {oldest.value};
        victim, evicted := oldest, evicted + 1;
      }
    }

    method HandleConnection(id: Id, addr: Address) returns (ghost victim: Option<Id>)
      requires Inv(View()) && handler && id !in connections && id !in owned
      modifies this
      ensures Enabled(old(View()), NewConnection(id, addr, victim))
      ensures View() == Accept(old(View()), id, addr, victim)
      ensures Inv(View())
    {
      hide Inv, RightVictim, Evict, ScheduleGC;
      ghost var was := View();
      var wasEmpty := connections == map[];
      victim := MakeRoom(addr);
      connections := connections[id := Connection(addr, clock)];
      owned := owned + {id};
      accepted := accepted + 1;
      if wasEmpty {
        ScheduleCollection();
      }
      AcceptKeeps(was, id, addr, victim);
    }

    method DropOne(con: Id)
      modifies this`connections, this`owned, this`expired
      ensures View() == Drop(old(View()), {con}).(expired := old(expired) + 1)
    {
      StopConnection(con);
      connections := connections - {con};
      expired := expired + 1;
    }

    method DropStale()
      modifies this`connections, this`owned, this`expired
      ensures View() == Swept(old(View()), Stale(old(View())))
    {
      hide Swept, Stale, Drop;
      ghost var was := View();
      ghost var gone: set<Id> := {};
      var todo := connections.Keys;
      SweptNone(was);
      StaleInTable(was);
      while todo != {}
        invariant todo <= was.table.Keys && gone == Stale(was) - todo
        invariant View() == Swept(was, gone)
        decreases |todo|
      {
        var con :| con in todo;
        InStale(was, con);
        SweptOneMore(was, gone, con);
        OneFewer(Stale(was), todo, con);
        todo := todo - {con};
        if clock - connections[con].start > LIMIT {
          DropOne(con);
          gone := gone + {con};
        }
      }
      assert gone == Stale(was);
    }

    method Collect()
      modifies this`connections, this`owned, this`expired, this`pendingWait, this`queuedCancels
      ensures var was := old(View()); var swept := Drop(was, Stale(was)).(expired := was.expired + |Stale(was)|);
              View() == if swept.table != map[] then ScheduleGC(swept) else swept
    {
      hide Stale, ScheduleGC;
      DropStale();
      if connections != map[] {
        ScheduleCollection();
      }
    }

    /** The timer handler, called for a wait that expired. */
    method OnTimer()
      requires Inv(View()) && queuedExpiries > 0
      modifies this
      ensures View() == RunGC(old(View()))
      ensures Inv(View())
    {
      RunGCKeeps(View());
      SameStale(View(), View().(expiries := queuedExpiries - 1));
      hide Inv, Stale, ScheduleGC;
      queuedExpiries := queuedExpiries - 1;
      if !handler {
        return;
      }
      Collect();
    }

    method OnConnectionFinished(id: Id)
      requires Inv(View()) && id in owned
      modifies this
      ensures View() == Finish(old(View()), id)
      ensures Inv(View())
    {
      StepKeeps(View(), ConnectionFinished(id));
      connections := connections - {id};
      StopConnection(id);
      finished := finished + 1;
      if connections == map[] {
        CancelTimer();
      }
    }

    method StopAll()
      modifies this`owned
      ensures owned == old(owned) - connections.Keys
    {
      var todo := connections.Keys;
      while todo != {}
        invariant todo <= connections.Keys && owned == old(owned) - (connections.Keys - todo)
        decreases |todo|
      {
        var con :| con in todo;
        StopConnection(con);
        todo := todo - {con};
      }
    }

    method StopServer()
      requires Inv(View()) && handler
      modifies this
      ensures View() == Stop(old(View()))
      ensures Inv(View()) && connections == map[] && owned == {}
    {
      StepKeeps(View(), ServerStop);
      handler := false;
      CancelTimer();
      StopAll();
      stopped := stopped + |connections|;
      connections := map[];
    }
  }
}
