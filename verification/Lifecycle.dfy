/**
 The life of a collector as the trace of its effects, and what it means for a trace to be in
 order: legal states, at most one live service, providers stopped in reverse order of creation.
 */
module Lifecycle {
  import opened Options

  datatype State = Starting | Running | Closing | Closed

  datatype Provider = Logger | Meter | Tracer

  /**
   The effects of a run. Services are numbered in the order in which their creation begins. `Failure`
   notes that a call into other code reported an error.
   */
  datatype Effect =
    | Enter(state: State)
    | Create(p: Provider, service: nat)
    | Stop(p: Provider, service: nat)
    | Built(service: nat)
    | Started(service: nat)
    | Teardown(service: nat)
    | ConfigShutdown
    | Failure

  const ORDER: seq<Provider> := [Logger, Meter, Tracer]

  /** The only changes of state of a run. */
  predicate Legal(from: State, to: State) {
    match from
    case Starting => to.Starting? || to.Running? || to.Closed?
    case Running => to.Closing?
    case Closing => to.Starting? || to.Closed?
    case Closed => false
  }

  /**
   What a trace has led to: how many services were begun; and of the latest one, how many of its
   providers were created and how many are up, whether it was built, is live, and was started. It also
   counts how often the configuration provider was shut down, how often the state became Starting, and
   the errors.
   */
  datatype Monitor = Monitor(
    state: State, begun: nat, created: nat, up: nat, built: bool, live: bool, started: bool,
    configStops: nat, starts: nat, failures: nat)

  const INITIAL := Monitor(Starting, 0, 0, 0, false, false, false, 0, 0, 0)

  /** The effect of one more entry; nothing when the entry is out of order. */
  function Next(m: Monitor, e: Effect): Option<Monitor> {
    match e
    case Enter(s) =>
      if Legal(m.state, s) && (s.Running? ==> m.live && m.started)
      then Some(m.(state := s, starts := m.starts + if s.Starting? then 1 else 0)) else None
    case Create(p, n) =>
      if m.up == 0 && n == m.begun && p == ORDER[0] then
        Some(m.(begun := n + 1, created := 1, up := 1, built := false, live := false, started := false))
      else if 0 < m.up == m.created < 3 && n + 1 == m.begun && p == ORDER[m.up] then
        Some(m.(created := m.created + 1, up := m.up + 1))
      else None
    case Stop(p, n) =>
      if 0 < m.up <= 3 && !m.live && n + 1 == m.begun && p == ORDER[m.up - 1] then Some(m.(up := m.up - 1)) else None
    case Built(n) =>
      if m.up == m.created == 3 && !m.built && n + 1 == m.begun then Some(m.(built := true, live := true)) else None
    case Started(n) =>
      if m.live && !m.started && n + 1 == m.begun then Some(m.(started := true)) else None
    case Teardown(n) =>
      if m.live && !m.state.Running? && n + 1 == m.begun then Some(m.(live := false)) else None
    case ConfigShutdown => Some(m.(configStops := m.configStops + 1))
    case Failure => Some(m.(failures := m.failures + 1))
  }

  function Follow(trace: seq<Effect>): Option<Monitor> {
    if trace == [] then Some(INITIAL)
    else
      var m := Follow(trace[..|trace| - 1]);
      if m.None? then None else Next(m.value, trace[|trace| - 1])
  }

  lemma FollowOneMore(trace: seq<Effect>, e: Effect)
    ensures Follow(trace + [e]) == if Follow(trace).None? then None else Next(Follow(trace).value, e)
  {
    assert (trace + [e])[..|trace|] == trace;
  }

  // ---- what an orderly trace says of each service ----

  function Occurrences(trace: seq<Effect>, e: Effect): nat {
    if trace == [] then 0
    else Occurrences(trace[..|trace| - 1], e) + if trace[|trace| - 1] == e then 1 else 0
  }

  /** The creations and stops of one service, in order. */
  function ProvidersOf(trace: seq<Effect>, n: nat): seq<Effect> {
    if trace == [] then []
    else
      var e := trace[|trace| - 1];
      ProvidersOf(trace[..|trace| - 1], n) + if (e.Create? || e.Stop?) && e.service == n then [e] else []
  }

  /** The first `k` providers, created in order. */
  function Creations(n: nat, k: nat): seq<Effect>
    requires k <= 3
  {
    if k == 0 then [] else Creations(n, k - 1) + [Create(ORDER[k - 1], n)]
  }

  /** The providers from the `k`-th down to the one after the `j`-th, stopped one after the other. */
  function Stops(n: nat, k: nat, j: nat): seq<Effect>
    requires j <= k <= 3
    decreases k - j
  {
    if j == k then [] else Stops(n, k, j + 1) + [Stop(ORDER[j], n)]
  }

  /** Of service `n`, `k` providers were created and all but `j` stopped again, in reverse order. */
  ghost predicate Record(trace: seq<Effect>, n: nat, k: nat, j: nat, built: nat, torn: nat) {
    && j <= k <= 3
    && ProvidersOf(trace, n) == Creations(n, k) + Stops(n, k, j)
    && Occurrences(trace, Built(n)) == built
    && Occurrences(trace, Teardown(n)) == torn
  }

  /** Everything that service `n` created was stopped once, in reverse order; if it was built, it was shut down once. */
  ghost predicate TornDownOnce(trace: seq<Effect>, n: nat) {
    exists k: nat, built: nat :: Record(trace, n, k, 0, built, built) && built <= 1 && (built == 1 ==> k == 3)
  }

  ghost predicate MonitorOk(m: Monitor) {
    && m.up <= m.created <= 3
    && (m.begun == 0 ==> m.up == 0 && !m.built)
    && (m.live ==> m.up == 3 && m.built)
    && (m.built ==> m.created == 3)
    && (0 < m.up == m.created < 3 ==> !m.built)
    && (m.started && m.live ==> m.built)
    && (m.state.Running? ==> m.live && m.started)
  }

  /** An orderly trace accounts for every service: the latest is as the monitor says, the others are torn down. */
  ghost predicate Accounted(trace: seq<Effect>, m: Monitor) {
    && MonitorOk(m)
    && (forall n: nat :: n + 1 < m.begun ==> TornDownOnce(trace, n))
    && (m.begun > 0 ==>
          Record(trace, m.begun - 1, m.created, m.up, if m.built then 1 else 0, if m.built && !m.live then 1 else 0))
    && (forall n: nat :: n >= m.begun ==> Record(trace, n, 0, 0, 0, 0))
  }

  lemma RecordOneMore(trace: seq<Effect>, e: Effect, n: nat)
    ensures ProvidersOf(trace + [e], n) ==
      if (e.Create? || e.Stop?) && e.service == n then ProvidersOf(trace, n) + [e] else ProvidersOf(trace, n)
    ensures Occurrences(trace + [e], Built(n)) == Occurrences(trace, Built(n)) + if e == Built(n) then 1 else 0
    ensures Occurrences(trace + [e], Teardown(n)) == Occurrences(trace, Teardown(n)) + if e == Teardown(n) then 1 else 0
  {
    assert (trace + [e])[..|trace|] == trace;
    assert ProvidersOf(trace, n) + [] == ProvidersOf(trace, n);
  }

  /** An effect of another service leaves the record of service `n` alone. */
  lemma OtherRecord(trace: seq<Effect>, e: Effect, n: nat, k: nat, j: nat, built: nat, torn: nat)
    requires Record(trace, n, k, j, built, torn)
    requires e.Enter? || e.Started? || e.ConfigShutdown? || e.Failure? || e.service != n
    ensures Record(trace + [e], n, k, j, built, torn)
  {
    RecordOneMore(trace, e, n);
  }

  lemma OtherServices(trace: seq<Effect>, m: Monitor, e: Effect, m': Monitor)
    requires Accounted(trace, m) && Next(m, e) == Some(m')
    ensures forall n: nat :: n + 1 < m.begun ==> TornDownOnce(trace + [e], n)
    ensures forall n: nat :: n >= m'.begun ==> Record(trace + [e], n, 0, 0, 0, 0)
  {
    hide Record;
    forall n: nat | n + 1 < m.begun ensures TornDownOnce(trace + [e], n) {
      assert TornDownOnce(trace, n);
      var k: nat, built: nat :| Record(trace, n, k, 0, built, built) && built <= 1 && (built == 1 ==> k == 3);
      OtherRecord(trace, e, n, k, 0, built, built);
    }
    forall n: nat | n >= m'.begun ensures Record(trace + [e], n, 0, 0, 0, 0) {
      OtherRecord(trace, e, n, 0, 0, 0, 0);
    }
  }

  /** The record of the service that an effect is about. */
  lemma OwnRecord(trace: seq<Effect>, m: Monitor, e: Effect, m': Monitor)
    requires Accounted(trace, m) && Next(m, e) == Some(m') && m'.begun > 0
    ensures var built, torn := if m'.built then 1 else 0, if m'.built && !m'.live then 1 else 0;
      Record(trace + [e], m'.begun - 1, m'.created, m'.up, built, torn)
  {
    hide ProvidersOf, Occurrences, Creations, Stops, TornDownOnce;
    if e.Create? {
      OwnCreation(trace, m, e, m');
    } else if e.Stop? {
      OwnStop(trace, m, e, m');
    } else {
      RecordOneMore(trace, e, m'.begun - 1);
    }
  }

  lemma OwnCreation(trace: seq<Effect>, m: Monitor, e: Effect, m': Monitor)
    requires Accounted(trace, m) && Next(m, e) == Some(m') && e.Create?
    ensures Record(trace + [e], m'.begun - 1, m'.created, m'.up, 0, 0) && !m'.built
  {
    hide ProvidersOf, Occurrences, TornDownOnce;
    var n, k := m'.begun - 1, m'.created;
    RecordOneMore(trace, e, n);
    assert Record(trace, n, k - 1, k - 1, 0, 0);
    assert Stops(n, k - 1, k - 1) == [] && Stops(n, k, k) == [];
    assert Creations(n, k - 1) + [] == Creations(n, k - 1);
    assert Creations(n, k) == Creations(n, k - 1) + [e] == Creations(n, k) + [];
  }

  lemma OwnStop(trace: seq<Effect>, m: Monitor, e: Effect, m': Monitor)
    requires Accounted(trace, m) && Next(m, e) == Some(m') && e.Stop?
    ensures var built, torn := if m'.built then 1 else 0, if m'.built && !m'.live then 1 else 0;
      Record(trace + [e], m'.begun - 1, m'.created, m'.up, built, torn)
  {
    hide ProvidersOf, Occurrences, Creations, TornDownOnce;
    var n := m'.begun - 1;
    RecordOneMore(trace, e, n);
    assert Stops(n, m.created, m'.up) == Stops(n, m.created, m.up) + [e];
    var created, stops := Creations(n, m.created), Stops(n, m.created, m.up);
    assert created + (stops + [e]) == created + stops + [e];
  }

  lemma MonitorStep(m: Monitor, e: Effect, m': Monitor)
    requires MonitorOk(m) && Next(m, e) == Some(m')
    ensures MonitorOk(m') && m.begun <= m'.begun <= m.begun + 1
    ensures m'.begun > m.begun ==> e.Create? && e.service == m.begun
  {
  }

  lemma {:induction false} OrderlyIsAccounted(trace: seq<Effect>)
    requires Follow(trace).Some?
    ensures Accounted(trace, Follow(trace).value)
  {
    hide Record, TornDownOnce, Next, MonitorOk;
    if trace == [] {
      NothingYet();
    } else {
      var front, e := trace[..|trace| - 1], trace[|trace| - 1];
      assert trace == front + [e];
      OrderlyIsAccounted(front);
      var m, m' := Follow(front).value, Follow(trace).value;
      MonitorStep(m, e, m');
      OtherServices(front, m, e, m');
      if m'.begun > 0 { OwnRecord(front, m, e, m'); }
      if m'.begun > m.begun > 0 { LatestIsDown(front, m, e); }
    }
  }

  lemma NothingYet()
    ensures Accounted([], INITIAL)
  {
    forall n: nat ensures Record([], n, 0, 0, 0, 0) {
      assert Creations(n, 0) + Stops(n, 0, 0) == [];
    }
  }

  /** When a further service is begun, the one before it is torn down. */
  lemma LatestIsDown(trace: seq<Effect>, m: Monitor, e: Effect)
    requires Accounted(trace, m) && m.begun > 0 && e.Create? && Next(m, e).Some? && e.service == m.begun
    ensures TornDownOnce(trace + [e], m.begun - 1)
  {
    hide Record;
    var built := if m.built then 1 else 0;
    OtherRecord(trace, e, m.begun - 1, m.created, 0, built, built);
  }

  /**
   Exactly-once teardown: after an orderly trace that leaves no provider up, every service that
   was built was shut down exactly once, and everything each service created was stopped
   exactly once, in reverse order of creation.
   */
  lemma EverythingTornDownOnce(trace: seq<Effect>)
    requires Follow(trace).Some? && Follow(trace).value.up == 0
    ensures forall n: nat :: TornDownOnce(trace, n)
  {
    hide Record;
    OrderlyIsAccounted(trace);
    var m := Follow(trace).value;
    forall n: nat ensures TornDownOnce(trace, n) {
      if n + 1 == m.begun {
        var built := if m.built then 1 else 0;
        assert Record(trace, n, m.created, 0, built, built);
      } else if n >= m.begun {
        assert Record(trace, n, 0, 0, 0, 0);
      }
    }
  }

  /** What the monitor counts is what occurs in the trace. */
  lemma {:induction false} CountsAreRight(trace: seq<Effect>)
    requires Follow(trace).Some?
    ensures var m := Follow(trace).value;
      && m.configStops == Occurrences(trace, ConfigShutdown)
      && m.starts == Occurrences(trace, Enter(Starting))
      && m.failures == Occurrences(trace, Failure)
  {
    hide Legal;
    if trace != [] { CountsAreRight(trace[..|trace| - 1]); }
  }

  function LiveChange(e: Effect): int { if e.Built? then 1 else if e.Teardown? then -1 else 0 }

  /** How many services are built and not yet shut down. */
  function LiveServices(trace: seq<Effect>): int {
    if trace == [] then 0
    else
      var e := trace[|trace| - 1];
      LiveServices(trace[..|trace| - 1]) + LiveChange(e)
  }

  lemma LiveStep(m: Monitor, e: Effect, m': Monitor)
    requires MonitorOk(m) && Next(m, e) == Some(m')
    ensures (if m'.live then 1 else 0) == (if m.live then 1 else 0) + LiveChange(e)
  {
  }

  /** At every point of an orderly trace at most one service is live. */
  lemma {:induction false} AtMostOneLive(trace: seq<Effect>, at: nat)
    requires Follow(trace).Some? && at <= |trace|
    ensures Follow(trace[..at]).Some?
    ensures LiveServices(trace[..at]) == (if Follow(trace[..at]).value.live then 1 else 0)
    decreases |trace|
  {
    hide Next, MonitorOk;
    if trace == [] {
      assert trace[..at] == [];
    } else {
      var n := |trace| - 1;
      if at <= n {
        assert trace[..n][..at] == trace[..at];
        AtMostOneLive(trace[..n], at);
      } else {
        assert trace[..at] == trace;
        assert trace[..n][..n] == trace[..n];
        AtMostOneLive(trace[..n], n);
        OrderlyIsAccounted(trace[..n]);
        LiveStep(Follow(trace[..n]).value, trace[n], Follow(trace).value);
      }
    }
  }

  /** In an orderly trace every change of state is legal, and Running is entered only with a started service. */
  lemma StateChanges(trace: seq<Effect>, at: nat)
    requires Follow(trace).Some? && at < |trace| && trace[at].Enter?
    ensures Follow(trace[..at]).Some?
    ensures var m := Follow(trace[..at]).value;
      Legal(m.state, trace[at].state) && (trace[at].state.Running? ==> m.live && m.started)
  {
    AtMostOneLive(trace, at);
    AtMostOneLive(trace, at + 1);
    assert trace[..at + 1][..at] == trace[..at];
  }

  /** While the state is Running, the latest service is live and started. */
  lemma RunningIsLive(trace: seq<Effect>)
    requires Follow(trace).Some? && Follow(trace).value.state.Running?
    ensures Follow(trace).value.live && Follow(trace).value.started
  {
    OrderlyIsAccounted(trace);
  }
}
