/**
 The collector and its service as objects. Every call into other code may fail, or not: the
 outcome is drawn arbitrarily. Their effects are journalled, and the journal stays in order.
 */
module Collector {
  import opened Options
  import opened Lifecycle

  class Journal {
    var begun: nat
    ghost var trace: seq<Effect>
    ghost var m: Monitor

    ghost predicate Valid()
      reads this
    {
      Follow(trace) == Some(m) && MonitorOk(m) && begun == m.begun
    }

    constructor ()
      ensures Valid() && trace == [] && m == INITIAL
    {
      begun, trace, m := 0, [], INITIAL;
    }

    method Emit(e: Effect)
      requires Valid() && Next(m, e).Some?
      modifies this
      ensures Valid() && trace == old(trace) + [e] && Some(m) == Next(old(m), e)
    {
      FollowOneMore(trace, e);
      MonitorStep(m, e, Next(m, e).value);
      if e.Create? && e.p.Logger? {
        begun := begun + 1;
      }
      trace, m := trace + [e], Next(m, e).value;
    }
  }

  class Service {
    const id: nat
    const journal: Journal

    constructor (id: nat, journal: Journal)
      ensures this.id == id && this.journal == journal
    {
      this.id, this.journal := id, journal;
    }

    /**
     `service.New`. A failure at any step leaves nothing of the service up: the cleanups deferred
     so far run last in, first out.
     */
    static method New(journal: Journal) returns (srv: Service?)
      requires journal.Valid() && journal.m.up == 0
      modifies journal
      ensures journal.Valid() && journal.m.state == old(journal.m.state) && journal.m.begun >= old(journal.m.begun)
      ensures Onward(old(journal.m), journal.m, if srv == null then 1 else 0)
      ensures old(journal.trace) <= journal.trace
      ensures srv == null ==> journal.m.up == 0 && !journal.m.live
      ensures srv != null ==>
        && fresh(srv) && srv.journal == journal && journal.m.live && !journal.m.started
        && srv.id == old(journal.m.begun) && journal.m.begun == srv.id + 1
    {
      hide Follow;
      var id := journal.begun;
      var resourceFails: bool := *;
      if resourceFails {
        journal.Emit(Failure);
        return null;
      }
      var deferred: seq<Provider> := [];

      var loggerFails: bool := *;
      if loggerFails {
        journal.Emit(Failure);
        return null;
      }
      journal.Emit(Create(Logger, id));
      deferred := deferred + [Logger];

      var meterFails: bool := *;
      if meterFails {
        journal.Emit(Failure);
        Unwind(journal, id, deferred);
        return null;
      }
      journal.Emit(Create(Meter, id));
      deferred := deferred + [Meter];

      var tracerFails: bool := *;
      if tracerFails {
        journal.Emit(Failure);
        Unwind(journal, id, deferred);
        return null;
      }
      journal.Emit(Create(Tracer, id));
      deferred := deferred + [Tracer];

      var graphFails: bool, extensionsFail: bool, metricsFail: bool := *, *, *;
      if graphFails || extensionsFail || metricsFail {
        journal.Emit(Failure);
        Unwind(journal, id, deferred);
        return null;
      }
      journal.Emit(Built(id));
      srv := new Service(id, journal);
    }

    /** Run the deferred cleanups of a failed creation. */
    static method Unwind(journal: Journal, id: nat, deferred: seq<Provider>)
      requires journal.Valid() && !journal.m.live && id + 1 == journal.m.begun
      requires |deferred| == journal.m.up && deferred <= ORDER
      modifies journal
      ensures journal.Valid() && !journal.m.live && journal.m.up == 0
      ensures journal.m.state == old(journal.m.state) && journal.m.begun == old(journal.m.begun)
      ensures Onward(old(journal.m), journal.m, 0) && old(journal.trace) <= journal.trace
    {
      var i := |deferred|;
      while i > 0
        invariant journal.Valid() && !journal.m.live && journal.m.up == i <= |deferred|
        invariant journal.m.state == old(journal.m.state) && journal.m.begun == old(journal.m.begun)
        invariant Onward(old(journal.m), journal.m, 0) && old(journal.trace) <= journal.trace
      {
        i := i - 1;
        journal.Emit(Stop(deferred[i], id));
      }
    }

    ghost predicate Live()
      reads this, journal
    {
      journal.Valid() && id + 1 == journal.m.begun && journal.m.live
    }

    /** `Start`: four steps, each of which may fail. */
    method Start() returns (failed: bool)
      requires Live() && !journal.m.started
      modifies journal
      ensures Live() && journal.m.started == !failed
      ensures journal.m.state == old(journal.m.state) && journal.m.begun == old(journal.m.begun)
      ensures Onward(old(journal.m), journal.m, if failed then 1 else 0)
      ensures journal.trace == old(journal.trace) + [if failed then Failure else Started(id)]
    {
      var extensionsFail: bool, notifyFails: bool, pipelinesFail: bool, readyFails: bool := *, *, *, *;
      failed := extensionsFail || notifyFails || pipelinesFail || readyFails;
      journal.Emit(if failed then Failure else Started(id));
    }

    /** `Shutdown`: every step is taken whatever the others report; the providers go in reverse order of creation. */
    method Shutdown() returns (failed: bool)
      requires Live() && !journal.m.state.Running?
      modifies journal
      ensures journal.Valid() && !journal.m.live && journal.m.up == 0
      ensures journal.m.state == old(journal.m.state) && journal.m.begun == old(journal.m.begun)
      ensures Onward(old(journal.m), journal.m, if failed then 1 else 0)
      ensures journal.trace == old(journal.trace)
        + [Teardown(id), Stop(Tracer, id), Stop(Meter, id), Stop(Logger, id)] + if failed then [Failure] else []
    {
      failed := *;
      journal.Emit(Teardown(id));
      journal.Emit(Stop(Tracer, id));
      journal.Emit(Stop(Meter, id));
      journal.Emit(Stop(Logger, id));
      if failed {
        journal.Emit(Failure);
      }
    }
  }

  /** From `m` to `m'` there were this many errors; the configuration provider and the state were left alone. */
  ghost predicate Onward(m: Monitor, m': Monitor, errors: nat) {
    m'.configStops == m.configStops && m'.starts == m.starts && m'.failures == m.failures + errors
  }

  /** What the control loop can wake up for. */
  datatype Event =
    | ConfigChanged | WatchFailed | AsyncError | Hangup | Terminate | ShutdownRequested | ContextDone

  /** A change of the configuration, noticed by its provider or signalled with SIGHUP. */
  ghost predicate AsksToReload(e: Event) { e in {ConfigChanged, Hangup} }

  /** An error of the watch or of a component, any other signal, a call of `Shutdown`, or the end of the context. */
  ghost predicate AsksToStop(e: Event) { e in {WatchFailed, AsyncError, Terminate, ShutdownRequested, ContextDone} }

  /**
   How `Run` returns: asked to before it started anything; because the first setup failed, or in a
   reload the shutdown of the retiring service or the new setup; or by a shutdown. `Waiting` means
   that it has not returned when the events are used up.
   */
  datatype Outcome =
    | NeverStarted(failed: bool) | SetupFailed | RetireFailed | ReloadFailed | Stopped(failed: bool) | Waiting
  {
    /** `Run` returned no error. */
    predicate Succeeded() { (NeverStarted? || Stopped?) && !failed }
  }

  class Collector {
    const journal: Journal
    var state: State
    var service: Service?

    ghost predicate Valid()
      reads this, journal
    {
      journal.Valid() && journal.m.state == state
    }

    /** The service is up and running. */
    ghost predicate Up()
      reads this, journal, service
    {
      Valid() && state.Running? && journal.m.started && service != null && service.journal == journal && service.Live()
    }

    /** No service is live, and no provider is up. */
    ghost predicate Down()
      reads this, journal
    {
      Valid() && !journal.m.live && journal.m.up == 0
    }

    constructor ()
      ensures Down() && state == Starting && fresh(journal) && journal.trace == []
    {
      var j := new Journal();
      journal := j;
      state, service := Starting, null;
    }

    method SetState(s: State)
      requires Valid() && Next(journal.m, Enter(s)).Some?
      modifies this`state, journal
      ensures Valid() && state == s && Some(journal.m) == Next(old(journal.m), Enter(s))
      ensures journal.trace == old(journal.trace) + [Enter(s)]
    {
      state := s;
      journal.Emit(Enter(s));
    }

    /**
     `setupConfigurationComponents`: fails iff a call reports an error; a service that fails to start
     is shut down at once.
     */
    method Setup() returns (failed: bool)
      requires Down() && (state.Starting? || state.Closing?)
      modifies this, journal
      ensures if failed then Down() && state.Starting? else Up() && journal.m.begun == old(journal.m.begun) + 1
      ensures journal.m.configStops == old(journal.m.configStops) && journal.m.starts == old(journal.m.starts) + 1
      ensures failed <==> journal.m.failures > old(journal.m.failures)
      ensures failed || journal.m.failures == old(journal.m.failures)
      ensures old(journal.trace) + [Enter(Starting)] <= journal.trace
    {
      hide Follow, MonitorOk;
      SetState(Starting);
      var factoriesFail: bool, getFails: bool, invalid: bool, marshalFails: bool := *, *, *, *;
      if factoriesFail || getFails || invalid || marshalFails {
        journal.Emit(Failure);
        return true;
      }
      service := Service.New(journal);
      if service == null {
        return true;
      }
      var startFails := service.Start();
      if startFails {
        var _ := service.Shutdown();
        return true;
      }
      SetState(Running);
      return false;
    }

    /**
     `reloadConfiguration`: fails iff a call reports an error. The retiring service goes down first,
     and nothing new is begun when that failed.
     */
    method Reload() returns (retireFailed: bool, setupFailed: bool)
      requires Up()
      modifies this, journal
      ensures if retireFailed || setupFailed then Down() else Up()
      ensures retireFailed ==> !setupFailed && state.Closing? && journal.m.begun == old(journal.m.begun)
      ensures setupFailed ==> state.Starting?
      ensures !retireFailed && !setupFailed ==> journal.m.begun == old(journal.m.begun) + 1
      ensures retireFailed || setupFailed <==> journal.m.failures > old(journal.m.failures)
      ensures retireFailed || setupFailed || journal.m.failures == old(journal.m.failures)
      ensures journal.m.configStops == old(journal.m.configStops)
      ensures journal.m.starts == old(journal.m.starts) + if retireFailed then 0 else 1
      ensures old(journal.trace) + [Enter(Closing), Teardown(old(service).id)] <= journal.trace
    {
      SetState(Closing);
      var shutdownFails := service.Shutdown();
      if shutdownFails {
        return true, false;
      }
      var setupFails := Setup();
      return false, setupFails;
    }

    /** `shutdown`: the configuration provider and then the service are shut down, whatever fails. */
    method ShutdownAll() returns (failed: bool)
      requires Up()
      modifies this, journal
      ensures Down() && state.Closed?
      ensures journal.m.configStops == old(journal.m.configStops) + 1 && journal.m.starts == old(journal.m.starts)
      ensures failed <==> journal.m.failures > old(journal.m.failures)
      ensures failed || journal.m.failures == old(journal.m.failures)
      ensures old(journal.trace) + [Enter(Closing), ConfigShutdown] <= journal.trace
    {
      SetState(Closing);
      var configFails: bool := *;
      journal.Emit(ConfigShutdown);
      if configFails {
        journal.Emit(Failure);
      }
      var serviceFails := service.Shutdown();
      SetState(Closed);
      failed := configFails || serviceFails;
    }

    /**
     `Run`, for every sequence of events and every choice of failures. When it returns, nothing is
     left up, every service built was shut down once and everything created was stopped once in
     reverse order; it returns no error iff no call reported one, and then the state is Closed; and if
     a shutdown was requested before the first look at the channel, nothing is ever created. `handled`
     is the number of events looked at: it reloads at those that ask for it, and stops at the first
     that does not. A reload that fails leaves the state at Closing or Starting, by the step that
     failed, and every other return at Closed. The configuration provider is shut down once, except
     when a setup or reload fails: then it is left as it is.
     */
    method Run(shutdownRequested: bool, events: seq<Event>) returns (outcome: Outcome, ghost handled: nat)
      requires Down() && state == Starting && journal.trace == []
      modifies this, journal
      ensures Valid()
      ensures outcome.Waiting? ==> Up()
      ensures !outcome.Waiting? ==> Down() && (forall n: nat :: TornDownOnce(journal.trace, n))
      ensures outcome.Waiting? || outcome.Succeeded() <==> Occurrences(journal.trace, Failure) == 0
      ensures state ==
        match outcome
        case Waiting => Running
        case RetireFailed => Closing
        case ReloadFailed => Starting
        case NeverStarted(_) | SetupFailed | Stopped(_) => Closed
      ensures Occurrences(journal.trace, ConfigShutdown) == if outcome.NeverStarted? || outcome.Stopped? then 1 else 0
      ensures outcome.NeverStarted? <==> shutdownRequested
      ensures shutdownRequested ==>
        forall n: nat :: ProvidersOf(journal.trace, n) == [] && Occurrences(journal.trace, Built(n)) == 0
      ensures handled <= |events| && forall i :: 0 <= i < handled - 1 ==> AsksToReload(events[i])
      ensures outcome.NeverStarted? || outcome.SetupFailed? ==> handled == 0
      ensures outcome.Stopped? ==> handled > 0 && AsksToStop(events[handled - 1])
      ensures outcome.RetireFailed? || outcome.ReloadFailed? ==> handled > 0 && AsksToReload(events[handled - 1])
      ensures outcome.Waiting? ==> handled == |events| && forall i :: 0 <= i < handled ==> AsksToReload(events[i])
      ensures Occurrences(journal.trace, Enter(Starting)) ==
        match outcome
        case NeverStarted(_) => 0
        case SetupFailed => 1
        case RetireFailed | Stopped(_) => handled
        case ReloadFailed | Waiting => handled + 1
    {
      hide TornDownOnce, ProvidersOf, Occurrences, Follow, MonitorOk;
      AtFirst();
      handled := 0;
      if shutdownRequested {
        SetState(Closed);
        journal.Emit(ConfigShutdown);
        NothingCreated(journal.trace);
        var configFails: bool := *;
        if configFails {
          NothingMore(journal.trace);
          journal.Emit(Failure);
        }
        CountsAreRight(journal.trace);
        return NeverStarted(configFails), 0;
      }

      var setupFails := Setup();
      if setupFails {
        SetState(Closed);
        AfterRun();
        return SetupFailed, 0;
      }

      for i := 0 to |events|
        invariant Up() && journal.m.configStops == 0 && journal.m.failures == 0
        invariant handled == i && journal.m.starts == i + 1 && forall j :: 0 <= j < i ==> AsksToReload(events[j])
      {
        handled := i + 1;
        match events[i] {
          case ConfigChanged | Hangup =>
            var retireFails, reloadFails := Reload();
            if retireFails || reloadFails {
              AfterRun();
              return if retireFails then RetireFailed else ReloadFailed, handled;
            }
          case WatchFailed | AsyncError | Terminate | ShutdownRequested | ContextDone =>
            var failed := ShutdownAll();
            AfterRun();
            return Stopped(failed), handled;
        }
      }
      CountsAreRight(journal.trace);
      outcome := Waiting;
    }

    lemma AtFirst()
      requires Down() && journal.trace == []
      ensures journal.m == INITIAL
    {
    }

    lemma AfterRun()
      requires Down()
      ensures forall n: nat :: TornDownOnce(journal.trace, n)
      ensures Occurrences(journal.trace, ConfigShutdown) == journal.m.configStops
      ensures Occurrences(journal.trace, Enter(Starting)) == journal.m.starts
      ensures Occurrences(journal.trace, Failure) == journal.m.failures
    {
      hide TornDownOnce, Occurrences;
      EverythingTornDownOnce(journal.trace);
      CountsAreRight(journal.trace);
    }
  }

  lemma NothingCreated(trace: seq<Effect>)
    requires trace == [Enter(Closed), ConfigShutdown]
    ensures forall n: nat :: TornDownOnce(trace, n)
    ensures forall n: nat :: ProvidersOf(trace, n) == [] && Occurrences(trace, Built(n)) == 0
  {
    var t1 := [Enter(Closed)];
    assert trace == t1 + [ConfigShutdown] && t1 == [] + [Enter(Closed)];
    FollowOneMore([], Enter(Closed));
    FollowOneMore(t1, ConfigShutdown);
    EverythingTornDownOnce(trace);
    forall n: nat ensures ProvidersOf(trace, n) == [] && Occurrences(trace, Built(n)) == 0 {
      RecordOneMore([], Enter(Closed), n);
      RecordOneMore(t1, ConfigShutdown, n);
    }
  }

  /** An error after that creates nothing either. */
  lemma NothingMore(trace: seq<Effect>)
    requires trace == [Enter(Closed), ConfigShutdown]
    ensures forall n: nat :: TornDownOnce(trace + [Failure], n)
    ensures forall n: nat ::
      ProvidersOf(trace + [Failure], n) == [] && Occurrences(trace + [Failure], Built(n)) == 0
  {
    NothingCreated(trace);
    FollowOneMore([], Enter(Closed));
    FollowOneMore([Enter(Closed)], ConfigShutdown);
    assert trace == [Enter(Closed)] + [ConfigShutdown] && [Enter(Closed)] == [] + [Enter(Closed)];
    FollowOneMore(trace, Failure);
    EverythingTornDownOnce(trace + [Failure]);
    forall n: nat
      ensures ProvidersOf(trace + [Failure], n) == [] && Occurrences(trace + [Failure], Built(n)) == 0
    {
      RecordOneMore(trace, Failure, n);
    }
  }
}
