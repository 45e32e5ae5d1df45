/**
 `Shutdown` called from any number of goroutines while `Run` starts, runs, reloads and stops, as
 interleaved steps. The channel is closed at most once, and once a call of `Shutdown` has
 returned no service is live, then or ever after.
 */
module ShutdownProtocol {

  /** Where the goroutine of `Run` is. */
  datatype RunPc =
    | NotCalled      // Run was not called yet
    | Entered        // counted in the wait group, before the first look at the channel
    | SettingUp      // a service is being built and started, at first or in a reload
    | Looping        // a service runs
    | CleanedUp      // everything is shut down, before the wait group is released
    | Finished

  /** Where a caller of `Shutdown` is. */
  datatype CallerPc = Calling | Waiting | Returned

  datatype World = World(
    run: RunPc,
    onceDone: bool,
    closes: nat,
    waitGroup: int,
    callers: map<nat, CallerPc>)

  const INITIAL := World(NotCalled, false, 0, 0, map[])

  /** A service may be up: it is being built or started, or it runs. */
  ghost predicate Live(w: World) { w.run.SettingUp? || w.run.Looping? }

  ghost predicate SomeReturned(w: World) {
    exists c :: c in w.callers && w.callers[c].Returned?
  }

  datatype Action =
    | CallShutdown(c: nat)
    | CloseOnce(c: nat)       // the body of the once: the first caller closes the channel
    | StopWaiting(c: nat)     // the wait group is at zero
    | EnterRun
    | FindClosed              // the first look finds the channel closed
    | FindOpen
    | SetupSucceeds
    | SetupFails
    | Reload
    | ReloadFails
    | LeaveLoop
    | Release

  predicate Enabled(w: World, a: Action) {
    match a
    case CallShutdown(c) => c !in w.callers
    case CloseOnce(c) => c in w.callers && w.callers[c].Calling?
    case StopWaiting(c) => c in w.callers && w.callers[c].Waiting? && w.waitGroup == 0
    case EnterRun => w.run.NotCalled?
    case FindClosed => w.run.Entered? && w.closes > 0
    case FindOpen => w.run.Entered? && w.closes == 0
    case SetupSucceeds => w.run.SettingUp?
    case SetupFails => w.run.SettingUp?
    case Reload => w.run.Looping?
    case ReloadFails => w.run.Looping?
    case LeaveLoop => w.run.Looping?
    case Release => w.run.CleanedUp?
  }

  function Do(w: World, a: Action): World
    requires Enabled(w, a)
  {
    match a
    case CallShutdown(c) => w.(callers := w.callers[c := Calling])
    case CloseOnce(c) =>
      w.(onceDone := true, closes := if w.onceDone then w.closes else w.closes + 1, callers := w.callers[c := Waiting])
    case StopWaiting(c) => w.(callers := w.callers[c := Returned])
    case EnterRun => w.(run := Entered, waitGroup := w.waitGroup + 1)
    case FindClosed => w.(run := CleanedUp)
    case FindOpen => w.(run := SettingUp)
    case SetupSucceeds => w.(run := Looping)
    case SetupFails => w.(run := CleanedUp)
    case Reload => w.(run := SettingUp)
    case ReloadFails => w.(run := CleanedUp)
    case LeaveLoop => w.(run := CleanedUp)
    case Release => w.(run := Finished, waitGroup := w.waitGroup - 1)
  }

  /** The worlds reached by a sequence of actions, each enabled when it is taken. */
  ghost predicate Reaches(from: World, actions: seq<Action>, to: World)
    decreases |actions|
  {
    if actions == [] then from == to
    else Enabled(from, actions[0]) && Reaches(Do(from, actions[0]), actions[1..], to)
  }

  ghost predicate Inv(w: World) {
    && w.closes == (if w.onceDone then 1 else 0)
    && w.waitGroup == (if w.run.NotCalled? || w.run.Finished? then 0 else 1)
    && (forall c :: c in w.callers && !w.callers[c].Calling? ==> w.onceDone)
    && (SomeReturned(w) ==> !Live(w))
  }

  lemma StepKeepsInv(w: World, a: Action)
    requires Inv(w) && Enabled(w, a)
    ensures Inv(Do(w, a))
    ensures SomeReturned(w) ==> SomeReturned(Do(w, a))
  {
    var w' := Do(w, a);
    if SomeReturned(w) {
      var c :| c in w.callers && w.callers[c].Returned?;
      assert c in w'.callers && w'.callers[c].Returned?;
      assert w.onceDone;
    }
    if SomeReturned(w') && !SomeReturned(w) {
      var c :| c in w'.callers && w'.callers[c].Returned?;
      assert a == StopWaiting(c);
    }
  }

  lemma {:induction false} ReachableKeepsInv(w: World, actions: seq<Action>, w': World)
    requires Inv(w) && Reaches(w, actions, w')
    ensures Inv(w')
    ensures SomeReturned(w) ==> SomeReturned(w')
    decreases |actions|
  {
    hide Inv, SomeReturned;
    if actions != [] {
      StepKeepsInv(w, actions[0]);
      ReachableKeepsInv(Do(w, actions[0]), actions[1..], w');
    }
  }

  lemma StepStaysDown(w: World, a: Action)
    requires w.closes > 0 && !Live(w) && Enabled(w, a)
    ensures Do(w, a).closes > 0 && !Live(Do(w, a))
  {
  }

  /**
   The race between `Shutdown` and the first look of `Run`, over every interleaving: once the
   channel is closed while no service is up, whether `Run` was not called yet, has not looked yet
   or is done, no service is ever built.
   */
  lemma {:induction false} ClosedMeansNeverBuilt(w: World, actions: seq<Action>, w': World)
    requires w.closes > 0 && !Live(w) && Reaches(w, actions, w')
    ensures w'.closes > 0 && !Live(w')
    decreases |actions|
  {
    hide Live;
    if actions != [] {
      StepStaysDown(w, actions[0]);
      ClosedMeansNeverBuilt(Do(w, actions[0]), actions[1..], w');
    }
  }

  /**
   Over every interleaving: the channel is closed at most once; and once some call of `Shutdown`
   has returned, no service is up or being set up, neither then nor after any further steps.
   */
  lemma ShutdownIsFinal(before: seq<Action>, w: World, after: seq<Action>, w': World)
    requires Reaches(INITIAL, before, w) && Reaches(w, after, w')
    ensures w'.closes <= 1
    ensures (exists c :: c in w.callers && w.callers[c] == Returned) ==> w'.run !in {SettingUp, Looping}
  {
    if c :| c in w.callers && w.callers[c] == Returned { assert SomeReturned(w); }
    ReachableKeepsInv(INITIAL, before, w);
    ReachableKeepsInv(w, after, w');
  }

  /** At its first look `Run` finds the channel closed iff the once was done, and open iff not. */
  lemma FirstLook(before: seq<Action>, w: World)
    requires Reaches(INITIAL, before, w) && w.run == Entered
    ensures Enabled(w, FindClosed) <==> w.onceDone
    ensures Enabled(w, FindOpen) <==> !w.onceDone
  {
    ReachableKeepsInv(INITIAL, before, w);
  }

  /** What `Run` still has to do until the wait group is released, when it is not kept in its loop. */
  function RestOfRun(w: World): seq<Action> {
    match w.run
    case NotCalled | Finished => []
    case Entered => if w.closes > 0 then [FindClosed, Release] else [FindOpen, SetupSucceeds, LeaveLoop, Release]
    case SettingUp => [SetupSucceeds, LeaveLoop, Release]
    case Looping => [LeaveLoop, Release]
    case CleanedUp => [Release]
  }

  lemma {:induction false} ReachesFurther(w: World, actions: seq<Action>, w1: World, a: Action)
    requires Reaches(w, actions, w1) && Enabled(w1, a)
    ensures Reaches(w, actions + [a], Do(w1, a))
    decreases |actions|
  {
    hide Enabled;
    if actions == [] {
      assert [] + [a] == [a] && [a][1..] == [];
      assert Reaches(Do(w1, a), [], Do(w1, a));
    } else {
      ReachesFurther(Do(w, actions[0]), actions[1..], w1, a);
      assert (actions + [a])[1..] == actions[1..] + [a];
    }
  }

  lemma RestAdvances(w: World)
    requires RestOfRun(w) != []
    ensures var a := RestOfRun(w)[0];
      Enabled(w, a) && RestOfRun(Do(w, a)) == RestOfRun(w)[1..] && Do(w, a).callers == w.callers
  {
  }

  lemma {:induction false} RunCanFinish(w: World) returns (w': World)
    requires Inv(w)
    ensures Reaches(w, RestOfRun(w), w') && w'.waitGroup == 0 && w'.callers == w.callers
    decreases |RestOfRun(w)|
  {
    w' := w;
    if RestOfRun(w) != [] {
      hide SomeReturned, Enabled;
      var a := RestOfRun(w)[0];
      RestAdvances(w);
      StepKeepsInv(w, a);
      w' := RunCanFinish(Do(w, a));
    }
  }

  /**
   No call of `Shutdown` is stuck: in every reachable world, if `Run` leaves its loop, each call can
   close the channel, or find that it is closed, and return.
   */
  lemma ShutdownCanReturn(before: seq<Action>, w: World, c: nat) returns (actions: seq<Action>, w': World)
    requires Reaches(INITIAL, before, w) && c in w.callers
    ensures Reaches(w, actions, w') && c in w'.callers && w'.callers[c] == Returned && w'.closes == 1
  {
    ReachableKeepsInv(INITIAL, before, w);
    actions, w' := [], w;
    if w.callers[c].Calling? {
      ReachesFurther(w, actions, w', CloseOnce(c));
      StepKeepsInv(w', CloseOnce(c));
      actions, w' := actions + [CloseOnce(c)], Do(w', CloseOnce(c));
    }
    if w'.callers[c].Waiting? {
      var w1 := RunCanFinish(w');
      ReachesAll(w, actions, w', RestOfRun(w'), w1);
      actions := actions + RestOfRun(w');
      w' := w1;
      ReachesFurther(w, actions, w', StopWaiting(c));
      actions, w' := actions + [StopWaiting(c)], Do(w', StopWaiting(c));
    }
    ReachableKeepsInv(w, actions, w');
  }

  lemma {:induction false} ReachesAll(w: World, first: seq<Action>, w1: World, more: seq<Action>, w2: World)
    requires Reaches(w, first, w1) && Reaches(w1, more, w2)
    ensures Reaches(w, first + more, w2)
    decreases |first|
  {
    if first == [] {
      assert [] + more == more;
    } else {
      ReachesAll(Do(w, first[0]), first[1..], w1, more, w2);
      assert (first + more)[1..] == first[1..] + more;
    }
  }
}
