/**
 What the commands leave on disk: installed records, saved histories, layers in
 both formats and the log of update transactions. A command is a list of events,
 one for each point it can stop at, so a run with failures is a list of events too.
 */
module StoreEvents {

  datatype Application = Application(
    id: string, origin: string, version: string,
    branch: string, commit: string, release: string,
    layers: seq<string>, dependencies: seq<string>)

  /** An update or a rollback on its way, filed under the record it replaces. */
  datatype Transaction = Transaction(previous: Application, updated: Application, committed: bool)

  datatype State = State(
    apps: map<string, Application>,
    history: map<string, seq<Application>>,
    // Layer repositories, and whether a state was committed to each.
    repositories: map<string, bool>,
    // Layer directories of the previous storage format.
    legacy: set<string>,
    pending: map<string, Transaction>)

  /** How far an update, a rollback or the recovery of one transaction came. */
  datatype Stage = Begun | Saved | Lost | Swapped | Replaced | Committed | Popped | Finished

  datatype Event =
    | Pulls(repositories: map<string, bool>)
    | Installs(app: Application)
    | Updates(id: string, next: Application, stage: Stage)
    | RollsBack(id: string, stage: Stage)
    | Recovers(key: string, stage: Stage)
    | Removes(app: Application, gone: set<string>, cleared: bool, dropped: set<string>, droppedLegacy: set<string>)
    | Collects(kept: set<string>, dropped: set<string>, droppedLegacy: set<string>)
    | Migrates(repositories: map<string, bool>, legacy: set<string>)

  const HISTORY_LIMIT := 3

  /** The last entries of a list, no more than the limit. */
  function Recent(apps: seq<Application>): (r: seq<Application>)
    ensures |r| <= HISTORY_LIMIT
    ensures forall a | a in r :: a in apps
  {
    if |apps| > HISTORY_LIMIT then apps[|apps| - HISTORY_LIMIT..] else apps
  }

  // ---------- layers and what needs them ----------

  predicate StoredIn(repositories: map<string, bool>, legacy: set<string>, layer: string)
  {
    (layer in repositories && repositories[layer]) || layer in legacy
  }

  ghost predicate CompleteIn(repositories: map<string, bool>, legacy: set<string>, app: Application)
  {
    forall l | l in app.layers :: StoredIn(repositories, legacy, l)
  }

  ghost predicate Complete(s: State, app: Application) { CompleteIn(s.repositories, s.legacy, app) }

  predicate Stored(s: State, layer: string) { StoredIn(s.repositories, s.legacy, layer) }

  /** The layers a set of records and histories names. */
  ghost predicate Needs(apps: map<string, Application>, history: map<string, seq<Application>>, layer: string)
  {
    || (exists id :: id in apps && layer in apps[id].layers)
    || (exists origin, a :: origin in history && a in history[origin] && layer in a.layers)
  }

  function HistoryOf(s: State, origin: string): seq<Application>
  {
    if origin in s.history then s.history[origin] else []
  }

  // ---------- events ----------

  /** One record in place of another. */
  function Put(apps: map<string, Application>, id: string, next: Application): map<string, Application>
  {
    (apps - {id})[next.id := next]
  }

  /** The stages an update stops at: begun, saved to the history, replaced, committed, finished; or its record lost. */
  function AfterUpdate(s: State, id: string, next: Application, stage: Stage): State
    requires id in s.apps
  {
    var app := s.apps[id];
    var log, open, done := s.pending, Transaction(app, next, false), Transaction(app, next, true);
    var saved := s.history[app.origin := Recent(HistoryOf(s, app.origin) + [app])];
    match stage
    case Begun => s.(pending := log[id := open])
    case Saved => s.(pending := log[id := open], history := saved)
    case Lost => s.(pending := log[id := open], history := saved, apps := s.apps - {id})
    case Replaced => s.(pending := log[id := open], history := saved, apps := Put(s.apps, id, next))
    case Committed => s.(pending := log[id := done], history := saved, apps := Put(s.apps, id, next))
    case _ => s.(pending := log - {id}, history := saved, apps := Put(s.apps, id, next))
  }

  /** The same for a rollback, which shortens the history only at the end. */
  function AfterRollback(s: State, id: string, stage: Stage): State
    requires id in s.apps && HistoryOf(s, s.apps[id].origin) != []
  {
    var app := s.apps[id];
    var saved := HistoryOf(s, app.origin);
    var next := saved[|saved| - 1];
    var log, open, done := s.pending, Transaction(app, next, false), Transaction(app, next, true);
    var shorter := s.history[app.origin := saved[..|saved| - 1]];
    match stage
    case Begun => s.(pending := log[id := open])
    case Lost => s.(pending := log[id := open], apps := s.apps - {id})
    case Replaced => s.(pending := log[id := open], apps := Put(s.apps, id, next))
    case Committed => s.(pending := log[id := done], apps := Put(s.apps, id, next))
    case Popped => s.(pending := log[id := done], apps := Put(s.apps, id, next), history := shorter)
    case _ => s.(pending := log - {id}, apps := Put(s.apps, id, next), history := shorter)
  }

  /**
   Recovery of one transaction: a committed one is dropped, and of another the
   previous record is put back. When storing that fails, the updated record is
   stored instead, and when that fails too neither is there.
   */
  function AfterRecovery(s: State, key: string, stage: Stage): State
    requires key in s.pending
  {
    var t := s.pending[key];
    if t.committed then s.(pending := s.pending - {key})
    else
      match stage
      case Lost => s.(apps := s.apps - {t.updated.id})
      case Swapped => s.(apps := s.apps[t.updated.id := t.updated])
      case Replaced => s.(apps := Put(s.apps, t.updated.id, t.previous))
      case _ => s.(apps := Put(s.apps, t.updated.id, t.previous), pending := s.pending - {key})
  }

  ghost predicate Enabled(s: State, e: Event)
  {
    match e
    case Pulls(repositories) => Grows(s.repositories, repositories)
    case Installs(app) => Complete(s, app)
    case Updates(id, next, stage) =>
      && id in s.apps && next.origin == s.apps[id].origin && Complete(s, next)
      && !stage.Swapped? && !stage.Popped? && (stage.Lost? ==> id != next.id)
    case RollsBack(id, stage) =>
      && id in s.apps && HistoryOf(s, s.apps[id].origin) != []
      && !stage.Swapped? && !stage.Saved?
      && (stage.Lost? ==> id != HistoryOf(s, s.apps[id].origin)[|HistoryOf(s, s.apps[id].origin)| - 1].id)
    case Recovers(key, stage) =>
      && key in s.pending && (s.pending[key].committed ==> stage.Finished?)
      && (stage.Lost? || stage.Swapped? || stage.Replaced? || stage.Finished?)
      && (stage.Lost? || stage.Swapped? ==> s.pending[key].previous.id != s.pending[key].updated.id)
    case Removes(app, gone, cleared, dropped, droppedLegacy) =>
      && (!cleared ==> dropped == {} && droppedLegacy == {})
      && (forall l | l in dropped + droppedLegacy ::
            l in app.layers && !Needs(s.apps - gone, s.history - {app.origin}, l))
    case Collects(kept, dropped, droppedLegacy) =>
      && (forall l | Needs(s.apps, s.history, l) :: l in kept)
      && dropped !! kept
      && (forall l | l in droppedLegacy && l in kept :: l in s.repositories && s.repositories[l])
    case Migrates(repositories, legacy) =>
      forall l | Stored(s, l) :: StoredIn(repositories, legacy, l)
  }

  /** Nothing that was committed is lost. */
  ghost predicate Grows(before: map<string, bool>, after: map<string, bool>)
  {
    forall l | l in before && before[l] :: l in after && after[l]
  }

  function After(s: State, e: Event): State
  {
    match e
    case Pulls(repositories) => s.(repositories := repositories)
    case Installs(app) => s.(apps := s.apps[app.id := app])
    case Updates(id, next, stage) => if id in s.apps then AfterUpdate(s, id, next, stage) else s
    case RollsBack(id, stage) =>
      if id in s.apps && HistoryOf(s, s.apps[id].origin) != [] then AfterRollback(s, id, stage) else s
    case Recovers(key, stage) => if key in s.pending then AfterRecovery(s, key, stage) else s
    case Removes(app, gone, cleared, dropped, droppedLegacy) =>
      s.(apps := s.apps - gone, history := if cleared then s.history - {app.origin} else s.history,
         repositories := s.repositories - dropped, legacy := s.legacy - droppedLegacy)
    case Collects(kept, dropped, droppedLegacy) =>
      s.(repositories := s.repositories - dropped, legacy := s.legacy - droppedLegacy)
    case Migrates(repositories, legacy) => s.(repositories := repositories, legacy := legacy)
  }

  // ---------- runs ----------

  /** The states a store goes through, with the event between each and the next. */
  datatype Run = Run(states: seq<State>, events: seq<Event>)

  ghost predicate Step(run: Run, i: nat)
    requires i < |run.events| && i + 1 < |run.states|
  {
    Enabled(run.states[i], run.events[i]) && run.states[i + 1] == After(run.states[i], run.events[i])
  }

  ghost predicate IsRun(run: Run)
  {
    |run.states| == |run.events| + 1 && forall i | 0 <= i < |run.events| :: Step(run, i)
  }

  /** The run leads from the one state to the other. */
  ghost predicate Leads(run: Run, s: State, t: State)
  {
    IsRun(run) && run.states[0] == s && run.states[|run.events|] == t
  }

  ghost function Start(s: State): Run { Run([s], []) }

  /** One more event. */
  ghost function Extended(run: Run, e: Event): Run
    requires run.states != []
  {
    Run(run.states + [After(run.states[|run.states| - 1], e)], run.events + [e])
  }

  lemma StartLeads(s: State)
    ensures Leads(Start(s), s, s)
  {
  }

  lemma ExtendedLeads(run: Run, s: State, t: State, e: Event)
    requires Leads(run, s, t) && Enabled(t, e)
    ensures Leads(Extended(run, e), s, After(t, e))
  {
    var longer := Extended(run, e);
    forall i | 0 <= i < |longer.events|
      ensures Step(longer, i)
    {
      if i < |run.events| {
        assert Step(run, i);
        assert longer.states[i] == run.states[i] && longer.states[i + 1] == run.states[i + 1]
               && longer.events[i] == run.events[i];
      }
    }
  }

  /** One run after another. */
  ghost function Joined(first: Run, more: Run): Run
    requires more.states != []
  {
    Run(first.states + more.states[1..], first.events + more.events)
  }

  lemma JoinedLeads(first: Run, more: Run, s: State, t: State, u: State)
    requires Leads(first, s, t) && Leads(more, t, u)
    ensures Leads(Joined(first, more), s, u)
  {
    var run, n := Joined(first, more), |first.events|;
    forall i | 0 <= i < |run.events|
      ensures Step(run, i)
    {
      if i < n {
        assert Step(first, i);
        assert run.states[i] == first.states[i] && run.states[i + 1] == first.states[i + 1]
               && run.events[i] == first.events[i];
      } else {
        var k := i - n;
        assert Step(more, k);
        assert run.states[i] == more.states[k] && run.states[i + 1] == more.states[k + 1]
               && run.events[i] == more.events[k];
      }
    }
  }

  lemma TwoEvents(s: State, a: Event, b: Event) returns (run: Run)
    requires Enabled(s, a) && Enabled(After(s, a), b)
    ensures Leads(run, s, After(After(s, a), b)) && run.events == [a, b]
  {
    StartLeads(s);
    run := Extended(Start(s), a);
    ExtendedLeads(Start(s), s, s, a);
    ExtendedLeads(run, s, After(s, a), b);
    run := Extended(run, b);
  }

  lemma ThreeEvents(s: State, a: Event, b: Event, c: Event) returns (run: Run)
    requires Enabled(s, a) && Enabled(After(s, a), b) && Enabled(After(After(s, a), b), c)
    ensures Leads(run, s, After(After(After(s, a), b), c)) && run.events == [a, b, c]
  {
    run := TwoEvents(s, a, b);
    ExtendedLeads(run, s, After(After(s, a), b), c);
    run := Extended(run, c);
  }

  // ---------- what every run keeps ----------

  /** A bounded history of one origin, every entry of which is complete. */
  ghost predicate Restorable(repositories: map<string, bool>, legacy: set<string>, origin: string,
                             saved: seq<Application>)
  {
    |saved| <= HISTORY_LIMIT && forall a | a in saved :: a.origin == origin && CompleteIn(repositories, legacy, a)
  }

  /** Every layer an installed application or a saved one names is in the store. */
  ghost predicate Whole(s: State)
  {
    && (forall id | id in s.apps :: s.apps[id].id == id && Complete(s, s.apps[id]))
    && (forall origin | origin in s.history :: Restorable(s.repositories, s.legacy, origin, s.history[origin]))
  }

  /** A record that recovery of an open transaction can put back. */
  predicate MayReturn(t: Transaction, app: Application)
  {
    !t.committed && (app == t.previous || (app == t.updated && t.previous.id != t.updated.id))
  }

  /** Every record that recovery can put back is complete. */
  ghost predicate Recoverable(s: State)
  {
    forall key, app | key in s.pending && MayReturn(s.pending[key], app) :: Complete(s, app)
  }

  ghost predicate Sound(s: State) { Whole(s) && Recoverable(s) }

  /** An open transaction names the layer. */
  ghost predicate Wanted(s: State, layer: string)
  {
    exists key, app :: key in s.pending && MayReturn(s.pending[key], app) && layer in app.layers
  }

  /**
   What a caller can look up before removing or collecting: nothing the event
   takes is named by an open transaction.
   */
  ghost predicate Guarded(s: State, e: Event)
  {
    forall l | Stored(s, l) && !Stored(After(s, e), l) :: !Wanted(s, l)
  }

  /** Recovery of one transaction keeps the store whole exactly when the record it puts back is complete. */
  lemma RestoringKeepsWhole(s: State, key: string)
    requires Whole(s) && Enabled(s, Recovers(key, Finished)) && !s.pending[key].committed
    ensures Whole(After(s, Recovers(key, Finished))) <==> Complete(s, s.pending[key].previous)
  {
    var t, after := s.pending[key], After(s, Recovers(key, Finished));
    assert t.previous.id in after.apps && after.apps[t.previous.id] == t.previous;
  }

  /** Whichever transaction is recovered, and however far that comes, the store is whole afterwards. */
  ghost predicate RecoveryIsSafe(s: State)
  {
    forall key, stage | Enabled(s, Recovers(key, stage)) :: Whole(After(s, Recovers(key, stage)))
  }

  /** Recovery keeps the store whole whatever it comes to, exactly when every record it can put back is complete. */
  lemma RecoveryKeepsWhole(s: State)
    requires Whole(s)
    ensures RecoveryIsSafe(s) <==> Recoverable(s)
  {
    if Recoverable(s) {
      forall key, stage | Enabled(s, Recovers(key, stage))
        ensures Whole(After(s, Recovers(key, stage)))
      {
        RecoveredIsWhole(s, key, stage);
      }
    } else {
      var key, app :| key in s.pending && MayReturn(s.pending[key], app) && !Complete(s, app);
      RecoveryBreaks(s, key, app);
    }
  }

  lemma RecoveredIsWhole(s: State, key: string, stage: Stage)
    requires Whole(s) && Recoverable(s) && Enabled(s, Recovers(key, stage))
    ensures Whole(After(s, Recovers(key, stage)))
  {
    var t := s.pending[key];
    assert !t.committed ==> MayReturn(t, t.previous) && Complete(s, t.previous);
    assert !t.committed && t.previous.id != t.updated.id ==> MayReturn(t, t.updated) && Complete(s, t.updated);
  }

  lemma RecoveryBreaks(s: State, key: string, app: Application)
    requires Whole(s) && key in s.pending && MayReturn(s.pending[key], app) && !Complete(s, app)
    ensures exists stage :: Enabled(s, Recovers(key, stage)) && !Whole(After(s, Recovers(key, stage)))
  {
    var t := s.pending[key];
    var stage := if app == t.previous then Finished else Swapped;
    var after := After(s, Recovers(key, stage));
    assert Enabled(s, Recovers(key, stage));
    assert app.id in after.apps && after.apps[app.id] == app && !Complete(after, app);
  }

  // ---------- one event ----------

  /** The event takes nothing away that its outcome still needs. */
  lemma TakesOnlyUnneeded(s: State, e: Event)
    requires Enabled(s, e)
    ensures forall l | Stored(s, l) && Needs(After(s, e).apps, After(s, e).history, l) :: Stored(After(s, e), l)
  {
    var t := After(s, e);
    forall l | Stored(s, l) && Needs(t.apps, t.history, l)
      ensures Stored(t, l)
    {
      if e.Removes? && e.cleared {
        assert t.apps == s.apps - e.gone && t.history == s.history - {e.app.origin};
        assert l !in e.dropped + e.droppedLegacy;
      }
    }
  }

  /** Records of the outcome were complete before it. */
  ghost predicate Carried(s: State, t: State)
  {
    && (forall id | id in t.apps :: t.apps[id].id == id && Complete(s, t.apps[id]))
    && (forall origin | origin in t.history :: Restorable(s.repositories, s.legacy, origin, t.history[origin]))
  }

  lemma CarriedIsWhole(s: State, t: State)
    requires Carried(s, t)
    requires forall l | Stored(s, l) && Needs(t.apps, t.history, l) :: Stored(t, l)
    ensures Whole(t)
  {
    forall id | id in t.apps
      ensures Complete(t, t.apps[id])
    {
      forall l | l in t.apps[id].layers ensures Stored(t, l) { assert Needs(t.apps, t.history, l); }
    }
    forall origin, a | origin in t.history && a in t.history[origin]
      ensures a.origin == origin && Complete(t, a)
    {
      assert Restorable(s.repositories, s.legacy, origin, t.history[origin]);
      forall l | l in a.layers ensures Stored(t, l) { assert Needs(t.apps, t.history, l); }
    }
  }

  lemma SavedIsRestorable(s: State, app: Application)
    requires Whole(s) && Complete(s, app)
    ensures Restorable(s.repositories, s.legacy, app.origin, Recent(HistoryOf(s, app.origin) + [app]))
  {
  }

  lemma ShorterIsRestorable(s: State, origin: string)
    requires Whole(s) && HistoryOf(s, origin) != []
    ensures var saved := HistoryOf(s, origin);
            && saved[|saved| - 1].origin == origin && Complete(s, saved[|saved| - 1])
            && Restorable(s.repositories, s.legacy, origin, saved[..|saved| - 1])
  {
    assert Restorable(s.repositories, s.legacy, origin, s.history[origin]);
  }

  lemma UpdateCarries(s: State, id: string, next: Application, stage: Stage)
    requires Whole(s) && Enabled(s, Updates(id, next, stage))
    ensures Carried(s, AfterUpdate(s, id, next, stage))
  {
    SavedIsRestorable(s, s.apps[id]);
  }

  lemma RollbackCarries(s: State, id: string, stage: Stage)
    requires Whole(s) && Enabled(s, RollsBack(id, stage))
    ensures Carried(s, AfterRollback(s, id, stage))
  {
    ShorterIsRestorable(s, s.apps[id].origin);
  }

  /** A command other than recovery keeps a whole store whole, wherever it stops. */
  lemma CommandKeepsWhole(s: State, e: Event)
    requires Whole(s) && Enabled(s, e) && !e.Recovers?
    ensures Whole(After(s, e))
  {
    TakesOnlyUnneeded(s, e);
    match e {
      case Updates(id, next, stage) => UpdateCarries(s, id, next, stage);
      case RollsBack(id, stage) => RollbackCarries(s, id, stage);
      case _ =>
    }
    CarriedIsWhole(s, After(s, e));
  }

  lemma EventKeepsWhole(s: State, e: Event)
    requires Sound(s) && Enabled(s, e)
    ensures Whole(After(s, e))
  {
    if e.Recovers? {
      RecoveredIsWhole(s, e.key, e.stage);
    } else {
      CommandKeepsWhole(s, e);
    }
  }

  /** Every record an open transaction of the outcome may put back is complete in the store. */
  ghost predicate ReturningComplete(s: State, pending: map<string, Transaction>)
  {
    forall key, app | key in pending && MayReturn(pending[key], app) :: Complete(s, app)
  }

  lemma LoggedIsComplete(s: State, id: string, t: Transaction)
    requires Recoverable(s) && (!t.committed ==> Complete(s, t.previous) && Complete(s, t.updated))
    ensures ReturningComplete(s, s.pending[id := t]) && ReturningComplete(s, s.pending - {id})
  {
  }

  lemma ReturningWereComplete(s: State, e: Event)
    requires Sound(s) && Enabled(s, e)
    ensures ReturningComplete(s, After(s, e).pending)
  {
    match e
    case Updates(id, next, stage) =>
      LoggedIsComplete(s, id, Transaction(s.apps[id], next, false));
      LoggedIsComplete(s, id, Transaction(s.apps[id], next, true));
    case RollsBack(id, stage) =>
      var saved := HistoryOf(s, s.apps[id].origin);
      ShorterIsRestorable(s, s.apps[id].origin);
      LoggedIsComplete(s, id, Transaction(s.apps[id], saved[|saved| - 1], false));
      LoggedIsComplete(s, id, Transaction(s.apps[id], saved[|saved| - 1], true));
    case Recovers(key, stage) =>
      LoggedIsComplete(s, key, s.pending[key].(committed := true));
    case _ =>
  }

  lemma RecoverableUnlessTaken(s: State, e: Event)
    requires Sound(s) && Enabled(s, e) && Guarded(s, e)
    requires e.Removes? || e.Collects?
    ensures Recoverable(After(s, e))
  {
    var t := After(s, e);
    forall key, app | key in t.pending && MayReturn(t.pending[key], app)
      ensures Complete(t, app)
    {
      assert Complete(s, app);
      forall l | l in app.layers ensures Stored(t, l) { assert Wanted(s, l); }
    }
  }

  /** An event leaves the store recoverable exactly when it takes no layer that an open transaction names. */
  lemma EventKeepsRecoverable(s: State, e: Event)
    requires Sound(s) && Enabled(s, e)
    ensures Recoverable(After(s, e)) <==> Guarded(s, e)
  {
    var t := After(s, e);
    ReturningWereComplete(s, e);
    if e.Removes? || e.Collects? {
      if Guarded(s, e) {
        RecoverableUnlessTaken(s, e);
      } else {
        var l :| Stored(s, l) && !Stored(t, l) && Wanted(s, l);
        var key, app :| key in s.pending && MayReturn(s.pending[key], app) && l in app.layers;
        assert key in t.pending && MayReturn(t.pending[key], app) && !Complete(t, app);
      }
    } else {
      NothingTaken(s, e);
      forall key, app | key in t.pending && MayReturn(t.pending[key], app)
        ensures Complete(t, app)
      {
        assert Complete(s, app);
      }
    }
  }

  lemma NothingTaken(s: State, e: Event)
    requires Enabled(s, e) && !e.Removes? && !e.Collects?
    ensures forall l | Stored(s, l) :: Stored(After(s, e), l)
  {
  }

  // ---------- every run ----------

  /** Every removal and every collection of the run was guarded. */
  ghost predicate GuardedRun(run: Run)
    requires IsRun(run)
  {
    forall i | 0 <= i < |run.events| :: Guarded(run.states[i], run.events[i])
  }

  /**
   Over every run of commands, each of which may stop at any of its points: as
   long as nothing an open transaction names was taken, every layer an installed
   or a saved application names is stored, and recovery keeps it so.
   */
  lemma {:induction false} RunKeepsSound(run: Run, i: nat)
    requires IsRun(run) && Sound(run.states[0]) && GuardedRun(run) && i < |run.states|
    ensures Sound(run.states[i])
  {
    if i > 0 {
      RunKeepsSound(run, i - 1);
      var k := i - 1;
      assert Step(run, k) && Guarded(run.states[k], run.events[k]);
      EventKeepsWhole(run.states[k], run.events[k]);
      EventKeepsRecoverable(run.states[k], run.events[k]);
    }
  }

  /** The guard is exact: after the first event that fails it, recovery can leave a record without its layers. */
  lemma GuardIsExact(run: Run, e: Event)
    requires IsRun(run) && Sound(run.states[0]) && GuardedRun(run)
    requires Enabled(run.states[|run.events|], e)
    ensures Guarded(run.states[|run.events|], e) <==> RecoveryIsSafe(After(run.states[|run.events|], e))
  {
    var before := run.states[|run.events|];
    RunKeepsSound(run, |run.events|);
    EventKeepsWhole(before, e);
    EventKeepsRecoverable(before, e);
    RecoveryKeepsWhole(After(before, e));
  }

  // ---------- the guard, before the command ----------

  /**
   Whatever a removal comes to drop is guarded exactly when no open transaction
   names a layer only the removed records needed.
   */
  lemma RemovalIsGuarded(s: State, app: Application, gone: set<string>)
    ensures (forall dropped, droppedLegacy | Enabled(s, Removes(app, gone, true, dropped, droppedLegacy)) ::
               Guarded(s, Removes(app, gone, true, dropped, droppedLegacy)))
            <==>
            (forall l | l in app.layers && Stored(s, l) && !Needs(s.apps - gone, s.history - {app.origin}, l) ::
               !Wanted(s, l))
  {
    if l :| l in app.layers && Stored(s, l) && !Needs(s.apps - gone, s.history - {app.origin}, l) && Wanted(s, l) {
      var e := Removes(app, gone, true, {l}, {l});
      assert Enabled(s, e) && !Stored(After(s, e), l);
      assert !Guarded(s, e);
    }
  }

  /**
   Whatever a collection comes to drop is guarded exactly when the layers it
   keeps include those of open transactions.
   */
  lemma CollectionIsGuarded(s: State, kept: set<string>)
    requires forall l | Needs(s.apps, s.history, l) :: l in kept
    ensures (forall dropped, droppedLegacy | Enabled(s, Collects(kept, dropped, droppedLegacy)) ::
               Guarded(s, Collects(kept, dropped, droppedLegacy)))
            <==> (forall l | Stored(s, l) && Wanted(s, l) :: l in kept)
  {
    if l :| Stored(s, l) && Wanted(s, l) && l !in kept {
      var e := Collects(kept, {l}, {l});
      assert Enabled(s, e) && !Stored(After(s, e), l);
      assert !Guarded(s, e);
    }
  }

  // ---------- two runs that end badly ----------

  ghost function LayersOf(app: Application): set<string> { set l | l in app.layers }

  /** A store that holds one application, a history, and the layers of two records. */
  ghost function Holding(app: Application, history: map<string, seq<Application>>, other: Application): State
  {
    State(map[app.id := app], history, map l | l in LayersOf(app) + LayersOf(other) :: true, {}, map[])
  }

  lemma HoldingIsSound(app: Application, history: map<string, seq<Application>>, other: Application)
    requires history == map[] || (other.origin == app.origin && history == map[app.origin := [other]])
    ensures Sound(Holding(app, history, other))
  {
  }

  /**
   An update that stops after it was logged, the removal of the application, and
   the recovery at the start of any later update: the removed record is back and
   none of its layers is there.
   */
  lemma FailedUpdateThenRemoval(app: Application, next: Application, l: string) returns (run: Run, t: State)
    requires l in app.layers && next.origin == app.origin
    ensures Sound(Holding(app, map[], next)) && Leads(run, Holding(app, map[], next), t)
    ensures run.events ==
            [Updates(app.id, next, Begun), Removes(app, {app.id}, true, LayersOf(app), {}), Recovers(app.id, Finished)]
    ensures t.apps == map[app.id := app] && !Complete(t, app)
  {
    var s := Holding(app, map[], next);
    HoldingIsSound(app, map[], next);
    var update, removal, recovery :=
      Updates(app.id, next, Begun), Removes(app, {app.id}, true, LayersOf(app), {}), Recovers(app.id, Finished);
    var logged := After(s, update);
    assert s.apps - {app.id} == map[];
    var removed := After(logged, removal);
    assert removed.apps == map[] && removed.pending[app.id] == Transaction(app, next, false);
    t := After(removed, recovery);
    assert t.apps == map[app.id := app];
    assert !Stored(t, l);
    run := ThreeEvents(s, update, removal, recovery);
  }

  /**
   The same without a removal: a rollback that stops before its transaction is
   committed leaves the layers of the record it replaced to the collector.
   */
  lemma InterruptedRollbackThenCollection(app: Application, saved: Application, l: string) returns (run: Run, t: State)
    requires l in app.layers && l !in saved.layers && saved.origin == app.origin
    ensures Sound(Holding(app, map[app.origin := [saved]], saved))
            && Leads(run, Holding(app, map[app.origin := [saved]], saved), t)
    ensures run.events ==
            [RollsBack(app.id, Replaced), Collects(LayersOf(saved), LayersOf(app) - LayersOf(saved), {}),
             Recovers(app.id, Finished)]
    ensures t.apps == map[app.id := app] && !Complete(t, app)
  {
    var s, kept := Holding(app, map[app.origin := [saved]], saved), LayersOf(saved);
    var rollback, collection, recovery :=
      RollsBack(app.id, Replaced), Collects(kept, LayersOf(app) - kept, {}), Recovers(app.id, Finished);
    HoldingIsSound(app, map[app.origin := [saved]], saved);
    assert HistoryOf(s, app.origin) == [saved];
    var replaced := After(s, rollback);
    assert replaced == s.(apps := map[saved.id := saved], pending := map[app.id := Transaction(app, saved, false)]);
    CollectsAllBut(replaced, kept, LayersOf(app) - kept, saved, app.origin);
    t := After(After(replaced, collection), recovery);
    assert t.apps == map[app.id := app];
    assert !Stored(t, l);
    run := ThreeEvents(s, rollback, collection, recovery);
  }

  lemma CollectsAllBut(s: State, kept: set<string>, dropped: set<string>, saved: Application, origin: string)
    requires s.apps == map[saved.id := saved] && s.history == map[origin := [saved]]
    requires kept == LayersOf(saved) && dropped !! kept
    ensures Enabled(s, Collects(kept, dropped, {}))
  {
  }
}
