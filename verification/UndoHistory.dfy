/**
 What rolling back restores: the bounded history as the top of an undo stack, over
 every run of commands, and what it takes for a rollback to undo an update.
 */
module UndoHistory {
  import opened StoreEvents

  // ---------- one origin on its own ----------

  /** What is installed and what can be gone back to. */
  datatype Line = Line(current: Application, history: seq<Application>)

  function Update(line: Line, next: Application): Line
  {
    Line(next, Recent(line.history + [line.current]))
  }

  function Rollback(line: Line): Line
  {
    if line.history == [] then line
    else Line(line.history[|line.history| - 1], line.history[..|line.history| - 1])
  }

  function Updates(line: Line, nexts: seq<Application>): Line
  {
    if nexts == [] then line else Update(Updates(line, nexts[..|nexts| - 1]), nexts[|nexts| - 1])
  }

  function Rollbacks(line: Line, times: nat): Line
  {
    if times == 0 then line else Rollback(Rollbacks(line, times - 1))
  }

  /** Everything the line has been, oldest first, ending with what is installed. */
  function Versions(line: Line, nexts: seq<Application>): seq<Application>
  {
    line.history + [line.current] + nexts
  }

  function Least(a: nat, b: nat): nat { if a < b then a else b }

  lemma {:induction false} UpdatesKeepRecent(line: Line, nexts: seq<Application>)
    requires |line.history| <= HISTORY_LIMIT
    ensures var all := Versions(line, nexts);
            Updates(line, nexts).current == all[|all| - 1] && Updates(line, nexts).history == Recent(all[..|all| - 1])
  {
    var all := Versions(line, nexts);
    if nexts == [] {
      assert all[..|all| - 1] == line.history;
    } else {
      var rest, next := nexts[..|nexts| - 1], nexts[|nexts| - 1];
      UpdatesKeepRecent(line, rest);
      var before := Versions(line, rest);
      VersionsGrow(line, nexts);
      RecentAppended(before[..|before| - 1], before[|before| - 1]);
      assert before[..|before| - 1] + [before[|before| - 1]] == before;
    }
  }

  lemma {:induction false} VersionsGrow(line: Line, nexts: seq<Application>)
    requires nexts != []
    ensures var all, before := Versions(line, nexts), Versions(line, nexts[..|nexts| - 1]);
            all == before + [nexts[|nexts| - 1]] && all[..|all| - 1] == before
  {
    assert nexts == nexts[..|nexts| - 1] + [nexts[|nexts| - 1]];
  }

  lemma RecentAppended(apps: seq<Application>, a: Application)
    ensures Recent(Recent(apps) + [a]) == Recent(apps + [a])
  {
  }

  lemma {:induction false} RollbacksPop(line: Line, times: nat)
    requires times <= |line.history|
    ensures Rollbacks(line, times).history == line.history[..|line.history| - times]
    ensures Rollbacks(line, times).current == if times == 0 then line.current else line.history[|line.history| - times]
  {
    if times > 0 {
      RollbacksPop(line, times - 1);
    }
  }

  /**
   After any updates, rolling back undoes the last of them in order: the k-th
   rollback restores what was installed k updates ago, for as many as the
   history holds, and one more finds nothing to restore.
   */
  lemma {:induction false} RollbacksUndoUpdates(line: Line, nexts: seq<Application>, times: nat)
    requires |line.history| <= HISTORY_LIMIT
    requires times <= Least(3, |line.history| + |nexts|)
    ensures GoesBack(Updates(line, nexts), Versions(line, nexts), times)
  {
    UpdatesKeepRecent(line, nexts);
    WentBack(Updates(line, nexts), Versions(line, nexts), times);
  }

  /** So many rollbacks restore what was installed that many versions ago; none is left exactly at the limit. */
  ghost predicate GoesBack(line: Line, all: seq<Application>, times: nat)
  {
    && times < |all| && Rollbacks(line, times).current == all[|all| - 1 - times]
    && (Rollbacks(line, times).history == [] <==> times == Least(3, |all| - 1))
  }

  lemma {:induction false} WentBack(line: Line, all: seq<Application>, times: nat)
    requires all != [] && line.current == all[|all| - 1] && line.history == Recent(all[..|all| - 1])
    requires times <= Least(3, |all| - 1)
    ensures GoesBack(line, all, times)
  {
    RollbacksPop(line, times);
    if times > 0 {
      RecentAt(all, times);
    }
  }

  lemma {:induction false} RecentAt(all: seq<Application>, back: nat)
    requires 0 < back < |all| && back <= HISTORY_LIMIT
    ensures var kept := Recent(all[..|all| - 1]);
            back <= |kept| && kept[|kept| - back] == all[|all| - 1 - back]
  {
  }

  // ---------- the undo stack of a run ----------

  /** What an event does to the history of one origin. */
  datatype Effect = Keeps | Pushes(app: Application) | Pops | Clears

  function EffectOf(s: State, e: Event, origin: string): Effect
  {
    match e
    case Updates(id, _, stage) =>
      if id in s.apps && s.apps[id].origin == origin && !stage.Begun? then Pushes(s.apps[id]) else Keeps
    case RollsBack(id, stage) =>
      if id in s.apps && s.apps[id].origin == origin && (stage.Popped? || stage.Finished?) then Pops else Keeps
    case Removes(app, _, cleared, _, _) => if app.origin == origin && cleared then Clears else Keeps
    case _ => Keeps
  }

  /** Everything saved and not taken back, without the bound. */
  function Unbounded(stack: seq<Application>, effect: Effect): seq<Application>
  {
    match effect
    case Keeps => stack
    case Pushes(app) => stack + [app]
    case Pops => if stack == [] then [] else stack[..|stack| - 1]
    case Clears => []
  }

  /** How many of them the bounded history still holds. */
  function Held(depth: nat, effect: Effect): nat
  {
    match effect
    case Keeps => depth
    case Pushes(_) => Least(3, depth + 1)
    case Pops => if depth == 0 then 0 else depth - 1
    case Clears => 0
  }

  ghost function Stack(run: Run, i: nat, origin: string): seq<Application>
    requires IsRun(run) && i < |run.states|
  {
    if i == 0 then HistoryOf(run.states[0], origin)
    else Unbounded(Stack(run, i - 1, origin), EffectOf(run.states[i - 1], run.events[i - 1], origin))
  }

  ghost function Depth(run: Run, i: nat, origin: string): nat
    requires IsRun(run) && i < |run.states|
  {
    if i == 0 then |HistoryOf(run.states[0], origin)|
    else Held(Depth(run, i - 1, origin), EffectOf(run.states[i - 1], run.events[i - 1], origin))
  }

  /** The last `depth` entries of a stack. */
  ghost predicate IsTop(saved: seq<Application>, stack: seq<Application>, depth: nat)
  {
    |saved| == depth <= |stack| && forall i | 0 <= i < depth :: saved[i] == stack[|stack| - depth + i]
  }

  /** What each event leaves in the history, wherever it stops. */
  lemma EventOnHistory(s: State, e: Event, origin: string)
    requires Enabled(s, e)
    ensures var saved, after := HistoryOf(s, origin), HistoryOf(After(s, e), origin);
            match EffectOf(s, e, origin)
            case Keeps => after == saved
            case Pushes(app) => after == Recent(saved + [app])
            case Pops => saved != [] && after == saved[..|saved| - 1]
            case Clears => after == []
  {
  }

  lemma AppendKeepsTop(saved: seq<Application>, stack: seq<Application>, app: Application)
    requires IsTop(saved, stack, |saved|)
    ensures IsTop(saved + [app], stack + [app], |saved| + 1)
  {
  }

  lemma RecentKeepsTop(saved: seq<Application>, stack: seq<Application>)
    requires IsTop(saved, stack, |saved|)
    ensures IsTop(Recent(saved), stack, |Recent(saved)|)
  {
    var kept := Recent(saved);
    forall i | 0 <= i < |kept|
      ensures kept[i] == stack[|stack| - |kept| + i]
    {
      var k := |saved| - |kept| + i;
      assert kept[i] == saved[k] && saved[k] == stack[|stack| - |saved| + k];
    }
  }

  lemma PushKeepsTop(saved: seq<Application>, stack: seq<Application>, app: Application)
    requires IsTop(saved, stack, |saved|) && |saved| <= HISTORY_LIMIT
    ensures IsTop(Recent(saved + [app]), stack + [app], Least(HISTORY_LIMIT, |saved| + 1))
  {
    AppendKeepsTop(saved, stack, app);
    RecentKeepsTop(saved + [app], stack + [app]);
  }

  lemma PopKeepsTop(saved: seq<Application>, stack: seq<Application>)
    requires IsTop(saved, stack, |saved|) && saved != []
    ensures IsTop(saved[..|saved| - 1], stack[..|stack| - 1], |saved| - 1)
  {
  }

  lemma TopMoves(saved: seq<Application>, after: seq<Application>, stack: seq<Application>, depth: nat, effect: Effect)
    requires IsTop(saved, stack, depth) && depth <= HISTORY_LIMIT
    requires match effect
             case Keeps => after == saved
             case Pushes(app) => after == Recent(saved + [app])
             case Pops => saved != [] && after == saved[..|saved| - 1]
             case Clears => after == []
    ensures IsTop(after, Unbounded(stack, effect), Held(depth, effect)) && Held(depth, effect) <= HISTORY_LIMIT
  {
    match effect
    case Pushes(app) => PushKeepsTop(saved, stack, app);
    case Pops => PopKeepsTop(saved, stack);
    case _ =>
  }

  /** Over every run of commands, whatever they stop at, the history is the bounded top of the undo stack. */
  lemma {:induction false} HistoryIsTop(run: Run, i: nat, origin: string)
    requires IsRun(run) && i < |run.states| && |HistoryOf(run.states[0], origin)| <= HISTORY_LIMIT
    ensures IsTop(HistoryOf(run.states[i], origin), Stack(run, i, origin), Depth(run, i, origin))
    ensures Depth(run, i, origin) <= HISTORY_LIMIT
  {
    if i > 0 {
      var k := i - 1;
      HistoryIsTop(run, k, origin);
      assert Step(run, k);
      EventOnHistory(run.states[k], run.events[k], origin);
      TopMoves(HistoryOf(run.states[k], origin), HistoryOf(run.states[i], origin),
               Stack(run, k, origin), Depth(run, k, origin),
               EffectOf(run.states[k], run.events[k], origin));
    }
  }

  // ---------- what a rollback undoes ----------

  ghost predicate Keyed(s: State)
  {
    forall id | id in s.apps :: s.apps[id].id == id
  }

  /** A rollback changes what is installed exactly when the record saved last is not the one installed. */
  lemma RollbackChanges(s: State, id: string)
    requires Keyed(s) && Enabled(s, RollsBack(id, Finished))
    ensures var saved := HistoryOf(s, s.apps[id].origin);
            After(s, RollsBack(id, Finished)).apps != s.apps <==> saved[|saved| - 1] != s.apps[id]
  {
    var saved := HistoryOf(s, s.apps[id].origin);
    var last, after := saved[|saved| - 1], After(s, RollsBack(id, Finished));
    assert last.id in after.apps && after.apps[last.id] == last;
    if last == s.apps[id] {
      assert after.apps == s.apps;
    } else if last.id == id {
      assert after.apps[id] != s.apps[id];
    } else {
      assert id !in after.apps;
    }
  }

  // ---------- which installation a rollback takes ----------

  /** The installations of an origin. */
  function Installations(apps: map<string, Application>, origin: string): set<string>
  {
    set id | id in apps && apps[id].origin == origin
  }

  /** An update was undone: what is installed is again what it found. */
  ghost predicate Undoes(s: State, id: string, next: Application, other: string)
  {
    After(After(s, StoreEvents.Updates(id, next, Finished)), RollsBack(other, Finished)).apps == s.apps
  }

  /** The identifier of the new record is that of the old one, or was not in use. */
  predicate Fresh(s: State, id: string, next: Application) { next.id == id || next.id !in s.apps }

  /**
   A rollback after an update undoes it exactly when the record it takes is the
   one the update installed, under an identifier that took no other's place.
   */
  lemma UpdateIsUndone(s: State, id: string, next: Application, other: string)
    requires Keyed(s) && Enabled(s, StoreEvents.Updates(id, next, Finished))
    requires var updated := After(s, StoreEvents.Updates(id, next, Finished));
             other in Installations(updated.apps, next.origin)
    ensures Enabled(After(s, StoreEvents.Updates(id, next, Finished)), RollsBack(other, Finished))
    ensures Undoes(s, id, next, other) <==> other == next.id && Fresh(s, id, next)
  {
    var app := s.apps[id];
    var updated := After(s, StoreEvents.Updates(id, next, Finished));
    EventOnHistory(s, StoreEvents.Updates(id, next, Finished), app.origin);
    SavedThenTaken(HistoryOf(s, app.origin), app);
    assert updated.apps == Put(s.apps, id, next);
    var after := After(updated, RollsBack(other, Finished));
    assert after.apps == Put(updated.apps, other, app);
    if other == next.id && Fresh(s, id, next) {
      assert after.apps == s.apps;
    } else if other != next.id {
      assert other in s.apps && other != id && other !in after.apps;
    } else {
      assert next.id in s.apps && next.id !in after.apps;
    }
  }

  /**
   Whichever installation of the origin the store answers with, the update is
   undone, exactly when the origin has one installation and the new record took
   no other's place.
   */
  lemma UndoneWhicheverIsTaken(s: State, id: string, next: Application)
    requires Keyed(s) && Enabled(s, StoreEvents.Updates(id, next, Finished))
    ensures var updated := After(s, StoreEvents.Updates(id, next, Finished));
            (forall other | other in Installations(updated.apps, next.origin) :: Undoes(s, id, next, other))
            <==> Installations(s.apps, next.origin) == {id} && Fresh(s, id, next)
  {
    var updated := After(s, StoreEvents.Updates(id, next, Finished));
    assert updated.apps == Put(s.apps, id, next);
    forall other | other in Installations(updated.apps, next.origin)
      ensures Undoes(s, id, next, other) <==> other == next.id && Fresh(s, id, next)
    {
      UpdateIsUndone(s, id, next, other);
    }
    assert next.id in Installations(updated.apps, next.origin);
    assert id in Installations(s.apps, next.origin);
    if Fresh(s, id, next) {
      InstallationsAfterPut(s.apps, id, next);
    }
  }

  lemma InstallationsAfterPut(apps: map<string, Application>, id: string, next: Application)
    requires id in apps && apps[id].origin == next.origin
    ensures Installations(Put(apps, id, next), next.origin) == Installations(apps, next.origin) - {id} + {next.id}
  {
  }

  /** What a rollback leaves does not depend on the record the store answers with exactly when there is one to take. */
  lemma RollbackIsDetermined(s: State, origin: string)
    requires HistoryOf(s, origin) != []
    ensures (forall p, q | p in Installations(s.apps, origin) && q in Installations(s.apps, origin) ::
               After(s, RollsBack(p, Finished)).apps == After(s, RollsBack(q, Finished)).apps)
            <==> (forall p, q | p in Installations(s.apps, origin) && q in Installations(s.apps, origin) :: p == q)
  {
    var saved := HistoryOf(s, origin);
    var last := saved[|saved| - 1];
    forall p, q | p in Installations(s.apps, origin) && q in Installations(s.apps, origin) && p != q
      ensures After(s, RollsBack(p, Finished)).apps != After(s, RollsBack(q, Finished)).apps
    {
      var one, two := Put(s.apps, p, last), Put(s.apps, q, last);
      assert p in one <==> p == last.id;
      assert p in two && q in one;
      assert q in two <==> q == last.id;
    }
  }

  /**
   Two installations of one origin, an update of the one, and a rollback for
   which the store answers with the other: the update is taken back, and the
   other installation, which nobody updated, is gone.
   */
  lemma OtherInstallationIsLost(one: Application, next: Application, other: Application) returns (run: Run, t: State)
    requires one.id != other.id && next.id == one.id && one.origin == next.origin == other.origin
    ensures Sound(HoldingTwo(one, other, next)) && Leads(run, HoldingTwo(one, other, next), t)
    ensures run.events == [StoreEvents.Updates(one.id, next, Finished), RollsBack(other.id, Finished)]
    ensures t.apps == map[one.id := one]
  {
    var s := HoldingTwo(one, other, next);
    var update, rollback := StoreEvents.Updates(one.id, next, Finished), RollsBack(other.id, Finished);
    HoldingTwoIsSound(one, other, next);
    UpdateOfTwo(one, other, next);
    t := After(After(s, update), rollback);
    run := TwoEvents(s, update, rollback);
  }

  lemma HoldingTwoIsSound(one: Application, other: Application, next: Application)
    ensures Sound(HoldingTwo(one, other, next))
  {
  }

  lemma UpdateOfTwo(one: Application, other: Application, next: Application)
    requires one.id != other.id && next.id == one.id && one.origin == next.origin == other.origin
    ensures var s, update := HoldingTwo(one, other, next), StoreEvents.Updates(one.id, next, Finished);
            && Enabled(s, update) && Enabled(After(s, update), RollsBack(other.id, Finished))
            && After(After(s, update), RollsBack(other.id, Finished)).apps == map[one.id := one]
  {
    var updated := After(HoldingTwo(one, other, next), StoreEvents.Updates(one.id, next, Finished));
    assert HistoryOf(updated, one.origin) == [one];
    assert updated.apps == map[one.id := next, other.id := other];
  }

  /** A store with two installations, nothing saved, and the layers of three records. */
  ghost function HoldingTwo(one: Application, other: Application, next: Application): State
  {
    State(map[one.id := one, other.id := other], map[],
          map l | l in LayersOf(one) + LayersOf(other) + LayersOf(next) :: true, {}, map[])
  }

  /**
   An update that stops once its record is saved, then a rollback: nothing is
   undone, and a history that was full has lost its oldest entry.
   */
  lemma FailedUpdateThenRollback(s: State, id: string, next: Application) returns (run: Run, t: State)
    requires Keyed(s) && Enabled(s, StoreEvents.Updates(id, next, Saved))
    ensures Leads(run, s, t) && run.events == [StoreEvents.Updates(id, next, Saved), RollsBack(id, Finished)]
    ensures t.apps == s.apps && HistoryOf(t, s.apps[id].origin) == WithoutOldest(HistoryOf(s, s.apps[id].origin))
  {
    var update, rollback := StoreEvents.Updates(id, next, Saved), RollsBack(id, Finished);
    var app, failed := s.apps[id], After(s, update);
    EventOnHistory(s, update, app.origin);
    SavedThenTaken(HistoryOf(s, app.origin), app);
    RollbackChanges(failed, id);
    EventOnHistory(failed, rollback, app.origin);
    t := After(failed, rollback);
    run := TwoEvents(s, update, rollback);
  }

  /** A list that was full without its first entry; any other as it is. */
  function WithoutOldest(saved: seq<Application>): seq<Application>
  {
    if |saved| < HISTORY_LIMIT then saved else saved[|saved| - HISTORY_LIMIT + 1..]
  }

  lemma SavedThenTaken(saved: seq<Application>, app: Application)
    ensures var kept := Recent(saved + [app]);
            kept != [] && kept[|kept| - 1] == app && kept[..|kept| - 1] == WithoutOldest(saved)
  {
  }

  /** The store after so many rollbacks in a row, the first of them of this record. */
  function TakenBack(s: State, id: string, times: nat): State
    decreases times
  {
    if times == 0 || id !in s.apps || HistoryOf(s, s.apps[id].origin) == [] then s
    else
      var saved := HistoryOf(s, s.apps[id].origin);
      TakenBack(AfterRollback(s, id, Finished), saved[|saved| - 1].id, times - 1)
  }

  /** The record is installed, and this is what its origin can go back to. */
  ghost predicate Stands(s: State, app: Application, saved: seq<Application>)
  {
    app.id in s.apps && s.apps[app.id] == app && HistoryOf(s, app.origin) == saved
  }

  lemma OneRollback(s: State, app: Application, saved: seq<Application>)
    requires Stands(s, app, saved) && saved != [] && saved[|saved| - 1].origin == app.origin
    ensures Enabled(s, RollsBack(app.id, Finished))
    ensures Stands(After(s, RollsBack(app.id, Finished)), saved[|saved| - 1], saved[..|saved| - 1])
  {
  }

  /** A history holds records of its own origin. */
  ghost predicate SavedUnder(s: State, origin: string)
  {
    forall a | a in HistoryOf(s, origin) :: a.origin == origin
  }

  lemma WholeIsSavedUnder(s: State, origin: string)
    requires Whole(s)
    ensures SavedUnder(s, origin)
  {
    if origin in s.history { assert Restorable(s.repositories, s.legacy, origin, s.history[origin]); }
  }

  /** What is installed after so many rollbacks in a row. */
  function Target(app: Application, saved: seq<Application>, times: nat): Application
    requires times <= |saved|
  {
    if times == 0 then app else saved[|saved| - times]
  }

  /** The identifiers that rollbacks in a row pass through, without the last. */
  function Passed(app: Application, saved: seq<Application>, times: nat): set<string>
    requires times <= |saved|
    decreases times
  {
    if times == 0 then {} else {app.id} + Passed(saved[|saved| - 1], saved[..|saved| - 1], times - 1)
  }

  lemma PutAfterPassing(apps: map<string, Application>, id: string, last: Application, ids: set<string>,
                        next: Application)
    requires last.id in ids
    ensures (Put(apps, id, last) - ids)[next.id := next] == (apps - ({id} + ids))[next.id := next]
  {
  }

  lemma TargetAfterOne(app: Application, saved: seq<Application>, times: nat)
    requires 0 < times <= |saved|
    ensures Target(saved[|saved| - 1], saved[..|saved| - 1], times - 1) == Target(app, saved, times)
    ensures saved[..|saved| - 1][..|saved| - times] == saved[..|saved| - times]
  {
  }

  /**
   Rollbacks in a row take the history back entry by entry; nothing else is
   touched, but for records under the identifiers they pass through.
   */
  lemma {:induction false} RollbacksInstall(s: State, app: Application, saved: seq<Application>, times: nat)
    requires Stands(s, app, saved) && times <= |saved| && forall a | a in saved :: a.origin == app.origin
    ensures Stands(TakenBack(s, app.id, times), Target(app, saved, times), saved[..|saved| - times])
    ensures TakenBack(s, app.id, times).apps ==
            (s.apps - Passed(app, saved, times))[Target(app, saved, times).id := Target(app, saved, times)]
    decreases times
  {
    if times == 0 {
      assert saved[..|saved|] == saved;
      assert s.apps - {} == s.apps;
    } else {
      var last, rest := saved[|saved| - 1], saved[..|saved| - 1];
      OneRollback(s, app, saved);
      TargetAfterOne(app, saved, times);
      RollbacksInstall(AfterRollback(s, app.id, Finished), last, rest, times - 1);
      if times > 1 {
        PutAfterPassing(s.apps, app.id, last, Passed(last, rest, times - 1), Target(app, saved, times));
      } else {
        PutOnce(s.apps, app.id, last);
      }
    }
  }

  lemma PutOnce(apps: map<string, Application>, id: string, last: Application)
    ensures (Put(apps, id, last) - {})[last.id := last] == (apps - ({id} + {}))[last.id := last]
  {
  }

  /**
   After every run of commands, rollbacks in a row restore the undo stack from
   the top, entry by entry, as far as the history reaches, and touch nothing but
   the identifiers they pass through.
   */
  lemma {:induction false} RollbacksFollowStack(run: Run, i: nat, app: Application, times: nat)
    requires IsRun(run) && i < |run.states| && |HistoryOf(run.states[0], app.origin)| <= HISTORY_LIMIT
    requires SavedUnder(run.states[i], app.origin) && Installed(run.states[i], app)
    requires 0 < times <= Depth(run, i, app.origin)
    ensures times <= |Stack(run, i, app.origin)| && times <= |HistoryOf(run.states[i], app.origin)|
    ensures RestoresOnly(run.states[i], app, times, Stack(run, i, app.origin)[|Stack(run, i, app.origin)| - times])
  {
    HistoryIsTop(run, i, app.origin);
    assert IsTop(HistoryOf(run.states[i], app.origin), Stack(run, i, app.origin), Depth(run, i, app.origin));
    StackRestored(run.states[i], app, times, Stack(run, i, app.origin), Depth(run, i, app.origin));
  }

  /** So many rollbacks in a row leave this record installed, and all others but those they pass through. */
  ghost predicate RestoresOnly(s: State, app: Application, times: nat, target: Application)
    requires times <= |HistoryOf(s, app.origin)|
  {
    TakenBack(s, app.id, times).apps == (s.apps - Passed(app, HistoryOf(s, app.origin), times))[target.id := target]
  }

  lemma {:induction false} StackRestored(t: State, app: Application, times: nat, stack: seq<Application>, depth: nat)
    requires IsTop(HistoryOf(t, app.origin), stack, depth) && SavedUnder(t, app.origin) && Installed(t, app)
    requires 0 < times <= depth
    ensures times <= |stack| && RestoresOnly(t, app, times, stack[|stack| - times])
  {
    TopAt(HistoryOf(t, app.origin), stack, times);
    RollbacksInstall(t, app, HistoryOf(t, app.origin), times);
  }

  ghost predicate Installed(s: State, app: Application) { app.id in s.apps && s.apps[app.id] == app }

  lemma TopAt(saved: seq<Application>, stack: seq<Application>, back: nat)
    requires IsTop(saved, stack, |saved|) && 0 < back <= |saved|
    ensures saved[|saved| - back] == stack[|stack| - back]
  {
    var i := |saved| - back;
    assert saved[i] == stack[|stack| - |saved| + i];
  }

  // ---------- updates and rollbacks in any order ----------

  datatype Turn = Up(next: Application) | Down

  function Play(line: Line, turns: seq<Turn>): Line
  {
    if turns == [] then line
    else
      var before := Play(line, turns[..|turns| - 1]);
      match turns[|turns| - 1]
      case Up(next) => Update(before, next)
      case Down => Rollback(before)
  }

  /** What has been installed and not taken back, ending with what is installed. */
  function Timeline(line: Line, turns: seq<Turn>): (r: seq<Application>)
    ensures r != []
  {
    if turns == [] then Chain(line)
    else
      var rest := turns[..|turns| - 1];
      match turns[|turns| - 1]
      case Up(next) => Timeline(line, rest) + [next]
      case Down =>
        var before := Timeline(line, rest);
        if Play(line, rest).history == [] || |before| == 1 then before else before[..|before| - 1]
  }

  /** Neighbours differ, so going from one to the next always changes something. */
  ghost predicate NoStandstill(apps: seq<Application>)
  {
    forall i, j | 0 <= i && j == i + 1 && j < |apps| :: apps[i] != apps[j]
  }

  /** Every update of the run installs something else than what it found. */
  ghost predicate AlwaysNew(line: Line, turns: seq<Turn>)
  {
    turns == [] ||
    (var rest, last := turns[..|turns| - 1], turns[|turns| - 1];
     AlwaysNew(line, rest) && (last.Up? ==> last.next != Play(line, rest).current))
  }

  /** What can be gone back to, and what is installed. */
  function Chain(line: Line): seq<Application> { line.history + [line.current] }

  /** The line is the end of its timeline. */
  ghost predicate EndsWith(line: Line, timeline: seq<Application>)
  {
    |line.history| <= HISTORY_LIMIT && IsTop(Chain(line), timeline, |line.history| + 1)
  }

  lemma UpdateEnds(line: Line, timeline: seq<Application>, next: Application)
    requires EndsWith(line, timeline)
    ensures EndsWith(Update(line, next), timeline + [next])
  {
    RecentKeepsTop(Chain(line), timeline);
    AppendKeepsTop(Recent(Chain(line)), timeline, next);
  }

  lemma RollbackEnds(line: Line, timeline: seq<Application>)
    requires EndsWith(line, timeline) && line.history != []
    ensures EndsWith(Rollback(line), timeline[..|timeline| - 1])
  {
    PopKeepsTop(Chain(line), timeline);
    assert Chain(line)[..|Chain(line)| - 1] == line.history;
    assert Chain(Rollback(line)) == line.history;
  }

  /** However updates and rollbacks follow each other, what can be gone back to is the end of the timeline. */
  lemma {:induction false} PlayEndsTimeline(line: Line, turns: seq<Turn>)
    requires |line.history| <= HISTORY_LIMIT
    ensures EndsWith(Play(line, turns), Timeline(line, turns))
  {
    if turns != [] {
      var rest, last := turns[..|turns| - 1], turns[|turns| - 1];
      PlayEndsTimeline(line, rest);
      match last {
        case Up(next) => UpdateEnds(Play(line, rest), Timeline(line, rest), next);
        case Down =>
          if Play(line, rest).history != [] {
            RollbackEnds(Play(line, rest), Timeline(line, rest));
          }
      }
    }
  }

  lemma {:induction false} TimelineMoves(line: Line, turns: seq<Turn>)
    requires |line.history| <= HISTORY_LIMIT && AlwaysNew(line, turns) && NoStandstill(Chain(line))
    ensures NoStandstill(Timeline(line, turns))
  {
    if turns != [] {
      var rest, last := turns[..|turns| - 1], turns[|turns| - 1];
      TimelineMoves(line, rest);
      PlayEndsTimeline(line, rest);
      CurrentIsLast(Play(line, rest), Timeline(line, rest));
    }
  }

  lemma CurrentIsLast(line: Line, timeline: seq<Application>)
    requires EndsWith(line, timeline)
    ensures line.current == timeline[|timeline| - 1]
  {
    TopAt(Chain(line), timeline, 1);
  }

  lemma {:induction false} RolledBack(line: Line, timeline: seq<Application>, times: nat)
    requires EndsWith(line, timeline) && times <= |line.history|
    ensures Rollbacks(line, times).current == timeline[|timeline| - 1 - times]
  {
    RollbacksPop(line, times);
    TopAt(Chain(line), timeline, times + 1);
  }

  /** A rollback after the others goes one step down the timeline, to a record that differs. */
  ghost predicate StepsDown(line: Line, timeline: seq<Application>, times: nat)
  {
    && 0 < times < |timeline| && Rollbacks(line, times).current == timeline[|timeline| - 1 - times]
    && Rollbacks(line, times).current != Rollbacks(line, times - 1).current
  }

  lemma {:induction false} EachRollbackMoves(line: Line, timeline: seq<Application>, times: nat)
    requires EndsWith(line, timeline) && NoStandstill(timeline) && 0 < times <= |line.history|
    ensures StepsDown(line, timeline, times)
  {
    RolledBack(line, timeline, times);
    RolledBack(line, timeline, times - 1);
    Neighbours(timeline, |timeline| - 1 - times);
  }

  lemma Neighbours(apps: seq<Application>, i: nat)
    requires NoStandstill(apps) && i + 1 < |apps|
    ensures apps[i] != apps[i + 1]
  {
  }

  /**
   After any interleaving of completed updates and rollbacks, further rollbacks
   restore the timeline from its end, and each of them changes what is installed.
   */
  lemma {:induction false} RollbacksUndoAnyTurns(line: Line, turns: seq<Turn>, times: nat)
    requires |line.history| <= HISTORY_LIMIT && AlwaysNew(line, turns) && NoStandstill(Chain(line))
    requires 0 < times <= |Play(line, turns).history|
    ensures StepsDown(Play(line, turns), Timeline(line, turns), times)
  {
    PlayEndsTimeline(line, turns);
    TimelineMoves(line, turns);
    EachRollbackMoves(Play(line, turns), Timeline(line, turns), times);
  }

  // ---------- the same on a run, for an origin with one installation ----------

  /** The completed update or rollback of an origin that an event is, if it is one. */
  function TurnsOf(s: State, e: Event, origin: string): seq<Turn>
  {
    match e
    case Updates(id, next, Finished) => if id in s.apps && s.apps[id].origin == origin then [Up(next)] else []
    case RollsBack(id, Finished) => if id in s.apps && s.apps[id].origin == origin then [Down] else []
    case _ => []
  }

  /** The origin has the same records in both. */
  ghost predicate SameFor(origin: string, before: map<string, Application>, after: map<string, Application>)
  {
    && Installations(after, origin) == Installations(before, origin)
    && forall id | id in Installations(before, origin) :: id in after && after[id] == before[id]
  }

  /** The event touches no record and no history of the origin. */
  ghost predicate Aside(s: State, e: Event, origin: string)
  {
    HistoryOf(After(s, e), origin) == HistoryOf(s, origin) && SameFor(origin, s.apps, After(s, e).apps)
  }

  /** Events that never touch a record. */
  lemma StorageIsAside(s: State, e: Event, origin: string)
    requires Enabled(s, e) && (e.Pulls? || e.Collects? || e.Migrates?)
    ensures Aside(s, e, origin)
  {
  }

  lemma PutElsewhere(apps: map<string, Application>, id: string, next: Application, origin: string)
    requires id in apps && apps[id].origin != origin && next.origin != origin && next.id !in Installations(apps, origin)
    ensures SameFor(origin, apps, Put(apps, id, next)) && SameFor(origin, apps, apps - {id})
  {
  }

  /** Nor do updates and rollbacks of another origin, as long as they take no identifier of this one. */
  lemma OthersAreAside(s: State, e: Event, origin: string)
    requires Enabled(s, e) && (e.Updates? || e.RollsBack?) && s.apps[e.id].origin != origin
    requires e.Updates? ==> e.next.id !in Installations(s.apps, origin)
    requires e.RollsBack? ==> forall a | a in HistoryOf(s, s.apps[e.id].origin) ::
                                a.origin != origin && a.id !in Installations(s.apps, origin)
    ensures Aside(s, e, origin)
  {
    if e.Updates? {
      PutElsewhere(s.apps, e.id, e.next, origin);
      UpdateIsAside(s, e.id, e.next, e.stage, origin);
    } else {
      var saved := HistoryOf(s, s.apps[e.id].origin);
      assert saved[|saved| - 1] in saved;
      PutElsewhere(s.apps, e.id, saved[|saved| - 1], origin);
      RollbackIsAside(s, e.id, e.stage, origin);
    }
  }

  lemma UpdateIsAside(s: State, id: string, next: Application, stage: Stage, origin: string)
    requires id in s.apps && s.apps[id].origin != origin
    requires SameFor(origin, s.apps, Put(s.apps, id, next)) && SameFor(origin, s.apps, s.apps - {id})
    ensures HistoryOf(AfterUpdate(s, id, next, stage), origin) == HistoryOf(s, origin)
    ensures SameFor(origin, s.apps, AfterUpdate(s, id, next, stage).apps)
  {
  }

  lemma RollbackIsAside(s: State, id: string, stage: Stage, origin: string)
    requires id in s.apps && s.apps[id].origin != origin && HistoryOf(s, s.apps[id].origin) != []
    requires var saved := HistoryOf(s, s.apps[id].origin);
             SameFor(origin, s.apps, Put(s.apps, id, saved[|saved| - 1])) && SameFor(origin, s.apps, s.apps - {id})
    ensures HistoryOf(AfterRollback(s, id, stage), origin) == HistoryOf(s, origin)
    ensures SameFor(origin, s.apps, AfterRollback(s, id, stage).apps)
  {
  }

  ghost function TurnsUpTo(run: Run, i: nat, origin: string): seq<Turn>
    requires IsRun(run) && i < |run.states|
  {
    if i == 0 then [] else TurnsUpTo(run, i - 1, origin) + TurnsOf(run.states[i - 1], run.events[i - 1], origin)
  }

  /** The line is the one installation of the origin and what it can go back to. */
  ghost predicate Holds(s: State, line: Line, origin: string)
  {
    && Installations(s.apps, origin) == {line.current.id} && Installed(s, line.current) && line.current.origin == origin
    && HistoryOf(s, origin) == line.history && SavedUnder(s, origin)
  }

  /** Every event of the run is a completed update or rollback of the origin, or leaves it alone. */
  ghost predicate OnlyTurns(run: Run, origin: string)
    requires IsRun(run)
  {
    forall i | 0 <= i < |run.events| ::
      TurnsOf(run.states[i], run.events[i], origin) != [] || Aside(run.states[i], run.events[i], origin)
  }

  lemma TurnHolds(s: State, e: Event, line: Line, origin: string)
    requires Holds(s, line, origin) && Enabled(s, e) && TurnsOf(s, e, origin) != []
    ensures TurnsOf(s, e, origin) == [Down] ==> Holds(After(s, e), Rollback(line), origin)
    ensures e.Updates? ==> TurnsOf(s, e, origin) == [Up(e.next)] && Holds(After(s, e), Update(line, e.next), origin)
  {
    assert e.id in Installations(s.apps, origin);
    EventOnHistory(s, e, origin);
    if e.Updates? {
      InstallationsAfterPut(s.apps, e.id, e.next);
    } else {
      var last := line.history[|line.history| - 1];
      assert last in HistoryOf(s, origin);
      InstallationsAfterPut(s.apps, e.id, last);
    }
  }

  lemma AsideHolds(s: State, e: Event, line: Line, origin: string)
    requires Holds(s, line, origin) && Aside(s, e, origin)
    ensures Holds(After(s, e), line, origin)
  {
    assert line.current.id in Installations(s.apps, origin);
  }

  lemma {:induction false} PlayOne(line: Line, turns: seq<Turn>, turn: Turn)
    ensures Play(line, turns + [turn]) ==
            match turn
            case Up(next) => Update(Play(line, turns), next)
            case Down => Rollback(Play(line, turns))
  {
    assert (turns + [turn])[..|turns|] == turns;
  }

  /**
   Whichever records the store answers with: while an origin has one
   installation, a run of completed updates and rollbacks of it, and of events
   that leave it alone, moves its line as the turns say.
   */
  lemma {:induction false} RunPlays(run: Run, i: nat, line: Line, origin: string)
    requires IsRun(run) && i < |run.states| && OnlyTurns(run, origin) && Holds(run.states[0], line, origin)
    ensures Holds(run.states[i], Play(line, TurnsUpTo(run, i, origin)), origin)
  {
    if i > 0 {
      var k := i - 1;
      var s, e, turns := run.states[k], run.events[k], TurnsUpTo(run, k, origin);
      RunPlays(run, k, line, origin);
      assert Step(run, k);
      var turn := TurnsOf(s, e, origin);
      if turn == [] {
        AsideHolds(s, e, Play(line, turns), origin);
        assert turns + [] == turns;
      } else {
        TurnHolds(s, e, Play(line, turns), origin);
        PlayOne(line, turns, turn[0]);
        assert turn == [turn[0]];
      }
    }
  }

  /**
   So after such a run further rollbacks restore the timeline of the origin from
   its end, each changes what is installed, and the origin still has the one
   installation.
   */
  lemma {:induction false} RollbacksUndoRun(run: Run, i: nat, line: Line, origin: string, times: nat)
    requires IsRun(run) && i < |run.states| && OnlyTurns(run, origin) && Holds(run.states[0], line, origin)
    requires |line.history| <= HISTORY_LIMIT && NoStandstill(Chain(line)) && AlwaysNew(line, TurnsUpTo(run, i, origin))
    requires 0 < times <= |Play(line, TurnsUpTo(run, i, origin)).history|
    ensures var turns := TurnsUpTo(run, i, origin);
            && StepsDown(Play(line, turns), Timeline(line, turns), times)
            && Holds(TakenBack(run.states[i], Play(line, turns).current.id, times), Rollbacks(Play(line, turns), times),
                     origin)
  {
    RunPlays(run, i, line, origin);
    RollbacksUndoAnyTurns(line, TurnsUpTo(run, i, origin), times);
    RollbacksHold(run.states[i], Play(line, TurnsUpTo(run, i, origin)), origin, times);
  }

  /** Rollbacks in a row of the one installation move its line as rollbacks do. */
  lemma {:induction false} RollbacksHold(s: State, line: Line, origin: string, times: nat)
    requires Holds(s, line, origin) && times <= |line.history|
    ensures Holds(TakenBack(s, line.current.id, times), Rollbacks(line, times), origin)
    decreases times
  {
    if times > 0 {
      var e := RollsBack(line.current.id, Finished);
      TurnHolds(s, e, line, origin);
      RollbacksHold(After(s, e), Rollback(line), origin, times - 1);
      RollbacksFromOne(line, times);
    }
  }

  lemma {:induction false} RollbacksFromOne(line: Line, times: nat)
    requires times > 0
    ensures Rollbacks(line, times) == Rollbacks(Rollback(line), times - 1)
  {
    if times > 1 {
      RollbacksFromOne(line, times - 1);
    }
  }
}
