/**
 The layer store and everything that adds to it or takes from it: install,
 update, rollback, recovery, removal, garbage collection and the migration of
 legacy layers. A step that touches the disk may fail, and then the command stops
 where it is; what it came to is the run of events it leaves.
 */
module LayerStore {
  import opened Common
  import opened StoreEvents
  import UndoHistory

  datatype Status = Done | Failed | NotFound | NoHistory | AlreadyInstalled | UpToDate | Ambiguous | NoSelector | InUse

  /** How one record was put in place of another: not at all, with the old one stored again, with both lost, or done. */
  datatype Replacement = Untouched | StoredAgain | BothLost | Put

  datatype Selector = Selector(branch: string, commit: string, release: string)

  const ANY := Selector("", "", "")

  datatype Command =
    | InstallOne(app: Application)
    | UpdateOne(id: string, next: Application)
    | RollbackOne(origin: string)
    | RecoverAll
    | RemoveOne(origin: string, selector: Selector, addonUsers: bool)
    | Collect(apply: bool, composed: set<string>)
    | Migrate(layers: seq<string>)

  // ---------- which records a command means ----------

  /** The filter of the record store: an empty field filters nothing. */
  predicate Matches(a: Application, origin: string, version: string, s: Selector)
  {
    && a.origin == origin
    && (version != "" ==> a.version == version)
    && (s.branch != "" ==> a.branch == s.branch)
    && (s.commit != "" ==> a.commit == s.commit)
    && (s.release != "" ==> a.release == s.release)
  }

  function Matching(apps: map<string, Application>, origin: string, version: string, s: Selector): set<string>
  {
    set id | id in apps && Matches(apps[id], origin, version, s)
  }

  /** The records a removal deletes: it looks at the first field that is given and at no other. */
  function Deleted(apps: map<string, Application>, origin: string, s: Selector): set<string>
  {
    if s.branch != "" then Matching(apps, origin, "", Selector(s.branch, "", ""))
    else if s.commit != "" then Matching(apps, origin, "", Selector("", s.commit, ""))
    else Matching(apps, origin, "", Selector("", "", s.release))
  }

  /** A field that is given is the one looked for; one that is not asks for nothing. */
  predicate Asks(given: string, field: string) { given == "" || given == field }

  lemma MatchingHolds(apps: map<string, Application>, origin: string, version: string, s: Selector, id: string)
    ensures id in Matching(apps, origin, version, s) <==>
            && id in apps && apps[id].origin == origin && Asks(version, apps[id].version)
            && Asks(s.branch, apps[id].branch) && Asks(s.commit, apps[id].commit) && Asks(s.release, apps[id].release)
  {
  }

  /** The record is of the origin, and of the branch, commit or release given: the first of the three that is. */
  predicate Selects(s: Selector, origin: string, a: Application)
  {
    && a.origin == origin
    && if s.branch != "" then a.branch == s.branch
       else if s.commit != "" then a.commit == s.commit
       else s.release == "" || a.release == s.release
  }

  /** A removal deletes exactly the records of the origin whose deciding field is the one given. */
  lemma DeletedHolds(apps: map<string, Application>, origin: string, s: Selector, id: string)
    ensures id in Deleted(apps, origin, s) <==> id in apps && Selects(s, origin, apps[id])
  {
  }

  lemma AllDeletedHold(apps: map<string, Application>, origin: string, s: Selector)
    ensures apps - Deleted(apps, origin, s) == map id | id in apps && !Selects(s, origin, apps[id]) :: apps[id]
    ensures forall id | id in Matching(apps, origin, "", s) :: Selects(s, origin, apps[id])
  {
    forall id
      ensures id in Deleted(apps, origin, s) <==> id in apps && Selects(s, origin, apps[id])
    {
      DeletedHolds(apps, origin, s, id);
    }
  }

  predicate UsedBy(apps: map<string, Application>, id: string, user: string)
  {
    user in apps && id in apps[user].dependencies
  }

  // ---------- layers to migrate ----------

  /**
   The layers of a list that a migration has to move, each once: not committed
   yet, and there in the legacy format.
   */
  function Pending(layers: seq<string>, committed: set<string>, legacy: set<string>): seq<string>
  {
    if layers == [] then []
    else
      var rest, last := layers[..|layers| - 1], layers[|layers| - 1];
      Pending(rest, committed, legacy) + if last in rest || last in committed || last !in legacy then [] else [last]
  }

  /** Exactly the layers still to be moved. */
  lemma {:induction false} PendingHolds(layers: seq<string>, committed: set<string>, legacy: set<string>, l: string)
    ensures l in Pending(layers, committed, legacy) <==> l in layers && l !in committed && l in legacy
  {
    if layers != [] {
      var rest, last := layers[..|layers| - 1], layers[|layers| - 1];
      assert layers == rest + [last];
      PendingHolds(rest, committed, legacy, l);
    }
  }

  lemma {:induction false} PendingOnce(layers: seq<string>, committed: set<string>, legacy: set<string>)
    ensures NoRepeats(Pending(layers, committed, legacy))
  {
    if layers != [] {
      var rest, last := layers[..|layers| - 1], layers[|layers| - 1];
      PendingOnce(rest, committed, legacy);
      PendingHolds(rest, committed, legacy, last);
    }
  }

  function Total(layers: seq<string>, sizes: map<string, nat>): nat
  {
    if layers == [] then 0
    else Total(layers[..|layers| - 1], sizes)
         + (if layers[|layers| - 1] in sizes then sizes[layers[|layers| - 1]] else 0)
  }

  lemma {:induction false} TotalAppended(layers: seq<string>, l: string, sizes: map<string, nat>)
    requires l in sizes
    ensures Total(layers + [l], sizes) == Total(layers, sizes) + sizes[l]
  {
    assert (layers + [l])[..|layers|] == layers;
  }

  /** One more layer of the list adds itself to what is pending unless it is settled or already counted. */
  lemma {:induction false} PendingGrows(layers: seq<string>, i: nat, committed: set<string>, legacy: set<string>,
                                        sizes: map<string, nat>)
    requires i < |layers| && legacy <= sizes.Keys
    ensures var done, more := Pending(layers[..i], committed, legacy), Pending(layers[..i + 1], committed, legacy);
            var l := layers[i];
            if l in committed || l !in legacy || l in done then more == done
            else
              && |more| == |done| + 1 && Total(more, sizes) == Total(done, sizes) + sizes[l]
              && forall x :: x in more <==> x in done || x == l
  {
    var l := layers[i];
    assert layers[..i + 1][..i] == layers[..i];
    PendingHolds(layers[..i], committed, legacy, l);
    var done := Pending(layers[..i], committed, legacy);
    if l in legacy {
      TotalAppended(done, l, sizes);
    }
    assert done + [] == done;
  }

  /** The progress of a migration after the first layers of the list. */
  ghost predicate Counted(done: seq<string>, sizes: map<string, nat>, moved: nat, completed: nat, migrated: set<string>)
  {
    moved == |done| && completed == Total(done, sizes) && forall l :: l in migrated <==> l in done
  }

  lemma {:induction false} CountedNext(layers: seq<string>, i: nat, committed: set<string>, legacy: set<string>,
                                       sizes: map<string, nat>, moved: nat, completed: nat, migrated: set<string>)
    requires i < |layers| && legacy <= sizes.Keys
    requires Counted(Pending(layers[..i], committed, legacy), sizes, moved, completed, migrated)
    ensures var l, next := layers[i], Pending(layers[..i + 1], committed, legacy);
            if l !in committed && l in legacy && l !in migrated
            then Counted(next, sizes, moved + 1, completed + sizes[l], migrated + {l})
            else Counted(next, sizes, moved, completed, migrated)
  {
    PendingGrows(layers, i, committed, legacy, sizes);
  }

  /** The record has nothing by which it could be selected. */
  predicate Unmarked(app: Application) { app.branch == "" && app.commit == "" && app.release == "" }

  function SelectorOf(app: Application): Selector { Selector(app.branch, app.commit, app.release) }

  /** The layers of a list that are not referenced. */
  function Loose(layers: seq<string>, referenced: set<string>): set<string>
  {
    set l | l in layers && l !in referenced
  }

  lemma LooseGrows(layers: seq<string>, i: nat, referenced: set<string>)
    requires i < |layers|
    ensures Loose(layers[..i + 1], referenced) ==
            Loose(layers[..i], referenced) + if layers[i] in referenced then {} else {layers[i]}
    ensures Loose(layers[..i + 1], referenced) <= Loose(layers, referenced)
  {
    assert layers[..i + 1] == layers[..i] + [layers[i]];
  }

  lemma OneFewer<T>(all: map<string, T>, gone: set<string>, name: string)
    ensures all - gone - {name} == all - (gone + {name})
  {
  }

  lemma Subset(some: set<string>, all: set<string>)
    requires some <= all
    ensures |some| <= |all|
  {
    if some != {} {
      var x :| x in some;
      Subset(some - {x}, all - {x});
    }
  }

  lemma SeveralIn(ids: set<string>, id: string)
    requires id in ids && ids != {id}
    ensures |ids| > 1
  {
    var other :| other in ids && other != id;
    assert {id, other} <= ids && |{id, other}| == 2;
    Subset({id, other}, ids);
  }

  lemma UnclearedRemoval(s: State, app: Application, gone: set<string>)
    ensures Enabled(s, Removes(app, gone, false, {}, {}))
    ensures After(s, Removes(app, gone, false, {}, {})) == s.(apps := s.apps - gone)
  {
    assert s.repositories - {} == s.repositories && s.legacy - {} == s.legacy;
  }

  lemma SoundIsStored(s: State)
    requires Sound(s)
    ensures forall id, l | id in s.apps && l in s.apps[id].layers :: Stored(s, l)
    ensures forall origin, a, l | origin in s.history && a in s.history[origin] && l in a.layers :: Stored(s, l)
  {
    forall origin, a, l | origin in s.history && a in s.history[origin] && l in a.layers
      ensures Stored(s, l)
    {
      assert Restorable(s.repositories, s.legacy, origin, s.history[origin]);
    }
  }

  /** Commands other than recovery keep a whole store whole. */
  lemma {:induction false} RunKeepsWhole(run: Run, i: nat)
    requires IsRun(run) && Whole(run.states[0]) && i < |run.states|
    requires forall k | 0 <= k < |run.events| :: !run.events[k].Recovers?
    ensures Whole(run.states[i])
  {
    if i > 0 {
      var k := i - 1;
      RunKeepsWhole(run, k);
      assert Step(run, k);
      CommandKeepsWhole(run.states[k], run.events[k]);
    }
  }

  lemma TwoSteps(run: Run, s: State, t: State, a: Event, b: Event)
    requires Leads(run, s, t) && run.events == [a, b]
    ensures Enabled(s, a) && Enabled(After(s, a), b) && t == After(After(s, a), b)
  {
    assert Step(run, 0) && Step(run, 1);
  }

  /** What comparing two records for changes sees of them; what else it compares is not part of a record here. */
  predicate SameInstallation(a: Application, b: Application)
  {
    a.id == b.id && a.version == b.version && a.layers == b.layers && a.dependencies == b.dependencies
  }

  lemma MatchingIsInstallations(apps: map<string, Application>, origin: string)
    ensures Matching(apps, origin, "", ANY) == UndoHistory.Installations(apps, origin)
  {
  }

  /** The records of all other origins. */
  function Elsewhere(apps: map<string, Application>, origin: string): map<string, Application>
  {
    map id | id in apps && apps[id].origin != origin :: apps[id]
  }

  lemma ElsewhereAfterPut(apps: map<string, Application>, id: string, next: Application)
    requires id in apps && next.origin == apps[id].origin && next.id !in Elsewhere(apps, next.origin)
    ensures Elsewhere(StoreEvents.Put(apps, id, next), next.origin) == Elsewhere(apps, next.origin)
  {
  }

  /** None of the records takes an identifier that is in use elsewhere. */
  ghost predicate Apart(records: seq<Application>, elsewhere: map<string, Application>)
  {
    forall a | a in records :: a.id !in elsewhere
  }

  /**
   Beside a record of an origin these are the records of other origins, and on
   demand it is the only one of its own.
   */
  ghost predicate Around(apps: map<string, Application>, id: string, origin: string,
                         elsewhere: map<string, Application>, sole: bool)
  {
    Elsewhere(apps, origin) == elsewhere && (sole ==> UndoHistory.Installations(apps, origin) == {id})
  }

  lemma PutAround(apps: map<string, Application>, id: string, next: Application, elsewhere: map<string, Application>,
                  sole: bool)
    requires id in apps && apps[id].origin == next.origin && next.id !in elsewhere
    requires Around(apps, id, next.origin, elsewhere, sole)
    ensures Around(StoreEvents.Put(apps, id, next), next.id, next.origin, elsewhere, sole)
  {
    ElsewhereAfterPut(apps, id, next);
    if sole {
      UndoHistory.InstallationsAfterPut(apps, id, next);
    }
  }

  /** What a completed rollback leaves installed and saved, whichever record of the origin it took. */
  lemma RolledBackLine(before: State, origin: string, taken: string)
    requires taken in UndoHistory.Installations(before.apps, origin) && HistoryOf(before, origin) != []
    requires UndoHistory.SavedUnder(before, origin)
    ensures var saved, after := HistoryOf(before, origin), After(before, RollsBack(taken, Finished));
            var last := saved[|saved| - 1];
            && last.origin == origin && after.apps == StoreEvents.Put(before.apps, taken, last)
            && last.id in after.apps && after.apps[last.id] == last
            && HistoryOf(after, origin) == saved[..|saved| - 1]
  {
    var saved := HistoryOf(before, origin);
    assert saved[|saved| - 1] in saved;
  }

  lemma {:induction false} ApartAfterUpdates(line: UndoHistory.Line, nexts: seq<Application>,
                                             elsewhere: map<string, Application>)
    requires |line.history| <= HISTORY_LIMIT && Apart(UndoHistory.Versions(line, nexts), elsewhere)
    ensures Apart(nexts, elsewhere) && Apart(UndoHistory.Updates(line, nexts).history, elsewhere)
  {
    UndoHistory.UpdatesKeepRecent(line, nexts);
    var all := UndoHistory.Versions(line, nexts);
    forall a | a in Recent(all[..|all| - 1])
      ensures a in all
    {
    }
  }

  lemma OneAndElsewhere(apps: map<string, Application>, origin: string, id: string)
    requires UndoHistory.Installations(apps, origin) == {id}
    ensures apps == Elsewhere(apps, origin)[id := apps[id]]
  {
    assert id in UndoHistory.Installations(apps, origin);
    forall k | k in apps
      ensures k in Elsewhere(apps, origin) || k == id
    {
      if k !in Elsewhere(apps, origin) { assert k in UndoHistory.Installations(apps, origin); }
    }
  }

  /** Which record a removal means, and by which selector; or why it means none. */
  method Choose(apps: map<string, Application>, origin: string, given: Selector)
    returns (s: Status, app: Application, selector: Selector)
    requires forall id | id in apps :: apps[id].id == id
    ensures s.NotFound? <==> Matching(apps, origin, "", given) == {}
    ensures s.Ambiguous? <==> given == ANY && |Matching(apps, origin, "", ANY)| > 1
    ensures s.NoSelector? <==>
            given == ANY && exists id :: Matching(apps, origin, "", ANY) == {id} && Unmarked(apps[id])
    ensures s.Done? || s.NotFound? || s.Ambiguous? || s.NoSelector?
    ensures s.Done? ==> && app.id in apps && apps[app.id] == app && Matches(app, origin, "", selector)
                        && selector == if given == ANY then Selector(app.branch, app.commit, app.release) else given
  {
    selector := given;
    app := Application("", "", "", "", "", "", [], []);
    var candidates := Matching(apps, origin, "", given);
    if given == ANY {
      if candidates == {} {
        return NotFound, app, selector;
      }
      var only :| only in candidates;
      if candidates != {only} {
        SeveralIn(candidates, only);
        return Ambiguous, app, selector;
      }
      selector := SelectorOf(apps[only]);
      if selector == ANY {
        return NoSelector, app, selector;
      }
      return Done, apps[only], selector;
    }
    if candidates == {} {
      return NotFound, app, selector;
    }
    var id :| id in candidates;
    return Done, apps[id], selector;
  }

  class Store {
    var apps: map<string, Application>
    var history: map<string, seq<Application>>
    var repositories: map<string, bool>
    var legacy: set<string>
    var pending: map<string, Transaction>

    function Now(): State
      reads this
    {
      State(apps, history, repositories, legacy, pending)
    }

    /** Records are stored under their own identifier. */
    ghost predicate Valid()
      reads this
    {
      forall id | id in apps :: apps[id].id == id
    }

    constructor ()
      ensures Valid() && Now() == State(map[], map[], map[], {}, map[])
    {
      apps, history, repositories, legacy, pending := map[], map[], map[], {}, map[];
    }

    predicate Committed(layer: string)
      reads this
    {
      layer in repositories && repositories[layer]
    }

    predicate IsStored(layer: string)
      reads this
    {
      StoredIn(repositories, legacy, layer)
    }

    /** The layers installed and saved applications name. */
    function Referenced(): (r: set<string>)
      reads this
      ensures forall l :: l in r <==> Needs(apps, history, l)
    {
      (set id, l | id in apps && l in apps[id].layers :: l)
      + (set origin, a, l | origin in history && a in history[origin] && l in a.layers :: l)
    }

    // ---------- records ----------

    /** Fetches layers: each is stored afterwards, and nothing stored is lost. */
    method Pull(layers: seq<string>) returns (ok: bool)
      modifies this`repositories
      ensures Grows(old(repositories), repositories)
      ensures ok ==> forall l | l in layers :: (l in repositories && repositories[l]) || l in legacy
    {
      for i := 0 to |layers|
        invariant Grows(old(repositories), repositories)
        invariant forall j | 0 <= j < i :: IsStored(layers[j])
      {
        if * {
          return false;
        }
        if !IsStored(layers[i]) {
          repositories := repositories[layers[i] := true];
        }
      }
      ok := true;
    }

    /** Installs an application once its layers are stored, unless it is there already. */
    method Install(app: Application) returns (s: Status, ghost run: Run)
      requires Valid()
      modifies this
      ensures Valid() && Leads(run, old(Now()), Now())
      ensures s.AlreadyInstalled? <==>
                Matching(old(apps), app.origin, app.version, Selector(app.branch, app.commit, app.release)) != {}
      ensures s.AlreadyInstalled? ==> run.events == []
      ensures s.Failed? ==> run.events == [Pulls(repositories)]
      ensures s.Done? ==> run.events == [Pulls(repositories), Installs(app)]
      ensures s.AlreadyInstalled? || s.Failed? || s.Done?
    {
      run := Start(Now());
      StartLeads(Now());
      if Matching(apps, app.origin, app.version, Selector(app.branch, app.commit, app.release)) != {} {
        return AlreadyInstalled, run;
      }
      var ok := Pull(app.layers);
      ExtendedLeads(run, old(Now()), old(Now()), Pulls(repositories));
      run := Extended(run, Pulls(repositories));
      if !ok {
        return Failed, run;
      }
      if * {
        return Failed, run;
      }
      ExtendedLeads(run, old(Now()), Now(), Installs(app));
      run := Extended(run, Installs(app));
      apps := apps[app.id := app];
      s := Done;
    }

    /**
     Puts one record in place of another: the old one is deleted first, and
     stored again when the new one cannot be.
     */
    method Replace(app: Application, next: Application) returns (r: Replacement)
      modifies this`apps
      ensures r.StoredAgain? || r.BothLost? ==> app.id != next.id
      ensures apps == match r
                      case Untouched => old(apps)
                      case StoredAgain => old(apps)[app.id := app]
                      case BothLost => old(apps) - {app.id}
                      case Put => StoreEvents.Put(old(apps), app.id, next)
    {
      if * {
        return Untouched;
      }
      if app.id == next.id {
        apps := apps[next.id := next];
        return Put;
      }
      apps := apps - {app.id};
      if * {
        apps := apps[next.id := next];
        return Put;
      }
      if * {
        return BothLost;
      }
      apps := apps[app.id := app];
      r := StoredAgain;
    }

    /** The last steps of an open transaction, once the record was replaced: commit it, and take it off the log. */
    method Conclude(id: string, t: Transaction, ghost log: map<string, Transaction>) returns (stage: Stage)
      requires pending == log[id := t]
      modifies this`pending
      ensures stage.Replaced? || stage.Committed? || stage.Finished?
      ensures pending == match stage
                         case Replaced => log[id := t]
                         case Committed => log[id := t.(committed := true)]
                         case _ => log - {id}
    {
      if * {
        return Replaced;
      }
      pending := pending[id := t.(committed := true)];
      assert pending == log[id := t.(committed := true)];
      if * {
        return Stage.Committed;
      }
      pending := pending - {id};
      assert pending == log - {id};
      stage := Finished;
    }

    /** The steps of an update after its layers are there: log, save, replace, and conclude. */
    method ApplyUpdate(id: string, next: Application) returns (reached: bool, stage: Stage)
      requires Valid() && id in apps && next.origin == apps[id].origin
      modifies this`apps, this`history, this`pending
      ensures Valid()
      ensures !reached ==> Now() == old(Now())
      ensures reached ==> Now() == AfterUpdate(old(Now()), id, next, stage)
      ensures !stage.Swapped? && !stage.Popped? && (stage.Lost? ==> id != next.id)
    {
      var app := apps[id];
      if * {
        return false, Begun;
      }
      pending := pending[id := Transaction(app, next, false)];
      if * {
        return true, Begun;
      }
      history := history[app.origin := Recent((if app.origin in history then history[app.origin] else []) + [app])];
      var replaced := Replace(app, next);
      if replaced.Put? {
        stage := Conclude(id, Transaction(app, next, false), old(pending));
        return true, stage;
      }
      if replaced.BothLost? {
        return true, Lost;
      }
      assert apps == old(apps);
      return true, Saved;
    }

    /** Updates an installed application; on failure the run says how far it came. */
    method UpdateApplication(id: string, found: Application) returns (s: Status, ghost run: Run)
      requires Valid()
      modifies this
      ensures Valid() && Leads(run, old(Now()), Now())
      ensures s.NotFound? <==> id !in old(apps)
      ensures s.NotFound? ==> run.events == []
      ensures id in old(apps) ==>
                var next := found.(origin := old(apps)[id].origin);
                && (s.UpToDate? ==>
                      && SameInstallation(old(apps)[id], next)
                      && (run.events == [Pulls(repositories)] || run.events == [Pulls(repositories), Installs(next)]))
                && (s.Done? ==> run.events == [Pulls(repositories), Updates(id, next, Finished)])
                && (s.Failed? ==> || run.events == [Pulls(repositories)]
                                  || exists stage ::
                                     stage != Finished && run.events == [Pulls(repositories), Updates(id, next, stage)])
      ensures s.NotFound? || s.Failed? || s.UpToDate? || s.Done?
    {
      run := Start(Now());
      StartLeads(Now());
      if id !in apps {
        return NotFound, run;
      }
      var next := found.(origin := apps[id].origin);
      var ok := Pull(next.layers);
      ExtendedLeads(run, old(Now()), old(Now()), Pulls(repositories));
      run := Extended(run, Pulls(repositories));
      if !ok {
        return Failed, run;
      }
      ghost var pulled := Now();
      var same: bool := *;
      if same && SameInstallation(apps[id], next) {
        if * {
          return Failed, run;
        }
        if * {
          return UpToDate, run;
        }
        ExtendedLeads(run, old(Now()), pulled, Installs(next));
        run := Extended(run, Installs(next));
        apps := apps[next.id := next];
        return UpToDate, run;
      }
      var reached, stage := ApplyUpdate(id, next);
      if !reached {
        return Failed, run;
      }
      ExtendedLeads(run, old(Now()), pulled, Updates(id, next, stage));
      run := Extended(run, Updates(id, next, stage));
      s := if stage == Finished then Done else Failed;
    }

    method ApplyRollback(id: string) returns (reached: bool, stage: Stage)
      requires Valid() && id in apps && HistoryOf(Now(), apps[id].origin) != []
      modifies this`apps, this`history, this`pending
      ensures Valid()
      ensures !reached ==> Now() == old(Now())
      ensures reached ==> Now() == AfterRollback(old(Now()), id, stage)
      ensures reached ==> Enabled(old(Now()), RollsBack(id, stage))
    {
      var app := apps[id];
      var saved := history[app.origin];
      var previous := saved[|saved| - 1];
      if * {
        return false, Begun;
      }
      pending := pending[id := Transaction(app, previous, false)];
      if * {
        return true, Begun;
      }
      var replaced := Replace(app, previous);
      if replaced.Put? {
        stage :=
          ConcludeRollback(id, Transaction(app, previous, false), old(pending), app.origin, saved[..|saved| - 1]);
        return true, stage;
      }
      if replaced.BothLost? {
        return true, Lost;
      }
      assert apps == old(apps);
      return true, Begun;
    }

    /**
     The last steps of a rollback, which shortens the history between committing
     its transaction and taking it off the log.
     */
    method ConcludeRollback(id: string, t: Transaction, ghost log: map<string, Transaction>, origin: string,
                            shorter: seq<Application>)
      returns (stage: Stage)
      requires pending == log[id := t]
      modifies this`pending, this`history
      ensures stage.Replaced? || stage.Committed? || stage.Popped? || stage.Finished?
      ensures pending == match stage
                         case Replaced => log[id := t]
                         case Finished => log - {id}
                         case _ => log[id := t.(committed := true)]
      ensures history == if stage.Popped? || stage.Finished? then old(history)[origin := shorter] else old(history)
    {
      if * {
        return Replaced;
      }
      pending := pending[id := t.(committed := true)];
      assert pending == log[id := t.(committed := true)];
      if * {
        return Stage.Committed;
      }
      history := history[origin := shorter];
      if * {
        return Popped;
      }
      pending := pending - {id};
      assert pending == log - {id};
      stage := Finished;
    }

    /** Restores the most recent saved installation of an origin. */
    method RollbackApplication(origin: string) returns (s: Status, ghost run: Run)
      requires Valid()
      modifies this
      ensures Valid() && Leads(run, old(Now()), Now())
      ensures s.NotFound? <==> Matching(old(apps), origin, "", ANY) == {}
      ensures s.NoHistory? <==> Matching(old(apps), origin, "", ANY) != {} && HistoryOf(old(Now()), origin) == []
      ensures s.NotFound? || s.NoHistory? ==> run.events == []
      ensures s.Done? ==>
              exists id :: id in Matching(old(apps), origin, "", ANY) && run.events == [RollsBack(id, Finished)]
      ensures s.Failed? ==> || run.events == []
                            || exists id, stage :: id in Matching(old(apps), origin, "", ANY) && stage != Finished
                                                   && run.events == [RollsBack(id, stage)]
      ensures s.NotFound? || s.NoHistory? || s.Failed? || s.Done?
    {
      run := Start(Now());
      StartLeads(Now());
      var candidates := Matching(apps, origin, "", ANY);
      if candidates == {} {
        return NotFound, run;
      }
      var id :| id in candidates;
      if origin !in history || history[origin] == [] {
        return NoHistory, run;
      }
      var reached, stage := ApplyRollback(id);
      if !reached {
        return Failed, run;
      }
      ExtendedLeads(run, old(Now()), old(Now()), RollsBack(id, stage));
      run := Extended(run, RollsBack(id, stage));
      s := if stage == Finished then Done else Failed;
    }

    // ---------- recovery ----------

    /** Recovers one transaction of the log. */
    method RecoverOne(key: string) returns (reached: bool, stage: Stage)
      requires Valid() && key in pending
      modifies this`apps, this`pending
      ensures Valid()
      ensures !reached ==> Now() == old(Now())
      ensures reached ==> Now() == AfterRecovery(old(Now()), key, stage) && Enabled(old(Now()), Recovers(key, stage))
    {
      var t := pending[key];
      if t.committed {
        if * {
          return false, Finished;
        }
        pending := pending - {key};
        return true, Finished;
      }
      var replaced := Replace(t.updated, t.previous);
      match replaced {
        case Untouched => return false, Finished;
        case StoredAgain => return true, Swapped;
        case BothLost => return true, Lost;
        case Put =>
      }
      if * {
        return true, Replaced;
      }
      pending := pending - {key};
      return true, Finished;
    }

    /** What every update starts with: each transaction of the log is recovered, in no particular order. */
    method RecoverTransactions() returns (s: Status, ghost run: Run)
      requires Valid()
      modifies this
      ensures Valid() && Leads(run, old(Now()), Now())
      ensures forall i | 0 <= i < |run.events| :: run.events[i].Recovers?
      ensures history == old(history) && repositories == old(repositories) && legacy == old(legacy)
      ensures s.Done? ==> pending == map[]
      ensures s.Done? || s.Failed?
    {
      run := Start(Now());
      StartLeads(Now());
      while pending != map[]
        invariant Valid() && Leads(run, old(Now()), Now())
        invariant forall i | 0 <= i < |run.events| :: run.events[i].Recovers?
        invariant history == old(history) && repositories == old(repositories) && legacy == old(legacy)
        decreases |pending|
      {
        var key :| key in pending;
        ghost var before := Now();
        var reached, stage := RecoverOne(key);
        if !reached {
          return Failed, run;
        }
        ExtendedLeads(run, old(Now()), before, Recovers(key, stage));
        run := Extended(run, Recovers(key, stage));
        if stage != Finished {
          return Failed, run;
        }
        assert pending == before.pending - {key};
        assert pending.Keys == before.pending.Keys - {key};
      }
      s := Done;
    }

    // ---------- removal ----------

    /** Deletes records one by one. */
    method DeleteRecords(ids: set<string>) returns (gone: set<string>, ok: bool)
      modifies this`apps
      ensures gone <= ids && apps == old(apps) - gone
      ensures ok ==> gone == ids
    {
      gone := {};
      var left := ids;
      while left != {}
        invariant left <= ids && gone == ids - left && apps == old(apps) - gone
        decreases |left|
      {
        if * {
          return gone, false;
        }
        var id :| id in left;
        left := left - {id};
        OneFewer(old(apps), gone, id);
        apps := apps - {id};
        gone := gone + {id};
      }
      ok := true;
    }

    /** Drops the layers of a list that are not referenced, in both formats. */
    method DropLayers(layers: seq<string>, referenced: set<string>)
      returns (dropped: set<string>, droppedLegacy: set<string>, ok: bool)
      modifies this`repositories, this`legacy
      ensures droppedLegacy <= dropped <= Loose(layers, referenced)
      ensures repositories == old(repositories) - dropped && legacy == old(legacy) - droppedLegacy
      ensures ok ==> dropped == droppedLegacy == Loose(layers, referenced)
    {
      dropped, droppedLegacy := {}, {};
      for i := 0 to |layers|
        invariant dropped == droppedLegacy == Loose(layers[..i], referenced)
        invariant repositories == old(repositories) - dropped && legacy == old(legacy) - droppedLegacy
      {
        LooseGrows(layers, i, referenced);
        if layers[i] !in referenced {
          if * {
            return dropped, droppedLegacy, false;
          }
          OneFewer(old(repositories), dropped, layers[i]);
          repositories := repositories - {layers[i]};
          dropped := dropped + {layers[i]};
          if * {
            return dropped, droppedLegacy, false;
          }
          legacy := legacy - {layers[i]};
          droppedLegacy := droppedLegacy + {layers[i]};
        }
      }
      assert layers[..|layers|] == layers;
      ok := true;
    }

    /** Removes an application, the history of its origin, and the layers only it needed. */
    method Remove(origin: string, given: Selector, addonUsers: bool)
      returns (s: Status, ghost run: Run, ghost app: Application, ghost selector: Selector)
      requires Valid()
      modifies this
      ensures Valid() && Leads(run, old(Now()), Now())
      ensures s.NotFound? <==> Matching(old(apps), origin, "", given) == {}
      ensures s.Ambiguous? <==> given == ANY && |Matching(old(apps), origin, "", ANY)| > 1
      ensures s.NoSelector? <==>
              given == ANY
              && exists id :: Matching(old(apps), origin, "", ANY) == {id} && Unmarked(old(apps)[id])
      ensures s.InUse? ==> addonUsers || exists user :: user in old(apps) && app.id in old(apps)[user].dependencies
      ensures s.Done? ==> !addonUsers && forall user | user in old(apps) :: app.id !in old(apps)[user].dependencies
      ensures !s.Done? && !s.Failed? ==> run.events == []
      ensures s.Done? ==>
                var loose := Loose(app.layers, Referenced());
                && app.id in old(apps) && old(apps)[app.id] == app && Matches(app, origin, "", selector)
                && selector == (if given == ANY then Selector(app.branch, app.commit, app.release) else given)
                && run.events == [Removes(app, Deleted(old(apps), origin, selector), true, loose, loose)]
      ensures s.Done? ==>
                && Selects(selector, origin, app)
                && apps == (map id | id in old(apps) && !Selects(selector, origin, old(apps)[id]) :: old(apps)[id])
                && history == old(history) - {origin}
    {
      run := Start(Now());
      StartLeads(Now());
      var picked, wanted;
      s, picked, wanted := Choose(apps, origin, given);
      app, selector := picked, wanted;
      if !s.Done? {
        return;
      }
      if addonUsers || exists user | user in apps :: UsedBy(apps, picked.id, user) {
        s := InUse;
        return;
      }
      if * {
        s := Failed;
        return;
      }
      var ok, e := RemoveRecord(picked, Deleted(apps, origin, wanted));
      ExtendedLeads(run, old(Now()), old(Now()), e);
      run := Extended(run, e);
      s := if ok then Done else Failed;
      AllDeletedHold(old(apps), origin, wanted);
    }

    /** The steps of a removal: the records, the history, the layers. */
    method RemoveRecord(app: Application, ids: set<string>) returns (ok: bool, ghost e: Event)
      requires Valid()
      modifies this
      ensures Valid() && Enabled(old(Now()), e) && Now() == After(old(Now()), e)
      ensures ok ==> e == Removes(app, ids, true, Loose(app.layers, Referenced()), Loose(app.layers, Referenced()))
    {
      var gone;
      gone, ok := DeleteRecords(ids);
      e := Removes(app, gone, false, {}, {});
      if !ok {
        UnclearedRemoval(old(Now()), app, gone);
        return;
      }
      if * {
        UnclearedRemoval(old(Now()), app, gone);
        return false, e;
      }
      history := history - {app.origin};
      var referenced := Referenced();
      var dropped, droppedLegacy;
      dropped, droppedLegacy, ok := DropLayers(app.layers, referenced);
      e := Removes(app, gone, true, dropped, droppedLegacy);
    }

    // ---------- garbage ----------

    /** Drops repositories outside `kept`, or only lists them. */
    method DropRepositories(apply: bool, kept: set<string>) returns (dropped: set<string>, s: Status)
      modifies this`repositories
      ensures dropped <= old(repositories).Keys - kept
      ensures repositories == if apply then old(repositories) - dropped else old(repositories)
      ensures s.Done? ==> dropped == old(repositories).Keys - kept
      ensures s.Done? || s.Failed?
    {
      dropped := {};
      var left := repositories.Keys;
      while left != {}
        invariant left <= old(repositories).Keys
        invariant dropped == old(repositories).Keys - kept - left
        invariant repositories == if apply then old(repositories) - dropped else old(repositories)
        decreases |left|
      {
        var name :| name in left;
        left := left - {name};
        if name !in kept {
          if * {
            return dropped, Failed;
          }
          if apply {
            OneFewer(old(repositories), dropped, name);
            repositories := repositories - {name};
          }
          dropped := dropped + {name};
        }
      }
      s := Done;
    }

    /** The legacy directories nothing names, or whose layer has a committed repository. */
    ghost function LooseLegacy(kept: set<string>): set<string>
      reads this
    {
      set l | l in legacy && (l !in kept || Committed(l))
    }

    method DropLegacy(apply: bool, kept: set<string>) returns (dropped: set<string>, s: Status)
      modifies this`legacy
      ensures dropped <= old(LooseLegacy(kept))
      ensures legacy == if apply then old(legacy) - dropped else old(legacy)
      ensures s.Done? ==> dropped == old(LooseLegacy(kept))
      ensures s.Done? || s.Failed?
    {
      dropped := {};
      var left := legacy;
      while left != {}
        invariant left <= old(legacy)
        invariant dropped == old(LooseLegacy(kept)) - left
        invariant legacy == if apply then old(legacy) - dropped else old(legacy)
        decreases |left|
      {
        var name :| name in left;
        left := left - {name};
        if name !in kept || Committed(name) {
          if * {
            return dropped, Failed;
          }
          dropped := dropped + {name};
          if apply {
            legacy := legacy - {name};
          }
        }
      }
      s := Done;
    }

    /**
     Collects layers nothing names. A plan changes nothing and lists exactly
     what applying it removes; applying never takes the last copy of a layer
     that is kept. `composed` are the layers launches compose besides their own.
     */
    method CollectGarbage(apply: bool, composed: set<string>)
      returns (dropped: set<string>, droppedLegacy: set<string>, s: Status, ghost run: Run)
      modifies this`repositories, this`legacy
      ensures Leads(run, old(Now()), Now())
      ensures run.events == if apply then [Collects(old(Referenced()) + composed, dropped, droppedLegacy)] else []
      ensures s.Done? ==> dropped == old(repositories).Keys - (old(Referenced()) + composed)
      ensures s.Done? ==> droppedLegacy == old(LooseLegacy(Referenced() + composed))
      ensures forall l | old(IsStored(l)) && (l in old(Referenced()) || l in composed) :: IsStored(l)
    {
      run := Start(Now());
      StartLeads(Now());
      var kept := Referenced() + composed;
      droppedLegacy := {};
      dropped, s := DropRepositories(apply, kept);
      if s.Done? {
        droppedLegacy, s := DropLegacy(apply, kept);
      }
      if apply {
        ExtendedLeads(run, old(Now()), old(Now()), Collects(kept, dropped, droppedLegacy));
        run := Extended(run, Collects(kept, dropped, droppedLegacy));
      }
    }

    /** Moves one layer to a repository; the legacy copy goes only once the repository is published. */
    method EnsureLayer(layer: string) returns (ready: bool, s: Status)
      modifies this`repositories, this`legacy
      ensures forall l | old(IsStored(l)) :: IsStored(l)
      ensures forall l | l != layer :: Committed(l) == old(Committed(l)) && (l in legacy <==> l in old(legacy))
      ensures legacy <= old(legacy)
      ensures s.Done? ==> (ready <==> old(IsStored(layer))) && (ready ==> Committed(layer) && layer !in legacy)
      ensures old(Committed(layer)) ==> Committed(layer)
      ensures s.Done? || s.Failed?
    {
      ready := false;
      if Committed(layer) {
        if * {
          return false, Failed;
        }
        legacy := legacy - {layer};
        return true, Done;
      }
      if layer !in legacy {
        return false, Done;
      }
      if * {
        return false, Failed;
      }
      repositories := repositories[layer := true];
      if * {
        return false, Failed;
      }
      legacy := legacy - {layer};
      ready, s := true, Done;
    }

    /**
     Migrates the layers of a launch in order. When it succeeds every one of
     them is in a repository, and the progress it reported adds up: as many
     layers as were pending, and exactly their bytes.
     */
    method EnsureLayers(layers: seq<string>, sizes: map<string, nat>) returns (moved: nat, completed: nat, s: Status)
      requires legacy <= sizes.Keys
      modifies this`repositories, this`legacy
      ensures forall l | old(IsStored(l)) :: IsStored(l)
      ensures s.Done? ==> forall l | l in layers :: Committed(l)
      ensures var pending := Pending(layers, set l | l in layers && old(Committed(l)), old(legacy));
              s.Done? ==> moved == |pending| && completed == Total(pending, sizes)
      ensures s.NotFound? ==> exists l :: l in layers && !old(IsStored(l))
    {
      var available := set l | l in layers && Committed(l);
      var planned := set l | l in layers && !Committed(l) && l in legacy;
      ghost var before := legacy;
      moved, completed := 0, 0;
      var migrated: set<string> := {};
      for i := 0 to |layers|
        invariant forall l | old(IsStored(l)) :: IsStored(l)
        invariant forall l | l in layers :: IsStored(l) ==> old(IsStored(l))
        invariant available == set l | l in layers && old(Committed(l))
        invariant planned == set l | l in layers && l !in available && l in before
        invariant forall l | l in layers[..i] :: Committed(l)
        invariant Counted(Pending(layers[..i], available, before), sizes, moved, completed, migrated)
        invariant legacy <= before
      {
        var layer := layers[i];
        CountedNext(layers, i, available, before, sizes, moved, completed, migrated);
        var ready;
        ready, s := EnsureLayer(layer);
        if !s.Done? {
          return;
        }
        if !ready {
          return moved, completed, NotFound;
        }
        if layer in planned && layer !in migrated {
          moved, completed := moved + 1, completed + sizes[layer];
          migrated := migrated + {layer};
        }
      }
      assert layers[..|layers|] == layers;
      s := Done;
    }

    /** The migration as one event of a run. */
    method Migrate(layers: seq<string>, sizes: map<string, nat>) returns (s: Status, ghost run: Run)
      requires legacy <= sizes.Keys
      modifies this`repositories, this`legacy
      ensures Leads(run, old(Now()), Now()) && run.events == [Migrates(repositories, legacy)]
      ensures s.Done? ==> forall l | l in layers :: Committed(l)
    {
      var _, _, status := EnsureLayers(layers, sizes);
      s := status;
      StartLeads(old(Now()));
      forall l | Stored(old(Now()), l)
        ensures StoredIn(repositories, legacy, l)
      {
        assert old(IsStored(l)) && IsStored(l);
      }
      ExtendedLeads(Start(old(Now())), old(Now()), old(Now()), Migrates(repositories, legacy));
      run := Extended(Start(old(Now())), Migrates(repositories, legacy));
    }

    // ---------- any commands ----------

    method Execute(command: Command, size: string -> nat) returns (ghost run: Run)
      requires Valid()
      modifies this
      ensures Valid() && Leads(run, old(Now()), Now())
    {
      match command {
        case InstallOne(app) =>
          var _, more := Install(app);
          run := more;
        case UpdateOne(id, next) =>
          var _, more := UpdateApplication(id, next);
          run := more;
        case RollbackOne(origin) =>
          var _, more := RollbackApplication(origin);
          run := more;
        case RecoverAll =>
          var _, more := RecoverTransactions();
          run := more;
        case RemoveOne(origin, selector, addonUsers) =>
          var _, more, _, _ := Remove(origin, selector, addonUsers);
          run := more;
        case Collect(apply, composed) =>
          var _, _, _, more := CollectGarbage(apply, composed);
          run := more;
        case Migrate(layers) =>
          var sizes := map l | l in legacy :: size(l);
          var _, more := this.Migrate(layers, sizes);
          run := more;
      }
    }

    /**
     Any sequence of commands, each of which may stop early. As long as no
     removal or collection takes a layer that an open transaction names, every
     layer that an installed application or a saved one names is still stored.
     */
    method Run(commands: seq<Command>, size: string -> nat) returns (ghost run: StoreEvents.Run)
      requires Valid()
      modifies this
      ensures Valid() && Leads(run, old(Now()), Now())
      ensures Sound(old(Now())) && GuardedRun(run) ==> Sound(Now())
      ensures Sound(old(Now())) && GuardedRun(run) ==>
                && (forall id, l | id in apps && l in apps[id].layers ::
                      (l in repositories && repositories[l]) || l in legacy)
                && (forall origin, a, l | origin in history && a in history[origin] && l in a.layers ::
                      (l in repositories && repositories[l]) || l in legacy)
    {
      run := Start(Now());
      StartLeads(Now());
      for i := 0 to |commands|
        invariant Valid() && Leads(run, old(Now()), Now())
      {
        ghost var before := Now();
        ghost var more := Execute(commands[i], size);
        JoinedLeads(run, more, old(Now()), before, Now());
        run := Joined(run, more);
      }
      if Sound(old(Now())) && GuardedRun(run) {
        RunKeepsSound(run, |run.events|);
        SoundIsStored(Now());
      }
    }

    // ---------- updates and rollbacks on the store ----------

    /** A record and what its origin can go back to. */
    function LineOf(id: string): UndoHistory.Line
      requires id in apps
      reads this
    {
      UndoHistory.Line(apps[id], HistoryOf(Now(), apps[id].origin))
    }

    /** One update of a record. */
    method UpdateOnce(id: string, origin: string, next: Application, ghost elsewhere: map<string, Application>,
                      ghost sole: bool)
      returns (s: Status)
      requires Valid() && Whole(Now()) && id in apps && apps[id].origin == origin == next.origin
      modifies this
      ensures Valid() && Whole(Now())
      ensures s.Done? ==> next.id in apps && LineOf(next.id) == UndoHistory.Update(old(LineOf(id)), next)
      ensures s.Done? && Around(old(apps), id, origin, elsewhere, sole) && next.id !in elsewhere
              ==> Around(apps, next.id, origin, elsewhere, sole)
    {
      ghost var run;
      ghost var before := Now();
      assert next.(origin := apps[id].origin) == next;
      s, run := UpdateApplication(id, next);
      RunKeepsWhole(run, |run.events|);
      if s.Done? {
        TwoSteps(run, before, Now(), Pulls(repositories), StoreEvents.Updates(id, next, Finished));
        if Around(before.apps, id, origin, elsewhere, sole) && next.id !in elsewhere {
          PutAround(before.apps, id, next, elsewhere, sole);
        }
      }
    }

    /** One rollback of an origin, whichever record the store answers with. */
    method RollbackOnce(ghost id: string, origin: string, ghost elsewhere: map<string, Application>, ghost sole: bool)
      returns (last: string, s: Status)
      requires Valid() && Whole(Now()) && id in apps && apps[id].origin == origin
      modifies this
      ensures Valid() && Whole(Now())
      ensures s.Done? ==> && old(LineOf(id)).history != [] && last in apps && apps[last].origin == origin
                          && LineOf(last) == UndoHistory.Rollback(old(LineOf(id)))
      ensures s.Done? && Around(old(apps), id, origin, elsewhere, sole) && Apart(old(LineOf(id)).history, elsewhere)
              ==> Around(apps, last, origin, elsewhere, sole)
    {
      ghost var run;
      ghost var before := Now();
      last := "";
      var saved := if origin in history then history[origin] else [];
      UndoHistory.WholeIsSavedUnder(before, origin);
      MatchingIsInstallations(before.apps, origin);
      s, run := RollbackApplication(origin);
      RunKeepsWhole(run, |run.events|);
      if s.Done? {
        ghost var taken :| taken in Matching(before.apps, origin, "", ANY)
                           && run.events == [RollsBack(taken, Finished)];
        assert Step(run, 0);
        RolledBackLine(before, origin, taken);
        last := saved[|saved| - 1].id;
        if Around(before.apps, id, origin, elsewhere, sole) && Apart(saved, elsewhere) {
          PutAround(before.apps, taken, saved[|saved| - 1], elsewhere, sole);
        }
      }
    }

    /** Updates one application again and again, as long as each update replaces what it finds. */
    method UpdateAll(id: string, origin: string, nexts: seq<Application>, ghost elsewhere: map<string, Application>,
                     ghost sole: bool)
      returns (last: string, s: Status)
      requires Valid() && Whole(Now()) && id in apps && apps[id].origin == origin
      requires forall n | n in nexts :: n.origin == origin
      modifies this
      ensures Valid() && Whole(Now())
      ensures s.Done? ==> && last in apps && apps[last].origin == origin
                          && LineOf(last) == UndoHistory.Updates(old(LineOf(id)), nexts)
      ensures s.Done? && Around(old(apps), id, origin, elsewhere, sole) && Apart(nexts, elsewhere)
              ==> Around(apps, last, origin, elsewhere, sole)
    {
      last, s := id, Done;
      for i := 0 to |nexts|
        invariant Valid() && Whole(Now()) && last in apps && apps[last].origin == origin
        invariant LineOf(last) == UndoHistory.Updates(old(LineOf(id)), nexts[..i])
        invariant Around(old(apps), id, origin, elsewhere, sole) && Apart(nexts, elsewhere)
                  ==> Around(apps, last, origin, elsewhere, sole)
      {
        assert nexts[..i + 1][..i] == nexts[..i] && nexts[i] in nexts;
        s := UpdateOnce(last, origin, nexts[i], elsewhere, sole);
        if !s.Done? {
          return;
        }
        last := nexts[i].id;
      }
      assert nexts[..|nexts|] == nexts;
      s := Done;
    }

    method RollbackAll(id: string, origin: string, times: nat, ghost elsewhere: map<string, Application>,
                       ghost sole: bool)
      returns (last: string, s: Status)
      requires Valid() && Whole(Now()) && id in apps && apps[id].origin == origin
      modifies this
      ensures Valid() && Whole(Now())
      ensures s.Done? ==> && last in apps && apps[last].origin == origin
                          && LineOf(last) == UndoHistory.Rollbacks(old(LineOf(id)), times)
      ensures s.Done? && Around(old(apps), id, origin, elsewhere, sole) && Apart(old(LineOf(id)).history, elsewhere)
              ==> Around(apps, last, origin, elsewhere, sole)
    {
      last, s := id, Done;
      for i := 0 to times
        invariant Valid() && Whole(Now()) && last in apps && apps[last].origin == origin
        invariant LineOf(last) == UndoHistory.Rollbacks(old(LineOf(id)), i)
        invariant forall a | a in LineOf(last).history :: a in old(LineOf(id)).history
        invariant Around(old(apps), id, origin, elsewhere, sole) && Apart(old(LineOf(id)).history, elsewhere)
                  ==> Around(apps, last, origin, elsewhere, sole)
      {
        last, s := RollbackOnce(last, origin, elsewhere, sole);
        if !s.Done? {
          return;
        }
      }
      s := Done;
    }

    /**
     Updates followed by rollbacks, on the store as it is on disk, whichever
     records the store answers with: what was installed that many updates ago is
     installed again, with every layer of it stored. Records of other origins are
     as they were unless a version takes the identifier of one of them, and an
     origin that had one installation still has one.
     */
    method UpdateThenRollBack(id: string, nexts: seq<Application>, times: nat) returns (last: string, s: Status)
      requires Valid() && Whole(Now()) && id in apps && forall n | n in nexts :: n.origin == apps[id].origin
      requires times <= UndoHistory.Least(3, |HistoryOf(Now(), apps[id].origin)| + |nexts|)
      modifies this
      ensures Valid() && Whole(Now())
      ensures s.Done? ==>
                var versions := UndoHistory.Versions(old(LineOf(id)), nexts);
                last in apps && apps[last] == versions[|versions| - 1 - times] && Complete(Now(), apps[last])
      ensures s.Done? ==>
                var origin := old(apps[id].origin);
                Apart(UndoHistory.Versions(old(LineOf(id)), nexts), Elsewhere(old(apps), origin)) ==>
                  && Elsewhere(apps, origin) == Elsewhere(old(apps), origin)
                  && (UndoHistory.Installations(old(apps), origin) == {id} ==>
                        apps == Elsewhere(old(apps), origin)[last := apps[last]])
    {
      ghost var line := LineOf(id);
      var origin := apps[id].origin;
      ghost var elsewhere, sole := Elsewhere(apps, origin), UndoHistory.Installations(apps, origin) == {id};
      assert |line.history| <= HISTORY_LIMIT by {
        if origin in history { assert Restorable(repositories, legacy, origin, history[origin]); }
      }
      last, s := UpdateAll(id, origin, nexts, elsewhere, sole);
      if !s.Done? {
        return;
      }
      UndoHistory.RollbacksUndoUpdates(line, nexts, times);
      if Apart(UndoHistory.Versions(line, nexts), elsewhere) {
        ApartAfterUpdates(line, nexts, elsewhere);
      }
      last, s := RollbackAll(last, origin, times, elsewhere, sole);
      if s.Done? && Around(apps, last, origin, elsewhere, true) {
        OneAndElsewhere(apps, origin, last);
      }
    }
  }
}
