/**
 Updating installed applications when a new version may ask for more: what is
 additional is worked out before anyone is asked, and again when the update is
 applied, because the manifest may have changed in between.
 */
module PermissionUpdate {
  import opened Common
  import opened Text

  datatype Session<O> = Session(id: string, override: O)

  /** The part of a manifest that grants something. */
  datatype Manifest<O> = Manifest(override: O, sessions: seq<Session<O>>)

  datatype Installed<O> = Installed(origin: string, pinned: bool, override: O, sessions: seq<Session<O>>)

  /** The keys under which a policy grants more than another. */
  type Comparison<!O> = (O, O) -> seq<string>

  /** What fetching a manifest came to. */
  datatype Fetched<O> = Unavailable | NoSource | Found(manifest: Manifest<O>)

  /** The first look at an application: its release is still the latest, or a manifest is fetched. */
  datatype Checked<O> = Latest | Fetch(fetched: Fetched<O>)

  // ---------- sessions ----------

  function Qualified(id: string, keys: seq<string>): (r: seq<string>)
    ensures |r| == |keys|
    ensures forall i | 0 <= i < |r| :: r[i] == "session:" + id + ":" + keys[i]
  {
    seq(|keys|, i requires 0 <= i < |keys| => "session:" + id + ":" + keys[i])
  }

  function LastOf<O>(sessions: seq<Session<O>>): map<string, O>
  {
    if sessions == [] then map[]
    else LastOf(sessions[..|sessions| - 1])[sessions[|sessions| - 1].id := sessions[|sessions| - 1].override]
  }

  /** The sessions of a manifest up to some point that an installation is still to be compared with. */
  function Unmatched<O>(previous: map<string, O>, updated: seq<Session<O>>): map<string, O>
  {
    previous - set i | 0 <= i < |updated| :: updated[i].id
  }

  lemma UnmatchedShrinks<O>(previous: map<string, O>, updated: seq<Session<O>>, i: nat)
    requires i < |updated|
    ensures Unmatched(previous, updated[..i + 1]) == Unmatched(previous, updated[..i]) - {updated[i].id}
  {
    var done, more := updated[..i], updated[..i + 1];
    assert more == done + [updated[i]];
    assert (set j | 0 <= j < |more| :: more[j].id) == (set j | 0 <= j < |done| :: done[j].id) + {updated[i].id} by {
      assert more[i] == updated[i];
      assert forall j | 0 <= j < i :: more[j] == done[j];
    }
  }

  /** What one session of a manifest adds, given those before it. */
  function SessionAdds<O>(more: Comparison<O>, previous: map<string, O>, before: seq<Session<O>>,
                          s: Session<O>): seq<string>
  {
    if s.id in Unmatched(previous, before) then Qualified(s.id, more(previous[s.id], s.override))
    else ["session:" + s.id]
  }

  function SessionAdditions<O>(more: Comparison<O>, previous: map<string, O>, updated: seq<Session<O>>): seq<string>
  {
    if updated == [] then []
    else
      var rest, s := updated[..|updated| - 1], updated[|updated| - 1];
      SessionAdditions(more, previous, rest) + SessionAdds(more, previous, rest, s)
  }

  /** Compares the sessions an installation has with those of a manifest; each installed one is matched once. */
  method SessionPermissionChanges<O>(more: Comparison<O>, current: seq<Session<O>>, updated: seq<Session<O>>)
    returns (additions: seq<string>)
    ensures additions == SessionAdditions(more, LastOf(current), updated)
  {
    var previous: map<string, O> := map[];
    for i := 0 to |current|
      invariant previous == LastOf(current[..i])
    {
      assert current[..i + 1][..i] == current[..i];
      previous := previous[current[i].id := current[i].override];
    }
    assert current[..|current|] == current;
    ghost var all := previous;
    additions := [];
    for i := 0 to |updated|
      invariant previous == Unmatched(all, updated[..i])
      invariant additions == SessionAdditions(more, all, updated[..i])
    {
      var s := updated[i];
      assert updated[..i + 1][..i] == updated[..i];
      UnmatchedShrinks(all, updated, i);
      if s.id !in previous {
        additions := additions + ["session:" + s.id];
      } else {
        additions := additions + Qualified(s.id, more(previous[s.id], s.override));
      }
      previous := previous - {s.id};
    }
    assert updated[..|updated|] == updated;
  }

  /** Every session of the manifest is an installed one, none comes twice, and none grants more than it did. */
  ghost predicate NothingNew<O(!new)>(more: Comparison<O>, previous: map<string, O>, updated: seq<Session<O>>)
  {
    && (forall i | 0 <= i < |updated| :: GrantsNoMore(more, previous, updated[i]))
    && (forall i, j | 0 <= i < j < |updated| :: updated[i].id != updated[j].id)
  }

  ghost predicate GrantsNoMore<O(!new)>(more: Comparison<O>, previous: map<string, O>, s: Session<O>)
  {
    s.id in previous && more(previous[s.id], s.override) == []
  }

  lemma NothingNewGrows<O(!new)>(more: Comparison<O>, previous: map<string, O>, updated: seq<Session<O>>, s: Session<O>)
    ensures NothingNew(more, previous, updated + [s]) <==>
            NothingNew(more, previous, updated) && GrantsNoMore(more, previous, s)
            && s.id in Unmatched(previous, updated)
  {
    var longer := updated + [s];
    assert longer[|updated|] == s;
    assert forall i | 0 <= i < |updated| :: longer[i] == updated[i];
  }

  /** No session addition is reported exactly when the manifest has nothing new in its sessions. */
  lemma {:induction false} NoSessionAdditions<O(!new)>(more: Comparison<O>, previous: map<string, O>,
                                                       updated: seq<Session<O>>)
    ensures SessionAdditions(more, previous, updated) == [] <==> NothingNew(more, previous, updated)
  {
    if updated != [] {
      var rest, s := updated[..|updated| - 1], updated[|updated| - 1];
      NoSessionAdditions(more, previous, rest);
      assert updated == rest + [s];
      NothingNewGrows(more, previous, rest, s);
    }
  }

  /** Everything a manifest would grant beyond what an installation has. */
  function Additions<O>(more: Comparison<O>, app: Installed<O>, m: Manifest<O>): seq<string>
  {
    more(app.override, m.override) + SessionAdditions(more, LastOf(app.sessions), m.sessions)
  }

  // ---------- what a manifest grants beyond what is installed ----------

  /** The last installed session under an identifier, which is the one that counts. */
  ghost predicate Counts<O(!new)>(sessions: seq<Session<O>>, j: nat, id: string)
  {
    j < |sessions| && sessions[j].id == id && forall k | j < k < |sessions| :: sessions[k].id != id
  }

  /** The session of the manifest repeats an earlier one of it, or no installed one has its identifier. */
  ghost predicate NewSession<O(!new)>(app: Installed<O>, m: Manifest<O>, i: nat)
    requires i < |m.sessions|
  {
    || (exists k :: 0 <= k < i && m.sessions[k].id == m.sessions[i].id)
    || (forall j | 0 <= j < |app.sessions| :: app.sessions[j].id != m.sessions[i].id)
  }

  /** One permission that one session of the manifest grants beyond the installed session of its identifier. */
  ghost predicate SessionGrants<O(!new)>(more: Comparison<O>, app: Installed<O>, s: Session<O>, key: string)
  {
    exists j: nat :: Counts(app.sessions, j, s.id) && key in more(app.sessions[j].override, s.override)
  }

  /**
   What one session of the manifest adds: itself when it is new, and otherwise
   what it grants beyond the installed one.
   */
  ghost predicate SessionAsks<O(!new)>(more: Comparison<O>, app: Installed<O>, m: Manifest<O>, i: nat, a: string)
    requires i < |m.sessions|
  {
    if NewSession(app, m, i) then a == "session:" + m.sessions[i].id
    else exists key :: SessionGrants(more, app, m.sessions[i], key) && a == "session:" + m.sessions[i].id + ":" + key
  }

  /** A manifest grants this beyond what an installation has, by its own policy or by a session of it. */
  ghost predicate Grants<O(!new)>(more: Comparison<O>, app: Installed<O>, m: Manifest<O>, a: string)
  {
    a in more(app.override, m.override) || exists i: nat :: i < |m.sessions| && SessionAsks(more, app, m, i, a)
  }

  lemma CountsStays<O(!new)>(rest: seq<Session<O>>, last: Session<O>, j: nat, id: string)
    requires last.id != id
    ensures Counts(rest + [last], j, id) <==> Counts(rest, j, id)
  {
    var sessions := rest + [last];
    assert forall k | 0 <= k < |rest| :: sessions[k] == rest[k];
    assert sessions[|rest|] == last;
  }

  lemma CountsAtEnd<O(!new)>(rest: seq<Session<O>>, last: Session<O>)
    ensures forall j: nat :: Counts(rest + [last], j, last.id) <==> j == |rest|
  {
    var sessions := rest + [last];
    assert sessions[|rest|] == last;
  }

  lemma {:induction false} LastCounts<O(!new)>(sessions: seq<Session<O>>, id: string)
    ensures forall j: nat | Counts(sessions, j, id) ::
              id in LastOf(sessions) && LastOf(sessions)[id] == sessions[j].override
    ensures id in LastOf(sessions) ==> exists j: nat :: Counts(sessions, j, id)
  {
    if sessions != [] {
      var rest, last := sessions[..|sessions| - 1], sessions[|sessions| - 1];
      assert sessions == rest + [last];
      LastCounts(rest, id);
      if last.id == id {
        CountsAtEnd(rest, last);
        assert Counts(sessions, |rest|, id);
      } else {
        forall j: nat
          ensures Counts(sessions, j, id) <==> Counts(rest, j, id)
        {
          CountsStays(rest, last, j, id);
        }
      }
    }
  }

  lemma {:induction false} LastOfHas<O(!new)>(sessions: seq<Session<O>>, id: string)
    ensures id in LastOf(sessions) <==> exists j :: 0 <= j < |sessions| && sessions[j].id == id
  {
    if sessions != [] {
      LastOfHas(sessions[..|sessions| - 1], id);
    }
  }

  lemma UnmatchedMeaning<O(!new)>(app: Installed<O>, m: Manifest<O>, i: nat)
    requires i < |m.sessions|
    ensures m.sessions[i].id in Unmatched(LastOf(app.sessions), m.sessions[..i]) <==> !NewSession(app, m, i)
  {
    LastOfHas(app.sessions, m.sessions[i].id);
    var before := m.sessions[..i];
    assert forall k | 0 <= k < i :: before[k] == m.sessions[k];
  }

  lemma QualifiedHolds(id: string, keys: seq<string>, a: string)
    ensures a in Qualified(id, keys) <==> exists key :: key in keys && a == "session:" + id + ":" + key
  {
    if a in Qualified(id, keys) {
      var i :| 0 <= i < |keys| && Qualified(id, keys)[i] == a;
      assert keys[i] in keys;
    }
    if key :| key in keys && a == "session:" + id + ":" + key {
      var i :| 0 <= i < |keys| && keys[i] == key;
      assert Qualified(id, keys)[i] == a;
    }
  }

  lemma GrantsOfCounting<O(!new)>(more: Comparison<O>, app: Installed<O>, s: Session<O>)
    requires s.id in LastOf(app.sessions)
    ensures forall key :: SessionGrants(more, app, s, key) <==> key in more(LastOf(app.sessions)[s.id], s.override)
  {
    LastCounts(app.sessions, s.id);
    var j: nat :| Counts(app.sessions, j, s.id);
  }

  lemma SessionAddsMeaning<O(!new)>(more: Comparison<O>, app: Installed<O>, m: Manifest<O>, i: nat, a: string)
    requires i < |m.sessions|
    ensures a in SessionAdds(more, LastOf(app.sessions), m.sessions[..i], m.sessions[i]) <==>
            SessionAsks(more, app, m, i, a)
  {
    var s := m.sessions[i];
    UnmatchedMeaning(app, m, i);
    if !NewSession(app, m, i) {
      GrantsOfCounting(more, app, s);
      QualifiedHolds(s.id, more(LastOf(app.sessions)[s.id], s.override), a);
    }
  }

  lemma {:induction false} SessionAdditionsHold<O(!new)>(more: Comparison<O>, app: Installed<O>, m: Manifest<O>, n: nat,
                                                         a: string)
    requires n <= |m.sessions|
    ensures a in SessionAdditions(more, LastOf(app.sessions), m.sessions[..n]) <==>
            exists i: nat :: i < n && SessionAsks(more, app, m, i, a)
  {
    if n > 0 {
      assert m.sessions[..n][..n - 1] == m.sessions[..n - 1];
      SessionAdditionsHold(more, app, m, n - 1, a);
      SessionAddsMeaning(more, app, m, n - 1, a);
      if i: nat :| i < n && SessionAsks(more, app, m, i, a) { assert i < n - 1 || i == n - 1; }
    }
  }

  /** What is worked out is what the manifest grants beyond the installation. */
  lemma {:induction false} AdditionsMeaning<O(!new)>(more: Comparison<O>, app: Installed<O>, m: Manifest<O>)
    ensures forall a :: a in Additions(more, app, m) <==> Grants(more, app, m, a)
    ensures Additions(more, app, m) == [] <==> forall a :: !Grants(more, app, m, a)
  {
    forall a
      ensures a in Additions(more, app, m) <==> Grants(more, app, m, a)
    {
      assert m.sessions[..|m.sessions|] == m.sessions;
      SessionAdditionsHold(more, app, m, |m.sessions|, a);
    }
    if Additions(more, app, m) != [] {
      assert Additions(more, app, m)[0] in Additions(more, app, m);
    }
  }

  // ---------- the update ----------

  /** What became of one application; a replaced record carries the manifest it was replaced with. */
  datatype Result<O> = Pinned | Unsupported | UpToDate | Denied | Failed | Replaced(manifest: Manifest<O>)

  datatype Preflight<O> = Settled(result: Result<O>) | Ready(additions: seq<string>)

  /** What the user is asked about: the additions one application needs. */
  datatype Request = Request(origin: string, additions: seq<string>)

  /** The addition was put to the user for this origin and the user agreed. */
  ghost predicate ConfirmedFor(shown: seq<Request>, agreed: bool, origin: string, addition: string)
  {
    agreed && exists q :: q in shown && q.origin == origin && addition in q.additions
  }

  /** Nothing settled the application before anyone was asked. */
  predicate Waits<O>(app: Installed<O>, first: Checked<O>) { !app.pinned && first.Fetch? && first.fetched.Found? }

  /** What settled it otherwise. */
  function SettledAs<O>(app: Installed<O>, first: Checked<O>): Result<O>
    requires !Waits(app, first)
  {
    if app.pinned then Pinned
    else if first.Latest? then UpToDate
    else if first.fetched.NoSource? then Unsupported
    else Failed
  }

  /** What the preflight of one application finds. */
  function Preflighted<O>(more: Comparison<O>, app: Installed<O>, first: Checked<O>): Preflight<O>
  {
    if Waits(app, first) then Ready(Additions(more, app, first.fetched.manifest)) else Settled(SettledAs(app, first))
  }

  method PreflightUpdate<O(!new)>(more: Comparison<O>, app: Installed<O>, first: Checked<O>) returns (p: Preflight<O>)
    ensures p == Preflighted(more, app, first)
    ensures if app.pinned then p == Settled(Pinned)
            else match first
                 case Latest => p == Settled(UpToDate)
                 case Fetch(NoSource) => p == Settled(Unsupported)
                 case Fetch(Unavailable) => p == Settled(Failed)
                 case Fetch(Found(_)) => p.Ready?
    ensures p.Ready? ==> forall a :: a in p.additions <==> Grants(more, app, first.fetched.manifest, a)
  {
    if first.Fetch? && first.fetched.Found? {
      AdditionsMeaning(more, app, first.fetched.manifest);
    }
    if app.pinned {
      return Settled(Pinned);
    }
    match first
    case Latest => return Settled(UpToDate);
    case Fetch(NoSource) => return Settled(Unsupported);
    case Fetch(Unavailable) => return Settled(Failed);
    case Fetch(Found(manifest)) =>
      var additions := SessionPermissionChanges(more, app.sessions, manifest.sessions);
      p := Ready(more(app.override, manifest.override) + additions);
  }

  /** What applying one update may come to, given what was approved; the steps after the permission check may fail. */
  ghost predicate Applies<O(!new)>(more: Comparison<O>, app: Installed<O>, second: Fetched<O>, approved: set<string>,
                                   r: Result<O>)
  {
    match second
    case Unavailable => r.Failed?
    case NoSource => r.Unsupported?
    case Found(m) =>
      if forall a | Grants(more, app, m, a) :: a in approved then r == Replaced(m) || r.UpToDate? || r.Failed?
      else r.Denied?
  }

  /** Applies one update with what was approved for its origin. */
  method UpdateApplication<O(!new)>(more: Comparison<O>, app: Installed<O>, second: Fetched<O>, approved: set<string>)
    returns (r: Result<O>)
    ensures if app.pinned then r.Pinned? else Applies(more, app, second, approved, r)
  {
    if app.pinned {
      return Pinned;
    }
    match second
    case Unavailable => return Failed;
    case NoSource => return Unsupported;
    case Found(manifest) =>
      AdditionsMeaning(more, app, manifest);
      var additions := SessionPermissionChanges(more, app.sessions, manifest.sessions);
      additions := more(app.override, manifest.override) + additions;
      for i := 0 to |additions|
        invariant forall j | 0 <= j < i :: additions[j] in approved
      {
        if additions[i] !in approved {
          return Denied;
        }
      }
      if * {
        return Failed;
      }
      if * {
        return UpToDate;
      }
      r := Replaced(manifest);
  }

  /** What the user is asked on account of one application: nothing, unless it needs more than it has. */
  function RequestFor<O>(app: Installed<O>, p: Preflight<O>): seq<Request>
  {
    if p.Ready? && p.additions != [] then [Request(app.origin, p.additions)] else []
  }

  /** The requests of the first applications of a list. */
  function Requests<O>(more: Comparison<O>, apps: seq<Installed<O>>, first: nat -> Checked<O>, n: nat): seq<Request>
    requires n <= |apps|
    decreases n
  {
    if n == 0 then []
    else Requests(more, apps, first, n - 1) + RequestFor(apps[n - 1], Preflighted(more, apps[n - 1], first(n - 1)))
  }

  /** What an agreement approves for an origin: the additions of the last request that names it. */
  function Approved(shown: seq<Request>, origin: string): set<string>
  {
    if shown == [] then {}
    else
      var last := shown[|shown| - 1];
      if last.origin == origin then set a | a in last.additions else Approved(shown[..|shown| - 1], origin)
  }

  method ApprovedAdditions(shown: seq<Request>) returns (approved: map<string, set<string>>)
    ensures forall o :: Approved(shown, o) == if o in approved then approved[o] else {}
  {
    approved := map[];
    for i := 0 to |shown|
      invariant forall o :: Approved(shown[..i], o) == if o in approved then approved[o] else {}
    {
      assert shown[..i + 1][..i] == shown[..i];
      approved := approved[shown[i].origin := set a | a in shown[i].additions];
    }
    assert shown[..|shown|] == shown;
  }

  // ---------- what an agreement is worth ----------

  /** Nothing is approved that was not put to the user for that origin. */
  lemma {:induction false} ApprovedWasShown(shown: seq<Request>, origin: string, addition: string)
    requires addition in Approved(shown, origin)
    ensures ConfirmedFor(shown, true, origin, addition)
  {
    var rest, last := shown[..|shown| - 1], shown[|shown| - 1];
    assert last in shown;
    if last.origin != origin {
      ApprovedWasShown(rest, origin, addition);
      var q :| q in rest && q.origin == origin && addition in q.additions;
      assert q in shown;
    }
  }

  /** The last request that names an origin. */
  ghost predicate IsLastFor(shown: seq<Request>, j: nat, origin: string)
  {
    j < |shown| && shown[j].origin == origin && forall k | j < k < |shown| :: shown[k].origin != origin
  }

  lemma {:induction false} ApprovedIsLast(shown: seq<Request>, j: nat, origin: string)
    requires IsLastFor(shown, j, origin)
    ensures forall a :: a in Approved(shown, origin) <==> a in shown[j].additions
  {
    var rest := shown[..|shown| - 1];
    if j < |rest| {
      ApprovedIsLast(rest, j, origin);
    }
  }

  lemma {:induction false} LastOfOrigin(shown: seq<Request>, i: nat) returns (j: nat)
    requires i < |shown|
    ensures i <= j && IsLastFor(shown, j, shown[i].origin)
    decreases |shown| - i
  {
    if k :| i < k < |shown| && shown[k].origin == shown[i].origin {
      j := LastOfOrigin(shown, k);
    } else {
      j := i;
    }
  }

  /** What one request asks for is asked for again by the last request of its origin. */
  ghost predicate AskedAgain(shown: seq<Request>, i: nat, j: nat)
    requires i < |shown| && j < |shown|
  {
    IsLastFor(shown, j, shown[i].origin) ==> forall a | a in shown[i].additions :: a in shown[j].additions
  }

  /** Every request asks for no more than the last one of its origin. */
  ghost predicate LastAsksMost(shown: seq<Request>)
  {
    forall i, j | 0 <= i < |shown| && 0 <= j < |shown| :: AskedAgain(shown, i, j)
  }

  /**
   Everything agreed to is approved exactly when the last request of each origin
   asks for all the others asked for.
   */
  lemma {:induction false} ShownIsApproved(shown: seq<Request>)
    ensures (forall o, a | ConfirmedFor(shown, true, o, a) :: a in Approved(shown, o)) <==> LastAsksMost(shown)
  {
    if LastAsksMost(shown) {
      forall o, a | ConfirmedFor(shown, true, o, a)
        ensures a in Approved(shown, o)
      {
        var q :| q in shown && q.origin == o && a in q.additions;
        var i :| 0 <= i < |shown| && shown[i] == q;
        var j := LastOfOrigin(shown, i);
        ApprovedIsLast(shown, j, o);
        assert AskedAgain(shown, i, j);
      }
    } else {
      var i, j :| 0 <= i < |shown| && 0 <= j < |shown| && !AskedAgain(shown, i, j);
      var a :| a in shown[i].additions && a !in shown[j].additions;
      ApprovedIsLast(shown, j, shown[i].origin);
      assert shown[i] in shown;
      assert ConfirmedFor(shown, true, shown[i].origin, a);
    }
  }

  /** What nobody is asked about: the outcome is settled by the pin and the first fetch. */
  ghost predicate Outcome<O(!new)>(app: Installed<O>, first: Checked<O>, r: Result<O>)
  {
    if app.pinned then r.Pinned?
    else match first
         case Latest => r.UpToDate? || r.Failed?
         case Fetch(NoSource) => r.Unsupported?
         case Fetch(Unavailable) => r.Failed?
         case Fetch(Found(_)) => !r.Pinned?
  }

  /** What becomes of one application, but for the steps after the permission check, which may fail. */
  ghost predicate Settles<O(!new)>(more: Comparison<O>, app: Installed<O>, first: Checked<O>, second: Fetched<O>,
                                   shown: seq<Request>, agreed: bool, r: Result<O>)
  {
    if !Waits(app, first) then r == SettledAs(app, first) || (SettledAs(app, first).UpToDate? && r.Failed?)
    else if !agreed && exists a :: Grants(more, app, first.fetched.manifest, a) then r.Denied?
    else Applies(more, app, second, if agreed then Approved(shown, app.origin) else {}, r)
  }

  /** The first applications of a list are settled, one result each. */
  ghost predicate AllSettled<O(!new)>(more: Comparison<O>, apps: seq<Installed<O>>, first: nat -> Checked<O>,
                                      second: nat -> Fetched<O>, shown: seq<Request>, agreed: bool,
                                      results: seq<Result<O>>)
  {
    |results| <= |apps| &&
    forall i | 0 <= i < |results| :: Settles(more, apps[i], first(i), second(i), shown, agreed, results[i])
  }

  ghost predicate Outcomes<O(!new)>(apps: seq<Installed<O>>, first: nat -> Checked<O>, results: seq<Result<O>>)
  {
    |results| <= |apps| && forall i | 0 <= i < |results| :: Outcome(apps[i], first(i), results[i])
  }

  lemma SettledOutcomes<O(!new)>(more: Comparison<O>, apps: seq<Installed<O>>, first: nat -> Checked<O>,
                                 second: nat -> Fetched<O>, shown: seq<Request>, agreed: bool,
                                 results: seq<Result<O>>)
    requires AllSettled(more, apps, first, second, shown, agreed, results)
    ensures Outcomes(apps, first, results)
  {
  }

  lemma SettledOneMore<O(!new)>(more: Comparison<O>, apps: seq<Installed<O>>, first: nat -> Checked<O>,
                                second: nat -> Fetched<O>, shown: seq<Request>, agreed: bool, results: seq<Result<O>>,
                                r: Result<O>)
    requires AllSettled(more, apps, first, second, shown, agreed, results) && |results| < |apps|
    requires Settles(more, apps[|results|], first(|results|), second(|results|), shown, agreed, r)
    ensures AllSettled(more, apps, first, second, shown, agreed, results + [r])
  {
  }

  /**
   A record is replaced only by a manifest all of whose additions were put to the
   user for its origin and agreed to.
   */
  lemma ReplacedWasConfirmed<O(!new)>(more: Comparison<O>, app: Installed<O>, first: Checked<O>, second: Fetched<O>,
                                      shown: seq<Request>, agreed: bool, r: Result<O>, addition: string)
    requires Settles(more, app, first, second, shown, agreed, r)
    requires r.Replaced? && Grants(more, app, r.manifest, addition)
    ensures ConfirmedFor(shown, agreed, app.origin, addition)
  {
    assert agreed;
    ApprovedWasShown(shown, app.origin, addition);
  }

  // ---------- who is denied although everything was agreed to ----------

  /** The manifests fetched when applying are those fetched before asking. */
  ghost predicate Unchanged<O(!new)>(first: nat -> Checked<O>, second: nat -> Fetched<O>)
  {
    forall i :: first(i).Fetch? ==> second(i) == first(i).fetched
  }

  /** The request was made for this application. */
  ghost predicate AsksFor<O(!new)>(more: Comparison<O>, apps: seq<Installed<O>>, first: nat -> Checked<O>, i: nat,
                                   q: Request)
    requires i < |apps|
  {
    q in RequestFor(apps[i], Preflighted(more, apps[i], first(i)))
  }

  /** Some application among the first ones made the request. */
  ghost predicate AskedUpTo<O(!new)>(more: Comparison<O>, apps: seq<Installed<O>>, first: nat -> Checked<O>, n: nat,
                                     q: Request)
    requires n <= |apps|
  {
    exists i: nat :: i < n && AsksFor(more, apps, first, i, q)
  }

  lemma AskedUpToNext<O(!new)>(more: Comparison<O>, apps: seq<Installed<O>>, first: nat -> Checked<O>, n: nat,
                               q: Request)
    requires n < |apps|
    ensures AskedUpTo(more, apps, first, n + 1, q) <==>
            AskedUpTo(more, apps, first, n, q) || AsksFor(more, apps, first, n, q)
  {
    if AskedUpTo(more, apps, first, n + 1, q) {
      var i: nat :| i < n + 1 && AsksFor(more, apps, first, i, q);
      assert i < n || i == n;
    }
  }

  lemma {:induction false} RequestsHold<O(!new)>(more: Comparison<O>, apps: seq<Installed<O>>,
                                                 first: nat -> Checked<O>, n: nat, q: Request)
    requires n <= |apps|
    ensures q in Requests(more, apps, first, n) <==> AskedUpTo(more, apps, first, n, q)
  {
    if n > 0 {
      RequestsHold(more, apps, first, n - 1, q);
      AskedUpToNext(more, apps, first, n - 1, q);
    }
  }

  /** Something the application asked for is not among what was approved for its origin. */
  ghost predicate LeftOut<O(!new)>(more: Comparison<O>, app: Installed<O>, first: Checked<O>, shown: seq<Request>)
  {
    && Waits(app, first)
    && exists a :: Grants(more, app, first.fetched.manifest, a) && a !in Approved(shown, app.origin)
  }

  lemma DeniedIsLeftOut<O(!new)>(more: Comparison<O>, app: Installed<O>, first: Checked<O>, second: Fetched<O>,
                                 shown: seq<Request>, r: Result<O>)
    requires Settles(more, app, first, second, shown, true, r) && (first.Fetch? ==> second == first.fetched)
    ensures r.Denied? <==> LeftOut(more, app, first, shown)
  {
  }

  lemma LeftOutWasConfirmed<O(!new)>(more: Comparison<O>, app: Installed<O>, first: Checked<O>, shown: seq<Request>)
    returns (a: string)
    requires LeftOut(more, app, first, shown)
    requires forall q | q in RequestFor(app, Preflighted(more, app, first)) :: q in shown
    ensures ConfirmedFor(shown, true, app.origin, a) && a !in Approved(shown, app.origin)
  {
    a :| Grants(more, app, first.fetched.manifest, a) && a !in Approved(shown, app.origin);
    AdditionsMeaning(more, app, first.fetched.manifest);
    var additions := Additions(more, app, first.fetched.manifest);
    assert Request(app.origin, additions) in RequestFor(app, Preflighted(more, app, first));
  }

  /** The requests are those of the applications. */
  ghost predicate MadeFor<O(!new)>(more: Comparison<O>, apps: seq<Installed<O>>, first: nat -> Checked<O>,
                                   shown: seq<Request>)
  {
    forall q :: q in shown <==> exists i: nat :: i < |apps| && AsksFor(more, apps, first, i, q)
  }

  lemma {:induction false} RequestsAreMade<O(!new)>(more: Comparison<O>, apps: seq<Installed<O>>,
                                                    first: nat -> Checked<O>)
    ensures MadeFor(more, apps, first, Requests(more, apps, first, |apps|))
  {
    forall q
      ensures q in Requests(more, apps, first, |apps|) <==>
              exists i: nat :: i < |apps| && AsksFor(more, apps, first, i, q)
    {
      RequestsHold(more, apps, first, |apps|, q);
    }
  }

  lemma LeftOutMeansLess<O(!new)>(more: Comparison<O>, apps: seq<Installed<O>>, first: nat -> Checked<O>,
                                  shown: seq<Request>, i: nat)
    requires MadeFor(more, apps, first, shown) && i < |apps| && LeftOut(more, apps[i], first(i), shown)
    ensures !LastAsksMost(shown)
  {
    forall q | q in RequestFor(apps[i], Preflighted(more, apps[i], first(i)))
      ensures q in shown
    {
      assert AsksFor(more, apps, first, i, q);
    }
    var a := LeftOutWasConfirmed(more, apps[i], first(i), shown);
    ShownIsApproved(shown);
  }

  lemma {:induction false} LostAddition(shown: seq<Request>) returns (q: Request, a: string)
    requires !LastAsksMost(shown)
    ensures q in shown && a in q.additions && a !in Approved(shown, q.origin)
  {
    ShownIsApproved(shown);
    var o: string;
    o, a :| ConfirmedFor(shown, true, o, a) && a !in Approved(shown, o);
    q :| q in shown && q.origin == o && a in q.additions;
  }

  lemma {:induction false} LostIsLeftOut<O(!new)>(more: Comparison<O>, app: Installed<O>, first: Checked<O>,
                                                  shown: seq<Request>, q: Request, a: string)
    requires q in RequestFor(app, Preflighted(more, app, first)) && a in q.additions && a !in Approved(shown, q.origin)
    ensures LeftOut(more, app, first, shown)
  {
    AdditionsMeaning(more, app, first.fetched.manifest);
  }

  lemma LessMeansLeftOut<O(!new)>(more: Comparison<O>, apps: seq<Installed<O>>, first: nat -> Checked<O>,
                                  shown: seq<Request>)
    returns (i: nat)
    requires MadeFor(more, apps, first, shown) && !LastAsksMost(shown)
    ensures i < |apps| && LeftOut(more, apps[i], first(i), shown)
  {
    var q, a := LostAddition(shown);
    i :| i < |apps| && AsksFor(more, apps, first, i, q);
    LostIsLeftOut(more, apps[i], first(i), shown, q, a);
  }

  /**
   When the user agreed and no manifest changed, nobody is denied exactly when
   the last request of each origin asks for all that the others asked for.
   */
  lemma {:induction false} NobodyIsDenied<O(!new)>(more: Comparison<O>, apps: seq<Installed<O>>,
                                                   first: nat -> Checked<O>, second: nat -> Fetched<O>,
                                                   shown: seq<Request>, results: seq<Result<O>>)
    requires shown == Requests(more, apps, first, |apps|) && |results| == |apps|
    requires AllSettled(more, apps, first, second, shown, true, results) && Unchanged(first, second)
    ensures (forall i | 0 <= i < |apps| :: !results[i].Denied?) <==> LastAsksMost(shown)
  {
    RequestsAreMade(more, apps, first);
    forall i: nat | i < |apps|
      ensures results[i].Denied? <==> LeftOut(more, apps[i], first(i), shown)
      ensures LeftOut(more, apps[i], first(i), shown) ==> !LastAsksMost(shown)
    {
      DeniedIsLeftOut(more, apps[i], first(i), second(i), shown, results[i]);
      if LeftOut(more, apps[i], first(i), shown) { LeftOutMeansLess(more, apps, first, shown, i); }
    }
    if !LastAsksMost(shown) {
      var i := LessMeansLeftOut(more, apps, first, shown);
    }
  }

  /** Permissions as a list of names: what is wanted and not there yet. */
  function NewNames(have: seq<string>, want: seq<string>): seq<string>
  {
    if want == [] then []
    else NewNames(have, want[..|want| - 1]) + if want[|want| - 1] in have then [] else [want[|want| - 1]]
  }

  /**
   Two installations of one origin, updated together to one manifest, the second
   of which already has what the first still needs: the user agrees to
   everything, and the first is denied.
   */
  lemma ApprovalReplaced(results: seq<Result<seq<string>>>, agreed: bool)
    requires var apps := [Installed("app", false, [], []), Installed("app", false, ["audio"], [])];
             var first := (i: nat) => Fetch(Found(Manifest(["audio", "network"], [])));
             var second := (i: nat) => Found(Manifest(["audio", "network"], []));
             AllSettled(NewNames, apps, first, second, Requests(NewNames, apps, first, 2), agreed, results)
             && |results| == 2
    requires agreed
    ensures results[0].Denied?
  {
    var apps := [Installed("app", false, [], []), Installed("app", false, ["audio"], [])];
    var m := Manifest(["audio", "network"], []);
    var first := (i: nat) => Fetch(Found(m));
    assert Additions(NewNames, apps[0], m) == ["audio", "network"] by { NamesOfTwo([]); }
    assert Additions(NewNames, apps[1], m) == ["network"] by { NamesOfTwo(["audio"]); }
    var shown := Requests(NewNames, apps, first, 2);
    assert shown == [Request("app", ["audio", "network"]), Request("app", ["network"])];
    assert "audio" !in Approved(shown, "app");
    assert "audio" in Additions(NewNames, apps[0], m);
    AdditionsMeaning(NewNames, apps[0], m);
  }

  lemma {:induction false} NamesOfTwo(have: seq<string>)
    requires have == [] || have == ["audio"]
    ensures NewNames(have, ["audio", "network"]) == if have == [] then ["audio", "network"] else ["network"]
  {
    assert ["audio", "network"][..1] == ["audio"] && ["audio"][..0] == [];
  }

  // ---------- what is asked ----------

  /** The request is for everything the manifest grants this application beyond what it has. */
  ghost predicate AsksForAll<O(!new)>(more: Comparison<O>, app: Installed<O>, first: Checked<O>, q: Request)
  {
    && Waits(app, first) && q.origin == app.origin && q.additions != []
    && forall a :: a in q.additions <==> Grants(more, app, first.fetched.manifest, a)
  }

  /** Every request is for all an application needs, and every application that needs something has one. */
  ghost predicate AsksForGrants<O(!new)>(more: Comparison<O>, apps: seq<Installed<O>>, first: nat -> Checked<O>,
                                         shown: seq<Request>)
  {
    && (forall q | q in shown :: exists i: nat :: i < |apps| && AsksForAll(more, apps[i], first(i), q))
    && (forall i: nat, a | i < |apps| && Waits(apps[i], first(i))
                           && Grants(more, apps[i], first(i).fetched.manifest, a) ::
          exists q :: q in shown && AsksForAll(more, apps[i], first(i), q))
  }

  lemma RequestIsForAll<O(!new)>(more: Comparison<O>, app: Installed<O>, first: Checked<O>)
    ensures forall q | q in RequestFor(app, Preflighted(more, app, first)) :: AsksForAll(more, app, first, q)
    ensures Waits(app, first) && (exists a :: Grants(more, app, first.fetched.manifest, a)) ==>
              exists q :: q in RequestFor(app, Preflighted(more, app, first))
  {
    if Waits(app, first) {
      AdditionsMeaning(more, app, first.fetched.manifest);
      var additions := Additions(more, app, first.fetched.manifest);
      if additions != [] {
        assert Request(app.origin, additions) in RequestFor(app, Preflighted(more, app, first));
      }
    }
  }

  lemma {:induction false} RequestsAskForGrants<O(!new)>(more: Comparison<O>, apps: seq<Installed<O>>,
                                                         first: nat -> Checked<O>)
    ensures AsksForGrants(more, apps, first, Requests(more, apps, first, |apps|))
  {
    var shown := Requests(more, apps, first, |apps|);
    RequestsAreMade(more, apps, first);
    forall q | q in shown
      ensures exists i: nat :: i < |apps| && AsksForAll(more, apps[i], first(i), q)
    {
      var i: nat :| i < |apps| && AsksFor(more, apps, first, i, q);
      RequestIsForAll(more, apps[i], first(i));
    }
    forall i: nat, a | i < |apps| && Waits(apps[i], first(i)) && Grants(more, apps[i], first(i).fetched.manifest, a)
      ensures exists q :: q in shown && AsksForAll(more, apps[i], first(i), q)
    {
      RequestIsForAll(more, apps[i], first(i));
      var q :| q in RequestFor(apps[i], Preflighted(more, apps[i], first(i)));
      assert AsksFor(more, apps, first, i, q);
    }
  }

  // ---------- the command ----------

  /** What the preflights of the first applications of a list find. */
  function Preflights<O>(more: Comparison<O>, apps: seq<Installed<O>>, first: nat -> Checked<O>,
                         n: nat): (r: seq<Preflight<O>>)
    requires n <= |apps|
    ensures |r| == n
    decreases n
  {
    if n == 0 then [] else Preflights(more, apps, first, n - 1) + [Preflighted(more, apps[n - 1], first(n - 1))]
  }

  lemma {:induction false} PreflightsAt<O>(more: Comparison<O>, apps: seq<Installed<O>>, first: nat -> Checked<O>,
                                           n: nat, i: nat)
    requires i < n <= |apps|
    ensures Preflights(more, apps, first, n)[i] == Preflighted(more, apps[i], first(i))
  {
    if i < n - 1 {
      PreflightsAt(more, apps, first, n - 1, i);
    }
  }

  method PreflightAll<O(!new)>(more: Comparison<O>, apps: seq<Installed<O>>, first: nat -> Checked<O>)
    returns (preflight: seq<Preflight<O>>, shown: seq<Request>)
    ensures preflight == Preflights(more, apps, first, |apps|)
    ensures shown == Requests(more, apps, first, |apps|)
  {
    preflight, shown := [], [];
    for i := 0 to |apps|
      invariant preflight == Preflights(more, apps, first, i)
      invariant shown == Requests(more, apps, first, i)
    {
      var p := PreflightUpdate(more, apps[i], first(i));
      preflight := preflight + [p];
      shown := shown + RequestFor(apps[i], p);
    }
  }

  method SettleOne<O(!new)>(more: Comparison<O>, app: Installed<O>, p: Preflight<O>, second: Fetched<O>, agreed: bool,
                            approved: set<string>, ghost first: Checked<O>, ghost shown: seq<Request>)
    returns (r: Result<O>)
    requires p == Preflighted(more, app, first) && approved == if agreed then Approved(shown, app.origin) else {}
    ensures Settles(more, app, first, second, shown, agreed, r)
  {
    if Waits(app, first) {
      AdditionsMeaning(more, app, first.fetched.manifest);
    }
    match p
    case Settled(result) =>
      if result.UpToDate? {
        if * {
          return Failed;
        }
      }
      return result;
    case Ready(additions) =>
      if |additions| > 0 && !agreed {
        return Denied;
      }
      r := UpdateApplication(more, app, second, approved);
  }

  /**
   Updates a list of installations. `first` and `second` give what each fetch
   returns, before asking and when applying, and owe each other nothing. A
   record is replaced only by a manifest all of whose additions were put to the
   user for that origin and agreed to.
   */
  method UpdateWithOptions<O(!new)>(more: Comparison<O>, apps: seq<Installed<O>>, first: nat -> Checked<O>,
                                    second: nat -> Fetched<O>, confirm: Option<seq<Request> -> bool>)
    returns (results: seq<Result<O>>, shown: seq<Request>, agreed: bool)
    ensures shown == Requests(more, apps, first, |apps|)
    ensures agreed <==> shown != [] && confirm.Some? && confirm.value(shown)
    ensures AllSettled(more, apps, first, second, shown, agreed, results)
    ensures AsksForGrants(more, apps, first, shown)
    ensures |results| == |apps| && Outcomes(apps, first, results)
    ensures forall i, a | 0 <= i < |apps| && results[i].Replaced? && Grants(more, apps[i], results[i].manifest, a) ::
              ConfirmedFor(shown, agreed, apps[i].origin, a)
    ensures agreed && Unchanged(first, second) ==>
            ((forall i | 0 <= i < |apps| :: !results[i].Denied?) <==> LastAsksMost(shown))
  {
    var preflight;
    preflight, shown := PreflightAll(more, apps, first);
    agreed := |shown| > 0 && confirm.Some? && confirm.value(shown);
    var approved: map<string, set<string>> := map[];
    if agreed {
      approved := ApprovedAdditions(shown);
    }
    results := [];
    for i := 0 to |apps|
      invariant |results| == i && AllSettled(more, apps, first, second, shown, agreed, results)
    {
      var granted := if apps[i].origin in approved then approved[apps[i].origin] else {};
      PreflightsAt(more, apps, first, |apps|, i);
      var r := SettleOne(more, apps[i], preflight[i], second(i), agreed, granted, first(i), shown);
      SettledOneMore(more, apps, first, second, shown, agreed, results, r);
      results := results + [r];
    }
    RequestsAskForGrants(more, apps, first);
    SettledOutcomes(more, apps, first, second, shown, agreed, results);
    forall i, a | 0 <= i < |apps| && results[i].Replaced? && Grants(more, apps[i], results[i].manifest, a)
      ensures ConfirmedFor(shown, agreed, apps[i].origin, a)
    {
      ReplacedWasConfirmed(more, apps[i], first(i), second(i), shown, agreed, results[i], a);
    }
    if agreed && Unchanged(first, second) {
      NobodyIsDenied(more, apps, first, second, shown, results);
    }
  }

  // ---------- which installations ----------

  /** The installations an origin names, ignoring case; no origin names them all. */
  function Selected<O>(installed: seq<Installed<O>>, origin: string): seq<Installed<O>>
  {
    if installed == [] then []
    else
      var rest, last := installed[..|installed| - 1], installed[|installed| - 1];
      Selected(rest, origin) + if origin == "" || Lower(last.origin) == Lower(origin) then [last] else []
  }

  lemma {:induction false} SelectedHolds<O(!new)>(installed: seq<Installed<O>>, origin: string, app: Installed<O>)
    ensures app in Selected(installed, origin) <==>
            app in installed && (origin == "" || Lower(app.origin) == Lower(origin))
  {
    if installed != [] {
      var rest, last := installed[..|installed| - 1], installed[|installed| - 1];
      assert installed == rest + [last];
      SelectedHolds(rest, origin, app);
    }
  }

  method SelectInstalled<O(!new)>(installed: seq<Installed<O>>, origin: string)
    returns (selected: seq<Installed<O>>, missing: bool)
    ensures selected == Selected(installed, origin)
    ensures forall app :: app in selected <==> app in installed && (origin == "" || Lower(app.origin) == Lower(origin))
    ensures missing <==> origin != "" && selected == []
  {
    var name := Lower(origin);
    selected := [];
    for i := 0 to |installed|
      invariant selected == Selected(installed[..i], origin)
    {
      assert installed[..i + 1][..i] == installed[..i];
      if name == "" || Lower(installed[i].origin) == name {
        selected := selected + [installed[i]];
      }
    }
    assert installed[..|installed|] == installed;
    missing := origin != "" && |selected| == 0;
    forall app
      ensures app in selected <==> app in installed && (origin == "" || Lower(app.origin) == Lower(origin))
    {
      SelectedHolds(installed, origin, app);
    }
  }
}
