/**
 The addon configuration of one application: which addons are enabled, chosen
 past what the package offers, or disabled, and which provider fills each slot.
 */
module Addons {
  import opened Common
  import opened Text
  import opened Paths

  datatype Mode = Exclusive | Multiple

  datatype Provider = Provider(id: string, slot: string, mode: Mode)

  datatype Addon = Addon(origin: string, provider: Option<Provider>)

  /** What the application offers and which addons are installed, by origin. */
  datatype Host = Host(offered: seq<string>, installed: map<string, Addon>)

  /** The stored configuration. Its lists are normalised whenever it is saved. */
  datatype Configuration = Configuration(
    enabled: seq<string>, chosen: seq<string>, disabled: seq<string>, slots: map<string, string>)

  const EMPTY := Configuration([], [], [], map[])

  // ---------- lists of origins ----------

  /** `x` is what some entry of the list normalises to. */
  ghost predicate Named(origins: seq<string>, x: string)
  {
    x != "" && exists o :: o in origins && Norm(o) == x
  }

  function InsertName(name: string, names: seq<string>): seq<string>
  {
    if names != [] && Less(names[0], name) then [names[0]] + InsertName(name, names[1..]) else [name] + names
  }

  /** Normalised, without repeats, sorted. */
  function Normalized(origins: seq<string>): seq<string>
  {
    if origins == [] then []
    else
      var rest, name := Normalized(origins[..|origins| - 1]), Norm(origins[|origins| - 1]);
      if name == "" || name in rest then rest else InsertName(name, rest)
  }

  /** Normalised, without repeats, in the order first seen. */
  function Ordered(origins: seq<string>): seq<string>
  {
    if origins == [] then []
    else
      var rest, name := Ordered(origins[..|origins| - 1]), Norm(origins[|origins| - 1]);
      if name == "" || name in rest then rest else rest + [name]
  }

  function Without(origins: seq<string>, remove: string): seq<string>
  {
    Removed(Normalized(origins), remove)
  }

  function Removed(names: seq<string>, remove: string): seq<string>
  {
    if names == [] then []
    else (if names[0] == remove then [] else [names[0]]) + Removed(names[1..], remove)
  }

  lemma {:induction false} InsertNameHolds(name: string, names: seq<string>, x: string)
    ensures x in InsertName(name, names) <==> x == name || x in names
  {
    if names != [] {
      assert names == [names[0]] + names[1..];
      if Less(names[0], name) {
        InsertNameHolds(name, names[1..], x);
      }
    }
  }

  lemma NamedGrows(origins: seq<string>, x: string)
    requires origins != []
    ensures Named(origins, x) <==>
            Named(origins[..|origins| - 1], x) || (x != "" && Norm(origins[|origins| - 1]) == x)
  {
    var rest, last := origins[..|origins| - 1], origins[|origins| - 1];
    assert origins == rest + [last];
    assert last in origins;
  }

  lemma {:induction false} NormalizedHolds(origins: seq<string>, x: string)
    ensures x in Normalized(origins) <==> Named(origins, x)
  {
    if origins != [] {
      var rest, name := origins[..|origins| - 1], Norm(origins[|origins| - 1]);
      NormalizedHolds(rest, x);
      NormalizedHolds(rest, name);
      NamedGrows(origins, x);
      InsertNameHolds(name, Normalized(rest), x);
    }
  }

  lemma {:induction false} OrderedHolds(origins: seq<string>, x: string)
    ensures x in Ordered(origins) <==> Named(origins, x)
  {
    if origins != [] {
      OrderedHolds(origins[..|origins| - 1], x);
      OrderedHolds(origins[..|origins| - 1], Norm(origins[|origins| - 1]));
      NamedGrows(origins, x);
    }
  }

  lemma {:induction false} OrderedNoRepeats(origins: seq<string>)
    ensures NoRepeats(Ordered(origins))
  {
    if origins != [] {
      OrderedNoRepeats(origins[..|origins| - 1]);
    }
  }

  lemma {:induction false} RemovedHolds(names: seq<string>, remove: string, x: string)
    ensures x in Removed(names, remove) <==> x in names && x != remove
  {
    if names != [] {
      assert names == [names[0]] + names[1..];
      RemovedHolds(names[1..], remove, x);
    }
  }

  /** A list that was saved: every entry is its own normal form. */
  ghost predicate Normal(names: seq<string>)
  {
    forall x | x in names :: x != "" && Norm(x) == x
  }

  lemma NormalHolds(names: seq<string>, x: string)
    requires Normal(names)
    ensures Named(names, x) <==> x in names
  {
  }

  lemma {:induction false} NormalizedIsNormal(origins: seq<string>)
    ensures Normal(Normalized(origins))
  {
    forall x | x in Normalized(origins)
      ensures x != "" && Norm(x) == x
    {
      NormalizedHolds(origins, x);
      var o :| o in origins && Norm(o) == x;
      NormIdempotent(o);
    }
  }

  // ---------- the host ----------

  predicate Supported(host: Host, origin: string)
  {
    exists s :: s in host.offered && Lower(s) == Lower(origin)
  }

  ghost predicate ProvidesSlot(a: Addon, slot: string)
  {
    a.provider.Some? && a.provider.value.slot == slot
  }

  ghost predicate KeyedHost(host: Host)
  {
    forall o | o in host.installed :: host.installed[o].origin == o
  }

  /** Origins and slots are in normal form, a slot has one mode, and no provider is named like an origin. */
  ghost predicate ValidHost(host: Host)
  {
    && KeyedHost(host)
    && (forall o | o in host.installed ::
          && o != "" && Norm(o) == o
          && (host.installed[o].provider.Some? ==>
                var p := host.installed[o].provider.value;
                p.slot != "" && Norm(p.slot) == p.slot && p.id !in host.installed))
    && (forall o, q | o in host.installed && q in host.installed ::
          host.installed[o].provider.Some? && host.installed[q].provider.Some?
          && host.installed[o].provider.value.slot == host.installed[q].provider.value.slot
          ==> host.installed[o].provider.value.mode == host.installed[q].provider.value.mode)
  }

  predicate FillsExclusively(host: Host, slot: string, origin: string)
  {
    && origin in host.installed && host.installed[origin].provider.Some?
    && host.installed[origin].provider.value.slot == slot
    && host.installed[origin].provider.value.mode.Exclusive?
  }

  // ---------- what every configuration keeps ----------

  predicate IsExplicit(c: Configuration, origin: string)
  {
    origin in c.enabled || origin in c.chosen
  }

  ghost predicate Inv(host: Host, c: Configuration)
  {
    && Normal(c.enabled) && Normal(c.chosen) && Normal(c.disabled)
    && (forall o | IsExplicit(c, o) :: o in host.installed && o !in c.disabled)
    && (forall o | o in c.enabled :: Supported(host, o))
    && (forall slot | slot in c.slots ::
          && Norm(slot) == slot && slot != ""
          && IsExplicit(c, c.slots[slot]) && FillsExclusively(host, slot, c.slots[slot]))
  }

  /** Saving normalises the lists; slots and selections already are in normal form here. */
  function Saved(c: Configuration): Configuration
  {
    Configuration(Normalized(c.enabled), Normalized(c.chosen), Normalized(c.disabled), c.slots)
  }

  // ---------- the steps, as relations on configurations ----------

  /** Turns an addon on that was not on: it is explicit, not disabled, and takes its exclusive slot. */
  ghost predicate Enables(host: Host, before: Configuration, o: string, past: bool, after: Configuration)
  {
    && o in host.installed && (Supported(host, o) || past) && !IsExplicit(before, o)
    && (forall x :: x in after.enabled <==> x in before.enabled || (x == o && Supported(host, o)))
    && (forall x :: x in after.chosen <==> x in before.chosen || (x == o && !Supported(host, o)))
    && (forall x :: x in after.disabled <==> x in before.disabled && x != o)
    && Normal(after.enabled) && Normal(after.chosen) && Normal(after.disabled)
    && after.slots ==
         var p := host.installed[o].provider;
         if p.Some? && p.value.mode.Exclusive? then before.slots[p.value.slot := o] else before.slots
  }

  /** Turns an active addon off: a provider stays disabled, and a slot it filled is left open. */
  ghost predicate Disables(host: Host, before: Configuration, o: string, after: Configuration)
  {
    && o in host.installed
    && (forall x :: x in after.enabled <==> x in before.enabled && x != o)
    && (forall x :: x in after.chosen <==> x in before.chosen && x != o)
    && (forall x :: x in after.disabled <==> x in before.disabled || (x == o && host.installed[o].provider.Some?))
    && Normal(after.enabled) && Normal(after.chosen) && Normal(after.disabled)
    && after.slots ==
         var p := host.installed[o].provider;
         if p.Some? && p.value.slot in before.slots
            && (before.slots[p.value.slot] == o || before.slots[p.value.slot] == p.value.id)
         then before.slots - {p.value.slot} else before.slots
  }

  /** Gives an exclusive slot to one installed provider of it. */
  ghost predicate Selects(host: Host, before: Configuration, slot: string, o: string, after: Configuration)
  {
    && FillsExclusively(host, slot, o)
    && (forall x :: x in after.enabled <==> x in before.enabled || (x == o && Supported(host, o)))
    && (forall x :: x in after.chosen <==> x in before.chosen || (x == o && !Supported(host, o)))
    && (forall x :: x in after.disabled <==> x in before.disabled && x != o)
    && Normal(after.enabled) && Normal(after.chosen) && Normal(after.disabled)
    && after.slots == before.slots[slot := o]
  }

  ghost predicate Step(host: Host, before: Configuration, after: Configuration)
  {
    || after == before
    || (exists o, past :: Enables(host, before, o, past, after))
    || (exists o :: Disables(host, before, o, after))
    || (exists slot, o :: Selects(host, before, slot, o, after))
  }

  lemma EmptyKeeps(host: Host)
    ensures Inv(host, EMPTY)
  {
  }

  lemma EnableKeeps(host: Host, before: Configuration, o: string, past: bool, after: Configuration)
    requires ValidHost(host) && Inv(host, before) && Enables(host, before, o, past, after)
    ensures Inv(host, after)
  {
  }

  lemma DisableKeeps(host: Host, before: Configuration, o: string, after: Configuration)
    requires ValidHost(host) && Inv(host, before) && Disables(host, before, o, after)
    ensures Inv(host, after)
  {
  }

  lemma SelectKeeps(host: Host, before: Configuration, slot: string, o: string, after: Configuration)
    requires ValidHost(host) && Inv(host, before) && Selects(host, before, slot, o, after)
    ensures Inv(host, after)
  {
  }

  /** A run from the empty configuration, one step at a time. */
  ghost predicate Run(host: Host, run: seq<Configuration>)
  {
    run != [] && run[0] == EMPTY && forall i | 0 <= i < |run| - 1 :: Step(host, run[i], run[i + 1])
  }

  /** Every configuration of every run keeps the invariant. */
  lemma {:induction false} RunKeeps(host: Host, run: seq<Configuration>, i: nat)
    requires ValidHost(host) && Run(host, run) && i < |run|
    ensures Inv(host, run[i])
  {
    if i == 0 {
      EmptyKeeps(host);
    } else {
      RunKeeps(host, run, i - 1);
      var before, after := run[i - 1], run[i];
      var j := i - 1;
      assert Step(host, run[j], run[j + 1]);
      if o, past :| Enables(host, before, o, past, after) {
        EnableKeeps(host, before, o, past, after);
      } else if o :| Disables(host, before, o, after) {
        DisableKeeps(host, before, o, after);
      } else if slot, o :| Selects(host, before, slot, o, after) {
        SelectKeeps(host, before, slot, o, after);
      }
    }
  }

  // ---------- resolution ----------

  datatype Candidate = Candidate(addon: Addon, asked: bool)

  datatype Resolution =
    | Active(addons: seq<Addon>)
    | NoLongerSupported(origin: string)
    | NotInstalled(origin: string)
    | MixedSlot(slot: string)
    | AmbiguousSelection(slot: string)
    | SelectionMissing(slot: string)

  /** The origins that may contribute, offered ones first. */
  function Origins(host: Host, c: Configuration): seq<string> { Ordered(host.offered + c.chosen) }

  /** A configuration as the resolver reads it: its lists as sets of normalised origins. */
  datatype Reading = Reading(explicit: set<string>, chosen: set<string>, disabled: set<string>)

  function OriginSet(names: seq<string>): set<string> { set x | x in Normalized(names) }

  function Read(c: Configuration): Reading
  {
    Reading(OriginSet(c.enabled + c.chosen), OriginSet(c.chosen), OriginSet(c.disabled))
  }

  lemma OriginSetHolds(names: seq<string>, x: string)
    ensures x in OriginSet(names) <==> Named(names, x)
  {
    NormalizedHolds(names, x);
  }

  /** Lists that were saved are read as they stand. */
  lemma ReadOfSaved(c: Configuration, x: string)
    requires Normal(c.enabled) && Normal(c.chosen) && Normal(c.disabled)
    ensures x in Read(c).explicit <==> IsExplicit(c, x)
    ensures x in Read(c).chosen <==> x in c.chosen
    ensures x in Read(c).disabled <==> x in c.disabled
  {
    var both := c.enabled + c.chosen;
    assert Normal(both) && (x in both <==> x in c.enabled || x in c.chosen);
    OriginSetHolds(both, x);
    NormalHolds(both, x);
    OriginSetHolds(c.chosen, x);
    NormalHolds(c.chosen, x);
    OriginSetHolds(c.disabled, x);
    NormalHolds(c.disabled, x);
  }

  predicate IsCandidate(host: Host, read: Reading, o: string)
  {
    && o !in read.disabled && o in host.installed
    && (host.installed[o].provider.Some? || o in read.explicit)
    && (Supported(host, o) || o in read.chosen)
  }

  function Candidates(host: Host, read: Reading, origins: seq<string>): seq<Candidate>
  {
    if origins == [] then []
    else
      var o := origins[|origins| - 1];
      Candidates(host, read, origins[..|origins| - 1])
      + if IsCandidate(host, read, o) then [Candidate(host.installed[o], o in read.explicit)] else []
  }

  lemma {:induction false} CandidatesHold(host: Host, read: Reading, origins: seq<string>)
    requires KeyedHost(host) && NoRepeats(origins)
    ensures forall k :: k in Candidates(host, read, origins) <==>
              && k.addon.origin in origins && IsCandidate(host, read, k.addon.origin)
              && k == Candidate(host.installed[k.addon.origin], k.addon.origin in read.explicit)
    ensures DistinctOrigins(Candidates(host, read, origins))
  {
    if origins != [] {
      var rest, o := origins[..|origins| - 1], origins[|origins| - 1];
      CandidatesHold(host, read, rest);
      assert origins == rest + [o];
      var kept := Candidates(host, read, rest);
      forall k | k in kept
        ensures k.addon.origin != o
      {
        var i :| 0 <= i < |rest| && rest[i] == k.addon.origin;
        assert origins[i] != origins[|rest|];
      }
    }
  }

  ghost predicate DistinctOrigins(candidates: seq<Candidate>)
  {
    forall i, j | 0 <= i < j < |candidates| :: candidates[i].addon.origin != candidates[j].addon.origin
  }

  predicate InSlot(k: Candidate, slot: string)
  {
    k.addon.provider.Some? && k.addon.provider.value.slot == slot
  }

  /** The candidates that provide one slot, in order. */
  function Group(candidates: seq<Candidate>, slot: string): seq<Candidate>
  {
    if candidates == [] then []
    else
      var last := candidates[|candidates| - 1];
      Group(candidates[..|candidates| - 1], slot) + if InSlot(last, slot) then [last] else []
  }

  lemma {:induction false} GroupHolds(candidates: seq<Candidate>, slot: string)
    requires DistinctOrigins(candidates)
    ensures forall k :: k in Group(candidates, slot) <==> k in candidates && InSlot(k, slot)
    ensures DistinctOrigins(Group(candidates, slot))
  {
    if candidates != [] {
      var rest, last := candidates[..|candidates| - 1], candidates[|candidates| - 1];
      assert candidates == rest + [last];
      GroupHolds(rest, slot);
      forall k | k in Group(rest, slot)
        ensures k.addon.origin != last.addon.origin
      {
        var i :| 0 <= i < |rest| && rest[i] == k;
        assert candidates[i].addon.origin != candidates[|rest|].addon.origin;
      }
    }
  }

  predicate Fits(k: Candidate, selection: string)
  {
    k.addon.origin == selection || (k.addon.provider.Some? && k.addon.provider.value.id == selection)
  }

  /** The one a selection fits; without a selection the first that was asked for, and failing that the first. */
  predicate IsChoice(selection: string, group: seq<Candidate>, i: nat)
  {
    && i < |group|
    && if selection != "" then
         Fits(group[i], selection) && forall j | 0 <= j < |group| && j != i :: !Fits(group[j], selection)
       else if group[i].asked then forall j | 0 <= j < i :: !group[j].asked
       else i == 0 && forall j | 0 <= j < |group| :: !group[j].asked
  }

  lemma ChoiceUnique(selection: string, group: seq<Candidate>, i: nat, j: nat)
    requires IsChoice(selection, group, i) && IsChoice(selection, group, j)
    ensures i == j
  {
  }

  datatype Choice = Chosen(index: nat) | NoneFits | SeveralFit

  method ChooseProvider(selection: string, group: seq<Candidate>) returns (r: Choice)
    requires group != []
    ensures r.Chosen? ==> IsChoice(selection, group, r.index)
    ensures !r.Chosen? ==> forall i: nat :: !IsChoice(selection, group, i)
    ensures r.NoneFits? ==> forall j | 0 <= j < |group| :: !Fits(group[j], selection)
  {
    var selected := -1;
    if selection != "" {
      for i := 0 to |group|
        invariant -1 <= selected < i
        invariant selected == -1 ==> forall j | 0 <= j < i :: !Fits(group[j], selection)
        invariant selected != -1 ==> Fits(group[selected], selection)
                                     && forall j | 0 <= j < i && j != selected :: !Fits(group[j], selection)
      {
        if Fits(group[i], selection) {
          if selected != -1 {
            return SeveralFit;
          }
          selected := i;
        }
      }
      if selected == -1 {
        return NoneFits;
      }
    } else {
      for i := 0 to |group|
        invariant selected == -1 && forall j | 0 <= j < i :: !group[j].asked
      {
        if group[i].asked {
          selected := i;
          break;
        }
      }
      if selected == -1 {
        selected := 0;
      }
    }
    r := Chosen(selected);
  }

  function Selection(c: Configuration, slot: string): string
  {
    if slot in c.slots then Lower(c.slots[slot]) else ""
  }

  ghost predicate Settles(c: Configuration, candidates: seq<Candidate>, slot: string)
  {
    exists i: nat :: IsChoice(Selection(c, slot), Group(candidates, slot), i)
  }

  /** A candidate is active unless its slot is exclusive and went to another. */
  ghost predicate IsActive(c: Configuration, candidates: seq<Candidate>, k: Candidate)
  {
    || k.addon.provider.None?
    || k.addon.provider.value.mode.Multiple?
    || (var slot := k.addon.provider.value.slot;
        exists i: nat :: IsChoice(Selection(c, slot), Group(candidates, slot), i) && Group(candidates, slot)[i] == k)
  }

  ghost function ActiveOf(c: Configuration, candidates: seq<Candidate>, some: seq<Candidate>): seq<Addon>
  {
    if some == [] then []
    else
      var k := some[|some| - 1];
      ActiveOf(c, candidates, some[..|some| - 1]) + if IsActive(c, candidates, k) then [k.addon] else []
  }

  ghost predicate SameModes(candidates: seq<Candidate>)
  {
    forall k, l | k in candidates && l in candidates && k.addon.provider.Some? && l.addon.provider.Some?
      && k.addon.provider.value.slot == l.addon.provider.value.slot
      :: k.addon.provider.value.mode == l.addon.provider.value.mode
  }

  ghost predicate AllSettle(c: Configuration, candidates: seq<Candidate>)
  {
    forall k | k in candidates && k.addon.provider.Some? && k.addon.provider.value.mode.Exclusive?
      :: Settles(c, candidates, k.addon.provider.value.slot)
  }

  /** Nothing explicit is unsupported or gone, slots do not mix modes, and every exclusive slot settles. */
  ghost predicate Resolvable(host: Host, c: Configuration)
  {
    && (forall o | o in c.enabled :: Supported(host, o))
    && (forall o | o in Origins(host, c) && o !in Read(c).disabled && o in Read(c).explicit :: o in host.installed)
    && SameModes(Candidates(host, Read(c), Origins(host, c)))
    && AllSettle(c, Candidates(host, Read(c), Origins(host, c)))
  }

  ghost function ActiveAddons(host: Host, c: Configuration): seq<Addon>
  {
    var candidates := Candidates(host, Read(c), Origins(host, c));
    ActiveOf(c, candidates, candidates)
  }

  lemma {:induction false} ActiveOfHolds(c: Configuration, candidates: seq<Candidate>, some: seq<Candidate>)
    ensures forall a :: a in ActiveOf(c, candidates, some) <==>
            exists k :: k in some && IsActive(c, candidates, k) && k.addon == a
  {
    if some != [] {
      var rest, last := some[..|some| - 1], some[|some| - 1];
      assert some == rest + [last];
      ActiveOfHolds(c, candidates, rest);
      forall a
        ensures a in ActiveOf(c, candidates, some) <==>
                exists k :: k in some && IsActive(c, candidates, k) && k.addon == a
      {
        if a in ActiveOf(c, candidates, rest) {
          var k :| k in rest && IsActive(c, candidates, k) && k.addon == a;
          assert k in some;
        }
        assert last in some;
      }
    }
  }

  // ---------- the resolver ----------

  datatype SlotGroup = SlotGroup(mode: Mode, members: seq<Candidate>)

  ghost predicate Grouped(candidates: seq<Candidate>, groups: map<string, SlotGroup>)
  {
    && (forall slot :: slot in groups <==> |Group(candidates, slot)| > 0)
    && (forall slot | slot in groups :: groups[slot].members == Group(candidates, slot))
    && (forall k | k in candidates && k.addon.provider.Some? ::
          k.addon.provider.value.slot in groups
          && groups[k.addon.provider.value.slot].mode == k.addon.provider.value.mode)
  }

  lemma {:induction false} GroupGrows(candidates: seq<Candidate>, i: nat, slot: string)
    requires i < |candidates|
    ensures Group(candidates[..i + 1], slot) ==
            Group(candidates[..i], slot) + if InSlot(candidates[i], slot) then [candidates[i]] else []
  {
    assert candidates[..i + 1][..i] == candidates[..i];
  }

  lemma {:induction false} GroupNonEmpty(candidates: seq<Candidate>, k: Candidate)
    requires k in candidates && k.addon.provider.Some? && DistinctOrigins(candidates)
    ensures Group(candidates, k.addon.provider.value.slot) != []
  {
    GroupHolds(candidates, k.addon.provider.value.slot);
  }

  method GroupBySlot(candidates: seq<Candidate>) returns (groups: map<string, SlotGroup>, mixed: Option<string>)
    requires DistinctOrigins(candidates)
    ensures mixed.None? <==> SameModes(candidates)
    ensures mixed.None? ==> Grouped(candidates, groups)
  {
    groups, mixed := map[], None;
    for i := 0 to |candidates|
      invariant Grouped(candidates[..i], groups)
    {
      var k := candidates[i];
      assert candidates[..i + 1] == candidates[..i] + [k];
      if k.addon.provider.Some? {
        var p := k.addon.provider.value;
        if p.slot in groups && groups[p.slot].mode != p.mode {
          MixedFound(candidates, i, groups);
          return groups, Some(p.slot);
        }
        var members := (if p.slot in groups then groups[p.slot].members else []) + [k];
        GroupedGrows(candidates, i, p, groups, members);
        groups := groups[p.slot := SlotGroup(p.mode, members)];
      } else {
        forall slot { GroupGrows(candidates, i, slot); }
      }
    }
    assert candidates[..|candidates|] == candidates;
  }

  /** One more provider changes the group of its own slot only. */
  lemma {:induction false} GroupedGrows(candidates: seq<Candidate>, i: nat, p: Provider,
                                        groups: map<string, SlotGroup>, members: seq<Candidate>)
    requires i < |candidates| && Grouped(candidates[..i], groups) && candidates[i].addon.provider == Some(p)
    requires members == Group(candidates[..i], p.slot) + [candidates[i]]
    requires p.slot in groups ==> groups[p.slot].mode == p.mode
    ensures Grouped(candidates[..i + 1], groups[p.slot := SlotGroup(p.mode, members)])
  {
    var done, more := candidates[..i], candidates[..i + 1];
    var after := groups[p.slot := SlotGroup(p.mode, members)];
    forall slot
      ensures slot in after <==> |Group(more, slot)| > 0
      ensures slot in after ==> after[slot].members == Group(more, slot)
    {
      GroupGrows(candidates, i, slot);
    }
    forall k | k in more && k.addon.provider.Some?
      ensures k.addon.provider.value.slot in after
              && after[k.addon.provider.value.slot].mode == k.addon.provider.value.mode
    {
      InLonger(candidates, i, k);
    }
  }

  lemma InLonger(candidates: seq<Candidate>, i: nat, k: Candidate)
    requires i < |candidates| && k in candidates[..i + 1]
    ensures k in candidates[..i] || k == candidates[i]
  {
  }

  lemma MixedFound(candidates: seq<Candidate>, i: nat, groups: map<string, SlotGroup>)
    requires i < |candidates| && DistinctOrigins(candidates) && Grouped(candidates[..i], groups)
    requires candidates[i].addon.provider.Some? && candidates[i].addon.provider.value.slot in groups
    requires groups[candidates[i].addon.provider.value.slot].mode != candidates[i].addon.provider.value.mode
    ensures !SameModes(candidates)
  {
    var slot := candidates[i].addon.provider.value.slot;
    GroupHolds(candidates[..i], slot);
    var k := Group(candidates[..i], slot)[0];
    assert k in Group(candidates[..i], slot);
    assert k in candidates[..i] && k in candidates && candidates[i] in candidates;
  }

  /** The origins active by now: everything but the members of slots still to be settled. */
  ghost predicate ActiveSoFar(c: Configuration, candidates: seq<Candidate>, pending: set<string>, active: set<string>)
  {
    forall k | k in candidates ::
      k.addon.origin in active <==>
      (k.addon.provider.Some? ==> k.addon.provider.value.slot !in pending) && IsActive(c, candidates, k)
  }

  ghost predicate SettledSoFar(c: Configuration, candidates: seq<Candidate>, pending: set<string>)
  {
    forall k | k in candidates && k.addon.provider.Some? && k.addon.provider.value.mode.Exclusive?
               && k.addon.provider.value.slot !in pending
      :: Settles(c, candidates, k.addon.provider.value.slot)
  }

  function OriginsOf(candidates: seq<Candidate>): set<string>
  {
    set k | k in candidates :: k.addon.origin
  }

  lemma SameOriginSameCandidate(candidates: seq<Candidate>, k: Candidate, l: Candidate)
    requires DistinctOrigins(candidates) && k in candidates && l in candidates && k.addon.origin == l.addon.origin
    ensures k == l
  {
    var i :| 0 <= i < |candidates| && candidates[i] == k;
    var j :| 0 <= j < |candidates| && candidates[j] == l;
  }

  /** Settles one slot: all members of a multiple one, the choice of an exclusive one. */
  method SettleSlot(c: Configuration, candidates: seq<Candidate>, slot: string, group: SlotGroup)
    returns (winners: set<string>, r: Choice)
    requires DistinctOrigins(candidates) && group.members == Group(candidates, slot) != []
    requires forall k | k in group.members :: k.addon.provider.Some? && k.addon.provider.value.mode == group.mode
    ensures r.Chosen? ==>
              forall k | k in candidates :: k.addon.origin in winners <==> InSlot(k, slot) && IsActive(c, candidates, k)
    ensures r.Chosen? && group.mode.Exclusive? ==> Settles(c, candidates, slot)
    ensures !r.Chosen? ==> group.mode.Exclusive? && !Settles(c, candidates, slot)
  {
    GroupHolds(candidates, slot);
    if group.mode.Multiple? {
      winners, r := OriginsOf(group.members), Chosen(0);
      forall k | k in candidates
        ensures k.addon.origin in winners <==> InSlot(k, slot) && IsActive(c, candidates, k)
      {
        if k.addon.origin in winners {
          var l :| l in group.members && l.addon.origin == k.addon.origin;
          SameOriginSameCandidate(candidates, k, l);
        }
      }
    } else {
      r := ChooseProvider(Selection(c, slot), group.members);
      if r.Chosen? {
        var winner := group.members[r.index];
        winners := {winner.addon.origin};
        forall k | k in candidates
          ensures k.addon.origin in winners <==> InSlot(k, slot) && IsActive(c, candidates, k)
        {
          assert winner in group.members;
          if k.addon.origin in winners {
            SameOriginSameCandidate(candidates, k, winner);
          }
          if InSlot(k, slot) && IsActive(c, candidates, k) {
            assert k in group.members;
            var i: nat :| IsChoice(Selection(c, slot), group.members, i) && group.members[i] == k;
            ChoiceUnique(Selection(c, slot), group.members, i, r.index);
          }
        }
      } else {
        winners := {};
      }
    }
  }

  method FilterActive(c: Configuration, candidates: seq<Candidate>, active: set<string>) returns (r: seq<Addon>)
    requires ActiveSoFar(c, candidates, {}, active)
    ensures r == ActiveOf(c, candidates, candidates)
  {
    r := [];
    for i := 0 to |candidates|
      invariant r == ActiveOf(c, candidates, candidates[..i])
    {
      assert candidates[..i + 1][..i] == candidates[..i];
      assert candidates[i] in candidates;
      if candidates[i].addon.origin in active {
        r := r + [candidates[i].addon];
      }
    }
    assert candidates[..|candidates|] == candidates;
  }

  method CollectCandidates(host: Host, read: Reading, origins: seq<string>)
    returns (r: seq<Candidate>, missing: Option<string>)
    ensures missing.None? <==>
            forall o | o in origins && o !in read.disabled && o in read.explicit :: o in host.installed
    ensures missing.None? ==> r == Candidates(host, read, origins)
  {
    r, missing := [], None;
    for i := 0 to |origins|
      invariant forall o | o in origins[..i] && o !in read.disabled && o in read.explicit :: o in host.installed
      invariant r == Candidates(host, read, origins[..i])
    {
      var o := origins[i];
      assert origins[..i + 1] == origins[..i] + [o] && origins[..i + 1][..i] == origins[..i];
      if o !in read.disabled {
        if o !in host.installed {
          if o in read.explicit {
            assert o in origins;
            return r, Some(o);
          }
        } else if (host.installed[o].provider.Some? || o in read.explicit) && (Supported(host, o) || o in read.chosen) {
          r := r + [Candidate(host.installed[o], o in read.explicit)];
        }
      }
    }
    assert origins[..|origins|] == origins;
  }

  method ActiveAddonCandidates(host: Host, c: Configuration) returns (r: Resolution)
    requires KeyedHost(host)
    ensures r.Active? <==> Resolvable(host, c)
    ensures r.Active? ==> r.addons == ActiveAddons(host, c)
  {
    for i := 0 to |c.enabled|
      invariant forall j | 0 <= j < i :: Supported(host, c.enabled[j])
    {
      if !Supported(host, c.enabled[i]) {
        assert c.enabled[i] in c.enabled;
        return NoLongerSupported(c.enabled[i]);
      }
    }
    var origins := Origins(host, c);
    var candidates, missing := CollectCandidates(host, Read(c), origins);
    if missing.Some? {
      return NotInstalled(missing.value);
    }
    OrderedNoRepeats(host.offered + c.chosen);
    CandidatesHold(host, Read(c), origins);
    var groups, mixed := GroupBySlot(candidates);
    if mixed.Some? {
      return MixedSlot(mixed.value);
    }
    r := SettleSlots(c, candidates, groups);
  }

  method SettleSlots(c: Configuration, candidates: seq<Candidate>, groups: map<string, SlotGroup>)
    returns (r: Resolution)
    requires DistinctOrigins(candidates) && Grouped(candidates, groups)
    ensures r.Active? <==> AllSettle(c, candidates)
    ensures r.Active? ==> r.addons == ActiveOf(c, candidates, candidates)
  {
    var active := set k | k in candidates && k.addon.provider.None? :: k.addon.origin;
    FreeStanding(c, candidates, groups, active);
    var pending := groups.Keys;
    while pending != {}
      invariant pending <= groups.Keys
      invariant ActiveSoFar(c, candidates, pending, active)
      invariant SettledSoFar(c, candidates, pending)
      decreases |pending|
    {
      var slot :| slot in pending;
      GroupHolds(candidates, slot);
      var winners, choice := SettleSlot(c, candidates, slot, groups[slot]);
      if !choice.Chosen? {
        UnsettledFound(c, candidates, slot, groups);
        return if choice.NoneFits? then SelectionMissing(slot) else AmbiguousSelection(slot);
      }
      SlotSettled(c, candidates, pending, active, slot, winners);
      active := active + winners;
      pending := pending - {slot};
    }
    var addons := FilterActive(c, candidates, active);
    r := Active(addons);
  }

  lemma FreeStanding(c: Configuration, candidates: seq<Candidate>, groups: map<string, SlotGroup>, active: set<string>)
    requires DistinctOrigins(candidates) && Grouped(candidates, groups)
    requires active == set k | k in candidates && k.addon.provider.None? :: k.addon.origin
    ensures ActiveSoFar(c, candidates, groups.Keys, active) && SettledSoFar(c, candidates, groups.Keys)
  {
    forall k | k in candidates
      ensures k.addon.origin in active <==> k.addon.provider.None?
    {
      if k.addon.origin in active {
        var l :| l in candidates && l.addon.provider.None? && l.addon.origin == k.addon.origin;
        SameOriginSameCandidate(candidates, k, l);
      }
    }
  }

  lemma UnsettledFound(c: Configuration, candidates: seq<Candidate>, slot: string, groups: map<string, SlotGroup>)
    requires DistinctOrigins(candidates) && Grouped(candidates, groups) && slot in groups
    requires groups[slot].mode.Exclusive? && !Settles(c, candidates, slot)
    ensures !AllSettle(c, candidates)
  {
    GroupHolds(candidates, slot);
    var k := Group(candidates, slot)[0];
    assert k in Group(candidates, slot);
  }

  lemma SlotSettled(c: Configuration, candidates: seq<Candidate>, pending: set<string>, active: set<string>,
                    slot: string, winners: set<string>)
    requires ActiveSoFar(c, candidates, pending, active) && slot in pending
    requires forall k | k in candidates :: k.addon.origin in winners <==> InSlot(k, slot) && IsActive(c, candidates, k)
    ensures ActiveSoFar(c, candidates, pending - {slot}, active + winners)
  {
  }

  // ---------- what the invariant buys ----------

  /** An explicit addon is among the origins considered. */
  lemma ExplicitIsConsidered(host: Host, c: Configuration, o: string)
    requires Inv(host, c) && IsExplicit(c, o)
    ensures o in Origins(host, c) && IsCandidate(host, Read(c), o) && o in Read(c).explicit
  {
    ReadOfSaved(c, o);
    var all := host.offered + c.chosen;
    OrderedHolds(all, o);
    if o in c.chosen {
      assert o in all;
    } else {
      var s :| s in host.offered && Lower(s) == Lower(o);
      NormIsLower(o);
      NormOfSpelling(s, o);
      assert s in all;
    }
  }

  ghost function CandidatesOf(host: Host, c: Configuration): seq<Candidate>
  {
    Candidates(host, Read(c), Origins(host, c))
  }

  lemma CandidatesOfHold(host: Host, c: Configuration)
    requires KeyedHost(host)
    ensures forall k :: k in CandidatesOf(host, c) <==>
              && k.addon.origin in Origins(host, c) && IsCandidate(host, Read(c), k.addon.origin)
              && k == Candidate(host.installed[k.addon.origin], k.addon.origin in Read(c).explicit)
    ensures DistinctOrigins(CandidatesOf(host, c))
  {
    OrderedNoRepeats(host.offered + c.chosen);
    CandidatesHold(host, Read(c), Origins(host, c));
  }

  /** A selection under the invariant settles its slot on the selected addon. */
  lemma {:induction false} SelectionSettles(host: Host, c: Configuration, slot: string)
    requires ValidHost(host) && Inv(host, c) && slot in c.slots
    ensures exists i: nat :: IsChoice(Selection(c, slot), Group(CandidatesOf(host, c), slot), i)
              && Group(CandidatesOf(host, c), slot)[i].addon == host.installed[c.slots[slot]]
  {
    var o := c.slots[slot];
    var candidates := CandidatesOf(host, c);
    CandidatesOfHold(host, c);
    ExplicitIsConsidered(host, c, o);
    NormIsLower(o);
    var k := Candidate(host.installed[o], true);
    assert k in candidates;
    GroupHolds(candidates, slot);
    var group := Group(candidates, slot);
    assert k in group;
    var i :| 0 <= i < |group| && group[i] == k;
    forall j | 0 <= j < |group| && j != i
      ensures !Fits(group[j], o)
    {
      assert group[j] in group;
      assert group[j].addon.origin in host.installed;
      if i < j { assert group[i].addon.origin != group[j].addon.origin; }
      else { assert group[j].addon.origin != group[i].addon.origin; }
    }
    assert IsChoice(Selection(c, slot), group, i);
  }

  lemma {:induction false} FirstAsked(group: seq<Candidate>) returns (i: nat)
    requires group != []
    ensures IsChoice("", group, i)
  {
    if exists j :: 0 <= j < |group| && group[j].asked {
      var j :| 0 <= j < |group| && group[j].asked;
      i := j;
      while exists k :: 0 <= k < i && group[k].asked
        invariant i < |group| && group[i].asked
        decreases i
      {
        var k :| 0 <= k < i && group[k].asked;
        i := k;
      }
    } else {
      i := 0;
    }
  }

  lemma SlotSettles(host: Host, c: Configuration, k: Candidate)
    requires ValidHost(host) && Inv(host, c) && k in CandidatesOf(host, c) && k.addon.provider.Some?
    ensures Settles(c, CandidatesOf(host, c), k.addon.provider.value.slot)
  {
    var slot := k.addon.provider.value.slot;
    if slot in c.slots {
      SelectionSettles(host, c, slot);
    } else {
      CandidatesOfHold(host, c);
      GroupNonEmpty(CandidatesOf(host, c), k);
      UnselectedSettles(c, CandidatesOf(host, c), slot);
    }
  }

  lemma {:induction false} UnselectedSettles(c: Configuration, candidates: seq<Candidate>, slot: string)
    requires slot !in c.slots && Group(candidates, slot) != []
    ensures Settles(c, candidates, slot)
  {
    var i := FirstAsked(Group(candidates, slot));
    assert IsChoice(Selection(c, slot), Group(candidates, slot), i);
  }

  lemma ModesAgree(host: Host, c: Configuration)
    requires ValidHost(host)
    ensures SameModes(CandidatesOf(host, c))
  {
    CandidatesOfHold(host, c);
  }

  /** Resolution never fails on a configuration that keeps the invariant. */
  lemma InvResolves(host: Host, c: Configuration)
    requires ValidHost(host) && Inv(host, c)
    ensures Resolvable(host, c)
  {
    forall o | o in Read(c).explicit
      ensures o in host.installed
    {
      ReadOfSaved(c, o);
    }
    ModesAgree(host, c);
    forall k | k in CandidatesOf(host, c) && k.addon.provider.Some? && k.addon.provider.value.mode.Exclusive?
      ensures Settles(c, CandidatesOf(host, c), k.addon.provider.value.slot)
    {
      SlotSettles(host, c, k);
    }
  }

  /** So resolution never fails on any configuration of any run. */
  lemma RunResolves(host: Host, run: seq<Configuration>, i: nat)
    requires ValidHost(host) && Run(host, run) && i < |run|
    ensures Resolvable(host, run[i])
  {
    RunKeeps(host, run, i);
    InvResolves(host, run[i]);
  }

  /** The addon is the one active provider of an exclusive slot. */
  ghost predicate SoleProvider(host: Host, c: Configuration, slot: string, a: Addon)
  {
    && a in ActiveAddons(host, c) && ProvidesSlot(a, slot)
    && forall b | b in ActiveAddons(host, c) && ProvidesSlot(b, slot) :: b == a
  }

  lemma {:induction false} ChosenIsSole(host: Host, c: Configuration, slot: string, i: nat)
    requires ValidHost(host)
    requires var group := Group(CandidatesOf(host, c), slot);
             IsChoice(Selection(c, slot), group, i) && group[i].addon.provider.Some?
             && group[i].addon.provider.value.mode.Exclusive?
    ensures SoleProvider(host, c, slot, Group(CandidatesOf(host, c), slot)[i].addon)
  {
    var candidates := CandidatesOf(host, c);
    CandidatesOfHold(host, c);
    GroupHolds(candidates, slot);
    var group := Group(candidates, slot);
    assert group[i] in group;
    ActiveOfHolds(c, candidates, candidates);
    forall b | b in ActiveAddons(host, c) && ProvidesSlot(b, slot)
      ensures b == group[i].addon
    {
      var k :| k in candidates && IsActive(c, candidates, k) && k.addon == b;
      assert k.addon.provider.value.mode.Exclusive?;
      var j: nat :| IsChoice(Selection(c, slot), group, j) && group[j] == k;
      ChoiceUnique(Selection(c, slot), group, i, j);
    }
  }

  /** Every exclusive slot that has a candidate has exactly one active provider. */
  lemma ExclusiveSlotHasOne(host: Host, c: Configuration, k: Candidate)
    requires ValidHost(host) && Inv(host, c) && k in CandidatesOf(host, c)
    requires k.addon.provider.Some? && k.addon.provider.value.mode.Exclusive?
    ensures exists a :: SoleProvider(host, c, k.addon.provider.value.slot, a)
  {
    var slot := k.addon.provider.value.slot;
    InvResolves(host, c);
    var candidates := CandidatesOf(host, c);
    CandidatesOfHold(host, c);
    var i: nat :| IsChoice(Selection(c, slot), Group(candidates, slot), i);
    GroupHolds(candidates, slot);
    var l := Group(candidates, slot)[i];
    assert l in Group(candidates, slot);
    ChosenIsSole(host, c, slot, i);
  }

  /** Selecting a provider, or enabling an exclusive one, makes it the one active provider of its slot. */
  lemma SelectionIsSole(host: Host, c: Configuration, slot: string)
    requires ValidHost(host) && Inv(host, c) && slot in c.slots
    ensures SoleProvider(host, c, slot, host.installed[c.slots[slot]])
  {
    SelectionSettles(host, c, slot);
    var i: nat :| IsChoice(Selection(c, slot), Group(CandidatesOf(host, c), slot), i)
              && Group(CandidatesOf(host, c), slot)[i].addon == host.installed[c.slots[slot]];
    ChosenIsSole(host, c, slot, i);
  }

  lemma SelectTakesEffect(host: Host, before: Configuration, slot: string, o: string, after: Configuration)
    requires ValidHost(host) && Inv(host, before) && Selects(host, before, slot, o, after)
    ensures SoleProvider(host, after, slot, host.installed[o])
  {
    SelectKeeps(host, before, slot, o, after);
    SelectionIsSole(host, after, slot);
  }

  lemma EnableTakesEffect(host: Host, before: Configuration, o: string, past: bool, after: Configuration)
    requires ValidHost(host) && Inv(host, before) && Enables(host, before, o, past, after)
    requires host.installed[o].provider.Some? && host.installed[o].provider.value.mode.Exclusive?
    ensures SoleProvider(host, after, host.installed[o].provider.value.slot, host.installed[o])
  {
    EnableKeeps(host, before, o, past, after);
    SelectionIsSole(host, after, host.installed[o].provider.value.slot);
  }

  // ---------- what is active, in terms of what is listed ----------

  /** The list names `x` first at this place. */
  ghost predicate NamesFirst(names: seq<string>, x: string, i: nat)
  {
    i < |names| && Norm(names[i]) == x && forall j | 0 <= j < i :: Norm(names[j]) != x
  }

  /** The list names `x` before it names `y`. */
  ghost predicate Earlier(names: seq<string>, x: string, y: string)
  {
    exists i: nat, j: nat :: i < j && NamesFirst(names, x, i) && NamesFirst(names, y, j)
  }

  lemma EarlierIsAsymmetric(names: seq<string>, x: string, y: string)
    requires Earlier(names, x, y)
    ensures !Earlier(names, y, x) && x != y
  {
    var i: nat, j: nat :| i < j && NamesFirst(names, x, i) && NamesFirst(names, y, j);
  }

  lemma FirstStays(rest: seq<string>, last: string, x: string, i: nat)
    requires NamesFirst(rest, x, i)
    ensures NamesFirst(rest + [last], x, i)
  {
  }

  lemma FirstAtEnd(rest: seq<string>, last: string)
    requires Norm(last) != "" && !Named(rest, Norm(last))
    ensures NamesFirst(rest + [last], Norm(last), |rest|)
  {
    assert forall j | 0 <= j < |rest| :: rest[j] in rest;
  }

  lemma {:induction false} NamesFirstSome(names: seq<string>, x: string) returns (i: nat)
    requires Named(names, x)
    ensures NamesFirst(names, x, i)
  {
    NamedGrows(names, x);
    var rest, last := names[..|names| - 1], names[|names| - 1];
    assert names == rest + [last];
    if Named(rest, x) {
      i := NamesFirstSome(rest, x);
      FirstStays(rest, last, x, i);
    } else {
      i := |rest|;
      FirstAtEnd(rest, last);
    }
  }

  lemma EarlierGrows(names: seq<string>, more: string, x: string, y: string)
    requires Earlier(names, x, y)
    ensures Earlier(names + [more], x, y)
  {
    var i: nat, j: nat :| i < j && NamesFirst(names, x, i) && NamesFirst(names, y, j);
    FirstStays(names, more, x, i);
    FirstStays(names, more, y, j);
  }

  lemma {:induction false} NewIsLast(names: seq<string>, more: string, x: string)
    requires Named(names, x) && Norm(more) != "" && !Named(names, Norm(more))
    ensures Earlier(names + [more], x, Norm(more))
  {
    var i := NamesFirstSome(names, x);
    FirstStays(names, more, x, i);
    FirstAtEnd(names, more);
  }

  /** Origins keep the order in which the list names them first. */
  lemma {:induction false} OrderedInOrder(names: seq<string>, p: nat, q: nat)
    requires p < q < |Ordered(names)|
    ensures Earlier(names, Ordered(names)[p], Ordered(names)[q])
  {
    var rest, last := names[..|names| - 1], names[|names| - 1];
    var before := Ordered(rest);
    assert names == rest + [last];
    if q < |before| {
      OrderedInOrder(rest, p, q);
      EarlierGrows(rest, last, before[p], before[q]);
    } else {
      assert before[p] in before;
      OrderedHolds(rest, before[p]);
      OrderedHolds(rest, Norm(last));
      NewIsLast(rest, last, before[p]);
    }
  }

  /** The candidates come in the order the list names them. */
  ghost predicate Follows(names: seq<string>, candidates: seq<Candidate>)
  {
    forall i, j | 0 <= i < j < |candidates| :: Earlier(names, candidates[i].addon.origin, candidates[j].addon.origin)
  }

  lemma FollowsAppend(names: seq<string>, rest: seq<Candidate>, last: Candidate)
    requires Follows(names, rest) && forall k | k in rest :: Earlier(names, k.addon.origin, last.addon.origin)
    ensures Follows(names, rest + [last])
  {
  }

  lemma FollowsNext(names: seq<string>, rest: seq<Candidate>, last: Candidate)
    requires Follows(names, rest + [last])
    ensures Follows(names, rest) && forall k | k in rest :: Earlier(names, k.addon.origin, last.addon.origin)
  {
    var all := rest + [last];
    forall i | 0 <= i < |rest|
      ensures Earlier(names, rest[i].addon.origin, last.addon.origin)
    {
      assert all[i] == rest[i] && all[|rest|] == last;
    }
    assert forall i | 0 <= i < |rest| :: all[i] == rest[i];
  }

  /** Everything in front of a place of the origins is named before it. */
  lemma {:induction false} OrderedBefore(names: seq<string>, n: nat, x: string)
    requires n < |Ordered(names)| && x in Ordered(names)[..n]
    ensures Earlier(names, x, Ordered(names)[n])
  {
    var p :| 0 <= p < n && Ordered(names)[p] == x;
    OrderedInOrder(names, p, n);
  }

  ghost predicate From(candidates: seq<Candidate>, origins: seq<string>)
  {
    forall k | k in candidates :: k.addon.origin in origins
  }

  lemma {:induction false} CandidatesGrow(host: Host, read: Reading, origins: seq<string>, n: nat)
    requires n < |origins|
    ensures Candidates(host, read, origins[..n + 1]) ==
            Candidates(host, read, origins[..n])
            + if !IsCandidate(host, read, origins[n]) then []
              else [Candidate(host.installed[origins[n]], origins[n] in read.explicit)]
  {
    assert origins[..n + 1][..n] == origins[..n];
  }

  lemma {:induction false} CandidatesFollow(host: Host, read: Reading, names: seq<string>, n: nat)
    requires KeyedHost(host) && n <= |Ordered(names)|
    ensures Follows(names, Candidates(host, read, Ordered(names)[..n]))
    ensures From(Candidates(host, read, Ordered(names)[..n]), Ordered(names)[..n])
  {
    if n > 0 {
      var all := Ordered(names);
      CandidatesGrow(host, read, all, n - 1);
      CandidatesFollow(host, read, names, n - 1);
      var before := Candidates(host, read, all[..n - 1]);
      forall k | k in before
        ensures Earlier(names, k.addon.origin, all[n - 1])
      {
        OrderedBefore(names, n - 1, k.addon.origin);
      }
      if IsCandidate(host, read, all[n - 1]) {
        FollowsAppend(names, before, Candidate(host.installed[all[n - 1]], all[n - 1] in read.explicit));
      }
    }
  }

  lemma {:induction false} GroupFollows(names: seq<string>, candidates: seq<Candidate>, slot: string)
    requires Follows(names, candidates)
    ensures Follows(names, Group(candidates, slot))
    ensures forall k | k in Group(candidates, slot) :: k in candidates
  {
    if candidates != [] {
      var rest, last := candidates[..|candidates| - 1], candidates[|candidates| - 1];
      assert candidates == rest + [last];
      FollowsNext(names, rest, last);
      GroupFollows(names, rest, slot);
      FollowsAppend(names, Group(rest, slot), last);
    }
  }

  /** What an addon needs to be considered: installed, not disabled, listed, and a provider or asked for. */
  ghost predicate Eligible(host: Host, c: Configuration, o: string)
  {
    && o in host.installed && !Named(c.disabled, o)
    && (Named(c.chosen, o) || (Named(host.offered, o) && exists s :: s in host.offered && Lower(s) == Lower(o)))
    && (host.installed[o].provider.Some? || Asked(c, o))
  }

  ghost predicate Asked(c: Configuration, o: string) { Named(c.enabled, o) || Named(c.chosen, o) }

  /** Both are considered for the same slot. */
  ghost predicate Rivals(host: Host, c: Configuration, o: string, q: string)
  {
    && Eligible(host, c, o) && Eligible(host, c, q) && o != q
    && host.installed[o].provider.Some? && host.installed[q].provider.Some?
    && host.installed[o].provider.value.slot == host.installed[q].provider.value.slot
  }

  /**
   The provider an exclusive slot goes to: the one that was selected, by its
   origin or its own name; without a selection the first that was asked for, and
   when none was, the first, in the order of what is offered and then chosen.
   */
  ghost predicate Wins(host: Host, c: Configuration, o: string)
    requires o in host.installed && host.installed[o].provider.Some?
  {
    var p := host.installed[o].provider.value;
    var names := host.offered + c.chosen;
    if p.slot in c.slots && c.slots[p.slot] != "" then
      Lower(c.slots[p.slot]) == o || Lower(c.slots[p.slot]) == p.id
    else forall q | Rivals(host, c, o, q) ::
      if Asked(c, o) then Asked(c, q) ==> Earlier(names, o, q) else !Asked(c, q) && Earlier(names, o, q)
  }

  /** An addon contributes when it is considered, and its exclusive slot, if it has one, goes to it. */
  ghost predicate Contributes(host: Host, c: Configuration, o: string)
  {
    && Eligible(host, c, o)
    && (host.installed[o].provider.Some? && host.installed[o].provider.value.mode.Exclusive? ==> Wins(host, c, o))
  }

  lemma NamedInBoth(a: seq<string>, b: seq<string>, x: string)
    ensures Named(a + b, x) <==> Named(a, x) || Named(b, x)
  {
    if Named(a, x) { var o :| o in a && Norm(o) == x; assert o in a + b; }
    if Named(b, x) { var o :| o in b && Norm(o) == x; assert o in a + b; }
  }

  lemma EligibleIsCandidate(host: Host, c: Configuration, o: string)
    requires KeyedHost(host)
    ensures Eligible(host, c, o) <==> o in Origins(host, c) && IsCandidate(host, Read(c), o)
    ensures o in Read(c).explicit <==> Asked(c, o)
  {
    OrderedHolds(host.offered + c.chosen, o);
    NamedInBoth(host.offered, c.chosen, o);
    OriginSetHolds(c.enabled + c.chosen, o);
    NamedInBoth(c.enabled, c.chosen, o);
    OriginSetHolds(c.chosen, o);
    OriginSetHolds(c.disabled, o);
  }

  /** The candidate an addon is considered as. */
  ghost function CandidateFor(host: Host, c: Configuration, o: string): Candidate
    requires o in host.installed
  {
    Candidate(host.installed[o], Asked(c, o))
  }

  lemma CandidatesAreEligible(host: Host, c: Configuration)
    requires KeyedHost(host)
    ensures forall k :: k in CandidatesOf(host, c) <==>
              Eligible(host, c, k.addon.origin) && k == CandidateFor(host, c, k.addon.origin)
    ensures DistinctOrigins(CandidatesOf(host, c)) && Follows(host.offered + c.chosen, CandidatesOf(host, c))
  {
    CandidatesOfHold(host, c);
    var names := host.offered + c.chosen;
    CandidatesFollow(host, Read(c), names, |Ordered(names)|);
    assert Ordered(names)[..|Ordered(names)|] == Ordered(names);
    forall k
      ensures k in CandidatesOf(host, c) <==>
              Eligible(host, c, k.addon.origin) && k == CandidateFor(host, c, k.addon.origin)
    {
      EligibleIsCandidate(host, c, k.addon.origin);
    }
  }

  /** The group of a slot is the candidate and its rivals. */
  lemma {:induction false} GroupIsRivals(host: Host, c: Configuration, slot: string, i: nat)
    requires KeyedHost(host) && i < |Group(CandidatesOf(host, c), slot)|
    ensures var group := Group(CandidatesOf(host, c), slot);
            var o := group[i].addon.origin;
            && Eligible(host, c, o) && group[i] == CandidateFor(host, c, o)
            && host.installed[o].provider.Some? && host.installed[o].provider.value.slot == slot
            && forall j | 0 <= j < |group| && j != i ::
                 Rivals(host, c, o, group[j].addon.origin) && (group[j].asked <==> Asked(c, group[j].addon.origin))
  {
    var group := Group(CandidatesOf(host, c), slot);
    CandidatesAreEligible(host, c);
    GroupHolds(CandidatesOf(host, c), slot);
    assert group[i] in group;
    forall j | 0 <= j < |group| && j != i
      ensures Rivals(host, c, group[i].addon.origin, group[j].addon.origin)
      ensures group[j].asked <==> Asked(c, group[j].addon.origin)
    {
      assert group[j] in group;
      if i < j { assert group[i].addon.origin != group[j].addon.origin; }
      else { assert group[j].addon.origin != group[i].addon.origin; }
    }
  }

  lemma {:induction false} RivalIsInGroup(host: Host, c: Configuration, o: string, q: string) returns (j: nat)
    requires KeyedHost(host) && Rivals(host, c, o, q)
    ensures var group := Group(CandidatesOf(host, c), host.installed[o].provider.value.slot);
            j < |group| && group[j].addon.origin == q && group[j] == CandidateFor(host, c, q)
  {
    var slot := host.installed[o].provider.value.slot;
    CandidatesAreEligible(host, c);
    GroupHolds(CandidatesOf(host, c), slot);
    var k := CandidateFor(host, c, q);
    assert k in CandidatesOf(host, c);
    assert k in Group(CandidatesOf(host, c), slot);
    j :| 0 <= j < |Group(CandidatesOf(host, c), slot)| && Group(CandidatesOf(host, c), slot)[j] == k;
  }

  /** Without a selection the choice is the first in line. */
  ghost predicate FirstInLine(names: seq<string>, group: seq<Candidate>, i: nat)
    requires i < |group|
  {
    forall j | 0 <= j < |group| && j != i ::
      var earlier := Earlier(names, group[i].addon.origin, group[j].addon.origin);
      if group[i].asked then group[j].asked ==> earlier else !group[j].asked && earlier
  }

  lemma {:induction false} ChoiceIsFirstInLine(names: seq<string>, group: seq<Candidate>, i: nat)
    requires Follows(names, group) && i < |group|
    ensures IsChoice("", group, i) <==> FirstInLine(names, group, i)
  {
    forall j | 0 <= j < |group| && j != i
      ensures Earlier(names, group[i].addon.origin, group[j].addon.origin) <==> i < j
    {
      if j < i {
        EarlierIsAsymmetric(names, group[j].addon.origin, group[i].addon.origin);
      }
    }
    if i > 0 {
      EarlierIsAsymmetric(names, group[0].addon.origin, group[i].addon.origin);
    }
  }

  lemma {:induction false} LineIsRivals(host: Host, c: Configuration, slot: string, i: nat)
    requires KeyedHost(host) && i < |Group(CandidatesOf(host, c), slot)| && !(slot in c.slots && c.slots[slot] != "")
    ensures var o := Group(CandidatesOf(host, c), slot)[i].addon.origin;
            && o in host.installed && host.installed[o].provider.Some?
            && (FirstInLine(host.offered + c.chosen, Group(CandidatesOf(host, c), slot), i) <==> Wins(host, c, o))
  {
    var group, names := Group(CandidatesOf(host, c), slot), host.offered + c.chosen;
    var o := group[i].addon.origin;
    GroupIsRivals(host, c, slot, i);
    if FirstInLine(names, group, i) {
      forall q | Rivals(host, c, o, q)
        ensures if Asked(c, o) then Asked(c, q) ==> Earlier(names, o, q) else !Asked(c, q) && Earlier(names, o, q)
      {
        var j := RivalIsInGroup(host, c, o, q);
      }
    }
    if Wins(host, c, o) {
      forall j | 0 <= j < |group| && j != i
        ensures var earlier := Earlier(names, o, group[j].addon.origin);
                if group[i].asked then group[j].asked ==> earlier else !group[j].asked && earlier
      {
        assert Rivals(host, c, o, group[j].addon.origin);
      }
    }
  }

  lemma {:induction false} ChoiceIsWinner(host: Host, c: Configuration, slot: string, i: nat)
    requires KeyedHost(host) && Settles(c, CandidatesOf(host, c), slot) && i < |Group(CandidatesOf(host, c), slot)|
    ensures var group := Group(CandidatesOf(host, c), slot);
            var o := group[i].addon.origin;
            && o in host.installed && host.installed[o].provider.Some?
            && (IsChoice(Selection(c, slot), group, i) <==> Wins(host, c, o))
  {
    var group, names := Group(CandidatesOf(host, c), slot), host.offered + c.chosen;
    GroupIsRivals(host, c, slot, i);
    var s: nat :| IsChoice(Selection(c, slot), group, s);
    if !(slot in c.slots && c.slots[slot] != "") {
      CandidatesAreEligible(host, c);
      GroupFollows(names, CandidatesOf(host, c), slot);
      ChoiceIsFirstInLine(names, group, i);
      LineIsRivals(host, c, slot, i);
    }
  }

  /** An exclusive candidate is active when it is chosen at its place in its group. */
  lemma {:induction false} ActiveAtPlace(c: Configuration, candidates: seq<Candidate>, k: Candidate) returns (i: nat)
    requires DistinctOrigins(candidates) && k in candidates
    requires k.addon.provider.Some? && k.addon.provider.value.mode.Exclusive?
    ensures var slot := k.addon.provider.value.slot;
            && i < |Group(candidates, slot)| && Group(candidates, slot)[i] == k
            && (IsActive(c, candidates, k) <==> IsChoice(Selection(c, slot), Group(candidates, slot), i))
  {
    var group := Group(candidates, k.addon.provider.value.slot);
    GroupHolds(candidates, k.addon.provider.value.slot);
    assert k in group;
    i :| i < |group| && group[i] == k;
  }

  lemma {:induction false} ChosenIsContributing(host: Host, c: Configuration, k: Candidate)
    requires KeyedHost(host) && AllSettle(c, CandidatesOf(host, c)) && k in CandidatesOf(host, c)
    requires k.addon.provider.Some? && k.addon.provider.value.mode.Exclusive?
    ensures k.addon.origin in host.installed && k.addon == host.installed[k.addon.origin]
    ensures IsActive(c, CandidatesOf(host, c), k) <==> Wins(host, c, k.addon.origin)
  {
    CandidatesAreEligible(host, c);
    assert Settles(c, CandidatesOf(host, c), k.addon.provider.value.slot);
    var i := ActiveAtPlace(c, CandidatesOf(host, c), k);
    ChoiceIsWinner(host, c, k.addon.provider.value.slot, i);
  }

  lemma {:induction false} ActiveIsContributing(host: Host, c: Configuration, k: Candidate)
    requires KeyedHost(host) && AllSettle(c, CandidatesOf(host, c)) && k in CandidatesOf(host, c)
    ensures IsActive(c, CandidatesOf(host, c), k) <==> Contributes(host, c, k.addon.origin)
  {
    CandidatesAreEligible(host, c);
    if k.addon.provider.Some? && k.addon.provider.value.mode.Exclusive? {
      ChosenIsContributing(host, c, k);
    }
  }

  /**
   When resolution succeeds, an installed addon is active exactly when it is not
   disabled, is listed, is a provider or was asked for, and, where its slot takes
   one provider, the slot goes to it.
   */
  lemma {:induction false} ActiveMeaning(host: Host, c: Configuration, a: Addon)
    requires KeyedHost(host) && Resolvable(host, c)
    ensures a in ActiveAddons(host, c) <==>
            a.origin in host.installed && a == host.installed[a.origin] && Contributes(host, c, a.origin)
  {
    var candidates := CandidatesOf(host, c);
    CandidatesAreEligible(host, c);
    ActiveOfHolds(c, candidates, candidates);
    if a in ActiveAddons(host, c) {
      var k :| k in candidates && IsActive(c, candidates, k) && k.addon == a;
      ActiveIsContributing(host, c, k);
    }
    if a.origin in host.installed && a == host.installed[a.origin] && Contributes(host, c, a.origin) {
      var k := CandidateFor(host, c, a.origin);
      ActiveIsContributing(host, c, k);
    }
  }

  ghost predicate Lined(names: seq<string>, addons: seq<Addon>)
  {
    forall i, j | 0 <= i < j < |addons| :: Earlier(names, addons[i].origin, addons[j].origin)
  }

  lemma LinedNext(names: seq<string>, addons: seq<Addon>, last: Addon)
    requires Lined(names, addons) && forall a | a in addons :: Earlier(names, a.origin, last.origin)
    ensures Lined(names, addons + [last])
  {
  }

  lemma {:induction false} ActiveFollow(c: Configuration, names: seq<string>, candidates: seq<Candidate>,
                                        some: seq<Candidate>)
    requires Follows(names, some)
    ensures Lined(names, ActiveOf(c, candidates, some))
  {
    if some != [] {
      var rest, last := some[..|some| - 1], some[|some| - 1];
      assert some == rest + [last];
      FollowsNext(names, rest, last);
      ActiveFollow(c, names, candidates, rest);
      ActiveOfHolds(c, candidates, rest);
      LinedNext(names, ActiveOf(c, candidates, rest), last.addon);
    }
  }

  /** The active addons come in the order they are offered, and then chosen, in. */
  lemma {:induction false} ActiveInOrder(host: Host, c: Configuration)
    requires KeyedHost(host)
    ensures Lined(host.offered + c.chosen, ActiveAddons(host, c))
  {
    CandidatesAreEligible(host, c);
    ActiveFollow(c, host.offered + c.chosen, CandidatesOf(host, c), CandidatesOf(host, c));
  }

  /** A disabled addon stops being active. */
  lemma {:induction false} DisableTakesEffect(host: Host, before: Configuration, o: string, after: Configuration)
    requires ValidHost(host) && Inv(host, before) && Disables(host, before, o, after)
    ensures forall a | a in ActiveAddons(host, after) :: a.origin != o
  {
    DisableKeeps(host, before, o, after);
    InvResolves(host, after);
    NormalHolds(after.disabled, o);
    NormalHolds(after.enabled, o);
    NormalHolds(after.chosen, o);
    forall a | a in ActiveAddons(host, after)
      ensures a.origin != o
    {
      ActiveMeaning(host, after, a);
    }
  }

  // ---------- the commands ----------

  datatype Reply =
    | Stored | AlreadyEnabled
    | NotSupported | NotFound | NotEnabled
    | NoSuchProvider | SeveralProviders | SlotTakesSeveral

  lemma {:induction false} SavedSame(names: seq<string>)
    requires Normal(names)
    ensures Normal(Normalized(names))
    ensures forall x :: x in Normalized(names) <==> x in names
  {
    NormalizedIsNormal(names);
    forall x
      ensures x in Normalized(names) <==> x in names
    {
      NormalizedHolds(names, x);
      NormalHolds(names, x);
    }
  }

  lemma {:induction false} SavedWith(names: seq<string>, o: string)
    requires Normal(names) && o != "" && Norm(o) == o
    ensures Normal(Normalized(names + [o]))
    ensures forall x :: x in Normalized(names + [o]) <==> x in names || x == o
  {
    SavedSame(names + [o]);
  }

  lemma SavedWithout(names: seq<string>, o: string)
    requires Normal(names)
    ensures Normal(Normalized(Without(names, o)))
    ensures forall x :: x in Normalized(Without(names, o)) <==> x in names && x != o
  {
    var rest := Without(names, o);
    SavedSame(names);
    forall x
      ensures x in rest <==> x in names && x != o
    {
      RemovedHolds(Normalized(names), o, x);
    }
    SavedSame(rest);
  }

  /** A listed addon: where it stands and what it provides. */
  predicate Answers(host: Host, o: string, slot: string, provider: string)
  {
    && o in host.installed
    && (match host.installed[o].provider
        case None => slot == "" && (o == provider || provider == "")
        case Some(p) => p.slot == slot && (o == provider || p.id == provider))
  }

  function Matches(host: Host, origins: seq<string>, slot: string, provider: string): seq<string>
  {
    if origins == [] then []
    else
      var rest, last := origins[..|origins| - 1], origins[|origins| - 1];
      Matches(host, rest, slot, provider) + if Answers(host, last, slot, provider) then [last] else []
  }

  lemma {:induction false} MatchesHold(host: Host, origins: seq<string>, slot: string, provider: string, o: string)
    ensures o in Matches(host, origins, slot, provider) <==>
            && o in origins && o in host.installed
            && (match host.installed[o].provider
                case None => slot == "" && provider in {o, ""}
                case Some(p) => p.slot == slot && provider in {o, p.id})
  {
    if origins != [] {
      var rest, last := origins[..|origins| - 1], origins[|origins| - 1];
      assert origins == rest + [last];
      MatchesHold(host, rest, slot, provider, o);
    }
  }

  method FindMatches(host: Host, origins: seq<string>, slot: string, provider: string) returns (matches: seq<string>)
    ensures matches == Matches(host, origins, slot, provider)
  {
    matches := [];
    for i := 0 to |origins|
      invariant matches == Matches(host, origins[..i], slot, provider)
    {
      assert origins[..i + 1][..i] == origins[..i];
      if Answers(host, origins[i], slot, provider) {
        matches := matches + [origins[i]];
      }
    }
    assert origins[..|origins|] == origins;
  }

  /** The configuration of one application on a host, as it is stored. */
  class AddonSettings {
    const host: Host
    var stored: Configuration

    ghost predicate Valid()
      reads this
    {
      ValidHost(host) && Inv(host, stored)
    }

    constructor (host: Host)
      requires ValidHost(host)
      ensures Valid() && this.host == host && stored == EMPTY
    {
      this.host := host;
      stored := EMPTY;
    }

    /** Enables an addon; `past` lets the owner choose one the package does not offer. */
    method EnableAddon(origin: string, past: bool) returns (r: Reply)
      requires Valid()
      modifies this
      ensures Valid()
      ensures r.Stored? ==> Enables(host, old(stored), Norm(origin), past, stored)
      ensures !r.Stored? ==> stored == old(stored)
      ensures r.NotSupported? <==> !past && forall s | s in host.offered :: Lower(s) != Lower(Norm(origin))
      ensures r.NotFound? ==> Norm(origin) !in host.installed
      ensures r.AlreadyEnabled? ==> IsExplicit(stored, Norm(origin))
      ensures r.Stored? || r.NotSupported? || r.NotFound? || r.AlreadyEnabled?
    {
      var o := Norm(origin);
      if !Supported(host, o) && !past {
        return NotSupported;
      }
      if o !in host.installed {
        return NotFound;
      }
      if IsExplicit(stored, o) {
        return AlreadyEnabled;
      }
      var c := stored;
      SavedWith(c.enabled, o);
      SavedWith(c.chosen, o);
      SavedSame(c.enabled);
      SavedSame(c.chosen);
      SavedWithout(c.disabled, o);
      if past && !Supported(host, o) {
        c := c.(chosen := c.chosen + [o]);
      } else {
        c := c.(enabled := c.enabled + [o]);
      }
      c := c.(disabled := Without(c.disabled, o));
      var provider := host.installed[o].provider;
      if provider.Some? && provider.value.mode.Exclusive? {
        c := c.(slots := c.slots[provider.value.slot := o]);
      }
      c := Saved(c);
      assert Enables(host, stored, o, past, c);
      EnableKeeps(host, stored, o, past, c);
      stored := c;
      r := Stored;
    }

    /** Disables an addon that is active now. */
    method DisableAddon(origin: string) returns (r: Reply)
      requires Valid()
      modifies this
      ensures Valid()
      ensures r.Stored? <==> exists a :: a in ActiveAddons(host, old(stored)) && a.origin == Norm(origin)
      ensures r.Stored? ==> Disables(host, old(stored), Norm(origin), stored)
      ensures r.Stored? ==> forall a | a in ActiveAddons(host, stored) :: a.origin != Norm(origin)
      ensures !r.Stored? ==> r.NotEnabled? && stored == old(stored)
    {
      var o := Norm(origin);
      InvResolves(host, stored);
      var resolution := ActiveAddonCandidates(host, stored);
      var found := exists a :: a in resolution.addons && a.origin == o;
      if !found {
        return NotEnabled;
      }
      ActiveIsInstalled(host, stored, o);
      NormIdempotent(origin);
      var c := stored;
      SavedWithout(c.enabled, o);
      SavedWithout(c.chosen, o);
      SavedWith(c.disabled, o);
      SavedSame(c.disabled);
      c := c.(enabled := Without(c.enabled, o), chosen := Without(c.chosen, o));
      var provider := host.installed[o].provider;
      if provider.Some? {
        var slot := provider.value.slot;
        c := c.(disabled := c.disabled + [o]);
        if slot in c.slots && (c.slots[slot] == o || c.slots[slot] == provider.value.id) {
          c := c.(slots := c.slots - {slot});
        }
      }
      c := Saved(c);
      assert Disables(host, stored, o, c);
      DisableKeeps(host, stored, o, c);
      DisableTakesEffect(host, stored, o, c);
      stored := c;
      r := Stored;
    }

    /** Gives an exclusive slot to the one provider that answers to a name, its origin or its own. */
    method SelectAddonProvider(slotName: string, providerName: string) returns (r: Reply)
      requires Valid()
      modifies this
      ensures Valid()
      ensures var matches := Matches(host, Origins(host, old(stored)), Norm(slotName), Norm(providerName));
              if matches == [] then r == NoSuchProvider && stored == old(stored)
              else if |matches| > 1 then r == SeveralProviders && stored == old(stored)
              else if matches[0] !in host.installed || host.installed[matches[0]].provider.None?
                      || host.installed[matches[0]].provider.value.mode.Multiple? then
                r == SlotTakesSeveral && stored == old(stored)
              else r == Stored && Selects(host, old(stored), Norm(slotName), matches[0], stored)
    {
      var slot, provider := Norm(slotName), Norm(providerName);
      var matches := FindMatches(host, Origins(host, stored), slot, provider);
      if |matches| == 0 {
        return NoSuchProvider;
      }
      if |matches| > 1 {
        return SeveralProviders;
      }
      var o := matches[0];
      MatchesHold(host, Origins(host, stored), slot, provider, o);
      if !FillsExclusively(host, slot, o) {
        return SlotTakesSeveral;
      }
      var c := stored;
      c := c.(slots := c.slots[slot := o], disabled := Without(c.disabled, o));
      if Supported(host, o) {
        c := c.(enabled := c.enabled + [o]);
      } else {
        c := c.(chosen := c.chosen + [o]);
      }
      SavedSelects(host, stored, slot, o);
      SelectKeeps(host, stored, slot, o, Saved(c));
      stored := Saved(c);
      r := Stored;
    }
  }

  /** The list holds what another one holds, and one name more when it is to. */
  ghost predicate Gains(names: seq<string>, before: seq<string>, o: string, gains: bool)
  {
    Normal(names) && forall x :: x in names <==> x in before || (x == o && gains)
  }

  lemma SelectsWith(host: Host, c: Configuration, slot: string, o: string, after: Configuration)
    requires FillsExclusively(host, slot, o) && after.slots == c.slots[slot := o]
    requires Gains(after.enabled, c.enabled, o, Supported(host, o))
             && Gains(after.chosen, c.chosen, o, !Supported(host, o))
    requires Normal(after.disabled) && forall x :: x in after.disabled <==> x in c.disabled && x != o
    ensures Selects(host, c, slot, o, after)
  {
  }

  lemma {:induction false} SavedGains(names: seq<string>, o: string)
    requires Normal(names) && o != "" && Norm(o) == o
    ensures Gains(Normalized(names + [o]), names, o, true) && Gains(Normalized(names), names, o, false)
  {
    SavedWith(names, o);
    SavedSame(names);
  }

  lemma {:induction false} SavedSelects(host: Host, c: Configuration, slot: string, o: string)
    requires ValidHost(host) && Inv(host, c) && FillsExclusively(host, slot, o)
    ensures var filled := c.(slots := c.slots[slot := o], disabled := Without(c.disabled, o));
            Selects(host, c, slot, o,
                    Saved(if Supported(host, o) then filled.(enabled := c.enabled + [o])
                          else filled.(chosen := c.chosen + [o])))
  {
    SavedGains(c.enabled, o);
    SavedGains(c.chosen, o);
    SavedWithout(c.disabled, o);
    var filled := c.(slots := c.slots[slot := o], disabled := Without(c.disabled, o));
    if Supported(host, o) {
      SelectsWith(host, c, slot, o, Saved(filled.(enabled := c.enabled + [o])));
    } else {
      SelectsWith(host, c, slot, o, Saved(filled.(chosen := c.chosen + [o])));
    }
  }

  lemma ActiveIsInstalled(host: Host, c: Configuration, o: string)
    requires KeyedHost(host) && exists a :: a in ActiveAddons(host, c) && a.origin == o
    ensures o in host.installed
  {
    var a :| a in ActiveAddons(host, c) && a.origin == o;
    CandidatesOfHold(host, c);
    ActiveOfHolds(c, CandidatesOf(host, c), CandidatesOf(host, c));
  }
}
