/**
 The components a launch is composed of: the applications reached through layer
 dependencies, each after what it depends on, and the layers they contribute.
 */
module Composition {
  import opened Common
  import opened DepthFirst

  datatype Dependency = Dependency(id: string, origin: string, isLayer: bool)

  datatype Application = Application(id: string, origin: string, dependencies: seq<Dependency>, layers: seq<string>)

  /** Installed applications by their identifier. */
  type Store = map<string, Application>

  datatype Resolution =
    | Components(applications: seq<Application>)
    | CycleDetected(id: string)
    | UnusableDependency(id: string)

  ghost predicate ValidStore(store: Store)
  {
    forall id | id in store :: store[id].id == id
  }

  // ---------- the dependency graph ----------

  /** The dependency names an installed application of the origin it was declared with. */
  predicate Usable(store: Store, d: Dependency)
  {
    d.id in store && store[d.id].origin == d.origin
  }

  function StepOf(store: Store, d: Dependency): Step<string, Application>
  {
    if Usable(store, d) then To(d.id, store[d.id]) else Broken
  }

  function Steps(store: Store, dependencies: seq<Dependency>): seq<Step<string, Application>>
  {
    if dependencies == [] then []
    else
      (if dependencies[0].isLayer then [StepOf(store, dependencies[0])] else []) + Steps(store, dependencies[1..])
  }

  /** The record searched under an identifier: the application being resolved, or an installed one. */
  function RecordOf(root: Application, store: Store, id: string): Application
    requires id in store || id == root.id
  {
    if id == root.id then root else store[id]
  }

  function GraphOf(root: Application, store: Store): Graph<string, Application>
  {
    map id | id in store.Keys + {root.id} :: Steps(store, RecordOf(root, store, id).dependencies)
  }

  lemma {:induction false} StepsAreDependencies(store: Store, dependencies: seq<Dependency>,
                                                s: Step<string, Application>)
    ensures s in Steps(store, dependencies) <==> exists d :: d in dependencies && d.isLayer && s == StepOf(store, d)
  {
    if dependencies != [] {
      StepsAreDependencies(store, dependencies[1..], s);
      assert dependencies == [dependencies[0]] + dependencies[1..];
    }
  }

  /** The record under `a` declares the layer dependency. */
  ghost predicate Declares(root: Application, store: Store, a: string, d: Dependency)
  {
    || (a == root.id && d in root.dependencies && d.isLayer)
    || (a != root.id && a in store && d in store[a].dependencies && d.isLayer)
  }

  /** The record under `a` declares a layer dependency on `b`, which is installed from the origin it says. */
  ghost predicate DependsOn(root: Application, store: Store, a: string, b: string)
  {
    b in store && exists d :: Declares(root, store, a, d) && d.id == b && d.origin == store[b].origin
  }

  /** The record under `a` declares a layer dependency that is not installed, or is from another origin. */
  ghost predicate HasUnusable(root: Application, store: Store, a: string)
  {
    exists d :: Declares(root, store, a, d) && (d.id in store ==> d.origin != store[d.id].origin)
  }

  lemma GraphMeaning(root: Application, store: Store, a: string, b: string)
    ensures Edge(GraphOf(root, store), a, b) <==> DependsOn(root, store, a, b)
    ensures HasBroken(GraphOf(root, store), a) <==> HasUnusable(root, store, a)
  {
    if a in store || a == root.id {
      var dependencies := RecordOf(root, store, a).dependencies;
      forall s { StepsAreDependencies(store, dependencies, s); }
      assert forall d :: Declares(root, store, a, d) <==> d in dependencies && d.isLayer;
      if DependsOn(root, store, a, b) {
        assert To(b, store[b]) in Steps(store, dependencies);
      }
      if HasUnusable(root, store, a) {
        assert Broken in Steps(store, dependencies);
      }
    }
  }

  lemma GraphIsClosed(root: Application, store: Store)
    ensures Closed(GraphOf(root, store))
    ensures var g := GraphOf(root, store);
            forall k, s: Step<string, Application> | k in g && s in g[k] && s.To? ::
              s.node in store && s.entry == store[s.node]
  {
    var g := GraphOf(root, store);
    forall k, s: Step<string, Application> | k in g && s in g[k] && s.To?
      ensures s.node in store && s.entry == store[s.node]
    {
      StepsAreDependencies(store, RecordOf(root, store, k).dependencies, s);
    }
  }

  // ---------- resolution ----------

  /** A reachable record is on a cycle or has a dependency that cannot be used. */
  ghost predicate Faulty(root: Application, store: Store, k: string)
  {
    Reaches(GraphOf(root, store), root.id, k) && (OnCycle(GraphOf(root, store), k) || HasUnusable(root, store, k))
  }

  function Ids(applications: seq<Application>): (r: seq<string>)
    ensures |r| == |applications|
    ensures forall i | 0 <= i < |r| :: r[i] == applications[i].id
  {
    seq(|applications|, i requires 0 <= i < |applications| => applications[i].id)
  }

  /** Exactly the applications reached, once each, without the root, each after its own dependencies. */
  ghost predicate Resolves(root: Application, store: Store, applications: seq<Application>)
  {
    var ids := Ids(applications);
    && (forall a | a in applications :: a.id in store && a == store[a.id])
    && NoRepeats(ids)
    && (forall k :: k in ids <==> k != root.id && Reaches(GraphOf(root, store), root.id, k))
    && (forall i, b | 0 <= i < |ids| && DependsOn(root, store, ids[i], b) :: b in ids[..i])
  }

  lemma ReachedIsResolved(root: Application, store: Store, order: seq<string>, k: string)
    requires var g := GraphOf(root, store);
             && InOrder(g, order) && NoRepeats(order) && root.id !in order && Resolved(g, root.id, order)
             && (forall x | x in order :: Reaches(g, root.id, x))
    ensures k in order <==> k != root.id && Reaches(GraphOf(root, store), root.id, k)
    ensures !Faulty(root, store, k)
  {
    var g := GraphOf(root, store);
    GraphMeaning(root, store, k, k);
    if Reaches(g, root.id, k) {
      var p :| PathBetween(g, p, root.id, k);
      if |p| > 1 {
        var q := p[1..];
        forall m | 0 <= m < |q| - 1 ensures Edge(g, q[m], q[m + 1]) { var n := m + 1; assert Edge(g, p[n], p[n + 1]); }
        assert PathBetween(g, q, p[1], k);
        assert Edge(g, root.id, p[1]);
        ListedIsSound(g, order, p[1], k);
      } else {
        RootIsSound(root, store, order);
      }
    }
  }

  lemma RootIsSound(root: Application, store: Store, order: seq<string>)
    requires var g := GraphOf(root, store);
             InOrder(g, order) && NoRepeats(order) && root.id !in order && Resolved(g, root.id, order)
    ensures !OnCycle(GraphOf(root, store), root.id) && !HasBroken(GraphOf(root, store), root.id)
  {
    var g := GraphOf(root, store);
    if OnCycle(g, root.id) {
      var p :| PathBetween(g, p, root.id, root.id) && |p| > 1;
      var q := p[1..];
      forall m | 0 <= m < |q| - 1 ensures Edge(g, q[m], q[m + 1]) { var n := m + 1; assert Edge(g, p[n], p[n + 1]); }
      assert PathBetween(g, q, p[1], root.id);
      assert Edge(g, root.id, p[1]);
      ListedIsSound(g, order, p[1], root.id);
      assert false;
    }
  }

  ghost predicate Faultless(root: Application, store: Store)
  {
    forall k :: !Faulty(root, store, k)
  }

  /** Resolves the layer dependencies of an application against the store. */
  method ResolveLayerDependencies(root: Application, store: Store) returns (r: Resolution)
    requires ValidStore(store)
    ensures r.Components? ==> Resolves(root, store, r.applications)
    ensures r.Components? <==> Faultless(root, store)
    ensures r.CycleDetected? ==> Reaches(GraphOf(root, store), root.id, r.id) && OnCycle(GraphOf(root, store), r.id)
    ensures r.UnusableDependency? ==> Reaches(GraphOf(root, store), root.id, r.id) && HasUnusable(root, store, r.id)
  {
    GraphIsClosed(root, store);
    var outcome, found, order, colours :=
      FromRoot(GraphOf(root, store), root.id, (k, a) => k in store && a == store[k]);
    match outcome {
      case CycleAt(k) =>
        FaultFound(root, store, k);
        r := CycleDetected(k);
      case BrokenAt(k) =>
        FaultFound(root, store, k);
        r := UnusableDependency(k);
      case Done =>
        Finished(root, store, order, [root.id], colours, found);
        r := Components(found);
    }
  }

  lemma FaultFound(root: Application, store: Store, k: string)
    requires ReachedFrom(GraphOf(root, store), {root.id}, k)
    requires OnCycle(GraphOf(root, store), k) || HasBroken(GraphOf(root, store), k)
    ensures Reaches(GraphOf(root, store), root.id, k) && Faulty(root, store, k)
    ensures HasBroken(GraphOf(root, store), k) ==> HasUnusable(root, store, k)
  {
    GraphMeaning(root, store, k, k);
  }

  lemma Finished(root: Application, store: Store, order: seq<string>, stack: seq<string>,
                 colours: map<string, Colour>, entries: seq<Application>)
    requires ValidStore(store)
    requires Consistent(GraphOf(root, store), {root.id}, colours, order, stack) && stack == [root.id]
    requires Resolved(GraphOf(root, store), root.id, order)
    requires |entries| == |order| && forall i | 0 <= i < |order| :: order[i] in store && entries[i] == store[order[i]]
    ensures Resolves(root, store, entries)
    ensures Faultless(root, store)
  {
    var g := GraphOf(root, store);
    assert root.id in stack && root.id !in order;
    assert Ids(entries) == order;
    forall x | x in order ensures Reaches(g, root.id, x) { assert ReachedFrom(g, {root.id}, x); }
    forall k
      ensures k in order <==> k != root.id && Reaches(g, root.id, k)
      ensures !Faulty(root, store, k)
    {
      ReachedIsResolved(root, store, order, k);
    }
    forall i, b | 0 <= i < |order| && DependsOn(root, store, order[i], b)
      ensures b in order[..i]
    {
      GraphMeaning(root, store, order[i], b);
      assert Resolved(g, order[i], order[..i]);
    }
  }

  // ---------- the layers ----------

  /** The first occurrence of every name but the empty one, in order. */
  function Firsts(names: seq<string>): seq<string>
  {
    if names == [] then []
    else
      var rest, last := names[..|names| - 1], names[|names| - 1];
      if last == "" || last in rest then Firsts(rest) else Firsts(rest) + [last]
  }

  function Listed(applications: seq<Application>): seq<string>
  {
    if applications == [] then [] else applications[0].layers + Listed(applications[1..])
  }

  lemma {:induction false} FirstsMeaning(names: seq<string>)
    ensures NoRepeats(Firsts(names))
    ensures forall x :: x in Firsts(names) <==> x in names && x != ""
  {
    if names != [] {
      var rest, last := names[..|names| - 1], names[|names| - 1];
      assert names == rest + [last];
      FirstsMeaning(rest);
    }
  }

  lemma {:induction false} FirstsOfConcat(a: seq<string>, b: seq<string>)
    ensures Firsts(a) <= Firsts(a + b)
    decreases |b|
  {
    if b == [] {
      assert a + b == a;
    } else {
      var rest := b[..|b| - 1];
      assert (a + b)[..|a + b| - 1] == a + rest;
      FirstsOfConcat(a, rest);
    }
  }

  ghost function Members(names: seq<string>): set<string> { set x | x in names }

  lemma {:induction false} FirstsStep(names: seq<string>, name: string)
    ensures Firsts(names + [name]) ==
            if name != "" && name !in Firsts(names) then Firsts(names) + [name] else Firsts(names)
    ensures Members(Firsts(names) + [name]) == Members(Firsts(names)) + {name}
    ensures name in Members(Firsts(names)) <==> name in Firsts(names)
  {
    FirstsMeaning(names);
    assert (names + [name])[..|names|] == names;
  }

  method AppendLayers(layers: seq<string>, seen: set<string>, values: seq<string>, ghost before: seq<string>)
    returns (r: seq<string>, s: set<string>)
    requires layers == Firsts(before) && seen == Members(layers)
    ensures r == Firsts(before + values) && s == Members(r)
  {
    r, s := layers, seen;
    ghost var done := before;
    assert before + [] == before;
    for i := 0 to |values|
      invariant done == before + values[..i] && r == Firsts(done) && s == Members(r)
    {
      FirstsStep(done, values[i]);
      PrefixGrows(before, values, i);
      done := done + [values[i]];
      if values[i] != "" && values[i] !in s {
        r, s := r + [values[i]], s + {values[i]};
      }
    }
    assert values[..|values|] == values;
  }

  lemma PrefixGrows(before: seq<string>, values: seq<string>, i: nat)
    requires i < |values|
    ensures before + values[..i + 1] == before + values[..i] + [values[i]]
  {
  }

  lemma OwnGrows(own: seq<string>, addons: seq<Application>, i: nat)
    requires i < |addons|
    ensures own + Listed(addons[..i + 1]) == own + Listed(addons[..i]) + addons[i].layers
  {
    ListedGrows(addons, i);
  }

  /** The layers of a launch: those of the components, then its own, then those of the addons, each once. */
  method ComposedLayers(app: Application, components: seq<Application>, addons: seq<Application>)
    returns (r: seq<string>)
    ensures r == Firsts(Listed(components) + app.layers + Listed(addons))
  {
    var seen: set<string>;
    r, seen := [], {};
    for i := 0 to |components|
      invariant r == Firsts(Listed(components[..i])) && seen == Members(r)
    {
      ListedGrows(components, i);
      r, seen := AppendLayers(r, seen, components[i].layers, Listed(components[..i]));
    }
    assert components[..|components|] == components;
    r, seen := AppendLayers(r, seen, app.layers, Listed(components));
    ghost var own := Listed(components) + app.layers;
    assert own + [] == own;
    for i := 0 to |addons|
      invariant r == Firsts(own + Listed(addons[..i])) && seen == Members(r)
    {
      OwnGrows(own, addons, i);
      r, seen := AppendLayers(r, seen, addons[i].layers, own + Listed(addons[..i]));
    }
    assert addons[..|addons|] == addons;
  }

  lemma ListedGrows(applications: seq<Application>, i: nat)
    requires i < |applications|
    ensures Listed(applications[..i + 1]) == Listed(applications[..i]) + applications[i].layers
    decreases i
  {
    var before, more := applications[..i], applications[..i + 1];
    if i == 0 {
      assert more[1..] == [];
    } else {
      var tail := applications[1..];
      ListedGrows(tail, i - 1);
      assert more[1..] == tail[..i] && before[1..] == tail[..i - 1] && tail[i - 1] == applications[i];
    }
  }
}
