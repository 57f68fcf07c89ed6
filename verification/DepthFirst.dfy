/**
 Depth first search with three colours, as the layer resolver and the
 orchestrator both run it: a node is active while what it depends on is being
 resolved, and it is listed once all of that is listed.
 */
module DepthFirst {
  import opened Common

  /** One dependency of a node: the node it leads to and how it is listed, or a broken one. */
  datatype Step<K, L> = To(node: K, entry: L) | Broken

  type Graph<K, L> = map<K, seq<Step<K, L>>>

  datatype Colour = Active | Listed

  /** How a search ends: done, stopped at a node found active, or at a node with a broken dependency. */
  datatype Outcome<K> = Done | CycleAt(node: K) | BrokenAt(node: K)

  // ---------- graphs ----------

  ghost predicate Closed<K(!new), L(!new)>(g: Graph<K, L>)
  {
    forall k, s | k in g && s in g[k] && s.To? :: s.node in g
  }

  ghost predicate Edge<K(!new), L(!new)>(g: Graph<K, L>, a: K, b: K)
  {
    a in g && exists s :: s in g[a] && s.To? && s.node == b
  }

  ghost predicate Path<K(!new), L(!new)>(g: Graph<K, L>, p: seq<K>)
  {
    p != [] && forall i | 0 <= i < |p| - 1 :: Edge(g, p[i], p[i + 1])
  }

  ghost predicate PathBetween<K(!new), L(!new)>(g: Graph<K, L>, p: seq<K>, a: K, b: K)
  {
    Path(g, p) && p[0] == a && p[|p| - 1] == b
  }

  /** `b` can be reached from `a`, in no step or more. */
  ghost predicate Reaches<K(!new), L(!new)>(g: Graph<K, L>, a: K, b: K)
  {
    exists p :: PathBetween(g, p, a, b)
  }

  /** A path of at least one step leads from the node back to it. */
  ghost predicate OnCycle<K(!new), L(!new)>(g: Graph<K, L>, a: K)
  {
    exists p :: PathBetween(g, p, a, a) && |p| > 1
  }

  ghost predicate ReachedFrom<K(!new), L(!new)>(g: Graph<K, L>, roots: set<K>, k: K)
  {
    exists r :: r in roots && Reaches(g, r, k)
  }

  ghost predicate HasBroken<K(!new), L(!new)>(g: Graph<K, L>, k: K)
  {
    k in g && exists s :: s in g[k] && s.Broken?
  }

  lemma ReachesItself<K(!new), L(!new)>(g: Graph<K, L>, a: K)
    ensures Reaches(g, a, a)
  {
    assert PathBetween(g, [a], a, a);
  }

  lemma ReachesEdge<K(!new), L(!new)>(g: Graph<K, L>, a: K, b: K, c: K)
    requires Reaches(g, a, b) && Edge(g, b, c)
    ensures Reaches(g, a, c)
  {
    var p :| PathBetween(g, p, a, b);
    var q := p + [c];
    assert forall i | 0 <= i < |q| - 1 :: Edge(g, q[i], q[i + 1]);
    assert PathBetween(g, q, a, c);
  }

  // ---------- what the search keeps ----------

  /** Everything a listed node depends on is listed before it. */
  ghost predicate InOrder<K(!new), L(!new)>(g: Graph<K, L>, order: seq<K>)
  {
    forall i | 0 <= i < |order| :: order[i] in g && Resolved(g, order[i], order[..i])
  }

  ghost predicate Resolved<K(!new), L(!new)>(g: Graph<K, L>, k: K, before: seq<K>)
    requires k in g
  {
    forall s | s in g[k] :: s.To? && s.node in before
  }

  /** The active nodes are a path from a root, and the listed ones were all reached. */
  ghost predicate Consistent<K(!new), L(!new)>(g: Graph<K, L>, roots: set<K>, colours: map<K, Colour>, order: seq<K>,
                                               stack: seq<K>)
  {
    && Closed(g) && roots <= g.Keys && colours.Keys <= g.Keys
    && NoRepeats(order) && NoRepeats(stack)
    && (forall k :: k in order <==> k in colours && colours[k].Listed?)
    && (forall k :: k in stack <==> k in colours && colours[k].Active?)
    && (stack != [] ==> Path(g, stack) && stack[0] in roots)
    && InOrder(g, order)
    && (forall k | k in order :: ReachedFrom(g, roots, k))
  }

  /** The node about to be entered: a root, or a dependency of the innermost active node. */
  ghost predicate Next<K(!new), L(!new)>(g: Graph<K, L>, roots: set<K>, stack: seq<K>, node: K)
  {
    if stack == [] then node in roots else Edge(g, stack[|stack| - 1], node)
  }

  lemma StackReached<K(!new), L(!new)>(g: Graph<K, L>, roots: set<K>, colours: map<K, Colour>, order: seq<K>,
                                       stack: seq<K>, i: nat)
    requires Consistent(g, roots, colours, order, stack) && i < |stack|
    ensures ReachedFrom(g, roots, stack[i])
  {
    var p := stack[..i + 1];
    assert PathBetween(g, p, stack[0], stack[i]);
    assert Reaches(g, stack[0], stack[i]);
  }

  lemma NextReached<K(!new), L(!new)>(g: Graph<K, L>, roots: set<K>, colours: map<K, Colour>, order: seq<K>,
                                      stack: seq<K>, node: K)
    requires Consistent(g, roots, colours, order, stack) && Next(g, roots, stack, node)
    ensures ReachedFrom(g, roots, node)
  {
    if stack == [] {
      ReachesItself(g, node);
    } else {
      StackReached(g, roots, colours, order, stack, |stack| - 1);
      var r :| r in roots && Reaches(g, r, stack[|stack| - 1]);
      ReachesEdge(g, r, stack[|stack| - 1], node);
    }
  }

  /** Meeting an active node closes a cycle that the roots reach. */
  lemma ActiveMeansCycle<K(!new), L(!new)>(g: Graph<K, L>, roots: set<K>, colours: map<K, Colour>, order: seq<K>,
                                           stack: seq<K>, node: K)
    requires Consistent(g, roots, colours, order, stack) && Next(g, roots, stack, node)
    requires node in stack
    ensures OnCycle(g, node) && ReachedFrom(g, roots, node)
  {
    NextReached(g, roots, colours, order, stack, node);
    var i :| 0 <= i < |stack| && stack[i] == node;
    var top := if i == 0 then stack else stack[i..];
    var p := top + [node];
    forall j | 0 <= j < |p| - 1
      ensures Edge(g, p[j], p[j + 1])
    {
      assert p[j] == stack[i + j];
      if j + 1 < |top| { assert p[j + 1] == stack[i + j + 1]; }
    }
    assert PathBetween(g, p, node, node) && |p| > 1;
  }

  lemma EnterKeeps<K(!new), L(!new)>(g: Graph<K, L>, roots: set<K>, colours: map<K, Colour>, order: seq<K>,
                                     stack: seq<K>, node: K)
    requires Consistent(g, roots, colours, order, stack) && Next(g, roots, stack, node)
    requires node in g && node !in colours
    ensures Consistent(g, roots, colours[node := Active], order, stack + [node])
  {
    var taller := stack + [node];
    assert node !in stack && node !in order;
    forall i | 0 <= i < |taller| - 1
      ensures Edge(g, taller[i], taller[i + 1])
    {
      if i + 1 < |stack| { assert taller[i] == stack[i] && taller[i + 1] == stack[i + 1]; }
    }
  }

  lemma LeaveKeeps<K(!new), L(!new)>(g: Graph<K, L>, roots: set<K>, colours: map<K, Colour>, order: seq<K>,
                                     stack: seq<K>, node: K)
    requires node in g && Consistent(g, roots, colours, order, stack + [node]) && Resolved(g, node, order)
    ensures Consistent(g, roots, colours[node := Listed], order + [node], stack)
  {
    var taller := stack + [node];
    assert taller[|stack|] == node && node in taller;
    StackReached(g, roots, colours, order, taller, |stack|);
    assert node !in order;
    assert forall i | 0 <= i < |stack| :: taller[i] == stack[i];
    forall k
      ensures k in stack <==> k in taller && k != node
    {
      if k in stack {
        var i :| 0 <= i < |stack| && stack[i] == k;
        assert taller[i] != taller[|stack|];
      }
    }
    assert stack != [] ==> Path(g, stack) by {
      assert forall i | 0 <= i < |stack| - 1 :: Edge(g, taller[i], taller[i + 1]);
    }
    var longer := order + [node];
    forall i | 0 <= i < |longer|
      ensures longer[i] in g && Resolved(g, longer[i], longer[..i])
    {
      if i < |order| {
        assert longer[..i] == order[..i];
      } else {
        assert longer[..i] == order;
      }
    }
  }

  // ---------- what a finished order rules out ----------

  /** Along a path, positions in a finished order only go down. */
  lemma {:induction false} PathDescends<K(!new), L(!new)>(g: Graph<K, L>, order: seq<K>, p: seq<K>, i: nat)
    returns (j: nat)
    requires InOrder(g, order) && Path(g, p) && i < |order| && p[0] == order[i]
    ensures j + |p| <= i + 1 && j < |order| && order[j] == p[|p| - 1]
    decreases |p|
  {
    if |p| == 1 {
      j := i;
    } else {
      assert Edge(g, p[0], p[1]);
      assert Resolved(g, order[i], order[..i]);
      var k :| 0 <= k < i && order[k] == p[1];
      var q := p[1..];
      forall m | 0 <= m < |q| - 1 ensures Edge(g, q[m], q[m + 1]) { var n := m + 1; assert Edge(g, p[n], p[n + 1]); }
      j := PathDescends(g, order, q, k);
    }
  }

  /** From a listed node only listed nodes are reached, and none of them is on a cycle or broken. */
  lemma ListedIsSound<K(!new), L(!new)>(g: Graph<K, L>, order: seq<K>, a: K, b: K)
    requires InOrder(g, order) && NoRepeats(order) && a in order && Reaches(g, a, b)
    ensures b in order && !OnCycle(g, b) && !HasBroken(g, b)
  {
    var i :| 0 <= i < |order| && order[i] == a;
    var p :| PathBetween(g, p, a, b);
    var j := PathDescends(g, order, p, i);
    if OnCycle(g, b) {
      var q :| PathBetween(g, q, b, b) && |q| > 1;
      var k := PathDescends(g, order, q, j);
      assert false;
    }
    assert Resolved(g, order[j], order[..j]);
  }

  // ---------- the search ----------

  lemma FewerLeft<K>(all: set<K>, some: set<K>, more: set<K>)
    requires some <= more
    ensures |all - more| <= |all - some|
    ensures forall k | k in all && k !in some && k in more :: |all - more| < |all - some|
  {
    var a, b := all - more, all - some;
    assert a <= b;
    SubsetSize(a, b);
    forall k | k in all && k !in some && k in more
      ensures |a| < |b|
    {
      assert a <= b - {k};
      SubsetSize(a, b - {k});
    }
  }

  lemma OneFewerLeft<K>(all: set<K>, colours: map<K, Colour>, k: K)
    requires k in all && k !in colours
    ensures |all - colours[k := Active].Keys| < |all - colours.Keys|
  {
    FewerLeft(all, colours.Keys, colours[k := Active].Keys);
  }

  /** The first `i` dependencies lead to listed nodes. */
  ghost predicate ResolvedUpTo<K(!new), L(!new)>(steps: seq<Step<K, L>>, i: nat, order: seq<K>)
    requires i <= |steps|
  {
    forall j | 0 <= j < i :: steps[j].To? && steps[j].node in order
  }

  lemma ResolvedOneMore<K(!new), L(!new)>(steps: seq<Step<K, L>>, i: nat, order: seq<K>, longer: seq<K>)
    requires i < |steps| && ResolvedUpTo(steps, i, order) && order <= longer
    requires steps[i].To? && steps[i].node in longer
    ensures ResolvedUpTo(steps, i + 1, longer)
  {
    assert forall k | k in order :: k in longer;
  }

  lemma SubsetSize<K>(a: set<K>, b: set<K>)
    requires a <= b
    ensures |a| <= |b|
  {
    if a != {} {
      var k :| k in a;
      SubsetSize(a - {k}, b - {k});
    }
  }

  lemma ListedLast<K>(before: seq<K>, order: seq<K>, node: K)
    requires before <= order
    ensures node in order + [node] && before <= order + [node]
  {
    assert (order + [node])[|order|] == node;
  }

  class Search<K(==, !new), L(!new)> {
    const graph: Graph<K, L>
    ghost const roots: set<K>
    ghost const fits: (K, L) -> bool

    var colours: map<K, Colour>
    var entries: seq<L>
    ghost var order: seq<K>
    ghost var stack: seq<K>

    ghost predicate Valid()
      reads this
    {
      && Consistent(graph, roots, colours, order, stack)
      && |entries| == |order|
      && (forall i | 0 <= i < |order| :: fits(order[i], entries[i]))
      && (forall k, s | k in graph && s in graph[k] && s.To? :: fits(s.node, s.entry))
    }

    constructor (graph: Graph<K, L>, ghost roots: set<K>, ghost fits: (K, L) -> bool)
      requires Closed(graph) && roots <= graph.Keys
      requires forall k, s | k in graph && s in graph[k] && s.To? :: fits(s.node, s.entry)
      ensures Valid() && this.graph == graph && this.roots == roots && this.fits == fits
      ensures colours == map[] && order == [] && stack == []
    {
      this.graph, this.roots, this.fits := graph, roots, fits;
      colours, entries, order, stack := map[], [], [], [];
    }

    ghost function Left(): nat
      reads this
    {
      |graph.Keys - colours.Keys|
    }

    /** What holds whenever a search stops early. */
    ghost predicate Explains(o: Outcome<K>)
    {
      match o
      case Done => true
      case CycleAt(k) => OnCycle(graph, k) && ReachedFrom(graph, roots, k)
      case BrokenAt(k) => HasBroken(graph, k) && ReachedFrom(graph, roots, k)
    }

    /** Marks a node that was not met before as active. */
    method Begin(node: K)
      requires Valid() && node in graph && Next(graph, roots, stack, node) && node !in colours
      modifies this`colours, this`stack
      ensures Valid() && stack == old(stack) + [node]
      ensures old(colours).Keys <= colours.Keys && Left() < old(Left())
    {
      EnterKeeps(graph, roots, colours, order, stack, node);
      OneFewerLeft(graph.Keys, colours, node);
      colours, stack := colours[node := Active], stack + [node];
    }

    /** Lists the innermost active node. */
    method Finish(node: K, entry: L)
      requires Valid() && stack != [] && stack[|stack| - 1] == node && fits(node, entry)
      requires node in graph && Resolved(graph, node, order)
      modifies this
      ensures Valid() && stack == old(stack)[..|old(stack)| - 1] && order == old(order) + [node]
      ensures old(colours).Keys <= colours.Keys
    {
      ghost var below := stack[..|stack| - 1];
      assert stack == below + [node];
      LeaveKeeps(graph, roots, colours, order, below, node);
      colours, entries := colours[node := Listed], entries + [entry];
      order, stack := order + [node], below;
    }

    /** Makes sure a node is listed, together with everything it depends on. */
    method Enter(node: K, entry: L) returns (o: Outcome<K>)
      requires Valid() && node in graph && Next(graph, roots, stack, node) && fits(node, entry)
      modifies this
      ensures Explains(o)
      ensures o.Done? ==> Valid() && stack == old(stack) && node in order && old(order) <= order
      ensures o.Done? ==> old(colours).Keys <= colours.Keys
      decreases Left(), 0
    {
      if node in colours {
        if colours[node].Active? {
          ActiveMeansCycle(graph, roots, colours, order, stack, node);
          return CycleAt(node);
        }
        return Done;
      }
      Begin(node);
      o := Expand(node);
      if o.Done? {
        ListedLast(old(order), order, node);
        Finish(node, entry);
      }
    }

    /** Enters every dependency of the innermost active node, in the order it names them. */
    method Expand(parent: K) returns (o: Outcome<K>)
      requires Valid() && stack != [] && stack[|stack| - 1] == parent
      modifies this
      ensures Explains(o)
      ensures o.Done? ==> Valid() && stack == old(stack) && old(order) <= order
      ensures o.Done? ==> parent in graph && Resolved(graph, parent, order)
      ensures o.Done? ==> old(colours).Keys <= colours.Keys
      decreases Left(), 1
    {
      assert parent in stack;
      var steps := graph[parent];
      for i := 0 to |steps|
        invariant Valid() && stack == old(stack) && old(order) <= order
        invariant old(colours).Keys <= colours.Keys
        invariant ResolvedUpTo(steps, i, order)
      {
        var step := steps[i];
        assert step in graph[parent];
        if step.Broken? {
          StackReached(graph, roots, colours, order, stack, |stack| - 1);
          return BrokenAt(parent);
        }
        FewerLeft(graph.Keys, old(colours).Keys, colours.Keys);
        assert Edge(graph, parent, step.node);
        ghost var before := order;
        o := Enter(step.node, step.entry);
        if !o.Done? {
          return;
        }
        ResolvedOneMore(steps, i, before, order);
      }
      o := Done;
    }
  }

  /** A search from one node that is active from the start and is itself never listed. */
  method FromRoot<K(==, !new), L(!new)>(g: Graph<K, L>, root: K, ghost fits: (K, L) -> bool)
    returns (o: Outcome<K>, entries: seq<L>, ghost order: seq<K>, ghost colours: map<K, Colour>)
    requires Closed(g) && root in g
    requires forall k, s | k in g && s in g[k] && s.To? :: fits(s.node, s.entry)
    ensures o.CycleAt? ==> OnCycle(g, o.node)
    ensures o.BrokenAt? ==> HasBroken(g, o.node)
    ensures !o.Done? ==> ReachedFrom(g, {root}, o.node)
    ensures o.Done? ==> Consistent(g, {root}, colours, order, [root]) && Resolved(g, root, order)
    ensures o.Done? ==> |entries| == |order| && forall i | 0 <= i < |order| :: fits(order[i], entries[i])
  {
    var search := new Search(g, {root}, fits);
    search.Begin(root);
    o := search.Expand(root);
    entries, order, colours := search.entries, search.order, search.colours;
  }
}
