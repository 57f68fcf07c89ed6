/**
 The walk of a prepared checkout, the derivation it is compared with, and the
 theorem that the two digests agree exactly when the tree is the one the state
 describes.
 */
module CheckoutWalk {
  import opened Common
  import opened Paths
  import opened CheckoutRecords
  import CheckoutExpected
  import PathParents

  type Shape = CheckoutExpected.Shape

  /** What the kernel reports about one object. A folder is looked up by name. */
  datatype Node =
    | Object(kind: Kind, mode: nat, size: int, link: string)
    | Folder(mode: nat, size: int, children: map<string, Node>)

  /** One object the walk reaches and the path it reaches it by. */
  datatype Visit = Visit(path: string, node: Node)

  /**
   What a file system guarantees: names without slash or NUL that are not dots,
   no negative size, and symlinks that lead somewhere and are as long as they say.
   */
  ghost predicate ValidTree(node: Node)
  {
    match node
    case Object(kind, _, size, link) =>
      !kind.Directory? && size >= 0 && (kind.Symlink? ==> size == |link| && link != "" && NUL !in link)
    case Folder(_, _, children) =>
      forall name | name in children ::
        PathParents.Name(name) && ValidTree(children[name])
  }

  /** The object at a path, found by following one name after the other. */
  function At(folder: Node, path: string): Option<Node>
    requires folder.Folder?
  {
    var name := Head(path);
    if name !in folder.children then None
    else if !Deeper(path) then Some(folder.children[name])
    else if folder.children[name].Folder? then At(folder.children[name], Rest(path))
    else None
  }

  // ---------- the order of the walk ----------

  function Shift(prefix: string, visits: seq<Visit>): (r: seq<Visit>)
    ensures |r| == |visits|
    ensures forall i | 0 <= i < |r| :: r[i] == Visit(prefix + visits[i].path, visits[i].node)
  {
    seq(|visits|, i requires 0 <= i < |visits| => Visit(prefix + visits[i].path, visits[i].node))
  }

  /** A depth first walk: the names of a folder in order, each followed by what is inside it. */
  ghost function Visits(folder: Node): seq<Visit>
    requires folder.Folder?
    decreases folder, 1, 0
  {
    VisitNames(folder, InOrder(folder.children.Keys))
  }

  ghost function VisitNames(folder: Node, names: seq<string>): seq<Visit>
    requires folder.Folder? && forall name | name in names :: name in folder.children
    decreases folder, 0, |names|
  {
    if names == [] then []
    else Block(names[0], folder.children[names[0]]) + VisitNames(folder, names[1..])
  }

  ghost function Block(name: string, child: Node): seq<Visit>
    decreases child, 2, 0
  {
    [Visit(name, child)] + if child.Folder? then Shift(name + "/", Visits(child)) else []
  }

  function PathsOf(visits: seq<Visit>): (r: seq<string>)
    ensures |r| == |visits|
    ensures forall i | 0 <= i < |r| :: r[i] == visits[i].path
  {
    seq(|visits|, i requires 0 <= i < |visits| => visits[i].path)
  }

  lemma SortedConcat(a: seq<string>, b: seq<string>)
    requires Sorted(a) && Sorted(b)
    requires forall x, y | x in a && y in b :: Before(x, y)
    ensures Sorted(a + b)
  {
  }

  /** Everything in the block of a name begins with that name, and the block is in order. */
  lemma {:induction false} BlockSorted(name: string, child: Node)
    requires '/' !in name
    requires child.Folder? ==> Sorted(PathsOf(Visits(child)))
    ensures Sorted(PathsOf(Block(name, child)))
    ensures forall v | v in Block(name, child) :: Head(v.path) == name
  {
    NameHead(name);
    if child.Folder? {
      var inner := Visits(child);
      var shifted := Shift(name + "/", inner);
      forall i | 0 <= i < |inner|
        ensures Head(shifted[i].path) == name && Deeper(shifted[i].path) && Rest(shifted[i].path) == inner[i].path
      {
        CutJoined(name, inner[i].path);
      }
      forall i, j | 0 <= i < j < |inner|
        ensures Before(shifted[i].path, shifted[j].path)
      {
        assert Before(PathsOf(inner)[i], PathsOf(inner)[j]);
      }
      assert Sorted(PathsOf(shifted));
      assert PathsOf(Block(name, child)) == [name] + PathsOf(shifted);
      SortedCons(name, PathsOf(shifted));
    }
  }

  lemma {:induction false} VisitNamesSorted(folder: Node, names: seq<string>)
    requires folder.Folder? && ValidTree(folder) && Sorted(names)
    requires forall name | name in names :: name in folder.children
    ensures Sorted(PathsOf(VisitNames(folder, names)))
    ensures forall v | v in VisitNames(folder, names) :: Head(v.path) in names
    decreases folder, 0, |names|
  {
    if names != [] {
      var child := folder.children[names[0]];
      if child.Folder? {
        VisitsSorted(child);
      }
      BlockSorted(names[0], child);
      SortedTail(names);
      VisitNamesSorted(folder, names[1..]);
      var first, rest := Block(names[0], child), VisitNames(folder, names[1..]);
      BlocksInOrder(names, first, rest);
      assert VisitNames(folder, names) == first + rest;
    }
  }

  lemma BlocksInOrder(names: seq<string>, first: seq<Visit>, rest: seq<Visit>)
    requires names != [] && Sorted(names) && forall name | name in names :: '/' !in name
    requires Sorted(PathsOf(first)) && forall v | v in first :: Head(v.path) == names[0]
    requires Sorted(PathsOf(rest)) && forall v | v in rest :: Head(v.path) in names[1..]
    ensures Sorted(PathsOf(first + rest))
  {
    forall x, y | x in PathsOf(first) && y in PathsOf(rest)
      ensures Before(x, y)
    {
      var i :| 0 <= i < |first| && first[i].path == x;
      var j :| 0 <= j < |rest| && rest[j].path == y;
      assert first[i] in first && rest[j] in rest;
      var k :| 0 < k < |names| && names[k] == Head(y);
      assert Before(names[0], names[k]);
      BeforeOnNames(names[0], names[k]);
      LessTrichotomy(names[0], names[k]);
    }
    SortedConcat(PathsOf(first), PathsOf(rest));
    assert PathsOf(first + rest) == PathsOf(first) + PathsOf(rest);
  }

  /** A walk that sorts the names of every folder it enters reaches the paths in the order the derivation sorts them. */
  lemma {:induction false} VisitsSorted(folder: Node)
    requires folder.Folder? && ValidTree(folder)
    ensures Sorted(PathsOf(Visits(folder)))
    decreases folder, 1, 0
  {
    VisitNamesSorted(folder, InOrder(folder.children.Keys));
  }

  // ---------- the walk reaches exactly what is there ----------

  lemma {:induction false} BlockHolds(name: string, child: Node, v: Visit)
    requires '/' !in name
    ensures v in Block(name, child) <==>
            && Head(v.path) == name
            && if Deeper(v.path) then child.Folder? && Visit(Rest(v.path), v.node) in Visits(child)
               else v.node == child
  {
    NameHead(name);
    if child.Folder? {
      var inner := Visits(child);
      var shifted := Shift(name + "/", inner);
      forall i | 0 <= i < |inner|
        ensures Head(shifted[i].path) == name && Deeper(shifted[i].path) && Rest(shifted[i].path) == inner[i].path
      {
        CutJoined(name, inner[i].path);
      }
      if Head(v.path) == name && Deeper(v.path) {
        assert v.path == name + "/" + Rest(v.path);
        if Visit(Rest(v.path), v.node) in inner {
          var i :| 0 <= i < |inner| && inner[i] == Visit(Rest(v.path), v.node);
          assert shifted[i] == v;
        }
      }
    }
    if Head(v.path) == name && !Deeper(v.path) {
      assert v.path == name;
    }
  }

  lemma {:induction false} VisitNamesHold(folder: Node, names: seq<string>, v: Visit)
    requires folder.Folder? && ValidTree(folder)
    requires forall name | name in names :: name in folder.children
    ensures v in VisitNames(folder, names) <==> Head(v.path) in names && At(folder, v.path) == Some(v.node)
    decreases folder, 0, |names|
  {
    if names != [] {
      var child := folder.children[names[0]];
      BlockHolds(names[0], child, v);
      VisitNamesHold(folder, names[1..], v);
      assert VisitNames(folder, names) == Block(names[0], child) + VisitNames(folder, names[1..]);
      assert names == [names[0]] + names[1..];
      if child.Folder? && Deeper(v.path) {
        VisitsHold(child, Visit(Rest(v.path), v.node));
      }
    }
  }

  /** The walk visits an object under a path exactly when the object is at that path. */
  lemma {:induction false} VisitsHold(folder: Node, v: Visit)
    requires folder.Folder? && ValidTree(folder)
    ensures v in Visits(folder) <==> At(folder, v.path) == Some(v.node)
    decreases folder, 1, 0
  {
    var names := InOrder(folder.children.Keys);
    VisitNamesHold(folder, names, v);
    assert Head(v.path) in names <==> Head(v.path) in Elements(names);
  }

  lemma {:induction false} VisitedPaths(folder: Node, path: string)
    requires folder.Folder? && ValidTree(folder)
    ensures path in PathsOf(Visits(folder)) <==> At(folder, path).Some?
  {
    var visits := Visits(folder);
    if path in PathsOf(visits) {
      var i :| 0 <= i < |visits| && visits[i].path == path;
      assert visits[i] in visits;
      VisitsHold(folder, visits[i]);
    }
    if At(folder, path).Some? {
      var v := Visit(path, At(folder, path).value);
      VisitsHold(folder, v);
      var i :| 0 <= i < |visits| && visits[i] == v;
      assert PathsOf(visits)[i] == path;
    }
  }

  // ---------- what the walk writes ----------

  function KindOf(node: Node): Kind
  {
    if node.Folder? then Directory else node.kind
  }

  /** What the kernel reported about one object, reduced to the fields the derivation states. */
  function WalkedEntry(path: string, node: Node, loose: set<string>): Entry
  {
    Entry(path, KindOf(node), node.mode % 4096, path !in loose,
          if KindOf(node).Directory? then 0 else node.size,
          if KindOf(node).Symlink? then node.link else "")
  }

  function WalkedEntries(visits: seq<Visit>, loose: set<string>): (r: seq<Entry>)
    ensures |r| == |visits|
    ensures forall i | 0 <= i < |r| :: r[i] == WalkedEntry(visits[i].path, visits[i].node, loose)
  {
    seq(|visits|, i requires 0 <= i < |visits| => WalkedEntry(visits[i].path, visits[i].node, loose))
  }

  lemma ShiftConcat(prefix: string, a: seq<Visit>, b: seq<Visit>)
    ensures Shift(prefix, a + b) == Shift(prefix, a) + Shift(prefix, b)
  {
  }

  lemma ShiftByNothing(visits: seq<Visit>)
    ensures Shift("", visits) == visits
  {
    assert forall i | 0 <= i < |visits| :: "" + visits[i].path == visits[i].path;
  }

  lemma WalkedConcat(a: seq<Visit>, b: seq<Visit>, loose: set<string>)
    ensures WalkedEntries(a + b, loose) == WalkedEntries(a, loose) + WalkedEntries(b, loose)
  {
  }

  /** The entries of a folder whose names are listed, reached under a prefix. */
  ghost function NamedEntries(folder: Node, names: seq<string>, prefix: string, loose: set<string>): seq<Entry>
    requires folder.Folder? && forall name | name in names :: name in folder.children
  {
    WalkedEntries(Shift(prefix, VisitNames(folder, names)), loose)
  }

  ghost function FolderEntries(folder: Node, prefix: string, loose: set<string>): seq<Entry>
    requires folder.Folder?
  {
    WalkedEntries(Shift(prefix, Visits(folder)), loose)
  }

  /** One more name contributes its own entry and then the entries of what is inside it. */
  lemma NamedEntriesGrow(folder: Node, names: seq<string>, name: string, prefix: string, loose: set<string>)
    requires folder.Folder? && name in folder.children && forall n | n in names :: n in folder.children
    ensures var child := folder.children[name];
            NamedEntries(folder, names + [name], prefix, loose) ==
            NamedEntries(folder, names, prefix, loose) + [WalkedEntry(prefix + name, child, loose)]
            + if child.Folder? then FolderEntries(child, prefix + name + "/", loose) else []
  {
    var child := folder.children[name];
    VisitNamesGrow(folder, names, name);
    ShiftConcat(prefix, VisitNames(folder, names), Block(name, child));
    WalkedConcat(Shift(prefix, VisitNames(folder, names)), Shift(prefix, Block(name, child)), loose);
    BlockEntries(name, child, prefix, loose);
  }

  lemma {:induction false} VisitNamesGrow(folder: Node, names: seq<string>, name: string)
    requires folder.Folder? && name in folder.children && forall n | n in names :: n in folder.children
    ensures VisitNames(folder, names + [name]) == VisitNames(folder, names) + Block(name, folder.children[name])
  {
    if names == [] {
      assert [name][1..] == [];
    } else {
      assert (names + [name])[1..] == names[1..] + [name];
      VisitNamesGrow(folder, names[1..], name);
    }
  }

  lemma {:induction false} BlockEntries(name: string, child: Node, prefix: string, loose: set<string>)
    ensures WalkedEntries(Shift(prefix, Block(name, child)), loose) ==
            [WalkedEntry(prefix + name, child, loose)]
            + if child.Folder? then FolderEntries(child, prefix + name + "/", loose) else []
  {
    var own := [Visit(name, child)];
    assert WalkedEntries(Shift(prefix, own), loose) == [WalkedEntry(prefix + name, child, loose)];
    if child.Folder? {
      var inside := Shift(name + "/", Visits(child));
      ShiftConcat(prefix, own, inside);
      WalkedConcat(Shift(prefix, own), Shift(prefix, inside), loose);
      ShiftTwice(prefix, name, Visits(child));
    }
  }

  lemma ShiftTwice(prefix: string, name: string, visits: seq<Visit>)
    ensures Shift(prefix, Shift(name + "/", visits)) == Shift(prefix + name + "/", visits)
  {
    forall i | 0 <= i < |visits|
      ensures prefix + (name + "/" + visits[i].path) == prefix + name + "/" + visits[i].path
    {
    }
  }

  /** The same for the next name of a listing, after whatever was written before. */
  lemma NamedEntriesNext(before: seq<Entry>, folder: Node, names: seq<string>, i: nat, prefix: string,
                         loose: set<string>)
    requires folder.Folder? && i < |names| && forall n | n in names :: n in folder.children
    ensures var child := folder.children[names[i]];
            var written := before + NamedEntries(folder, names[..i], prefix, loose)
                           + [WalkedEntry(prefix + names[i], child, loose)];
            before + NamedEntries(folder, names[..i + 1], prefix, loose) ==
            if child.Folder? then written + FolderEntries(child, prefix + names[i] + "/", loose) else written
  {
    NamedEntriesGrow(folder, names[..i], names[i], prefix, loose);
    assert names[..i + 1] == names[..i] + [names[i]];
  }

  /** Walks one folder and writes what it finds to the running digest. */
  method MeasureEntries(digest: RunningDigest, folder: Node, prefix: string, loose: set<string>)
    requires folder.Folder? && digest.Valid()
    modifies digest
    ensures digest.Valid()
    ensures digest.written == old(digest.written) + FolderEntries(folder, prefix, loose)
    decreases folder
  {
    var names := SortPaths(folder.children.Keys);
    assert forall name | name in names :: name in Elements(names);
    for i := 0 to |names|
      invariant digest.Valid()
      invariant digest.written == old(digest.written) + NamedEntries(folder, names[..i], prefix, loose)
    {
      var child := folder.children[names[i]];
      NamedEntriesNext(old(digest.written), folder, names, i, prefix, loose);
      digest.Write(WalkedEntry(prefix + names[i], child, loose));
      if child.Folder? {
        MeasureEntries(digest, child, prefix + names[i] + "/", loose);
      }
    }
    assert names[..|names|] == names;
  }

  ghost function Walked(root: Node, loose: set<string>): seq<Entry>
    requires root.Folder?
  {
    [WalkedEntry(".", root, loose)] + WalkedEntries(Visits(root), loose)
  }

  /** Measures an open checkout, the root first. */
  method MeasureTree(root: Node, loose: set<string>) returns (measurement: string)
    requires root.Folder?
    ensures measurement == Measurement(Walked(root, loose))
  {
    var digest := new RunningDigest();
    digest.Write(WalkedEntry(".", root, loose));
    MeasureEntries(digest, root, "", loose);
    ShiftByNothing(Visits(root));
    measurement := digest.bytes;
  }

  // ---------- what the derivation writes ----------

  const ROOT := Entry(".", Directory, 0, false, 0, "")

  /** The paths whose permission bits the state does not decide. */
  function Loose(shape: Shape): set<string>
  {
    {"."} + set p | p in shape && !shape[p].fixed
  }

  ghost function Filed(shape: Shape, paths: seq<string>): (r: seq<Entry>)
    requires forall p | p in paths :: p in shape
    ensures |r| == |paths|
    ensures forall i | 0 <= i < |r| :: r[i] == shape[paths[i]]
  {
    seq(|paths|, i requires 0 <= i < |paths| => shape[paths[i]])
  }

  lemma FiledNext(shape: Shape, paths: seq<string>, i: nat)
    requires i < |paths| && forall p | p in paths :: p in shape
    ensures [ROOT] + Filed(shape, paths[..i + 1]) == [ROOT] + Filed(shape, paths[..i]) + [shape[paths[i]]]
  {
    assert Filed(shape, paths[..i + 1]) == Filed(shape, paths[..i]) + [shape[paths[i]]];
  }

  ghost function Derived(shape: Shape): seq<Entry>
  {
    assert forall p | p in InOrder(shape.Keys) :: p in Elements(InOrder(shape.Keys));
    [ROOT] + Filed(shape, InOrder(shape.Keys))
  }

  /** The digest a checkout of this shape must have, with the paths left loose. */
  method DigestShape(shape: Shape) returns (measurement: string, loose: set<string>)
    ensures measurement == Measurement(Derived(shape)) && loose == Loose(shape)
  {
    var ordered := SortPaths(shape.Keys);
    assert forall p | p in ordered :: p in Elements(ordered);
    loose := Loose(shape);
    var digest := new RunningDigest();
    digest.Write(ROOT);
    for i := 0 to |ordered|
      invariant digest.Valid()
      invariant digest.written == [ROOT] + Filed(shape, ordered[..i])
    {
      FiledNext(shape, ordered, i);
      digest.Write(shape[ordered[i]]);
    }
    assert ordered[..|ordered|] == ordered;
    measurement := digest.bytes;
  }

  // ---------- the two sides agree ----------

  /** The object is what the entry says, everywhere the state decides. */
  predicate Matches(node: Node, e: Entry)
  {
    && KindOf(node) == e.kind
    && (!e.kind.Directory? ==> node.size == e.size)
    && (e.kind.Symlink? ==> node.link == e.link)
    && (e.fixed ==> node.mode % 4096 == e.mode % 4096)
  }

  /** The tree holds exactly the expected paths, and each is what was expected. */
  ghost predicate Agrees(root: Node, shape: Shape)
    requires root.Folder?
  {
    forall p :: if p in shape then At(root, p).Some? && Matches(At(root, p).value, shape[p]) else At(root, p).None?
  }

  lemma {:induction false} MatchesIsView(p: string, node: Node, shape: Shape)
    requires CheckoutExpected.ValidShape(shape) && p in shape && p != "."
    requires ValidTree(node)
    ensures View(WalkedEntry(p, node, Loose(shape))) == View(shape[p]) <==> Matches(node, shape[p])
  {
  }

  lemma {:induction false} WalkedWellFormed(root: Node, loose: set<string>)
    requires root.Folder? && ValidTree(root)
    ensures forall e | e in Walked(root, loose) :: WellFormed(e)
  {
    var visits := Visits(root);
    forall i | 0 <= i < |visits|
      ensures WellFormed(WalkedEntry(visits[i].path, visits[i].node, loose))
    {
      assert visits[i] in visits;
      VisitsHold(root, visits[i]);
      FoundIsValid(root, visits[i].path);
    }
  }

  /** What is found in a valid tree is valid, and is found under a path without NUL other than the root. */
  lemma {:induction false} FoundIsValid(folder: Node, path: string)
    requires folder.Folder? && ValidTree(folder) && At(folder, path).Some?
    ensures ValidTree(At(folder, path).value) && NUL !in path && path != "."
    decreases folder
  {
    var name := Head(path);
    if Deeper(path) {
      FoundIsValid(folder.children[name], Rest(path));
      assert path == name + "/" + Rest(path);
    } else {
      assert path == name;
    }
  }

  lemma DerivedWellFormed(shape: Shape)
    requires CheckoutExpected.ValidShape(shape)
    ensures forall e | e in Derived(shape) :: WellFormed(e)
  {
    var ordered := InOrder(shape.Keys);
    assert forall p | p in ordered :: p in Elements(ordered);
  }

  /** An agreeing tree is walked in the order the derivation is sorted in. */
  lemma {:induction false} SamePaths(root: Node, shape: Shape)
    requires root.Folder? && ValidTree(root)
    ensures PathsOf(Visits(root)) == InOrder(shape.Keys) <==> forall p :: p in shape <==> At(root, p).Some?
  {
    var paths, ordered := PathsOf(Visits(root)), InOrder(shape.Keys);
    VisitsSorted(root);
    forall p
      ensures p in paths <==> At(root, p).Some?
      ensures p in ordered <==> p in shape
    {
      VisitedPaths(root, p);
      assert p in ordered <==> p in Elements(ordered);
    }
    if forall p :: p in shape <==> At(root, p).Some? {
      forall p
        ensures p in Elements(paths) <==> p in Elements(ordered)
      {
        assert p in shape <==> At(root, p).Some?;
      }
      SortedUnique(paths, ordered);
    }
  }

  /** What stands at position `i` of the walk and of the derivation, when the paths coincide. */
  lemma {:induction false} SameViewAt(root: Node, shape: Shape, i: nat)
    requires root.Folder? && ValidTree(root) && CheckoutExpected.ValidShape(shape)
    requires PathsOf(Visits(root)) == InOrder(shape.Keys) && i < |Visits(root)|
    ensures var p := InOrder(shape.Keys)[i];
            p in shape && At(root, p).Some? &&
            Walked(root, Loose(shape))[i + 1] == WalkedEntry(p, At(root, p).value, Loose(shape)) &&
            Derived(shape)[i + 1] == shape[p] &&
            (View(Walked(root, Loose(shape))[i + 1]) == View(shape[p]) <==> Matches(At(root, p).value, shape[p]))
  {
    var v := Visits(root)[i];
    var ordered := InOrder(shape.Keys);
    assert PathsOf(Visits(root))[i] == v.path;
    assert v in Visits(root);
    VisitsHold(root, v);
    FoundIsValid(root, v.path);
    assert ordered[i] in Elements(ordered);
    assert Derived(shape)[1..] == Filed(shape, ordered);
    MatchesIsView(v.path, v.node, shape);
  }

  lemma {:induction false} EqualViewsSamePaths(root: Node, shape: Shape)
    requires root.Folder? && ValidTree(root) && CheckoutExpected.ValidShape(shape)
    requires Views(Walked(root, Loose(shape))) == Views(Derived(shape))
    ensures PathsOf(Visits(root)) == InOrder(shape.Keys)
  {
    var walked, derived := Walked(root, Loose(shape)), Derived(shape);
    var visits, ordered := Visits(root), InOrder(shape.Keys);
    assert |Views(walked)| == |visits| + 1 && |Views(derived)| == |ordered| + 1;
    forall i | 0 <= i < |visits|
      ensures visits[i].path == ordered[i]
    {
      assert Views(walked)[i + 1] == View(walked[i + 1]);
      assert Views(derived)[i + 1] == View(derived[i + 1]);
      assert walked[i + 1] == WalkedEntries(visits, Loose(shape))[i];
      assert derived[i + 1] == Filed(shape, ordered)[i];
      assert ordered[i] in Elements(ordered);
    }
  }

  lemma {:induction false} EqualViewsAgree(root: Node, shape: Shape)
    requires root.Folder? && ValidTree(root) && CheckoutExpected.ValidShape(shape)
    requires Views(Walked(root, Loose(shape))) == Views(Derived(shape))
    ensures Agrees(root, shape)
  {
    EqualViewsSamePaths(root, shape);
    SamePaths(root, shape);
    var ordered := InOrder(shape.Keys);
    forall p
      ensures if p in shape then At(root, p).Some? && Matches(At(root, p).value, shape[p]) else At(root, p).None?
    {
      assert p in shape <==> At(root, p).Some?;
      if p in shape {
        assert p in Elements(ordered);
        var i :| 0 <= i < |ordered| && ordered[i] == p;
        assert |PathsOf(Visits(root))| == |Visits(root)|;
        SameViewAt(root, shape, i);
        assert Views(Walked(root, Loose(shape)))[i + 1] == Views(Derived(shape))[i + 1];
      }
    }
  }

  lemma {:induction false} AgreeingViewsEqual(root: Node, shape: Shape)
    requires root.Folder? && ValidTree(root) && CheckoutExpected.ValidShape(shape)
    requires Agrees(root, shape)
    ensures Views(Walked(root, Loose(shape))) == Views(Derived(shape))
  {
    assert forall p :: p in shape <==> At(root, p).Some?;
    SamePaths(root, shape);
    var walked, derived := Walked(root, Loose(shape)), Derived(shape);
    assert |PathsOf(Visits(root))| == |Visits(root)|;
    forall i | 0 <= i < |walked|
      ensures View(walked[i]) == View(derived[i])
    {
      if i > 0 {
        SameViewAt(root, shape, i - 1);
        var p := InOrder(shape.Keys)[i - 1];
        assert Matches(At(root, p).value, shape[p]);
      }
    }
  }

  /** The two digests are taken over the same bytes exactly when the tree is the one the shape describes. */
  lemma {:induction false} MeasurementsAgree(root: Node, shape: Shape)
    requires root.Folder? && ValidTree(root) && CheckoutExpected.ValidShape(shape)
    ensures Measurement(Walked(root, Loose(shape))) == Measurement(Derived(shape)) <==> Agrees(root, shape)
  {
    WalkedWellFormed(root, Loose(shape));
    DerivedWellFormed(shape);
    MeasurementSeparates(Walked(root, Loose(shape)), Derived(shape));
    if Agrees(root, shape) {
      AgreeingViewsEqual(root, shape);
    }
    if Views(Walked(root, Loose(shape))) == Views(Derived(shape)) {
      EqualViewsAgree(root, shape);
    }
  }
}
