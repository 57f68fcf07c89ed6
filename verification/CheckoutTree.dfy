/**
 Which states a checkout can satisfy at all: the tree a shape describes is built
 from it, and the states for which there is none are told by their markers.
 */
module CheckoutTree {
  import opened Common
  import opened Paths
  import opened PathParents
  import opened CheckoutRecords
  import opened CheckoutWalk
  import CheckoutExpected

  // ---------- canonical paths, from the front and from the back ----------

  lemma {:induction false} JoinedSlash(name: string, rest: string)
    ensures var p := name + "/" + rest;
            && LastSlash(p) >= 0 && Base(p) == Base(rest)
            && Dir(p) == if LastSlash(rest) >= 0 then name + "/" + Dir(rest) else name
  {
    if LastSlash(rest) >= 0 {
      LastSplits(rest);
      assert name + "/" + rest == (name + "/" + Dir(rest)) + "/" + Base(rest);
      ChildSplits(name + "/" + Dir(rest), Base(rest));
    } else {
      assert forall j | 0 <= j < |rest| :: rest[j] != '/';
      ChildSplits(name, rest);
    }
  }

  lemma {:induction false} CanonicalJoined(name: string, rest: string)
    requires '/' !in name
    ensures Canonical(name + "/" + rest) <==> Name(name) && Canonical(rest)
    decreases |rest|
  {
    JoinedSlash(name, rest);
    NoSlash(name);
    if LastSlash(rest) >= 0 {
      CanonicalJoined(name, Dir(rest));
    }
  }

  /** A path is canonical when its first component is a name and the rest is canonical. */
  lemma {:induction false} CanonicalFromFront(path: string)
    ensures Canonical(path) <==> Name(Head(path)) && (Deeper(path) ==> Canonical(Rest(path)))
  {
    UnderSteps("", path);
    if Deeper(path) {
      CanonicalJoined(Head(path), Rest(path));
    } else {
      NoSlash(path);
    }
  }

  lemma {:induction false} FoundIsCanonical(folder: Node, path: string)
    requires folder.Folder? && ValidTree(folder) && At(folder, path).Some?
    ensures Canonical(path)
    decreases folder
  {
    CanonicalFromFront(path);
    if Deeper(path) {
      FoundIsCanonical(folder.children[Head(path)], Rest(path));
    }
  }

  // ---------- the tree a shape describes ----------

  /** A file system can hold an object of this size with this target. */
  predicate Possible(e: Entry)
  {
    e.size >= 0 && (e.kind.Symlink? ==> e.link != "" && NUL !in e.link)
  }

  /** Every path is canonical, and no longer than the bound, and every object is possible. */
  ghost predicate Buildable(shape: Shape, bound: nat)
  {
    forall p | p in shape :: Canonical(p) && |p| <= bound && Possible(shape[p])
  }

  /** The names of what lies directly in a directory; the root is written as nothing. */
  ghost function NamesIn(shape: Shape, directory: string): (r: set<string>)
    ensures forall n | n in r :: Under(directory, n) in shape
  {
    set p | p in shape && Under(directory, Base(p)) == p :: Base(p)
  }

  lemma NamesInHold(shape: Shape, directory: string, name: string)
    requires '/' !in name && Under(directory, name) in shape
    ensures name in NamesIn(shape, directory)
  {
    var p := Under(directory, name);
    NoSlash(name);
    ChildSplits(directory, name);
    assert Base(p) == name;
  }

  ghost function Children(shape: Shape, directory: string, bound: nat): map<string, Node>
    requires Buildable(shape, bound) && |directory| <= bound
    decreases bound - |directory|, 0
  {
    map n | n in NamesIn(shape, directory) :: Built(shape, Under(directory, n), bound)
  }

  ghost function Built(shape: Shape, p: string, bound: nat): Node
    requires Buildable(shape, bound) && p in shape
    decreases bound - |p|, 1
  {
    var e := shape[p];
    if e.kind.Directory? then Folder(e.mode, 0, Children(shape, p, bound)) else Object(e.kind, e.mode, e.size, e.link)
  }

  ghost function BuiltRoot(shape: Shape, bound: nat): Node
    requires Buildable(shape, bound)
  {
    Folder(0, 0, Children(shape, "", bound))
  }

  /** Following a path from a directory: its first name, then the rest from there. */
  lemma UnderSteps(directory: string, rel: string)
    ensures '/' !in Head(rel)
    ensures !Deeper(rel) ==> rel == Head(rel)
    ensures Deeper(rel) ==> Under(directory, rel) == Under(directory, Head(rel)) + "/" + Rest(rel)
    ensures Deeper(rel) ==> Above(Under(directory, Head(rel)), Under(directory, rel))
  {
    if Deeper(rel) {
      assert rel == Head(rel) + "/" + Rest(rel);
    }
  }

  /** Following names through the built tree is looking up the joined path in the shape. */
  lemma {:induction false} BuiltAt(shape: Shape, directory: string, bound: nat, mode: nat, rel: string)
    requires Buildable(shape, bound) && CheckoutExpected.ParentClosed(shape) && |directory| <= bound
    ensures At(Folder(mode, 0, Children(shape, directory, bound)), rel) ==
            if Under(directory, rel) in shape then Some(Built(shape, Under(directory, rel), bound)) else None
    decreases |rel|
  {
    var name := Head(rel);
    var child := Under(directory, name);
    UnderSteps(directory, rel);
    if child in shape { NamesInHold(shape, directory, name); }
    if Deeper(rel) && CheckoutExpected.IsDirectory(shape, child) {
      assert child != "";
      BuiltAt(shape, child, bound, shape[child].mode, Rest(rel));
    }
  }

  lemma {:induction false} BuiltIsValid(shape: Shape, p: string, bound: nat)
    requires Buildable(shape, bound) && CheckoutExpected.ValidShape(shape) && p in shape
    ensures ValidTree(Built(shape, p, bound))
    decreases bound - |p|, 1
  {
    if shape[p].kind.Directory? {
      ChildrenAreValid(shape, p, bound, shape[p].mode);
    }
  }

  lemma {:induction false} ChildrenAreValid(shape: Shape, directory: string, bound: nat, mode: nat)
    requires Buildable(shape, bound) && CheckoutExpected.ValidShape(shape) && |directory| <= bound
    ensures ValidTree(Folder(mode, 0, Children(shape, directory, bound)))
    decreases bound - |directory|, 0
  {
    forall n | n in NamesIn(shape, directory)
      ensures Name(n) && ValidTree(Built(shape, Under(directory, n), bound))
    {
      var p :| p in shape && Under(directory, Base(p)) == p && Base(p) == n;
      assert Canonical(p);
      BuiltIsValid(shape, p, bound);
    }
  }

  lemma {:induction false} BoundOf(paths: set<string>) returns (bound: nat)
    ensures forall p | p in paths :: |p| <= bound
    decreases |paths|
  {
    bound := 0;
    if paths != {} {
      var p :| p in paths;
      bound := BoundOf(paths - {p});
      if |p| > bound { bound := |p|; }
    }
  }

  // ---------- when there is a checkout ----------

  ghost predicate HasCheckout(shape: Shape)
  {
    exists root: Node :: root.Folder? && ValidTree(root) && Agrees(root, shape)
  }

  /** What a valid tree holds is possible, so what agrees with it is. */
  lemma {:induction false} FoundIsPossible(root: Node, shape: Shape, p: string)
    requires root.Folder? && ValidTree(root) && Agrees(root, shape) && p in shape && CheckoutExpected.ValidShape(shape)
    ensures Canonical(p) && Possible(shape[p])
  {
    assert At(root, p).Some? && Matches(At(root, p).value, shape[p]);
    FoundIsCanonical(root, p);
    FoundIsValid(root, p);
  }

  /**
   Some tree agrees with a parent closed shape if and only if all of its paths
   are canonical and all of its objects possible.
   */
  lemma CheckoutExists(shape: Shape)
    requires CheckoutExpected.ParentClosed(shape) && CheckoutExpected.ValidShape(shape)
    ensures HasCheckout(shape) <==> forall p | p in shape :: Canonical(p) && Possible(shape[p])
  {
    if HasCheckout(shape) {
      var root: Node :| root.Folder? && ValidTree(root) && Agrees(root, shape);
      forall p | p in shape ensures Canonical(p) && Possible(shape[p]) { FoundIsPossible(root, shape, p); }
    }
    if forall p | p in shape :: Canonical(p) && Possible(shape[p]) {
      var bound := BoundOf(shape.Keys);
      BuiltAgrees(shape, bound);
    }
  }

  lemma BuiltAgrees(shape: Shape, bound: nat)
    requires Buildable(shape, bound) && CheckoutExpected.ParentClosed(shape) && CheckoutExpected.ValidShape(shape)
    ensures HasCheckout(shape)
  {
    var root := BuiltRoot(shape, bound);
    ChildrenAreValid(shape, "", bound, 0);
    forall p
      ensures if p in shape then At(root, p).Some? && Matches(At(root, p).value, shape[p]) else At(root, p).None?
    {
      BuiltAt(shape, "", bound, 0, p);
    }
    assert Agrees(root, shape);
  }

  /** A marker that deletes a dot name, which no directory can hold. */
  predicate DotMarker(path: string)
  {
    Base(path) == ".wh.." || Base(path) == ".wh..."
  }

  lemma {:induction false} TargetCanonical(p: string)
    requires Canonical(p) && CheckoutExpected.WhiteoutTarget(p).Deletes?
    ensures Canonical(CheckoutExpected.WhiteoutTarget(p).path) <==> !DotMarker(p)
  {
    CheckoutExpected.TargetShape(p);
    CheckoutExpected.DeletedName(Base(p));
    var deleted := Base(p)[4..];
    NoSlash(deleted);
    ChildSplits(Dir(p), deleted);
    DotNames(Base(p));
    CanonicalIsKey(p);
    ParentOfKey(p);
  }

  lemma DotNames(base: string)
    requires CheckoutExpected.HasPrefix(base, CheckoutExpected.WHITEOUT_PREFIX)
    ensures base[4..] == "." <==> base == ".wh.."
    ensures base[4..] == ".." <==> base == ".wh..."
  {
    assert base == ".wh." + base[4..];
  }

  lemma {:induction false} HoldingIsCanonical(st: CheckoutExpected.State, p: string)
    requires CheckoutExpected.ValidState(st) && CheckoutExpected.HoldsSomething(st, p)
    ensures Canonical(p)
  {
    CheckoutExpected.OpaqueParentKeys(st);
    if p in CheckoutExpected.OpaqueParents(st) {
      var m :| m in st && CheckoutExpected.Opaque(m) && Dir(m) == p;
      CanonicalIsKey(m);
      ParentOfKey(m);
    } else if q :| q in CheckoutExpected.OpaqueParents(st) && Above(p, q) {
      AboveIsCanonical(p, q);
    } else if q :| q in CheckoutExpected.Targets(st) && Above(p, q) {
      var m :| m in st && CheckoutExpected.WhiteoutTarget(m) == CheckoutExpected.Deletes(q);
      CheckoutExpected.TargetIsKey(m);
      AboveIsCanonical(p, q);
    } else {
      var q :| q in st && Above(p, q);
      CanonicalIsKey(q);
      AboveIsCanonical(p, q);
    }
  }

  lemma {:induction false} ExpectedCanonical(st: CheckoutExpected.State, p: string)
    requires CheckoutExpected.ValidState(st) && CheckoutExpected.DerivableState(st)
    requires p in CheckoutExpected.Expected(st) && forall m | m in st :: !DotMarker(m)
    ensures Canonical(p)
  {
    CheckoutExpected.ExpectedAt(st, p);
    if p in st {
    } else if CheckoutExpected.HoldsSomething(st, p) {
      HoldingIsCanonical(st, p);
    } else {
      var m :| m in st && CheckoutExpected.WhiteoutTarget(m) == CheckoutExpected.Deletes(p);
      TargetCanonical(m);
    }
  }

  lemma DotMarkerDeletes(m: string)
    requires DotMarker(m)
    ensures CheckoutExpected.WhiteoutTarget(m).Deletes?
  {
    var rest := if Base(m) == ".wh.." then "." else "..";
    assert Base(m) == CheckoutExpected.WHITEOUT_PREFIX + rest;
    assert Base(m)[4..] == rest;
    assert |Base(m)| < |CheckoutExpected.OPAQUE_MARKER|;
  }

  lemma {:induction false} DotTarget(st: CheckoutExpected.State, m: string) returns (p: string)
    requires CheckoutExpected.ValidState(st) && CheckoutExpected.DerivableState(st)
    requires m in st && DotMarker(m)
    ensures p in CheckoutExpected.Expected(st) && !Canonical(p)
  {
    DotMarkerDeletes(m);
    p := CheckoutExpected.WhiteoutTarget(m).path;
    TargetCanonical(m);
    assert p in CheckoutExpected.Targets(st);
    CheckoutExpected.ExpectedAt(st, p);
  }

  /** A record of the state stands as it is: neither a directory nor something below it takes its place. */
  ghost predicate StandsAsFile(st: CheckoutExpected.State, p: string)
  {
    p in st && CheckoutExpected.Plain(st[p]) && !CheckoutExpected.HoldsSomething(st, p)
  }

  /** A file of negative size, or a symlink whose target no system call accepts. */
  predicate Impossible(e: CheckoutExpected.FileEntry)
  {
    if e.kind == CheckoutExpected.Of(Symlink) then e.link == "" || NUL in e.link
    else e.kind != CheckoutExpected.Of(Fifo) && e.size < 0
  }

  lemma DerivedPossible(e: CheckoutExpected.FileEntry)
    requires CheckoutExpected.Derivable(e)
    ensures Possible(CheckoutExpected.DeriveEntry(e).value) <==> !Impossible(e)
  {
  }

  /** Whatever the state expects is possible, except a record of it that stands as it is. */
  lemma ExpectedPossible(st: CheckoutExpected.State, p: string)
    requires CheckoutExpected.ValidState(st) && CheckoutExpected.DerivableState(st)
             && p in CheckoutExpected.Expected(st)
    ensures Possible(CheckoutExpected.Expected(st)[p]) <==> !(StandsAsFile(st, p) && Impossible(st[p]))
  {
    CheckoutExpected.ExpectedAt(st, p);
    if StandsAsFile(st, p) { DerivedPossible(st[p]); }
  }

  lemma StandingIsExpected(st: CheckoutExpected.State, p: string)
    requires CheckoutExpected.ValidState(st) && CheckoutExpected.DerivableState(st) && StandsAsFile(st, p)
    ensures p in CheckoutExpected.Expected(st)
  {
    CheckoutExpected.ExpectedAt(st, p);
  }

  /**
   A state that can be derived has a checkout that passes the launch check if
   and only if it carries no marker that deletes a dot name, and no record that
   stands as it is and is a file of negative size or a symlink without a
   possible target.
   */
  lemma {:induction false} StateHasCheckout(st: CheckoutExpected.State)
    requires CheckoutExpected.ValidState(st) && CheckoutExpected.DerivableState(st)
    ensures HasCheckout(CheckoutExpected.Expected(st)) <==>
            && (forall m | m in st :: !DotMarker(m))
            && (forall p | StandsAsFile(st, p) :: !Impossible(st[p]))
  {
    var shape := CheckoutExpected.Expected(st);
    CheckoutExpected.ExpectedIsValid(st);
    CheckoutExists(shape);
    if m :| m in st && DotMarker(m) {
      var p := DotTarget(st, m);
    } else if p :| StandsAsFile(st, p) && Impossible(st[p]) {
      StandingIsExpected(st, p);
      ExpectedPossible(st, p);
    } else {
      forall p | p in shape
        ensures Canonical(p) && Possible(shape[p])
      {
        ExpectedCanonical(st, p);
        ExpectedPossible(st, p);
      }
    }
  }
}
