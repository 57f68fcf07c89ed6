/**
 What a checkout of one state must hold: the passes that turn the entry list of
 a state into one entry per path, and the closed form they compute.
 */
module CheckoutExpected {
  import opened CheckoutRecords
  import opened PathParents

  /** The kind a state gives an entry: an unset kind is a regular file, and not every kind has a place in a checkout. */
  datatype StateKind = Unset | Of(kind: Kind) | Foreign(name: string)

  /** One record of a state. */
  datatype FileEntry = FileEntry(path: string, kind: StateKind, mode: nat, size: int, link: string)

  datatype Result<T> = Ok(value: T) | Err(path: string)

  datatype Target = NoTarget | Deletes(path: string)

  const WHITEOUT_PREFIX := ".wh."
  const OPAQUE_MARKER := ".wh..wh..opq"
  const WHITEOUT_MODE := 384  // 0o600

  predicate HasPrefix(s: string, prefix: string) { |prefix| <= |s| && s[..|prefix|] == prefix }

  // ---------- one entry ----------

  /** The permission bits with setuid and setgid cleared: `mode & 0o7777 &^ 0o6000`. */
  function CheckoutMode(mode: nat): nat { mode % 1024 }

  predicate IsWhiteout(path: string) { HasPrefix(Base(path), WHITEOUT_PREFIX) }

  /** The name a whiteout marker takes on disk; the opaque marker takes none. */
  function WhiteoutTarget(path: string): Target
  {
    var base := Base(path);
    if !HasPrefix(base, WHITEOUT_PREFIX) || base == OPAQUE_MARKER then NoTarget
    else
      var deleted := base[4..];
      if deleted == "" then NoTarget
      else if Dir(path) == "." then Deletes(deleted)
      else Deletes(Dir(path) + "/" + deleted)
  }

  /** An opaque marker inside a directory other than the root. */
  predicate Opaque(p: string) { Base(p) == OPAQUE_MARKER && Dir(p) != "." && Dir(p) != "/" }

  function WhiteoutEntry(path: string): Entry { Entry(path, File, WHITEOUT_MODE, true, 0, "") }

  function NamedDirectory(e: FileEntry): Entry { Entry(e.path, Directory, CheckoutMode(e.mode), true, 0, "") }

  /** A directory no entry names: created through a umask, so its mode is not decided. */
  function ImpliedDirectory(path: string): Entry { Entry(path, Directory, 0, false, 0, "") }

  predicate IsDir(e: FileEntry) { e.kind == Of(Directory) }

  predicate Derivable(e: FileEntry)
  {
    e.kind.Unset? || (e.kind.Of? && (e.kind.kind.File? || e.kind.kind.Symlink? || e.kind.kind.Fifo?))
  }

  function DeriveEntry(e: FileEntry): (r: Result<Entry>)
    ensures r.Ok? <==> Derivable(e)
    ensures r.Ok? ==> r.value.path == e.path && !r.value.kind.Directory?
  {
    var mode := CheckoutMode(e.mode);
    match e.kind
    case Unset => Ok(Entry(e.path, File, mode, true, e.size, ""))
    case Of(File) => Ok(Entry(e.path, File, mode, true, e.size, ""))
    case Of(Symlink) => Ok(Entry(e.path, Symlink, 511, true, |e.link|, e.link))
    case Of(Fifo) => Ok(Entry(e.path, Fifo, mode, false, 0, ""))
    case _ => Err(e.path)
  }

  // ---------- the closed form ----------

  type Shape = map<string, Entry>

  /** Entries with distinct paths, looked up by path: a state without its order. */
  type State = map<string, FileEntry>

  /** No two entries share a path. */
  ghost predicate Distinct(entries: seq<FileEntry>)
  {
    entries == [] ||
    (var rest, last := entries[..|entries| - 1], entries[|entries| - 1];
     Distinct(rest) && last.path !in StateOf(rest))
  }

  ghost function StateOf(entries: seq<FileEntry>): State
  {
    if entries == [] then map[]
    else
      var rest, last := entries[..|entries| - 1], entries[|entries| - 1];
      StateOf(rest)[last.path := last]
  }

  ghost predicate ValidState(st: State)
  {
    forall p | p in st :: st[p].path == p && Canonical(p)
  }

  /** Neither a directory nor named as a whiteout: what the third pass writes. */
  predicate Plain(e: FileEntry) { !IsDir(e) && !IsWhiteout(e.path) }

  ghost predicate DerivableState(st: State)
  {
    forall p | p in st :: Plain(st[p]) ==> Derivable(st[p])
  }

  ghost function Targets(st: State): set<string>
  {
    set p | p in st && WhiteoutTarget(p).Deletes? :: WhiteoutTarget(p).path
  }

  ghost function Whiteouts(st: State): Shape
  {
    map t | t in Targets(st) :: WhiteoutEntry(t)
  }

  ghost function Directories(st: State): Shape
  {
    map p | p in st && IsDir(st[p]) :: NamedDirectory(st[p])
  }

  ghost function Others(st: State): Shape
    requires DerivableState(st)
  {
    map p | p in st && Plain(st[p]) :: DeriveEntry(st[p]).value
  }

  ghost function Written(st: State): Shape
    requires DerivableState(st)
  {
    Whiteouts(st) + Directories(st) + Others(st)
  }

  /** The directories an opaque marker was written into. */
  ghost function OpaqueParents(st: State): set<string>
  {
    set p | p in st && Opaque(p) :: Dir(p)
  }

  predicate IsDirectory(shape: Shape, p: string) { p in shape && shape[p].kind.Directory? }

  /** Turns every path of `needed` that is not a directory yet into an implied one. */
  ghost function WithDirectories(shape: Shape, needed: set<string>): Shape
  {
    shape + map p | p in needed && !IsDirectory(shape, p) :: ImpliedDirectory(p)
  }

  ghost function WithAncestors(shape: Shape): Shape
  {
    WithDirectories(shape, Ancestors(shape.Keys))
  }

  ghost function Expected(st: State): Shape
    requires DerivableState(st)
  {
    WithAncestors(WithDirectories(Written(st), OpaqueParents(st)))
  }

  // ---------- the passes ----------

  lemma {:induction false} PrefixGrows(entries: seq<FileEntry>, i: nat)
    requires Distinct(entries) && i < |entries|
    ensures entries[i].path !in StateOf(entries[..i])
    ensures StateOf(entries[..i + 1]) == StateOf(entries[..i])[entries[i].path := entries[i]]
  {
    var rest := entries[..|entries| - 1];
    if i < |rest| {
      PrefixGrows(rest, i);
      assert rest[..i] == entries[..i] && rest[..i + 1] == entries[..i + 1];
    } else {
      assert entries[..i + 1] == entries;
    }
  }

  /** The state holds exactly the listed entries. */
  lemma {:induction false} StateHolds(entries: seq<FileEntry>, e: FileEntry)
    requires Distinct(entries)
    ensures e in entries <==> e.path in StateOf(entries) && StateOf(entries)[e.path] == e
  {
    if entries != [] {
      var rest, last := entries[..|entries| - 1], entries[|entries| - 1];
      assert entries == rest + [last];
      StateHolds(rest, e);
    }
  }

  lemma {:induction false} StatePaths(entries: seq<FileEntry>)
    ensures forall p | p in StateOf(entries) :: StateOf(entries)[p].path == p
  {
    if entries != [] {
      StatePaths(entries[..|entries| - 1]);
    }
  }

  /** Two listings of the same entries are the same state, so what follows does not depend on the order. */
  lemma {:induction false} StateIgnoresOrder(a: seq<FileEntry>, b: seq<FileEntry>)
    requires Distinct(a) && Distinct(b)
    requires forall e :: e in a <==> e in b
    ensures StateOf(a) == StateOf(b)
  {
    StatePaths(a);
    StatePaths(b);
    forall e: FileEntry
      ensures e.path in StateOf(a) && StateOf(a)[e.path] == e <==> e.path in StateOf(b) && StateOf(b)[e.path] == e
    {
      StateHolds(a, e);
      StateHolds(b, e);
    }
    forall p
      ensures p in StateOf(a) <==> p in StateOf(b)
      ensures p in StateOf(a) ==> StateOf(a)[p] == StateOf(b)[p]
    {
      if p in StateOf(a) { var e := StateOf(a)[p]; assert e.path == p; }
      if p in StateOf(b) { var e := StateOf(b)[p]; assert e.path == p; }
    }
  }

  lemma MergePut(a: Shape, b: Shape, p: string, e: Entry)
    ensures a + b[p := e] == (a + b)[p := e]
  {
  }

  method WriteWhiteouts(entries: seq<FileEntry>) returns (shape: Shape)
    requires Distinct(entries)
    ensures shape == Whiteouts(StateOf(entries))
  {
    shape := map[];
    ghost var done: State := map[];
    for i := 0 to |entries|
      invariant done == StateOf(entries[..i])
      invariant shape == Whiteouts(done)
    {
      PrefixGrows(entries, i);
      WhiteoutsGrow(done, entries[i]);
      var target := WhiteoutTarget(entries[i].path);
      if target.Deletes? {
        shape := shape[target.path := WhiteoutEntry(target.path)];
      }
      done := done[entries[i].path := entries[i]];
    }
    assert entries[..|entries|] == entries;
  }

  lemma WhiteoutsGrow(st: State, e: FileEntry)
    requires e.path !in st
    ensures Whiteouts(st[e.path := e]) ==
            match WhiteoutTarget(e.path)
            case NoTarget => Whiteouts(st)
            case Deletes(t) => Whiteouts(st)[t := WhiteoutEntry(t)]
  {
    TargetsGrow(st, e);
  }

  lemma TargetsGrow(st: State, e: FileEntry)
    requires e.path !in st
    ensures Targets(st[e.path := e]) ==
            Targets(st) + match WhiteoutTarget(e.path) case NoTarget => {} case Deletes(d) => {d}
  {
    var t := st[e.path := e];
    assert forall p | p in st :: p in t;
    assert e.path in t;
  }

  method WriteDirectories(shape: Shape, entries: seq<FileEntry>) returns (r: Shape)
    requires Distinct(entries)
    ensures r == shape + Directories(StateOf(entries))
  {
    r := shape;
    ghost var done: State := map[];
    for i := 0 to |entries|
      invariant done == StateOf(entries[..i])
      invariant r == shape + Directories(done)
    {
      PrefixGrows(entries, i);
      DirectoriesGrow(done, entries[i]);
      if IsDir(entries[i]) {
        MergePut(shape, Directories(done), entries[i].path, NamedDirectory(entries[i]));
        r := r[entries[i].path := NamedDirectory(entries[i])];
      }
      done := done[entries[i].path := entries[i]];
    }
    assert entries[..|entries|] == entries;
  }

  lemma DirectoriesGrow(st: State, e: FileEntry)
    requires e.path !in st
    ensures Directories(st[e.path := e]) ==
            if IsDir(e) then Directories(st)[e.path := NamedDirectory(e)] else Directories(st)
  {
  }

  /** Some entry of this path has a kind no checkout can hold. */
  ghost predicate Underivable(entries: seq<FileEntry>, path: string)
  {
    exists e :: e in entries && e.path == path && Plain(e) && !Derivable(e)
  }

  lemma {:induction false} UnderivableFound(entries: seq<FileEntry>, i: nat)
    requires Distinct(entries) && i < |entries| && Plain(entries[i]) && !Derivable(entries[i])
    ensures Underivable(entries, entries[i].path) && !DerivableState(StateOf(entries))
  {
    assert entries[i] in entries;
    StateHolds(entries, entries[i]);
  }

  method WriteOthers(shape: Shape, entries: seq<FileEntry>) returns (r: Result<Shape>)
    requires Distinct(entries)
    ensures r.Ok? <==> DerivableState(StateOf(entries))
    ensures r.Ok? ==> r.value == shape + Others(StateOf(entries))
    ensures r.Err? ==> Underivable(entries, r.path)
  {
    var written := shape;
    ghost var done: State := map[];
    for i := 0 to |entries|
      invariant done == StateOf(entries[..i])
      invariant DerivableState(done)
      invariant written == shape + Others(done)
    {
      PrefixGrows(entries, i);
      if Plain(entries[i]) {
        var derived := DeriveEntry(entries[i]);
        if derived.Err? {
          UnderivableFound(entries, i);
          return Err(derived.path);
        }
        OthersGrow(done, entries[i]);
        MergePut(shape, Others(done), entries[i].path, derived.value);
        written := written[entries[i].path := derived.value];
      } else {
        OthersGrow(done, entries[i]);
      }
      done := done[entries[i].path := entries[i]];
    }
    assert entries[..|entries|] == entries;
    r := Ok(written);
  }

  lemma OthersGrow(st: State, e: FileEntry)
    requires e.path !in st && DerivableState(st) && (Plain(e) ==> Derivable(e))
    ensures DerivableState(st[e.path := e])
    ensures Others(st[e.path := e]) ==
            if Plain(e) then Others(st)[e.path := DeriveEntry(e).value] else Others(st)
  {
  }

  method AddOpaqueDirectories(shape: Shape, entries: seq<FileEntry>) returns (r: Shape)
    requires Distinct(entries)
    ensures r == WithDirectories(shape, OpaqueParents(StateOf(entries)))
  {
    r := shape;
    ghost var done: State := map[];
    for i := 0 to |entries|
      invariant done == StateOf(entries[..i])
      invariant r == WithDirectories(shape, OpaqueParents(done))
    {
      PrefixGrows(entries, i);
      ghost var parents := OpaqueParents(done);
      OpaqueParentsGrow(done, entries[i]);
      if Opaque(entries[i].path) {
        var parent := Dir(entries[i].path);
        DirectoryAdded(shape, parents, parent);
        if !IsDirectory(r, parent) {
          r := r[parent := ImpliedDirectory(parent)];
        }
      }
      done := done[entries[i].path := entries[i]];
    }
    assert entries[..|entries|] == entries;
  }

  lemma DirectoryAdded(shape: Shape, needed: set<string>, p: string)
    ensures var r := WithDirectories(shape, needed);
            WithDirectories(shape, needed + {p}) == if IsDirectory(r, p) then r else r[p := ImpliedDirectory(p)]
  {
  }

  lemma OpaqueParentsGrow(st: State, e: FileEntry)
    requires e.path !in st
    ensures OpaqueParents(st[e.path := e]) ==
            if Opaque(e.path) then OpaqueParents(st) + {Dir(e.path)} else OpaqueParents(st)
  {
    var t := st[e.path := e];
    assert forall p | p in st :: p in t;
    assert e.path in t;
  }

  /** The passes in the order the materializer applies them; a later pass wins a shared name. */
  method ExpectedCheckoutEntries(entries: seq<FileEntry>) returns (r: Result<Shape>)
    requires Distinct(entries) && ValidState(StateOf(entries))
    ensures r.Ok? <==> DerivableState(StateOf(entries))
    ensures r.Ok? ==> r.value == Expected(StateOf(entries))
    ensures r.Err? ==> Underivable(entries, r.path)
  {
    var shape := WriteWhiteouts(entries);
    shape := WriteDirectories(shape, entries);
    r := WriteOthers(shape, entries);
    if r.Err? {
      return;
    }
    shape := AddOpaqueDirectories(r.value, entries);
    WrittenKeys(StateOf(entries));
    OpaqueParentKeys(StateOf(entries));
    shape := AddImplicitDirectories(shape);
    r := Ok(shape);
  }

  lemma WrittenPaths(st: State)
    requires DerivableState(st)
    ensures Written(st).Keys <= Targets(st) + st.Keys
  {
  }

  lemma WrittenKeys(st: State)
    requires ValidState(st) && DerivableState(st)
    ensures forall p | p in Written(st) :: Key(p)
  {
    forall p | p in st
      ensures Key(p) && (WhiteoutTarget(p).Deletes? ==> Key(WhiteoutTarget(p).path))
    {
      CanonicalIsKey(p);
      if WhiteoutTarget(p).Deletes? { TargetIsKey(p); }
    }
    WrittenPaths(st);
  }

  lemma DeletedName(base: string)
    requires Name(base) && HasPrefix(base, WHITEOUT_PREFIX)
    ensures var deleted := base[4..]; '/' !in deleted && '\0' !in deleted
  {
  }

  lemma TargetShape(p: string)
    requires WhiteoutTarget(p).Deletes?
    ensures HasPrefix(Base(p), WHITEOUT_PREFIX) && Base(p)[4..] != ""
    ensures WhiteoutTarget(p).path == if Dir(p) == "." then Base(p)[4..] else Dir(p) + "/" + Base(p)[4..]
  {
  }

  lemma {:induction false} TargetIsKey(p: string)
    requires Canonical(p) && WhiteoutTarget(p).Deletes?
    ensures Key(WhiteoutTarget(p).path)
  {
    TargetShape(p);
    CanonicalIsKey(p);
    assert Name(Base(p));
    DeletedName(Base(p));
    ParentOfKey(p);
    NoSlash(Base(p)[4..]);
    ChildSplits(Dir(p), Base(p)[4..]);
  }

  lemma OpaqueParentKeys(st: State)
    requires ValidState(st)
    ensures forall p | p in OpaqueParents(st) :: Key(p)
  {
    forall p | p in st && Dir(p) != "."
      ensures Key(Dir(p))
    {
      CanonicalIsKey(p);
      ParentOfKey(p);
      CanonicalIsKey(Dir(p));
    }
  }

  // ---------- the parent closure ----------

  /**
   `a` is a directory by now, or a name not yet visited that lies between `a`
   and `k` will make it one. This is what the early exit of the climb relies on.
   */
  ghost predicate Covered(shape: Shape, unvisited: set<string>, a: string, k: string)
  {
    IsDirectory(shape, a) || exists q :: q in unvisited && Above(a, q) && Above(q, k)
  }

  ghost predicate Closing(shape: Shape, unvisited: set<string>)
  {
    forall k, a | k in shape && k !in unvisited && Above(a, k) :: Covered(shape, unvisited, a, k)
  }

  /** Some named path lies below `a`. */
  ghost predicate Needed(named: Shape, a: string)
  {
    exists p :: p in named && Above(a, p)
  }

  /** Everything added so far is an implied directory above some named path. */
  ghost predicate Grown(named: Shape, shape: Shape)
  {
    && named.Keys <= shape.Keys
    && forall p | p in shape ::
         || (p in named && shape[p] == named[p])
         || (Needed(named, p) && !IsDirectory(named, p) && shape[p] == ImpliedDirectory(p))
  }

  method AddImplicitDirectories(named: Shape) returns (shape: Shape)
    requires forall p | p in named :: Key(p)
    ensures shape == WithAncestors(named)
  {
    shape := named;
    var unvisited := named.Keys;
    while unvisited != {}
      invariant unvisited <= named.Keys
      invariant Grown(named, shape)
      invariant Closing(shape, unvisited)
      decreases |unvisited|
    {
      var name :| name in unvisited;
      shape := Climb(named, shape, name, unvisited);
      unvisited := unvisited - {name};
    }
    ClosedIsWithAncestors(named, shape);
  }

  lemma ClosedIsWithAncestors(named: Shape, shape: Shape)
    requires Grown(named, shape) && Closing(shape, {})
    ensures shape == WithAncestors(named)
  {
    forall a
      ensures a in Ancestors(named.Keys) <==> Needed(named, a)
      ensures Needed(named, a) ==> IsDirectory(shape, a)
    {
      AncestorsAreAbove(named.Keys, a);
      if Needed(named, a) {
        var p :| p in named && Above(a, p);
        assert Covered(shape, {}, a, p);
      }
    }
  }

  /** What a finished climb from `name` has settled about a directory above it. */
  ghost predicate Settled(before: Shape, shape: Shape, name: string, unvisited: set<string>, a: string)
  {
    || IsDirectory(shape, a)
    || exists q :: q in unvisited && Above(a, q) && Above(q, name) && Below(q, shape.Keys - before.Keys)
  }

  ghost predicate Below(q: string, paths: set<string>)
  {
    forall k | k in paths :: Above(q, k)
  }

  lemma ClimbCloses(before: Shape, shape: Shape, name: string, waiting: set<string>)
    requires name in before && name in waiting && before.Keys <= shape.Keys
    requires Closing(before, waiting)
    requires forall p | IsDirectory(before, p) :: IsDirectory(shape, p)
    requires forall p | p in shape && p !in before :: Above(p, name)
    requires forall a | Above(a, name) :: Settled(before, shape, name, waiting - {name}, a)
    ensures Closing(shape, waiting - {name})
  {
    var left := waiting - {name};
    forall k, a | k in shape && k !in left && Above(a, k)
      ensures Covered(shape, left, a, k)
    {
      if k == name {
        assert Settled(before, shape, name, left, a);
      } else if k !in before {
        AboveTransitive(a, k, name);
        assert Settled(before, shape, name, left, a);
        assert k in shape.Keys - before.Keys;
      } else {
        assert Covered(before, waiting, a, k);
        if !IsDirectory(shape, a) {
          var q :| q in waiting && Above(a, q) && Above(q, k);
          if q == name {
            assert Settled(before, shape, name, left, a);
            var q' :| q' in left && Above(a, q') && Above(q', name);
            AboveTransitive(q', name, k);
          }
        }
      }
    }
  }

  /** The early exit: a directory met on the way up vouches for everything above it. */
  lemma ClimbStops(before: Shape, shape: Shape, name: string, parent: string, waiting: set<string>)
    requires name in before && name in waiting && before.Keys <= shape.Keys
    requires Closing(before, waiting)
    requires forall p | IsDirectory(before, p) :: IsDirectory(shape, p)
    requires forall p | p in shape && p !in before :: Above(p, name) && |parent| < |p|
    requires IsDirectory(shape, parent) && Above(parent, name)
    requires forall a | Above(a, name) :: IsDirectory(shape, a) || a == parent || Above(a, parent)
    ensures Closing(shape, waiting - {name})
  {
    var left := waiting - {name};
    forall k | k in shape.Keys - before.Keys
      ensures Above(parent, k)
    {
      AboveComparable(parent, k, name);
    }
    forall a | Above(a, name)
      ensures Settled(before, shape, name, left, a)
    {
      if !IsDirectory(shape, a) {
        assert Above(a, parent) && parent in before;
        var q := parent;
        if parent !in waiting {
          assert Covered(before, waiting, a, parent);
          q :| q in waiting && Above(a, q) && Above(q, parent);
          AboveTransitive(q, parent, name);
          forall k | k in shape.Keys - before.Keys { AboveTransitive(q, parent, k); }
        }
        assert Below(q, shape.Keys - before.Keys);
      }
    }
    ClimbCloses(before, shape, name, waiting);
  }

  /** What holds on the way up from `name`, once everything below `parent` is done. */
  ghost predicate Climbing(named: Shape, before: Shape, shape: Shape, name: string, parent: string)
  {
    && Grown(named, shape)
    && before.Keys <= shape.Keys
    && (forall p | IsDirectory(before, p) :: IsDirectory(shape, p))
    && (forall p | p in shape && p !in before :: Above(p, name) && |parent| < |p|)
    && Above(parent, name)
    && (forall a | Above(a, name) :: IsDirectory(shape, a) || a == parent || Above(a, parent))
  }

  /** Every directory above `name` is a directory by now. */
  ghost predicate Climbed(named: Shape, before: Shape, shape: Shape, name: string)
  {
    && Grown(named, shape)
    && before.Keys <= shape.Keys
    && (forall p | IsDirectory(before, p) :: IsDirectory(shape, p))
    && (forall p | p in shape && p !in before :: Above(p, name))
    && (forall a | Above(a, name) :: IsDirectory(shape, a))
  }

  lemma {:induction false} ClimbBegins(named: Shape, before: Shape, name: string)
    requires name in named && Key(name) && Grown(named, before)
    ensures LastSlash(name) < 0 ==> Climbed(named, before, before, name)
    ensures LastSlash(name) >= 0 ==> Climbing(named, before, before, name, Dir(name))
  {
    ParentOfKey(name);
    forall a { AboveIsParentChain(a, name); }
  }

  lemma GrownPut(named: Shape, shape: Shape, parent: string)
    requires Grown(named, shape) && Needed(named, parent) && !IsDirectory(shape, parent)
    ensures Grown(named, shape[parent := ImpliedDirectory(parent)])
  {
  }

  lemma {:induction false} ClimbStep(named: Shape, before: Shape, shape: Shape, name: string, parent: string)
    requires name in named && Canonical(parent) && Climbing(named, before, shape, name, parent)
    requires !IsDirectory(shape, parent)
    ensures var next := shape[parent := ImpliedDirectory(parent)];
            if LastSlash(parent) < 0 then Climbed(named, before, next, name)
            else Climbing(named, before, next, name, Dir(parent))
  {
    GrownPut(named, shape, parent);
    CanonicalIsKey(parent);
    ParentOfKey(parent);
    var next := shape[parent := ImpliedDirectory(parent)];
    forall a | Above(a, name)
      ensures IsDirectory(next, a) || (LastSlash(parent) >= 0 && (a == Dir(parent) || Above(a, Dir(parent))))
    {
      AboveIsParentChain(a, parent);
    }
    if LastSlash(parent) >= 0 {
      AboveTransitive(Dir(parent), parent, name);
    }
  }

  /** The inner loop: climb from one name until a directory is met. */
  method Climb(ghost named: Shape, before: Shape, name: string, ghost waiting: set<string>) returns (shape: Shape)
    requires name in named && Key(name) && name in waiting
    requires Grown(named, before) && Closing(before, waiting)
    ensures Grown(named, shape) && Closing(shape, waiting - {name})
  {
    shape := before;
    var parent := Dir(name);
    ParentOfKey(name);
    ClimbBegins(named, before, name);
    while parent != "." && parent != "/"
      invariant parent != "/"
      invariant parent == "." ==> Climbed(named, before, shape, name)
      invariant parent != "." ==> Canonical(parent) && Climbing(named, before, shape, name, parent)
      decreases if parent == "." then 0 else |parent|
    {
      if IsDirectory(shape, parent) {
        ClimbStops(before, shape, name, parent, waiting);
        return;
      }
      ClimbStep(named, before, shape, name, parent);
      CanonicalIsKey(parent);
      ParentOfKey(parent);
      shape := shape[parent := ImpliedDirectory(parent)];
      parent := Dir(parent);
    }
    ClimbCloses(before, shape, name, waiting);
  }

  // ---------- what the closed form means ----------

  /** Something of the state ends up strictly below `p`, or an opaque marker inside it. */
  ghost predicate HoldsSomething(st: State, p: string)
  {
    || p in OpaqueParents(st)
    || (exists q :: q in OpaqueParents(st) && Above(p, q))
    || (exists q :: q in Targets(st) && Above(p, q))
    || (exists q :: q in st && (IsDir(st[q]) || Plain(st[q])) && Above(p, q))
  }

  /**
   What stands at a path. A directory entry stands. Failing that, a path that
   holds something is an implied directory whatever else claims it; then a file
   wins over a whiteout marker; and nothing else is there.
   */
  lemma ExpectedAt(st: State, p: string)
    requires ValidState(st) && DerivableState(st)
    ensures var e := Expected(st);
            if p in st && IsDir(st[p]) then p in e && e[p] == NamedDirectory(st[p])
            else if HoldsSomething(st, p) then p in e && e[p] == ImpliedDirectory(p)
            else if p in st && Plain(st[p]) then p in e && e[p] == DeriveEntry(st[p]).value
            else if p in Targets(st) then p in e && e[p] == WhiteoutEntry(p)
            else p !in e
  {
    var written := Written(st);
    var marked := WithDirectories(written, OpaqueParents(st));
    WrittenAt(st, p);
    WithDirectoriesAt(written, OpaqueParents(st), p);
    WithDirectoriesAt(marked, Ancestors(marked.Keys), p);
    NeededAt(st, p);
  }

  lemma WrittenAt(st: State, p: string)
    requires DerivableState(st)
    ensures var w := Written(st);
            if p in st && IsDir(st[p]) then p in w && w[p] == NamedDirectory(st[p])
            else if p in st && Plain(st[p]) then p in w && w[p] == DeriveEntry(st[p]).value
            else if p in Targets(st) then p in w && w[p] == WhiteoutEntry(p)
            else p !in w
  {
  }

  lemma WithDirectoriesAt(shape: Shape, needed: set<string>, p: string)
    ensures var r := WithDirectories(shape, needed);
            if IsDirectory(shape, p) then p in r && r[p] == shape[p]
            else if p in needed then p in r && r[p] == ImpliedDirectory(p)
            else if p in shape then p in r && r[p] == shape[p]
            else p !in r
    ensures WithDirectories(shape, needed).Keys == shape.Keys + needed
  {
  }

  lemma NeededAt(st: State, p: string)
    requires DerivableState(st)
    ensures var marked := WithDirectories(Written(st), OpaqueParents(st));
            HoldsSomething(st, p) <==> p in OpaqueParents(st) || p in Ancestors(marked.Keys)
  {
    var marked := WithDirectories(Written(st), OpaqueParents(st));
    WithDirectoriesAt(Written(st), OpaqueParents(st), p);
    forall q
      ensures q in marked <==> q in OpaqueParents(st) || q in Targets(st) || (q in st && (IsDir(st[q]) || Plain(st[q])))
    {
      WrittenAt(st, q);
      WithDirectoriesAt(Written(st), OpaqueParents(st), q);
    }
    AncestorsAreAbove(marked.Keys, p);
  }

  /** Every directory above an expected path is an expected directory. */
  ghost predicate ParentClosed(shape: Shape)
  {
    forall p, a | p in shape && Above(a, p) :: IsDirectory(shape, a)
  }

  lemma WithAncestorsCloses(shape: Shape)
    ensures ParentClosed(WithAncestors(shape))
  {
    var closed := WithAncestors(shape);
    forall p, a | p in closed && Above(a, p)
      ensures IsDirectory(closed, a)
    {
      if p !in shape {
        AncestorsAreAbove(shape.Keys, p);
        var q :| q in shape.Keys && Above(p, q);
        AboveTransitive(a, p, q);
      }
      AncestorsAreAbove(shape.Keys, a);
    }
  }

  /** A shape is filed under its own paths and every record of it can be read back. */
  ghost predicate ValidShape(shape: Shape)
  {
    forall p | p in shape :: shape[p].path == p && WellFormed(shape[p])
  }

  /** Filed under their own paths, and only symlinks carry a target. */
  ghost predicate Filed(shape: Shape)
  {
    forall p | p in shape :: shape[p].path == p && (NUL !in p ==> WellFormed(shape[p]))
  }

  lemma WrittenFiled(st: State)
    requires DerivableState(st) && forall p | p in st :: st[p].path == p
    ensures Filed(Written(st))
  {
    assert Filed(Whiteouts(st));
    assert Filed(Directories(st));
    OthersFiled(st);
    MergeFiled(Whiteouts(st), Directories(st));
    MergeFiled(Whiteouts(st) + Directories(st), Others(st));
  }

  lemma OthersFiled(st: State)
    requires DerivableState(st) && forall p | p in st :: st[p].path == p
    ensures Filed(Others(st))
  {
  }

  lemma MergeFiled(a: Shape, b: Shape)
    requires Filed(a) && Filed(b)
    ensures Filed(a + b)
  {
  }

  lemma WithDirectoriesFiled(shape: Shape, needed: set<string>)
    requires Filed(shape)
    ensures Filed(WithDirectories(shape, needed))
  {
  }

  lemma ExpectedIsValid(st: State)
    requires ValidState(st) && DerivableState(st)
    ensures ParentClosed(Expected(st)) && ValidShape(Expected(st))
  {
    var marked := WithDirectories(Written(st), OpaqueParents(st));
    WithAncestorsCloses(marked);
    WrittenFiled(st);
    WithDirectoriesFiled(Written(st), OpaqueParents(st));
    WithDirectoriesFiled(marked, Ancestors(marked.Keys));
    forall p | p in Expected(st)
      ensures NUL !in p
    {
      ExpectedHasNoNul(st, p);
    }
  }

  lemma ExpectedHasNoNul(st: State, p: string)
    requires ValidState(st) && DerivableState(st) && p in Expected(st)
    ensures NUL !in p
  {
    var marked := WithDirectories(Written(st), OpaqueParents(st));
    WithDirectoriesAt(marked, Ancestors(marked.Keys), p);
    if p in marked {
      MarkedHasNoNul(st, p);
    } else {
      AncestorsAreAbove(marked.Keys, p);
      var q :| q in marked.Keys && Above(p, q);
      MarkedHasNoNul(st, q);
      AboveHasNoNul(p, q);
    }
  }

  lemma AboveHasNoNul(a: string, p: string)
    requires Above(a, p) && NUL !in p
    ensures NUL !in a
  {
    assert forall i | 0 <= i < |a| :: a[i] == p[i] && p[i] in p;
  }

  lemma MarkedHasNoNul(st: State, p: string)
    requires ValidState(st) && DerivableState(st)
    requires p in WithDirectories(Written(st), OpaqueParents(st))
    ensures NUL !in p
  {
    WithDirectoriesAt(Written(st), OpaqueParents(st), p);
    if p in OpaqueParents(st) {
      OpaqueParentKeys(st);
    } else {
      WrittenKeys(st);
    }
    KeyHasNoNul(p);
  }
}
