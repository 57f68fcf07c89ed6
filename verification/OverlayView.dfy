/**
 The merged view of a stack of layers: a fold that applies the whiteouts of each
 layer and then its files, and the path by path definition it computes.
 It implements the "Whiteouts" section of the OCI Image Format Specification
 (layer filesystem changeset), but for what is shown at the end.
 */
module OverlayView {
  import opened Text
  import opened CheckoutExpected
  import opened PathParents
  import opened Markers

  /** An entry of the view: the file and the layer of the stack it comes from. */
  datatype ViewEntry = ViewEntry(file: FileEntry, layer: nat)

  /** A layer the store has lost, or its files in the order the state lists them. */
  datatype Layer = Unavailable | Available(files: seq<FileEntry>)

  datatype ViewResult = View(entries: map<string, ViewEntry>) | NotAvailable(layer: nat)

  /** What a path of a layer asks for. */
  datatype Mark = Keeps | Empties(directory: string) | Removes(target: string)

  // ---------- one path ----------

  /** `strings.Trim(path, "/")` */
  function Clean(path: string): string { TrimOf(path, '/') }

  /** `path.Join` of a canonical directory and one name, with the dot names it folds away. */
  function Join(directory: string, name: string): string
  {
    if name == "" || name == "." then directory
    else if name == ".." then (if directory == "." then ".." else Dir(directory))
    else if directory == "." then name
    else directory + "/" + name
  }

  function MarkOf(path: string): Mark
  {
    var base := Base(path);
    if !HasPrefix(base, WHITEOUT_PREFIX) then Keeps
    else if base == OPAQUE_MARKER then Empties(Dir(path))
    else Removes(Join(Dir(path), base[4..]))
  }

  /** Whether a mark takes a path of a lower layer out of the view. */
  predicate Hides(mark: Mark, p: string)
  {
    match mark
    case Keeps => false
    case Empties(directory) => Above(directory, p)
    case Removes(target) => p == target || Above(target, p)
  }

  // ---------- the view, path by path ----------

  predicate Places(file: FileEntry, p: string)
  {
    Clean(file.path) == p && p != "" && MarkOf(p).Keeps?
  }

  ghost predicate Holds(files: seq<FileEntry>, p: string)
  {
    exists f :: f in files && Places(f, p)
  }

  ghost predicate Kills(files: seq<FileEntry>, p: string)
  {
    exists f :: f in files && Hides(MarkOf(Clean(f.path)), p)
  }

  /** What a layer has at a path: the last of its files placed there. */
  function Placed(files: seq<FileEntry>, p: string): (f: FileEntry)
    requires Holds(files, p)
    ensures f.path == p
  {
    var last := files[|files| - 1];
    if Places(last, p) then last.(path := p)
    else
      assert files == files[..|files| - 1] + [last];
      Placed(files[..|files| - 1], p)
  }

  /** Some layer has the path and no later one takes it away. */
  ghost predicate Visible(stack: seq<seq<FileEntry>>, p: string)
  {
    exists i :: 0 <= i < |stack| && Holds(stack[i], p) && Undisturbed(stack, i, p)
  }

  ghost predicate Undisturbed(stack: seq<seq<FileEntry>>, i: nat, p: string)
  {
    forall j | i < j < |stack| :: !Kills(stack[j], p)
  }

  /** The last layer of the stack that has the path. */
  ghost predicate IsSource(stack: seq<seq<FileEntry>>, i: nat, p: string)
  {
    i < |stack| && Holds(stack[i], p) && forall j | i < j < |stack| :: !Holds(stack[j], p)
  }

  /** The view is right about one path: present when visible, and then from its source. */
  ghost predicate RightAt(stack: seq<seq<FileEntry>>, view: map<string, ViewEntry>, p: string)
  {
    && (p in view <==> Visible(stack, p))
    && (p in view ==>
          && IsSource(stack, view[p].layer, p)
          && Undisturbed(stack, view[p].layer, p)
          && view[p].file == Placed(stack[view[p].layer], p))
  }

  ghost predicate IsView(stack: seq<seq<FileEntry>>, view: map<string, ViewEntry>)
  {
    forall p :: RightAt(stack, view, p)
  }

  lemma SourceUnique(stack: seq<seq<FileEntry>>, i: nat, j: nat, p: string)
    requires IsSource(stack, i, p) && IsSource(stack, j, p)
    ensures i == j
  {
  }

  /** A stack has one view: nothing depends on the order a map is walked in. */
  lemma ViewUnique(stack: seq<seq<FileEntry>>, a: map<string, ViewEntry>, b: map<string, ViewEntry>)
    requires IsView(stack, a) && IsView(stack, b)
    ensures a == b
  {
    forall p
      ensures p in a <==> p in b
      ensures p in a ==> a[p] == b[p]
    {
      AgreeAt(stack, a, b, p);
    }
  }

  lemma AgreeAt(stack: seq<seq<FileEntry>>, a: map<string, ViewEntry>, b: map<string, ViewEntry>, p: string)
    requires RightAt(stack, a, p) && RightAt(stack, b, p)
    ensures p in a <==> p in b
    ensures p in a ==> a[p] == b[p]
  {
    if p in a {
      SourceUnique(stack, a[p].layer, b[p].layer, p);
    }
  }

  // ---------- one layer on top ----------

  lemma VisibleOnTop(stack: seq<seq<FileEntry>>, files: seq<FileEntry>, p: string)
    ensures Visible(stack + [files], p) <==> Holds(files, p) || (Visible(stack, p) && !Kills(files, p))
  {
    var taller := stack + [files];
    if Holds(files, p) {
      assert Undisturbed(taller, |stack|, p);
      assert taller[|stack|] == files;
    }
    if Visible(stack, p) && !Kills(files, p) {
      var i :| 0 <= i < |stack| && Holds(stack[i], p) && Undisturbed(stack, i, p);
      forall j | i < j < |taller|
        ensures !Kills(taller[j], p)
      {
        if j < |stack| { assert taller[j] == stack[j]; }
      }
      assert taller[i] == stack[i];
      assert Undisturbed(taller, i, p);
    }
    if Visible(taller, p) && !Holds(files, p) {
      var i :| 0 <= i < |taller| && Holds(taller[i], p) && Undisturbed(taller, i, p);
      assert taller[|stack|] == files;
      assert i < |stack|;
      forall j | i < j < |stack|
        ensures !Kills(stack[j], p)
      {
        assert taller[j] == stack[j];
      }
      assert Undisturbed(stack, i, p);
    }
  }

  /** What one layer makes of one path of the view below it. */
  ghost predicate LayeredAt(view: map<string, ViewEntry>, files: seq<FileEntry>, layer: nat,
                            r: map<string, ViewEntry>, p: string)
  {
    if Holds(files, p) then p in r && r[p] == ViewEntry(Placed(files, p), layer)
    else if p in view && !Kills(files, p) then p in r && r[p] == view[p]
    else p !in r
  }

  lemma LayerExtendsAt(stack: seq<seq<FileEntry>>, view: map<string, ViewEntry>, files: seq<FileEntry>,
                       r: map<string, ViewEntry>, p: string)
    requires RightAt(stack, view, p) && LayeredAt(view, files, |stack|, r, p)
    ensures RightAt(stack + [files], r, p)
  {
    var taller := stack + [files];
    VisibleOnTop(stack, files, p);
    if p in r {
      if Holds(files, p) {
        assert taller[|stack|] == files;
      } else {
        var i := view[p].layer;
        assert taller[i] == stack[i];
        forall j | i < j < |taller|
          ensures !Holds(taller[j], p) && !Kills(taller[j], p)
        {
          if j < |stack| { assert taller[j] == stack[j]; }
        }
      }
    }
  }

  // ---------- the fold ----------

  /** Drops an entry and everything below it. */
  method DeleteEntry(view: map<string, ViewEntry>, name: string) returns (r: map<string, ViewEntry>)
    ensures r == map p | p in view && !(p == name || Above(name, p)) :: view[p]
  {
    r := view;
    var pending := view.Keys;
    while pending != {}
      invariant pending <= view.Keys
      invariant r == map p | p in view && (p in pending || !(p == name || Above(name, p))) :: view[p]
      decreases |pending|
    {
      var existing :| existing in pending;
      pending := pending - {existing};
      if existing == name || Above(name, existing) {
        r := map p | p in r && p != existing :: r[p];
      }
    }
  }

  /** Drops everything below a directory, entry by entry with what is below each. */
  method EmptyDirectory(view: map<string, ViewEntry>, directory: string) returns (r: map<string, ViewEntry>)
    ensures r == map p | p in view && !Above(directory, p) :: view[p]
  {
    r := view;
    var pending := view.Keys;
    while pending != {}
      invariant pending <= view.Keys
      invariant forall p | p in r :: p in view && r[p] == view[p]
      invariant forall p | p in view && !Above(directory, p) :: p in r
      invariant forall p | p in r && Above(directory, p) :: p in pending
      decreases |pending|
    {
      var existing :| existing in pending;
      pending := pending - {existing};
      if existing in r && Above(directory, existing) {
        r := DeleteEntry(r, existing);
        forall p | Above(existing, p) { AboveTransitive(directory, existing, p); }
      }
    }
  }

  /** Marks of a layer act on what the layers below left, whatever the layer itself holds. */
  method ApplyWhiteouts(view: map<string, ViewEntry>, files: seq<FileEntry>) returns (r: map<string, ViewEntry>)
    ensures r == map p | p in view && !Kills(files, p) :: view[p]
  {
    r := view;
    for i := 0 to |files|
      invariant r == map p | p in view && !Kills(files[..i], p) :: view[p]
    {
      var mark := MarkOf(Clean(files[i].path));
      KillsGrow(files, i);
      match mark {
        case Keeps =>
        case Empties(directory) => r := EmptyDirectory(r, directory);
        case Removes(target) => r := DeleteEntry(r, target);
      }
    }
    assert files[..|files|] == files;
  }

  lemma KillsGrow(files: seq<FileEntry>, i: nat)
    requires i < |files|
    ensures forall p :: Kills(files[..i + 1], p) <==> Kills(files[..i], p) || Hides(MarkOf(Clean(files[i].path)), p)
  {
    var more := files[..i] + [files[i]];
    assert files[..i + 1] == more;
    assert files[i] in more && forall f | f in files[..i] :: f in more;
  }

  ghost predicate Laid(view: map<string, ViewEntry>, files: seq<FileEntry>, layer: nat, r: map<string, ViewEntry>,
                       p: string)
  {
    if Holds(files, p) then p in r && r[p] == ViewEntry(Placed(files, p), layer)
    else if p in view then p in r && r[p] == view[p]
    else p !in r
  }

  method AddFiles(view: map<string, ViewEntry>, files: seq<FileEntry>, layer: nat) returns (r: map<string, ViewEntry>)
    ensures forall p :: Laid(view, files, layer, r, p)
  {
    r := view;
    for i := 0 to |files|
      invariant forall p :: Laid(view, files[..i], layer, r, p)
    {
      var clean := Clean(files[i].path);
      ghost var before := r;
      if clean != "" && MarkOf(clean).Keeps? {
        r := r[clean := ViewEntry(files[i].(path := clean), layer)];
      }
      ghost var done := files[..i + 1];
      forall p
        ensures Laid(view, done, layer, r, p)
      {
        assert Laid(view, files[..i], layer, before, p);
        PlacedGrows(files, i, p);
      }
    }
    assert files[..|files|] == files;
  }

  lemma {:induction false} PlacedGrows(files: seq<FileEntry>, i: nat, p: string)
    requires i < |files|
    ensures Holds(files[..i + 1], p) <==> Holds(files[..i], p) || Places(files[i], p)
    ensures Holds(files[..i + 1], p) ==>
              Placed(files[..i + 1], p) == if Places(files[i], p) then files[i].(path := p) else Placed(files[..i], p)
  {
    var more := files[..i] + [files[i]];
    assert files[..i + 1] == more;
    assert files[i] in more && forall f | f in files[..i] :: f in more;
    assert more[..|more| - 1] == files[..i] && more[|more| - 1] == files[i];
  }

  ghost function FilesOf(layers: seq<Layer>): seq<seq<FileEntry>>
    requires forall l | l in layers :: l.Available?
  {
    seq(|layers|, i requires 0 <= i < |layers| => layers[i].files)
  }

  /** The merged view, or the first layer that is not available. */
  method MergedEntries(layers: seq<Layer>) returns (r: ViewResult)
    ensures r.View? <==> forall l | l in layers :: l.Available?
    ensures r.View? ==> IsView(FilesOf(layers), r.entries)
    ensures r.NotAvailable? ==> r.layer < |layers| && layers[r.layer].Unavailable?
  {
    var view: map<string, ViewEntry> := map[];
    for i := 0 to |layers|
      invariant forall l | l in layers[..i] :: l.Available?
      invariant IsView(FilesOf(layers[..i]), view)
    {
      if layers[i].Unavailable? {
        assert layers[i] in layers;
        return NotAvailable(i);
      }
      var files := layers[i].files;
      ghost var below := view;
      view := ApplyWhiteouts(view, files);
      ghost var bare := view;
      view := AddFiles(view, files, i);
      forall p
        ensures RightAt(FilesOf(layers[..i]) + [files], view, p)
      {
        assert RightAt(FilesOf(layers[..i]), below, p);
        assert Laid(bare, files, i, view, p);
        assert LayeredAt(below, files, i, view, p);
        LayerExtendsAt(FilesOf(layers[..i]), below, files, view, p);
      }
      assert layers[..i + 1] == layers[..i] + [layers[i]];
      assert FilesOf(layers[..i + 1]) == FilesOf(layers[..i]) + [files];
    }
    assert layers[..|layers|] == layers;
    r := View(view);
  }

  // ---------- what a layer asks for, without cutting its paths ----------

  /** The path as a state may spell it, with slashes around. */
  ghost predicate Spells(spelled: string, p: string) { Wraps(spelled, '/', p) }

  /** A directory or anything in it. */
  predicate Within(directory: string, p: string) { p == directory || Above(directory, p) }

  /**
   What is taken away by a marker for a name in a directory: the name and what is
   in it. The opaque marker empties its directory, unless that is the root. A
   marker without a name, or for a dot name, takes its own directory away, or the
   one around it.
   */
  ghost predicate Takes(d: string, n: string, p: string)
  {
    if n == ".wh..opq" then d != "" && Above(d, p)
    else if n == "" || n == "." then d != "" && Within(d, p)
    else if n == ".." then exists e, m :: e != "" && '/' !in m && d == Under(e, m) && Within(e, p)
    else Within(Under(d, n), p)
  }

  ghost predicate Covers(marker: string, p: string)
  {
    exists d, n :: Marks(marker, d, n) && Takes(d, n, p)
  }

  lemma {:induction false} CanonicalEnd(p: string)
    requires Canonical(p)
    ensures p != "" && p[0] != '/' && p[|p| - 1] != '/'
  {
    CanonicalStart(p);
    assert LastSlash(p) == |p| - 1 ==> Base(p) == "";
  }

  /** Trimming finds the canonical path that is spelled. */
  lemma {:induction false} CleanFindsPath(spelled: string, p: string)
    requires Canonical(p)
    ensures Clean(spelled) == p <==> Spells(spelled, p)
  {
    CanonicalEnd(p);
    TrimFinds(spelled, '/', p);
  }

  /** A canonical path hides nothing by way of a dot name. */
  lemma {:induction false} DotsHoldNothing(a: string, p: string)
    requires Canonical(p) && (a == "." || a == "..")
    ensures !Within(a, p)
  {
    CanonicalIsKey(p);
    NoSlash(a);
    if Above(a, p) { AboveIsCanonical(a, p); }
  }

  /** What the marker for a name asks for in a directory, the root written as a dot. */
  function MarkFor(directory: string, n: string): Mark
  {
    if n == ".wh..opq" then Empties(directory) else Removes(Join(directory, n))
  }

  function Dotted(d: string): string { if d == "" then "." else d }

  lemma {:induction false} MarkWritten(q: string, d: string, n: string)
    requires Marks(q, d, n) && Canonical(q)
    ensures MarkOf(q) == MarkFor(Dotted(d), n)
    ensures d != "" ==> Canonical(d) && d != "."
  {
    assert forall c | c in ".wh." + n :: c in ".wh." || c in n;
    JoinSplits(d, ".wh." + n);
    PrefixPut(n);
    CanonicalIsKey(q);
    ParentOfKey(q);
  }

  lemma {:induction false} JoinTakes(d: string, n: string, p: string)
    requires (d != "" ==> Canonical(d) && d != ".") && Canonical(p) && n != ".wh..opq"
    ensures Within(Join(Dotted(d), n), p) <==> Takes(d, n, p)
  {
    if n == ".." {
      DotsHoldNothing("..", p);
      if d != "" { OuterTaken(d, p); }
    } else if n == "" || n == "." {
      DotsHoldNothing(".", p);
    }
  }

  lemma {:induction false} MarkForTakes(d: string, n: string, p: string)
    requires (d != "" ==> Canonical(d) && d != ".") && Canonical(p)
    ensures Hides(MarkFor(Dotted(d), n), p) <==> Takes(d, n, p)
  {
    if n == ".wh..opq" {
      DotsHoldNothing(".", p);
    } else {
      JoinTakes(d, n, p);
      assert Hides(MarkFor(Dotted(d), n), p) <==> Within(Join(Dotted(d), n), p);
    }
  }

  lemma {:induction false} MarkTakes(q: string, d: string, n: string, p: string)
    requires Marks(q, d, n) && Canonical(q) && Canonical(p)
    ensures Hides(MarkOf(q), p) <==> Takes(d, n, p)
  {
    MarkWritten(q, d, n);
    MarkForTakes(d, n, p);
  }

  lemma {:induction false} OuterTaken(d: string, p: string)
    requires Canonical(d) && Canonical(p)
    ensures Within(Dir(d), p) <==> exists e, m :: e != "" && '/' !in m && d == Under(e, m) && Within(e, p)
  {
    var e := SplitJoins(d);
    DotsHoldNothing(".", p);
    if f, m :| f != "" && '/' !in m && d == Under(f, m) && Within(f, p) {
      JoinSplits(f, m);
    }
  }

  /** What a canonical path of a layer hides is what it covers as a marker. */
  lemma {:induction false} HidesIsCovers(q: string, p: string)
    requires Canonical(q) && Canonical(p)
    ensures Hides(MarkOf(q), p) <==> Covers(q, p)
    ensures MarkOf(q).Keeps? <==> !MarkerNamed(q)
  {
    MarkerNames(q);
    if IsWhiteout(q) {
      var d, n := MarkerFromBack(q);
      MarkTakes(q, d, n, p);
    }
    if d, n :| Marks(q, d, n) && Takes(d, n, p) {
      MarkTakes(q, d, n, p);
    }
  }

  /** A state spells canonical paths. */
  ghost predicate CanonicalFiles(files: seq<FileEntry>)
  {
    forall f | f in files :: Canonical(Clean(f.path))
  }

  ghost predicate Listed(files: seq<FileEntry>, p: string)
  {
    exists f :: f in files && Spells(f.path, p)
  }

  /** A layer has a path when one of its files spells it and it is not named as a marker. */
  lemma {:induction false} HoldsMeaning(files: seq<FileEntry>, p: string)
    requires Canonical(p)
    ensures Holds(files, p) <==> Listed(files, p) && !MarkerNamed(p)
  {
    CanonicalEnd(p);
    HidesIsCovers(p, p);
    forall f | f in files
      ensures Clean(f.path) == p <==> Spells(f.path, p)
    {
      CleanFindsPath(f.path, p);
    }
  }

  /** Some file of the layer is a marker that covers the path. */
  ghost predicate Covered(files: seq<FileEntry>, p: string)
  {
    exists f, q :: f in files && Spells(f.path, q) && Canonical(q) && Covers(q, p)
  }

  /** A layer takes away exactly what its markers cover. */
  lemma {:induction false} KillsMeaning(files: seq<FileEntry>, p: string)
    requires CanonicalFiles(files) && Canonical(p)
    ensures Kills(files, p) <==> Covered(files, p)
  {
    if f :| f in files && Hides(MarkOf(Clean(f.path)), p) {
      CleanFindsPath(f.path, Clean(f.path));
      HidesIsCovers(Clean(f.path), p);
    }
    if f, q :| f in files && Spells(f.path, q) && Canonical(q) && Covers(q, p) {
      CleanFindsPath(f.path, q);
      HidesIsCovers(q, p);
    }
  }

  /** Some layer spells the path and no later one has a marker that covers it. */
  ghost predicate Shown(stack: seq<seq<FileEntry>>, p: string)
  {
    exists i :: 0 <= i < |stack| && Listed(stack[i], p) && forall j | i < j < |stack| :: !Covered(stack[j], p)
  }

  /** A path that is not named as a marker is in the view exactly when it is shown. */
  lemma {:induction false} VisibleMeaning(stack: seq<seq<FileEntry>>, p: string)
    requires Canonical(p) && forall files | files in stack :: CanonicalFiles(files)
    ensures Visible(stack, p) <==> Shown(stack, p) && !MarkerNamed(p)
  {
    forall i | 0 <= i < |stack|
      ensures Kills(stack[i], p) <==> Covered(stack[i], p)
      ensures Holds(stack[i], p) <==> Listed(stack[i], p) && !MarkerNamed(p)
    {
      assert stack[i] in stack;
      KillsMeaning(stack[i], p);
      HoldsMeaning(stack[i], p);
    }
    if i :| 0 <= i < |stack| && Holds(stack[i], p) && Undisturbed(stack, i, p) {
      assert Shown(stack, p);
    }
    if Shown(stack, p) && !MarkerNamed(p) {
      var i :| 0 <= i < |stack| && Listed(stack[i], p) && forall j | i < j < |stack| :: !Covered(stack[j], p);
      assert Undisturbed(stack, i, p);
    }
  }

  /** The last file of a layer that spells the path, filed under the path itself. */
  ghost predicate LastListed(files: seq<FileEntry>, p: string, f: FileEntry)
  {
    exists k :: 0 <= k < |files| && Spells(files[k].path, p) && f == files[k].(path := p)
                && forall l | k < l < |files| :: !Spells(files[l].path, p)
  }

  lemma {:induction false} PlacedIsLast(files: seq<FileEntry>, p: string)
    requires Canonical(p) && Holds(files, p)
    ensures LastListed(files, p, Placed(files, p))
  {
    var rest, last := files[..|files| - 1], files[|files| - 1];
    assert files == rest + [last];
    CleanFindsPath(last.path, p);
    HoldsMeaning(files, p);
    if Places(last, p) {
      assert files[|files| - 1] == last && Spells(last.path, p);
    } else {
      PlacedIsLast(rest, p);
      HidesIsCovers(p, p);
      LastStays(rest, last, p, Placed(rest, p));
    }
  }

  lemma LastStays(rest: seq<FileEntry>, last: FileEntry, p: string, f: FileEntry)
    requires LastListed(rest, p, f) && !Spells(last.path, p)
    ensures LastListed(rest + [last], p, f)
  {
    var files := rest + [last];
    var k :| 0 <= k < |rest| && Spells(rest[k].path, p) && f == rest[k].(path := p)
             && forall l | k < l < |rest| :: !Spells(rest[l].path, p);
    assert files[k] == rest[k];
    forall l | k < l < |files|
      ensures !Spells(files[l].path, p)
    {
      assert files[l] == if l < |rest| then rest[l] else last;
    }
  }

  /**
   What the code computes, on canonical paths: a path is in the view exactly when
   it is shown and not named as a marker, and then with the last file the last
   layer listing it has for it.
   */
  lemma {:induction false} ViewMeaning(stack: seq<seq<FileEntry>>, view: map<string, ViewEntry>, p: string)
    requires IsView(stack, view) && Canonical(p) && forall files | files in stack :: CanonicalFiles(files)
    ensures p in view <==> Shown(stack, p) && !MarkerNamed(p)
    ensures p in view ==>
              var i := view[p].layer;
              && i < |stack| && LastListed(stack[i], p, view[p].file)
              && forall j | i < j < |stack| :: !Listed(stack[j], p) && !Covered(stack[j], p)
  {
    assert RightAt(stack, view, p);
    VisibleMeaning(stack, p);
    if p in view {
      PlacedIsLast(stack[view[p].layer], p);
      forall j | view[p].layer < j < |stack|
        ensures !Listed(stack[j], p) && !Covered(stack[j], p)
      {
        assert stack[j] in stack;
        KillsMeaning(stack[j], p);
        HoldsMeaning(stack[j], p);
      }
    }
  }

  /**
   A layer with one whiteout, in a directory or at the root, with or without
   slashes around its path: what it names is taken out of the view with what is
   below it, and nothing else.
   */
  lemma {:induction false} WhiteoutDeletes(lower: seq<FileEntry>, f: FileEntry, d: string, n: string, p: string)
    requires (d != "" ==> Canonical(d)) && Name(n) && n != ".wh..opq" && Spells(f.path, Under(d, ".wh." + n))
    requires Canonical(p)
    ensures Kills([f], p) <==> p == Under(d, n) || Above(Under(d, n), p)
    ensures Visible([lower, [f]], p) <==> Holds(lower, p) && !(p == Under(d, n) || Above(Under(d, n), p))
  {
    MarkerIsCanonical(d, n);
    OneMarker(f, Under(d, ".wh." + n), d, n, p);
    VisibleOnTop([], lower, p);
    VisibleOnTop([lower], [f], p);
    assert [] + [lower] == [lower] && [lower] + [[f]] == [lower, [f]];
  }

  lemma {:induction false} OneMarker(f: FileEntry, q: string, d: string, n: string, p: string)
    requires Marks(q, d, n) && Canonical(q) && Canonical(p) && Spells(f.path, q)
    ensures (Kills([f], p) <==> Takes(d, n, p)) && !Holds([f], p)
  {
    CleanFindsPath(f.path, q);
    MarkTakes(q, d, n, p);
    HidesIsCovers(q, p);
    assert MarkerNamed(q);
    assert f in [f];
  }

  lemma {:induction false} MarkerIsCanonical(d: string, n: string)
    requires (d != "" ==> Canonical(d)) && Name(n)
    ensures Canonical(Under(d, ".wh." + n))
  {
    assert forall c | c in ".wh." + n :: c in ".wh." || c in n;
    JoinSplits(d, ".wh." + n);
    assert Name(".wh." + n);
  }

  // ---------- where the view departs from the specification ----------

  /** What the specification wants an opaque marker to cover: everything inside its directory. */
  predicate Inside(directory: string, p: string)
  {
    directory == "." || Above(directory, p)
  }

  /**
   An opaque marker hides what the specification says exactly when its directory
   is not the root: a marker at the root is read with the directory "." and
   hides nothing.
   */
  lemma {:induction false} OpaqueMarkerCovers(marker: string, p: string)
    requires Canonical(marker) && Base(marker) == OPAQUE_MARKER && Canonical(p)
    ensures (Hides(MarkOf(marker), p) <==> Inside(Dir(marker), p)) <==> Dir(marker) != "."
  {
    CanonicalIsKey(p);
    if Above(".", p) { AboveIsCanonical(".", p); }
  }

  /** The layer has something other than a directory at a path. */
  ghost predicate Replaces(files: seq<FileEntry>, d: string)
  {
    Holds(files, d) && !IsDir(Placed(files, d))
  }

  /** The layer has something inside a path, which makes a directory of it whether the layer names it or not. */
  ghost predicate HoldsInside(files: seq<FileEntry>, p: string)
  {
    exists q :: Holds(files, q) && Above(p, q)
  }

  /**
   What the specification takes away besides what the code does: what was inside
   a replaced directory, a file that is a directory from this layer on, and
   everything at a root marker.
   */
  ghost predicate AlsoHides(files: seq<FileEntry>, p: string, entry: FileEntry)
  {
    || (exists d :: Replaces(files, d) && Above(d, p))
    || (!IsDir(entry) && HoldsInside(files, p))
    || (exists f :: f in files && Clean(f.path) == ".wh..wh..opq")
  }

  /** No layer after this one takes away what the specification alone takes away. */
  ghost predicate Unhidden(stack: seq<seq<FileEntry>>, i: nat, p: string)
    requires i < |stack| && Holds(stack[i], p)
  {
    forall j | i < j < |stack| :: !AlsoHides(stack[j], p, Placed(stack[i], p))
  }

  /** The last layer that has the path, when no later one takes it away as the specification has it. */
  ghost predicate SpecShows(stack: seq<seq<FileEntry>>, i: nat, p: string)
  {
    IsSource(stack, i, p) && Undisturbed(stack, i, p) && Unhidden(stack, i, p)
  }

  ghost predicate SpecVisible(stack: seq<seq<FileEntry>>, p: string)
  {
    exists i :: SpecShows(stack, i, p)
  }

  ghost predicate SpecRightAt(stack: seq<seq<FileEntry>>, view: map<string, ViewEntry>, p: string)
  {
    && (p in view <==> SpecVisible(stack, p))
    && (p in view ==> SpecShows(stack, view[p].layer, p) && view[p].file == Placed(stack[view[p].layer], p))
  }

  ghost predicate IsSpecView(stack: seq<seq<FileEntry>>, view: map<string, ViewEntry>)
  {
    forall p :: SpecRightAt(stack, view, p)
  }

  /** What the code shows at a path, nothing after it hides in the sense of the specification alone. */
  ghost predicate Untouched(stack: seq<seq<FileEntry>>, p: string)
  {
    forall i | IsSource(stack, i, p) && Undisturbed(stack, i, p) :: Unhidden(stack, i, p)
  }

  lemma SpecAt(stack: seq<seq<FileEntry>>, view: map<string, ViewEntry>, p: string)
    requires RightAt(stack, view, p)
    ensures SpecRightAt(stack, view, p) <==> Untouched(stack, p)
  {
    if p in view {
      var i := view[p].layer;
      if i' :| SpecShows(stack, i', p) { SourceUnique(stack, i, i', p); }
      if Untouched(stack, p) {
        assert SpecShows(stack, i, p);
      } else {
        var k :| IsSource(stack, k, p) && Undisturbed(stack, k, p) && !Unhidden(stack, k, p);
        SourceUnique(stack, i, k, p);
      }
    }
  }

  /**
   The view the code computes is the one the specification asks for exactly when
   nothing it shows lies inside a directory that a later layer replaces, is a file
   with something inside it in a later layer, or is followed by a layer with an
   opaque marker at its root.
   */
  lemma ViewMeetsSpecification(stack: seq<seq<FileEntry>>, view: map<string, ViewEntry>)
    requires IsView(stack, view)
    ensures IsSpecView(stack, view) <==> forall p :: Untouched(stack, p)
  {
    forall p
      ensures SpecRightAt(stack, view, p) <==> Untouched(stack, p)
    {
      assert RightAt(stack, view, p);
      SpecAt(stack, view, p);
    }
  }

  /** Only directories have something inside them. */
  ghost predicate TreeLike(files: seq<FileEntry>)
  {
    forall p, q | Holds(files, p) && Holds(files, q) && Above(p, q) :: IsDir(Placed(files, p))
  }

  /** Layers that could each be unpacked on their own have a specified view that could be. */
  lemma SpecViewIsTree(stack: seq<seq<FileEntry>>, view: map<string, ViewEntry>, p: string, q: string)
    requires IsSpecView(stack, view) && forall files | files in stack :: TreeLike(files)
    requires p in view && q in view && Above(p, q)
    ensures IsDir(view[p].file)
  {
    assert SpecRightAt(stack, view, p) && SpecRightAt(stack, view, q);
    var i, j := view[p].layer, view[q].layer;
    if i < j {
      assert HoldsInside(stack[j], p);
    } else if j < i {
      assert !AlsoHides(stack[i], q, Placed(stack[j], q));
    } else {
      assert stack[i] in stack;
    }
  }

  /** A file over a directory: what was inside the directory is still in the view, and the specification hides it. */
  lemma ReplacedDirectoryKeepsChildren(lower: seq<FileEntry>, upper: seq<FileEntry>, d: string, child: string)
    requires Holds(lower, child) && Above(d, child) && Replaces(upper, d) && !Holds(upper, child)
    ensures Visible([lower, upper], child) <==> !Kills(upper, child)
    ensures !SpecVisible([lower, upper], child)
  {
    HiddenOnTop(lower, upper, child);
  }

  /** A path inside a file: the file is still in the view unless the layer names it, and the specification hides it. */
  lemma {:induction false} FileStaysAboveChild(lower: seq<FileEntry>, upper: seq<FileEntry>, d: string, child: string)
    requires Holds(lower, d) && !IsDir(Placed(lower, d)) && Holds(upper, child) && Above(d, child) && !Holds(upper, d)
    ensures Visible([lower, upper], d) <==> !Kills(upper, d)
    ensures Visible([lower, upper], child) && !SpecVisible([lower, upper], d)
  {
    assert HoldsInside(upper, d);
    HiddenOnTop(lower, upper, d);
    VisibleOnTop([lower], upper, child);
    assert [lower] + [upper] == [lower, upper];
  }

  lemma {:induction false} HiddenOnTop(lower: seq<FileEntry>, upper: seq<FileEntry>, p: string)
    requires Holds(lower, p) && AlsoHides(upper, p, Placed(lower, p)) && !Holds(upper, p)
    ensures Visible([lower, upper], p) <==> !Kills(upper, p)
    ensures !SpecVisible([lower, upper], p)
  {
    VisibleOnTop([], lower, p);
    VisibleOnTop([lower], upper, p);
    var stack := [lower, upper];
    assert [] + [lower] == [lower] && [lower] + [upper] == stack;
    assert stack[0] == lower && stack[1] == upper;
    assert !Unhidden(stack, 0, p);
  }
}
