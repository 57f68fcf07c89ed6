/**
 The launch check from end to end, and what an accepted tree holds in terms of
 the records of the state alone: which path, which kind, which size, which target
 and which permission bits.
 */
module LaunchCheck {
  import opened Common
  import opened CheckoutRecords
  import opened CheckoutWalk
  import opened PathParents
  import opened CheckoutExpected
  import opened Markers

  // ---------- what a record asks for ----------

  /** Some marker of the state deletes the path: it lies beside it, under its name behind the prefix. */
  ghost predicate Marked(st: State, p: string)
  {
    exists d, n :: n != "" && '/' !in n && n != ".wh..opq" && p == Under(d, n) && Under(d, ".wh." + n) in st
  }

  ghost predicate OpaqueIn(st: State, d: string)
  {
    d != "" && d + "/.wh..wh..opq" in st
  }

  /** A record that is written under its own path. */
  ghost predicate Written(st: State, p: string)
  {
    p in st && (st[p].kind == Of(Directory) || !MarkerNamed(p))
  }

  /** Something is written strictly below the path, or an opaque marker lies in it. */
  ghost predicate HoldsInside(st: State, p: string)
  {
    OpaqueIn(st, p) || exists q :: Above(p, q) && (OpaqueIn(st, q) || Marked(st, q) || Written(st, q))
  }

  /**
   The sticky bit and the bits for reading, writing and executing are those of
   the record; setuid and setgid are clear.
   */
  predicate BitsOf(mode: nat, recorded: nat)
  {
    mode % 4096 < 1024 && (mode - recorded) % 1024 == 0
  }

  /** The object a record that is not a directory is found as. */
  predicate FoundAs(n: Node, r: FileEntry)
  {
    n.Object? &&
    match r.kind
    case Unset => n.kind == File && n.size == r.size && BitsOf(n.mode, r.mode)
    case Of(File) => n.kind == File && n.size == r.size && BitsOf(n.mode, r.mode)
    case Of(Symlink) => n.kind == Symlink && n.link == r.link && n.mode % 4096 == 7 * 64 + 7 * 8 + 7
    case Of(Fifo) => n.kind == Fifo && n.size == 0
    case _ => false
  }

  /** An empty file that only its owner can read and write. */
  predicate FoundAsMarker(n: Node)
  {
    n.Object? && n.kind == File && n.size == 0 && n.mode % 4096 == 6 * 64
  }

  /** What stands at one path of a tree that was prepared from the records. */
  ghost predicate HoldsAt(root: Node, st: State, p: string)
    requires root.Folder?
  {
    var found := At(root, p);
    if p in st && st[p].kind == Of(Directory) then
      found.Some? && found.value.Folder? && BitsOf(found.value.mode, st[p].mode)
    else if HoldsInside(st, p) then found.Some? && found.value.Folder?
    else if p in st && !MarkerNamed(p) then found.Some? && FoundAs(found.value, st[p])
    else if Marked(st, p) then found.Some? && FoundAsMarker(found.value)
    else found.None?
  }

  ghost predicate HoldsState(root: Node, st: State)
    requires root.Folder?
  {
    forall p :: HoldsAt(root, st, p)
  }

  /** A kind no checkout can hold. */
  predicate Refused(r: FileEntry)
  {
    match r.kind
    case Foreign(_) => true
    case Of(kind) => kind.Socket? || kind.CharDevice? || kind.BlockDevice? || kind.Unknown?
    case _ => false
  }

  // ---------- the passes, said in those terms ----------

  lemma TargetOfMarker(d: string, n: string)
    requires n != "" && '/' !in n && n != ".wh..opq" && Canonical(Under(d, ".wh." + n))
    ensures WhiteoutTarget(Under(d, ".wh." + n)) == Deletes(Under(d, n))
  {
    var m := Under(d, ".wh." + n);
    assert forall c | c in ".wh." + n :: c in ".wh." || c in n;
    JoinSplits(d, ".wh." + n);
    PrefixPut(n);
    CanonicalIsKey(m);
    ParentOfKey(m);
  }

  lemma TargetWasMarked(m: string) returns (d: string, n: string)
    requires Canonical(m) && WhiteoutTarget(m).Deletes?
    ensures n != "" && '/' !in n && n != ".wh..opq"
    ensures m == Under(d, ".wh." + n) && WhiteoutTarget(m).path == Under(d, n)
  {
    TargetShape(m);
    d, n := MarkerFromBack(m);
    PrefixPut(n);
  }

  lemma MarkedIsTarget(st: State, p: string)
    requires ValidState(st)
    ensures Marked(st, p) <==> p in Targets(st)
  {
    if Marked(st, p) {
      var d, n :| n != "" && '/' !in n && n != ".wh..opq" && p == Under(d, n) && Under(d, ".wh." + n) in st;
      TargetOfMarker(d, n);
    }
    if p in Targets(st) {
      var m :| m in st && WhiteoutTarget(m).Deletes? && WhiteoutTarget(m).path == p;
      var d, n := TargetWasMarked(m);
    }
  }

  lemma OpaqueJoined(d: string)
    requires d != ""
    ensures d + "/.wh..wh..opq" == d + "/" + OPAQUE_MARKER
  {
    assert "/.wh..wh..opq" == "/" + OPAQUE_MARKER;
  }

  lemma OpaqueInIsParent(st: State, d: string)
    requires ValidState(st)
    ensures OpaqueIn(st, d) <==> d in OpaqueParents(st)
  {
    if OpaqueIn(st, d) {
      OpaqueJoined(d);
      var m := d + "/" + OPAQUE_MARKER;
      ChildSplits(d, OPAQUE_MARKER);
      CanonicalIsKey(m);
      ParentOfKey(m);
      assert Opaque(m);
    }
    if d in OpaqueParents(st) {
      var m :| m in st && Opaque(m) && Dir(m) == d;
      var e := SplitJoins(m);
      OpaqueJoined(d);
    }
  }

  lemma WrittenIsPlain(st: State, p: string)
    requires ValidState(st)
    ensures Written(st, p) <==> p in st && (IsDir(st[p]) || Plain(st[p]))
  {
    if p in st { MarkerNames(p); }
  }

  lemma {:induction false} InsideIsHeld(st: State, p: string)
    requires ValidState(st)
    ensures HoldsInside(st, p) <==> HoldsSomething(st, p)
  {
    OpaqueInIsParent(st, p);
    forall q
      ensures OpaqueIn(st, q) <==> q in OpaqueParents(st)
      ensures Marked(st, q) <==> q in Targets(st)
      ensures Written(st, q) <==> q in st && (IsDir(st[q]) || Plain(st[q]))
    {
      OpaqueInIsParent(st, q);
      MarkedIsTarget(st, q);
      WrittenIsPlain(st, q);
    }
  }

  // ---------- one object ----------

  lemma BitsAgree(mode: nat, recorded: nat)
    ensures mode % 4096 == CheckoutMode(recorded) % 4096 <==> BitsOf(mode, recorded)
  {
    var a, b := mode % 4096, recorded % 1024;
    assert mode - recorded == 1024 * (4 * (mode / 4096) - recorded / 1024) + (a - b);
    if (mode - recorded) % 1024 == 0 {
      assert a - b == 1024 * ((mode - recorded) / 1024 - 4 * (mode / 4096) + recorded / 1024);
    }
  }

  lemma {:induction false} DirectoryMatches(n: Node, r: FileEntry)
    requires ValidTree(n)
    ensures CheckoutWalk.Matches(n, NamedDirectory(r)) <==> n.Folder? && BitsOf(n.mode, r.mode)
  {
    BitsAgree(n.mode, r.mode);
  }

  lemma {:induction false} ImpliedMatches(n: Node, p: string)
    requires ValidTree(n)
    ensures CheckoutWalk.Matches(n, ImpliedDirectory(p)) <==> n.Folder?
  {
  }

  lemma {:induction false} RecordMatches(n: Node, r: FileEntry)
    requires ValidTree(n) && Derivable(r)
    ensures CheckoutWalk.Matches(n, DeriveEntry(r).value) <==> FoundAs(n, r)
  {
    BitsAgree(n.mode, r.mode);
  }

  lemma {:induction false} MarkerMatches(n: Node, p: string)
    requires ValidTree(n)
    ensures CheckoutWalk.Matches(n, WhiteoutEntry(p)) <==> FoundAsMarker(n)
  {
  }

  // ---------- what an accepted tree holds ----------

  lemma {:induction false} HoldsAtIsAgreement(root: Node, st: State, p: string)
    requires root.Folder? && ValidTree(root) && ValidState(st) && DerivableState(st)
    ensures HoldsAt(root, st, p) <==>
            var e := Expected(st);
            if p in e then At(root, p).Some? && CheckoutWalk.Matches(At(root, p).value, e[p]) else At(root, p).None?
  {
    ExpectedAt(st, p);
    InsideIsHeld(st, p);
    MarkedIsTarget(st, p);
    if p in st { MarkerNames(p); }
    if At(root, p).Some? {
      FoundIsValid(root, p);
      var n := At(root, p).value;
      if p in st { DirectoryMatches(n, st[p]); }
      ImpliedMatches(n, p);
      if p in st && Plain(st[p]) { RecordMatches(n, st[p]); }
      MarkerMatches(n, p);
    }
  }

  /** A tree agrees with the shape of a state exactly when it holds what the records ask for, and nothing else. */
  lemma {:induction false} AgreementIsMeaning(root: Node, st: State)
    requires root.Folder? && ValidTree(root) && ValidState(st) && DerivableState(st)
    ensures Agrees(root, Expected(st)) <==> HoldsState(root, st)
  {
    forall p
      ensures HoldsAt(root, st, p) <==>
              var e := Expected(st);
              if p in e then At(root, p).Some? && CheckoutWalk.Matches(At(root, p).value, e[p]) else At(root, p).None?
    {
      HoldsAtIsAgreement(root, st, p);
    }
  }

  /** Underivable states are those with a record of a refused kind that is not named as a marker. */
  lemma {:induction false} DerivableMeaning(st: State)
    requires ValidState(st)
    ensures DerivableState(st) <==> forall p | p in st :: Refused(st[p]) ==> MarkerNamed(p)
  {
    forall p | p in st
      ensures (Plain(st[p]) ==> Derivable(st[p])) <==> (Refused(st[p]) ==> MarkerNamed(p))
    {
      MarkerNames(p);
    }
  }

  /**
   The launch check from end to end: derive the shape from the state, walk the
   tree, compare. It answers for exactly the states without a record of a kind no
   checkout can hold, and accepts exactly the trees that hold what the records
   ask for.
   */
  method VerifyPreparedCheckout(entries: seq<FileEntry>, root: Node) returns (r: CheckoutExpected.Result<bool>)
    requires Distinct(entries) && ValidState(StateOf(entries))
    requires root.Folder? && ValidTree(root)
    ensures r.Ok? <==> forall e | e in entries :: Refused(e) ==> MarkerNamed(e.path)
    ensures r.Err? ==> exists e :: e in entries && e.path == r.path && Refused(e) && !MarkerNamed(e.path)
    ensures r.Ok? ==> (r.value <==> HoldsState(root, StateOf(entries)))
  {
    ghost var st := StateOf(entries);
    RefusedEntries(entries);
    var expected := ExpectedCheckoutEntries(entries);
    if expected.Err? {
      RefusedEntry(entries, expected.path);
      return CheckoutExpected.Err(expected.path);
    }
    var digest, loose := DigestShape(expected.value);
    var measurement := MeasureTree(root, loose);
    ExpectedIsValid(st);
    MeasurementsAgree(root, expected.value);
    AgreementIsMeaning(root, st);
    r := CheckoutExpected.Ok(measurement == digest);
  }

  lemma {:induction false} RefusedEntries(entries: seq<FileEntry>)
    requires Distinct(entries) && ValidState(StateOf(entries))
    ensures DerivableState(StateOf(entries)) <==> forall e | e in entries :: Refused(e) ==> MarkerNamed(e.path)
  {
    var st := StateOf(entries);
    DerivableMeaning(st);
    forall e | e in entries
      ensures e.path in st && st[e.path] == e
    {
      StateHolds(entries, e);
    }
    forall p | p in st
      ensures st[p] in entries && st[p].path == p
    {
      StateHolds(entries, st[p]);
    }
  }

  lemma {:induction false} RefusedEntry(entries: seq<FileEntry>, path: string)
    requires Distinct(entries) && ValidState(StateOf(entries)) && Underivable(entries, path)
    ensures exists e :: e in entries && e.path == path && Refused(e) && !MarkerNamed(e.path)
  {
    var e :| e in entries && e.path == path && Plain(e) && !Derivable(e);
    StateHolds(entries, e);
    MarkerNames(path);
  }
}
