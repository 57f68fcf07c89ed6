# A verified model of the cpak core

cpak installs applications whose files come as OCI image layers, measures what
it stored, and decides what may be replaced, removed or enrolled. This project
models the parts of it where a mistake would be hard to see, and proves what
they are for. `dafny verify dfyconfig.toml` checks all of it.

| file | what it covers |
|---|---|
| `Paths.dfy` | the component-wise path order, sorting, parents and ancestors of paths |
| `CheckoutRecords.dfy` | the record format both sides of a measurement write, and why it reads back one way only |
| `CheckoutExpected.dfy` | what a checkout of a state must hold: the passes, the parent closure, the closed form |
| `CheckoutWalk.dfy` | the recursive walk of a tree, and when its digest is the derived one |
| `LaunchCheck.dfy`, `Markers.dfy` | the launch check from end to end, and what an accepted tree holds in terms of the records alone |
| `CheckoutTree.dfy` | the tree a shape describes, and which states have a checkout at all |
| `OverlayView.dfy` | the merged view of a stack of layers with whiteouts |
| `DepthFirst.dfy`, `Composition.dfy`, `Orchestration.dfy` | the three-colour search and its two users: layer dependencies and start order |
| `Capsule.dfy` | the signed installer capsule: writing, reading from the end, round trip |
| `Addons.dfy` | the addon configuration and the resolver that reads it |
| `StoreEvents.dfy` | what every command leaves on disk wherever it stops, the transaction log, and what every run keeps |
| `UndoHistory.dfy` | the bounded history as the top of an undo stack, and what a rollback undoes |
| `LayerStore.dfy` | the store itself under install, update, rollback, recovery, removal, collection and migration |
| `Enrolment.dfy` | signature selection, where the evidence comes from, the confirmation exchange |
| `Ledger.dfy` | the ledger of anchors: what it refuses, and generations |
| `PermissionUpdate.dfy` | permission approval across a manifest that may change between check and use |
| `DesktopExec.dfy`, `DesktopFileSpan.dfy`, `SanitizeText.dfy`, `Text.dfy` | the text codecs |
| `Common.dfy` | what several components share |

## How the model reads the system

* A digest is modelled by the bytes it is taken over, so "equal digests" is
  "equal streams". Signatures, metadata decoding and hashing are parameters of
  the capsule reader.
* Code that updates state is imperative here too. `RunningDigest`, `Search`,
  `AddonSettings` and `Store` are classes; the passes over a map, the climbs,
  the scanners and the loops over layers are methods with invariants. Each is
  proved against a definition that does not mention the loop.
* A command on the store is a list of events, one for each point it can stop at,
  so a run with failures in it is a run of events. `After` says what each leaves;
  the methods of `Store` are proved to leave exactly that.
* What comes from outside (the registry, the system authority, the person who
  is asked, the files of a disk) is a parameter that may answer anything, or a
  choice the proofs hold for either way. A step that touches the disk may fail
  and the command then stops where it is; a file written atomically is one
  assignment.
* Maps are walked in an arbitrary order, so nothing proved depends on one.
* What the code and a specification of it both compute with (a mode, a marker, a
  rule, a candidate) is also said without that computation, in lemmas whose names
  end in `Meaning` or `Holds`.

Places where the code does not do what one would expect, kept as they are, each
with its exact condition:

* An opaque marker at the root of a layer is read with directory `.` and hides
  nothing, where the "Whiteouts" section of the OCI Image Format Specification
  has it hide everything below; a file that replaces a directory does not drop
  what the directory held (`ReplacedDirectoryKeepsChildren`); and a path inside
  what was a file leaves the file there when the layer does not name the
  directory (`FileStaysAboveChild`). `ViewMeetsSpecification` says for which
  stacks the view is still the one the specification asks for, and
  `SpecViewIsTree` that this one could be unpacked.
* In the merged view a marker without a name, or for a dot name, takes away its
  own directory or the one around it (`KillsMeaning`).
* A marker named `.wh..` or `.wh...` deletes a dot name, and the derivation then
  expects an entry no directory can hold; a symlink without a possible target or
  a file of negative size is expected as it stands. `StateHasCheckout` proves
  that those are the states without a checkout that passes.
* Packing without a brand icon is not always undone by reading. `Unambiguous` is
  the exact condition, `AmbiguousInstaller` the inputs that fail it in the
  plainest way. A hidden footer whose length is zero does no harm.
* An update that fails leaves an open transaction, and neither a removal nor a
  collection looks at the log. Recovery can then put back a record whose layers
  are gone: `FailedUpdateThenRemoval` and `InterruptedRollbackThenCollection`.
  Recovery is safe exactly when every record it can put back is complete
  (`RecoveryKeepsWhole`); that is the previous record, and the updated one too
  where the two have different identifiers, because `replaceApplication` stores
  it again when the previous one cannot be stored. `RemovalIsGuarded` and
  `CollectionIsGuarded` are what a caller would have to look up before, and with
  them everything is kept over every run (`RunKeepsSound`, `GuardIsExact`).
* An update that fails once its record is saved leaves a duplicate in the
  history: the next rollback undoes nothing, and a full history has lost its
  oldest entry (`FailedUpdateThenRollback`). A rollback changes what is installed
  exactly when the record saved last is not the one installed
  (`RollbackChanges`).
* The installations of one origin share one history, and a rollback replaces
  whichever of their records the store answers with. With two of them it can
  drop one that nobody updated (`OtherInstallationIsLost`). A completed update is
  undone by the rollback of a record exactly when that is the record the update
  installed and it took no other's place (`UpdateIsUndone`). It is undone
  whichever record is taken exactly when, besides, the origin has one
  installation (`UndoneWhicheverIsTaken`, `RollbackIsDetermined`). For such an
  origin this carries over to every run of updates and rollbacks (`RunPlays`,
  `RollbacksUndoRun`).
* A re-enrolment takes its evidence from the ledger and never asks the registry,
  so it can offer an unsigned anchor although a valid signature is attached
  (`ReenrolmentNeverLooks`, `UnsignedMeansNothingAttached`). A comment at
  pkg/cpak/enrol.go:560-564 says that the application then goes back to being
  unsigned; the order of the ledger admits that offer only when it remembers no
  signature (`UnsignedIsAdmitted`), and a host that requires signatures, or its
  trust policy, may still refuse it.
* The ledger accepts a generation it already holds. Generations are used once
  exactly when every offer was made above the floor (`GenerationsIncrease`); two
  enrolments that read the same floor share one (`SameFloorTwice`).
* Installations of one origin that are updated together share one slot of
  approvals, and the last request fills it. When the user agreed to everything and
  no manifest changes in between, nobody is denied exactly when the last request
  of each origin asks for all the others asked for (`NobodyIsDenied`);
  `ApprovalReplaced` is an update of two installations in which the first is
  denied. A manifest that grants state of cpak itself is refused only when it is
  applied (pkg/cpak/apps.go:302): it fails instead of being denied, and counts
  here as a fetch that changed.

A command whose program is written unquoted is trimmed before it is parsed, so
`ExecutableRecovered` is an if-and-only-if over the white space at its ends.

## Model

| member | source | states |
|---|---|---|
| `Paths.BeforeCheckoutPath` | pkg/cpak/checkout.go:298-310 | The loop over two shrinking paths decides the recursive component-wise order. |
| `Paths.BeforeMeaning` | pkg/cpak/checkout.go:294-310 | A path comes before another if and only if they share their components up to one where it has the smaller name, or where it ends and the other goes on. |
| `Paths.LessMeaning` | pkg/cpak/checkout.go:294-310 | A name is smaller if and only if the two agree up to a byte where it ends or has the smaller one. |
| `Paths.BeforeTrichotomy` | pkg/cpak/checkout.go:294-310 | Of two different paths exactly one comes before the other, and no path before itself. |
| `Paths.BeforeTransitive` | pkg/cpak/checkout.go:294-310 | The order is transitive. |
| `Paths.SortedUnique` | pkg/cpak/checkout.go:143-152 | Two sorted listings of the same paths are the same sequence. |
| `Paths.SortPaths` | pkg/cpak/checkout.go:143-152 | Sorting a set of paths gives its one sorted listing. |
| `CheckoutRecords.RecordReadsOneWay` | pkg/cpak/checkout.go:791-802 | If two records followed by anything are the same bytes, the records say the same and what follows is the same, whatever newlines the names hold. |
| `CheckoutRecords.StreamReadsOneWay` | pkg/cpak/checkout.go:791-802 | Two sequences of well-formed entries with the same stream say the same, entry for entry. |
| `CheckoutRecords.MeasurementSeparates` | pkg/cpak/checkout.go:703-707 | Behind the domain header, equal measurements are equal views and conversely. |
| `CheckoutRecords.RunningDigest.Write` | pkg/cpak/checkout.go:796-802 | Writing an entry appends its record, and the bytes stay the measurement of what was written. |
| `CheckoutExpected.DeriveEntry` | pkg/cpak/checkout.go:226-242 | An entry is derived exactly when a checkout can hold its kind, under its own path and never as a directory. |
| `CheckoutExpected.ExpectedCheckoutEntries` | pkg/cpak/checkout.go:166-201 | Succeeds exactly when every plain entry is derivable, and then the passes compute the closed form of the state; otherwise it names an entry at fault. |
| `CheckoutExpected.StateIgnoresOrder` | pkg/cpak/checkout.go:166-201 | Two orders of the same entries with distinct paths are the same state, so the result cannot depend on the order. |
| `CheckoutExpected.WriteWhiteouts` | pkg/cpak/checkout.go:168-174 | The first pass writes exactly the whiteout targets. |
| `CheckoutExpected.WriteDirectories` | pkg/cpak/checkout.go:178-183 | The second pass overrides the first with the named directories. |
| `CheckoutExpected.WriteOthers` | pkg/cpak/checkout.go:184-197 | The third pass overrides both with the derived entries, or stops at one no checkout can hold. |
| `CheckoutExpected.AddOpaqueDirectories` | pkg/cpak/checkout.go:207-221 | Every directory an opaque marker lies in becomes a directory unless it is one already. |
| `CheckoutExpected.AddImplicitDirectories` | pkg/cpak/checkout.go:248-261 | Whatever order the names are visited in, the result is the parent closure: every proper ancestor an implied directory unless it already is a directory. |
| `CheckoutExpected.Climb` | pkg/cpak/checkout.go:253-260 | One climb, early exit included, leaves every visited name closed or covered by a name still to be visited. |
| `CheckoutExpected.ClimbStops` | pkg/cpak/checkout.go:254-258 | Why the early exit is sound: a directory met on the way up vouches for everything above it. |
| `CheckoutExpected.ExpectedAt` | pkg/cpak/checkout.go:162-201 | What stands at each path: a named directory, else an implied one where something lies below, else a file, else a whiteout, else nothing. |
| `CheckoutExpected.WithAncestorsCloses` | pkg/cpak/checkout.go:244-261 | After the closure every proper ancestor of every path is a directory. |
| `CheckoutExpected.ExpectedIsValid` | pkg/cpak/checkout.go:166-201 | The derived map is parent closed, filed under its own paths, and each of its records can be read back. |
| `CheckoutWalk.VisitsSorted` | pkg/cpak/checkout.go:713-747 | A depth-first walk with sorted names lists paths in the component-wise order. |
| `CheckoutWalk.VisitsHold` | pkg/cpak/checkout.go:713-747 | The walk lists exactly the objects that lookup by path finds. |
| `CheckoutWalk.MeasureEntries` | pkg/cpak/checkout.go:713-747 | The recursive walk appends the entries of its folder, in order, to what was written before. |
| `CheckoutWalk.MeasureTree` | pkg/cpak/checkout.go:681-698 | Measures the root and then everything the walk visits. |
| `CheckoutWalk.DigestShape` | pkg/cpak/checkout.go:136-158 | Digests the derived entries in sorted order behind the root, and lists exactly the paths whose mode is undecided. |
| `CheckoutWalk.MeasurementsAgree` | pkg/cpak/checkout.go:123-160 | Walk and derivation digest the same bytes if and only if the tree holds exactly the expected paths, each agreeing on kind, size, link, and mode where the state decides it. |
| `LaunchCheck.VerifyPreparedCheckout` | pkg/cpak/checkout.go:538-551 | The launch check from entry list to verdict: it refuses exactly the states with a record of a kind no checkout can hold, naming one, and accepts exactly the trees that hold what the records ask for. |
| `LaunchCheck.AgreementIsMeaning` | pkg/cpak/checkout.go:166-292 | A tree agrees with the derivation if and only if at every path it holds a named directory or a file with the nine permission bits and the sticky bit of its record and no setuid or setgid, of its kind, size or target; a directory where something lies below; an empty file of mode 0600 where a marker deletes; and nothing elsewhere. |
| `LaunchCheck.DerivableMeaning` | pkg/cpak/checkout.go:226-242 | What the derivation refuses: sockets, devices and unknown kinds, unless they are named as markers. |
| `LaunchCheck.MarkedIsTarget` | pkg/cpak/checkout.go:278-292 | The marker for a name in a directory deletes that name in that directory, and only such markers delete anything. |
| `CheckoutTree.BuiltAt` | pkg/cpak/checkout.go:162-201 | In the tree built from a parent-closed shape, following names is looking the joined path up in the shape. |
| `CheckoutTree.CheckoutExists` | pkg/cpak/checkout.go:123-160 | Some tree agrees with a parent-closed shape if and only if every path of it is canonical and every object one a file system can hold. |
| `CheckoutTree.StateHasCheckout` | pkg/cpak/checkout.go:166-292 | A derivable state has a checkout that passes the launch check if and only if no marker of it deletes a dot name and no record that stands as it is has a negative size or an impossible target. |
| `OverlayView.MergedEntries` | pkg/cpak/fvs_view.go:45-104 | The fold gives a view that is right at every path (present if and only if some layer places it and no later layer hides it, with the value of the last such layer), and fails only at a layer that is not available. |
| `OverlayView.ViewUnique` | pkg/cpak/fvs_view.go:45-104 | A stack has one such view, whatever order maps are walked in. |
| `OverlayView.VisibleOnTop` | pkg/cpak/fvs_view.go:54-101 | One more layer shows what it places and what was visible and it does not hide. |
| `OverlayView.DeleteEntry` | pkg/cpak/fvs_view.go:47-54 | Removes exactly a name and what lies below it. |
| `OverlayView.EmptyDirectory` | pkg/cpak/fvs_view.go:78-89 | Removes exactly what lies strictly below a directory. |
| `OverlayView.ApplyWhiteouts` | pkg/cpak/fvs_view.go:71-93 | The first pass of a layer keeps exactly the paths none of its markers hides. |
| `OverlayView.AddFiles` | pkg/cpak/fvs_view.go:94-101 | The second pass places the last file for each clean path and leaves the rest. |
| `OverlayView.ViewMeaning` | pkg/cpak/fvs_view.go:45-104 | Without cutting paths: a path is in the view if and only if some layer spells it, with slashes around or not, it is no marker, and no later layer has a marker that covers it; its value is the last file of the last layer listing it. |
| `OverlayView.KillsMeaning` | pkg/cpak/fvs_view.go:63-93 | A layer takes away exactly what its markers cover: a name with what is below it, the inside of a directory other than the root, and for a marker without a name or for a dot name its own directory or the one around it. |
| `OverlayView.WhiteoutDeletes` | pkg/cpak/fvs_view.go:91-92 | One whiteout, in a directory or at the root: exactly the name it is for and what is below it leave the view. |
| `OverlayView.OpaqueMarkerCovers` | pkg/cpak/fvs_view.go:78-89 | An opaque marker hides what is inside its directory if and only if that directory is not the root. |
| `OverlayView.ViewMeetsSpecification` | pkg/cpak/fvs_view.go:45-104 | The view the code computes is the one the specification asks for if and only if nothing it shows lies inside a directory that a later layer replaces with something else, is a file with something inside it in a later layer, or is followed by a layer with an opaque marker at its root; the condition is about the stack alone. |
| `OverlayView.SpecViewIsTree` | pkg/cpak/checkout.go:244-261 | In the specified view of layers that are each a tree, only directories have something inside them. |
| `OverlayView.FileStaysAboveChild` | pkg/cpak/fvs_view.go:94-101 | A file stays in the view under a path that a later layer has inside it, unless that layer names or deletes it, and the specification hides it. |
| `OverlayView.ReplacedDirectoryKeepsChildren` | pkg/cpak/fvs_view.go:94-101 | A child of a directory that was replaced by something else stays in the view unless a marker hides it, and the specification hides it. |
| `DepthFirst.Search.Enter` | pkg/cpak/composition.go:26-55 | Entering a node lists it after all it depends on, or ends at a real cycle or a broken dependency that the roots reach; terminates on every finite graph. |
| `DepthFirst.Search.Expand` | pkg/cpak/composition.go:36-51 | Entering every dependency of the innermost node resolves it, or explains why not. |
| `DepthFirst.Search.Begin` | cmd/orchestrate.go:199-199 | Marking a node active keeps the active nodes a path from a root and leaves fewer nodes to meet. |
| `DepthFirst.Search.Finish` | cmd/orchestrate.go:205-206 | Listing the innermost node keeps the listing ordered and without repeats. |
| `DepthFirst.FromRoot` | pkg/cpak/composition.go:21-61 | A search from one node that is active from the start: a reachable cycle or broken dependency, or a consistent order that resolves the node. |
| `DepthFirst.ActiveMeansCycle` | cmd/orchestrate.go:194-196 | Meeting an active node closes a cycle reachable from the roots. |
| `DepthFirst.PathDescends` | pkg/cpak/composition.go:21-61 | Along any path positions in a finished listing go strictly down. |
| `DepthFirst.ListedIsSound` | pkg/cpak/composition.go:21-61 | From a listed node only listed nodes are reached, none on a cycle and none with a broken dependency. |
| `Composition.ResolveLayerDependencies` | pkg/cpak/composition.go:21-61 | Succeeds if and only if no reachable application is on a cycle or has an unusable dependency; then lists exactly the reachable applications, once each, without the root, each after its own dependencies; an error names a real fault. |
| `Composition.Finished` | pkg/cpak/composition.go:21-61 | A completed search is such a resolution and rules out every fault. |
| `Composition.GraphMeaning` | pkg/cpak/composition.go:36-47 | An edge of the searched graph is a usable layer dependency, a broken one a dependency that is missing or of another origin. |
| `Composition.ComposedLayers` | pkg/cpak/composition.go:63-83 | The layers of a launch are the first occurrences in components, application and addons, in that order. |
| `Composition.FirstsMeaning` | pkg/cpak/composition.go:63-83 | First occurrences are without repeats and are exactly the non-empty layers listed. |
| `Composition.FirstsOfConcat` | pkg/cpak/composition.go:63-83 | Listing more never changes the place of a layer already listed. |
| `Orchestration.OrchestrationOrder` | cmd/orchestrate.go:159-215 | Malformed rules and unknown names are reported exactly when there are any; otherwise a cycle is reported only on a real cycle of the case-folded graph, and an order lists each application once after what it depends on and means there is no cycle. |
| `Orchestration.DeclaredMeaning` | cmd/orchestrate.go:159-175 | An application depends on another if and only if some rule has the one before its first equals sign and the other between its commas, in any case and with spaces around; several rules for one name add up. |
| `Text.TrimSpaceHolds` | cmd/orchestrate.go:163-168 | Trimming takes white space from both ends and leaves none there. |
| `Text.SplitHolds` | cmd/orchestrate.go:167-167 | Splitting gives exactly the parts between the separators. |
| `Orchestration.RuleMeaning` | cmd/orchestrate.go:161-175 | A rule is well formed if and only if something other than space stands before an equals sign, and then says just that. |
| `Orchestration.ReadRules` | cmd/orchestrate.go:160-173 | Reading succeeds exactly when every rule is well formed and collects what they declare. |
| `Orchestration.FindUnknown` | cmd/orchestrate.go:174-187 | Finds a name on either side of a rule that is not to be started, exactly when there is one. |
| `Orchestration.OrderNames` | cmd/orchestrate.go:188-214 | Over a closed graph: a real cycle, or an order and no cycle. |
| `Capsule.NumberOfLittleEndian` | pkg/bootstrap/capsule.go:342-347 | Reading a length written in enough bytes gives the length. |
| `Capsule.LittleEndianOfNumber` | pkg/bootstrap/capsule.go:342-347 | Writing a length read gives the bytes, so no bits are lost. |
| `Capsule.CheckedCapacity` | pkg/bootstrap/capsule.go:222-232 | Succeeds exactly when no part is negative and the sum fits, and then is the sum. |
| `Capsule.PackInstallerWithAssets` | pkg/bootstrap/capsule.go:165-183 | Succeeds exactly when everything fits, and is then the installer with its sections. |
| `Capsule.AppendSignedMetadata` | pkg/bootstrap/capsule.go:206-220 | Succeeds exactly for a signature of the right length that fits, and appends metadata, signature and footer. |
| `Capsule.AcceptedExactly` | pkg/bootstrap/capsule.go:234-306 | For every file of a size the platform allows: the reader returns this layout and these contents if and only if they tile the file, no optional section is passed over, and the metadata is signed, decodes, is valid, is for this architecture, and pins what lies in front. |
| `Capsule.MagicsSpell` | pkg/bootstrap/capsule.go:33-36 | What the four magics spell, byte for byte. |
| `Capsule.ByteOfLength` | pkg/bootstrap/capsule.go:342-347 | The bytes of a length come lowest first. |
| `Capsule.AcceptedTiles` | pkg/bootstrap/capsule.go:234-340 | Every accepted file is an installer followed without gap or overlap by the sections found, the signed metadata and its footer; what is returned are the bodies; the digest covers everything in front of the metadata. |
| `Capsule.PartsOfPacked` | pkg/bootstrap/capsule.go:270-301 | The payload is always found, and the optional parts are those found in front of it. |
| `Capsule.AssetsOfPacked` | pkg/bootstrap/capsule.go:280-321 | The optional parts read are those packed if and only if the packing is unambiguous. |
| `Capsule.RoundTrip` | pkg/bootstrap/capsule.go:165-340 | Pack, sign and read returns payload, companion, icon and metadata if and only if the packing is unambiguous. |
| `Capsule.AmbiguousInstaller` | pkg/bootstrap/capsule.go:308-321 | Any installer that ends like a companion section with a body, packed without one, is read back with that body as companion. |
| `Addons.NormalizedHolds` | pkg/cpak/addon.go:237-250 | Normalising keeps exactly the names that are listed in some spelling. |
| `Addons.OrderedHolds` | pkg/cpak/addon.go:698-710 | So does ordering. |
| `Addons.GroupBySlot` | pkg/cpak/addon.go:612-640 | Groups candidates by slot, and reports a slot of mixed modes exactly when there is one. |
| `Addons.ChooseProvider` | pkg/cpak/addon.go:641-668 | The choice in an exclusive slot: the one selected, else the first asked for, else the first; missing and ambiguous selections exactly when they are. |
| `Addons.OriginSetHolds` | pkg/cpak/addon.go:690-696 | The resolver reads a list as the set of names it holds in some spelling. |
| `Addons.ActiveAddonCandidates` | pkg/cpak/addon.go:574-680 | For any lists, saved or not, the resolver succeeds exactly on resolvable configurations, and then returns the active candidates in order. |
| `Addons.MatchesHold` | pkg/cpak/addon.go:341-346 | The matches of a selection are the considered origins that answer to the slot and the name. |
| `Addons.ActiveMeaning` | pkg/cpak/addon.go:574-680 | When resolution succeeds, an installed addon is active if and only if it is not disabled, is offered or chosen, is a provider or was asked for, and, where its slot is exclusive, is the one selected, or else the first asked for, or else the first. |
| `Addons.ActiveInOrder` | pkg/cpak/addon.go:673-679 | The active addons come in the order the package offers them in and the owner chose them in. |
| `Addons.DisableTakesEffect` | pkg/cpak/addon.go:591-593 | A disabled addon is not active afterwards. |
| `Addons.AddonSettings.EnableAddon` | pkg/cpak/addon.go:393-445 | Enabling makes the addon explicit, not disabled, and the holder of its exclusive slot, or changes nothing and says why. |
| `Addons.AddonSettings.DisableAddon` | pkg/cpak/addon.go:447-492 | Disabling succeeds exactly for an active addon; a provider stays disabled and gives up the slot it held. |
| `Addons.AddonSettings.SelectAddonProvider` | pkg/cpak/addon.go:334-378 | The four outcomes by the number of matches and the mode of the slot, and the whole new configuration when one is stored. |
| `Addons.EnableKeeps` | pkg/cpak/addon.go:393-445 | Enabling keeps the invariant. |
| `Addons.DisableKeeps` | pkg/cpak/addon.go:447-492 | Disabling keeps the invariant. |
| `Addons.SelectKeeps` | pkg/cpak/addon.go:334-378 | Selecting keeps the invariant. |
| `Addons.RunKeeps` | pkg/cpak/addon.go:334-492 | Over every run from the empty configuration: explicit and disabled disjoint, each selection an explicit exclusive provider of its slot. |
| `Addons.InvResolves` | pkg/cpak/addon.go:574-680 | Resolution never fails on a configuration that keeps the invariant. |
| `Addons.RunResolves` | pkg/cpak/addon.go:574-680 | Hence no configuration of any run has a missing or ambiguous selection. |
| `Addons.ExclusiveSlotHasOne` | pkg/cpak/addon.go:641-668 | A populated exclusive slot has exactly one active provider. |
| `Addons.SelectTakesEffect` | pkg/cpak/addon.go:334-378 | After a selection the one active provider of the slot is the one selected. |
| `Addons.EnableTakesEffect` | pkg/cpak/addon.go:393-445 | After enabling an exclusive provider it is the one active provider of its slot. |
| `StoreEvents.RestoringKeepsWhole` | pkg/cpak/transaction.go:66-103 | Recovering one open transaction keeps every named layer stored if and only if the record it puts back is complete. |
| `StoreEvents.RecoveryKeepsWhole` | pkg/cpak/transaction.go:66-103 | Recovery keeps the store whole whatever it comes to if and only if every record it can put back is complete. |
| `StoreEvents.CommandKeepsWhole` | pkg/cpak/gc.go:68-99 | Every other command keeps every layer of an installed or saved application stored, wherever it stops. |
| `StoreEvents.EventKeepsWhole` | pkg/cpak/transaction.go:66-103 | Nothing breaks a store in which also every record recovery can put back is complete. |
| `StoreEvents.EventKeepsRecoverable` | pkg/cpak/fvs_storage.go:167-214 | An event leaves it so if and only if it takes no layer that an open transaction names. |
| `StoreEvents.RunKeepsSound` | pkg/cpak/gc.go:68-99 | Over every run of installs, updates, rollbacks, recoveries, removals, collections and migrations, each of which may stop anywhere: as long as nothing an open transaction names was taken, all of that is kept. |
| `StoreEvents.GuardIsExact` | pkg/cpak/transaction.go:66-103 | After a guarded run, one more event passes the guard if and only if recovery afterwards is safe. |
| `StoreEvents.RemovalIsGuarded` | pkg/cpak/fvs_storage.go:167-214 | The guard of a removal before it is made: no open transaction names a layer only the removed records needed. |
| `StoreEvents.CollectionIsGuarded` | pkg/cpak/gc.go:68-99 | The guard of a collection: what it keeps includes the stored layers of open transactions. |
| `StoreEvents.FailedUpdateThenRemoval` | pkg/cpak/transaction.go:66-103 | A failed update, a removal and a recovery leave an installed record none of whose layers is stored. |
| `StoreEvents.InterruptedRollbackThenCollection` | pkg/cpak/history.go:121-165 | So do an interrupted rollback, a collection and a recovery. |
| `UndoHistory.UpdatesKeepRecent` | pkg/cpak/history.go:73-83 | After any updates the history is the last three of everything the line has been. |
| `UndoHistory.RollbacksUndoUpdates` | pkg/cpak/history.go:121-165 | The k-th rollback restores what was installed k updates ago, for as many as the history holds, and no more. |
| `UndoHistory.EventOnHistory` | pkg/cpak/history.go:73-83 | What every event leaves in the history of an origin, wherever its command stops: nothing, one more entry, one less, or none. |
| `UndoHistory.HistoryIsTop` | pkg/cpak/history.go:73-83 | Over every run of commands, whatever they stop at, the history is the bounded top of the undo stack of its origin. |
| `UndoHistory.RollbacksFollowStack` | pkg/cpak/history.go:121-165 | After every run, rollbacks in a row install the entries of that stack from the top, as far as the history reaches; every other record stays, but for those under the identifiers the rollbacks pass through. |
| `UndoHistory.RollbackChanges` | pkg/cpak/history.go:121-165 | A rollback changes what is installed if and only if the record saved last is not the one installed. |
| `UndoHistory.UpdateIsUndone` | pkg/cpak/history.go:121-165 | The rollback of a record of the origin takes a completed update back, record for record, if and only if it is the record the update installed, under an identifier that took no other's place. |
| `UndoHistory.UndoneWhicheverIsTaken` | pkg/cpak/store-db.go:244-253 | Whichever record of the origin the store answers with, the update is taken back, if and only if the origin had one installation and the new record took no other's place. |
| `UndoHistory.RollbackIsDetermined` | pkg/cpak/store-db.go:244-253 | What a rollback leaves does not depend on the record the store answers with if and only if there are no two to choose from. |
| `UndoHistory.OtherInstallationIsLost` | pkg/cpak/history.go:121-165 | From a sound store: two installations of one origin, an update of the one, a rollback that takes the other, and the other is gone. |
| `UndoHistory.FailedUpdateThenRollback` | pkg/cpak/apps.go:415-437 | After an update that stopped once its record was saved, a rollback undoes nothing, and a full history has lost its oldest entry. |
| `UndoHistory.RollbacksUndoAnyTurns` | pkg/cpak/history.go:121-165 | After any interleaving of completed updates and rollbacks, each further rollback goes one step down the timeline, to a record that differs. |
| `UndoHistory.RunPlays` | pkg/cpak/apps.go:415-455 | While an origin has one installation, a run of completed updates and rollbacks of it, among events that leave it alone, moves what is installed and saved for it exactly as the turns say. |
| `UndoHistory.RollbacksUndoRun` | pkg/cpak/history.go:121-165 | After such a run further rollbacks on the store restore the timeline of the origin from its end, each changing what is installed, and leave it one installation. |
| `UndoHistory.StorageIsAside` | pkg/cpak/gc.go:68-99 | Fetching, collecting and migrating layers leave every origin alone. |
| `UndoHistory.OthersAreAside` | pkg/cpak/history.go:121-165 | Updates and rollbacks of another origin leave this one alone unless they take one of its identifiers. |
| `LayerStore.PendingHolds` | pkg/cpak/fvs_storage.go:370-409 | The layers to migrate are those not committed that exist in the legacy format. |
| `LayerStore.PendingOnce` | pkg/cpak/fvs_storage.go:370-409 | Each of them is listed once. |
| `LayerStore.Store.Install` | pkg/cpak/installer.go:142-306 | An installation that is there already changes nothing; another is recorded only once its layers are stored. |
| `LayerStore.Store.Replace` | pkg/cpak/apps.go:511-533 | One record in place of another, with what each failure leaves. |
| `LayerStore.Store.ApplyUpdate` | pkg/cpak/apps.go:415-455 | Log, save, replace, commit, finish: the whole state at each point an update can stop at. |
| `LayerStore.Store.UpdateApplication` | pkg/cpak/apps.go:251-459 | Fetches the layers and applies the update; an installation that did not change keeps its history and log, with its record rewritten at most; on failure the run says how far it came, history and log included. |
| `LayerStore.Store.RollbackApplication` | pkg/cpak/history.go:121-165 | Restores the last saved record of an installation of the origin; no installation and no history exactly when there is none; on failure the run says how far it came. |
| `LayerStore.Store.RecoverTransactions` | pkg/cpak/transaction.go:66-103 | Recovers open transactions and drops committed ones, in any order, until the log is empty or a step fails. |
| `LayerStore.DeletedHolds` | pkg/cpak/installer.go:1118-1127 | A removal deletes exactly the records of the origin whose branch, or failing that commit, or failing that release, is the one given. |
| `LayerStore.MatchingHolds` | pkg/cpak/store-db.go:142-175 | The record filter: every field that is given is the one of the record. |
| `LayerStore.Choose` | pkg/cpak/installer.go:1041-1084 | Which record a removal means: not found, ambiguous and without selector exactly when they are. |
| `LayerStore.Store.Remove` | pkg/cpak/installer.go:1041-1160 | Refused while in use; otherwise exactly the records of the origin whose deciding field the selector names are gone, with the history, and exactly the layers of the chosen record nothing else needs. |
| `LayerStore.Store.DropRepositories` | pkg/cpak/gc.go:213-254 | Drops the repositories not kept, or lists them. |
| `LayerStore.Store.DropLegacy` | pkg/cpak/gc.go:213-254 | Drops legacy directories that are not kept or already committed. |
| `LayerStore.Store.CollectGarbage` | pkg/cpak/gc.go:68-99 | A plan changes nothing and lists what applying removes; applying keeps every referenced or composed layer stored. |
| `LayerStore.Store.EnsureLayer` | pkg/cpak/fvs_storage.go:220-291 | A layer is ready exactly when it was stored, and is then committed; nothing stored is lost even when a step fails. |
| `LayerStore.Store.EnsureLayers` | pkg/cpak/fvs_storage.go:293-356 | On success every layer is committed, and the progress adds up to the pending layers and their bytes. |
| `LayerStore.Store.Run` | pkg/cpak/gc.go:68-99 | Any sequence of commands is a run of events, and in a guarded one every layer an installed or a saved application names stays stored. |
| `LayerStore.Store.UpdateThenRollBack` | pkg/cpak/history.go:121-165 | On the store itself, whichever records it answers with: updates, then up to three rollbacks, install again what was installed that many updates ago, with every layer of it stored; unless a version takes the identifier of a record of another origin, those records are untouched, and an origin that had one installation ends with that one record. |
| `Enrolment.AttachedSignatures` | pkg/cpak/enrol.go:682-722 | The referrers that name a generation, newest first; something attached of which nothing can be used is an error. |
| `Enrolment.VerifiedPackageSignature` | pkg/cpak/enrol.go:592-650 | The newest signature of the publisher; nothing attached exactly for an empty listing; a foreign one outranks an invalid one. |
| `Enrolment.PackageSignature` | pkg/cpak/enrol.go:535-567 | The registry is asked for a published package; otherwise the recorded signature is carried, while it is about this image and stands. |
| `Enrolment.UnsignedMeansNothingAttached` | pkg/cpak/enrol.go:535-567 | An unsigned offer means that nothing is attached, whatever the registry holds, if and only if the registry was asked, signatures are required, nothing is offered, or the recorded one is carried. |
| `Enrolment.ReenrolmentNeverLooks` | pkg/cpak/enrol.go:550-567 | A recorded signature that no longer stands: an unsigned anchor is offered although a valid signature is attached. |
| `Enrolment.OfferAnchor` | pkg/cpak/enrol.go:397-472 | For every authority and every prompt: at most three prompts, a token sent only right after its own warning was confirmed, every event carrying the answer really given, the outcome read off the last event; no call at all when the evidence does not stand or is missing where required. |
| `Enrolment.ExchangeIsDetermined` | pkg/cpak/enrol.go:417-450 | The answers decide the whole exchange: no other sequence of events meets that contract. |
| `Enrolment.Enrol` | pkg/cpak/enrol.go:355-472 | From a published package, a re-enrolment or a takeover: recorded exactly when the last call was accepted, and when an unsigned or a signed anchor is offered; the outcome tells the last answer, and a recorded signature is offered only while it is about this image and stands. |
| `Enrolment.RecordedWasConfirmed` | pkg/cpak/enrol.go:417-450 | A recording that went through a warning was confirmed for the token given last. |
| `Ledger.RecordsNeverGoBack` | pkg/systemauthority/anchor.go:370-560 | Over every run of offers, removals and clearings for any accounts and origins: what is recorded for one of them never goes back in either counter, and no signature is lost, as long as its own tombstone is not cleared. |
| `Ledger.GenerationsIncrease` | pkg/cpak/enrol.go:309-336 | Through removals and reinstalls the floor is the generation recorded last, and every generation is used once if and only if every accepted offer was above the floor it met. |
| `Ledger.SameFloorTwice` | pkg/systemauthority/anchor.go:452-465 | Two offers made from one floor are both recorded, with one generation. |
| `Ledger.AdmittedFromFloor` | pkg/systemauthority/anchor.go:452-490 | An offer is admitted if and only if its generation is not below the floor and it neither loses nor goes back behind a signature; so one above the floor is never refused for its generation. |
| `Ledger.UnsignedIsAdmitted` | pkg/systemauthority/anchor.go:452-490 | The order of the ledger admits an unsigned offer above the floor if and only if neither a record nor a removal says that a publisher has answered for the application. |
| `PermissionUpdate.SessionPermissionChanges` | pkg/cpak/apps.go:468-492 | The additions of the sessions of a manifest, each installed session matched once. |
| `PermissionUpdate.NoSessionAdditions` | pkg/cpak/apps.go:468-492 | None is reported exactly when every session is an installed one, none comes twice and none grants more. |
| `PermissionUpdate.AdditionsMeaning` | pkg/cpak/apps.go:243-245 | What is worked out as additional is what the manifest grants beyond the installation: the keys of its policy, each session that is new or comes twice, and each key of a session beyond the last installed one of its identifier. |
| `PermissionUpdate.PreflightUpdate` | pkg/cpak/apps.go:189-247 | Pinned, unsupported, failed, up to date, or ready with exactly what the manifest grants beyond the installation, sessions included. |
| `PermissionUpdate.UpdateApplication` | pkg/cpak/apps.go:290-317 | Denied exactly when the manifest now fetched grants something, by policy or session, that was not approved; replaced only by that manifest. |
| `PermissionUpdate.ApprovedAdditions` | pkg/cpak/apps.go:149-158 | An agreement approves, for each origin, the additions of the last request that names it. |
| `PermissionUpdate.ApprovedWasShown` | pkg/cpak/apps.go:149-158 | Nothing is approved that was not put to the user for that origin. |
| `PermissionUpdate.ShownIsApproved` | pkg/cpak/apps.go:149-158 | Everything agreed to is approved if and only if the last request of each origin asks for all the others asked for. |
| `PermissionUpdate.NobodyIsDenied` | pkg/cpak/apps.go:140-187 | When the user agreed and the second fetch returns what the first one did, nobody is denied if and only if that holds of the requests made. |
| `PermissionUpdate.ApprovalReplaced` | pkg/cpak/apps.go:140-187 | Two installations of one origin updated to one manifest: the user agrees to everything, and the first is denied. |
| `PermissionUpdate.ReplacedWasConfirmed` | pkg/cpak/apps.go:140-187 | Everything a manifest that replaced a record grants beyond it was confirmed for its origin. |
| `PermissionUpdate.UpdateWithOptions` | pkg/cpak/apps.go:140-187 | Whatever the two fetches return: every request is for all that one application needs and every such application has one; when the answer counts, and what becomes of each application; everything a replacement grants was confirmed for its origin. |
| `PermissionUpdate.SelectInstalled` | pkg/cpak/apps.go:126-137 | Exactly the installations an origin names, ignoring case, or all of them, in their order; missing exactly when an origin names none. |
| `DesktopExec.SplitArguments` | pkg/cpak/desktop_launcher.go:145-175 | The byte loop computes the recursive tokenizer. |
| `DesktopExec.ArgumentForm` | pkg/cpak/desktop_launcher.go:35-46 | An argument without reserved characters stands as it is; any other is quoted, with a backslash in front of exactly the four characters that need one, and is read back from that. |
| `DesktopExec.SplitGivesWords` | pkg/cpak/desktop_launcher.go:145-175 | A line of words with escapes, quotes, spaces and tabs in any order is split into the words as they are written. |
| `DesktopExec.FirstWordIsProgram` | pkg/cpak/application_catalog.go:180-209 | The program of such a line is what its first word means. |
| `DesktopExec.SplitRecoversArguments` | pkg/cpak/desktop_launcher.go:35-46 | Splitting the joined quoted forms gives back the quoted forms, for every list. |
| `DesktopExec.QuotedOfNonEmpty` | pkg/cpak/desktop_launcher.go:35-46 | For non-empty arguments these are all of them. |
| `DesktopExec.EntryExecutable` | pkg/cpak/application_catalog.go:180-209 | The unquoting loop computes the recursive reader of the first word. |
| `DesktopExec.ExecutableRecovered` | pkg/cpak/application_catalog.go:180-209 | The first argument is recovered if and only if it is quoted or trimming the command takes nothing from it. |
| `DesktopFileSpan.CountDesktopFileSpan` | pkg/cpak/desktop_file_span.go:86-101 | Counts around the one placeholder; none and several are reported exactly. |
| `DesktopFileSpan.PlaceholderMeaning` | pkg/cpak/desktop_file_span.go:86-101 | A placeholder is one of the four field codes with any number of quotes around. |
| `DesktopFileSpan.ParseMeaning` | pkg/cpak/desktop_file_span.go:51-71 | A text is parsed, and to this span, if and only if it is two counts that fit, signed and padded at most, cut at the first comma. |
| `DesktopFileSpan.SpanSelectsFiles` | pkg/cpak/desktop_file_span.go:73-79 | For every number of files, none included, the span selects exactly the substituted positions, and every other argument is where it belongs. |
| `DesktopFileSpan.PrintParse` | pkg/cpak/desktop_file_span.go:47-71 | A span survives printing and parsing. |
| `SanitizeText.Sanitize` | pkg/applicationtrust/decision.go:481-501 | The loop that drops bytes computes the sanitised text. |
| `SanitizeText.ValidMeaning` | pkg/applicationtrust/decision.go:545-561 | Text is valid if and only if it is a sequence of code points, without surrogates, each in its one encoding. |
| `SanitizeText.CleanedCharacter` | pkg/applicationtrust/decision.go:481-501 | Cleaning keeps every encoded code point but the control characters, whatever follows. |
| `SanitizeText.CleanedStray` | pkg/applicationtrust/decision.go:481-501 | Cleaning drops a byte with which no encoding begins, and goes on behind it. |
| `SanitizeText.SanitizedText` | pkg/applicationtrust/decision.go:481-501 | Valid UTF-8 (sections 3 and 4 of RFC 3629) without control characters, within the limit, the longest whole-character prefix of the cleaned text that fits, at most three bytes short of the cut. |
| `SanitizeText.SanitizeIdempotent` | pkg/applicationtrust/decision.go:481-501 | Sanitising twice is sanitising once. |
| `SanitizeText.SanitizeInSteps` | pkg/applicationtrust/decision.go:481-501 | Sanitising to a smaller limit afterwards comes to the same as going there directly. |
| `SanitizeText.CleanTextStays` | pkg/applicationtrust/decision.go:481-501 | Clean text is unchanged exactly when it fits. |
| `SanitizeText.SafeText` | pkg/applicationtrust/decision.go:545-561 | Accepts exactly valid, short enough text without control characters that is not empty unless it may be. |
| `SanitizeText.SanitizedIsSafe` | pkg/applicationtrust/decision.go:545-561 | What sanitising returns is accepted. |

## Left out

- Namespaces, mounts, seccomp, Landlock and cgroups; registry, HTTP and service clients; graphical and terminal interfaces: no decidable property beyond plumbing.
- Cryptography, JSON, certificates and hashing: parameters, with what signing provides (a signature that verifies, metadata that decodes) asked for where it is used.
- The fvs repository and the application store are reduced to what the code relies on; deleting or storing one record either happens or does not.
- `path.Base`, `path.Dir` and `path.Join` are modelled for clean relative paths, which is what a state holds; on other strings only the trimming of slashes is modelled.
- The kernel is taken to give no negative size, a link that leads somewhere and the size of its target, and names without NUL or slash that are not dots. Limits on the length of names and targets, ownership, extended attributes, errors while walking, the `contents` map and the deep check that reads it are not modelled.
- `fvsViewFileData` and its bounded link following: it would add one easy bound.
- Case is folded over ASCII; the desktop codecs work on characters, and invalid UTF-8 in a command is not modelled.
- `saveAddonConfiguration` also normalises slot names; slots are taken in normal form, as the proved operations leave them. The table of installed providers is fixed during a run.
- `Override.Additions` is a parameter; an approval names a permission key and not a value, as in the code.
- LayerStore.Store.UpdateApplication: of the fields that tell whether an installation changed, those a record here does not have may differ or not; exports and containers are steps that may fail.
- LayerStore.Store.UpdateThenRollBack: stops at an update that finds nothing to change.
- LayerStore.Store.Install: the pulling of layers is reduced to whether each ends up stored, and a record that stops being a dependency is not told from one that is there.
- LayerStore.Store.Remove: that an addon is enabled somewhere is a parameter.
- LayerStore.Store.CollectGarbage: layer records, the download cache, blocks, objects, the storage driver and the byte totals of the report are not modelled; only whether a layer is stored is.
- LayerStore.Store.EnsureLayers: free disk space is a step that may fail, and of the progress reports only the totals are modelled.
- PermissionUpdate.SessionPermissionChanges: the list of changes that is shown beside the additions decides nothing and is not modelled.
- PermissionUpdate.UpdateApplication: the steps after the permission check may fail or find nothing to change, and which of them does is not modelled.
- Enrolment.Enrol: how a launch is described and what the policy of a record is are not modelled; an enrolment that cannot be described is not offered.
- Ledger.RecordsNeverGoBack: policies and roots kept beside the counters are not modelled, and generations do not wrap around.
- `withDesktopFileSpan`, `repairDesktopLauncher` and `stripLegacyGrantMarkers`: string rewriting whose pieces are modelled; the last is not idempotent on nested markers.
- Capsule sizes are those of a 64-bit platform.
- The texts of error messages.
