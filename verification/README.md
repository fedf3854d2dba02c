# zypper-declarative, verified

`zypper declarative` describes a SUSE system as a manifest and converges a
system to a manifest inside one snapshot transaction. It exists three times, in
C++, Rust and Go. This project models the parts whose correctness is not visible
from one function and proves what they promise.

- **Two diffs, convergence and the ledger** (`DiffDrift`, `DiffLists`, `DriftLaws`,
  `Converge`, `ConvergeLaws`, `RustConverge`, `RustLaws`, `Stability`, `Apply`,
  `Sealing`, `Ledger`). The disk
  is a map from path to regular file or symlink. The C++ loops over mutable sets and maps are
  methods, proved equal to the filter-and-collect form that Rust uses (and that
  the Go loops compute). On top of it: a clean system stays clean, with the exact
  condition; the apply verb as a step machine that may succeed, fail or crash; the
  seal when both descriptions come from walking /etc; and every run of applies
  and rollbacks.
- **Canonical text and identity** (`Json`, `JsonText`, `JsonWriter`, `ManifestIO`,
  `ManifestMembers`, `RecordText`, `Canonical`, `CanonicalReading`, `CanonicalTree`).
  The recursive writers push onto a buffer, as the sources do, and are proved against
  a printer whose left inverse is a reader for the grammar of RFC 8259, and whose
  choice of escapes, line breaks and order is stated by itself. A record cut short
  never loads. Equality of canonical texts is characterised, for the C++ form (sort
  records, clear two fields), for the Rust form (remove two members, sort JSON
  trees by one joined key), and for JSON documents whatever their records hold.
- **Calendar** (`Calendar`). The arithmetic day conversion against a calendar
  that only steps from one day to the next; the stamps of section 5.6 of RFC 3339,
  read back to the instants they show.
- **Reading the system** (`EtcWalk`, `Description`, `Alternatives`,
  `ConfigReader`). The explicit-stack walk against the recursive one, and from
  there to the description that drift and stability rely on; the alternatives
  index; the three-pass reader with its content store, down to restoring what it
  captured.
- **Line parsers** (`LineParsers`): `.repo` files and `rpm -V` output, against
  printers they undo.

`Strings` and `Manifest` hold what these share. SHA-256 is a parameter, any
function from contents to digests; freedom from collisions is assumed only in
the last clause of `ConfigReader.CaptureThenRestore`, which claims equal bytes.
The package manager, systemctl, snapper, the rpm database and the file system's
refusals are parameters too (`Converge.Env`, `Apply.World`, `Description.System`,
`ConfigReader.Source`).

## Where the code departs from what is promised

The model follows the code. For each departure there is an input that shows it
and the exact condition under which the promise holds.

- A second apply is promised to be a no-op (doc/user-guide.md:262-266). The intent
  diff copies every desired package, repository and file, so a manifest that lists
  any of them is converged again (`DriftLaws.SecondApplyHasWork`); when it is not:
  `Apply.SecondApplyIsNoOpIff`. For files and units the effect is idempotent all
  the same (`Stability.ApplyTwice`). Packages are another matter, for the record
  stores the whole installed set as the lock, so a second apply also asks for the
  removal of every installed package that the manifest does not name
  (`DriftLaws.SecondApplyRemoves`, `DriftLaws.ReapplyKeepsPackagesIff`).
- An empty intent diff is promised right after init. It is as good as never empty,
  since what was adopted is asked for again (`DriftLaws.OnboardingHasWork`,
  `DriftLaws.OnboardingEmptyIff`).
- Enabling a unit makes systemctl write links below /etc, which the verification
  at the end of the same apply counts as extra files unless they are declared,
  kept or owned (`Stability.EnablingSpoils`, `Apply.StrayLinkStopsSeal`,
  `Stability.LinksDeclaredIff`). The same goes for whatever the packages step
  leaves behind; the exact condition is `Stability.NoNewExtrasIff`.
- A declared file without a digest is written and then reported as modified
  (`Stability.UndigestedFails`, `Stability.UnmodifiedIff`). Declared links and
  directories are never delivered: one whose path holds something else is
  reported, one that is missing seals undelivered (`Stability.UndeliveredFails`,
  `Stability.AbsentLinkStaysAbsent`, `Stability.LinkDeliveredIff`).
- A name installed in two builds (two kernels) drifts from itself, and the apply
  that records it cannot pass its own verification (`DriftLaws.TwoBuildsDrift`,
  `DriftLaws.InstalledAgreesIff`).
- Package drift is specified to report packages on either side that the other
  lacks, with empty reference fields as wildcards. C++ checks the reference side
  only, with wildcards (`DriftLaws.WildcardOverlooks`,
  `DriftLaws.WildcardAsPromisedIff`); Rust checks both sides, without
  (`DriftLaws.ExactDistrusts`, `DriftLaws.ExactAsPromisedIff`).
- An absent `config_files` scope is meant to leave files unmanaged, but such a
  manifest still counts every unpackaged file as extra
  (`Stability.LocalFileStillExtra`, `Stability.UnmanagedFilesStillExtraIff`), and
  its record forgets the paths declared before, so they are never deleted later
  (`Ledger.ForgottenFileStays`, `Ledger.DroppedPath`).
- Declared files are specified to get their declared mode, user and group. C++
  writes content only (`Converge.ModeStays`, `Converge.AttributesIff`).
- Package-owned files are promised never to be deleted (doc/user-guide.md:338-340).
  The Rust verb hands its deletion pass an ownership test that is always false
  (`RustConverge.OwnedFileDropped`, `RustConverge.OwnedLinkDropped`,
  `RustConverge.OwnedSparedIff`).
- The syncpoint, keep-listed and package-owned paths are promised never to be
  written to either. The write loop excludes nothing (`Converge.SyncpointWritten`,
  `Converge.ExcludedSparedIff`).
- Apply is promised to work inside the new snapshot (doc/user-guide.md:364-365). A
  declared path that is an absolute link is written through to the running system
  (`Converge.WriteEscapes`), and one that is a link to a dropped path is written
  and then deleted (`Converge.LandingDropped`); when neither happens:
  `Converge.StaysInsideIff`.
- A name that is empty, or nothing but slashes, brings the C++ program down with
  an uncaught exception, be it that of a declared file or of a recorded entry
  that the next manifest drops (`Converge.NamelessEntryCrashes`,
  `Stability.DroppedLinkCrashes`, `Converge.FilesCrashIff`).
- An unreadable source is promised to be an error under `error`. A directory that
  may not be listed, and an entry that may not be looked at, are passed over
  silently (`EtcWalk.DeniedPassesSilently`, `EtcWalk.UnreadableEndsWalkIff`).
- A line of `rpm -V` output with a character across its ninth byte makes the Rust
  parser panic (`LineParsers.AccentPanics`, `LineParsers.PanicIff`).
- Providers of negative priority are never selected as the best alternative
  (`Alternatives.NegativePriorityNeverWins`, `Alternatives.BestIsGreatestIff`).
- Packages sorted by `name`, NUL, `arch` are sorted by (name, arch) unless one
  name continues another one behind a NUL (`Canonical.JoinedPrefix`,
  `Canonical.JoinedOrderIff`).
- Stamps stop sorting by time at the year 10000 (`Calendar.StampsStopSorting`,
  `Calendar.StampsSortIff`).

The languages also differ from each other. The verbs modelled are those of C++:
it takes the drift that decides "nothing to do" against the desired manifest
(Rust: against the applied record). A `content_ref` without a content store
writes an empty file in C++ and is an error in Rust, and one with a leading slash
is looked for in the system by C++ and in the store by Rust
(`RustConverge.StorelessReference`, `RustConverge.AbsoluteReference`,
`RustConverge.ContentAgreesIff`); Rust also
sets the declared mode (`RustConverge.ModeIsSet`). The Rust files step is modelled
by itself. The
C++ walk passes over a keep-listed directory with all that is below it
(`EtcWalk.WalkIff`), while the Rust reader descends into it and leaves out exact
paths only (`ConfigReader.DueIff`). The canonical texts are three different ones:
C++ writes what is beyond ASCII as escapes and clears two fields, Rust writes it
plainly and removes the two fields, and Go also clears `generator`, leaves out the
observational scopes and escapes `<`, `>`, `&` and two line separators. The first
two are modelled.

## Model

| member | source | states |
|---|---|---|
| DiffDrift.ComputeIntentDiff | code/cpp/src/diffdrift.cpp:13-55 | The C++ loops over sets and maps return, list by list and in order, the filter-and-collect form of Rust (code/rs/src/diff.rs:67-124), for every pair of manifests, duplicates included |
| DiffDrift.RemovedPackages | code/go/internal/diff/diff.go:57-70 | The removal loop yields the recorded packages whose name is not desired, in record order |
| DiffDrift.DroppedFiles | code/go/internal/diff/diff.go:78-91 | The deletion loop yields the recorded paths that are not desired, in record order |
| DiffDrift.ChangedUnits | code/go/internal/diff/diff.go:94-106 | The unit loop keeps the desired units whose last recorded state is another one or missing |
| DiffDrift.ComputeDrift | code/cpp/src/diffdrift.cpp:67-157 | All six drift lists of the C++ loops are the functional ones |
| DiffDrift.ModifiedFiles | code/rs/src/diff.rs:134-159 | Declared paths that are reported with another kind, another digest (files) or another target (links); an unreported path matches |
| DiffDrift.ExtraFiles | code/rs/src/diff.rs:161-180 | Reported paths that are undeclared, unpackaged, not the syncpoint and not keep-listed |
| DiffDrift.DivergentUnits | code/rs/src/diff.rs:182-202 | Declared units that are reported in another state |
| DiffDrift.DivergentPackages | code/cpp/src/diffdrift.cpp:118-144 | References whose name is not installed or whose non-empty fields differ from the last installed package of the name |
| DiffLists.IntentLists | code/cpp/src/diffdrift.cpp:13-55 | List by list and in order: everything declared is installed, set and written; what the record holds under no declared name is removed and deleted if the scope is declared; declared units are changed unless the record has them last in the declared state |
| DiffLists.DriftLists | code/cpp/src/diffdrift.cpp:67-157 | The six lists, in order and element by element: declared paths last reported off their declaration, reported paths that nothing declares, owns or keeps, declared units last reported in another state, references that the last package of their name does not meet, and the two observations that nothing keeps |
| DiffLists.PickedElements | code/rs/src/diff.rs:134-202 | Membership in such a list is what picks an element |
| DiffLists.ExactLists | code/rs/src/diff.rs:204-230 | The exact form lists the references that are not installed, then the installed packages that are no reference, each in order, and nothing if a side is not described |
| DiffLists.RecordHolds | code/cpp/src/converge.cpp:141-153 | The applied record field by field: desired repositories, units and files, the resolved packages, no observations, and time, digest and generator in their places |
| DiffLists.AdoptedLock | code/cpp/src/verbs.cpp:389-392 | Init records the adopted packages, or an empty rpm scope |
| DriftLaws.DeletedIff | doc/user-guide.md:338-340 | A path is deleted if and only if it was recorded, the manifest manages files, and the manifest does not name it |
| DriftLaws.UnitSettledIff | code/cpp/src/diffdrift.cpp:44-52 | A desired unit is left alone if and only if the record has it last in the desired state |
| DriftLaws.ReapplyEmptyIff | code/cpp/src/diffdrift.cpp:13-55 | The exact condition under which a manifest has an empty intent diff against its own record |
| DriftLaws.SecondApplyHasWork | doc/user-guide.md:262-266 | A manifest that declares one file is not settled by its own record |
| DriftLaws.ReapplyKeepsPackagesIff | code/cpp/src/converge.cpp:153 | A second apply removes no package if and only if the manifest names every package of the lock |
| DriftLaws.SecondApplyRemoves | code/cpp/src/converge.cpp:153 | A manifest that asks for nginx alone removes glibc when applied a second time |
| DriftLaws.SelfDriftEmptyIff | code/cpp/src/diffdrift.cpp:67-157 | A state has no drift against itself if and only if it does not contradict itself under one name and its full-scan findings are keep-listed |
| DriftLaws.InstalledAgreesIff | code/cpp/src/diffdrift.cpp:118-135 | A resolved package set agrees with itself if and only if no name is installed in two builds |
| DriftLaws.ResolvedConsistentIff | code/cpp/src/diffdrift.cpp:118-135 | For resolved packages, not contradicting each other is one build per name |
| DriftLaws.TwoBuildsDrift | code/cpp/src/diffdrift.cpp:118-135 | Two builds of one kernel drift from themselves |
| DriftLaws.OnboardingAsksNothing | code/cpp/src/verbs.cpp:381-398 | Against the record that init writes, the adopted manifest removes no package and deletes no file; units change exactly when they contradict themselves |
| DriftLaws.OnboardingEmptyIff | code/cpp/src/verbs.cpp:381-398 | The whole diff after init is empty if and only if what was adopted lists no package, repository or file and its units are consistent |
| DriftLaws.OnboardingHasWork | code/cpp/src/verbs.cpp:381-398 | A system with one package asks for its installation right after init |
| DriftLaws.OnboardingIsClean | code/cpp/src/verbs.cpp:392-401 | The adopted system has no drift against init's record if and only if it is consistent per name |
| DriftLaws.IdentityInjective | code/rs/src/diff.rs:251-256 | The four NUL-joined fields identify the package record |
| DriftLaws.ExactEmptyIff | code/rs/src/diff.rs:204-230 | The exact form finds nothing if and only if both sides hold the same packages |
| DriftLaws.ExactRefinesWildcard | code/cpp/src/diffdrift.cpp:60-65 | What the exact form accepts, the wildcard form accepts |
| DriftLaws.ExactIsWildcard | code/rs/src/diff.rs:204-230 | For fully resolved references over the same names the two forms agree on emptiness |
| DriftLaws.WildcardAsPromisedIff | code/cpp/src/diffdrift.cpp:118-144 | The C++ list is the specified one if and only if every installed package is asked for and no reference is met by any but the last build of its name |
| DriftLaws.WildcardAsPromisedPlainIff | code/cpp/src/diffdrift.cpp:136-143 | With one build per name: if and only if every installed package is asked for |
| DriftLaws.WildcardOverlooks | code/cpp/src/diffdrift.cpp:136-143 | An installed package that nothing declares goes unreported |
| DriftLaws.ExactAsPromisedIff | code/rs/src/diff.rs:204-230 | The Rust list is the specified one if and only if whatever meets a reference, or is met by one, is listed identically on the other side |
| DriftLaws.ExactDistrusts | code/rs/src/diff.rs:204-230 | A package asked for in any version and installed is reported |
| Converge.Tree.ConvergeFiles | code/cpp/src/converge.cpp:60-108 | The disk after the write and delete loops, and whether they finished, failed or crashed |
| Converge.Tree.WriteDeclared | code/cpp/src/converge.cpp:66-93 | The write loop: regular files only, content from the store, digest checked after the write |
| Converge.Tree.DeleteDropped | code/cpp/src/converge.cpp:95-106 | The delete loop with its three exclusions; a missing path is no failure; what that spares and removes is stated by `ConvergeLaws.DeletionIff` |
| Converge.Tree.ConvergeUnits | code/cpp/src/converge.cpp:113-127 | The unit loop: three known states, stopping at the first refusal |
| Converge.FilesClosedForm | code/cpp/src/converge.cpp:60-108 | Convergence succeeds if and only if every declared file can be delivered and every path to delete can be removed; then the disk is the old one, overlaid with the declared files where they land, minus the dropped paths that are not excluded, and nothing else changed |
| Converge.WritesClosedForm | code/cpp/src/converge.cpp:66-93 | The writes succeed if and only if each file is deliverable, and amount to one overlay: links are followed, and at one place the last entry wins |
| Converge.DeletesClosedForm | code/cpp/src/converge.cpp:95-106 | The deletions remove exactly the listed paths that are not excluded, and succeed if and only if each has a name and can be removed |
| ConvergeLaws.DeletionSpares | code/cpp/src/converge.cpp:96-100 | However the delete loop ends, the syncpoint, keep-listed and package-owned paths are as before |
| ConvergeLaws.DeletionIff | code/cpp/src/converge.cpp:95-106 | When it succeeds, a leaf is still there if and only if it is not listed, or is the syncpoint, keep-listed or package-owned, and it is as it was |
| ConvergeLaws.StepSucceedsIff | code/cpp/src/converge.cpp:60-108 | The step succeeds if and only if every declared file has a name, a reference found in the store if there is one, its digest if one is declared, and a place that can be written, and every dropped path outside the exclusions has a name and can be removed |
| ConvergeLaws.StepLeaves | code/cpp/src/converge.cpp:60-108 | Path by path after success: nothing where a path was to be deleted and is not excluded, else the bytes of the last declared file written there with the attributes that were there, else what was there |
| ConvergeLaws.ListedLeafIff | code/cpp/src/converge.cpp:95-106 | Where nothing is written, a listed leaf is still there after the step if and only if it is the syncpoint, keep-listed or package-owned |
| ConvergeLaws.WritesStopAt | code/cpp/src/converge.cpp:66-93 | The first file that cannot be written ends the loop; what was written before stays, and so does a file of which only the digest is wrong |
| ConvergeLaws.DestinationIff | code/cpp/src/converge.cpp:81 | A path is written at a place if and only if a chain of at most 40 links leads there and no further |
| ConvergeLaws.BeyondIff | code/cpp/src/converge.cpp:81 | It leads out of the tree if and only if such a chain ends at a link that does |
| Converge.WritesCrashIff | code/cpp/src/converge.cpp:66-68 | The write loop crashes if and only if it reaches a file without a name, every entry before it being deliverable |
| Converge.DeletesCrashIff | code/cpp/src/converge.cpp:96-101 | The delete loop crashes if and only if it reaches a path that it neither skips nor can name |
| Converge.FilesCrashIff | code/cpp/src/converge.cpp:60-108 | The whole step crashes if and only if one of its loops does, told from its inputs |
| Stability.DroppedLinkCrashes | code/cpp/src/converge.cpp:96-101 | A nameless link entry is skipped and recorded; the next manifest, which declares nothing, crashes |
| Converge.NamelessEntryCrashes | code/cpp/src/converge.cpp:68 | The files entry that gives nothing but its type crashes the step |
| Converge.AttributesIff | code/cpp/src/converge.cpp:79-92 | A converged file has its declared mode, user and group if and only if it had them, or a new file gets them |
| Converge.ModeStays | code/cpp/src/converge.cpp:79-92 | A file of mode 0644 declared as 0600 stays 0644 |
| Converge.ExcludedSparedIff | code/cpp/src/converge.cpp:66-98 | The paths that deletions spare are spared by the whole step if and only if nothing lands on them but what is there |
| Converge.SyncpointWritten | code/cpp/src/converge.cpp:66-68 | A declared syncpoint is written |
| Converge.StaysInsideIff | code/cpp/src/converge.cpp:81-105 | After the step a declared file is where it landed in the tree if and only if no link took its path out of it and its landing is not deleted as a dropped path |
| Converge.WriteEscapes | code/cpp/src/converge.cpp:81 | A file declared at a link that leads out of the tree: success, and the tree is as before |
| Converge.LandingDropped | code/cpp/src/converge.cpp:81-105 | A file declared at a link whose target is dropped is written and then deleted |
| RustConverge.Root.ConvergeFiles | code/rs/src/converge.rs:107-167 | The Rust step: the tree after its two loops, and whether they succeeded |
| RustConverge.Root.PutDeclared | code/rs/src/converge.rs:114-149 | Its write loop: content, write, mode, digest |
| RustConverge.Root.DropUnlessOwned | code/rs/src/converge.rs:151-165 | Its delete loop: an ownership test, and only what exists when links are followed |
| RustConverge.PutIff | code/rs/src/converge.rs:114-149 | A file is written if and only if its content is to be had with the declared digest and it can be put where its path leads |
| RustLaws.PutsSucceedIff | code/rs/src/converge.rs:114-149 | The write loop succeeds if and only if every declared file, on the tree as it was, has its content in the store behind leading slashes, its digest, and a place where bytes and mode can be set |
| RustLaws.PutsLeave | code/rs/src/converge.rs:114-149 | Then each path holds bytes and mode of the last declared file written there, with user and group as before, or what it held |
| RustLaws.TrimmedSlashes | code/rs/src/converge.rs:188 | Exactly the leading slashes of a reference are cut |
| RustConverge.ModeIsSet | code/rs/src/converge.rs:198-211 | A written file has the declared mode, whatever it had; user and group stay |
| RustConverge.ContentAgreesIff | code/rs/src/converge.rs:169-196 | Rust and C++ take the same content if and only if there is no reference, or one with a store that finds the same with and without its leading slashes |
| RustConverge.StorelessReference | code/rs/src/converge.rs:178-186 | Without one, Rust refuses what C++ writes empty |
| RustConverge.AbsoluteReference | code/rs/src/converge.rs:187-189 | A reference with a leading slash that only C++ finds |
| RustConverge.DroppedIff | code/rs/src/converge.rs:151-165 | A leaf survives the delete loop if and only if it is the syncpoint, keep-listed, owned as far as the loop is told, or never found: not listed, or dangling whenever its turn comes |
| RustLaws.DropsSucceedIff | code/rs/src/converge.rs:151-165 | The delete loop succeeds if and only if each path, at its turn, is excluded, not there, or a leaf that can be removed |
| RustLaws.DropsKeep | code/rs/src/converge.rs:151-165 | What is there after it was there before as it is, and excluded and unlisted paths are as they were |
| RustLaws.ExistsIff | code/rs/src/converge.rs:156 | A path exists if and only if a chain of links from it ends at a leaf or a directory, or leads out of the tree to something |
| RustConverge.OwnedSparedIff | code/rs/src/cli/mod.rs:324-332 | The verb spares all leaves that packages own if and only if each is the syncpoint, keep-listed, or never found |
| RustConverge.FileIsFound | code/rs/src/converge.rs:155-157 | A regular file is found if and only if it is listed |
| RustConverge.OwnedFileDropped | code/rs/src/cli/mod.rs:324-332 | A package-owned file that C++ keeps and Rust deletes |
| RustConverge.OwnedLinkDropped | code/rs/src/cli/mod.rs:324-332 | A package-owned link that C++ keeps and Rust deletes |
| Converge.UnitsClosedForm | code/cpp/src/converge.cpp:113-127 | Units are set if and only if every known state is accepted; then unit states and tree have gone through all calls, whatever each call does |
| ConvergeLaws.UnitsStepIff | code/cpp/src/converge.cpp:113-127 | systemctl is called, in order, for exactly the units that ask to be enabled, disabled or masked, and the step succeeds if and only if it accepts them all |
| ConvergeLaws.UnitsStopAt | code/cpp/src/converge.cpp:122-124 | The first refusal stops the step; what the calls before it left stays |
| Stability.ExtraEmptyIff | code/cpp/src/diffdrift.cpp:90-105 | On a described tree, no file is extra if and only if every visible unowned leaf is declared |
| Stability.ModifiedEmptyIff | code/cpp/src/diffdrift.cpp:76-88 | On a described tree, no file is modified if and only if every declared path shows its declaration or is not reported |
| Stability.NoNewExtrasIff | code/cpp/src/converge.cpp:95-107 | The exclusions of the deletion pass line up with those of `files_extra`: where there was no extra file there is none if and only if every unowned newcomer is declared, whether packages, a write through a link or systemctl left it; for a manifest without a files scope, if and only if nothing unowned is visible |
| Stability.UnmodifiedIff | code/cpp/src/converge.cpp:66-93 | After convergence no declared file is modified if and only if each was promised beforehand |
| Stability.QuietSteps | code/cpp/src/verbs.cpp:332-340 | There are no undeclared newcomers where neither packages nor units step leaves anything unowned and no file is written through a link |
| Stability.PlainPromiseIff | code/cpp/src/converge.cpp:66-93 | Where paths are declared once and are no links, a file is promised if and only if it carries a digest or is not reported, anything else if and only if it is in place |
| Stability.UndigestedFails | code/cpp/src/converge.cpp:86-92 | A visible unowned file declared without a digest is never as declared |
| Stability.UndeliveredFails | code/cpp/src/converge.cpp:67 | A declared link whose path holds something else is never as declared |
| Stability.LinkDeliveredIff | code/cpp/src/converge.cpp:67 | A declared link is in place after the step if and only if it was before; missing, it counts as unmodified |
| Stability.AbsentLinkStaysAbsent | code/cpp/src/converge.cpp:67 | A link declared on an empty tree: success, and nothing is there |
| Stability.UnitsAgreeIff | code/cpp/src/diffdrift.cpp:107-116 | On described units, none diverges if and only if every declared unit that is reported is in its state |
| Stability.UnitsStayClean | code/cpp/src/diffdrift.cpp:44-52 | On clean units, an apply leaves none divergent if and only if every declared unit that is to be changed, or was changed by any step, ends up in its state or is not reported |
| Stability.PlainUnitsIff | code/cpp/src/converge.cpp:113-127 | With an obedient systemctl, if and only if every changed unit asks for a state that can be set or is not reported |
| Stability.CleanStaysClean | code/cpp/src/verbs.cpp:345-355 | Main theorem: on a clean system, an apply whose steps succeed ends without any drift if and only if newcomers are declared, declared paths show what lands there, touched units are in their state, and the lock does not contradict itself |
| Stability.PlainFulfilledIff | code/cpp/src/verbs.cpp:345-355 | Where nothing interferes, the condition read off the manifest |
| Stability.StrayLinkSpoils | code/cpp/src/converge.cpp:121 | An undeclared, unowned, visible leaf that the units step adds defeats the condition |
| Stability.EnablingSpoils | code/cpp/src/converge.cpp:121 | Enabling sshd on an empty tree does so |
| Stability.LinksDeclaredIff | code/cpp/src/converge.cpp:121 | Where systemctl only puts links, there is no undeclared newcomer if and only if every link of a unit to change is declared, kept, owned or there already |
| Stability.UnmanagedFilesStillExtraIff | code/cpp/src/diffdrift.cpp:90-105 | Against a manifest without a files scope, no file is extra if and only if every visible leaf is package-owned |
| Stability.LocalFileStillExtra | code/cpp/src/diffdrift.cpp:90-105 | One local file is extra against the empty manifest |
| Stability.ApplyTwice | doc/user-guide.md:262-266 | Converging files and units again over the own record succeeds and changes nothing, as long as nothing disturbed what was written |
| Stability.ApplyAgainIff | code/cpp/src/converge.cpp:60-108 | On whatever tree: converging over the own record changes nothing if and only if every declared file is deliverable and already there as it would be written |
| Apply.Run.Acquire | code/cpp/src/transaction.cpp:34-74 | The mode decides whether the outer transaction is used or a snapshot is opened here |
| Apply.Run.Prepare | code/cpp/src/verbs.cpp:272-322 | All in front of the transaction: which inputs end the run with 2, with a crash, or with nothing to do (both diffs have six empty lists), and when it goes on, with which diff |
| Apply.Run.Apply | code/cpp/src/verbs.cpp:272-365 | The apply verb: the steps happen in one order, each exactly when all before it succeeded, and sealing exactly when there was something to do, every step succeeded and post-converge drift was empty; the "nothing to do" exit takes no step, opens no snapshot and leaves tree, units and record alone; which failures exit 1, which 2, and when the program crashes |
| Apply.Run.Carry | code/cpp/src/verbs.cpp:332-364 | Inside the transaction: packages, files on the tree they leave, units on what the files step leaves, record, verification, seal, each logged exactly when it and all before it succeeded |
| Apply.Run.Conclude | code/cpp/src/verbs.cpp:341-364 | Record, verification and seal; verified if and only if the description shows no drift at all from what was desired with the resolved packages, and sealed if and only if all three succeed |
| Apply.Run.Init | code/cpp/src/verbs.cpp:370-426 | The init verb converges nothing, opens at most one snapshot, records the adopted state as its own desired one, and seals if and only if every step succeeded |
| Apply.RecordStandsForDesired | code/cpp/src/verbs.cpp:349-351 | Verifying against the desired manifest with the lock is verifying against the record just written |
| Apply.CleanApplySealsIff | code/cpp/src/verbs.cpp:305-358 | End to end: from a clean live system, apply seals if and only if there is something to do, the tools cooperate, the manifest is fulfilled by what the steps leave, and no package contradicts itself |
| Apply.StrayLinkStopsSeal | code/cpp/src/verbs.cpp:345-355 | A stray leaf of the units step keeps apply from sealing |
| Apply.SecondApplyIsNoOpIff | code/cpp/src/verbs.cpp:305-322 | A second apply on the verified tree finds nothing to do if and only if the manifest lists no package, repository or file and asks for no removal |
| Sealing.WalkedApplySealsIff | code/cpp/src/verbs.cpp:272-365 | Main theorem with both descriptions given by the records of a walk over /etc: the seal, if and only if there is something to do, the tools cooperate, the manifest is fulfilled and the lock does not contradict itself |
| Sealing.PlainApplySealsIff | code/cpp/src/verbs.cpp:272-365 | Where nothing but the declared changes happens, the seal read off manifest and lock: something to do, digests given or files unreported, other entries in place, unit states that can be set, one build per name |
| Sealing.SealIsStep | code/cpp/src/verbs.cpp:332-364 | A sealed run is a step of the ledger from the generation whose record it started from, and leaves the tree and record it sealed |
| Ledger.SuccessorFaithful | code/cpp/src/converge.cpp:141-172 | One apply keeps the invariant: record and tree are what the lineage's manifests foretell |
| Ledger.EveryRunIsFaithful | doc/user-guide.md:355-360 | In every run of applies and rollbacks each generation holds the record of the manifest last applied there, and at every path what its lineage's manifests foretell |
| Ledger.DroppedPath | code/cpp/src/diffdrift.cpp:32-41 | The exact fate of a path that stopped being declared: gone if the first manifest without it manages files and the path is not the syncpoint, keep-listed or package-owned then, else as it was, for good |
| Ledger.ForgottenFileStays | code/cpp/src/diffdrift.cpp:32-41 | A declared file, a manifest without a files scope, then one that declares none: the file is still there |
| Ledger.ForgottenFileReached | code/cpp/src/diffdrift.cpp:32-41 | That input as a run of three applies from the first generation |
| Ledger.DroppedIsGone | code/cpp/src/converge.cpp:95-107 | While every manifest manages files and exclusions stand still, a path once declared and no longer declared is gone, or, if it is the syncpoint, keep-listed or package-owned, holds what was last written there |
| Ledger.LedgerSafety | doc/user-guide.md:338-340 | The same for every generation of every run: such a path is still there if and only if it is excluded and was there at all |
| Ledger.UndeclaredUnchanged | doc/user-guide.md:338-340 | In every run, a path that no manifest of the lineage declared and no other step gets at is as it was in the beginning |
| Ledger.GenerationsArePermanent | doc/user-guide.md:355-360 | No run rewrites a generation |
| Ledger.RollbackRestores | doc/user-guide.md:355-360 | A rollback makes tree and record of its target current, and the next apply starts from them |
| Json.SortKeys | code/rs/src/manifest/hash.rs:112-113 | The keys of an object in ascending order, each once |
| Json.ReadPut | code/rs/src/manifest/hash.rs:108-140 | The writers have a left inverse: after any value and any delimited continuation, in every style and at any depth, the reader gives back both |
| Json.PutInjective | code/rs/src/manifest/hash.rs:108-140 | No two values share a printed form |
| Json.PutAppends | code/rs/src/manifest/hash.rs:108-140 | Printing in front of a text is printing, then appending the text |
| Json.ReadPutDocument | code/cpp/src/manifest_io.cpp:195-243 | A whole printed document reads back as the value |
| Json.ReadPutChars | code/cpp/src/manifest_io.cpp:171-193 | Escaping (section 7 of RFC 8259) is undone by reading, for every string |
| JsonText.PlainStringUnchanged | code/cpp/src/manifest_io.cpp:171-193 | A string without quotes, backslashes and control characters (and beyond ASCII, in that form) is written unchanged between quotes |
| JsonText.StringJoins | code/cpp/src/manifest_io.cpp:173 | A string is written character by character |
| JsonText.ShortEscapes | code/cpp/src/manifest_io.cpp:175-181 | The seven short escapes |
| JsonText.ControlEscapes | code/cpp/src/manifest_io.cpp:183-186 | Every other control character is its number in lower-case hexadecimal |
| JsonText.BeyondAscii | code/cpp/src/manifest_io.cpp:154-158 | In the ASCII form a character beyond is its code unit, or the two surrogates that make it up (section 7 of RFC 8259); otherwise it is itself |
| JsonText.PutAscii | code/cpp/src/manifest_io.cpp:154-158 | The ASCII form of a value holds nothing beyond ASCII |
| JsonText.ObjectText | code/rs/src/manifest/hash.rs:110-122 | An object is written with its keys in ascending order, each with colon and value, comma-separated |
| JsonText.ArrayText | code/rs/src/manifest/hash.rs:124-133 | An array is written with its elements in order |
| JsonText.LeafText | code/rs/src/manifest/hash.rs:134-138 | Words as they are, numbers in decimal without leading zeros |
| JsonText.RelaidPut | code/cpp/src/manifest_io.cpp:195-235 | Main result on layout: a formatter that knows nothing but characters (two blanks per open bracket, a line per element, a blank behind each colon, empty brackets together) turns the compact text of any value into the indented one, and finds no blank to remove in the compact one |
| JsonWriter.Writer.EscapeJson | code/cpp/src/manifest_io.cpp:171-193 | The character loop appends the escaped, quoted string, of which the lemmas of `JsonText` say how each character is written |
| JsonWriter.Writer.WriteCanonical | code/rs/src/manifest/hash.rs:108-140 | The recursive writer appends the compact form, with object keys sorted; in plain or in ASCII strings |
| JsonWriter.Writer.PrintJson | code/cpp/src/manifest_io.cpp:195-235 | The recursive pretty printer appends the indented form |
| ManifestIO.ManifestRoundTrip | code/cpp/src/manifest_io.cpp:401-421 | `json_to_manifest` after `manifest_to_json` is the identity for every manifest, absent and empty scopes kept apart |
| ManifestIO.ScopeRoundTrip | code/cpp/src/manifest_io.cpp:390-399 | Attributes and elements of a scope survive the trip, in order |
| ManifestIO.BaselinesRoundTrip | code/cpp/src/manifest_io.cpp:364-377 | So do records with a list of changes |
| ManifestMembers.RepositoryFrom | code/cpp/src/manifest_io.cpp:333-344 | From whatever members there are: texts that are left out are empty, a repository is enabled and checked, not refreshed, and of priority 99; unknown members are passed over |
| ManifestMembers.PackageFrom | code/cpp/src/manifest_io.cpp:325-331 | The same for packages |
| ManifestMembers.ServiceFrom | code/cpp/src/manifest_io.cpp:345-350 | The same for services |
| ManifestMembers.FileFrom | code/cpp/src/manifest_io.cpp:351-363 | The same for files |
| ManifestMembers.BaselineFrom | code/cpp/src/manifest_io.cpp:364-377 | The same for records with changes; what is no list is no change |
| ManifestMembers.UnmanagedFrom | code/cpp/src/manifest_io.cpp:378-388 | The same for unmanaged files |
| ManifestMembers.MetaFrom | code/cpp/src/manifest_io.cpp:302-312 | The same for `meta`, which is of version 1 unless it says otherwise |
| ManifestMembers.ManifestFrom | code/cpp/src/manifest_io.cpp:401-421 | Leaving out any members of a written manifest leaves out exactly those scopes, and without `meta` it is of version 1 and says nothing else |
| ManifestMembers.ScopeFrom | code/cpp/src/manifest_io.cpp:390-399 | A scope without attributes or elements has none |
| ManifestMembers.TextConverts | code/cpp/src/manifest_io.cpp:345-350 | Where a text is expected, null is empty, words and numbers are spelled out, lists and objects are refused |
| ManifestMembers.FlagConverts | code/cpp/src/manifest_io.cpp:338-340 | Where a flag is expected, null and 0 are false, other numbers true, the rest is refused |
| ManifestMembers.NumberConverts | code/cpp/src/manifest_io.cpp:341 | Where a number is expected, null is 0, words are 0 and 1, and what is beyond 32 bits is refused |
| ManifestMembers.MembersWritten | code/cpp/src/manifest_io.cpp:37-69 | The members that `meta`, packages, repositories and services are written with |
| ManifestMembers.FileMembersWritten | code/cpp/src/manifest_io.cpp:70-95 | And those of the three kinds of file records |
| ManifestMembers.ScopesWritten | code/cpp/src/manifest_io.cpp:106-119 | A manifest is written with `meta` and exactly the scopes it has |
| ManifestMembers.ScopeWritten | code/cpp/src/manifest_io.cpp:97-104 | A scope is written with its attributes and, in order, its elements |
| ManifestIO.JsonPretty | code/cpp/src/manifest_io.cpp:237-243 | The printed manifest and its final newline |
| CanonicalReading.RecordTextSays | code/cpp/src/manifest_io.cpp:237-243 | The text of the applied record is the compact text laid out in lines, and a newline |
| ManifestIO.RecordReloads | code/cpp/src/manifest_io.cpp:619-644 | The applied record that is written is the one the next run loads |
| RecordText.CutRecordRefused | code/cpp/src/manifest_io.cpp:619-644 | A record that was not written to its end is never taken for another one: no beginning of its text loads, but for the one without the last newline, which is the record |
| RecordText.AppendedTextRefusedIff | code/cpp/src/manifest_io.cpp:619-644 | And a record with something appended loads, as itself, if and only if that is blank |
| RecordText.CutDocumentRefused | code/cpp/src/manifest_io.cpp:195-235 | No proper beginning of a printed list or object, in any style, is a document |
| RecordText.RepeatedKey | code/cpp/src/manifest_io.cpp:619-644 | Of a key that is given twice, the last value counts |
| Canonical.SortIsUnique | code/go/internal/manifest/manifest.go:219-254 | With distinct keys there is one sorted arrangement, whichever sort made it, stable or not |
| Canonical.SortEqualIff | code/cpp/src/manifest_io.cpp:127-147 | Sorted lists are equal if and only if the lists are permutations of each other |
| Canonical.CanonicalJson | code/cpp/src/manifest_io.cpp:125-158 | The record form: sort four scopes, clear two fields, print compactly with escapes for all beyond ASCII |
| CanonicalReading.CanonicalTextSays | code/cpp/src/manifest_io.cpp:125-158 | The canonical text reads back as the manifest with packages in order of name and architecture, repositories of alias, units and files of name, all elements kept and the two volatile fields empty; it is ASCII on one line |
| CanonicalReading.SortIsStable | code/cpp/src/manifest_io.cpp:127-147 | Elements of one key stay in the order they had |
| Canonical.CanonicalIdentity | code/cpp/src/manifest_io.cpp:125-162 | For manifests with distinct identities, canonical texts are equal if and only if the manifests agree up to the order of elements, `created_at` and `desired_sha256` |
| Canonical.DesiredText | code/rs/src/manifest/hash.rs:22-31 | The tree form, on the JSON tree of a manifest: strip, sort by one string key, print |
| CanonicalReading.TreeTextSays | code/rs/src/manifest/hash.rs:22-31 | Its text reads back as the stripped and sorted tree, is on one line, and writes what is beyond ASCII as it is |
| CanonicalReading.TreeKeysOf | code/rs/src/manifest/hash.rs:77-100 | What has no text under a name sorts as if it were empty |
| Canonical.TreeIsNormal | code/rs/src/manifest/hash.rs:51-75 | Stripping and sorting the JSON tree is normalising the records |
| Canonical.TreeIdentity | code/rs/src/manifest/hash.rs:22-31 | The tree form identifies exactly the manifests that the record form does |
| CanonicalTree.TreeAt | code/rs/src/manifest/hash.rs:51-75 | Stripping and sorting acts on each member of a document by itself |
| CanonicalTree.DocumentIdentity | code/rs/src/manifest/hash.rs:22-31 | For any JSON documents, whatever fields their records have: equal canonical texts if and only if equal up to the order of elements and the two volatile fields |
| Canonical.PackageSortsAgree | code/rs/src/manifest/hash.rs:77-81 | For NUL-free names the joined key sorts packages as (name, arch) does |
| Canonical.JoinedOrderIff | code/rs/src/manifest/hash.rs:77-81 | For two names the joined key orders like the pair, whatever the architectures, if and only if neither name continues the other behind a NUL |
| Canonical.JoinedPrefix | code/rs/src/manifest/hash.rs:77-81 | For every such pair of names, architectures that the joined key misplaces |
| Calendar.CivilIsGregorian | code/rs/src/cli/mod.rs:414-426 | Every day number, negative ones included, converts to the date reached by walking the calendar day by day; the date is valid; the inverse day count returns the number |
| Calendar.CivilSteps | code/rs/src/cli/mod.rs:414-426 | Day 0 is 1970-01-01 and each next day number is the calendar's next day |
| Calendar.CivilIsMonotone | code/rs/src/cli/mod.rs:414-426 | A later day number is a later date, and conversely |
| Calendar.CivilInvertsDayCount | code/rs/src/cli/mod.rs:414-426 | Every valid date is the conversion of its day count |
| Calendar.EraIsFloor | code/rs/src/cli/mod.rs:416 | The era is a floor division although the machine division truncates |
| Calendar.StampShowsInstant | code/rs/src/cli/mod.rs:400-411 | A reader of section 5.6 of RFC 3339 gets back from every stamp the day that walking the calendar arrives at, and hour, minute and second that make up the rest of the instant, with all separators in their places |
| Calendar.StampOrder | code/rs/src/cli/mod.rs:400-411 | Stamps are injective, and ordered by time as long as they are equally wide |
| Calendar.StampsSortByTime | code/rs/src/cli/mod.rs:400-411 | Up to the year 9999, text order is time order |
| Calendar.StampWidth | code/rs/src/cli/mod.rs:407-410 | Up to the year 9999 a stamp is twenty characters long |
| Calendar.StampsStopSorting | code/rs/src/cli/mod.rs:407-410 | The first instant of the year 10000 sorts before the last one of 9999 |
| Calendar.StampsSortIff | code/rs/src/cli/mod.rs:400-411 | Text order is time order among the first n instants if and only if none is in the year 10000 or later |
| EtcWalk.Walker.WalkEtc | code/cpp/src/describe.cpp:345-393 | The explicit-stack walk terminates and visits exactly what the recursive walk does, each as often; it fails if and only if problems are errors and there is one |
| EtcWalk.Walker.Drain | code/cpp/src/describe.cpp:352-392 | The stack loop: visited and stacked together are always the whole walk; the directories below the stack get fewer |
| EtcWalk.Walker.WalkDirectory | code/cpp/src/describe.cpp:369-390 | One directory: leaves judged at once, subdirectories pushed |
| EtcWalk.Walker.Enter | code/cpp/src/describe.cpp:370-389 | One entry, in the order of tests that the loop body makes |
| EtcWalk.WalkIff | code/cpp/src/describe.cpp:373-380 | The walk visits exactly the leaves of the whole tree, minus every subtree whose root is the syncpoint or keep-listed |
| EtcWalk.WalkFindsIff | code/cpp/src/describe.cpp:345-393 | The walk visits exactly the leaves that one comes to name by name, and the directories that cannot be listed, none of the paths on the way being kept or the syncpoint |
| EtcWalk.ProblemPaths | code/cpp/src/describe.cpp:357-389 | Exactly the paths of unreadable files and directories are reported |
| EtcWalk.WalkOnce | code/cpp/src/describe.cpp:345-393 | No path is visited twice |
| EtcWalk.UnreadableEndsWalkIff | code/cpp/src/describe.cpp:357-372 | Under `error` an unreadable source ends the walk, as promised, if and only if the walk comes by no directory it may not list and no entry it may not look at |
| EtcWalk.DeniedPassesSilently | code/cpp/src/describe.cpp:358-372 | A tree whose one entry is such a directory or such an entry is walked without a word |
| Description.JudgeIff | code/cpp/src/describe.cpp:216-317 | A readable leaf gets a record if and only if its package does not account for it, and the record is true to it |
| Description.JudgedRecord | code/cpp/src/describe.cpp:224-290 | And it has mode, user, group, digest or target of the leaf and the name of its package |
| Description.ProblemIff | code/cpp/src/describe.cpp:235-293 | A leaf is a problem if and only if it is a file whose content cannot be read |
| Description.KeptIsHidden | code/cpp/src/describe.cpp:374-375 | The syncpoint and keep-listed paths are out of the walk's sight |
| Description.WalkDescribes | code/cpp/src/describe.cpp:345-393 | The records of an untroubled walk describe the tree in the sense that the stability theorems need |
| Alternatives.ParseAdmin | code/cpp/src/describe.cpp:111-148 | The `getline` loops read master, slave links and best provider as the recursive reading does, for every list of lines |
| Alternatives.ParseSlaves | code/cpp/src/describe.cpp:115-124 | The slave loop |
| Alternatives.ParseProviders | code/cpp/src/describe.cpp:125-148 | The best-so-far loop is the running best over all provider blocks |
| Alternatives.BestIsFirstMaximum | code/cpp/src/describe.cpp:128-147 | The selected provider is the one first provider of greatest priority; none is selected if and only if every priority is negative |
| Alternatives.WinnerIsUnique | code/cpp/src/describe.cpp:143-147 | There is only one first provider of greatest priority |
| Alternatives.BestIsGreatestIff | code/cpp/src/describe.cpp:128-143 | The greatest priority of all is selected if and only if some priority is not negative |
| Alternatives.NegativePriorityNeverWins | code/cpp/src/describe.cpp:128-143 | A lone provider of priority -5 is not selected |
| Alternatives.AdminReadsBack | code/cpp/src/describe.cpp:107-148 | Printing a well-formed admin file and reading it gives back master, slave links and the first provider of greatest priority with its own slave targets |
| Alternatives.AdminTextReadsBack | code/cpp/src/describe.cpp:107-148 | The same from the text of the file |
| Alternatives.StolReads | code/cpp/src/describe.cpp:134-135 | Every 64-bit number is read back from its decimal form |
| Alternatives.StolAny | code/cpp/src/describe.cpp:134-135 | White space, a sign, digits and whatever follows read as the number; none, or one beyond 64 bits, as 0 |
| Alternatives.NoMaster | code/cpp/src/describe.cpp:111-112 | A file of fewer than two lines says nothing |
| Alternatives.SlaveWithoutLink | code/cpp/src/describe.cpp:116-123 | A slave name at the end of the file is dropped |
| Alternatives.ProviderCutShort | code/cpp/src/describe.cpp:129-141 | A provider at the end of the file is dropped without a priority, and counts with one, with the targets there are |
| Alternatives.IndexAdmin | code/cpp/src/describe.cpp:149-173 | What one admin file adds to the index |
| Alternatives.KnownIff | code/cpp/src/describe.cpp:149-171 | Exactly the master link, its indirection, and each slave link with its own become known |
| Alternatives.ResolvesTo | code/cpp/src/describe.cpp:149-174 | Every path: it resolves to the target of the last slave that is about it and has one, else to the selected provider if it is the master link or its indirection, else as before |
| Alternatives.BasenameIs | code/cpp/src/describe.cpp:168 | A slave indirection is named after what follows the last slash of the link |
| ConfigReader.Reader.ReadConfigFiles | code/rs/src/state/configfiles.rs:77-188 | The three passes emit exactly one record for every path that is changed and on disk, unowned, or a ghost that differs, names strictly ascending; each has kind, mode, user, group, target, digest and reference of its entry, and package, status and changes by the precedence of the passes; content is missed of exactly the files that could not be read and must be stored, which is warned of or fails the reading |
| ConfigReader.DueIff | code/rs/src/state/configfiles.rs:107-181 | Changed and on disk, unowned file or link, or qualifying ghost, minus exclusions: together exactly the paths that are due a record |
| ConfigReader.RecordedIff | code/rs/src/state/configfiles.rs:107-181 | And who is due one in the terms of the entries: a ghost by its content or its best alternative |
| ConfigReader.RecordSays | code/rs/src/state/configfiles.rs:194-224 | What a record says of its entry and of its origin, field by field |
| ConfigReader.ReaderDescribes | code/rs/src/state/configfiles.rs:77-188 | Whatever this reader reads describes the tree in the sense that the stability theorems need |
| ConfigReader.Reader.Emit | code/rs/src/state/configfiles.rs:226-279 | Emission keeps one record per path and every blob filed under its own digest |
| ConfigReader.Reader.Store | code/rs/src/state/configfiles.rs:238-275 | Storing sets the reference to a blob that is there; when content is missing it fails, or warns of exactly that path |
| ConfigReader.Reader.WriteBlob | code/rs/src/state/configfiles.rs:281-289 | A blob already there is kept, and digests stay true |
| ConfigReader.Reader.EmitChanged | code/rs/src/state/configfiles.rs:111-133 | Pass one reaches exactly the changed paths found on disk |
| ConfigReader.Reader.EmitUnpackaged | code/rs/src/state/configfiles.rs:135-161 | Pass two adds exactly the unowned files and links |
| ConfigReader.Reader.EmitGhosts | code/rs/src/state/configfiles.rs:163-181 | Pass three completes the due paths |
| ConfigReader.Reader.GhostRecords | code/rs/src/state/configfiles.rs:635-689 | The ghosts to emit: a file with content, or an alternatives link whose target is not the best one, with the change that is, and not emitted already |
| ConfigReader.SortedRecords | code/rs/src/state/configfiles.rs:183 | Sorting keeps the records and makes their names strictly ascend |
| ConfigReader.CaptureThenRestore | code/cpp/src/converge.cpp:66-93 | Any emitted record with a reference converges from the store it was captured into, or any later state of it, if and only if it has a name and can be written where that leads; the digest check passes, the file has the recorded digest, and without collisions the captured bytes |
| ConfigReader.CaptureThenPut | code/rs/src/converge.rs:115-149 | The same for the Rust writer, whose mode has to be readable and settable |
| LineParsers.ParseRepoFile | code/rs/src/state/repos.rs:53-103 | The line loop with its current record and section flag computes the fold over lines |
| LineParsers.ReposReadBack | code/rs/src/state/repos.rs:53-103 | Printing any list of repositories with trimmed one-line values and parsing gives the list back |
| LineParsers.OnePerSection | code/rs/src/state/repos.rs:63-81 | Whatever the text, there are as many records as section lines |
| LineParsers.FieldLine | code/rs/src/state/repos.rs:82-97 | A `key=value` line sets exactly that field |
| LineParsers.PaddedField | code/rs/src/state/repos.rs:58-84 | And so does one with blanks and tabs at its ends and around its first `=` |
| LineParsers.SectionSays | code/rs/src/state/repos.rs:63-97 | Whatever fields a section gives, in whatever order: each field of the record is the last value of its key, or its default; flags are on for four words |
| LineParsers.IgnoredLine | code/rs/src/state/repos.rs:58-84 | Blank lines, comments, lines without `=`, headers that are not closed and fields in front of the first section say nothing |
| LineParsers.IntReadsBack | code/rs/src/state/repos.rs:93 | Every 64-bit priority is read back |
| LineParsers.IntReads | code/rs/src/state/repos.rs:93 | An optional sign and digits read as the number, or 0 beyond 64 bits |
| LineParsers.IntRefuses | code/rs/src/state/repos.rs:93 | Anything else is 0 |
| LineParsers.ParseVerifyOutput | code/rs/src/state/configfiles.rs:549-581 | The line loop reports what the line-by-line reading does, and panics where it does |
| LineParsers.PanicIff | code/rs/src/state/configfiles.rs:551-559 | The parser panics if and only if some line does |
| LineParsers.LinePanicsIff | code/rs/src/state/configfiles.rs:594-598 | A line does if and only if it has eleven bytes or more, is no missing-line, and its ninth byte is inside a character |
| LineParsers.CharsInIff | code/rs/src/state/configfiles.rs:597-598 | A number of bytes ends where a character does if and only if it is the bytes of some first characters |
| LineParsers.WidthIsLeast | code/rs/src/state/configfiles.rs:594-598 | A character takes as few bytes as UTF-8 needs for it |
| LineParsers.AccentPanics | code/rs/src/state/configfiles.rs:597-598 | Eight flags and a letter of two bytes |
| LineParsers.VerdictReadsBack | code/rs/src/state/configfiles.rs:583-603 | Any verdict line for a configuration file gives back its path and exactly its flag labels, and is dropped if it has none |
| LineParsers.VerdictSays | code/rs/src/state/configfiles.rs:605-623 | What a verdict line reports, flag by flag: nothing if none is set, else the path with exactly the labels that rpm gives to its flags |
| LineParsers.LabelsInOrder | code/rs/src/state/configfiles.rs:605-623 | Labels come in the order of their flags, one for each of the nine flags that is set |
| LineParsers.LabelsSay | code/rs/src/state/configfiles.rs:608-617 | "size" is reported if and only if S is set, "mode" if and only if M is, and so on for all nine |
| LineParsers.LineReadsBack | code/rs/src/state/configfiles.rs:549-581 | For any nine characters of one byte, any type and any blanks: nothing unless the type is c and something is said, "deleted" if the flags hold the word |
| LineParsers.SaysMissingIff | code/rs/src/state/configfiles.rs:564 | Flags say so if and only if they hold the word |
| LineParsers.PathlessLine | code/rs/src/state/configfiles.rs:583-603 | A line without a path is no verdict |
| LineParsers.ReportsJoin | code/rs/src/state/configfiles.rs:549-581 | Reports come in the order of their lines |
| LineParsers.MissingReadsBack | code/rs/src/state/configfiles.rs:583-592 | A missing-file line reports the path as deleted |
| LineParsers.NoEmptyChanges | code/rs/src/state/configfiles.rs:567-577 | Whatever rpm prints, no reported change is empty |
| LineParsers.LabelIff | code/rs/src/state/configfiles.rs:605-623 | A label is reported if and only if a flag that has it is set; which flag that is says `LineParsers.LabelsSay` |

## Left out

- Converge.FilesClosedForm: takes names as they are; a name with repeated slashes or dot components reaches another path than the one it spells, and only the crash of names that hold nothing but slashes is modelled. Parent directories, umask and directories as declared entries are not.
- Converge.WriteEscapes: what a write through such a link does to the running system is outside the model, which says only that the new tree does not get it.
- Ledger.DroppedIsGone: says nothing of paths that zypper or systemctl touches or that are written through a link, for those are not the ledger's.
- Canonical.CanonicalJson: bytes that are not UTF-8, which jsoncpp replaces.
- Canonical.TreeIdentity: over the records that the languages share; Rust has two more fields in file records, 64-bit integers and attributes of any JSON type, for which `CanonicalTree.DocumentIdentity` speaks of the documents instead.
- ManifestIO.RecordReloads: the reader is one for RFC 8259 and not jsoncpp's, which accepts more. A value that jsoncpp cannot convert, which is an uncaught exception, and a document that is refused are one outcome there, None; `Apply.World` tells the two apart.
- Apply.Run.Apply: packages, snapshots, sealing and the describe step are answers of the surroundings; the snapshot that a failed run leaves behind, and the Rust variant of the verb, are not modelled. The description of the running system is one value, when the describe step throws is not modelled (that it may is), and exit messages are left out except "nothing to do".
- EtcWalk.Walker.WalkEtc: storing content during the C++ walk is not modelled (the Rust reader's store is), nor is a missing /etc, which both read as empty.
- Alternatives.IndexAdmin: one admin file; the iteration over the directory and its failure are left out.
- YAML, on both sides; the Go canonical text.
- Floating-point numbers in JSON, which no manifest field has.
- Overflow of the 64-bit day arithmetic, which needs day numbers near the limits of the type.
- The Go package drift, which joins name and architecture only; the full scan; repository parsing in C++.
- The verbs describe, diff, status and verify, manifest validation, signatures, option parsing and the keep-list file: independent checks and texts that no theorem here needs.
- Failures of the content store and of rpm, zypper, systemctl or snapper beyond success and failure.
