# hookfs and plthook, verified models

Dafny models of the two crates, and proofs about them: the in-memory filesystem, the path namespace and
router, the slot-patching transaction and its guards, the Mach-O and ELF import parsers, and the protocols
by which installations, virtual descriptors and shared streams are handled from many threads at once.
`dafny verify dfyconfig.toml` checks everything. Files follow the program's components:

| files | component |
|---|---|
| `Wildcard`, `Paths`, `Router` | glob matching, path keys, routing and the tracked working directory |
| `Io`, `MemFiles`, `Tree`, `TreeMoves`, `Unmount`, `MemoryFs`, `FsRuns` | volume, files, cursors, the key map as a tree, and whole runs of them |
| `SharedSource`, `Carriers` | cursors over one mutex-guarded stream; carrier descriptors |
| `Slots`, `Guards`, `Pending` | page protections, swaps, rollback, nested guards, slot planning |
| `Dispatch`, `Installs`, `Stragglers`, `Installers` | the single active installation, its interleavings, its sequential code |
| `BindStream`, `BindRoundTrip`, `Chains`, `ImportsTables`, `SegmentStarts`, `Merge` | Mach-O bind opcodes, chained fixups, merging enumerations |
| `Elf`, `ElfWalk`, `ElfLayout`, `ElfModes`, `ElfWitness` | one ELF parser behind an addressing-mode view |
| `Wrappers`, `LittleEndian` | shared results, saturating arithmetic, words |

Code that changes things step by step is a method or a class here, proved against a specification function
or relation; what the code is for is then proved about that specification. Code that runs on many threads
is a relation between states whose steps are the critical sections, and its theorems hold at every point of
every run. Byte strings stand for names; system calls are parameters or may fail at any time. The calls
that change page protections record their failures, and what fails above them is tied to those records.

Constants and layouts follow the System V gABI (chapter 4, Relocation; chapter 5, Dynamic Section), section
10.7 of the LSB Core specification for symbol versions, and section 7.6 of DWARF Version 5 for LEB128.

## What the proofs found

Where the code does not do what it is meant to on every input, the exact condition is a theorem.

- `Volume::resize` compares a saturated total with the capacity, so at capacity `u64::MAX` an extension can
  wrap `used`: exact if and only if the capacity is smaller or the true total fits (`MemFiles.ResizeExactIff`,
  `MemFiles.ResizeCanWrap`).
- `writev` differs from one `write` of the concatenation exactly when the total runs past a 64-bit offset
  that the first non-empty buffer alone does not (`MemFiles.WritevRefinesWrite`).
- Moving a directory into itself is refused unless it is the root, which is its own parent
  (`TreeMoves.SelfMoveRefusedIffNotRoot`); renaming or inserting keeps the tree a tree exactly when no strict
  ancestor of the target stays a file, because a file found as an ancestor is kept
  (`TreeMoves.RenameWellFormedIff`, `TreeMoves.InsertWellFormedIff`).
- A namespace rooted at `/` contains only `/` itself, so a relative path of a tracked working directory can
  then reach the kernel; it never does exactly when the root has a component (`Router.RelativeNeverRealIff`).
- `apply` documents that on an error nothing stays patched and no page is left with changed protection. Nothing
  stays patched except when a protection could not be restored and then a page could not be opened again
  (`Slots.Process.Apply`, whose errors are each tied to the system call that failed). Whatever the outcome the
  pages left opened are exactly those whose restore failed, also in `make_writable`, whose comment promises none;
  so every protection is unchanged if and only if those pages were writable before (`Slots.UnchangedIff`).
- The comment on the TLS bootstrap says that only the raw name `__tlv_bootstrap` normalizes to it; its `$`
  variants do too (`BindStream.BootstrapNames`).
- A page chain longer than 2^24 slots is cut off without an error: binds are lost exactly when one lies past that
  many slots (`Chains.LongChainsAreCut`; for any chain, failing or not, `Chains.WalkIsWholeIff`).
- With replacements that were never in their slots before, uninstalls in any order return memory exactly
  when, on every slot, the guards there are dropped newest first (`Guards.RestoredIffNewestFirst`).
- A live installation can lose its hooks: a rescan that outlives its installation may patch a module first,
  and its guard, dropped later, unhooks the slot under the installation that patched over it
  (`Stragglers.StragglerUnhooksLive`). Over a run this happens to a slot exactly when a guard that found it
  unhooked, and that is the oldest guard there, is uninstalled from under another (`Stragglers.StaysHookedIff`,
  `Stragglers.StaysHookedByOrderIff`); it cannot happen as long as no rescan is still under way when its
  installation begins to end (`Stragglers.LiveStaysHooked`).

## Model

| member | source | states |
|---|---|---|
| Wildcard.MatchesFrom | crates/hookfs/src/namespace.rs:327-367 | The matcher that remembers one star decides the declarative glob relation for every pattern and text, and terminates. |
| Wildcard.SecondStarCommits | crates/hookfs/src/namespace.rs:340-357 | Why one remembered star is enough: reaching a second star makes the first one's leftmost placement final. |
| Wildcard.Backtrack | crates/hookfs/src/namespace.rs:348-353 | A mismatch rules out the star's present placement and no other. |
| Paths.NormalizeKeyStr | crates/hookfs/src/namespace.rs:209-229 | The one-pass loop yields the path's names joined by single separators. |
| Paths.KeysEqualIffComponentsEqual | crates/hookfs/src/namespace.rs:209-233 | Keys are a canonical form: equal exactly for equal name lists (and absoluteness). |
| Paths.NormalizeKeepsComponents | crates/hookfs/src/namespace.rs:209-229 | Normalizing loses no name and adds none. |
| Paths.NormalizeIdempotent | crates/hookfs/src/namespace.rs:209-229 | Normalizing twice is normalizing once. |
| Paths.ParentCommutes | crates/hookfs/src/providers/memory.rs:876-883 | The string parent of the key is the key of the path's parent; only the root has none. |
| Paths.PrefixIffComponents | crates/hookfs/src/namespace.rs:237-243 | The string prefix test on keys is the component-list prefix for a non-root prefix, and equality for the root. |
| Paths.SafeIffDotFree | crates/hookfs/src/namespace.rs:147-154 | Lexically safe means no NUL and no navigating name. |
| Router.Engine.ClassifyCall | crates/hookfs/src/router.rs:105-124 | Classifies against the tracked directory and changes nothing. |
| Router.Engine.ShimChdir | crates/hookfs/src/shims/unix.rs:2358-2395 | What each outcome of chdir leaves tracked. |
| Router.JoinAppends | crates/hookfs/src/router.rs:105-118 | Resolving a relative path appends its names to the directory's. |
| Router.VirtualIffInside | crates/hookfs/src/namespace.rs:107-112 | Membership is component-wise containment, except that a bare-root namespace holds the root alone. |
| Router.RunKeepsCwdInside | crates/hookfs/src/shims/unix.rs:2372-2395 | After any sequence of calls a tracked directory is a safe path inside the namespace. |
| Router.RelativeNeverRealIff | crates/hookfs/src/router.rs:105-124 | No relative path of a tracked directory ever reaches the kernel, over all runs, exactly when the namespace root has a component. |
| Router.RootNamespaceLeaks | crates/hookfs/src/namespace.rs:237-243 | The run that does leak under a bare root. |
| Router.InsideNeverReal | crates/hookfs/src/router.rs:105-124 | An absolute path is passed on exactly when it is outside, and served exactly when inside and safe. |
| Router.VirtualNeverLeaves | crates/hookfs/src/namespace.rs:147-154 | Resolving a served path name by name never leaves the root, at any step. |
| MemFiles.Volume.Resize | crates/hookfs/src/providers/memory.rs:69-89 | The new total, or no change and no space. |
| MemFiles.Volume.Reserve | crates/hookfs/src/providers/memory.rs:93-103 | Grants the longest length up to the wanted one that the free space allows. |
| MemFiles.Volume.Release | crates/hookfs/src/providers/memory.rs:109-115 | Returns bytes to the volume, all that are in use at most. |
| MemFiles.ResizeExactIff | crates/hookfs/src/providers/memory.rs:69-89 | Resize accounts exactly if and only if the capacity is below the largest word or the true total fits one. |
| MemFiles.ResizeCanWrap | crates/hookfs/src/providers/memory.rs:69-89 | An accepted extension after which nothing is counted as used. |
| MemFiles.ShortCount | crates/hookfs/src/providers/memory.rs:203-249 | A short write is maximal: every larger count would not fit the free space. |
| MemFiles.MemFile.ReadAt | crates/hookfs/src/providers/memory.rs:182-201 | The bytes from the position on, as many as there are. |
| MemFiles.MemFile.WriteAt | crates/hookfs/src/providers/memory.rs:203-249 | Reserve, fill, place and account together are one exact write: longest fitting count, zero-filled gap, other bytes kept, or an error that changes nothing. |
| MemFiles.MemFile.SetLen | crates/hookfs/src/providers/memory.rs:252-268 | Cut or zero-extend or leave alone; refused, for lack of space only, exactly when the total exceeds the capacity. |
| MemFiles.WriteThenRead | crates/hookfs/src/providers/memory.rs:182-249 | What was written reads back; every other byte and the length are as stated; free plus length is conserved. |
| MemFiles.MemFileHandle.Write | crates/hookfs/src/providers/memory.rs:286-316 | A write at the private cursor moves it past what was written. |
| MemFiles.MemFileHandle.Seek | crates/hookfs/src/providers/memory.rs:324-345 | Where each seek lands, and which are refused. |
| MemFiles.MemFileHandle.Size | crates/hookfs/src/vfs.rs:24-31 | The size probe answers the length and leaves the cursor alone. |
| MemFiles.MemFileHandle.Pread | crates/hookfs/src/shims/unix.rs:876-930 | A positioned read leaves the cursor where it was. |
| MemFiles.MemFileHandle.Pwrite | crates/hookfs/src/shims/unix.rs:1148-1206 | A positioned write leaves the cursor where it was. |
| MemFiles.MemFileHandle.Writev | crates/hookfs/src/shims/unix.rs:1092-1142 | The loop over buffers, with its early stops, against the vectored specification. |
| MemFiles.MemFileHandle.Readv | crates/hookfs/src/shims/unix.rs:823-871 | The loop over buffers is one read of their total length. |
| MemFiles.WriteVecIsOneWrite | crates/hookfs/src/shims/unix.rs:1117-1142 | Within 64-bit offsets a vectored write is one write of the concatenation, from any point of the loop. |
| MemFiles.WritevRefinesWrite | crates/hookfs/src/shims/unix.rs:1117-1142 | Exactly when the vectored write equals one write, for all buffers and positions. |
| MemFiles.WritevCanDiffer | crates/hookfs/src/shims/unix.rs:1117-1142 | A file and two buffers for which it does not. |
| MemFiles.ReadVecIsOneRead | crates/hookfs/src/shims/unix.rs:843-871 | A vectored read over any stream whose reads split is one read of the total length, from any buffer on. |
| MemFiles.ReadConcat | crates/hookfs/src/shims/unix.rs:843-871 | Consecutive reads are one longer read, and a short one is the end. |
| Tree.InsertAncestorDirs | crates/hookfs/src/providers/memory.rs:839-855 | The walk over path parents inserts exactly the missing ancestors. |
| Tree.AddAncestorsExact | crates/hookfs/src/providers/memory.rs:839-855 | Pointwise: present nodes stay, missing ancestors become directories, nothing else changes. |
| TreeMoves.InsertWellFormedIff | crates/hookfs/src/providers/memory.rs:839-855 | Inserting keeps the tree a tree exactly when nothing above stays a file and no file is put above others. |
| TreeMoves.RekeyMoves | crates/hookfs/src/providers/memory.rs:820-828 | Rekeying replaces the leading names and can be undone. |
| TreeMoves.RekeyOnto | crates/hookfs/src/providers/memory.rs:820-828 | Keys below the destination are exactly images of source keys: no collisions. |
| TreeMoves.Rename | crates/hookfs/src/providers/memory.rs:715-780 | Each error in the source's order with no change; on a tree, the exact moved tree: destination node replaced, subtree rekeyed, ancestors added. |
| TreeMoves.DestinationIsClear | crates/hookfs/src/providers/memory.rs:731-758 | After the checks nothing but the replaced node is at or below the destination. |
| TreeMoves.RenameWellFormedIff | crates/hookfs/src/providers/memory.rs:715-780 | A rename keeps the tree a tree exactly when no strict ancestor of the target stays a file. |
| TreeMoves.SelfMoveRefusedIffNotRoot | crates/hookfs/src/providers/memory.rs:715-780 | A move below itself is refused exactly when the source is not the root. |
| Unmount.RemoveSubtree | crates/hookfs/src/providers/memory.rs:491-512 | The retain and prune loop removes exactly the subtree and the directories it alone kept alive. |
| Unmount.UnmountWellFormedIff | crates/hookfs/src/providers/memory.rs:491-512 | Unmounting keeps a tree a tree unless it takes the root from under others. |
| Unmount.HistoryLeavesTheClosure | crates/hookfs/src/mount.rs:171-175 | After any history of unique, non-nested mounts, read-only or writable, and drops the entries are the ancestor closure of the live mounts. |
| Unmount.EverythingUnmounted | crates/hookfs/src/mount.rs:171-175 | When all are dropped nothing but possibly the root is left. |
| MemoryFs.Provider.OpenWrite | crates/hookfs/src/providers/memory.rs:562-625 | Which file a write-open yields or why it is refused, and the tree after it. |
| MemoryFs.OpenHandle | crates/hookfs/src/providers/memory.rs:611-624 | The handle half of a write-open: truncation never fails and returns exactly the file's bytes, append only places the cursor. |
| MemoryFs.Provider.Remove | crates/hookfs/src/providers/memory.rs:673-713 | Every outcome of removing. |
| MemoryFs.Provider.CreateDir | crates/hookfs/src/providers/memory.rs:782-795 | Every outcome of creating a directory. |
| MemoryFs.Provider.RenamePath | crates/hookfs/src/providers/memory.rs:715-780 | The provider's tree after a rename, unchanged on error. |
| MemoryFs.Provider.DropMount | crates/hookfs/src/mount.rs:171-175 | The provider's tree after a guard drops. |
| MemoryFs.RemoveKeepsTree | crates/hookfs/src/providers/memory.rs:673-713 | Removing never orphans an entry and never removes the root. |
| FsRuns.RunConserves | crates/hookfs/src/providers/memory.rs:69-115 | Over every interleaving of opens, writes, truncations, renames, removals, unmounts and closes, usage is the sum of what every file is charged, within capacity, and every referenced file is accounted. |
| FsRuns.SettledUsage | crates/hookfs/src/providers/memory.rs:203-281 | With no change in flight, usage is exactly the sum of the lengths of the files still referenced. |
| FsRuns.SubtractionsAreExact | crates/hookfs/src/providers/memory.rs:79-115 | No saturating subtraction ever saturates. |
| FsRuns.ReturnedOnce | crates/hookfs/src/providers/memory.rs:270-281 | A file's bytes are returned once and for good. |
| FsRuns.ReserveApplyIsWrite | crates/hookfs/src/providers/memory.rs:203-249 | The two critical sections of a write together are the one exact write. |
| FsRuns.RunKeepsTree | crates/hookfs/src/providers/memory.rs:839-855 | In every run that puts nothing below a file, every non-root key's parent is a directory. |
| SharedSource.PhysicalStream.Size | crates/hookfs/src/vfs.rs:24-31 | A successful probe gives the length and the position it began with. |
| SharedSource.Source.ReadAt | crates/hookfs/src/vfs.rs:311-319 | Seek and read in one section deliver the bytes at the asked position, possibly fewer. |
| SharedSource.Share | crates/hookfs/src/vfs.rs:293-304 | Wrapping keeps the length the probe answered, or fails. |
| SharedSource.SourceCursor.Read | crates/hookfs/src/vfs.rs:335-344 | A read is a read of a private copy under some answer of the stream. |
| SharedSource.SourceCursor.Seek | crates/hookfs/src/vfs.rs:346-370 | A seek is a seek of a private copy and touches no shared state. |
| SharedSource.SourceCursor.Size | crates/hookfs/src/vfs.rs:24-31 | The probe leaves the private position alone. |
| SharedSource.SourceCursor.Pread | crates/hookfs/src/shims/unix.rs:876-930 | A positioned read of a source is a private read at that offset and leaves the cursor where it was, also when it fails. |
| SharedSource.StepIsPrivate | crates/hookfs/src/vfs.rs:311-344 | A step completes at most one operation, its own cursor's, as a private stream would. |
| SharedSource.EveryCursorIsPrivate | crates/hookfs/src/vfs.rs:311-370 | In every interleaving, with short reads and failures anywhere, each cursor sees exactly what it would over its own copy. |
| SharedSource.ReaderSeesAPrefix | crates/hookfs/src/vfs.rs:335-344 | A cursor that never seeks has received a gapless prefix of the file. |
| SharedSource.SizeProbeIsNeutral | crates/hookfs/src/vfs.rs:24-31 | The probe's three seeks answer and restore. |
| Carriers.Registry.RemoveFile | crates/hookfs/src/registry.rs:177-182 | The entry, and the table without it. |
| Carriers.OpenVirtual | crates/hookfs/src/shims/unix.rs:662-711 | Each refusal with nothing changed, or the stream under a descriptor no one had. |
| Carriers.ShimClose | crates/hookfs/src/shims/unix.rs:1006-1028 | Entry and descriptor both gone. |
| Carriers.RunsKeepInv | crates/hookfs/src/shims/unix.rs:697-711 | Over every interleaving each open descriptor has exactly one owner. |
| Carriers.RoutingIsExact | crates/hookfs/src/registry.rs:160-182 | At every point registry keys are open, a virtual descriptor routes to its own stream and a real one to none. |
| Carriers.NothingIsTakenTwice | crates/hookfs/src/shims/unix.rs:1006-1028 | No insert overwrites; every close is of an open, unregistered, unheld descriptor. |
| Carriers.QuietMeansBalanced | crates/hookfs/src/shims/unix.rs:697-711 | With no thread in a shim, open is held and registered is held as virtual: no leaks. |
| Carriers.SwappedCloseAliases | crates/hookfs/src/shims/unix.rs:1019-1024 | Closing before removing would let a real open be served from the dead stream. |
| Slots.Process.MakeWritable | crates/plthook/src/slot.rs:87-122 | Opens the pages and captures what they were; fails exactly when one was refused, putting back the others but for those whose restore fails. |
| Slots.Process.Apply | crates/plthook/src/slot.rs:144-168 | All slots replaced and no restore failed; or a page refused and no slot changed; or a restore failed and every slot rolled back, unless a page was refused again. In each case exactly the pages whose restore failed are left opened. |
| Slots.Process.RollBack | crates/plthook/src/slot.rs:155-166 | The undo after a failed restore runs exactly when no page is refused, and leaves open exactly the pages whose restore failed. |
| Slots.Process.RestoreHooks | crates/plthook/src/slot.rs:399-446 | Unless a page is refused, each slot is restored exactly where its replacement still is; success means no conflict, a conflict is the first one. |
| Slots.RollbackRestores | crates/plthook/src/slot.rs:155-166 | Distinct slots are always rolled back to the memory before the swaps. |
| Slots.RollbackRestoresIff | crates/plthook/src/slot.rs:155-166 | For every patch list the rollback restores memory exactly when the last patch of each slot found the initial value there. |
| Slots.TwicePatchedIff | crates/plthook/src/slot.rs:155-166 | So a slot listed twice is restored exactly when its first patch wrote what was there: why planning must deduplicate. |
| Slots.Process.Close | crates/plthook/src/slot.rs:125-138 | Restoring captured protections undoes opening on every page but exactly those whose restore fails. |
| Slots.UnchangedIff | crates/plthook/src/slot.rs:143-168 | After any of these calls no protection has changed exactly when the pages whose restore failed were writable before. |
| Pending.Collect | crates/plthook/src/slot.rs:476-537 | Planned slots are distinct; each holds what the first-listed request that applies to it asks for; none with such a request is left out; each refusal is justified. |
| Pending.Install | crates/plthook/src/slot.rs:470-576 | Plan and apply: exactly the planned slots hooked; or a justified refusal with nothing touched; or a failed call, with memory as it was unless the rollback was refused its pages. |
| Guards.RestoreUndoesInstall | crates/plthook/src/slot.rs:399-446 | Uninstalling right after installing returns memory. |
| Guards.BracketsUnwind | crates/plthook/src/slot.rs:542-565 | Properly bracketed installs over any overlapping slots always unwind to the initial memory. |
| Guards.UninstallAt | crates/plthook/src/slot.rs:420-437 | In any order, an uninstall writes a slot exactly when its guard is the top one there, and otherwise reports. |
| Guards.HistoryGood | crates/plthook/src/slot.rs:399-446 | Over every history each slot is a stack of live and stranded hooks over its initial value. |
| Guards.AllDroppedIff | crates/plthook/src/slot.rs:399-446 | When all guards are gone memory is initial exactly when no uninstall reported a conflict. |
| Guards.NoReportIffNewestFirst | crates/plthook/src/slot.rs:399-446 | No uninstall reports a conflict exactly when the operations drop the guards of every slot newest first. |
| Guards.RestoredIffNewestFirst | crates/plthook/src/slot.rs:399-446 | Hence with all guards dropped memory is initial exactly when that order, read off the operations alone, was kept. |
| Guards.CoveredGuardReports | crates/plthook/src/slot.rs:432-437 | A covered guard leaves the later guard's slot alone and says so. |
| Dispatch.Globals.TryActivate | crates/hookfs/src/dispatch.rs:607-617 | The free place under a new token, or no change. |
| Dispatch.Globals.Deactivate | crates/hookfs/src/dispatch.rs:622-630 | Clears only the caller's own installation. |
| Installs.StepKeepsInv | crates/hookfs/src/install.rs:167-239 | Every atomic step of install, rescan and drop keeps the whole invariant. |
| Installs.OneInstallationAtATime | crates/hookfs/src/dispatch.rs:607-617 | At every point of every run at most one installation is not over, and it is the published one. |
| Installs.StaleTokensAreHarmless | crates/hookfs/src/dispatch.rs:622-630 | A token of an installation that is over never changes anything. |
| Installs.NoModuleIsPatchedTwice | crates/hookfs/src/install.rs:260-290 | No installation patches a module base twice, whatever its first pass and rescans interleave with. |
| Installs.UnguardedSlotsAreUnhooked | crates/hookfs/src/install.rs:306-316 | A slot not covered by an outstanding guard holds its unhooked value, even after overlapping installations. |
| Installs.FailureLeavesNothing | crates/hookfs/src/install.rs:217-226 | A failed installation has no guard and no token left, and what it alone patched is unhooked. |
| Installs.ShimsHaveOriginals | crates/hookfs/src/install.rs:479-507 | A slot that holds a shim has a saved, non-zero original, the one lookup gives. |
| Installs.PublishedBeforePatched | crates/hookfs/src/install.rs:179-184 | While an installation that hooked anything is not over, its engine is the published one. |
| Stragglers.StaysHookedIff | crates/hookfs/src/install.rs:260-316 | Over any run a slot under an outstanding guard is always hooked exactly when no guard that found it unhooked is uninstalled from under another. |
| Stragglers.StaysHookedByOrderIff | crates/hookfs/src/install.rs:260-316 | The same by order alone: exactly when the oldest guard on a slot is never uninstalled while another is on it. |
| Stragglers.LiveStaysHooked | crates/hookfs/src/install.rs:260-316 | While every rescan under way is for a live installation, the slots of an installation that is not ending hold their shims. |
| Stragglers.StragglerUnhooksLive | crates/hookfs/src/install.rs:260-316 | The reachable state in which a live installation's slot is unhooked by a straggling rescan of the one before. |
| Installers.Installer.HookModule | crates/hookfs/src/install.rs:202-216 | One module hooked as planned and noted; or a failure with its reason, no guard added, and memory still what the guards cover unless a rollback page was refused. |
| Installers.Installer.HookAll | crates/hookfs/src/install.rs:205-228 | The first pass: every module hooked once in order, or the first failure with its reason. |
| Installers.Installer.UninstallAll | crates/hookfs/src/install.rs:306-316 | Dropping all guards, oldest first, returns memory exactly when no page is refused. |
| Installers.Installer.Rescan | crates/hookfs/src/install.rs:260-290 | The eligible bases not noted before are noted and tried, each once; their hooks are added, fewer only where a patch failed for a reason. |
| Installers.InstallInto | crates/hookfs/src/install.rs:167-239 | Refused; or every module hooked once under the token; or failed for a reason with the token released and memory restored, unless a page needed for that was refused. Only pages whose restore failed are left opened. |
| Installers.DropInstall | crates/hookfs/src/install.rs:355-363 | Memory is back unless a page was refused; only its own token is released; only pages whose restore failed are left opened. |
| BindStream.Uleb128 | crates/plthook/src/macho.rs:842-862 | The decoding loop against its specification. |
| BindStream.UlebRoundTrip | crates/plthook/src/macho.rs:842-862 | Decoding inverts encoding for every 64-bit value and stops at the byte after it. |
| BindStream.SkipSleb128 | crates/plthook/src/macho.rs:864-886 | Where the signed operand ends. |
| BindStream.SlebConsumes | crates/plthook/src/macho.rs:864-886 | It consumes exactly one well-formed operand. |
| BindStream.BootstrapNames | crates/plthook/src/macho.rs:317-343 | Exactly which raw names are taken for the TLS bootstrap. |
| BindStream.ReadNameInverts | crates/plthook/src/macho.rs:268-287 | A name laid out with its NUL reads back. |
| BindStream.ParseBind | crates/plthook/src/macho.rs:898-998 | The interpreter loop against the replay of its instructions. |
| BindRoundTrip.DecodeInverts | crates/plthook/src/macho.rs:898-998 | Every encoded instruction decodes to itself at its place in any stream. |
| BindRoundTrip.StreamRoundTrip | crates/plthook/src/macho.rs:898-998 | Replaying a stream assembled anywhere in an image is executing its instructions, or the refusal of its size or place. |
| BindRoundTrip.TimesIsCopies | crates/plthook/src/macho.rs:975-992 | The repeat opcode is that many single binds, followed by anything, exactly up to the repeat cap. |
| BindRoundTrip.BindListRoundTrip | crates/plthook/src/macho.rs:898-1032 | Assembling any bind list anywhere in an image and replaying it yields exactly its imports or its first error, or the refusal of its size or place. |
| BindRoundTrip.ResolvableImports | crates/plthook/src/macho.rs:1000-1032 | For resolvable binds these are the binds in order, names normalized, TLS bootstrap left out. |
| Chains.DecodeInverts | crates/plthook/src/macho.rs:1050-1095 | Every field of every supported pointer format is recovered. |
| Chains.WalkPage | crates/plthook/src/macho.rs:1265-1299 | The page loop against the recursive walk. |
| Chains.WalkInverts | crates/plthook/src/macho.rs:1272-1299 | A chain of slots is walked to exactly its binds in order, up to the step cap. |
| Chains.WalkIsWholeIff | crates/plthook/src/macho.rs:1272-1299 | For every chain and step budget the walk gives what the whole chain stands for exactly when no slot past the budget contributes, or one within it fails. |
| Chains.LongChainsAreCut | crates/plthook/src/macho.rs:1272-1299 | Where every bind is importable the walk never fails, and loses a bind exactly when one lies past the step budget. |
| Chains.PageRoundTrip | crates/plthook/src/macho.rs:1244-1303 | Encoding any rising, representable slot list into a page and walking it recovers offset, ordinal and authenticated bit of each bind. |
| Chains.SegmentInverts | crates/plthook/src/macho.rs:1244-1303 | The same for all pages of a segment. |
| SegmentStarts.WalkSegmentChains | crates/plthook/src/macho.rs:1244-1303 | Header, page starts and pages walked in the loop's order, against the specification. |
| SegmentStarts.SegmentRoundTrip | crates/plthook/src/macho.rs:1244-1303 | A segment laid out as header, starts and pages walks back to the binds of every page, in order. |
| Chains.OffsetsIncrease | crates/plthook/src/macho.rs:1293-1299 | On every image, well formed or not, the walked offset strictly increases. |
| Chains.NeverAuthenticated64 | crates/plthook/src/macho.rs:1050-1065 | On any image the 64-bit formats report no bind as authenticated: what one would become makes no difference to the walk. |
| ImportsTables.ResolveInverts | crates/plthook/src/macho.rs:1112-1165 | In all three formats an ordinal resolves to the library and name its record was laid out with; past the table it is refused. |
| ImportsTables.WordFields | crates/plthook/src/macho.rs:1128-1147 | Signed ordinal and name offset are recovered from the packed word. |
| ImportsTables.NamedPageRoundTrip | crates/plthook/src/macho.rs:1244-1303 | Slots and imports laid out in an image come back as named imports, in order, TLS bootstrap left out. |
| Merge.MergeComplement | crates/plthook/src/macho.rs:1367-1383 | The indexed loop yields the expected enumeration once duplicates are dropped. |
| Merge.RetainFirst | crates/plthook/src/macho.rs:1350-1354 | Keeps the first record of each slot. |
| Merge.Enumerate | crates/plthook/src/macho.rs:1334-1355 | The whole enumeration; a failed complement contributes nothing. |
| Merge.EnumerationIsPrecise | crates/plthook/src/macho.rs:1367-1383 | Each slot once; identity from the earliest record; flag from the last complement record, else the earliest. |
| Merge.EnumerationCoversUnion | crates/plthook/src/macho.rs:1338-1355 | The slots are the union of both sources. |
| ElfWalk.ReadString | crates/plthook/src/elf.rs:208-227 | The byte loop against the string it reads. |
| ElfWalk.ReadDynamic | crates/plthook/src/elf.rs:374-402 | The entry loop against the collected values. |
| ElfWalk.BuildVersionMap | crates/plthook/src/elf.rs:412-458 | The nested list walk against the version map. |
| ElfWalk.WalkTable | crates/plthook/src/elf.rs:493-547 | The relocation loop appends exactly the table's imports. |
| ElfWalk.ParseImports | crates/plthook/src/elf.rs:555-637 | The whole parse against its specification. |
| ElfLayout.ReadStrReads | crates/plthook/src/elf.rs:208-227 | A string in the table, within bounds and cap, reads back. |
| ElfLayout.DynamicReads | crates/plthook/src/elf.rs:374-402 | A terminated dynamic array yields exactly the last value of each wanted tag. |
| ElfLayout.NeedsRead | crates/plthook/src/elf.rs:412-458 | A linked list of needed versions yields all of them in order. |
| ElfLayout.LearnIsLast | crates/plthook/src/elf.rs:446 | An index stands for the last version that claims it. |
| ElfLayout.VersionReads | crates/plthook/src/elf.rs:469-487 | A symbol's version by the ABI's rules: none, reserved, unknown, or the one needed. |
| ElfLayout.TableReads | crates/plthook/src/elf.rs:493-547 | A relocation table yields the imports of its relocations, in order. |
| ElfLayout.ParseReadsDescription | crates/plthook/src/elf.rs:555-637 | Any image that holds a description parses, in any view, to exactly the described imports, from the dynamic array on. |
| ElfModes.FileSimulates | crates/plthook/src/elf.rs:667-741 | The on-disk view answers whatever the in-segment link-time view answers. |
| ElfModes.LiveSimulates | crates/plthook/src/module_elf.rs:51-133 | So does the live view of the loaded image, with slots moved by the bias. |
| ElfModes.SimParse | crates/plthook/src/elf.rs:374-637 | Simulation carries through the dynamic, version and relocation loops. |
| ElfModes.ModesAgree | crates/plthook/src/elf.rs:374-637 | Addressing-mode independence: same names, versions, libraries and order, every live slot the link-time slot plus the bias. |
| ElfWitness.WitnessModesAgree | crates/plthook/src/elf.rs:374-637 | An object with one relocated symbol, linked at any aligned address and loaded at any aligned bias, for which the premises hold, and its one import in both modes. |
| ElfModes.VerneedIsNotRelocated | crates/plthook/src/module_elf.rs:100-113 | Why the version table needs its own resolution: on every image with one below the bias, a live parse that took its address for a relocated pointer would fail where the parser succeeds. |
| LittleEndian.LeRoundTrip | crates/plthook/src/elf.rs:180-196 | The word reader inverts the layout. |

## Left out

- Allocation failure, panics and poisoned locks, modification times, inode identity, mount-id randomness.
- Windows: its path keys, shims and PE parser. The ABI-filling code of stat, dirent, statvfs and cookies.
- Program and load command headers, the indirect symbol table, and module acquisition: the parsers start from segments, tables and views.
- ELF cursors are pairs of table base and offset over unbounded integers, so sums that would overflow a 64-bit cursor are read failures or plain addresses here; the sanity caps are a field of the view.
- ElfModes.ModesAgree: supposes that the file-mode parse stays inside the segment of each table's base, on bytes the loader does not rewrite, with mapped, aligned slots; that is what the link-time view demands.
- Chains.WalkInverts: slots are decoded from a map of words; raw pointer words are natural numbers; addends and rebase targets are the low bits, not interpreted.
- ImportsTables.ResolveInverts: record addresses near the top of the 64-bit range, where the unchecked offset sums would wrap.
- Slots.Process.RestoreHooks: models a guard whose module is still loaded and owns its slots; the two early exits for an unloaded module write nothing.
- Router.Engine.ClassifyCall: the namespace is a prefix; custom predicates are not modelled.
- Installs.FailureLeavesNothing: uninstalls here always open their pages; a page that stays closed is modelled in Slots and Installers. Tokens are unbounded, so their wrap after 2^64 installations is not modelled, nor is a loader that binds a lazy slot between steps or reuses a base.
- In `Dispatch` the published engine is its token; symbols are numbers, names are looked up elsewhere; the thread-local re-entrancy scope is not modelled.
- FsRuns.RunConserves: stated for capacities below the largest 64-bit word, where resize is exact for every length (`MemFiles.ResizeExactIff`).
- FsRuns.RunKeepsTree: for runs that put no node below a file, the exact condition of `TreeMoves.InsertWellFormedIff`.
- TreeMoves.Rename: its exact tree is stated for well-formed maps; errors leave any map unchanged.
- Unmount.HistoryLeavesTheClosure: mount keys are unique and not nested, as the caller guarantees; logical-name validation is not modelled.
- Paths.ParentCommutes: `Path::parent` is modelled on paths without navigating names, the only ones the router lets through.
- MemFiles.WritevRefinesWrite: totals beyond a signed 64-bit return value are not modelled.
- Carriers.RoutingIsExact: each descriptor is closed once by its holder, through the outermost shim; duplicated descriptors are not modelled.
- SharedSource.EveryCursorIsPrivate: the bytes of a mounted stream do not change and its length is the one probed.
- Directory listing, metadata and read-only opens of sources, which only look entries up.
