# Generalist: a Dafny model of its versioned state, protocols and codecs

Generalist is a TypeScript library for durable agents. This project models the parts of it that keep
state or transform data under an exact promise, and proves those promises for every input, every run
and every interleaving. `dafny verify dfyconfig.toml` checks everything.

- **Guidance refinement** (`GuidanceEntry`, `GuidanceState`, `Refinement`, `Rollback`, `RefinementEffects`,
  `Overlay`): sorted groups of versioned entries, proposals of create, update and delete edits applied as
  one, the inverse proposal, merging scopes, and content-addressed snapshots. Undo is exact under conditions
  that are necessary as well as sufficient; edit order does not matter; merging is associative.
- **Kernel resource authority** (`KernelAuthority`, `KernelEffects`, `KernelLeases`, `KernelRuns`): leases
  with fencing generations, cell admission, takeover and two-phase deletion, as a transition system whose
  clock reading is an arbitrary input of every step.
- **Local-directory object transport** (`SegmentCodec`, `SegmentNames`, `ObjectKeys`, `CreateProtocol`,
  `CreateRuns`, `CreateAnswers`, `CreateOutcomes`, `DirectorySpellings`, `ObjectWalk`, `ObjectRead`,
  `ObjectListing`, `ObjectCatalog`): the file-name escape codec over UTF-8 bytes (section 3 of RFC 3629),
  concurrent create-once writes as a step-by-step protocol with crashes and timeouts anywhere, on volumes
  that tell case apart and on volumes that fold it, directory walks, chunked reads, and cursor paging while
  keys are created.
- **Content-addressed blobs** (`BlobEnvelope`, `BlobStore`, `BlobOutcomes`): the binary envelope and the put
  protocol over create-if-absent storage whose failures may still have committed, for an arbitrary hash.
- **Memory stores** (`WorkingMemory`, `VectorMeaning`, `VectorStore`, `SemanticRecall`): the sliding window
  over cumulative transcripts, version histories with revert and hiding, and optimistic append.
- **Run trees** (`RunMeaning`, `RunTree`): the memoised progress search against its plain meaning.
- **Request-schema relaxation** (`SchemaGraph`, `SchemaRelaxation`): the in-place traversal of a cyclic
  object graph.

`Texts`, `Sequences`, `StableSort`, `Bytes` and `Wrappers` hold what these share: UTF-16 string order,
occurrences, stable sorting with its uniqueness, byte words, options and results.

Code that updates state in place is modelled by methods and classes proved against specification
functions; the laws are then proved about those functions. Beside the laws, each operation is also told in
plain terms: which fields it sets and keeps, and exactly when it answers what, on the fields of states and
inputs and without the functions that compute it (`RefinementEffects`, `KernelEffects`, `CreateOutcomes`,
`BlobOutcomes`, `SegmentNames`, `SchemaGraph`, `RunMeaning`, `VectorMeaning`, and the last parts of
`ObjectListing` and `WorkingMemory`).

## What the code promises only under a condition

- Undoing a proposal restores the state exactly if and only if every deleted entry carried the state's
  own scope, and is accepted if and only if at least one refinement is retained and the old sizes fit.
  States grown from the empty one meet the first condition; merged states need not
  (`Overlay.MergedDeleteDrifts`).
- The authority's contract comment (`packages/generalist/src/repl/kernel-resource-authority.ts:156-167`)
  guards a pause against an active cell, and the code does; but a bind that asks for `deleting` over an
  active cell is accepted, and confirming the deletion never looks at the cell. The model follows the code.
  A step takes a cell off its live resource if and only if it is such a bind (`KernelRuns.CellOnLiveExactly`);
  admissions and finishes alternate all along a run if and only if no deletion is confirmed under an active cell
  (`KernelRuns.CellsAlternateExactly`), and once one is, two accepted moves break the alternation
  (`KernelRuns.ForgottenThenBroken`; `KernelRuns.ForgottenCell` is a run that gets there).
- On cyclic links the memoised search can deny what a run can do, after it has answered yes for another
  (`RunTree.RingDenied`); the remembered no are right if and only if none waits for a remembered yes.
- A caller told that a create timed out knows nothing of its outcome (`CreateAnswers.TimedOutStillCreates`).
- A window of size zero takes the same message in again and again (`WorkingMemory.WindowExactIffRoom`).

## Model

| member | source | states |
|---|---|---|
| `GuidanceEntry.ProjectValue` | packages/generalist/src/instructions/entry.ts:74-82 | the projection built one optional field at a time loses nothing: with the id, kind, scope and revision it reassembles the entry |
| `GuidanceEntry.RevisionOf` | packages/generalist/src/instructions/entry.ts:85-89 | the revision is exactly what the authored value leaves out of an entry |
| `GuidanceEntry.EditKeyInjective` | packages/generalist/src/instructions/entry.ts:207 | two edits have one key if and only if they name the same kind and id |
| `RefinementEffects.TargetSpelled` | packages/generalist/src/instructions/entry.ts:207 | a target is spelled as the name of its kind, a slash and its id |
| `GuidanceState.Make` | packages/generalist/src/instructions/state.ts:48-71 | a state built from unordered entries files each under its own kind and sorts every group stably |
| `GuidanceState.FindSorted` | packages/generalist/src/instructions/state.ts:78-83 | sorting a group changes no lookup, even when ids repeat |
| `GuidanceState.SortCanonical` | packages/generalist/src/instructions/state.ts:36-37 | distinct entries of one kind sort into a strictly ascending group with the same members |
| `GuidanceState.StateExtensional` | packages/generalist/src/instructions/state.ts:78-83 | two canonical states with the same lookups hold the same groups, field for field and in order |
| `Texts.BeforeMeaning` | packages/generalist/src/instructions/state.ts:30-34 | one text comes before another exactly when, where they first differ, it ends or has the lesser UTF-16 unit |
| `StableSort.SortTies` | packages/generalist/src/instructions/state.ts:36-37 | the sort is stable: every group of ties keeps its order of occurrence |
| `StableSort.SortSorted` | packages/generalist/src/instructions/state.ts:36-37 | the sort leaves no pair out of order |
| `StableSort.SortedUnique` | packages/generalist/src/instructions/state.ts:36-37 | a stable sort has one possible result, so the model sorts as any conforming implementation does |
| `StableSort.SortAssociative` | packages/generalist/src/instructions/state.ts:121-126 | sorting a part before sorting the whole changes nothing, whichever part it is |
| `Refinement.FindDuplicate` | packages/generalist/src/instructions/refinement.ts:205-213 | the set-based scan names the first edit whose target an earlier edit already names, and finds none exactly when targets are distinct |
| `Refinement.FirstRepeat` | packages/generalist/src/instructions/refinement.ts:205-213 | no target repeats if and only if there is no first repeat |
| `Refinement.ApplyEditEffect` | packages/generalist/src/instructions/refinement.ts:155-191 | one edit succeeds exactly when its guard holds, otherwise gives the reason that fits; on success exactly its target changes, the record holds the entry before and after, and the state stays canonical |
| `Refinement.ApplyEditsEffect` | packages/generalist/src/instructions/refinement.ts:257-261 | with distinct targets the starting state decides everything: success, every before/after pair, the final lookups and sizes, and which edit is refused first and why |
| `Refinement.ApplyTrusted` | packages/generalist/src/instructions/refinement.ts:222-280 | the loop with early returns computes the edits one by one, first refusal first, capacity last, and keeps the bounded newest history |
| `Rollback.AcceptedExactly` | packages/generalist/src/instructions/refinement.ts:238-279 | a proposal is accepted if and only if its rollback and snapshot baselines hold, targets are distinct, every guard holds of the initial state and the final sizes fit; what it leaves is told from the initial state |
| `RefinementEffects.EditsWritten` | packages/generalist/src/instructions/refinement.ts:135-191 | every edit of an accepted proposal is recorded with the entry that stood at its target and the one that stands there now: a created or updated one carries the authored title, content, path, reference, arguments, metadata and source, the pinned revision or else the stated defaults, and the state's or its own scope; a deleted one is gone; a base version given equals the old version |
| `RefinementEffects.OthersKept` | packages/generalist/src/instructions/refinement.ts:155-191 | entries that no edit names stay, none appears, every group stays filed by kind in ascending order of ids |
| `RefinementEffects.EventTold` | packages/generalist/src/instructions/refinement.ts:264-279 | the event carries the proposal's fields and the snapshots before and after; history is the newest events, as many as the bound allows |
| `RefinementEffects.RefusedExactly` | packages/generalist/src/instructions/refinement.ts:155-261 | which reason a proposal is refused for, and which target it names, told on fields: the first of a rollback that is not newest, another baseline, a repeated target, and the first edit whose target exists, is missing or has another version; accepted when none holds |
| `RefinementEffects.BoundRefuses` | packages/generalist/src/instructions/refinement.ts:193-203 | a bound on sizes refuses exactly when some kind would end up larger, naming the first such kind, and otherwise changes nothing |
| `RefinementEffects.UntrustedExactly` | packages/generalist/src/instructions/refinement.ts:110-113 | the untrusted route refuses exactly rollbacks and proposals that pin a revision, and is the trusted one for all others |
| `Rollback.OrderIrrelevant` | packages/generalist/src/instructions/refinement.ts:155-213 | permuting the edits of a proposal changes neither its acceptance nor the entries it leaves |
| `Rollback.RollbackExact` | packages/generalist/src/instructions/refinement.ts:311-363 | undo: the rollback proposal is accepted if and only if the newest refinement is retained and the old sizes fit; it then restores every group field for field, and the snapshot id the rollback target names, if and only if every deleted entry carried the state's scope |
| `RefinementEffects.RollbackTold` | packages/generalist/src/instructions/refinement.ts:311-363 | the rollback proposal names the resulting snapshot and the refinement, and takes the recorded edits back in reverse: a delete of what was created, the old value and revision put back for what was updated or deleted, each guarded by the version it left |
| `Rollback.RedoExact` | packages/generalist/src/instructions/refinement.ts:311-363 | undoing an undo always brings the refined entries back |
| `Rollback.GrownStates` | packages/generalist/src/instructions/refinement.ts:265-279 | over every run from the empty state, groups stay canonical, entries keep the state's scope, and retained events form an unbroken chain of snapshots ending in the present one |
| `Rollback.GrownRollback` | packages/generalist/src/instructions/refinement.ts:345-363 | in every state grown from the empty one, an accepted proposal whose event is retained is undone exactly wherever the old sizes fit |
| `Rollback.AuthoredRevisions` | packages/generalist/src/instructions/refinement.ts:289-309 | the untrusted route never lets a proposal choose a revision: created entries start at version 1, updated ones advance by one, scopes are kept |
| `Overlay.Merge` | packages/generalist/src/instructions/state.ts:111-128 | the loops collect, kind by kind, outer entries not overridden and then inner ones, and rebuild a state under the inner scope |
| `Overlay.PushKind` | packages/generalist/src/instructions/state.ts:117-119 | the override set keeps exactly the outer entries whose id the inner group lacks, in order |
| `Overlay.MergedLookup` | packages/generalist/src/instructions/state.ts:111-128 | the merge of canonical states is canonical and looks up inner-else-outer for every kind and id |
| `Overlay.MergeAssociative` | packages/generalist/src/instructions/state.ts:111-128 | merging is associative, in every group and in the order of the merged history |
| `Overlay.MergedHistory` | packages/generalist/src/instructions/state.ts:121-127 | a merge has the inner scope, and both histories in order of instant, scope and proposal, the outer events first where all three agree |
| `Overlay.MergedDeleteDrifts` | packages/generalist/src/instructions/state.ts:107-128 | a merge keeps foreign scopes, so no accepted proposal that deletes an entry only the outer scope holds is undone exactly |
| `Overlay.MergedDeleteAccepted` | packages/generalist/src/instructions/refinement.ts:169-187 | such deletions are accepted, so merged states that cannot be undone exactly are reached |
| `Overlay.ForeignDeleteDrifts` | packages/generalist/src/instructions/refinement.ts:126-134 | no accepted proposal, under any options, that deletes an entry of another scope is undone exactly: its rollback is refused or restores a different state under a different snapshot id |
| `Overlay.SnapshotRoundTrip` | packages/generalist/src/instructions/snapshot.ts:47-81 | a canonical state's payload, its entries in any order, decodes under the state's own id to exactly its entries and under every other id to a mismatch |
| `Overlay.EncodedDecodes` | packages/generalist/src/instructions/snapshot.ts:47-81 | what a state encodes to decodes, under the id taken of it, to the same scope and groups |
| `KernelLeases.MemoryAuthority.Perform` | packages/generalist/src/repl/test-kernel-resource-authority.ts:79-84 | an accepted operation has exactly the effect told for it on the fields of its session's lease, resource, cell and cleanup failure, touches no other session and is answered with what the authority now holds; any other is refused for the reason told and changes nothing |
| `KernelLeases.MemoryAuthority.PendingDeletion` | packages/generalist/src/repl/test-kernel-resource-authority.ts:312-314 | exactly the leases whose resource is deleting are reported |
| `KernelAuthority.StepConsistent` | packages/generalist/src/repl/test-kernel-resource-authority.ts:54-132 | a session's lease always carries the generation last issued to it |
| `KernelAuthority.StepFrame` | packages/generalist/src/repl/test-kernel-resource-authority.ts:54-57 | a step on one session leaves the lease and generation of every other untouched |
| `KernelEffects.StepEffect` | packages/generalist/src/repl/test-kernel-resource-authority.ts:86-319 | what each operation leaves, field by field: acquire the provider, profile and duration asked for, the running holder's or the next generation, and the old resource; renew only a new expiry; bind exactly the binding asked for, with the cell and cleanup failure there were; a control admission nothing, a cell admission the command; finish no cell; revoke the state deleting; a failed deletion one more attempt and its message; a confirmed one no resource |
| `KernelEffects.RefusedExactly` | packages/generalist/src/repl/test-kernel-resource-authority.ts:59-310 | each operation is refused for exactly the reason told on fields, in the order of the checks, and accepted when none holds |
| `KernelLeases.AcceptedExactly` | packages/generalist/src/repl/test-kernel-resource-authority.ts:86-310 | the guards of each operation as one condition on the lease, the bound identity and the active cell |
| `KernelLeases.LeaseLasts` | packages/generalist/src/repl/test-kernel-resource-authority.ts:86-132 | an acquired or renewed claim runs out at the read instant plus its duration |
| `KernelLeases.AcquireGeneration` | packages/generalist/src/repl/test-kernel-resource-authority.ts:96-115 | re-entry keeps the claim, a lapse issues the next generation |
| `KernelLeases.ExpireEnds` | packages/generalist/src/repl/test-kernel-resource-authority.ts:315-319 | expiring leaves no claim current |
| `KernelLeases.AcquirerReachesCell` | packages/generalist/src/repl/test-kernel-resource-authority.ts:86-239 | whoever acquires a session, whatever an earlier owner left, reaches in at most five moves an admitted cell on the provider and profile it asked for |
| `KernelRuns.OneOwner` | packages/generalist/src/repl/test-kernel-resource-authority.ts:86-117 | over every run and any clock, generations never decrease and each session and generation belongs to one owner |
| `KernelRuns.Fenced` | packages/generalist/src/repl/test-kernel-resource-authority.ts:59-68 | once a higher generation is issued no operation carrying an older claim ever succeeds again |
| `KernelRuns.LapsedStaysDead` | packages/generalist/src/repl/test-kernel-resource-authority.ts:59-68 | on a clock that never turns back, a claim that has expired stays dead |
| `KernelRuns.CellOnLiveExactly` | packages/generalist/src/repl/test-kernel-resource-authority.ts:133-220 | a step keeps active cells on live resources of their exact epoch and profile if and only if it is no bind to deleting, under a current claim and of the very resource the lease asked for, over an active cell |
| `KernelRuns.CellsOnLive` | packages/generalist/src/repl/test-kernel-resource-authority.ts:133-220 | so in every run without such a bind an active cell implies a live resource of its epoch and profile |
| `KernelRuns.CellsAlternate` | packages/generalist/src/repl/test-kernel-resource-authority.ts:176-239 | in every run that confirms no deletion under an active cell, whatever it binds, admissions and finishes strictly alternate per session, each finish naming the exact admitted command even across takeovers |
| `KernelRuns.CellsAlternateExactly` | packages/generalist/src/repl/test-kernel-resource-authority.ts:176-310 | admissions and finishes alternate and the authority holds exactly the unfinished cell all along if and only if no step confirms a deletion under an active cell |
| `KernelRuns.TracksStepExactly` | packages/generalist/src/repl/test-kernel-resource-authority.ts:289-310 | one step loses track of the cell if and only if it confirms, under a current claim, the deletion of the bound identity while a cell is active |
| `KernelRuns.ForgottenThenBroken` | packages/generalist/src/repl/test-kernel-resource-authority.ts:289-310 | after any such step the holder's next two moves succeed at the same instant and admit a second cell without a finish |
| `KernelRuns.ForgottenCell` | packages/generalist/src/repl/test-kernel-resource-authority.ts:148-158 | a concrete run that gets there: bind deleting over an active cell, confirm, bind, admit |
| `KernelRuns.IdentityKept` | packages/generalist/src/repl/test-kernel-resource-authority.ts:133-310 | a bound identity is lost, and deleting is left, if and only if that exact identity's deletion is confirmed |
| `KernelRuns.IdentityKeptOverRun` | packages/generalist/src/repl/test-kernel-resource-authority.ts:289-310 | over every run an identity stays bound until its deletion is confirmed by name |
| `KernelRuns.AttemptsCounted` | packages/generalist/src/repl/test-kernel-resource-authority.ts:263-288 | the cleanup attempt count is the number of successful failure reports since binding |
| `KernelRuns.HolderReachesCell` | packages/generalist/src/repl/test-kernel-resource-authority.ts:133-310 | no state is stuck: finish, revoke, confirm, bind, admit, as far as needed, all succeed at one instant and end in an admitted cell |
| `SegmentCodec.EncodeSegment` | packages/generalist/src/durability/fs.ts:136-156 | the byte loop followed by the reserved-name escape computes the file name of a segment |
| `SegmentCodec.DecodeSegment` | packages/generalist/src/durability/fs.ts:160-177 | the name is read back only if it re-encodes to itself |
| `SegmentCodec.ReadName` | packages/generalist/src/durability/fs.ts:162-173 | the decoding loop over a byte buffer reads one byte per plain unit or upper-case escape, and refuses malformed escapes |
| `SegmentCodec.EncodeWellFormed` | packages/generalist/src/durability/fs.ts:136-158 | no file name of a nonempty segment starts or ends with a dot, leaves the alphabet or is a reserved device name |
| `SegmentCodec.RoundTrip` | packages/generalist/src/durability/fs.ts:136-177 | decoding undoes encoding exactly for the nonempty segments other than the two dot names whose bytes survive a text decoder, and refuses the names of all others |
| `SegmentCodec.DecodeSound` | packages/generalist/src/durability/fs.ts:160-177 | decoding succeeds only on names the encoder produces |
| `SegmentCodec.FoldInjective` | packages/generalist/src/durability/fs.ts:125-135 | segments whose names agree up to ASCII case are equal |
| `SegmentNames.NameMeaning` | packages/generalist/src/durability/fs.ts:136-156 | a name is each digit, lower-case letter, underscore, tilde, hyphen and inner dot as itself and every other byte as a percent sign and two upper-case hexadecimal digits, with the first letter of a device name escaped as well |
| `SegmentNames.ReservedMeaning` | packages/generalist/src/durability/fs.ts:152-154 | the reserved names are con, prn, aux, nul, com1 to com9 and lpt1 to lpt9, in any case |
| `SegmentNames.NamesFit` | packages/generalist/src/durability/fs.ts:136-158 | no name of a nonempty segment has a dot at either end, is a device name or holds a unit outside the alphabet, letter by letter |
| `SegmentNames.NamesApart` | packages/generalist/src/durability/fs.ts:125-135 | segments whose names differ at most in the case of letters are the same |
| `SegmentNames.DecodedExactly` | packages/generalist/src/durability/fs.ts:160-177 | a name decodes to a segment if and only if it is the name of that segment, which is not empty, not one or two dots and survives a text decoder |
| `ObjectKeys.CheckKeyExact` | packages/generalist/src/durability/fs.ts:38-53 | the textual key check admits exactly the keys whose segments are all nonempty and not dot-only |
| `SegmentNames.CheckMeaning` | packages/generalist/src/durability/fs.ts:38-53 | a key is admitted if and only if nothing between its slashes and ends is empty, one dot or two dots |
| `SegmentNames.PrefixMeaning` | packages/generalist/src/durability/fs.ts:60-68 | a listing prefix likewise, except that its last segment may be empty |
| `ObjectKeys.JoinSplit` | packages/generalist/src/durability/fs.ts:245-251 | splitting a key at slashes loses nothing |
| `ObjectKeys.PathInjective` | packages/generalist/src/durability/fs.ts:245-251 | distinct keys never share a path, on case-sensitive and case-folding volumes alike |
| `ObjectKeys.KeyPathsShown` | packages/generalist/src/durability/fs.ts:125-135 | no name on a key's path starts with a dot, so temporaries and objects never meet |
| `ObjectKeys.DecodeListed` | packages/generalist/src/durability/fs.ts:182-192 | an entry with a dot-name or a name the encoder never writes stands for no key, any other for its decoded segments |
| `CreateProtocol.NextValid` | packages/generalist/src/durability/fs.ts:320-391 | every single step of any writer, with failures and timeouts anywhere, keeps the invariant on directories, inodes, temporaries and objects |
| `CreateRuns.RunValid` | packages/generalist/src/durability/fs.ts:320-391 | the invariant holds in every interleaving of concurrent creates |
| `CreateRuns.AtMostOneCreated` | packages/generalist/src/durability/fs.ts:375-381 | at most one create of a key ever ends as created |
| `CreateRuns.VisibleForever` | packages/generalist/src/durability/fs.ts:320-391 | a visible key holds the same bytes at every later moment |
| `CreateRuns.VisibleComplete` | packages/generalist/src/durability/fs.ts:346-352 | a visible key holds the complete bytes of the one create that made it, never part of a write |
| `CreateRuns.ReportedVisible` | packages/generalist/src/durability/fs.ts:353-384 | created means the writer's own bytes are visible, conflict that somebody's already are |
| `CreateOutcomes.LinkEnds` | packages/generalist/src/durability/fs.ts:353-384 | the other direction, in every valid system: a writer about to link ends as created exactly when nothing stands at its target, as conflict exactly when a file does, and as invalid response exactly when a directory does |
| `CreateOutcomes.LinkLeaves` | packages/generalist/src/durability/fs.ts:375-381 | what such an end leaves: the temporary gone, its file at a target that was free, every other path as it was |
| `CreateOutcomes.CreateExactly` | packages/generalist/src/durability/fs.ts:320-391 | in every reachable system a create that nobody disturbs, of a key of any depth, is told exactly this: invalid response for a malformed key, an overlong name, an object in the way or a directory in its place; conflict when the key is visible; created otherwise |
| `CreateOutcomes.UnavailableMeansBroken` | packages/generalist/src/durability/fs.ts:320-391 | in every interleaving a writer fails for another reason than an invalid response only if something broke it, and then as unavailable |
| `CreateRuns.NoKeyInsideAnother` | packages/generalist/src/durability/fs.ts:332-345 | no stored key is a proper segment prefix of another |
| `CreateAnswers.ToldForGood` | packages/generalist/src/durability/fs.ts:105-120 | a caller is told once: no later step, timeout included, changes its answer |
| `CreateAnswers.OneToldCreated` | packages/generalist/src/durability/fs.ts:320-391 | at most one caller of a key is ever told created, whenever each is told |
| `CreateAnswers.ToldVisible` | packages/generalist/src/durability/fs.ts:353-384 | a caller told created finds its own bytes at every later moment, one told conflict the bytes that were there when it was told |
| `CreateAnswers.TimedOutStillCreates` | packages/generalist/src/durability/fs.ts:105-120 | a caller told timeout knows nothing: in any run a writer about to link that is timed out first still ends as created, its bytes visible |
| `CreateAnswers.LoneWriterMayLink` | packages/generalist/src/durability/fs.ts:320-352 | such runs exist for every key of one segment and any bytes |
| `DirectorySpellings.RunSpelled` | packages/generalist/src/durability/fs.ts:125-135 | on case-sensitive and case-folding volumes alike, every name but a temporary's is spelled as the encoder spells it, whoever created it first |
| `DirectorySpellings.SpelledAs` | packages/generalist/src/durability/fs.ts:125-135 | a node filed where a segment's name belongs is listed under exactly that segment's encoding |
| `ObjectWalk.WalkExact` | packages/generalist/src/durability/fs.ts:393-424 | on either kind of volume, the walk that starts at the prefix's own directory lists a key if and only if it is visible and has the prefix; temporaries are never listed |
| `ObjectWalk.WalkOnce` | packages/generalist/src/durability/fs.ts:406-424 | on either kind of volume no key is found at two directory entries |
| `ObjectWalk.WalkSound` | packages/generalist/src/durability/fs.ts:405-424 | on either kind of volume a file stands only for the visible key at exactly the path the walk found |
| `ObjectRead.Read` | packages/generalist/src/durability/fs.ts:256-318 | a read checks key, options and size in order and returns the whole object within budget or exactly the requested slice, shorter only at the end |
| `ObjectRead.ReadExactly` | packages/generalist/src/durability/fs.ts:256-318 | every answer a read can give, refusals included, and exactly the options and stored sizes that lead to it; a range yields its bytes one by one |
| `ObjectRead.ReadRange` | packages/generalist/src/durability/fs.ts:278-301 | whatever chunk sizes the file hands out, the collected buffer is exactly the requested slice |
| `ObjectRead.WithinBudget` | packages/generalist/src/durability/fs.ts:303-310 | no read returns more than its budget, and a ranged one comes back short only at the end of the object |
| `ObjectRead.PiecesJoin` | packages/generalist/src/durability/fs.ts:275-302 | reading by consecutive ranges of any size tiles the object: the pieces joined are its bytes |
| `ObjectRead.CreatedThenRead` | packages/generalist/src/durability/fs.ts:256-391 | once a create ended as created, every later read of the key is a read of exactly its bytes, in any interleaving |
| `ObjectCatalog.List` | packages/generalist/src/durability/fs.ts:393-432 | the loop over directory entries, decoding, prefix, floor and file tests included, then sort and slice, computes one page |
| `ObjectListing.OnePage` | packages/generalist/src/durability/fs.ts:194-213 | a page holds the first matching keys past the floor in ascending order, and has a cursor only when later matches remain |
| `ObjectListing.FloorExactly` | packages/generalist/src/durability/fs.ts:194-213 | a cursor is refused exactly when its prefix or key is foreign; otherwise a listed key is after both the start bound and the cursor |
| `ObjectListing.ListedExactly` | packages/generalist/src/durability/fs.ts:393-432 | a page is the first stored keys with the prefix after both bounds, ascending, and its cursor names its last key exactly when keys are left out |
| `ObjectListing.CursorResumes` | packages/generalist/src/durability/fs.ts:194-213 | a page's cursor resumes right after that page, whatever the start bound |
| `ObjectListing.FollowExact` | packages/generalist/src/durability/fs.ts:393-432 | following cursors while keys are created yields matching keys strictly ascending, and every key present at the first page exactly once |
| `ObjectListing.FollowEnds` | packages/generalist/src/durability/fs.ts:393-432 | on a store that stands still following cursors ends and yields exactly the sorted matching keys |
| `ObjectCatalog.CatalogExact` | packages/generalist/src/durability/fs.ts:405-424 | a directory listing taken at any moment of any run shows exactly the texts of the visible keys below the prefix's directory |
| `ObjectCatalog.CatalogFollowed` | packages/generalist/src/durability/fs.ts:393-432 | following cursors over a live directory, with creates between the pages, yields visible keys with the prefix strictly ascending, and once done every such key that was visible at the first page, once |
| `SchemaRelaxation.Relaxer.Visit` | packages/generalist/src/server/api.ts:343-357 | the in-place depth-first visit ends on cyclic graphs and relaxes exactly the objects it adds to the visited set, which it leaves closed under links |
| `SchemaRelaxation.AcceptAdditionalRequestProperties` | packages/generalist/src/server/api.ts:341-366 | told on fields and paths: an object that a path from a request body reaches has no additionalProperties that is false; every other property and every other value of it is kept; an object not reached is kept whole; in any visiting order |
| `SchemaRelaxation.ReachMeaning` | packages/generalist/src/server/api.ts:341-366 | the reachable set is exactly what paths of properties, array items and references from a declared schema end at |
| `SchemaRelaxation.LinkMeaning` | packages/generalist/src/server/api.ts:347-356 | the links of an object are the object values, the object items of array values and the component named by the text after the last slash of a string reference |
| `SchemaRelaxation.RootMeaning` | packages/generalist/src/server/api.ts:359-364 | the roots are the schemas that some media type of some verb's request body declares |
| `SchemaRelaxation.RelaxedAccepts` | packages/generalist/src/server/api.ts:346 | what relaxing does to one object's fields: a false additionalProperties goes, every other property and every other value of it stays |
| `SchemaRelaxation.ReachLeast` | packages/generalist/src/server/api.ts:343-357 | the reachable set is the least set holding the roots and closed under links |
| `SchemaRelaxation.RelaxedLinks` | packages/generalist/src/server/api.ts:346 | dropping the property removes no link, so editing while traversing is safe |
| `SchemaRelaxation.RelaxTwice` | packages/generalist/src/server/api.ts:341-366 | a second pass reaches the same objects and changes nothing |
| `SchemaRelaxation.RefName` | packages/generalist/src/server/api.ts:348 | the referenced name is what follows the last slash |
| `RunTree.IndexTree` | packages/generalist/src/runtime/tree.ts:338-350 | the index maps ids to the last run listed under them and each wait to its linked runs in order |
| `RunTree.IndexTold` | packages/generalist/src/runtime/tree.ts:338-350 | the index holds under each id the last run listed with it, and for each wait the runs whose parent and invocation name it, in their places in the list |
| `RunTree.Search.CanProgress` | packages/generalist/src/runtime/tree.ts:352-374 | the recursive search over one shared memo ends on any links and computes the search function, memo included |
| `RunTree.SearchedCarries` | packages/generalist/src/runtime/tree.ts:352-374 | on any links a yes is right, and a search that has only answered no leaves only no in its memo, each finished one not ready with all its blockers remembered |
| `RunTree.SearchedExact` | packages/generalist/src/runtime/tree.ts:352-374 | on acyclic links every answer is right, whatever the memo was used for before |
| `RunTree.AdvanceMeaning` | packages/generalist/src/runtime/tree.ts:352-374 | what it means by status: absent, ended and operator-bound runs never advance; queued, running and cancelling ones and waiting ones without waits do; a waiting one does if and only if a tool wait has no linked run, an ended one, or one that can advance |
| `RunTree.AnswerMeaning` | packages/generalist/src/runtime/tree.ts:352-374 | on acyclic links the search answers exactly that |
| `RunTree.BlocksMeaning` | packages/generalist/src/runtime/tree.ts:363-371 | a run blocks exactly the waiting runs it is linked to by a tool wait |
| `RunTree.RememberedExactly` | packages/generalist/src/runtime/tree.ts:352-374 | after any queries on any links the remembered no are all right if and only if none waits for a run remembered as yes |
| `RunTree.RingDenied` | packages/generalist/src/runtime/tree.ts:352-374 | a ring of three runs where asking one run and then another denies what the second can do |
| `RunTree.IsSettled` | packages/generalist/src/runtime/tree.ts:376-382 | a root-blocked tree is settled if and only if no active run can advance, told status by status on the listed runs, on cyclic links as well |
| `RunTree.CanProgressAll` | packages/generalist/src/runtime/tree.ts:352-382 | one memo shared across any queries answers each with the plain meaning when links are acyclic |
| `RunTree.PlainMeaning` | packages/generalist/src/runtime/tree.ts:361-373 | on acyclic links the recursive definition without a memo is the existence of a chain to a run that can advance |
| `BlobEnvelope.Encode` | packages/generalist/src/blob-store/index.ts:100-121 | the buffer filled piece by piece holds version word, length word, reference JSON and payload; overlong metadata is refused |
| `BlobOutcomes.EnclosedExactly` | packages/generalist/src/blob-store/index.ts:100-121 | an envelope is the letters GLB1, the big-endian length of the reference JSON, the JSON and the payload; it is refused exactly when the JSON is longer than 64 KiB |
| `Bytes.Fill` | packages/generalist/src/blob-store/index.ts:113-116 | setting bytes at an offset replaces exactly that stretch of the buffer |
| `BlobEnvelope.EnvelopeRoundTrip` | packages/generalist/src/blob-store/index.ts:100-157 | an envelope opens under an address if and only if its reference and payload both have that address and the payload is within the limit, and then to exactly what was enclosed |
| `BlobEnvelope.OpenedDescribed` | packages/generalist/src/blob-store/index.ts:123-157 | what opens passed the address, size and hash checks |
| `BlobOutcomes.OpensExactly` | packages/generalist/src/blob-store/index.ts:123-157 | bytes open under an address to a reference and payload if and only if they are laid out so, fit the limit, and the reference names the address, the payload's size and its hash |
| `Bytes.WordRoundTrip` | packages/generalist/src/blob-store/index.ts:113-134 | a 32-bit header word reads back as written |
| `BlobStore.RunValid` | packages/generalist/src/blob-store/index.ts:169-225 | under any interleaving of puts with ambiguous creates, every stored object opens under its key within the read budget, for an arbitrary hash |
| `BlobStore.PutThenGet` | packages/generalist/src/blob-store/index.ts:180-225 | once a put has succeeded every later get yields exactly its bytes and its reference |
| `BlobStore.SameReference` | packages/generalist/src/blob-store/index.ts:197-224 | all successful puts of the same bytes return the same reference, whatever each proposed |
| `BlobStore.ReadBackDecides` | packages/generalist/src/blob-store/index.ts:207-224 | reading back after a conflict or failure succeeds if and only if the stored bytes are the put's own; bytes that merely share the hash are told apart; nothing is found only after a failed create |
| `BlobStore.GotDescribed` | packages/generalist/src/blob-store/index.ts:180-188 | what is got passed them for the requested address |
| `BlobOutcomes.GetExactly` | packages/generalist/src/blob-store/index.ts:180-188 | a get finds nothing exactly when nothing is stored, and a blob exactly when what is stored opens to it |
| `BlobOutcomes.SucceededCarries` | packages/generalist/src/blob-store/index.ts:189-224 | over every run a successful put is told its own hash and size under the media type and filename of the one put that won the address, its own if it won |
| `BlobOutcomes.PutExactly` | packages/generalist/src/blob-store/index.ts:189-224 | in every reachable system a put that nobody disturbs is told exactly: too large, reference too long, its own reference at a free address, and at a taken one the winner's reference or that the bytes differ |
| `BlobOutcomes.AmbiguousExactly` | packages/generalist/src/blob-store/index.ts:207-224 | a create that fails without telling ends, once read back, with the winner's reference, that the bytes differ, or, if nothing is stored, the failure |
| `BlobStore.ConflictPresent` | packages/generalist/src/blob-store/index.ts:209-217 | a conflict is never answered over an absent object |
| `WorkingMemory.CursorStart` | packages/generalist/src/memory/working-memory.ts:87-105 | the cursor is the counter exactly when the retained tail still matches the transcript just before it |
| `WorkingMemory.AppendStart` | packages/generalist/src/memory/working-memory.ts:107-123 | the backward search computes where appending resumes |
| `WorkingMemory.AppendMeaning` | packages/generalist/src/memory/working-memory.ts:107-123 | appending resumes after the last occurrence of the retained items, from the beginning without one |
| `WorkingMemory.NumberItems` | packages/generalist/src/memory/working-memory.ts:226-230 | new items are numbered on from the counter |
| `WorkingMemory.NormalizeMeaning` | packages/generalist/src/memory/working-memory.ts:70-82 | a transcript is, in order, each user's and each assistant's message with the white space at both ends of its text gone, left out exactly when nothing is left; other roles are left out |
| `WorkingMemory.SpaceUnits` | packages/generalist/src/memory/working-memory.ts:77-82 | the white space trimmed is exactly these code points |
| `WorkingMemory.ResumesExactly` | packages/generalist/src/memory/working-memory.ts:87-123 | where appending resumes, told on roles and texts: after the counter if the retained items stand just before it, else after their last occurrence, else at the beginning |
| `WorkingMemory.RememberedExactly` | packages/generalist/src/memory/working-memory.ts:214-245 | what a transcript does: nothing without new messages; else the newest retained and new items, numbered on, as many as fit, and the summariser's answer exactly when some do not |
| `WorkingMemory.MemoryStore.Remember` | packages/generalist/src/memory/working-memory.ts:214-245 | a refused or failed remember changes nothing, a good one only its own key, whose window, counter and summary become what is told item by item; the summary changes only on overflow |
| `WorkingMemory.MemoryStore.Forget` | packages/generalist/src/memory/working-memory.ts:246-260 | the early returns, the filter and the emptiness test compute the map with the named part gone |
| `WorkingMemory.ForgetEffect` | packages/generalist/src/memory/working-memory.ts:246-260 | forgetting removes the named item or summary and nothing else, keeps the counter, the order of the items and every other key, and drops the key exactly when nothing is left |
| `WorkingMemory.WindowExact` | packages/generalist/src/memory/working-memory.ts:214-245 | over every run of cumulative transcripts all overflow in order followed by the window is the whole numbered transcript, the counter its length, the window its longest allowed suffix |
| `WorkingMemory.RepeatChangesNothing` | packages/generalist/src/memory/working-memory.ts:214-245 | repeating a transcript changes nothing |
| `WorkingMemory.WindowExactIffRoom` | packages/generalist/src/memory/working-memory.ts:125-132 | that exactness holds for all runs if and only if the window has room for a message |
| `WorkingMemory.CumulativePrompts` | packages/generalist/src/memory/working-memory.ts:77-82 | prompts that continue one another normalise to transcripts that do |
| `VectorStore.MemoryStore.Upsert` | packages/generalist/src/memory/vector-store.ts:135-149 | a batch lands as a whole or not at all, with the first refusal reported |
| `VectorStore.MemoryStore.FindSlot` | packages/generalist/src/memory/vector-store.ts:88-93 | the scan finds the slot whose history belongs to an entry id, and none exactly when there is none |
| `VectorStore.MemoryStore.History` | packages/generalist/src/memory/vector-store.ts:180-188 | an entry's history is all its versions, empty for an unknown id |
| `VectorStore.MemoryStore.Delete` | packages/generalist/src/memory/vector-store.ts:170-179 | deleting hides the named active entries and loses no history |
| `VectorStore.MemoryStore.Revert` | packages/generalist/src/memory/vector-store.ts:189-212 | reverting makes an existing version active and visible again without touching histories; unknown entries and versions are refused |
| `VectorStore.MemoryStore.Query` | packages/generalist/src/memory/vector-store.ts:150-169 | a query returns the best visible documents of its key, none twice, best first, leaving out none that beats one returned; it fails exactly on a bad vector or a visible document of another dimension |
| `VectorStore.AppendValid` | packages/generalist/src/memory/vector-store.ts:95-130 | an accepted document keeps histories numbered and rooted and every entry id in one slot |
| `VectorStore.AppendMeaning` | packages/generalist/src/memory/vector-store.ts:95-130 | a document is refused exactly for an id of another key, a wrong beginning, a wrong number or a version that is not the active one; else it becomes the active, visible, last version of its entry and nothing else changes |
| `VectorStore.BatchMeaning` | packages/generalist/src/memory/vector-store.ts:138-147 | a batch passes, document by document, through such states until it ends or one is refused |
| `VectorStore.RevertMeaning` | packages/generalist/src/memory/vector-store.ts:189-212 | a revert makes the version asked for active and visible, at its entry alone, and is refused exactly for an unknown entry or version |
| `VectorStore.DeleteMeaning` | packages/generalist/src/memory/vector-store.ts:170-179 | exactly the key's active entries, or its one of that id, are hidden; nothing else changes |
| `VectorStore.BestMeaning` | packages/generalist/src/memory/vector-store.ts:150-169 | what is returned are documents of the key in sight that score enough, each once, best first, none left out that beats one returned |
| `VectorStore.RunValid` | packages/generalist/src/memory/vector-store.ts:95-212 | over every run histories are numbered 1..n, each later version supersedes an earlier one, active documents are in their history, hidden entries active, entry ids unique |
| `VectorStore.RunExtends` | packages/generalist/src/memory/vector-store.ts:95-212 | over every run each history only grows |
| `VectorStore.LineageReachesFirst` | packages/generalist/src/memory/vector-store.ts:114-123 | from any version the superseded versions lead, ever lower, to version 1 |
| `SemanticRecall.FinalExchange` | packages/generalist/src/memory/semantic-recall.ts:28-49 | the final exchange is the last thing the assistant said and the last thing the user said before it, and exists exactly when both do |
| `SemanticRecall.SpeaksExactly` | packages/generalist/src/memory/semantic-recall.ts:28-49 | a message counts as said by a role exactly if it is of that role, a user or assistant one, and its text is more than white space; what it says is that text trimmed |
| `SemanticRecall.LastBefore` | packages/generalist/src/memory/semantic-recall.ts:31-48 | the backward scan finds the last message of a role with text, and none exactly when all are silent |
| `SemanticRecall.MadeExactly` | packages/generalist/src/memory/semantic-recall.ts:108-132 | the document a remember makes: numbered after the last version, superseding the one asked for, refused exactly when entry and version do not come together or the version does not exist |
| `SemanticRecall.CommitExactly` | packages/generalist/src/memory/semantic-recall.ts:116-134 | appended undisturbed it is refused exactly if its id is another key's or the version superseded is not the active one |
| `SemanticRecall.AtMostOneCommit` | packages/generalist/src/memory/semantic-recall.ts:104-137 | of all remembers that read the same history of an entry at most one commits |
| `SemanticRecall.CommitSupersedesActive` | packages/generalist/src/memory/semantic-recall.ts:116-134 | a commit supersedes the version active at that moment, becomes the active one, and the history it read was the whole history |

## Left out

Assumptions the model makes about what it does not contain:

- The snapshot digest is a free constructor of scope and entries, that is, taken to be injective.
- JSON records inside entries stand for themselves as canonical text; schema checks on lengths, patterns
  and instants are not part of this model, and rejections carry their reason and target but no message.
- Text decoding followed by encoding is an arbitrary function on segments; round trips hold for the
  segments it leaves alone, which excludes lone surrogates and a leading byte-order mark.
- The blob's reference JSON and its parser are arbitrary functions with parse-after-print the identity;
  the SHA-256 is an arbitrary function. One tenant and one limit are modelled, no key prefix.
- Array sorting is any stable sort: the model uses insertion, and `StableSort.SortedUnique` says that
  the result is the only one possible.
- The kernel authority's operations are cases of one `Perform` over pure transitions, as the source runs
  every one of them inside the same atomic update; `inspect` only reads the state and is omitted.
- Case folding is that of ASCII letters; file names hold no others.
- Composite string keys (JSON pairs, ids joined by a NUL) are pairs of their parts.

Members stated for less than everything one could ask:

- ObjectWalk.WalkExact: speaks of keys whose segments survive a text decoder; the code lists no others.
- ObjectCatalog.List: the file test of an entry is taken at the moment of the directory read. Keys are bytes
  to the file system and texts to the caller; the texts are any that tell such keys apart and respect the
  prefix, which decoded UTF-8 does for prefixes without lone surrogates.
- CreateProtocol.NextValid: models the protocol on values, not as methods over a shared file system; a
  writer whose create timed out may go on, which covers interruption at any point. Maintenance removal,
  which deliberately breaks permanence, is excluded.
- CreateOutcomes.CreateExactly: takes the writer's temporary name to be free, as a fresh UUID makes it, and no
  other writer to move in between; `CreateOutcomes.LinkEnds` starts from any system other writers leave.
- VectorStore.MemoryStore.Query: the order among equal scores is not fixed, and the score is an arbitrary
  function instead of cosine arithmetic.
- WorkingMemory.WindowExact: covers runs without forgetting, the case the exactness is promised for.
- SchemaRelaxation.AcceptAdditionalRequestProperties: arrays nested directly in arrays are not followed,
  as in the code; property names a JavaScript object inherits are not modelled.

Parts of the repository that are not modelled:

- The S3 transport, HTTP and WebSocket servers, authentication, session client and layer wiring.
- The runtime's journal, scheduler and replay.
- The summariser's model call: its answer is an input, and the overflow it is handed is recorded.
- Embeddings, prompt rendering, recall formatting, overviews and inspection paging, model catalogs.
- Sandboxes, worktrees, process management and timers.
