/** What applying a proposal does, told field by field; and every way a proposal is refused, told from the state. */
module RefinementEffects {
  import opened Wrappers
  import opened Texts
  import opened GuidanceEntry
  import opened GuidanceState
  import opened Refinement
  import opened Rollback

  // ----- Entries -----

  /** The entry a group holds under an id, or that it holds none. */
  ghost predicate StandsAt(group: seq<Entry>, id: Text, entry: Option<Entry>) {
    && (entry.None? ==> forall e :: e in group ==> e.id != id)
    && (entry.Some? ==> entry.value in group && entry.value.id == id && forall e :: e in group && e.id == id ==> e == entry.value)
  }

  /** Everything an author writes about an entry. */
  ghost predicate Carries(entry: Entry, value: EntryValue) {
    && entry.title == value.title && entry.content == value.content
    && entry.path == value.path && entry.reference == value.reference
    && entry.arguments == value.arguments && entry.metadata == value.metadata && entry.source == value.source
  }

  /** The pinned revision, or else these defaults. */
  ghost predicate Stamped(entry: Entry, pinned: Option<Revision>, createdAt: Text, updatedAt: Text, version: int) {
    match pinned
    case Some(r) => entry.createdAt == r.createdAt && entry.updatedAt == r.updatedAt && entry.version == r.version
    case None => entry.createdAt == createdAt && entry.updatedAt == updatedAt && entry.version == version
  }

  ghost predicate CreatedAs(edit: Edit, scope: Text, at: Text, entry: Entry)
    requires edit.Create?
  {
    && entry.id == edit.id && entry.kind == edit.kind && entry.scope == scope
    && Carries(entry, edit.value)
    && Stamped(entry, edit.pinned, at, at, 1)
  }

  ghost predicate UpdatedAs(edit: Edit, at: Text, prior: Entry, entry: Entry)
    requires edit.Update?
  {
    && entry.id == edit.id && entry.kind == edit.kind && entry.scope == prior.scope
    && Carries(entry, edit.value)
    && Stamped(entry, edit.pinned, prior.createdAt, at, prior.version + 1)
    && (edit.baseVersion.Some? ==> edit.baseVersion.value == prior.version)
  }

  /** What an edit makes of the entry at its target, in a state of this scope. */
  ghost predicate Turns(edit: Edit, scope: Text, at: Text, before: Option<Entry>, after: Option<Entry>) {
    match edit
    case Create(_, _, _, _) => before.None? && after.Some? && CreatedAs(edit, scope, at, after.value)
    case Update(_, _, _, _, _) => before.Some? && after.Some? && UpdatedAs(edit, at, before.value, after.value)
    case Delete(_, _, baseVersion) =>
      before.Some? && after.None? && (baseVersion.Some? ==> baseVersion.value == before.value.version)
  }

  lemma FoundStands(state: State, kind: Kind, id: Text)
    requires Canonical(state)
    ensures StandsAt(state.entries.Of(kind), id, FindEntry(state, kind, id))
  {
    var group := state.entries.Of(kind);
    assert CanonicalGroup(group, kind);
    CanonicalDistinct(group);
    FindNone(group, id);
    forall e | e in group && e.id == id
      ensures FindEntry(state, kind, id) == Some(e)
    {
      FindMember(group, e);
    }
  }

  lemma AfterMade(state: State, at: Text, edit: Edit)
    requires Canonical(state) && Guard(state, edit)
    ensures Turns(edit, state.scope, at, FindEntry(state, edit.kind, edit.id), After(state, at, edit))
  {
    assert CanonicalGroup(state.entries.Of(edit.kind), edit.kind);
  }

  /**
   * Of an accepted proposal every edit is recorded with the entry that stood at its target and the entry that stands
   * there now: a created or updated one carries the authored value, field by field, under the pinned revision or else
   * the engine's own; a deleted one is gone.
   */
  lemma EditsWritten(state: State, proposal: Proposal, options: Options)
    requires Canonical(state) && Trusted(state, proposal, options).Ok?
    ensures var result := Trusted(state, proposal, options).value;
            var applied := result.event.applied;
            |applied| == |proposal.edits|
            && forall i :: 0 <= i < |applied| ==>
                 && applied[i].edit == proposal.edits[i]
                 && StandsAt(state.entries.Of(applied[i].edit.kind), applied[i].edit.id, applied[i].before)
                 && StandsAt(result.state.entries.Of(applied[i].edit.kind), applied[i].edit.id, applied[i].after)
                 && Turns(applied[i].edit, state.scope, proposal.at, applied[i].before, applied[i].after)
  {
    AcceptedExactly(state, proposal, options);
    var result := Trusted(state, proposal, options).value;
    Refile(result.state, state.refinements);
    forall i | 0 <= i < |proposal.edits|
      ensures var record := result.event.applied[i];
              && record.edit == proposal.edits[i]
              && StandsAt(state.entries.Of(record.edit.kind), record.edit.id, record.before)
              && StandsAt(result.state.entries.Of(record.edit.kind), record.edit.id, record.after)
              && Turns(record.edit, state.scope, proposal.at, record.before, record.after)
    {
      EditWritten(state, proposal, options, i);
    }
  }

  lemma EditWritten(state: State, proposal: Proposal, options: Options, i: nat)
    requires Canonical(state) && Trusted(state, proposal, options).Ok? && i < |proposal.edits|
    requires AllGuards(state, proposal.edits) && Carried(state, proposal, options, Trusted(state, proposal, options).value)
    requires Canonical(Trusted(state, proposal, options).value.state)
    ensures var result := Trusted(state, proposal, options).value;
            |result.event.applied| == |proposal.edits| &&
            var record := result.event.applied[i];
            && record.edit == proposal.edits[i]
            && StandsAt(state.entries.Of(record.edit.kind), record.edit.id, record.before)
            && StandsAt(result.state.entries.Of(record.edit.kind), record.edit.id, record.after)
            && Turns(record.edit, state.scope, proposal.at, record.before, record.after)
  {
    var edit, next := proposal.edits[i], Trusted(state, proposal, options).value.state;
    assert edit in proposal.edits;
    Refile(next, state.refinements);
    FoundStands(state, edit.kind, edit.id);
    FoundStands(next, edit.kind, edit.id);
    AfterMade(state, proposal.at, edit);
  }

  /** No edit of these has this kind and id. */
  ghost predicate Untouched(edits: seq<Edit>, kind: Kind, id: Text) {
    forall edit :: edit in edits ==> edit.kind != kind || edit.id != id
  }

  /** Everything else keeps its place: untouched entries stay, none appears, and each group stays in order of its ids. */
  lemma OthersKept(state: State, proposal: Proposal, options: Options)
    requires Canonical(state) && Trusted(state, proposal, options).Ok?
    ensures var next := Trusted(state, proposal, options).value.state;
            && next.scope == state.scope
            && (forall kind, e: Entry :: Untouched(proposal.edits, kind, e.id) ==>
                  (e in next.entries.Of(kind) <==> e in state.entries.Of(kind)))
            && (forall kind, i, j :: 0 <= i < j < |next.entries.Of(kind)| ==>
                  Before(next.entries.Of(kind)[i].id, next.entries.Of(kind)[j].id))
            && (forall kind, e :: e in next.entries.Of(kind) ==> e.kind == kind)
  {
    AcceptedExactly(state, proposal, options);
    var next := Trusted(state, proposal, options).value.state;
    Refile(next, state.refinements);
    forall kind, e: Entry | Untouched(proposal.edits, kind, e.id)
      ensures e in next.entries.Of(kind) <==> e in state.entries.Of(kind)
    {
      assert !Targets(proposal.edits, kind, e.id);
      assert FindEntry(next, kind, e.id) == FindEntry(state, kind, e.id);
      FoundStands(state, kind, e.id);
      FoundStands(next, kind, e.id);
    }
    forall kind
      ensures CanonicalGroup(next.entries.Of(kind), kind)
    {
    }
  }

  /** The event tells the proposal and both snapshots, and history keeps as many of the newest events as is asked for. */
  lemma EventTold(state: State, proposal: Proposal, options: Options)
    requires Trusted(state, proposal, options).Ok?
    ensures var result := Trusted(state, proposal, options).value;
            var event, history := result.event, state.refinements + [result.event];
            && event.proposal == proposal.id && event.at == proposal.at && event.scope == state.scope
            && event.rationale == proposal.rationale && event.source == proposal.source
            && event.before == SnapshotId(state.scope, state.entries)
            && event.after == SnapshotId(result.state.scope, result.state.entries)
            && (options.maxRefinements.None? ==> result.state.refinements == history)
            && (options.maxRefinements.Some? ==>
                  var kept := result.state.refinements;
                  var bound := options.maxRefinements.value;
                  && |kept| == (if bound < 0 then 0 else if bound < |history| then bound else |history|)
                  && kept == history[|history| - |kept|..])
  {
    var r := ApplyEdits(state, proposal.id, proposal.at, proposal.edits);
    EditsKeepHistory(state, proposal.id, proposal.at, proposal.edits);
    ForgetHistory(r.value.state);
  }

  lemma {:induction false} EditsKeepHistory(state: State, proposal: Text, at: Text, edits: seq<Edit>)
    ensures var r := ApplyEdits(state, proposal, at, edits);
            r.Ok? ==> r.value.state.refinements == state.refinements && r.value.state.scope == state.scope
    decreases |edits|
  {
    if edits != [] && ApplyEdit(state, proposal, at, edits[0]).Ok? {
      EditsKeepHistory(ApplyEdit(state, proposal, at, edits[0]).value.state, proposal, at, edits[1..]);
    }
  }

  // ----- Refusals -----

  /** Why a state refuses an edit, on the fields of the two. */
  ghost predicate Objects(state: State, edit: Edit, reason: Reason) {
    var group := state.entries.Of(edit.kind);
    match edit
    case Create(_, id, _, _) => reason.CreateExisting? && exists e :: e in group && e.id == id
    case Update(_, id, _, baseVersion, _) =>
      || (reason.UpdateMissing? && forall e :: e in group ==> e.id != id)
      || (reason.VersionDrift? && baseVersion.Some? && exists e :: e in group && e.id == id && e.version != baseVersion.value)
    case Delete(_, id, baseVersion) =>
      || (reason.DeleteMissing? && forall e :: e in group ==> e.id != id)
      || (reason.VersionDrift? && baseVersion.Some? && exists e :: e in group && e.id == id && e.version != baseVersion.value)
  }

  lemma ObjectsExactly(state: State, edit: Edit, reason: Reason)
    requires Canonical(state)
    ensures Objects(state, edit, reason) <==> !Guard(state, edit) && reason == RefusalReason(state, edit)
  {
    FoundStands(state, edit.kind, edit.id);
  }

  /** The edits before this one are all in order; this one is refused for this reason. */
  ghost predicate FirstObjection(state: State, edits: seq<Edit>, i: int, reason: Reason) {
    && 0 <= i < |edits| && Objects(state, edits[i], reason)
    && forall j, other :: 0 <= j < i ==> !Objects(state, edits[j], other)
  }

  /** The target of an edit was named before. */
  ghost predicate Repeats(edits: seq<Edit>, j: int) {
    0 <= j < |edits| && exists i :: 0 <= i < j && edits[i].kind == edits[j].kind && edits[i].id == edits[j].id
  }

  ghost predicate FirstRepetition(edits: seq<Edit>, j: int) {
    Repeats(edits, j) && forall k :: 0 <= k < j ==> !Repeats(edits, k)
  }

  lemma RepeatsInit(edits: seq<Edit>, j: int)
    requires edits != [] && j < |edits| - 1
    ensures Repeats(edits[..|edits| - 1], j) <==> Repeats(edits, j)
  {
    var init := edits[..|edits| - 1];
    assert forall i :: 0 <= i < |init| ==> init[i] == edits[i];
    if Repeats(edits, j) {
      var i :| 0 <= i < j && edits[i].kind == edits[j].kind && edits[i].id == edits[j].id;
      assert init[i].kind == init[j].kind && init[i].id == init[j].id;
    }
  }

  lemma {:induction false} FirstRepeatIs(edits: seq<Edit>)
    ensures FirstRepeat(edits).Some? ==> exists j :: FirstRepetition(edits, j) && FirstRepeat(edits) == Some(EditKey(edits[j]))
    ensures FirstRepeat(edits).None? ==> forall j :: !Repeats(edits, j)
    decreases |edits|
  {
    if edits != [] {
      var init, last := edits[..|edits| - 1], |edits| - 1;
      FirstRepeatIs(init);
      forall k | 0 <= k < last
        ensures Repeats(init, k) <==> Repeats(edits, k)
      {
        RepeatsInit(edits, k);
      }
      if FirstRepeat(init).Some? {
        var j :| FirstRepetition(init, j) && FirstRepeat(init) == Some(EditKey(init[j]));
        assert FirstRepetition(edits, j);
      } else if FirstRepeat(edits).Some? {
        assert FirstRepetition(edits, last) by { LastRepeats(edits); }
      } else {
        LastAlone(edits);
      }
    }
  }

  lemma LastRepeats(edits: seq<Edit>)
    requires edits != [] && FirstRepeat(edits[..|edits| - 1]).None? && FirstRepeat(edits).Some?
    ensures Repeats(edits, |edits| - 1) && FirstRepeat(edits) == Some(EditKey(edits[|edits| - 1]))
  {
    var init, last := edits[..|edits| - 1], edits[|edits| - 1];
    var i :| 0 <= i < |init| && SameTarget(init[i], last);
    assert edits[i].kind == last.kind && edits[i].id == last.id;
  }

  lemma LastAlone(edits: seq<Edit>)
    requires edits != [] && FirstRepeat(edits).None?
    ensures !Repeats(edits, |edits| - 1)
  {
    assert DistinctTargets(edits);
    forall i | 0 <= i < |edits| - 1
      ensures edits[i].kind != edits[|edits| - 1].kind || edits[i].id != edits[|edits| - 1].id
    {
      assert !SameTarget(edits[i], edits[|edits| - 1]);
    }
  }

  /**
   * Without a bound on sizes a proposal is refused for the first of these reasons that holds, and accepted if none
   * does: it rolls back what is not the newest refinement; it was made for another snapshot; it names a target twice;
   * the state objects to one of its edits.
   */
  lemma RefusedExactly(state: State, proposal: Proposal, options: Options)
    requires Canonical(state) && options.maxEntriesPerKind.None?
    ensures var r, events, edits := Trusted(state, proposal, options), state.refinements, proposal.edits;
            if proposal.rollbackOf.Some? && (events == [] || events[|events| - 1].proposal != proposal.rollbackOf.value) then
              r == Err(Rejection(RollbackNotNewest, proposal.id, proposal.rollbackOf))
            else if proposal.baseSnapshot.Some? && proposal.baseSnapshot.value != SnapshotId(state.scope, state.entries) then
              r == Err(Rejection(BaselineDrift, proposal.id, None))
            else if exists j :: Repeats(edits, j) then
              exists j :: FirstRepetition(edits, j) && r == Err(Rejection(DuplicateTarget, proposal.id, Some(EditKey(edits[j]))))
            else if exists i, reason :: 0 <= i < |edits| && Objects(state, edits[i], reason) then
              exists i, reason :: FirstObjection(state, edits, i, reason)
                                  && r == Err(Rejection(reason, proposal.id, Some(EditKey(edits[i]))))
            else
              r.Ok?
  {
    FirstRepeatIs(proposal.edits);
    if FirstRepeat(proposal.edits).None? {
      ObjectionDecides(state, proposal.id, proposal.at, proposal.edits);
    }
  }

  lemma ObjectionDecides(state: State, proposal: Text, at: Text, edits: seq<Edit>)
    requires Canonical(state) && DistinctTargets(edits)
    ensures var r := ApplyEdits(state, proposal, at, edits);
            if exists i, reason :: 0 <= i < |edits| && Objects(state, edits[i], reason) then
              exists i, reason :: FirstObjection(state, edits, i, reason)
                                  && r == Err(Rejection(reason, proposal, Some(EditKey(edits[i]))))
            else
              r.Ok?
  {
    ApplyEditsEffect(state, proposal, at, edits);
    var r := ApplyEdits(state, proposal, at, edits);
    if r.Err? {
      var i :| FirstRefused(state, edits, i) && Refuses(state, proposal, edits[i], r.error);
      ObjectsExactly(state, edits[i], RefusalReason(state, edits[i]));
      forall j, other | 0 <= j < i
        ensures !Objects(state, edits[j], other)
      {
        ObjectsExactly(state, edits[j], other);
      }
      assert FirstObjection(state, edits, i, RefusalReason(state, edits[i]));
    } else if i, reason :| 0 <= i < |edits| && Objects(state, edits[i], reason) {
      assert edits[i] in edits;
      ObjectsExactly(state, edits[i], reason);
    }
  }

  /** Canonical order of the kinds. */
  function Rank(kind: Kind): nat {
    match kind
    case Prompt => 0
    case Memory => 1
    case Skill => 2
    case Subagent => 3
  }

  /** The first kind that holds more entries than a bound. */
  ghost predicate FirstFull(groups: Groups, max: int, kind: Kind) {
    |groups.Of(kind)| > max && forall other :: Rank(other) < Rank(kind) ==> |groups.Of(other)| <= max
  }

  lemma {:induction false} FullExactly(state: State, max: int)
    ensures var full := OverCapacity(state, Some(max));
            if full.Some? then FirstFull(state.entries, max, full.value)
            else forall kind :: |state.entries.Of(kind)| <= max
  {
    var groups := state.entries;
    assert groups.Of(Prompt) == groups.prompt && groups.Of(Memory) == groups.memory;
    assert groups.Of(Skill) == groups.skill && groups.Of(Subagent) == groups.subagent;
  }

  /**
   * A bound on sizes refuses a proposal exactly when without it some kind would end up with more entries than the
   * bound, and it names the first such kind; otherwise it changes nothing.
   */
  lemma {:induction false} BoundRefuses(state: State, proposal: Proposal, max: int, maxRefinements: Option<int>)
    ensures var r := Trusted(state, proposal, Options(Some(max), maxRefinements));
            var free := Trusted(state, proposal, Options(None, maxRefinements));
            if free.Ok? && exists kind :: |free.value.state.entries.Of(kind)| > max then
              exists kind :: FirstFull(free.value.state.entries, max, kind)
                             && r == Err(Rejection(KindCapacity, proposal.id, Some(KindName(kind))))
            else
              r == free
  {
    var free := Trusted(state, proposal, Options(None, maxRefinements));
    if free.Ok? {
      FullExactly(ApplyEdits(state, proposal.id, proposal.at, proposal.edits).value.state, max);
    }
  }

  /** A proposal that rolls back or pins a revision is refused on the untrusted route; any other is applied all the same. */
  lemma UntrustedExactly(state: State, proposal: Proposal, options: Options)
    ensures Apply(state, proposal, options) ==
            if proposal.rollbackOf.Some? || exists edit :: edit in proposal.edits && !edit.Delete? && edit.pinned.Some? then
              Err(Rejection(PinnedRevision, proposal.id, None))
            else
              Trusted(state, proposal, options)
  {
  }

  /** How a target is spelled: the name of its kind, a slash, its id. */
  lemma TargetSpelled(edit: Edit)
    ensures EditKey(edit) == Ascii(match edit.kind
                                   case Prompt => "prompt"
                                   case Memory => "memory"
                                   case Skill => "skill"
                                   case Subagent => "subagent") + Ascii("/") + edit.id
    ensures KindName(edit.kind) + Ascii("/") + edit.id == EditKey(edit)
  {
  }

  // ----- Rollbacks -----

  /** The edit that takes one recorded edit back, on the fields of the record. */
  ghost predicate TakesBack(record: AppliedEdit, inverse: Edit) {
    var base := if record.after.Some? then Some(record.after.value.version) else None;
    match record.edit
    case Create(kind, id, _, _) => inverse == Delete(kind, id, base)
    case Update(_, _, _, _, _) =>
      if record.before.None? then inverse == record.edit
      else
        && inverse.Update? && inverse.kind == record.before.value.kind && inverse.id == record.before.value.id
        && Carries(record.before.value, inverse.value) && inverse.baseVersion == base
        && inverse.pinned.Some? && Stamped(record.before.value, inverse.pinned, [], [], 0)
    case Delete(_, _, _) =>
      if record.before.None? then inverse == record.edit
      else
        && inverse.Create? && inverse.kind == record.before.value.kind && inverse.id == record.before.value.id
        && Carries(record.before.value, inverse.value)
        && inverse.pinned.Some? && Stamped(record.before.value, inverse.pinned, [], [], 0)
  }

  lemma InverseTakesBack(record: AppliedEdit)
    ensures TakesBack(record, Inverse(record))
  {
  }

  /** The records are taken back in reverse order. */
  ghost predicate TakenBack(applied: seq<AppliedEdit>, edits: seq<Edit>) {
    |edits| == |applied| && forall i :: 0 <= i < |applied| ==> TakesBack(applied[i], edits[|applied| - 1 - i])
  }

  lemma {:induction false} InversesTakeBack(applied: seq<AppliedEdit>)
    ensures TakenBack(applied, Inverses(applied))
  {
    forall i | 0 <= i < |applied|
      ensures TakesBack(applied[i], Inverses(applied)[|applied| - 1 - i])
    {
      InverseAtTakesBack(applied, i);
    }
  }

  lemma {:induction false} InverseAtTakesBack(applied: seq<AppliedEdit>, i: nat)
    requires i < |applied|
    ensures TakesBack(applied[i], Inverses(applied)[|applied| - 1 - i])
  {
    assert Inverses(applied)[|applied| - 1 - i] == Inverse(applied[i]);
    InverseTakesBack(applied[i]);
  }

  /** A rollback names the snapshot and the refinement it takes back, and takes its edits back newest first. */
  lemma {:induction false} RollbackTold(result: RefinementResult, how: RollbackOptions)
    ensures var proposal := MakeRollback(result, how);
            && proposal.id == how.id && proposal.at == how.at
            && proposal.rationale == how.rationale && proposal.source == how.source
            && proposal.baseSnapshot == Some(SnapshotId(result.state.scope, result.state.entries))
            && proposal.rollbackOf == Some(result.event.proposal)
            && TakenBack(result.event.applied, proposal.edits)
  {
    InversesTakeBack(result.event.applied);
  }
}
