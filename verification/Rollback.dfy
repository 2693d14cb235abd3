/** What a proposal needs to be accepted, why edit order is irrelevant, and exactly when a rollback undoes it. */
module Rollback {
  import opened Wrappers
  import opened Texts
  import opened Sequences
  import opened GuidanceEntry
  import opened GuidanceState
  import opened Refinement

  datatype RollbackOptions = RollbackOptions(id: Text, at: Text, rationale: Option<Text>, source: Option<Text>)

  function VersionOf(entry: Option<Entry>): Option<int> {
    match entry
    case None => None
    case Some(e) => Some(e.version)
  }

  /** The edit that undoes one applied edit, pinning the revision it replaced. */
  function Inverse(applied: AppliedEdit): Edit {
    var edit := applied.edit;
    if edit.Create? then Delete(edit.kind, edit.id, VersionOf(applied.after))
    else if applied.before.None? then edit
    else
      var before := applied.before.value;
      if edit.Delete? then Create(before.kind, before.id, ValueOf(before), Some(RevisionOf(before)))
      else Update(before.kind, before.id, ValueOf(before), VersionOf(applied.after), Some(RevisionOf(before)))
  }

  /** The inverses of a list of applied edits, newest first. */
  function Inverses(applied: seq<AppliedEdit>): (edits: seq<Edit>)
    ensures |edits| == |applied|
    ensures forall i :: 0 <= i < |edits| ==> edits[i] == Inverse(applied[|applied| - 1 - i])
  {
    if applied == [] then [] else Inverses(applied[1..]) + [Inverse(applied[0])]
  }

  function MakeRollback(result: RefinementResult, options: RollbackOptions): Proposal {
    Proposal(options.id, options.at, options.rationale, options.source,
             Some(SnapshotOf(result.state)), Some(result.event.proposal), Inverses(result.event.applied))
  }

  function RollbackTarget(result: RefinementResult): SnapshotId {
    result.event.before
  }

  // ----- Acceptance -----

  predicate Baseline(state: State, proposal: Proposal) {
    && (proposal.rollbackOf.Some? ==> NewestIs(state.refinements, proposal.rollbackOf.value))
    && (proposal.baseSnapshot.Some? ==> proposal.baseSnapshot.value == SnapshotOf(state))
  }

  /** No kind would hold more than `max` entries once the edits are made. */
  ghost predicate Fits(state: State, edits: seq<Edit>, max: Option<int>) {
    max.Some? ==> forall kind :: |state.entries.Of(kind)| + Growth(edits, kind) <= max.value
  }

  lemma CapacityMeaning(state: State, max: Option<int>)
    ensures OverCapacity(state, max).None? <==> Fits(state, [], max)
  {
    var groups := state.entries;
    assert forall kind :: Growth([], kind) == 0;
    assert groups.Of(Prompt) == groups.prompt && groups.Of(Memory) == groups.memory;
    assert groups.Of(Skill) == groups.skill && groups.Of(Subagent) == groups.subagent;
  }

  /** The result of an accepted proposal, told from the state it started from. */
  ghost predicate Carried(state: State, proposal: Proposal, options: Options, result: RefinementResult)
    requires AllGuards(state, proposal.edits)
  {
    var next, event := result.state, result.event;
    && Edited(state, proposal.at, proposal.edits, next.(refinements := state.refinements))
    && RecordedAll(state, proposal.at, proposal.edits, event.applied)
    && event == EventOf(state, next, proposal, event.applied)
    && next.refinements == Retained(state.refinements + [event], options.maxRefinements)
  }

  /**
   * A proposal is accepted exactly when its baseline holds, its targets are distinct, every edit's
   * guard holds of the starting state, and the final sizes fit.
   */
  lemma AcceptedExactly(state: State, proposal: Proposal, options: Options)
    requires Canonical(state)
    ensures var r := Trusted(state, proposal, options);
            && (r.Ok? <==> && Baseline(state, proposal)
                           && DistinctTargets(proposal.edits)
                           && AllGuards(state, proposal.edits)
                           && Fits(state, proposal.edits, options.maxEntriesPerKind))
            && (r.Ok? ==> Carried(state, proposal, options, r.value))
  {
    if Baseline(state, proposal) && DistinctTargets(proposal.edits) {
      ApplyEditsEffect(state, proposal.id, proposal.at, proposal.edits);
      var r := ApplyEdits(state, proposal.id, proposal.at, proposal.edits);
      if r.Ok? {
        CapacityMeaning(r.value.state, options.maxEntriesPerKind);
        FitsLater(state, proposal.edits, r.value.state, options.maxEntriesPerKind);
        assert r.value.state.(refinements := state.refinements) == r.value.state;
        ForgetHistory(r.value.state);
      }
    }
  }

  lemma ForgetHistory(state: State)
    ensures forall history :: SnapshotOf(state.(refinements := history)) == SnapshotOf(state)
  {
  }

  lemma FitsLater(state: State, edits: seq<Edit>, next: State, max: Option<int>)
    requires Grown(state, edits, next)
    ensures Fits(next, [], max) <==> Fits(state, edits, max)
  {
    assert forall kind :: Growth([], kind) == 0;
    assert forall kind :: |next.entries.Of(kind)| == |state.entries.Of(kind)| + Growth(edits, kind);
  }

  // ----- Order -----

  lemma PermutedDistinct(a: seq<Edit>, b: seq<Edit>)
    requires multiset(a) == multiset(b) && DistinctTargets(a)
    ensures DistinctTargets(b)
  {
    PermutedApart(a, b, SameTarget);
  }

  /** Two ways of making the same edits leave the same groups. */
  lemma EditedUnique(state: State, at: Text, a: seq<Edit>, b: seq<Edit>, next: State, other: State)
    requires forall edit :: edit in a <==> edit in b
    requires AllGuards(state, a) && Edited(state, at, a, next)
    requires AllGuards(state, b) && Edited(state, at, b, other)
    ensures next.entries == other.entries
  {
    forall kind, id
      ensures FindEntry(next, kind, id) == FindEntry(other, kind, id)
    {
      if Targets(a, kind, id) {
        var edit :| edit in a && edit.kind == kind && edit.id == id;
        assert edit in b;
      } else {
        assert !Targets(b, kind, id);
      }
    }
    StateExtensional(next, other);
  }

  lemma {:induction false} PermutedAccepted(state: State, proposal: Proposal, edits: seq<Edit>, options: Options)
    requires Canonical(state) && multiset(proposal.edits) == multiset(edits)
    requires Trusted(state, proposal, options).Ok?
    ensures var r := Trusted(state, proposal.(edits := edits), options);
            r.Ok? && r.value.state.entries == Trusted(state, proposal, options).value.state.entries
  {
    var permuted := proposal.(edits := edits);
    AcceptedExactly(state, proposal, options);
    AcceptedExactly(state, permuted, options);
    PermutedDistinct(proposal.edits, edits);
    SameMembers(proposal.edits, edits);
    ApplyEditsEffect(state, proposal.id, proposal.at, proposal.edits);
    ApplyEditsEffect(state, proposal.id, proposal.at, edits);
    var next := ApplyEdits(state, proposal.id, proposal.at, proposal.edits).value.state;
    var other := ApplyEdits(state, proposal.id, proposal.at, edits).value.state;
    EditedUnique(state, proposal.at, proposal.edits, edits, next, other);
    assert OverCapacity(other, options.maxEntriesPerKind) == OverCapacity(next, options.maxEntriesPerKind);
  }

  /** Permuting a proposal's edits changes neither whether it is accepted nor the entries it leaves. */
  lemma {:induction false} OrderIrrelevant(state: State, proposal: Proposal, edits: seq<Edit>, options: Options)
    requires Canonical(state) && multiset(proposal.edits) == multiset(edits)
    ensures var r, p := Trusted(state, proposal, options), Trusted(state, proposal.(edits := edits), options);
            && (r.Ok? <==> p.Ok?)
            && (r.Ok? ==> r.value.state.entries == p.value.state.entries)
  {
    if Trusted(state, proposal, options).Ok? {
      PermutedAccepted(state, proposal, edits, options);
    }
    if Trusted(state, proposal.(edits := edits), options).Ok? {
      PermutedAccepted(state, proposal.(edits := edits), proposal.edits, options);
      assert proposal.(edits := edits).(edits := proposal.edits) == proposal;
    }
  }

  // ----- Undo -----

  /** Every entry the edits delete carries the state's scope, the one a re-created entry is given. */
  ghost predicate DeletesInScope(state: State, edits: seq<Edit>) {
    forall edit :: edit in edits && edit.Delete? && FindEntry(state, edit.kind, edit.id).Some? ==>
      FindEntry(state, edit.kind, edit.id).value.scope == state.scope
  }

  predicate KeepsNewest(options: Options) {
    options.maxRefinements.None? || options.maxRefinements.value >= 1
  }

  /** What undoing an edit puts back at its target. */
  function PutBack(state: State, edit: Edit): Option<Entry> {
    var before := FindEntry(state, edit.kind, edit.id);
    if edit.Delete? && before.Some? then Some(before.value.(scope := state.scope)) else before
  }

  /** `inverse` may be applied where its edit's effect stands, and puts back what the edit found. */
  ghost predicate Undoes(state: State, edit: Edit, middle: State, back: Text, inverse: Edit) {
    && SameTarget(inverse, edit)
    && Guard(middle, inverse)
    && After(middle, back, inverse) == PutBack(state, edit)
  }

  lemma InverseUndoes(state: State, at: Text, edit: Edit, middle: State, back: Text)
    requires Canonical(state) && Guard(state, edit) && middle.scope == state.scope
    requires FindEntry(middle, edit.kind, edit.id) == After(state, at, edit)
    ensures var inverse := Inverse(Recorded(state, at, edit));
            && Undoes(state, edit, middle, back, inverse)
            && (forall kind :: Growth([inverse], kind) == -Growth([edit], kind))
  {
    var group := state.entries.Of(edit.kind);
    assert CanonicalGroup(group, edit.kind);
    if !edit.Create? {
      assert FindEntry(state, edit.kind, edit.id).value in group;
    }
  }

  lemma {:induction false} InversesGrowth(applied: seq<AppliedEdit>, edits: seq<Edit>, kind: Kind)
    requires |applied| == |edits|
    requires forall i :: 0 <= i < |edits| ==> Growth([Inverse(applied[i])], kind) == -Growth([edits[i]], kind)
    ensures Growth(Inverses(applied), kind) == -Growth(edits, kind)
  {
    if edits != [] {
      InversesGrowth(applied[1..], edits[1..], kind);
      GrowthConcatOf(Inverses(applied[1..]), [Inverse(applied[0])], kind);
      assert edits == [edits[0]] + edits[1..];
      GrowthConcatOf([edits[0]], edits[1..], kind);
    }
  }

  /** The inverse of the i-th edit is the i-th from the end, and undoes it. */
  lemma {:induction false} InverseAt(state: State, at: Text, edits: seq<Edit>, applied: seq<AppliedEdit>, middle: State, back: Text, i: nat)
    requires Canonical(state) && AllGuards(state, edits) && RecordedAll(state, at, edits, applied)
    requires middle.scope == state.scope && Hits(state, at, edits, middle) && i < |edits|
    ensures var inverse := Inverses(applied)[|edits| - 1 - i];
            && Undoes(state, edits[i], middle, back, inverse)
            && inverse in Inverses(applied) && edits[i] in edits && inverse == Inverse(applied[i])
            && (forall kind :: Growth([inverse], kind) == -Growth([edits[i]], kind))
  {
    assert edits[i] in edits;
    InverseUndoes(state, at, edits[i], middle, back);
  }

  lemma {:induction false} InversesGuarded(state: State, at: Text, edits: seq<Edit>, applied: seq<AppliedEdit>, middle: State, back: Text)
    requires Canonical(state) && AllGuards(state, edits) && RecordedAll(state, at, edits, applied)
    requires middle.scope == state.scope && Hits(state, at, edits, middle)
    ensures AllGuards(middle, Inverses(applied))
    ensures forall inverse :: inverse in Inverses(applied) ==> Targets(edits, inverse.kind, inverse.id)
  {
    var inverses, n := Inverses(applied), |edits|;
    forall inverse | inverse in inverses
      ensures Guard(middle, inverse) && Targets(edits, inverse.kind, inverse.id)
    {
      var i :| 0 <= i < n && inverses[i] == inverse;
      InverseAt(state, at, edits, applied, middle, back, n - 1 - i);
    }
  }

  lemma {:induction false} InversesDistinct(state: State, at: Text, edits: seq<Edit>, applied: seq<AppliedEdit>)
    requires Canonical(state) && DistinctTargets(edits) && AllGuards(state, edits)
    requires RecordedAll(state, at, edits, applied)
    ensures DistinctTargets(Inverses(applied))
  {
    var inverses, n := Inverses(applied), |edits|;
    forall i, j | 0 <= i < j < n
      ensures !SameTarget(inverses[i], inverses[j])
    {
      InverseTarget(state, at, edits, applied, i);
      InverseTarget(state, at, edits, applied, j);
      assert !SameTarget(edits[n - 1 - j], edits[n - 1 - i]);
    }
  }

  /** An inverse has the target of the edit it undoes. */
  lemma InverseTarget(state: State, at: Text, edits: seq<Edit>, applied: seq<AppliedEdit>, i: nat)
    requires Canonical(state) && AllGuards(state, edits) && RecordedAll(state, at, edits, applied) && i < |edits|
    ensures SameTarget(Inverses(applied)[i], edits[|edits| - 1 - i])
  {
    var edit := edits[|edits| - 1 - i];
    assert edit in edits && applied[|edits| - 1 - i] == Recorded(state, at, edit);
    assert CanonicalGroup(state.entries.Of(edit.kind), edit.kind);
  }

  /** The facts about a list of inverses that acceptance asks for. */
  lemma {:induction false} InversesEffect(state: State, at: Text, edits: seq<Edit>, applied: seq<AppliedEdit>, middle: State, back: Text)
    requires Canonical(state) && DistinctTargets(edits) && AllGuards(state, edits)
    requires RecordedAll(state, at, edits, applied)
    requires middle.scope == state.scope && Hits(state, at, edits, middle)
    ensures var inverses := Inverses(applied);
            && DistinctTargets(inverses)
            && AllGuards(middle, inverses)
            && (forall edit :: edit in edits ==>
                  exists inverse :: inverse in inverses && Undoes(state, edit, middle, back, inverse))
            && (forall inverse :: inverse in inverses ==> Targets(edits, inverse.kind, inverse.id))
            && (forall kind :: Growth(inverses, kind) == -Growth(edits, kind))
  {
    InversesGuarded(state, at, edits, applied, middle, back);
    InversesDistinct(state, at, edits, applied);
    forall edit | edit in edits
      ensures exists inverse :: inverse in Inverses(applied) && Undoes(state, edit, middle, back, inverse)
    {
      var i :| 0 <= i < |edits| && edits[i] == edit;
      InverseAt(state, at, edits, applied, middle, back, i);
    }
    forall kind {
      InversesShrink(state, at, edits, applied, middle, back, kind);
    }
  }

  lemma {:induction false} InversesShrink(state: State, at: Text, edits: seq<Edit>, applied: seq<AppliedEdit>, middle: State, back: Text,
                       kind: Kind)
    requires Canonical(state) && AllGuards(state, edits) && RecordedAll(state, at, edits, applied)
    requires middle.scope == state.scope && Hits(state, at, edits, middle)
    ensures Growth(Inverses(applied), kind) == -Growth(edits, kind)
  {
    forall i | 0 <= i < |edits|
      ensures Growth([Inverse(applied[i])], kind) == -Growth([edits[i]], kind)
    {
      InverseAt(state, at, edits, applied, middle, back, i);
    }
    InversesGrowth(applied, edits, kind);
  }

  /** The lookups a rollback leaves: the old ones, except that re-created entries take the state's scope. */
  lemma {:induction false} RollbackLookups(state: State, at: Text, edits: seq<Edit>, applied: seq<AppliedEdit>, middle: State,
                        back: Text, restored: State)
    requires Canonical(state) && DistinctTargets(edits) && AllGuards(state, edits)
    requires RecordedAll(state, at, edits, applied)
    requires middle.scope == state.scope && Hits(state, at, edits, middle) && Misses(state, edits, middle)
    requires AllGuards(middle, Inverses(applied)) && Edited(middle, back, Inverses(applied), restored)
    ensures forall edit :: edit in edits ==> FindEntry(restored, edit.kind, edit.id) == PutBack(state, edit)
    ensures forall kind, id :: !Targets(edits, kind, id) ==> FindEntry(restored, kind, id) == FindEntry(state, kind, id)
  {
    var inverses := Inverses(applied);
    InversesEffect(state, at, edits, applied, middle, back);
    forall edit | edit in edits
      ensures FindEntry(restored, edit.kind, edit.id) == PutBack(state, edit)
    {
      var inverse :| inverse in inverses && Undoes(state, edit, middle, back, inverse);
    }
    forall kind, id | !Targets(edits, kind, id)
      ensures FindEntry(restored, kind, id) == FindEntry(state, kind, id)
    {
      assert !Targets(inverses, kind, id);
    }
  }

  lemma RestoredExactly(state: State, edits: seq<Edit>, restored: State)
    requires Canonical(state) && Canonical(restored)
    requires forall edit :: edit in edits ==> FindEntry(restored, edit.kind, edit.id) == PutBack(state, edit)
    requires forall kind, id :: !Targets(edits, kind, id) ==> FindEntry(restored, kind, id) == FindEntry(state, kind, id)
    ensures restored.entries == state.entries <==> DeletesInScope(state, edits)
  {
    if DeletesInScope(state, edits) {
      forall kind, id
        ensures FindEntry(restored, kind, id) == FindEntry(state, kind, id)
      {
        if Targets(edits, kind, id) {
          var edit :| edit in edits && edit.kind == kind && edit.id == id;
        }
      }
      StateExtensional(restored, state);
    } else {
      var edit :| edit in edits && edit.Delete? && FindEntry(state, edit.kind, edit.id).Some?
                  && FindEntry(state, edit.kind, edit.id).value.scope != state.scope;
      assert FindEntry(restored, edit.kind, edit.id) == PutBack(state, edit);
    }
  }

  /**
   * Undo. Once a proposal has been applied, its rollback is accepted exactly when the newest refinement
   * is retained and the old sizes fit, and it then restores every group field for field and in order
   * exactly when every deleted entry carried the state's scope.
   */
  lemma {:induction false} RollbackExact(state: State, proposal: Proposal, options: Options, how: RollbackOptions, later: Options)
    requires Canonical(state) && Trusted(state, proposal, options).Ok?
    ensures var result := Trusted(state, proposal, options).value;
            var back := Trusted(result.state, MakeRollback(result, how), later);
            && (back.Ok? <==> KeepsNewest(options) && Fits(state, [], later.maxEntriesPerKind))
            && (!KeepsNewest(options) ==>
                  back.Err? && back.error == Rejection(RollbackNotNewest, how.id, Some(proposal.id)))
            && (back.Ok? ==> && Canonical(back.value.state)
                             && (back.value.state.entries == state.entries <==> DeletesInScope(state, proposal.edits))
                             && (SnapshotOf(back.value.state) == RollbackTarget(result)
                                 <==> DeletesInScope(state, proposal.edits)))
  {
    var result := Trusted(state, proposal, options).value;
    var undo := MakeRollback(result, how);
    var middle := result.state;
    AcceptedExactly(state, proposal, options);
    RetainedNewest(state.refinements, result.event, options);
    InversesEffect(state, proposal.at, proposal.edits, result.event.applied, middle, how.at);
    Refile(middle, state.refinements);
    AcceptedExactly(middle, undo, later);
    FitsBack(state, proposal.edits, middle, undo.edits, later.maxEntriesPerKind);
    var back := Trusted(middle, undo, later);
    if back.Ok? {
      var restored := back.value.state.(refinements := middle.refinements);
      RollbackLookups(state, proposal.at, proposal.edits, result.event.applied, middle, how.at, restored);
      RestoredExactly(state, proposal.edits, restored);
    }
  }

  /** Only the entries and the scope of a state decide whether it is canonical and what it holds. */
  lemma Refile(state: State, history: seq<Event>)
    ensures Canonical(state.(refinements := history)) <==> Canonical(state)
    ensures forall kind, id :: FindEntry(state.(refinements := history), kind, id) == FindEntry(state, kind, id)
  {
  }

  lemma RetainedNewest(history: seq<Event>, event: Event, options: Options)
    ensures NewestIs(Retained(history + [event], options.maxRefinements), event.proposal) <==> KeepsNewest(options)
  {
  }

  lemma FitsBack(state: State, edits: seq<Edit>, middle: State, inverses: seq<Edit>, max: Option<int>)
    requires Grown(state, edits, middle) && forall kind :: Growth(inverses, kind) == -Growth(edits, kind)
    ensures Fits(middle, inverses, max) <==> Fits(state, [], max)
  {
    assert forall kind :: Growth([], kind) == 0;
    assert forall kind :: |middle.entries.Of(kind)| + Growth(inverses, kind) == |state.entries.Of(kind)|;
  }

  /** Undoing the undo always brings the refined entries back: a rollback deletes only what was just created. */
  lemma {:induction false} RedoExact(state: State, proposal: Proposal, options: Options, how: RollbackOptions, later: Options,
                  again: RollbackOptions, last: Options)
    requires Canonical(state) && Trusted(state, proposal, options).Ok?
    requires var result := Trusted(state, proposal, options).value;
             && Trusted(result.state, MakeRollback(result, how), later).Ok?
             && KeepsNewest(later) && Fits(result.state, [], last.maxEntriesPerKind)
    ensures var result := Trusted(state, proposal, options).value;
            var undone := Trusted(result.state, MakeRollback(result, how), later).value;
            var redone := Trusted(undone.state, MakeRollback(undone, again), last);
            redone.Ok? && redone.value.state.entries == result.state.entries
  {
    var result := Trusted(state, proposal, options).value;
    var undo := MakeRollback(result, how);
    AcceptedExactly(state, proposal, options);
    Refile(result.state, state.refinements);
    RollbackExact(result.state, undo, later, again, last);
    UndoDeletesInScope(state, proposal.at, proposal.edits, result.event.applied, result.state);
  }

  lemma UndoDeletesInScope(state: State, at: Text, edits: seq<Edit>, applied: seq<AppliedEdit>, middle: State)
    requires AllGuards(state, edits) && RecordedAll(state, at, edits, applied)
    requires middle.scope == state.scope && Hits(state, at, edits, middle)
    ensures DeletesInScope(middle, Inverses(applied))
  {
    forall inverse | inverse in Inverses(applied) && inverse.Delete? && FindEntry(middle, inverse.kind, inverse.id).Some?
      ensures FindEntry(middle, inverse.kind, inverse.id).value.scope == middle.scope
    {
      var i :| 0 <= i < |applied| && inverse == Inverse(applied[i]);
      assert edits[i] in edits;
      UndoDelete(state, at, edits[i], middle);
    }
  }

  lemma UndoDelete(state: State, at: Text, edit: Edit, middle: State)
    requires Guard(state, edit) && middle.scope == state.scope
    requires FindEntry(middle, edit.kind, edit.id) == After(state, at, edit)
    requires Inverse(Recorded(state, at, edit)).Delete?
    ensures var inverse := Inverse(Recorded(state, at, edit));
            var found := FindEntry(middle, inverse.kind, inverse.id);
            found.Some? ==> found.value.scope == middle.scope
  {
    assert edit.Create?;
  }

  // ----- Runs -----

  datatype Request = Request(proposal: Proposal, options: Options)

  /** The state after a list of requests; a refused request changes nothing. */
  function RunFrom(state: State, requests: seq<Request>): State
    decreases |requests|
  {
    if requests == [] then state
    else
      var r := Trusted(state, requests[0].proposal, requests[0].options);
      RunFrom(if r.Ok? then r.value.state else state, requests[1..])
  }

  /** Retained events link up: each starts from the snapshot its predecessor left, the last left this one. */
  ghost predicate AuditChain(state: State) {
    var events := state.refinements;
    && (events != [] ==> events[|events| - 1].after == SnapshotOf(state))
    && (forall i :: 0 <= i < |events| - 1 ==> events[i].after == events[i + 1].before)
  }

  lemma {:induction false} StepKeeps(state: State, proposal: Proposal, options: Options)
    requires Canonical(state) && Scoped(state) && AuditChain(state) && Trusted(state, proposal, options).Ok?
    ensures var next := Trusted(state, proposal, options).value.state;
            Canonical(next) && Scoped(next) && AuditChain(next) && next.scope == state.scope
  {
    AcceptedExactly(state, proposal, options);
    var result := Trusted(state, proposal, options).value;
    var next := result.state;
    Refile(next, state.refinements);
    forall kind, e | e in next.entries.Of(kind)
      ensures e.scope == next.scope
    {
      assert CanonicalGroup(next.entries.Of(kind), kind);
      CanonicalDistinct(next.entries.Of(kind));
      FindMember(next.entries.Of(kind), e);
      assert FindEntry(next, kind, e.id) == Some(e);
      if Targets(proposal.edits, kind, e.id) {
        var edit :| edit in proposal.edits && edit.kind == kind && edit.id == e.id;
        assert FindEntry(next, kind, e.id) == After(state, proposal.at, edit);
      }
    }
    ChainExtends(state, result.event, next, options.maxRefinements);
  }

  lemma ChainExtends(state: State, event: Event, next: State, bound: Option<int>)
    requires AuditChain(state) && event.before == SnapshotOf(state) && event.after == SnapshotOf(next)
    requires next.refinements == Retained(state.refinements + [event], bound)
    ensures AuditChain(next)
  {
    var history, kept := state.refinements + [event], next.refinements;
    var dropped := |history| - |kept|;
    assert kept == history[dropped..];
    forall i | 0 <= i < |kept| - 1
      ensures kept[i].after == kept[i + 1].before
    {
      assert kept[i] == history[dropped + i] && kept[i + 1] == history[dropped + i + 1];
    }
  }

  /** States grown from nothing are canonical, carry one scope, and keep an unbroken audit chain. */
  lemma {:induction false} GrownStates(state: State, requests: seq<Request>)
    requires Canonical(state) && Scoped(state) && AuditChain(state)
    ensures var grown := RunFrom(state, requests);
            Canonical(grown) && Scoped(grown) && AuditChain(grown) && grown.scope == state.scope
    decreases |requests|
  {
    if requests != [] {
      var r := Trusted(state, requests[0].proposal, requests[0].options);
      if r.Ok? {
        StepKeeps(state, requests[0].proposal, requests[0].options);
      }
      GrownStates(if r.Ok? then r.value.state else state, requests[1..]);
    }
  }

  /** In a state grown from nothing every accepted proposal can be undone exactly. */
  lemma {:induction false} GrownRollback(scope: Text, requests: seq<Request>, proposal: Proposal, options: Options, how: RollbackOptions,
                      later: Options)
    requires var state := RunFrom(Empty(scope), requests);
             Trusted(state, proposal, options).Ok? && KeepsNewest(options) && Fits(state, [], later.maxEntriesPerKind)
    ensures var state := RunFrom(Empty(scope), requests);
            var result := Trusted(state, proposal, options).value;
            var back := Trusted(result.state, MakeRollback(result, how), later);
            && back.Ok? && back.value.state.entries == state.entries
            && SnapshotOf(back.value.state) == RollbackTarget(result)
  {
    EmptyCanonical(scope);
    GrownStates(Empty(scope), requests);
    var state := RunFrom(Empty(scope), requests);
    RollbackExact(state, proposal, options, how, later);
    assert DeletesInScope(state, proposal.edits);
  }

  lemma EmptyCanonical(scope: Text)
    ensures Canonical(Empty(scope)) && Scoped(Empty(scope)) && AuditChain(Empty(scope))
  {
    assert forall kind :: Empty(scope).entries.Of(kind) == [];
  }

  /** The untrusted route leaves every revision to the engine. */
  lemma {:induction false} AuthoredRevisions(state: State, proposal: Proposal, options: Options)
    requires Canonical(state) && Apply(state, proposal, options).Ok?
    ensures var next := Apply(state, proposal, options).value.state;
            forall kind, id :: FindEntry(next, kind, id).Some? ==>
              var before, after := FindEntry(state, kind, id), FindEntry(next, kind, id).value;
              || before == Some(after)
              || (before.None? && RevisionOf(after) == Revision(proposal.at, proposal.at, 1) && after.scope == state.scope)
              || (before.Some? && after.scope == before.value.scope
                  && RevisionOf(after) == Revision(before.value.createdAt, proposal.at, before.value.version + 1))
  {
    AcceptedExactly(state, proposal, options);
    var next := Apply(state, proposal, options).value.state;
    forall kind, id | FindEntry(next, kind, id).Some?
      ensures var before, after := FindEntry(state, kind, id), FindEntry(next, kind, id).value;
              || before == Some(after)
              || (before.None? && RevisionOf(after) == Revision(proposal.at, proposal.at, 1) && after.scope == state.scope)
              || (before.Some? && after.scope == before.value.scope
                  && RevisionOf(after) == Revision(before.value.createdAt, proposal.at, before.value.version + 1))
    {
      if Targets(proposal.edits, kind, id) {
        var edit :| edit in proposal.edits && edit.kind == kind && edit.id == id;
        assert FindEntry(next, kind, id) == After(state, proposal.at, edit);
      }
    }
  }
}
