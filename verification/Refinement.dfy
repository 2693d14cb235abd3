/** Applying one proposal of edits to one guidance state, atomically. */
module Refinement {
  import opened Wrappers
  import opened Texts
  import opened GuidanceEntry
  import opened GuidanceState

  datatype Reason =
    | BaselineDrift | CreateExisting | DeleteMissing | DuplicateTarget | KindCapacity
    | PinnedRevision | RollbackNotNewest | UpdateMissing | VersionDrift

  datatype Rejection = Rejection(reason: Reason, proposal: Text, target: Option<Text>)

  datatype Options = Options(maxEntriesPerKind: Option<int>, maxRefinements: Option<int>)

  datatype Outcome = Outcome(state: State, applied: seq<AppliedEdit>)

  datatype RefinementResult = RefinementResult(state: State, event: Event)

  // ----- One edit -----

  function CreatedEntry(scope: Text, at: Text, edit: Edit): Entry
    requires edit.Create?
  {
    Assemble(edit.id, edit.kind, scope, edit.value, edit.pinned.GetOr(Revision(at, at, 1)))
  }

  function UpdatedEntry(before: Entry, at: Text, edit: Edit): Entry
    requires edit.Update?
  {
    Assemble(before.id, before.kind, before.scope, edit.value,
             edit.pinned.GetOr(Revision(before.createdAt, at, before.version + 1)))
  }

  /** The entries whose id is not `id`. */
  function Without(group: seq<Entry>, id: Text): seq<Entry> {
    if group == [] then []
    else (if group[0].id != id then [group[0]] else []) + Without(group[1..], id)
  }

  /** Every entry with this id replaced by `after`. */
  function Replaced(group: seq<Entry>, id: Text, after: Entry): (r: seq<Entry>)
    ensures |r| == |group|
    ensures forall i :: 0 <= i < |r| ==> r[i] == if group[i].id == id then after else group[i]
  {
    if group == [] then []
    else [if group[0].id == id then after else group[0]] + Replaced(group[1..], id, after)
  }

  predicate VersionMatches(edit: Edit, before: Entry)
    requires !edit.Create?
  {
    edit.baseVersion.None? || edit.baseVersion.value == before.version
  }

  function ApplyEdit(state: State, proposal: Text, at: Text, edit: Edit): Result<Outcome, Rejection> {
    var before := FindEntry(state, edit.kind, edit.id);
    var key := Some(EditKey(edit));
    if edit.Create? then
      if before.Some? then Err(Rejection(CreateExisting, proposal, key))
      else
        var after := CreatedEntry(state.scope, at, edit);
        Ok(Outcome(WithEntries(state, edit.kind, state.entries.Of(edit.kind) + [after]),
                   [AppliedEdit(edit, None, Some(after))]))
    else if before.None? then
      Err(Rejection(if edit.Update? then UpdateMissing else DeleteMissing, proposal, key))
    else if !VersionMatches(edit, before.value) then
      Err(Rejection(VersionDrift, proposal, key))
    else if edit.Delete? then
      Ok(Outcome(WithEntries(state, edit.kind, Without(state.entries.Of(edit.kind), edit.id)),
                 [AppliedEdit(edit, before, None)]))
    else
      var after := UpdatedEntry(before.value, at, edit);
      Ok(Outcome(WithEntries(state, edit.kind, Replaced(state.entries.Of(edit.kind), edit.id, after)),
                 [AppliedEdit(edit, before, Some(after))]))
  }

  /** The edits in order, each against the state the previous one left; the first refusal ends it. */
  function ApplyEdits(state: State, proposal: Text, at: Text, edits: seq<Edit>): Result<Outcome, Rejection>
    decreases |edits|
  {
    if edits == [] then Ok(Outcome(state, []))
    else
      match ApplyEdit(state, proposal, at, edits[0])
      case Err(e) => Err(e)
      case Ok(first) =>
        match ApplyEdits(first.state, proposal, at, edits[1..])
        case Err(e) => Err(e)
        case Ok(rest) => Ok(Outcome(rest.state, first.applied + rest.applied))
  }

  // ----- One proposal -----

  ghost predicate DistinctTargets(edits: seq<Edit>) {
    forall i, j :: 0 <= i < j < |edits| ==> !SameTarget(edits[i], edits[j])
  }

  /** The key of the first edit whose target an earlier edit already names. */
  function FirstRepeat(edits: seq<Edit>): (key: Option<Text>)
    ensures key.None? <==> DistinctTargets(edits)
  {
    if edits == [] then None
    else
      var init, last := edits[..|edits| - 1], edits[|edits| - 1];
      assert forall i :: 0 <= i < |init| ==> init[i] == edits[i];
      var earlier := FirstRepeat(init);
      if earlier.Some? then earlier
      else if exists i :: 0 <= i < |init| && SameTarget(init[i], last) then Some(EditKey(last))
      else None
  }

  method FindDuplicate(proposal: Proposal) returns (duplicate: Option<Rejection>)
    ensures duplicate ==
            match FirstRepeat(proposal.edits)
            case None => None
            case Some(key) => Some(Rejection(DuplicateTarget, proposal.id, Some(key)))
  {
    var edits := proposal.edits;
    var targets: set<Text> := {};
    for i := 0 to |edits|
      invariant targets == KeysOf(edits[..i])
      invariant FirstRepeat(edits[..i]).None?
    {
      var key := EditKey(edits[i]);
      KeysStep(edits, i);
      RepeatStep(edits, i);
      if key in targets {
        RepeatPersists(edits, i + 1);
        return Some(Rejection(DuplicateTarget, proposal.id, Some(key)));
      }
      targets := targets + {key};
    }
    assert edits[..|edits|] == edits;
    duplicate := None;
  }

  ghost function KeysOf(edits: seq<Edit>): set<Text> {
    set edit | edit in edits :: EditKey(edit)
  }

  lemma KeysStep(edits: seq<Edit>, i: nat)
    requires i < |edits|
    ensures KeysOf(edits[..i + 1]) == KeysOf(edits[..i]) + {EditKey(edits[i])}
  {
    assert edits[..i + 1] == edits[..i] + [edits[i]];
  }

  lemma RepeatStep(edits: seq<Edit>, i: nat)
    requires i < |edits| && FirstRepeat(edits[..i]).None?
    ensures FirstRepeat(edits[..i + 1]) ==
            if EditKey(edits[i]) in KeysOf(edits[..i]) then Some(EditKey(edits[i])) else None
  {
    var init, last := edits[..i], edits[i];
    assert edits[..i + 1][..i] == init;
    if k :| 0 <= k < |init| && SameTarget(init[k], last) {
      EditKeyInjective(init[k], last);
      assert init[k] in init;
    } else if EditKey(last) in KeysOf(init) {
      var edit :| edit in init && EditKey(edit) == EditKey(last);
      EditKeyInjective(edit, last);
    }
  }

  lemma {:induction false} RepeatPersists(edits: seq<Edit>, n: nat)
    requires n <= |edits| && FirstRepeat(edits[..n]).Some?
    ensures FirstRepeat(edits) == FirstRepeat(edits[..n])
  {
    if n == |edits| {
      assert edits[..n] == edits;
    } else {
      var init := edits[..|edits| - 1];
      assert init[..n] == edits[..n];
      RepeatPersists(init, n);
    }
  }

  /** The first kind, in canonical order, holding more than `max` entries. */
  function OverCapacity(state: State, max: Option<int>): Option<Kind> {
    if max.None? then None
    else if |state.entries.prompt| > max.value then Some(Prompt)
    else if |state.entries.memory| > max.value then Some(Memory)
    else if |state.entries.skill| > max.value then Some(Skill)
    else if |state.entries.subagent| > max.value then Some(Subagent)
    else None
  }

  /** The newest `bound` events; everything without a bound, nothing for a bound below one. */
  function Retained(history: seq<Event>, bound: Option<int>): seq<Event> {
    if bound.None? then history
    else
      var kept := if bound.value < 0 then 0 else bound.value;
      history[if |history| - kept < 0 then 0 else |history| - kept..]
  }

  predicate NewestIs(refinements: seq<Event>, proposal: Text) {
    refinements != [] && refinements[|refinements| - 1].proposal == proposal
  }

  function EventOf(before: State, after: State, proposal: Proposal, applied: seq<AppliedEdit>): Event {
    Event(proposal.id, proposal.at, before.scope, proposal.rationale, proposal.source,
          SnapshotOf(before), SnapshotOf(after), applied)
  }

  /** What `applyTrusted` returns, as a function of its arguments. */
  function Trusted(state: State, proposal: Proposal, options: Options): Result<RefinementResult, Rejection> {
    if proposal.rollbackOf.Some? && !NewestIs(state.refinements, proposal.rollbackOf.value) then
      Err(Rejection(RollbackNotNewest, proposal.id, proposal.rollbackOf))
    else if proposal.baseSnapshot.Some? && proposal.baseSnapshot.value != SnapshotOf(state) then
      Err(Rejection(BaselineDrift, proposal.id, None))
    else if FirstRepeat(proposal.edits).Some? then
      Err(Rejection(DuplicateTarget, proposal.id, FirstRepeat(proposal.edits)))
    else
      match ApplyEdits(state, proposal.id, proposal.at, proposal.edits)
      case Err(e) => Err(e)
      case Ok(outcome) =>
        var full := OverCapacity(outcome.state, options.maxEntriesPerKind);
        if full.Some? then Err(Rejection(KindCapacity, proposal.id, Some(KindName(full.value))))
        else
          var event := EventOf(state, outcome.state, proposal, outcome.applied);
          Ok(RefinementResult(
               outcome.state.(refinements := Retained(outcome.state.refinements + [event], options.maxRefinements)),
               event))
  }

  method ApplyTrusted(state: State, proposal: Proposal, options: Options)
    returns (result: Result<RefinementResult, Rejection>)
    ensures result == Trusted(state, proposal, options)
  {
    var before := SnapshotOf(state);
    if proposal.rollbackOf.Some? && !NewestIs(state.refinements, proposal.rollbackOf.value) {
      return Err(Rejection(RollbackNotNewest, proposal.id, proposal.rollbackOf));
    }
    if proposal.baseSnapshot.Some? && proposal.baseSnapshot.value != before {
      return Err(Rejection(BaselineDrift, proposal.id, None));
    }
    var duplicate := FindDuplicate(proposal);
    if duplicate.Some? {
      return Err(duplicate.value);
    }
    var next, applied := state, [];
    PrependNothing(ApplyEdits(state, proposal.id, proposal.at, proposal.edits));
    assert proposal.edits[0..] == proposal.edits;
    for i := 0 to |proposal.edits|
      invariant ApplyEdits(state, proposal.id, proposal.at, proposal.edits)
             == Prepend(applied, ApplyEdits(next, proposal.id, proposal.at, proposal.edits[i..]))
    {
      assert proposal.edits[i..][0] == proposal.edits[i];
      var outcome := ApplyEdit(next, proposal.id, proposal.at, proposal.edits[i]);
      if outcome.Err? {
        return Err(outcome.error);
      }
      assert proposal.edits[i..][1..] == proposal.edits[i + 1..];
      PrependTwice(applied, outcome.value.applied,
                   ApplyEdits(outcome.value.state, proposal.id, proposal.at, proposal.edits[i + 1..]));
      next, applied := outcome.value.state, applied + outcome.value.applied;
    }
    assert proposal.edits[|proposal.edits|..] == [];
    assert applied + [] == applied;
    var capacity := OverCapacity(next, options.maxEntriesPerKind);
    if capacity.Some? {
      return Err(Rejection(KindCapacity, proposal.id, Some(KindName(capacity.value))));
    }
    var event := Event(proposal.id, proposal.at, state.scope, None, None, before, SnapshotOf(next), applied);
    if proposal.rationale.Some? { event := event.(rationale := proposal.rationale); }
    if proposal.source.Some? { event := event.(source := proposal.source); }
    var history := next.refinements + [event];
    result := Ok(RefinementResult(next.(refinements := Retained(history, options.maxRefinements)), event));
  }

  ghost function Prepend(applied: seq<AppliedEdit>, rest: Result<Outcome, Rejection>): Result<Outcome, Rejection> {
    match rest
    case Err(e) => Err(e)
    case Ok(outcome) => Ok(outcome.(applied := applied + outcome.applied))
  }

  lemma PrependNothing(rest: Result<Outcome, Rejection>)
    ensures Prepend([], rest) == rest
  {
    if rest.Ok? {
      assert [] + rest.value.applied == rest.value.applied;
    }
  }

  lemma PrependTwice(a: seq<AppliedEdit>, b: seq<AppliedEdit>, rest: Result<Outcome, Rejection>)
    ensures Prepend(a, Prepend(b, rest)) == Prepend(a + b, rest)
  {
    if rest.Ok? {
      assert a + (b + rest.value.applied) == a + b + rest.value.applied;
    }
  }

  /** Whether every edit of one proposal leaves its revision to the engine. */
  predicate IsAuthored(proposal: Proposal) {
    && proposal.rollbackOf.None?
    && forall edit :: edit in proposal.edits ==> edit.Delete? || edit.pinned.None?
  }

  /** The untrusted route: pinned revisions are refused before anything else is looked at. */
  function Apply(state: State, proposal: Proposal, options: Options): Result<RefinementResult, Rejection> {
    if IsAuthored(proposal) then Trusted(state, proposal, options)
    else Err(Rejection(PinnedRevision, proposal.id, None))
  }

  // ----- What an edit does, told from the state it started from -----

  /** The condition an edit puts on the state it is applied to. */
  predicate Guard(state: State, edit: Edit) {
    var before := FindEntry(state, edit.kind, edit.id);
    if edit.Create? then before.None? else before.Some? && VersionMatches(edit, before.value)
  }

  function RefusalReason(state: State, edit: Edit): Reason {
    var before := FindEntry(state, edit.kind, edit.id);
    if edit.Create? then CreateExisting
    else if before.Some? then VersionDrift
    else if edit.Update? then UpdateMissing
    else DeleteMissing
  }

  /** The entry an edit leaves at its target. */
  function After(state: State, at: Text, edit: Edit): Option<Entry>
    requires Guard(state, edit)
  {
    match edit
    case Create(_, _, _, _) => Some(CreatedEntry(state.scope, at, edit))
    case Update(kind, id, _, _, _) => Some(UpdatedEntry(FindEntry(state, kind, id).value, at, edit))
    case Delete(_, _, _) => None
  }

  function Recorded(state: State, at: Text, edit: Edit): AppliedEdit
    requires Guard(state, edit)
  {
    AppliedEdit(edit, FindEntry(state, edit.kind, edit.id), After(state, at, edit))
  }

  /** How many entries of one kind the edits add, less those they remove. */
  function Growth(edits: seq<Edit>, kind: Kind): int {
    if edits == [] then 0
    else
      (if edits[0].kind != kind || edits[0].Update? then 0 else if edits[0].Create? then 1 else -1)
      + Growth(edits[1..], kind)
  }

  ghost predicate Targets(edits: seq<Edit>, kind: Kind, id: Text) {
    exists edit :: edit in edits && edit.kind == kind && edit.id == id
  }

  ghost predicate AllGuards(state: State, edits: seq<Edit>) {
    forall edit :: edit in edits ==> Guard(state, edit)
  }

  /** Every target holds what its edit leaves there. */
  ghost predicate Hits(state: State, at: Text, edits: seq<Edit>, next: State)
    requires AllGuards(state, edits)
  {
    forall edit :: edit in edits ==> FindEntry(next, edit.kind, edit.id) == After(state, at, edit)
  }

  /** Everything that is no target is as it was. */
  ghost predicate Misses(state: State, edits: seq<Edit>, next: State) {
    forall kind, id :: !Targets(edits, kind, id) ==> FindEntry(next, kind, id) == FindEntry(state, kind, id)
  }

  ghost predicate Grown(state: State, edits: seq<Edit>, next: State) {
    forall kind :: |next.entries.Of(kind)| == |state.entries.Of(kind)| + Growth(edits, kind)
  }

  /** `next` is `state` with exactly these edits made, whatever their order. */
  ghost predicate Edited(state: State, at: Text, edits: seq<Edit>, next: State)
    requires AllGuards(state, edits)
  {
    && Canonical(next)
    && next.scope == state.scope
    && next.refinements == state.refinements
    && Hits(state, at, edits, next)
    && Misses(state, edits, next)
    && Grown(state, edits, next)
  }

  lemma {:induction false} FindAppended(group: seq<Entry>, e: Entry, id: Text)
    ensures Find(group + [e], id) ==
            if Find(group, id).Some? then Find(group, id) else if e.id == id then Some(e) else None
  {
    if group == [] {
      assert group + [e] == [e];
    } else {
      assert (group + [e])[1..] == group[1..] + [e];
      FindAppended(group[1..], e, id);
    }
  }

  lemma {:induction false} WithoutEffect(group: seq<Entry>, id: Text)
    requires DistinctIds(group)
    ensures DistinctIds(Without(group, id))
    ensures forall e :: e in Without(group, id) <==> e in group && e.id != id
    ensures |Without(group, id)| == |group| - (if Find(group, id).Some? then 1 else 0)
  {
    if group != [] {
      assert forall i :: 0 <= i < |group[1..]| ==> group[1..][i] == group[i + 1];
      WithoutEffect(group[1..], id);
      assert forall e :: e in group <==> e == group[0] || e in group[1..];
    }
  }

  lemma {:induction false} ReplacedEffect(group: seq<Entry>, id: Text, after: Entry)
    requires DistinctIds(group) && after.id == id
    ensures DistinctIds(Replaced(group, id, after))
    ensures forall e :: e in Replaced(group, id, after) ==> e == after || e in group
    ensures forall other :: Find(Replaced(group, id, after), other) ==
                            if other == id && Find(group, id).Some? then Some(after) else Find(group, other)
  {
    forall other
      ensures Find(Replaced(group, id, after), other) ==
              if other == id && Find(group, id).Some? then Some(after) else Find(group, other)
    {
      FindReplaced(group, id, after, other);
    }
  }

  lemma {:induction false} FindReplaced(group: seq<Entry>, id: Text, after: Entry, other: Text)
    requires after.id == id
    ensures Find(Replaced(group, id, after), other) ==
            if other == id && Find(group, id).Some? then Some(after) else Find(group, other)
  {
    if group != [] {
      FindReplaced(group[1..], id, after, other);
    }
  }

  lemma FindWithout(group: seq<Entry>, id: Text, other: Text)
    requires DistinctIds(group)
    ensures Find(Without(group, id), other) == if other == id then None else Find(group, other)
  {
    WithoutEffect(group, id);
    FindNone(group, other);
    FindNone(Without(group, id), other);
    if other != id && Find(group, other).Some? {
      FindMember(Without(group, id), Find(group, other).value);
    }
  }

  /** Replacing one group of a canonical state by distinct entries of that kind, sorted on the way in. */
  lemma WithEntriesEffect(state: State, kind: Kind, group: seq<Entry>)
    requires Canonical(state) && DistinctIds(group) && forall e :: e in group ==> e.kind == kind
    ensures var next := WithEntries(state, kind, group);
            && Canonical(next)
            && |next.entries.Of(kind)| == |group|
            && (forall other :: other != kind ==> next.entries.Of(other) == state.entries.Of(other))
            && (forall id :: FindEntry(next, kind, id) == Find(group, id))
            && (forall other, id :: other != kind ==> FindEntry(next, other, id) == FindEntry(state, other, id))
  {
    SortCanonical(group, kind);
    forall id {
      FindSorted(group, id);
    }
  }

  lemma {:induction false} EditedOne(state: State, at: Text, edit: Edit, group: seq<Entry>)
    requires Canonical(state) && Guard(state, edit)
    requires DistinctIds(group) && forall e :: e in group ==> e.kind == edit.kind
    requires |group| == |state.entries.Of(edit.kind)| + Growth([edit], edit.kind)
    requires forall id :: Find(group, id) ==
                          if id == edit.id then After(state, at, edit) else FindEntry(state, edit.kind, id)
    ensures Edited(state, at, [edit], WithEntries(state, edit.kind, group))
  {
    var next := WithEntries(state, edit.kind, group);
    WithEntriesEffect(state, edit.kind, group);
    EditedOneHits(state, at, edit, next);
    EditedOneMisses(state, edit, next);
    EditedOneGrown(state, edit, next);
  }

  lemma EditedOneHits(state: State, at: Text, edit: Edit, next: State)
    requires Guard(state, edit) && FindEntry(next, edit.kind, edit.id) == After(state, at, edit)
    ensures AllGuards(state, [edit]) && Hits(state, at, [edit], next)
  {
  }

  lemma EditedOneMisses(state: State, edit: Edit, next: State)
    requires forall id :: id != edit.id ==> FindEntry(next, edit.kind, id) == FindEntry(state, edit.kind, id)
    requires forall kind, id :: kind != edit.kind ==> FindEntry(next, kind, id) == FindEntry(state, kind, id)
    ensures Misses(state, [edit], next)
  {
    forall kind, id | !Targets([edit], kind, id)
      ensures FindEntry(next, kind, id) == FindEntry(state, kind, id)
    {
      assert edit in [edit];
    }
  }

  lemma EditedOneGrown(state: State, edit: Edit, next: State)
    requires |next.entries.Of(edit.kind)| == |state.entries.Of(edit.kind)| + Growth([edit], edit.kind)
    requires forall kind :: kind != edit.kind ==> next.entries.Of(kind) == state.entries.Of(kind)
    ensures Grown(state, [edit], next)
  {
    assert forall kind :: kind != edit.kind ==> Growth([edit], kind) == 0;
  }

  lemma {:induction false} CreateEffect(state: State, at: Text, edit: Edit)
    requires Canonical(state) && Guard(state, edit) && edit.Create?
    ensures var after := CreatedEntry(state.scope, at, edit);
            Edited(state, at, [edit], WithEntries(state, edit.kind, state.entries.Of(edit.kind) + [after]))
  {
    var group := state.entries.Of(edit.kind);
    assert CanonicalGroup(group, edit.kind);
    CanonicalDistinct(group);
    var after := CreatedEntry(state.scope, at, edit);
    forall id {
      FindAppended(group, after, id);
    }
    FindNone(group, edit.id);
    EditedOne(state, at, edit, group + [after]);
  }

  lemma {:induction false} UpdateEffect(state: State, at: Text, edit: Edit)
    requires Canonical(state) && Guard(state, edit) && edit.Update?
    ensures var after := UpdatedEntry(FindEntry(state, edit.kind, edit.id).value, at, edit);
            Edited(state, at, [edit],
                   WithEntries(state, edit.kind, Replaced(state.entries.Of(edit.kind), edit.id, after)))
  {
    var group := state.entries.Of(edit.kind);
    assert CanonicalGroup(group, edit.kind);
    CanonicalDistinct(group);
    var after := UpdatedEntry(FindEntry(state, edit.kind, edit.id).value, at, edit);
    ReplacedEffect(group, edit.id, after);
    EditedOne(state, at, edit, Replaced(group, edit.id, after));
  }

  lemma DeleteEffect(state: State, at: Text, edit: Edit)
    requires Canonical(state) && Guard(state, edit) && edit.Delete?
    ensures Edited(state, at, [edit], WithEntries(state, edit.kind, Without(state.entries.Of(edit.kind), edit.id)))
  {
    var group := state.entries.Of(edit.kind);
    assert CanonicalGroup(group, edit.kind);
    CanonicalDistinct(group);
    WithoutEffect(group, edit.id);
    forall id {
      FindWithout(group, edit.id, id);
    }
    EditedOne(state, at, edit, Without(group, edit.id));
  }

  lemma ApplyEditEffect(state: State, proposal: Text, at: Text, edit: Edit)
    requires Canonical(state)
    ensures var r := ApplyEdit(state, proposal, at, edit);
            && (r.Ok? <==> Guard(state, edit))
            && (r.Err? ==> r.error == Rejection(RefusalReason(state, edit), proposal, Some(EditKey(edit))))
            && (r.Ok? ==> r.value.applied == [Recorded(state, at, edit)])
            && (r.Ok? ==> Edited(state, at, [edit], r.value.state))
  {
    if Guard(state, edit) {
      match edit
      case Create(_, _, _, _) => CreateEffect(state, at, edit);
      case Update(_, _, _, _, _) => UpdateEffect(state, at, edit);
      case Delete(_, _, _) => DeleteEffect(state, at, edit);
    }
  }

  /** What a sequence of edits comes to, told from the state it started from. */
  ghost predicate Decided(state: State, proposal: Text, at: Text, edits: seq<Edit>, r: Result<Outcome, Rejection>) {
    && (r.Ok? <==> AllGuards(state, edits))
    && (r.Ok? ==> Edited(state, at, edits, r.value.state) && RecordedAll(state, at, edits, r.value.applied))
    && (r.Err? ==> RefusedFirst(state, proposal, edits, r.error))
  }

  /** Edits with distinct targets read only their own target, so the starting state decides them all. */
  lemma {:induction false} ApplyEditsEffect(state: State, proposal: Text, at: Text, edits: seq<Edit>)
    requires Canonical(state) && DistinctTargets(edits)
    ensures Decided(state, proposal, at, edits, ApplyEdits(state, proposal, at, edits))
    decreases |edits|
  {
    if edits != [] {
      var head, tail := edits[0], edits[1..];
      assert edits == [head] + tail;
      ApplyEditEffect(state, proposal, at, head);
      var first := ApplyEdit(state, proposal, at, head);
      if first.Err? {
        HeadRefused(state, proposal, edits, first.error);
      } else {
        var middle := first.value.state;
        assert forall i :: 0 <= i < |tail| ==> tail[i] == edits[i + 1];
        ApplyEditsEffect(middle, proposal, at, tail);
        DecidedThen(state, proposal, at, head, tail, middle, ApplyEdits(middle, proposal, at, tail));
      }
    }
  }

  lemma HeadRefused(state: State, proposal: Text, edits: seq<Edit>, refusal: Rejection)
    requires edits != [] && !Guard(state, edits[0]) && Refuses(state, proposal, edits[0], refusal)
    ensures !AllGuards(state, edits) && RefusedFirst(state, proposal, edits, refusal)
  {
    assert FirstRefused(state, edits, 0);
  }

  lemma {:induction false} DecidedThen(state: State, proposal: Text, at: Text, head: Edit, tail: seq<Edit>, middle: State,
                    rest: Result<Outcome, Rejection>)
    requires forall edit :: edit in tail ==> !SameTarget(head, edit)
    requires Guard(state, head) && AllGuards(state, [head]) && Edited(state, at, [head], middle)
    requires Decided(middle, proposal, at, tail, rest)
    ensures Decided(state, proposal, at, [head] + tail, Prepend([Recorded(state, at, head)], rest))
  {
    EditsCarry(state, at, head, tail, middle);
    if rest.Err? {
      RefusedLater(state, proposal, head, tail, middle, rest.error);
    } else {
      EditedThen(state, at, head, tail, middle, rest.value.state);
      RecordedThen(state, at, head, tail, middle, rest.value.applied);
    }
  }

  lemma RecordedThen(state: State, at: Text, head: Edit, tail: seq<Edit>, middle: State, applied: seq<AppliedEdit>)
    requires AllGuards(state, [head] + tail) && AllGuards(middle, tail) && Guard(state, head)
    requires middle.scope == state.scope
    requires forall edit :: edit in tail ==> FindEntry(middle, edit.kind, edit.id) == FindEntry(state, edit.kind, edit.id)
    requires RecordedAll(middle, at, tail, applied)
    ensures RecordedAll(state, at, [head] + tail, [Recorded(state, at, head)] + applied)
  {
    forall i | 0 <= i < |tail|
      ensures applied[i] == Recorded(state, at, tail[i])
    {
      assert tail[i] in tail;
    }
  }

  ghost predicate RecordedAll(state: State, at: Text, edits: seq<Edit>, applied: seq<AppliedEdit>)
    requires AllGuards(state, edits)
  {
    |applied| == |edits| && forall i :: 0 <= i < |edits| ==> applied[i] == Recorded(state, at, edits[i])
  }

  /** The refusal is that of the first edit whose guard fails on `state`. */
  ghost predicate RefusedFirst(state: State, proposal: Text, edits: seq<Edit>, refusal: Rejection) {
    exists i :: FirstRefused(state, edits, i) && Refuses(state, proposal, edits[i], refusal)
  }

  /** An edit elsewhere changes nothing a later edit looks at. */
  lemma EditsCarry(state: State, at: Text, head: Edit, tail: seq<Edit>, middle: State)
    requires forall edit :: edit in tail ==> !SameTarget(head, edit)
    requires AllGuards(state, [head]) && Edited(state, at, [head], middle)
    ensures forall edit :: edit in tail ==> FindEntry(middle, edit.kind, edit.id) == FindEntry(state, edit.kind, edit.id)
    ensures forall edit :: edit in tail ==> Guard(middle, edit) == Guard(state, edit)
    ensures AllGuards(state, [head] + tail) <==> AllGuards(middle, tail)
  {
    forall edit | edit in tail
      ensures FindEntry(middle, edit.kind, edit.id) == FindEntry(state, edit.kind, edit.id)
    {
      assert !Targets([head], edit.kind, edit.id);
    }
    assert head in [head];
    assert forall edit :: edit in [head] + tail <==> edit == head || edit in tail;
  }

  ghost predicate Refuses(state: State, proposal: Text, edit: Edit, refusal: Rejection) {
    refusal == Rejection(RefusalReason(state, edit), proposal, Some(EditKey(edit)))
  }

  lemma RefusedLater(state: State, proposal: Text, head: Edit, tail: seq<Edit>, middle: State, refusal: Rejection)
    requires Guard(state, head) && RefusedFirst(middle, proposal, tail, refusal)
    requires forall edit :: edit in tail ==> FindEntry(middle, edit.kind, edit.id) == FindEntry(state, edit.kind, edit.id)
    ensures RefusedFirst(state, proposal, [head] + tail, refusal)
  {
    var i :| FirstRefused(middle, tail, i) && Refuses(middle, proposal, tail[i], refusal);
    RefusedShift(state, head, tail, middle, i);
    RefusesCarry(state, middle, proposal, tail[i], refusal);
  }

  lemma RefusesCarry(state: State, middle: State, proposal: Text, edit: Edit, refusal: Rejection)
    requires FindEntry(middle, edit.kind, edit.id) == FindEntry(state, edit.kind, edit.id)
    requires Refuses(middle, proposal, edit, refusal)
    ensures Refuses(state, proposal, edit, refusal)
  {
  }

  lemma RefusedShift(state: State, head: Edit, tail: seq<Edit>, middle: State, i: int)
    requires Guard(state, head) && FirstRefused(middle, tail, i)
    requires forall edit :: edit in tail ==> FindEntry(middle, edit.kind, edit.id) == FindEntry(state, edit.kind, edit.id)
    ensures FirstRefused(state, [head] + tail, i + 1)
    ensures tail[i] in tail && ([head] + tail)[i + 1] == tail[i]
  {
    var edits := [head] + tail;
    forall j | 0 <= j < i + 1
      ensures Guard(state, edits[j])
    {
      if j > 0 {
        assert edits[j] == tail[j - 1] && tail[j - 1] in tail;
      }
    }
  }

  ghost predicate FirstRefused(state: State, edits: seq<Edit>, i: int) {
    0 <= i < |edits| && !Guard(state, edits[i]) && forall j :: 0 <= j < i ==> Guard(state, edits[j])
  }

  lemma EditedThen(state: State, at: Text, head: Edit, tail: seq<Edit>, middle: State, next: State)
    requires forall edit :: edit in tail ==> !SameTarget(head, edit)
    requires Guard(state, head) && AllGuards(state, [head]) && AllGuards(middle, tail)
    requires Edited(state, at, [head], middle) && Edited(middle, at, tail, next)
    ensures AllGuards(state, [head] + tail) && Edited(state, at, [head] + tail, next)
  {
    var edits := [head] + tail;
    assert AllGuards(state, edits) && Hits(state, at, edits, next) by {
      HitsThen(state, at, head, tail, middle, next);
    }
    assert Misses(state, edits, next) by {
      forall kind, id | !Targets(edits, kind, id)
        ensures FindEntry(next, kind, id) == FindEntry(state, kind, id)
      {
        assert !Targets(tail, kind, id) && !Targets([head], kind, id);
      }
    }
    assert Grown(state, edits, next) by {
      GrowthConcat([head], tail);
    }
  }

  lemma {:induction false} HitsThen(state: State, at: Text, head: Edit, tail: seq<Edit>, middle: State, next: State)
    requires forall edit :: edit in tail ==> !SameTarget(head, edit)
    requires Guard(state, head) && AllGuards(state, [head]) && AllGuards(middle, tail)
    requires Edited(state, at, [head], middle) && Edited(middle, at, tail, next)
    ensures AllGuards(state, [head] + tail) && Hits(state, at, [head] + tail, next)
  {
    EditsCarry(state, at, head, tail, middle);
    forall edit | edit in [head] + tail
      ensures FindEntry(next, edit.kind, edit.id) == After(state, at, edit)
    {
      if edit in tail {
        assert FindEntry(next, edit.kind, edit.id) == After(middle, at, edit);
      } else {
        assert head in [head] && !Targets(tail, head.kind, head.id);
      }
    }
  }

  lemma GrowthConcat(a: seq<Edit>, b: seq<Edit>)
    ensures forall kind :: Growth(a + b, kind) == Growth(a, kind) + Growth(b, kind)
  {
    forall kind {
      GrowthConcatOf(a, b, kind);
    }
  }

  lemma {:induction false} GrowthConcatOf(a: seq<Edit>, b: seq<Edit>, kind: Kind)
    ensures Growth(a + b, kind) == Growth(a, kind) + Growth(b, kind)
  {
    if a == [] {
      assert a + b == b;
    } else {
      assert (a + b)[1..] == a[1..] + b;
      GrowthConcatOf(a[1..], b, kind);
    }
  }
}
