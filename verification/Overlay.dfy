/** Overlaying one scope's state on another's, and pinning a state as a content-addressed snapshot. */
module Overlay {
  import opened Wrappers
  import opened Texts
  import opened Sequences
  import opened StableSort
  import opened GuidanceEntry
  import opened GuidanceState
  import opened Refinement
  import opened Rollback

  predicate EventLeq(a: Event, b: Event) {
    || Before(a.at, b.at)
    || (a.at == b.at && Before(a.scope, b.scope))
    || (a.at == b.at && a.scope == b.scope && NotAfter(a.proposal, b.proposal))
  }

  /** The entries whose id the inner group does not hold. */
  function Survivors(outer: seq<Entry>, inner: seq<Entry>): seq<Entry> {
    if outer == [] then []
    else (if Find(inner, outer[0].id).None? then [outer[0]] else []) + Survivors(outer[1..], inner)
  }

  /** One kind of the merge: outer entries the inner state does not hold, then the inner entries. */
  function Stacked(outer: seq<Entry>, inner: seq<Entry>): seq<Entry> {
    Survivors(outer, inner) + inner
  }

  /** The entries a merge collects kind by kind. */
  function Collected(outer: Groups, inner: Groups, kinds: seq<Kind>): seq<Entry> {
    if kinds == [] then []
    else
      var own := kinds[|kinds| - 1];
      Collected(outer, inner, kinds[..|kinds| - 1]) + Stacked(outer.Of(own), inner.Of(own))
  }

  /** What `merge` returns, as a function of its arguments. */
  function Merged(outer: State, inner: State): State {
    Made(inner.scope, Collected(outer.entries, inner.entries, KINDS),
         Sort(outer.refinements + inner.refinements, EventLeq))
  }

  method Merge(outer: State, inner: State) returns (merged: State)
    ensures merged == Merged(outer, inner)
  {
    var entries := CollectKinds(outer.entries, inner.entries, KINDS);
    merged := Make(inner.scope, entries, Sort(outer.refinements + inner.refinements, EventLeq));
  }

  method CollectKinds(outer: Groups, inner: Groups, kinds: seq<Kind>) returns (entries: seq<Entry>)
    ensures entries == Collected(outer, inner, kinds)
  {
    entries := [];
    for n := 0 to |kinds|
      invariant entries == Collected(outer, inner, kinds[..n])
    {
      assert kinds[..n + 1][..n] == kinds[..n];
      entries := PushKind(entries, outer.Of(kinds[n]), inner.Of(kinds[n]));
    }
    assert kinds[..|kinds|] == kinds;
  }

  method PushKind(start: seq<Entry>, outer: seq<Entry>, inner: seq<Entry>) returns (entries: seq<Entry>)
    ensures entries == start + Stacked(outer, inner)
  {
    entries := start;
    var overridden := set entry | entry in inner :: entry.id;
    for i := 0 to |outer|
      invariant entries == start + Survivors(outer[..i], inner)
    {
      SurvivorsConcat(outer[..i], [outer[i]], inner);
      assert outer[..i + 1] == outer[..i] + [outer[i]];
      FindNone(inner, outer[i].id);
      if outer[i].id !in overridden {
        entries := entries + [outer[i]];
      }
    }
    assert outer[..|outer|] == outer;
    for i := 0 to |inner|
      invariant entries == start + Survivors(outer, inner) + inner[..i]
    {
      entries := entries + [inner[i]];
    }
  }

  lemma {:induction false} SurvivorsConcat(a: seq<Entry>, b: seq<Entry>, inner: seq<Entry>)
    ensures Survivors(a + b, inner) == Survivors(a, inner) + Survivors(b, inner)
  {
    if a == [] {
      assert a + b == b;
    } else {
      assert (a + b)[1..] == a[1..] + b;
      SurvivorsConcat(a[1..], b, inner);
    }
  }

  lemma {:induction false} SurvivorsMembers(outer: seq<Entry>, inner: seq<Entry>)
    requires DistinctIds(outer)
    ensures DistinctIds(Survivors(outer, inner))
    ensures forall e :: e in Survivors(outer, inner) <==> e in outer && Find(inner, e.id).None?
  {
    if outer != [] {
      assert forall i :: 0 <= i < |outer[1..]| ==> outer[1..][i] == outer[i + 1];
      SurvivorsMembers(outer[1..], inner);
      assert forall e :: e in outer <==> e == outer[0] || e in outer[1..];
    }
  }

  lemma StackedEffect(outer: seq<Entry>, inner: seq<Entry>, kind: Kind)
    requires CanonicalGroup(outer, kind) && CanonicalGroup(inner, kind)
    ensures var stacked := Stacked(outer, inner);
            && DistinctIds(stacked)
            && (forall e :: e in stacked ==> e.kind == kind)
            && (forall id :: Find(stacked, id) == if Find(inner, id).Some? then Find(inner, id) else Find(outer, id))
  {
    var stacked := Stacked(outer, inner);
    CanonicalDistinct(outer);
    CanonicalDistinct(inner);
    SurvivorsMembers(outer, inner);
    assert DistinctIds(stacked) by {
      forall i, j | 0 <= i < j < |stacked|
        ensures stacked[i].id != stacked[j].id
      {
        if i < |Survivors(outer, inner)| <= j {
          assert stacked[i] in Survivors(outer, inner) && stacked[j] in inner;
          FindNone(inner, stacked[i].id);
        }
      }
    }
    forall id
      ensures Find(stacked, id) == if Find(inner, id).Some? then Find(inner, id) else Find(outer, id)
    {
      FindNone(stacked, id);
      FindNone(outer, id);
      if Find(inner, id).Some? {
        FindMember(stacked, Find(inner, id).value);
      } else if Find(outer, id).Some? {
        FindMember(stacked, Find(outer, id).value);
      } else {
        FindNone(inner, id);
      }
    }
  }

  lemma {:induction false} OfKindPure(group: seq<Entry>, own: Kind, kind: Kind)
    requires forall e :: e in group ==> e.kind == own
    ensures OfKind(group, kind) == if own == kind then group else []
  {
    if group != [] {
      OfKindPure(group[1..], own, kind);
    }
  }

  lemma OfKindAppended(earlier: seq<Entry>, group: seq<Entry>, own: Kind, kind: Kind)
    requires forall e :: e in group ==> e.kind == own
    ensures OfKind(earlier + group, kind) == if own == kind then OfKind(earlier, kind) + group else OfKind(earlier, kind)
  {
    OfKindPure(group, own, kind);
    OfKindConcat(earlier, group, kind);
  }

  lemma StackedPure(outer: State, inner: State, kind: Kind)
    requires Canonical(outer) && Canonical(inner)
    ensures forall e :: e in Stacked(outer.entries.Of(kind), inner.entries.Of(kind)) ==> e.kind == kind
  {
    assert CanonicalGroup(outer.entries.Of(kind), kind) && CanonicalGroup(inner.entries.Of(kind), kind);
    StackedEffect(outer.entries.Of(kind), inner.entries.Of(kind), kind);
  }

  lemma CollectedMore(outer: State, inner: State, kinds: seq<Kind>, own: Kind, kind: Kind)
    requires Canonical(outer) && Canonical(inner)
    ensures var earlier := OfKind(Collected(outer.entries, inner.entries, kinds), kind);
            OfKind(Collected(outer.entries, inner.entries, kinds + [own]), kind) ==
            if own == kind then earlier + Stacked(outer.entries.Of(kind), inner.entries.Of(kind)) else earlier
  {
    assert (kinds + [own])[..|kinds|] == kinds;
    StackedPure(outer, inner, own);
    OfKindAppended(Collected(outer.entries, inner.entries, kinds),
                   Stacked(outer.entries.Of(own), inner.entries.Of(own)), own, kind);
  }

  ghost predicate DistinctKinds(kinds: seq<Kind>) {
    forall i, j :: 0 <= i < j < |kinds| ==> kinds[i] != kinds[j]
  }

  lemma LastKind(init: seq<Kind>, own: Kind, kind: Kind)
    requires DistinctKinds(init + [own])
    ensures DistinctKinds(init) && own !in init
    ensures kind in init + [own] <==> kind in init || kind == own
  {
    var kinds := init + [own];
    assert forall i :: 0 <= i < |init| ==> kinds[i] == init[i] && kinds[i] != kinds[|init|];
  }

  /** Of one kind, what is collected is that kind's part of the merge. */
  lemma {:induction false} CollectedOfKind(outer: State, inner: State, kinds: seq<Kind>, kind: Kind)
    requires Canonical(outer) && Canonical(inner) && DistinctKinds(kinds)
    ensures OfKind(Collected(outer.entries, inner.entries, kinds), kind) ==
            if kind in kinds then Stacked(outer.entries.Of(kind), inner.entries.Of(kind)) else []
  {
    if kinds == [] {
      assert Collected(outer.entries, inner.entries, kinds) == [];
    } else {
      var init, own := kinds[..|kinds| - 1], kinds[|kinds| - 1];
      assert kinds == init + [own];
      LastKind(init, own, kind);
      CollectedOfKind(outer, inner, init, kind);
      CollectedMore(outer, inner, init, own, kind);
    }
  }

  lemma AllKinds(kind: Kind)
    ensures DistinctKinds(KINDS) && kind in KINDS
  {
    assert KINDS[0] == Prompt && KINDS[1] == Memory && KINDS[2] == Skill && KINDS[3] == Subagent;
  }

  lemma MadeOf(scope: Text, entries: seq<Entry>, refinements: seq<Event>, kind: Kind)
    ensures Made(scope, entries, refinements).entries.Of(kind) == SortEntries(OfKind(entries, kind))
  {
  }

  /** `merged` looks up as the inner entry where there is one, else the outer entry. */
  ghost predicate Overlays(outer: State, inner: State, merged: State) {
    && Canonical(merged)
    && forall kind, id :: FindEntry(merged, kind, id) ==
                          if FindEntry(inner, kind, id).Some? then FindEntry(inner, kind, id)
                          else FindEntry(outer, kind, id)
  }

  lemma MergedGroup(outer: State, inner: State, kind: Kind)
    requires Canonical(outer) && Canonical(inner)
    ensures var group := Merged(outer, inner).entries.Of(kind);
            && CanonicalGroup(group, kind)
            && forall id :: Find(group, id) ==
                            if FindEntry(inner, kind, id).Some? then FindEntry(inner, kind, id)
                            else FindEntry(outer, kind, id)
  {
    var stacked := Stacked(outer.entries.Of(kind), inner.entries.Of(kind));
    AllKinds(kind);
    CollectedOfKind(outer, inner, KINDS, kind);
    MadeOf(inner.scope, Collected(outer.entries, inner.entries, KINDS), Merged(outer, inner).refinements, kind);
    assert CanonicalGroup(outer.entries.Of(kind), kind) && CanonicalGroup(inner.entries.Of(kind), kind);
    StackedEffect(outer.entries.Of(kind), inner.entries.Of(kind), kind);
    SortCanonical(stacked, kind);
    forall id {
      FindSorted(stacked, id);
    }
  }

  /** A merge of canonical states is canonical and looks up inner-else-outer for every kind and id. */
  lemma MergedLookup(outer: State, inner: State)
    requires Canonical(outer) && Canonical(inner)
    ensures Overlays(outer, inner, Merged(outer, inner))
  {
    forall kind {
      MergedGroup(outer, inner, kind);
    }
  }

  lemma EventOrder()
    ensures TotalPreorder(EventLeq)
  {
    forall a: Event, b: Event
      ensures EventLeq(a, b) || EventLeq(b, a)
    {
      BeforeTotal(a.at, b.at);
      BeforeTotal(a.scope, b.scope);
      NotAfterTotal(a.proposal, b.proposal);
    }
    forall a: Event, b: Event, c: Event | EventLeq(a, b) && EventLeq(b, c)
      ensures EventLeq(a, c)
    {
      if Before(a.at, b.at) && Before(b.at, c.at) {
        BeforeTransitive(a.at, b.at, c.at);
      } else if a.at == b.at && b.at == c.at {
        if Before(a.scope, b.scope) && Before(b.scope, c.scope) {
          BeforeTransitive(a.scope, b.scope, c.scope);
        } else if a.scope == b.scope && b.scope == c.scope {
          NotAfterTransitive(a.proposal, b.proposal, c.proposal);
        }
      }
    }
  }

  lemma OverlaysAssociative(a: State, b: State, c: State, ab: State, bc: State, left: State, right: State)
    requires Overlays(a, b, ab) && Overlays(b, c, bc) && Overlays(ab, c, left) && Overlays(a, bc, right)
    ensures left.entries == right.entries
  {
    forall kind, id
      ensures FindEntry(left, kind, id) == FindEntry(right, kind, id)
    {
      assert FindEntry(ab, kind, id) ==
             if FindEntry(b, kind, id).Some? then FindEntry(b, kind, id) else FindEntry(a, kind, id);
    }
    StateExtensional(left, right);
  }

  lemma {:induction false} EntriesAssociative(a: State, b: State, c: State)
    requires Canonical(a) && Canonical(b) && Canonical(c)
    ensures Merged(Merged(a, b), c).entries == Merged(a, Merged(b, c)).entries
  {
    var ab, bc := Merged(a, b), Merged(b, c);
    MergedLookup(a, b);
    MergedLookup(b, c);
    OverlaysCanonical(a, b, ab);
    OverlaysCanonical(b, c, bc);
    MergedLookup(ab, c);
    MergedLookup(a, bc);
    OverlaysAssociative(a, b, c, ab, bc, Merged(ab, c), Merged(a, bc));
  }

  lemma OverlaysCanonical(outer: State, inner: State, merged: State)
    requires Overlays(outer, inner, merged)
    ensures Canonical(merged)
  {
  }

  lemma {:induction false} HistoryAssociative(a: seq<Event>, b: seq<Event>, c: seq<Event>)
    ensures Sort(Sort(a + b, EventLeq) + c, EventLeq) == Sort(a + Sort(b + c, EventLeq), EventLeq)
  {
    EventOrder();
    SortAssociative(a, b, c, EventLeq);
  }

  /** Overlaying is associative, in every group and in the order of the merged history. */
  lemma {:induction false} MergeAssociative(a: State, b: State, c: State)
    requires Canonical(a) && Canonical(b) && Canonical(c)
    ensures Merged(Merged(a, b), c) == Merged(a, Merged(b, c))
  {
    EntriesAssociative(a, b, c);
    HistoryAssociative(a.refinements, b.refinements, c.refinements);
  }

  /** The events of one instant, scope and proposal, in their order. */
  ghost function Alike(history: seq<Event>, event: Event): seq<Event> {
    if history == [] then []
    else
      (if history[0].at == event.at && history[0].scope == event.scope && history[0].proposal == event.proposal then [history[0]]
       else [])
      + Alike(history[1..], event)
  }

  lemma {:induction false} AlikeTies(history: seq<Event>, event: Event)
    ensures Alike(history, event) == Ties(history, event, EventLeq)
  {
    if history != [] {
      AlikeTies(history[1..], event);
      EventTie(history[0], event);
    }
  }

  lemma EventTie(a: Event, b: Event)
    ensures EventLeq(a, b) && EventLeq(b, a) <==> a.at == b.at && a.scope == b.scope && a.proposal == b.proposal
  {
    NotAfterTotal(a.at, b.at);
    NotAfterTotal(a.scope, b.scope);
    NotAfterTotal(a.proposal, b.proposal);
  }

  /** Neither event comes after the other in time or, at one instant, in scope or, in one scope, in name. */
  ghost predicate InOrder(a: Event, b: Event) {
    && !Before(b.at, a.at)
    && (a.at == b.at ==> !Before(b.scope, a.scope))
    && (a.at == b.at && a.scope == b.scope ==> !Before(b.proposal, a.proposal))
  }

  lemma LeqInOrder(a: Event, b: Event)
    requires EventLeq(a, b)
    ensures InOrder(a, b)
  {
    if Before(a.at, b.at) {
      BeforeNotAfter(a.at, b.at);
      BeforeIrreflexive(a.at);
    } else if Before(a.scope, b.scope) {
      BeforeIrreflexive(a.at);
      BeforeNotAfter(a.scope, b.scope);
      BeforeIrreflexive(a.scope);
    } else {
      BeforeIrreflexive(a.at);
      BeforeIrreflexive(a.scope);
    }
  }

  /**
   * A merge takes the inner scope, and its history is both histories in order of instant, scope and proposal, where
   * of events alike in all three the outer ones come first, each side's in their own order.
   */
  lemma {:induction false} MergedHistory(outer: State, inner: State)
    ensures var merged := Merged(outer, inner);
            && merged.scope == inner.scope
            && (forall i, j :: 0 <= i < j < |merged.refinements| ==> InOrder(merged.refinements[i], merged.refinements[j]))
            && (forall event ::
                  Alike(merged.refinements, event) == Alike(outer.refinements, event) + Alike(inner.refinements, event))
  {
    var both, history := outer.refinements + inner.refinements, Merged(outer, inner).refinements;
    EventOrder();
    SortSorted(both, EventLeq);
    forall i, j | 0 <= i < j < |history|
      ensures InOrder(history[i], history[j])
    {
      LeqInOrder(history[i], history[j]);
    }
    forall event
      ensures Alike(history, event) == Alike(outer.refinements, event) + Alike(inner.refinements, event)
    {
      SortTies(both, event, EventLeq);
      TiesConcat(outer.refinements, inner.refinements, event, EventLeq);
      AlikeTies(history, event);
      AlikeTies(outer.refinements, event);
      AlikeTies(inner.refinements, event);
    }
  }

  /** The edits delete this entry, which carries another scope than the state's. */
  ghost predicate DeletesForeign(state: State, edits: seq<Edit>, kind: Kind, id: Text) {
    && FindEntry(state, kind, id).Some? && FindEntry(state, kind, id).value.scope != state.scope
    && exists edit :: edit in edits && edit.Delete? && edit.kind == kind && edit.id == id
  }

  /**
   * Any accepted proposal that deletes an entry of another scope comes back altered: its rollback, however it is
   * asked for, is either refused or restores a state that differs, under another snapshot id.
   */
  lemma ForeignDeleteDrifts(state: State, proposal: Proposal, options: Options, how: RollbackOptions, later: Options,
                            kind: Kind, id: Text)
    requires Canonical(state) && Trusted(state, proposal, options).Ok? && DeletesForeign(state, proposal.edits, kind, id)
    ensures var result := Trusted(state, proposal, options).value;
            var back := Trusted(result.state, MakeRollback(result, how), later);
            && (back.Ok? <==> KeepsNewest(options) && Fits(state, [], later.maxEntriesPerKind))
            && (back.Ok? ==> && back.value.state.entries != state.entries
                             && SnapshotOf(back.value.state) != RollbackTarget(result))
  {
    RollbackExact(state, proposal, options, how, later);
    var edit :| edit in proposal.edits && edit.Delete? && edit.kind == kind && edit.id == id;
    assert !DeletesInScope(state, proposal.edits);
  }

  /**
   * A merge keeps each entry's own scope, so an entry that only the outer state holds, under another scope than the
   * inner one, is foreign to the merge: no accepted proposal that deletes it can be undone exactly.
   */
  lemma MergedDeleteDrifts(outer: State, inner: State, kind: Kind, id: Text, proposal: Proposal, options: Options,
                           how: RollbackOptions, later: Options)
    requires Canonical(outer) && Canonical(inner)
    requires FindEntry(inner, kind, id).None? && FindEntry(outer, kind, id).Some?
    requires FindEntry(outer, kind, id).value.scope != inner.scope
    requires Trusted(Merged(outer, inner), proposal, options).Ok?
    requires exists edit :: edit in proposal.edits && edit.Delete? && edit.kind == kind && edit.id == id
    ensures var result := Trusted(Merged(outer, inner), proposal, options).value;
            var back := Trusted(result.state, MakeRollback(result, how), later);
            back.Ok? ==> && back.value.state.entries != Merged(outer, inner).entries
                         && SnapshotOf(back.value.state) != RollbackTarget(result)
  {
    MergedLookup(outer, inner);
    OverlaysCanonical(outer, inner, Merged(outer, inner));
    assert FindEntry(Merged(outer, inner), kind, id) == FindEntry(outer, kind, id);
    ForeignDeleteDrifts(Merged(outer, inner), proposal, options, how, later, kind, id);
  }

  function Deletion(proposal: Text, at: Text, kind: Kind, id: Text): Proposal {
    Proposal(proposal, at, None, None, None, None, [Delete(kind, id, None)])
  }

  lemma DeletionAccepted(state: State, kind: Kind, id: Text, proposal: Text, at: Text)
    requires Canonical(state) && FindEntry(state, kind, id).Some?
    ensures Trusted(state, Deletion(proposal, at, kind, id), Options(None, None)).Ok?
  {
    AcceptedExactly(state, Deletion(proposal, at, kind, id), Options(None, None));
  }

  /** Deleting such an entry is accepted, so merged states that cannot be undone exactly are really reached. */
  lemma MergedDeleteAccepted(outer: State, inner: State, kind: Kind, id: Text, proposal: Text, at: Text)
    requires Canonical(outer) && Canonical(inner)
    requires FindEntry(inner, kind, id).None? && FindEntry(outer, kind, id).Some?
    ensures Trusted(Merged(outer, inner), Deletion(proposal, at, kind, id), Options(None, None)).Ok?
  {
    MergedLookup(outer, inner);
    OverlaysCanonical(outer, inner, Merged(outer, inner));
    DeletionAccepted(Merged(outer, inner), kind, id, proposal, at);
  }

  // ----- Snapshots -----

  datatype Payload = Payload(scope: Text, entries: seq<Entry>)

  datatype SnapshotMismatch = SnapshotMismatch(expected: SnapshotId, actual: SnapshotId)

  function Encode(state: State): Payload {
    Payload(state.scope, AllEntries(state))
  }

  function Decode(id: SnapshotId, payload: Payload): Result<State, SnapshotMismatch> {
    var state := Made(payload.scope, payload.entries, []);
    if SnapshotOf(state) == id then Ok(state) else Err(SnapshotMismatch(id, SnapshotOf(state)))
  }

  predicate SameIdentity(a: Entry, b: Entry) {
    a.kind == b.kind && a.id == b.id
  }

  lemma {:induction false} OfKindMembers(entries: seq<Entry>, kind: Kind)
    ensures forall e :: e in OfKind(entries, kind) <==> e in entries && e.kind == kind
    ensures Apart(entries, SameIdentity) ==> DistinctIds(OfKind(entries, kind))
  {
    if entries != [] {
      assert forall i :: 0 <= i < |entries[1..]| ==> entries[1..][i] == entries[i + 1];
      OfKindMembers(entries[1..], kind);
      assert forall e :: e in entries <==> e == entries[0] || e in entries[1..];
    }
  }

  /** A state built from entries of distinct identity is canonical and holds exactly them, whatever their order. */
  lemma MadeCanonical(scope: Text, entries: seq<Entry>)
    requires Apart(entries, SameIdentity)
    ensures var made := Made(scope, entries, []);
            Canonical(made) && forall kind, e :: e in made.entries.Of(kind) <==> e in entries && e.kind == kind
  {
    forall kind
      ensures var group := Made(scope, entries, []).entries.Of(kind);
              CanonicalGroup(group, kind) && forall e :: e in group <==> e in entries && e.kind == kind
    {
      OfKindMembers(entries, kind);
      SortCanonical(OfKind(entries, kind), kind);
      MadeOf(scope, entries, [], kind);
    }
  }

  lemma SameGroup(a: seq<Entry>, b: seq<Entry>)
    requires StrictlySorted(a) && StrictlySorted(b) && forall e :: e in a <==> e in b
    ensures a == b
  {
    CanonicalDistinct(a);
    CanonicalDistinct(b);
    forall id
      ensures Find(a, id) == Find(b, id)
    {
      FindNone(a, id);
      FindNone(b, id);
      if Find(a, id).Some? {
        FindMember(b, Find(a, id).value);
      }
    }
    GroupExtensional(a, b);
  }

  lemma AllEntriesApart(state: State)
    requires Canonical(state)
    ensures Apart(AllEntries(state), SameIdentity)
    ensures forall kind, e :: e in state.entries.Of(kind) <==> e in AllEntries(state) && e.kind == kind
  {
    var g := state.entries;
    assert g.Of(Prompt) == g.prompt && g.Of(Memory) == g.memory && g.Of(Skill) == g.skill && g.Of(Subagent) == g.subagent;
    assert CanonicalGroup(g.prompt, Prompt) && CanonicalGroup(g.memory, Memory);
    assert CanonicalGroup(g.skill, Skill) && CanonicalGroup(g.subagent, Subagent);
    ApartConcat(g.prompt, g.memory);
    ApartConcat(g.prompt + g.memory, g.skill);
    ApartConcat(g.prompt + g.memory + g.skill, g.subagent);
  }

  lemma ApartConcat(a: seq<Entry>, b: seq<Entry>)
    requires Apart(a, SameIdentity) || StrictlySorted(a)
    requires StrictlySorted(b) && forall e, f :: e in a && f in b ==> e.kind != f.kind
    ensures Apart(a + b, SameIdentity)
  {
    if StrictlySorted(a) {
      CanonicalDistinct(a);
    }
    CanonicalDistinct(b);
    forall i, j | 0 <= i < j < |a + b|
      ensures !SameIdentity((a + b)[i], (a + b)[j])
    {
      if i < |a| <= j {
        assert (a + b)[i] in a && (a + b)[j] in b;
      }
    }
  }

  /**
   * A canonical state's payload, in any order of its entries, decodes under the state's own id to exactly
   * its entries, and under no other id.
   */
  lemma {:induction false} SnapshotRoundTrip(state: State, entries: seq<Entry>, id: SnapshotId)
    requires Canonical(state) && multiset(entries) == multiset(AllEntries(state))
    ensures Decode(id, Payload(state.scope, entries)) ==
            if id == SnapshotOf(state) then Ok(state.(refinements := []))
            else Err(SnapshotMismatch(id, SnapshotOf(state)))
  {
    AllEntriesApart(state);
    SameMembers(AllEntries(state), entries);
    PermutedApart(AllEntries(state), entries, SameIdentity);
    MadeCanonical(state.scope, entries);
    var made := Made(state.scope, entries, []);
    forall kind
      ensures made.entries.Of(kind) == state.entries.Of(kind)
    {
      assert CanonicalGroup(made.entries.Of(kind), kind) && CanonicalGroup(state.entries.Of(kind), kind);
      SameGroup(made.entries.Of(kind), state.entries.Of(kind));
    }
    GroupsEqual(made.entries, state.entries);
  }

  /** What is encoded decodes, under the id taken of it, to the same scope and groups. */
  lemma {:induction false} EncodedDecodes(state: State)
    requires Canonical(state)
    ensures Decode(SnapshotId(state.scope, state.entries), Encode(state)) == Ok(State(state.scope, state.entries, []))
  {
    SnapshotRoundTrip(state, AllEntries(state), SnapshotOf(state));
  }
}
