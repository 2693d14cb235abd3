/** One versioned instruction state: grouped entries in canonical order plus its refinement history. */
module GuidanceState {
  import opened Wrappers
  import opened Texts
  import opened Sequences
  import opened StableSort
  import opened GuidanceEntry

  datatype State = State(scope: Text, entries: Groups, refinements: seq<Event>)

  predicate EntryLeq(a: Entry, b: Entry) {
    NotAfter(a.id, b.id)
  }

  function SortEntries(entries: seq<Entry>): seq<Entry> {
    Sort(entries, EntryLeq)
  }

  const NOTHING := Groups([], [], [], [])

  function Empty(scope: Text): State {
    State(scope, NOTHING, [])
  }

  /** The first entry with this id. */
  function Find(group: seq<Entry>, id: Text): (found: Option<Entry>)
    ensures found.Some? ==> found.value in group && found.value.id == id
  {
    if group == [] then None
    else if group[0].id == id then Some(group[0])
    else Find(group[1..], id)
  }

  lemma {:induction false} FindNone(group: seq<Entry>, id: Text)
    ensures Find(group, id).None? <==> forall e :: e in group ==> e.id != id
  {
    if group != [] {
      FindNone(group[1..], id);
      assert forall e :: e in group <==> e == group[0] || e in group[1..];
    }
  }

  function FindEntry(state: State, kind: Kind, id: Text): Option<Entry> {
    Find(state.entries.Of(kind), id)
  }

  /** Replace the entries of one kind, keeping canonical order. */
  function WithEntries(state: State, kind: Kind, entries: seq<Entry>): State {
    state.(entries := state.entries.With(kind, SortEntries(entries)))
  }

  function AllEntries(state: State): seq<Entry> {
    state.entries.prompt + state.entries.memory + state.entries.skill + state.entries.subagent
  }

  function SnapshotOf(state: State): SnapshotId {
    SnapshotId(state.scope, state.entries)
  }

  function OfKind(entries: seq<Entry>, kind: Kind): seq<Entry> {
    if entries == [] then []
    else (if entries[0].kind == kind then [entries[0]] else []) + OfKind(entries[1..], kind)
  }

  /** The state `make` builds from unordered entries. */
  function Made(scope: Text, entries: seq<Entry>, refinements: seq<Event>): State {
    State(scope,
          Groups(SortEntries(OfKind(entries, Prompt)), SortEntries(OfKind(entries, Memory)),
                 SortEntries(OfKind(entries, Skill)), SortEntries(OfKind(entries, Subagent))),
          refinements)
  }

  method Make(scope: Text, entries: seq<Entry>, refinements: seq<Event>) returns (state: State)
    ensures state == Made(scope, entries, refinements)
  {
    var grouped := NOTHING;
    for i := 0 to |entries|
      invariant Grouped(grouped, entries[..i])
    {
      GroupedStep(grouped, entries, i);
      grouped := grouped.With(entries[i].kind, grouped.Of(entries[i].kind) + [entries[i]]);
    }
    assert entries[..|entries|] == entries;
    assert grouped.prompt == grouped.Of(Prompt) && grouped.memory == grouped.Of(Memory);
    assert grouped.skill == grouped.Of(Skill) && grouped.subagent == grouped.Of(Subagent);
    state := State(scope,
                   Groups(SortEntries(grouped.prompt), SortEntries(grouped.memory),
                          SortEntries(grouped.skill), SortEntries(grouped.subagent)),
                   refinements);
  }

  /** Each group holds the entries of its kind, in order. */
  ghost predicate Grouped(groups: Groups, entries: seq<Entry>) {
    forall kind :: groups.Of(kind) == OfKind(entries, kind)
  }

  lemma GroupedStep(groups: Groups, entries: seq<Entry>, i: nat)
    requires i < |entries| && Grouped(groups, entries[..i])
    ensures Grouped(groups.With(entries[i].kind, groups.Of(entries[i].kind) + [entries[i]]), entries[..i + 1])
  {
    assert entries[..i + 1] == entries[..i] + [entries[i]];
    forall kind
      ensures OfKind(entries[..i + 1], kind) == groups.Of(kind) + if entries[i].kind == kind then [entries[i]] else []
    {
      OfKindConcat(entries[..i], [entries[i]], kind);
      assert groups.Of(kind) == OfKind(entries[..i], kind);
    }
  }

  lemma {:induction false} OfKindConcat(a: seq<Entry>, b: seq<Entry>, kind: Kind)
    ensures OfKind(a + b, kind) == OfKind(a, kind) + OfKind(b, kind)
  {
    if a == [] {
      assert a + b == b;
    } else {
      var head := if a[0].kind == kind then [a[0]] else [];
      OfKindConcat(a[1..], b, kind);
      assert a == [a[0]] + a[1..] && a + b == [a[0]] + (a[1..] + b);
      OfKindCons(a[0], a[1..], kind);
      OfKindCons(a[0], a[1..] + b, kind);
      ConcatAssociates(head, OfKind(a[1..], kind), OfKind(b, kind));
    }
  }

  lemma OfKindCons(first: Entry, rest: seq<Entry>, kind: Kind)
    ensures OfKind([first] + rest, kind) == (if first.kind == kind then [first] else []) + OfKind(rest, kind)
  {
    assert ([first] + rest)[1..] == rest;
  }

  // ----- Canonical order -----

  ghost predicate StrictlySorted(group: seq<Entry>) {
    forall i, j :: 0 <= i < j < |group| ==> Before(group[i].id, group[j].id)
  }

  ghost predicate DistinctIds(group: seq<Entry>) {
    forall i, j :: 0 <= i < j < |group| ==> group[i].id != group[j].id
  }

  ghost predicate CanonicalGroup(group: seq<Entry>, kind: Kind) {
    StrictlySorted(group) && forall e :: e in group ==> e.kind == kind
  }

  /** Groups strictly sorted by id, entries filed under their own kind. */
  ghost predicate Canonical(state: State) {
    forall kind :: CanonicalGroup(state.entries.Of(kind), kind)
  }

  /** Every entry carries the state's own scope. */
  ghost predicate Scoped(state: State) {
    forall kind, e :: e in state.entries.Of(kind) ==> e.scope == state.scope
  }

  lemma EntryOrder()
    ensures TotalPreorder(EntryLeq)
  {
    forall a: Entry, b: Entry
      ensures EntryLeq(a, b) || EntryLeq(b, a)
    {
      NotAfterTotal(a.id, b.id);
    }
    forall a: Entry, b: Entry, c: Entry | EntryLeq(a, b) && EntryLeq(b, c)
      ensures EntryLeq(a, c)
    {
      NotAfterTransitive(a.id, b.id, c.id);
    }
  }

  lemma EntryTie(a: Entry, b: Entry)
    ensures EntryLeq(a, b) && EntryLeq(b, a) <==> a.id == b.id
  {
    NotAfterTotal(a.id, b.id);
  }

  /** A lookup sees the first entry of the id's ties, and sorting keeps ties in order. */
  lemma {:induction false} FindIsFirstTie(group: seq<Entry>, probe: Entry)
    ensures var ties := Ties(group, probe, EntryLeq);
            Find(group, probe.id) == if ties == [] then None else Some(ties[0])
  {
    if group != [] {
      EntryTie(group[0], probe);
      FindIsFirstTie(group[1..], probe);
    }
  }

  lemma FindSorted(group: seq<Entry>, id: Text)
    ensures Find(SortEntries(group), id) == Find(group, id)
  {
    EntryOrder();
    var blank := Entry(id, Prompt, [], [], [], None, None, None, None, None, [], [], 0);
    FindIsFirstTie(group, blank);
    FindIsFirstTie(SortEntries(group), blank);
    SortTies(group, blank, EntryLeq);
  }

  lemma {:induction false} FewTies(group: seq<Entry>, probe: Entry)
    requires DistinctIds(group)
    ensures |Ties(group, probe, EntryLeq)| <= 1
  {
    if group != [] {
      assert forall i :: 0 <= i < |group[1..]| ==> group[1..][i] == group[i + 1];
      FewTies(group[1..], probe);
      if Ties(group[1..], probe, EntryLeq) != [] {
        TiesNonempty(group[1..], probe, EntryLeq);
        var i :| 0 <= i < |group[1..]| && EntryLeq(group[1..][i], probe) && EntryLeq(probe, group[1..][i]);
        EntryTie(group[i + 1], probe);
        EntryTie(group[0], probe);
      }
    }
  }

  lemma {:induction false} ManyTies(group: seq<Entry>, i: nat, j: nat)
    requires i < j < |group| && group[i].id == group[j].id
    ensures |Ties(group, group[i], EntryLeq)| >= 2
  {
    var probe := group[i];
    EntryTie(group[i], probe);
    EntryTie(group[j], probe);
    assert group == group[..i] + [group[i]] + group[i + 1..j] + [group[j]] + group[j + 1..];
    TiesConcat(group[..i] + [group[i]] + group[i + 1..j] + [group[j]], group[j + 1..], probe, EntryLeq);
    TiesConcat(group[..i] + [group[i]] + group[i + 1..j], [group[j]], probe, EntryLeq);
    TiesConcat(group[..i] + [group[i]], group[i + 1..j], probe, EntryLeq);
    TiesConcat(group[..i], [group[i]], probe, EntryLeq);
  }

  lemma SortedDistinct(group: seq<Entry>)
    requires DistinctIds(group)
    ensures StrictlySorted(SortEntries(group))
  {
    EntryOrder();
    var sorted := SortEntries(group);
    SortSorted(group, EntryLeq);
    forall i, j | 0 <= i < j < |sorted|
      ensures Before(sorted[i].id, sorted[j].id)
    {
      assert EntryLeq(sorted[i], sorted[j]);
      BeforeTotal(sorted[i].id, sorted[j].id);
      if sorted[i].id == sorted[j].id {
        ManyTies(sorted, i, j);
        SortTies(group, sorted[i], EntryLeq);
        FewTies(group, sorted[i]);
        assert false;
      }
    }
  }

  /** Sorting distinct entries of one kind yields a canonical group with the same lookups and size. */
  lemma SortCanonical(group: seq<Entry>, kind: Kind)
    requires DistinctIds(group) && forall e :: e in group ==> e.kind == kind
    ensures CanonicalGroup(SortEntries(group), kind)
    ensures |SortEntries(group)| == |group|
    ensures forall e :: e in SortEntries(group) <==> e in group
  {
    SortedDistinct(group);
    var sorted := SortEntries(group);
    assert multiset(sorted) == multiset(group);
    forall e
      ensures e in sorted <==> e in group
    {
      assert e in multiset(sorted) <==> e in multiset(group);
    }
    assert |multiset(sorted)| == |sorted| && |multiset(group)| == |group|;
  }

  lemma CanonicalDistinct(group: seq<Entry>)
    requires StrictlySorted(group)
    ensures DistinctIds(group)
  {
    forall i, j | 0 <= i < j < |group|
      ensures group[i].id != group[j].id
    {
      BeforeIrreflexive(group[i].id);
    }
  }

  lemma {:induction false} FindMember(group: seq<Entry>, e: Entry)
    requires DistinctIds(group) && e in group
    ensures Find(group, e.id) == Some(e)
  {
    if group[0] != e {
      var i :| 0 <= i < |group| && group[i] == e;
      assert group[1..][i - 1] == e;
      assert forall k :: 0 <= k < |group[1..]| ==> group[1..][k] == group[k + 1];
      FindMember(group[1..], e);
    }
  }

  /** A canonical group is determined by its lookups. */
  lemma {:induction false} GroupExtensional(a: seq<Entry>, b: seq<Entry>)
    requires StrictlySorted(a) && StrictlySorted(b)
    requires forall id :: Find(a, id) == Find(b, id)
    ensures a == b
  {
    if a == [] && b == [] {
    } else if a == [] {
      HeadFound(b);
    } else if b == [] {
      HeadFound(a);
    } else {
      HeadIsLeast(a, b);
      HeadIsLeast(b, a);
      BeforeTotal(a[0].id, b[0].id);
      assert Find(a, a[0].id) == Find(b, a[0].id);
      forall id
        ensures Find(a[1..], id) == Find(b[1..], id)
      {
        assert Find(a, id) == Find(b, id);
        TailMisses(a);
        TailMisses(b);
      }
      GroupExtensional(a[1..], b[1..]);
      assert a == [a[0]] + a[1..] && b == [b[0]] + b[1..];
    }
  }

  lemma HeadFound(a: seq<Entry>)
    requires a != []
    ensures Find(a, a[0].id) == Some(a[0])
  {
  }

  lemma TailMisses(a: seq<Entry>)
    requires StrictlySorted(a) && a != []
    ensures Find(a[1..], a[0].id) == None
  {
    forall e | e in a[1..]
      ensures e.id != a[0].id
    {
      var i :| 0 <= i < |a[1..]| && a[1..][i] == e;
      assert Before(a[0].id, a[i + 1].id);
      BeforeIrreflexive(a[0].id);
    }
  }

  lemma {:induction false} HeadIsLeast(a: seq<Entry>, b: seq<Entry>)
    requires a != [] && b != [] && StrictlySorted(b)
    requires Find(b, a[0].id) == Find(a, a[0].id)
    ensures !Before(a[0].id, b[0].id)
  {
    var e := Find(b, a[0].id).value;
    var i :| 0 <= i < |b| && b[i] == e;
    if Before(a[0].id, b[0].id) {
      if i > 0 {
        BeforeTransitive(a[0].id, b[0].id, b[i].id);
      }
      BeforeIrreflexive(a[0].id);
    }
  }

  /** Two canonical states with the same lookups hold the same groups, field for field and in order. */
  lemma StateExtensional(s: State, t: State)
    requires Canonical(s) && Canonical(t)
    requires forall kind, id :: FindEntry(s, kind, id) == FindEntry(t, kind, id)
    ensures s.entries == t.entries
  {
    forall kind
      ensures s.entries.Of(kind) == t.entries.Of(kind)
    {
      assert CanonicalGroup(s.entries.Of(kind), kind) && CanonicalGroup(t.entries.Of(kind), kind);
      forall id
        ensures Find(s.entries.Of(kind), id) == Find(t.entries.Of(kind), id)
      {
        assert FindEntry(s, kind, id) == FindEntry(t, kind, id);
      }
      GroupExtensional(s.entries.Of(kind), t.entries.Of(kind));
    }
    GroupsEqual(s.entries, t.entries);
  }

  lemma GroupsEqual(a: Groups, b: Groups)
    requires forall kind :: a.Of(kind) == b.Of(kind)
    ensures a == b
  {
    assert a.Of(Prompt) == b.Of(Prompt) && a.Of(Memory) == b.Of(Memory);
    assert a.Of(Skill) == b.Of(Skill) && a.Of(Subagent) == b.Of(Subagent);
  }
}
