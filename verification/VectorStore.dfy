/** Versioned documents with an active version each, revert, hiding, and optimistic append. */
module VectorStore {
  import opened Wrappers
  import opened Texts
  import opened Sequences
  import opened StableSort
  import opened VectorMeaning

  const EMPTY := State(map[], {}, map[])

  function SlotOf(document: Document): Slot {
    Slot(document.key, document.id)
  }

  predicate Begins(state: State, slot: Slot, id: Text) {
    slot in state.histories && state.histories[slot] != [] && state.histories[slot][0].id == id
  }

  /** The slot whose history belongs to an entry id. */
  ghost function EntrySlot(state: State, id: Text): (slot: Option<Slot>)
    ensures slot.Some? ==> Begins(state, slot.value, id)
    ensures slot.None? ==> forall s :: !Begins(state, s, id)
  {
    if exists slot :: Begins(state, slot, id) then
      var slot :| Begins(state, slot, id);
      Some(slot)
    else None
  }

  function HistoryAt(state: State, slot: Slot): seq<Document> {
    if slot in state.histories then state.histories[slot] else []
  }

  predicate HasVersion(history: seq<Document>, version: int) {
    exists i :: 0 <= i < |history| && history[i].version == version
  }

  /** Why a document cannot follow a history, if it cannot. */
  function AppendRefusal(history: seq<Document>, active: Option<Document>, document: Document): Option<StoreError> {
    if history == [] then
      if document.version != 1 || document.supersedes.Some? then Some(MustBegin) else None
    else if document.version != history[|history| - 1].version + 1 then Some(MustFollow)
    else if || document.supersedes.None? || !HasVersion(history, document.supersedes.value)
            || (active.Some? && active.value.version != document.supersedes.value)
    then Some(NotActive)
    else None
  }

  function ActiveAt(state: State, slot: Slot): Option<Document> {
    if slot in state.active then Some(state.active[slot]) else None
  }

  function Added(state: State, document: Document): State {
    var slot := SlotOf(document);
    State(state.active[slot := document], state.hidden - {slot},
          state.histories[slot := HistoryAt(state, slot) + [document]])
  }

  ghost function Append(state: State, document: Document): Result<State, StoreError> {
    var slot, owner := SlotOf(document), EntrySlot(state, document.id);
    if owner.Some? && owner.value != slot then Err(OtherKey)
    else
      match AppendRefusal(HistoryAt(state, slot), ActiveAt(state, slot), document)
      case Some(e) => Err(e)
      case None => Ok(Added(state, document))
  }

  ghost function AppendAll(state: State, documents: seq<Document>): Result<State, StoreError>
    decreases |documents|
  {
    if documents == [] then Ok(state)
    else
      match Append(state, documents[0])
      case Err(e) => Err(e)
      case Ok(next) => AppendAll(next, documents[1..])
  }

  predicate FiniteVector(vector: seq<Component>) {
    forall i :: 0 <= i < |vector| ==> vector[i].Finite?
  }

  predicate AllFinite(documents: seq<Document>) {
    forall i :: 0 <= i < |documents| ==> FiniteVector(documents[i].embedding)
  }

  /** What a batch comes to: all of it, or a refusal. */
  ghost function Upserted(state: State, documents: seq<Document>): Result<State, StoreError> {
    if !AllFinite(documents) then Err(NotFiniteVector) else AppendAll(state, documents)
  }

  predicate Named(slot: Slot, key: Key, id: Option<Text>) {
    slot.key == key && (id.None? || slot.id == id.value)
  }

  function Deleted(state: State, key: Key, id: Option<Text>): State {
    state.(hidden := state.hidden + set slot | slot in state.active && Named(SlotOf(state.active[slot]), key, id))
  }

  ghost function Reverted(state: State, id: Text, to: int): Result<State, StoreError> {
    match EntrySlot(state, id)
    case None => Err(NoEntry)
    case Some(slot) =>
      if !HasVersion(state.histories[slot], to) then Err(NoVersion)
      else Ok(State(state.active[slot := FirstVersion(state.histories[slot], to)], state.hidden - {slot}, state.histories))
  }

  function FirstVersion(history: seq<Document>, version: int): (document: Document)
    requires HasVersion(history, version)
    ensures document in history && document.version == version
  {
    if history[0].version == version then history[0]
    else
      assert HasVersion(history[1..], version) by {
        var i :| 0 <= i < |history| && history[i].version == version;
        assert history[1..][i - 1] == history[i];
      }
      FirstVersion(history[1..], version)
  }

  // ----- What holds in every reachable state -----

  /** Numbered 1..n, one entry throughout, each later version superseding an existing earlier one. */
  ghost predicate GoodHistory(slot: Slot, history: seq<Document>) {
    && history != []
    && (forall i :: 0 <= i < |history| ==> history[i].version == i + 1 && SlotOf(history[i]) == slot)
    && history[0].supersedes == None
    && (forall i :: 1 <= i < |history| ==> history[i].supersedes.Some? && 1 <= history[i].supersedes.value <= i)
  }

  ghost predicate Valid(state: State) {
    && state.histories.Keys == state.active.Keys
    && state.hidden <= state.active.Keys
    && (forall slot :: slot in state.histories ==> GoodHistory(slot, state.histories[slot]))
    && (forall slot :: slot in state.active ==> state.active[slot] in state.histories[slot])
    && (forall a, b :: a in state.histories && b in state.histories && a.id == b.id ==> a == b)
  }

  /** In a valid state an entry id belongs to one slot, the one it names. */
  lemma SlotUnique(state: State, id: Text, slot: Slot)
    requires Valid(state)
    ensures Begins(state, slot, id) <==> slot in state.histories && slot.id == id
    ensures Begins(state, slot, id) ==> EntrySlot(state, id) == Some(slot)
  {
    if slot in state.histories {
      assert GoodHistory(slot, state.histories[slot]);
    }
    if Begins(state, slot, id) {
      var found := EntrySlot(state, id).value;
      assert GoodHistory(found, state.histories[found]);
    }
  }

  lemma GoodAppend(slot: Slot, history: seq<Document>, active: Option<Document>, document: Document)
    requires history == [] || GoodHistory(slot, history)
    requires SlotOf(document) == slot && AppendRefusal(history, active, document) == None
    ensures GoodHistory(slot, history + [document])
    ensures document.version == |history| + 1
  {
    if history != [] {
      var i :| 0 <= i < |history| && history[i].version == document.supersedes.value;
    }
  }

  /** An accepted document's id belongs to no other slot. */
  lemma SoleOwner(state: State, document: Document, other: Slot)
    requires Valid(state) && Append(state, document).Ok? && other in state.histories && other.id == document.id
    ensures other == SlotOf(document)
  {
    SlotUnique(state, document.id, other);
  }

  lemma AppendNumbered(state: State, document: Document)
    requires Valid(state) && Append(state, document).Ok?
    ensures GoodHistory(SlotOf(document), HistoryAt(state, SlotOf(document)) + [document])
    ensures document.version == |HistoryAt(state, SlotOf(document))| + 1
    ensures SlotOf(document) in state.active ==> document.supersedes == Some(state.active[SlotOf(document)].version)
  {
    var slot := SlotOf(document);
    GoodAppend(slot, HistoryAt(state, slot), ActiveAt(state, slot), document);
  }

  lemma {:induction false} AddedValid(state: State, document: Document)
    requires Valid(state)
    requires GoodHistory(SlotOf(document), HistoryAt(state, SlotOf(document)) + [document])
    requires forall other :: other in state.histories && other.id == document.id ==> other == SlotOf(document)
    ensures Valid(Added(state, document)) && Extends(state, Added(state, document))
  {
    assert document in Added(state, document).histories[SlotOf(document)];
  }

  /** An accepted document leaves a valid state with longer histories. */
  lemma {:induction false} AppendValid(state: State, document: Document)
    requires Valid(state) && Append(state, document).Ok?
    ensures Valid(Added(state, document)) && Extends(state, Added(state, document))
  {
    AppendNumbered(state, document);
    forall other | other in state.histories && other.id == document.id {
      SoleOwner(state, document, other);
    }
    AddedValid(state, document);
  }

  /** Later histories extend earlier ones. */
  ghost predicate Extends(s: State, t: State) {
    forall slot :: slot in s.histories ==> slot in t.histories && s.histories[slot] <= t.histories[slot]
  }

  lemma {:induction false} AppendAllValid(state: State, documents: seq<Document>)
    requires Valid(state) && AppendAll(state, documents).Ok?
    ensures Valid(AppendAll(state, documents).value) && Extends(state, AppendAll(state, documents).value)
    decreases |documents|
  {
    if documents != [] {
      AppendValid(state, documents[0]);
      AppendAllValid(Added(state, documents[0]), documents[1..]);
      ExtendsThen(state, Added(state, documents[0]), AppendAll(state, documents).value);
    }
  }

  lemma RevertValid(state: State, id: Text, to: int)
    requires Valid(state) && Reverted(state, id, to).Ok?
    ensures Valid(Reverted(state, id, to).value) && Extends(state, Reverted(state, id, to).value)
  {
  }

  datatype Op = Upsert(documents: seq<Document>) | Delete(key: Key, id: Option<Text>) | Revert(entryId: Text, to: int)

  ghost function Outcome(state: State, op: Op): Result<State, StoreError> {
    match op
    case Upsert(documents) => Upserted(state, documents)
    case Delete(key, id) => Ok(Deleted(state, key, id))
    case Revert(id, to) => Reverted(state, id, to)
  }

  /** A refused operation changes nothing. */
  ghost function Next(state: State, op: Op): State {
    match Outcome(state, op)
    case Ok(next) => next
    case Err(_) => state
  }

  lemma NextValid(state: State, op: Op)
    requires Valid(state)
    ensures Valid(Next(state, op)) && Extends(state, Next(state, op))
  {
    if Outcome(state, op).Ok? {
      match op
      case Upsert(documents) => AppendAllValid(state, documents);
      case Delete(_, _) =>
      case Revert(id, to) => RevertValid(state, id, to);
    }
  }

  ghost function After(run: seq<Op>): State {
    if run == [] then EMPTY else Next(After(run[..|run| - 1]), run[|run| - 1])
  }

  /** Over every run histories stay numbered and rooted, active documents recorded, entry ids unique. */
  lemma {:induction false} RunValid(run: seq<Op>)
    ensures Valid(After(run))
  {
    if run != [] {
      RunValid(run[..|run| - 1]);
      NextValid(After(run[..|run| - 1]), run[|run| - 1]);
    }
  }

  /** Over every run each history only grows. */
  lemma {:induction false} RunExtends(run: seq<Op>, i: nat)
    requires i <= |run|
    ensures Extends(After(run[..i]), After(run))
    decreases |run|
  {
    if i == |run| {
      assert run[..i] == run;
    } else {
      var init := run[..|run| - 1];
      assert init[..i] == run[..i];
      RunExtends(init, i);
      RunValid(init);
      NextValid(After(init), run[|run| - 1]);
      ExtendsThen(After(run[..i]), After(init), After(run));
    }
  }

  lemma ExtendsThen(s: State, t: State, u: State)
    requires Extends(s, t) && Extends(t, u)
    ensures Extends(s, u)
  {
    forall slot | slot in s.histories
      ensures slot in u.histories && s.histories[slot] <= u.histories[slot]
    {
      assert s.histories[slot] <= t.histories[slot] && t.histories[slot] <= u.histories[slot];
    }
  }

  /** The versions a version was built on, itself first. */
  function Lineage(history: seq<Document>, version: int): seq<int>
    decreases version
  {
    if !(1 <= version <= |history|) then []
    else
      var earlier := history[version - 1].supersedes;
      [version] + if earlier.Some? && earlier.value < version then Lineage(history, earlier.value) else []
  }

  /** The list leads from `version`, ever lower, to version 1. */
  ghost predicate LeadsToFirst(lineage: seq<int>, version: int) {
    && lineage != [] && lineage[0] == version && lineage[|lineage| - 1] == 1
    && (forall i :: 0 < i < |lineage| ==> 1 <= lineage[i] < lineage[i - 1])
  }

  lemma LeadsFurther(lineage: seq<int>, version: int, earlier: int)
    requires LeadsToFirst(lineage, earlier) && 1 <= earlier < version
    ensures LeadsToFirst([version] + lineage, version)
  {
  }

  /** From any version of a reachable history the superseded versions lead, ever lower, to version 1. */
  lemma {:induction false} LineageReachesFirst(slot: Slot, history: seq<Document>, version: int)
    requires GoodHistory(slot, history) && 1 <= version <= |history|
    ensures LeadsToFirst(Lineage(history, version), version)
    decreases version
  {
    if version > 1 {
      var earlier := history[version - 1].supersedes.value;
      LineageReachesFirst(slot, history, earlier);
      LeadsFurther(Lineage(history, earlier), version, earlier);
      assert Lineage(history, version) == [version] + Lineage(history, earlier);
    } else {
      assert Lineage(history, version) == [1];
    }
  }

  // ----- In plain terms -----

  ghost function FailureOf(r: Result<State, StoreError>): Option<StoreError> {
    match r
    case Ok(_) => None
    case Err(e) => Some(e)
  }

  ghost function StateAfter(state: State, r: Result<State, StoreError>): State {
    match r
    case Ok(next) => next
    case Err(_) => state
  }

  lemma EntryMeaning(state: State, id: Text)
    requires Valid(state)
    ensures match EntrySlot(state, id)
            case None => forall slot :: !EntryAt(state, id, slot)
            case Some(slot) => EntryAt(state, id, slot) && forall other :: EntryAt(state, id, other) ==> other == slot
  {
    forall slot
      ensures EntryAt(state, id, slot) ==> EntrySlot(state, id) == Some(slot)
    {
      SlotUnique(state, id, slot);
    }
    if EntrySlot(state, id).Some? {
      SlotUnique(state, id, EntrySlot(state, id).value);
    }
  }

  lemma DeleteMeaning(state: State, key: Key, id: Option<Text>)
    requires Valid(state)
    ensures DeletedAs(state, key, id, Deleted(state, key, id))
  {
    forall slot | slot in state.active {
      ActiveSlot(state, slot);
    }
  }

  lemma VersionIs(slot: Slot, history: seq<Document>, version: int)
    requires GoodHistory(slot, history)
    ensures HasVersion(history, version) <==> 1 <= version <= |history|
    ensures HasVersion(history, version) ==> FirstVersion(history, version) == history[version - 1]
  {
    if 1 <= version <= |history| {
      assert history[version - 1].version == version;
    }
  }

  lemma {:induction false} RevertMeaning(state: State, id: Text, to: int)
    requires Valid(state)
    ensures var r := Reverted(state, id, to); RevertedAs(state, id, to, FailureOf(r), StateAfter(state, r))
  {
    EntryMeaning(state, id);
    if EntrySlot(state, id).Some? {
      RevertFound(state, id, EntrySlot(state, id).value, to);
    }
  }

  lemma {:induction false} RevertFound(state: State, id: Text, slot: Slot, to: int)
    requires Valid(state) && EntrySlot(state, id) == Some(slot) && EntryAt(state, id, slot)
    ensures var r := Reverted(state, id, to);
            if 1 <= to <= |state.histories[slot]|
            then r.Ok? && SameBut(state, r.value, slot)
                 && Stands(r.value, slot, state.histories[slot][to - 1]) && r.value.histories == state.histories
            else r == Err(NoVersion)
  {
    VersionIs(slot, state.histories[slot], to);
  }

  lemma TakenMeaning(state: State, document: Document)
    requires Valid(state)
    ensures var owner := EntrySlot(state, document.id);
            owner.Some? && owner.value != SlotOf(document) <==> Taken(state, document)
  {
    EntryMeaning(state, document.id);
    if slot :| slot in state.histories && slot.id == document.id && slot.key != document.key {
      assert EntryAt(state, document.id, slot);
    }
  }

  /** What a history says of a document that would follow it. */
  lemma RefusalMeaning(state: State, document: Document)
    requires Valid(state) && !Taken(state, document)
    ensures var slot := SlotOf(document);
            var refusal := AppendRefusal(HistoryAt(state, slot), ActiveAt(state, slot), document);
            forall e :: refusal == Some(e) <==> RefusedFor(state, document, e)
  {
    var slot := SlotOf(document);
    if slot in state.histories {
      ActiveVersion(state, slot);
      if document.supersedes.Some? {
        VersionIs(slot, state.histories[slot], document.supersedes.value);
      }
    }
  }

  lemma ActiveVersion(state: State, slot: Slot)
    requires Valid(state) && slot in state.histories
    ensures slot in state.active && GoodHistory(slot, state.histories[slot])
    ensures 1 <= state.active[slot].version <= |state.histories[slot]|
    ensures state.histories[slot][|state.histories[slot]| - 1].version == |state.histories[slot]|
  {
    var i :| 0 <= i < |state.histories[slot]| && state.histories[slot][i] == state.active[slot];
  }

  lemma AddedLands(state: State, document: Document)
    requires forall e :: !RefusedFor(state, document, e)
    ensures Lands(state, document, Added(state, document))
  {
  }

  lemma {:induction false} AppendMeaning(state: State, document: Document)
    requires Valid(state)
    ensures match Append(state, document)
            case Ok(next) => Lands(state, document, next)
            case Err(e) => RefusedFor(state, document, e)
  {
    TakenMeaning(state, document);
    if !Taken(state, document) {
      RefusalMeaning(state, document);
      if Append(state, document).Ok? {
        assert forall e :: !RefusedFor(state, document, e);
        AddedLands(state, document);
      }
    }
  }

  lemma PassesOn(state: State, documents: seq<Document>, next: State, trail: seq<State>)
    requires documents != [] && Lands(state, documents[0], next) && Passes(next, documents[1..], trail)
    ensures Passes(state, documents, [state] + trail)
  {
    var longer := [state] + trail;
    forall i | 0 <= i < |documents|
      ensures Lands(longer[i], documents[i], longer[i + 1])
    {
      if i > 0 {
        assert documents[i] == documents[1..][i - 1];
      }
    }
  }

  /** How a batch goes: `n` documents land, and then it has ended or the next one is refused. */
  ghost predicate Goes(state: State, documents: seq<Document>, r: Result<State, StoreError>, n: nat, trail: seq<State>) {
    && n <= |documents| && Passes(state, documents[..n], trail)
    && match r
       case Ok(next) => n == |documents| && trail[n] == next
       case Err(e) => n < |documents| && RefusedFor(trail[n], documents[n], e)
  }

  lemma GoesOn(state: State, documents: seq<Document>, next: State, r: Result<State, StoreError>, n: nat, trail: seq<State>)
    requires documents != [] && Lands(state, documents[0], next) && Goes(next, documents[1..], r, n, trail)
    ensures Goes(state, documents, r, n + 1, [state] + trail)
  {
    assert documents[..n + 1][1..] == documents[1..][..n] && documents[..n + 1][0] == documents[0];
    PassesOn(state, documents[..n + 1], next, trail);
  }

  lemma GoesNowhere(state: State, documents: seq<Document>, e: StoreError)
    requires Valid(state) && documents != [] && Append(state, documents[0]) == Err(e)
    ensures Goes(state, documents, Err(e), 0, [state])
  {
    AppendMeaning(state, documents[0]);
  }

  /** The states a batch passes through until it ends or is refused. */
  lemma {:induction false} BatchMeaning(state: State, documents: seq<Document>) returns (n: nat, trail: seq<State>)
    requires Valid(state)
    ensures Goes(state, documents, AppendAll(state, documents), n, trail)
    decreases |documents|
  {
    if documents == [] {
      n, trail := 0, [state];
    } else {
      var first := Append(state, documents[0]);
      if first.Err? {
        n, trail := 0, [state];
        GoesNowhere(state, documents, first.error);
      } else {
        AppendMeaning(state, documents[0]);
        AppendValid(state, documents[0]);
        var m, rest := BatchMeaning(first.value, documents[1..]);
        n, trail := m + 1, [state] + rest;
        GoesOn(state, documents, first.value, AppendAll(first.value, documents[1..]), m, rest);
      }
    }
  }

  lemma UpsertMeaning(state: State, documents: seq<Document>)
    requires Valid(state)
    ensures var r := Upserted(state, documents); UpsertedAs(state, documents, FailureOf(r), StateAfter(state, r))
  {
    if AllFinite(documents) {
      assert forall i :: 0 <= i < |documents| ==> !Unusable(documents[i].embedding);
      var n, trail := BatchMeaning(state, documents);
      assert documents[..|documents|] == documents;
      if n < |documents| {
        assert StopsAt(state, documents, n, trail, AppendAll(state, documents).error);
      }
    } else {
      var i :| 0 <= i < |documents| && !FiniteVector(documents[i].embedding);
      assert Unusable(documents[i].embedding);
    }
  }

  lemma VisibleMeaning(state: State, slot: Slot, key: Key)
    requires Valid(state)
    ensures Visible(state, slot, key) <==> InSight(state, key, slot)
  {
    if slot in state.active {
      ActiveSlot(state, slot);
    }
  }

  lemma MisfitMeaning(state: State, key: Key, vector: seq<Component>)
    requires Valid(state)
    ensures FiniteVector(vector) <==> !Unusable(vector)
    ensures (exists slot :: Misfits(state, key, vector, slot)) <==>
            exists slot :: InSight(state, key, slot) && |state.active[slot].embedding| != |vector|
  {
    forall slot {
      VisibleMeaning(state, slot, key);
    }
    if slot :| InSight(state, key, slot) && |state.active[slot].embedding| != |vector| {
      assert Misfits(state, key, vector, slot);
    }
    if slot :| Misfits(state, key, vector, slot) {
      assert InSight(state, key, slot);
    }
  }

  lemma {:induction false} BestMeaning(state: State, key: Key, minScore: Option<real>, score: Document -> real, limit: int,
                                       page: seq<Match>)
    requires Valid(state) && BestHits(state, key, minScore, score, limit, page)
    ensures BestAs(state, key, minScore, score, limit, page)
  {
    forall m | m in page
      ensures ScoredAs(state, key, minScore, score, m)
    {
      HitScores(state, key, minScore, score, m);
    }
    forall i, j | 0 <= i < j < |page|
      ensures page[i].document.id != page[j].document.id
    {
      assert !SameDocument(page[i], page[j]);
      HitKey(state, key, minScore, score, page[i]);
      HitKey(state, key, minScore, score, page[j]);
    }
    forall slot, i | Scores(state, key, minScore, score, slot) && Match(state.active[slot], score(state.active[slot])) !in page
      ensures |page| == limit && (0 <= i < |page| ==> page[i].score >= score(state.active[slot]))
    {
      ScoresHit(state, key, minScore, score, slot);
    }
  }

  lemma HitScores(state: State, key: Key, minScore: Option<real>, score: Document -> real, m: Match)
    requires Valid(state) && Hit(state, key, minScore, score, m)
    ensures ScoredAs(state, key, minScore, score, m)
  {
    var slot :| Shows(state, key, minScore, score, slot) && m == Match(state.active[slot], score(state.active[slot]));
    VisibleMeaning(state, slot, key);
    assert Scores(state, key, minScore, score, slot);
  }

  lemma HitKey(state: State, key: Key, minScore: Option<real>, score: Document -> real, m: Match)
    requires Valid(state) && Hit(state, key, minScore, score, m)
    ensures m.document.key == key
  {
  }

  lemma ScoresHit(state: State, key: Key, minScore: Option<real>, score: Document -> real, slot: Slot)
    requires Valid(state) && Scores(state, key, minScore, score, slot)
    ensures Hit(state, key, minScore, score, Match(state.active[slot], score(state.active[slot])))
  {
    VisibleMeaning(state, slot, key);
    assert Shows(state, key, minScore, score, slot);
  }

  // ----- The store -----

  predicate Better(a: Match, b: Match) {
    a.score >= b.score
  }

  predicate Visible(state: State, slot: Slot, key: Key) {
    slot in state.active && slot !in state.hidden && state.active[slot].key == key
  }

  class MemoryStore {
    var state: State

    constructor ()
      ensures state == EMPTY
    {
      state := EMPTY;
    }

    /** The scan over histories for an entry id. */
    method FindSlot(current: State, id: Text) returns (slot: Option<Slot>)
      requires Valid(current)
      ensures slot == EntrySlot(current, id)
    {
      var rest := current.histories.Keys;
      while rest != {}
        invariant rest <= current.histories.Keys
        invariant forall s :: s in current.histories.Keys - rest ==> !Begins(current, s, id)
        decreases rest
      {
        var s :| s in rest;
        rest := rest - {s};
        if current.histories[s] != [] && current.histories[s][0].id == id {
          SlotUnique(current, id, s);
          return Some(s);
        }
      }
      slot := None;
    }

    /** A batch lands as a whole or not at all. */
    method Upsert(documents: seq<Document>) returns (failure: Option<StoreError>)
      requires Valid(state)
      modifies this
      ensures Valid(state) && state == Next(old(state), Op.Upsert(documents))
      ensures failure == FailureOf(Upserted(old(state), documents))
      ensures UpsertedAs(old(state), documents, failure, state)
    {
      UpsertMeaning(state, documents);
      if !AllFinite(documents) {
        return Some(NotFiniteVector);
      }
      var next := state;
      for i := 0 to |documents|
        invariant state == old(state) && Valid(next)
        invariant AppendAll(state, documents) == AppendAll(next, documents[i..])
      {
        assert documents[i..][0] == documents[i] && documents[i..][1..] == documents[i + 1..];
        var document := documents[i];
        var owner := FindSlot(next, document.id);
        if owner.Some? && owner.value != SlotOf(document) {
          return Some(OtherKey);
        }
        var refusal := AppendRefusal(HistoryAt(next, SlotOf(document)), ActiveAt(next, SlotOf(document)), document);
        if refusal.Some? {
          return refusal;
        }
        AppendValid(next, document);
        next := Added(next, document);
      }
      assert documents[|documents|..] == [];
      state := next;
      failure := None;
    }

    method History(id: Text) returns (versions: seq<Document>)
      requires Valid(state)
      ensures versions == match EntrySlot(state, id) case None => [] case Some(slot) => HistoryAt(state, slot)
      ensures HistoryAs(state, id, versions)
    {
      EntryMeaning(state, id);
      var slot := FindSlot(state, id);
      versions := if slot.None? then [] else HistoryAt(state, slot.value);
    }

    method Delete(key: Key, id: Option<Text>)
      requires Valid(state)
      modifies this
      ensures Valid(state) && state == Next(old(state), Op.Delete(key, id))
      ensures DeletedAs(old(state), key, id, state)
    {
      DeleteMeaning(state, key, id);
      NextValid(state, Op.Delete(key, id));
      var hidden := HiddenAfter(state, key, id);
      assert hidden == Deleted(state, key, id).hidden;
      state := state.(hidden := hidden);
    }

    method HiddenAfter(current: State, key: Key, id: Option<Text>) returns (hidden: set<Slot>)
      ensures forall slot :: slot in hidden <==>
                slot in current.hidden || (slot in current.active && Named(SlotOf(current.active[slot]), key, id))
    {
      hidden := current.hidden;
      var rest := current.active.Keys;
      while rest != {}
        invariant rest <= current.active.Keys
        invariant forall slot :: slot in hidden <==>
                    || slot in current.hidden
                    || (slot in current.active.Keys - rest && Named(SlotOf(current.active[slot]), key, id))
        decreases rest
      {
        var slot :| slot in rest;
        rest := rest - {slot};
        var document := current.active[slot];
        if document.key != key || (id.Some? && document.id != id.value) {
          continue;
        }
        hidden := hidden + {slot};
      }
    }

    method Revert(id: Text, to: int) returns (failure: Option<StoreError>)
      requires Valid(state)
      modifies this
      ensures Valid(state) && state == Next(old(state), Op.Revert(id, to))
      ensures failure == FailureOf(Reverted(old(state), id, to))
      ensures RevertedAs(old(state), id, to, failure, state)
    {
      RevertMeaning(state, id, to);
      NextValid(state, Op.Revert(id, to));
      var slot := FindSlot(state, id);
      assert slot == EntrySlot(state, id);
      if slot.None? {
        return Some(NoEntry);
      }
      if !HasVersion(state.histories[slot.value], to) {
        return Some(NoVersion);
      }
      state := State(state.active[slot.value := FirstVersion(state.histories[slot.value], to)],
                     state.hidden - {slot.value}, state.histories);
      failure := None;
    }

    /** What one active document contributes to a query. */
    method MatchAt(slot: Slot, key: Key, vector: seq<Component>, minScore: Option<real>, score: Document -> real)
      returns (r: Result<seq<Match>, StoreError>)
      requires slot in state.active
      ensures r == if Misfits(state, key, vector, slot) then Err(WrongDimension)
                   else Ok(if Shows(state, key, minScore, score, slot)
                           then [Match(state.active[slot], score(state.active[slot]))] else [])
    {
      var document := state.active[slot];
      if slot in state.hidden || document.key != key {
        return Ok([]);
      }
      if |document.embedding| != |vector| {
        return Err(WrongDimension);
      }
      if minScore.Some? && score(document) < minScore.value {
        return Ok([]);
      }
      r := Ok([Match(document, score(document))]);
    }

    /** The loop over active documents: every document of the key that is not hidden and scores enough, once. */
    method Matching(key: Key, vector: seq<Component>, minScore: Option<real>, score: Document -> real)
      returns (r: Result<seq<Match>, StoreError>)
      requires Valid(state)
      ensures r.Ok? <==> forall slot :: !Misfits(state, key, vector, slot)
      ensures r.Err? ==> r.error == WrongDimension
      ensures r.Ok? ==> Gathered(state, key, minScore, score, state.active.Keys, r.value)
    {
      var matches: seq<Match> := [];
      var rest := state.active.Keys;
      ghost var seen: set<Slot> := {};
      while rest != {}
        invariant rest + seen == state.active.Keys && rest !! seen
        invariant forall slot :: slot in seen ==> !Misfits(state, key, vector, slot)
        invariant Gathered(state, key, minScore, score, seen, matches)
        decreases rest
      {
        var slot :| slot in rest;
        var contributed := MatchAt(slot, key, vector, minScore, score);
        if contributed.Err? {
          return Err(contributed.error);
        }
        GatheredOne(state, key, minScore, score, seen, matches, slot);
        assert matches + [] == matches;
        matches := matches + contributed.value;
        rest, seen := rest - {slot}, seen + {slot};
      }
      assert seen == state.active.Keys;
      r := Ok(matches);
    }

    /**
     * The best matches of one key: never a hidden document or another key's, none twice, best first, and
     * nothing left out that beats one that is in.
     */
    method Query(key: Key, vector: seq<Component>, limit: int, minScore: Option<real>, score: Document -> real)
      returns (r: Result<seq<Match>, StoreError>)
      requires Valid(state)
      ensures limit <= 0 ==> r == Ok([])
      ensures limit > 0 && !FiniteVector(vector) ==> r == Err(NotFiniteVector)
      ensures limit > 0 && FiniteVector(vector) ==>
                if forall slot :: !Misfits(state, key, vector, slot)
                then r.Ok? && BestHits(state, key, minScore, score, limit, r.value)
                else r == Err(WrongDimension)
      ensures QueriedAs(state, key, vector, limit, minScore, score, r)
    {
      MisfitMeaning(state, key, vector);
      if limit <= 0 {
        return Ok([]);
      }
      if !FiniteVector(vector) {
        return Err(NotFiniteVector);
      }
      var found := Matching(key, vector, minScore, score);
      if found.Err? {
        return found;
      }
      GatheredBest(state, key, minScore, score, limit, found.value);
      BestMeaning(state, key, minScore, score, limit, FirstBest(found.value, limit));
      r := Ok(FirstBest(found.value, limit));
    }
  }

  /** A visible document of another dimension than the query. */
  predicate Misfits(state: State, key: Key, vector: seq<Component>, slot: Slot) {
    Visible(state, slot, key) && |state.active[slot].embedding| != |vector|
  }

  /** The document at this slot is visible to the key and scores enough. */
  ghost predicate Shows(state: State, key: Key, minScore: Option<real>, score: Document -> real, slot: Slot) {
    Visible(state, slot, key) && (minScore.None? || score(state.active[slot]) >= minScore.value)
  }

  ghost predicate Hit(state: State, key: Key, minScore: Option<real>, score: Document -> real, m: Match) {
    exists slot :: Shows(state, key, minScore, score, slot) && m == Match(state.active[slot], score(state.active[slot]))
  }

  predicate SameDocument(a: Match, b: Match) {
    SlotOf(a.document) == SlotOf(b.document)
  }

  /** The matches are the documents that show at the slots looked at, each once. */
  ghost predicate Gathered(state: State, key: Key, minScore: Option<real>, score: Document -> real, seen: set<Slot>,
                           matches: seq<Match>) {
    && Apart(matches, SameDocument)
    && (forall m :: m in matches ==>
          && SlotOf(m.document) in seen && Shows(state, key, minScore, score, SlotOf(m.document))
          && m == Match(state.active[SlotOf(m.document)], score(m.document)))
    && (forall slot :: slot in seen && Shows(state, key, minScore, score, slot) ==>
          Match(state.active[slot], score(state.active[slot])) in matches)
  }

  lemma ActiveSlot(state: State, slot: Slot)
    requires Valid(state) && slot in state.active
    ensures SlotOf(state.active[slot]) == slot
  {
    assert GoodHistory(slot, state.histories[slot]);
  }

  lemma GatheredOne(state: State, key: Key, minScore: Option<real>, score: Document -> real, seen: set<Slot>,
                    matches: seq<Match>, slot: Slot)
    requires Valid(state) && Gathered(state, key, minScore, score, seen, matches)
    requires slot in state.active && slot !in seen
    ensures Gathered(state, key, minScore, score, seen + {slot},
                     if Shows(state, key, minScore, score, slot)
                     then matches + [Match(state.active[slot], score(state.active[slot]))] else matches)
  {
    ActiveSlot(state, slot);
  }

  /** The best `limit` of these matches, best first: what is left out does not beat what is in. */
  ghost predicate BestOf(matches: seq<Match>, limit: int, page: seq<Match>) {
    && |page| <= limit
    && (forall m :: m in page ==> m in matches)
    && (forall i, j :: 0 <= i < j < |page| ==> page[i].score >= page[j].score)
    && (forall m, n :: m in matches && m !in page ==> |page| == limit && (n in page ==> n.score >= m.score))
  }

  /** The best `limit` hits, none twice. */
  ghost predicate BestHits(state: State, key: Key, minScore: Option<real>, score: Document -> real, limit: int,
                           page: seq<Match>) {
    && |page| <= limit
    && Apart(page, SameDocument)
    && (forall m :: m in page ==> Hit(state, key, minScore, score, m))
    && (forall i, j :: 0 <= i < j < |page| ==> page[i].score >= page[j].score)
    && (forall m, n :: Hit(state, key, minScore, score, m) && m !in page ==>
          |page| == limit && (n in page ==> n.score >= m.score))
  }

  function FirstBest(matches: seq<Match>, limit: int): seq<Match>
    requires limit > 0
  {
    var sorted := Sort(matches, Better);
    if |sorted| > limit then sorted[..limit] else sorted
  }

  lemma {:induction false} GatheredBest(state: State, key: Key, minScore: Option<real>, score: Document -> real, limit: int,
                     matches: seq<Match>)
    requires limit > 0 && Gathered(state, key, minScore, score, state.active.Keys, matches)
    ensures BestHits(state, key, minScore, score, limit, FirstBest(matches, limit))
  {
    BestFirst(matches, limit);
    NoneTwice(matches, limit);
    forall m
      ensures Hit(state, key, minScore, score, m) <==> m in matches
    {
      GatheredHit(state, key, minScore, score, matches, m);
    }
    BestIsHits(state, key, minScore, score, limit, matches, FirstBest(matches, limit));
  }

  lemma BestIsHits(state: State, key: Key, minScore: Option<real>, score: Document -> real, limit: int,
                   matches: seq<Match>, page: seq<Match>)
    requires BestOf(matches, limit, page) && Apart(page, SameDocument)
    requires forall m :: Hit(state, key, minScore, score, m) <==> m in matches
    ensures BestHits(state, key, minScore, score, limit, page)
  {
  }

  lemma GatheredHit(state: State, key: Key, minScore: Option<real>, score: Document -> real, matches: seq<Match>,
                    m: Match)
    requires Gathered(state, key, minScore, score, state.active.Keys, matches)
    ensures Hit(state, key, minScore, score, m) <==> m in matches
  {
    if m in matches {
      assert Shows(state, key, minScore, score, SlotOf(m.document));
    }
  }

  lemma NoneTwice(matches: seq<Match>, limit: int)
    requires limit > 0 && Apart(matches, SameDocument)
    ensures Apart(FirstBest(matches, limit), SameDocument)
  {
    PermutedApart(matches, Sort(matches, Better), SameDocument);
  }

  lemma BestFirst(matches: seq<Match>, limit: int)
    requires limit > 0
    ensures BestOf(matches, limit, FirstBest(matches, limit))
  {
    assert TotalPreorder(Better);
    SortSorted(matches, Better);
    SameMembers(matches, Sort(matches, Better));
    FirstOfSorted(Sort(matches, Better), limit);
  }

  /** The front of a list that is best first beats what is left behind. */
  lemma FirstOfSorted(sorted: seq<Match>, limit: int)
    requires limit > 0 && Sorted(sorted, Better)
    ensures BestOf(sorted, limit, if |sorted| > limit then sorted[..limit] else sorted)
  {
    if |sorted| > limit {
      var page, rest := sorted[..limit], sorted[limit..];
      assert sorted == page + rest;
      forall i, j | 0 <= i < |page| && 0 <= j < |rest|
        ensures page[i].score >= rest[j].score
      {
        assert Better(sorted[i], sorted[limit + j]);
      }
    }
  }
}
