/** A store of versioned documents, and what each of its operations does to it, told slot by slot. */
module VectorMeaning {
  import opened Wrappers
  import opened Texts

  datatype Key = Key(agent: Text, subject: Text)

  /** The identity of one entry under one memory key. */
  datatype Slot = Slot(key: Key, id: Text)

  datatype Component = Finite(value: real) | NotFinite

  datatype Document = Document(
    id: Text, key: Key, text: Text, version: int, supersedes: Option<int>, appliedAt: Text, embedding: seq<Component>)

  datatype State = State(active: map<Slot, Document>, hidden: set<Slot>, histories: map<Slot, seq<Document>>)

  datatype StoreError = NotFiniteVector | OtherKey | MustBegin | MustFollow | NotActive | NoEntry | NoVersion | WrongDimension

  datatype Match = Match(document: Document, score: real)

  // ----- Writing -----

  /** Nothing differs except, perhaps, at the slot. */
  ghost predicate SameBut(s: State, t: State, slot: Slot) {
    forall other :: other != slot ==> SameAt(s, t, other)
  }

  ghost predicate SameAt(s: State, t: State, slot: Slot) {
    && (slot in t.active <==> slot in s.active) && (slot in s.active ==> t.active[slot] == s.active[slot])
    && (slot in t.hidden <==> slot in s.hidden)
    && (slot in t.histories <==> slot in s.histories) && (slot in s.histories ==> t.histories[slot] == s.histories[slot])
  }

  /** The document is the active one of its slot and in sight. */
  ghost predicate Stands(t: State, slot: Slot, document: Document) {
    slot in t.active && t.active[slot] == document && slot !in t.hidden
  }

  /** Another key's entry has this id. */
  ghost predicate Taken(s: State, document: Document) {
    exists slot :: slot in s.histories && slot.id == document.id && slot.key != document.key
  }

  /** Why a document is refused: its id is taken, it begins wrongly, or it does not follow the active version. */
  ghost predicate RefusedFor(s: State, document: Document, e: StoreError) {
    var slot := Slot(document.key, document.id);
    match e
    case OtherKey => Taken(s, document)
    case MustBegin => !Taken(s, document) && slot !in s.histories && (document.version != 1 || document.supersedes != None)
    case MustFollow => !Taken(s, document) && slot in s.histories && document.version != |s.histories[slot]| + 1
    case NotActive =>
      && !Taken(s, document) && slot in s.histories && document.version == |s.histories[slot]| + 1
      && !(slot in s.active && document.supersedes == Some(s.active[slot].version))
    case _ => false
  }

  /** A document nothing speaks against becomes its slot's active version and the last of its history. */
  ghost predicate Lands(s: State, document: Document, t: State) {
    var slot := Slot(document.key, document.id);
    && (forall e :: !RefusedFor(s, document, e))
    && SameBut(s, t, slot) && Stands(t, slot, document)
    && slot in t.histories && t.histories[slot] == (if slot in s.histories then s.histories[slot] else []) + [document]
  }

  /** The states that a batch passes through, one document at a time. */
  ghost predicate Passes(s: State, documents: seq<Document>, trail: seq<State>) {
    && |trail| == |documents| + 1 && trail[0] == s
    && forall i :: 0 <= i < |documents| ==> Lands(trail[i], documents[i], trail[i + 1])
  }

  ghost predicate Unusable(vector: seq<Component>) {
    exists i :: 0 <= i < |vector| && vector[i].NotFinite?
  }

  ghost predicate StopsAt(s: State, documents: seq<Document>, n: nat, trail: seq<State>, e: StoreError) {
    n < |documents| && Passes(s, documents[..n], trail) && RefusedFor(trail[n], documents[n], e)
  }

  /** A batch lands document by document, or not at all: the first refusal is told. */
  ghost predicate UpsertedAs(s: State, documents: seq<Document>, failure: Option<StoreError>, t: State) {
    if exists i :: 0 <= i < |documents| && Unusable(documents[i].embedding) then failure == Some(NotFiniteVector) && t == s
    else
      match failure
      case None => exists trail :: Passes(s, documents, trail) && t == trail[|documents|]
      case Some(e) => t == s && exists n, trail :: StopsAt(s, documents, n, trail, e)
  }

  /** Exactly the key's active entries, or its one entry of this id, go out of sight; nothing else changes. */
  ghost predicate DeletedAs(s: State, key: Key, id: Option<Text>, t: State) {
    && t.active == s.active && t.histories == s.histories
    && forall slot :: slot in t.hidden <==>
         slot in s.hidden || (slot in s.active && slot.key == key && (id.Some? ==> slot.id == id.value))
  }

  ghost predicate EntryAt(s: State, id: Text, slot: Slot) {
    slot in s.histories && slot.id == id
  }

  /** The version asked for becomes the entry's active one and comes into sight; no history changes. */
  ghost predicate RevertedAs(s: State, id: Text, to: int, failure: Option<StoreError>, t: State) {
    if forall slot :: !EntryAt(s, id, slot) then failure == Some(NoEntry) && t == s
    else
      exists slot :: EntryAt(s, id, slot) &&
        if 1 <= to <= |s.histories[slot]| then
          && failure.None? && SameBut(s, t, slot)
          && Stands(t, slot, s.histories[slot][to - 1]) && t.histories == s.histories
        else failure == Some(NoVersion) && t == s
  }

  // ----- Reading -----

  /** All versions of the entry, oldest first; none of an unknown one. */
  ghost predicate HistoryAs(s: State, id: Text, versions: seq<Document>) {
    if forall slot :: !EntryAt(s, id, slot) then versions == []
    else exists slot :: EntryAt(s, id, slot) && versions == s.histories[slot]
  }

  /** An entry of the key with an active document in sight. */
  ghost predicate InSight(s: State, key: Key, slot: Slot) {
    slot in s.active && slot !in s.hidden && slot.key == key
  }

  ghost predicate Scores(s: State, key: Key, minScore: Option<real>, score: Document -> real, slot: Slot) {
    InSight(s, key, slot) && (minScore.Some? ==> score(s.active[slot]) >= minScore.value)
  }

  ghost predicate ScoredAs(s: State, key: Key, minScore: Option<real>, score: Document -> real, m: Match) {
    exists slot :: Scores(s, key, minScore, score, slot) && m == Match(s.active[slot], score(s.active[slot]))
  }

  /** The best `limit` documents in sight that score enough, each once, best first. */
  ghost predicate BestAs(s: State, key: Key, minScore: Option<real>, score: Document -> real, limit: int, page: seq<Match>) {
    && |page| <= limit
    && (forall m :: m in page ==> ScoredAs(s, key, minScore, score, m))
    && (forall i, j :: 0 <= i < j < |page| ==> page[i].document.id != page[j].document.id && page[i].score >= page[j].score)
    && (forall slot, i :: Scores(s, key, minScore, score, slot) && Match(s.active[slot], score(s.active[slot])) !in page ==>
          |page| == limit && (0 <= i < |page| ==> page[i].score >= score(s.active[slot])))
  }

  ghost predicate QueriedAs(s: State, key: Key, vector: seq<Component>, limit: int, minScore: Option<real>,
                            score: Document -> real, r: Result<seq<Match>, StoreError>) {
    if limit <= 0 then r == Ok([])
    else if Unusable(vector) then r == Err(NotFiniteVector)
    else if exists slot :: InSight(s, key, slot) && |s.active[slot].embedding| != |vector| then r == Err(WrongDimension)
    else r.Ok? && BestAs(s, key, minScore, score, limit, r.value)
  }
}
