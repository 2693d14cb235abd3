/** Remembering the final exchange as a new version of an entry: read the history, then append optimistically. */
module SemanticRecall {
  import opened Wrappers
  import opened Texts
  import opened VectorMeaning
  import opened VectorStore
  import WorkingMemory

  type Message = WorkingMemory.Message

  /** The trimmed text of a user or assistant message, if it has any. */
  function Said(message: Message): Option<Text> {
    var items := WorkingMemory.NormalizeOne(message);
    if items == [] then None else Some(items[0].text)
  }

  predicate Speaks(message: Message, role: WorkingMemory.Role) {
    message.role == role && Said(message).Some?
  }

  /** The last place before `end` where this role says something. */
  ghost predicate LastSpeaks(prompt: seq<Message>, role: WorkingMemory.Role, end: nat, at: nat)
    requires end <= |prompt|
  {
    at < end && Speaks(prompt[at], role) && forall i :: at < i < end ==> !Speaks(prompt[i], role)
  }

  ghost predicate Silent(prompt: seq<Message>, role: WorkingMemory.Role, end: nat)
    requires end <= |prompt|
  {
    forall i :: 0 <= i < end ==> !Speaks(prompt[i], role)
  }

  /** To speak is to be of the role and to say something: a user's or an assistant's text with more than white space. */
  lemma SpeaksExactly(message: Message, role: WorkingMemory.Role)
    ensures Speaks(message, role) <==>
            && message.role == role && (role == WorkingMemory.User || role == WorkingMemory.Assistant)
            && !WorkingMemory.Blank(WorkingMemory.TextOf(message.parts))
    ensures Said(message).Some? ==>
              Said(message).value != [] && WorkingMemory.TrimsTo(WorkingMemory.TextOf(message.parts), Said(message).value)
  {
    WorkingMemory.TakenOne(message);
    if WorkingMemory.NormalizeOne(message) != [] {
      TrimmedSpeaks(WorkingMemory.TextOf(message.parts), WorkingMemory.NormalizeOne(message)[0].text);
    }
  }

  lemma TrimmedSpeaks(text: Text, trimmed: Text)
    requires WorkingMemory.TrimsTo(text, trimmed) && trimmed != []
    ensures !WorkingMemory.Blank(text)
  {
    var i: nat, j: nat :| WorkingMemory.TrimsAt(text, i, j) && trimmed == text[i..j];
    assert text[i] in text;
  }

  datatype Exchange = Exchange(user: Text, assistant: Text)

  method LastBefore(prompt: seq<Message>, role: WorkingMemory.Role, end: nat) returns (at: Option<nat>)
    requires end <= |prompt|
    ensures at.Some? ==> LastSpeaks(prompt, role, end, at.value)
    ensures at.None? ==> Silent(prompt, role, end)
  {
    var index: int := end - 1;
    while index >= 0
      invariant -1 <= index < end
      invariant forall i :: index < i < end ==> !Speaks(prompt[i], role)
      decreases index
    {
      if Speaks(prompt[index], role) {
        return Some(index);
      }
      index := index - 1;
    }
    at := None;
  }

  /** The last thing the assistant said and the last thing the user said before it. */
  method FinalExchange(prompt: seq<Message>) returns (exchange: Option<Exchange>)
    ensures exchange.Some? <==>
              exists a, u :: 0 <= u < a < |prompt| && LastSpeaks(prompt, WorkingMemory.Assistant, |prompt|, a)
                             && LastSpeaks(prompt, WorkingMemory.User, a, u)
    ensures forall a, u :: && 0 <= u < a < |prompt| && LastSpeaks(prompt, WorkingMemory.Assistant, |prompt|, a)
                           && LastSpeaks(prompt, WorkingMemory.User, a, u) ==>
              exchange == Some(Exchange(Said(prompt[u]).value, Said(prompt[a]).value))
  {
    var assistant := LastBefore(prompt, WorkingMemory.Assistant, |prompt|);
    if assistant.None? {
      return None;
    }
    var user := LastBefore(prompt, WorkingMemory.User, assistant.value);
    if user.None? {
      return None;
    }
    exchange := Some(Exchange(Said(prompt[user.value]).value, Said(prompt[assistant.value]).value));
  }

  // ----- Remember -----

  /** One request to remember: a fresh id, or an entry and the version it supersedes. */
  datatype Request = Request(key: Key, entryId: Option<Text>, supersedes: Option<int>)

  datatype RememberError = Unpaired | NoSuchVersion

  function IdOf(request: Request, freshId: Text): Text {
    request.entryId.GetOr(freshId)
  }

  /** The document a remember appends after reading `history` for its id. */
  function NextDocument(request: Request, freshId: Text, history: seq<Document>, text: Text, appliedAt: Text,
                        embedding: seq<Component>): Result<Document, RememberError> {
    if request.entryId.Some? != request.supersedes.Some? then Err(Unpaired)
    else if request.supersedes.Some? && !HasVersion(history, request.supersedes.value) then Err(NoSuchVersion)
    else
      var latest := if history == [] then 0 else history[|history| - 1].version;
      Ok(Document(IdOf(request, freshId), request.key, text, latest + 1, request.supersedes, appliedAt, embedding))
  }

  /** At step `i` of the run a remember that had read `history` for its id appends its document. */
  ghost predicate CommitsAt(run: seq<Op>, i: nat, request: Request, freshId: Text, history: seq<Document>)
    requires i < |run|
  {
    exists text, appliedAt, embedding ::
      && NextDocument(request, freshId, history, text, appliedAt, embedding).Ok?
      && run[i] == Upsert([NextDocument(request, freshId, history, text, appliedAt, embedding).value])
      && Outcome(After(run[..i]), run[i]).Ok?
  }

  /** What a read of an entry's history sees. */
  ghost function HistoryOf(state: State, id: Text): seq<Document> {
    match EntrySlot(state, id)
    case None => []
    case Some(slot) => HistoryAt(state, slot)
  }

  lemma OneAppended(state: State, document: Document)
    requires Valid(state) && Outcome(state, Upsert([document])).Ok?
    ensures Append(state, document).Ok?
    ensures Next(state, Upsert([document])) == Added(state, document)
    ensures document.version == |HistoryAt(state, SlotOf(document))| + 1
  {
    AppendNumbered(state, document);
    var rest := [document][1..];
    assert rest == [] && AppendAll(Added(state, document), rest) == Ok(Added(state, document));
    assert AppendAll(state, [document]) == AppendAll(Added(state, document), rest);
  }

  /**
   * What a remember makes of an entry as it reads it: it needs an entry and a version together or neither, the version
   * must exist, and the document is numbered after the last.
   */
  lemma {:induction false} MadeExactly(s: State, request: Request, freshId: Text, text: Text, appliedAt: Text, embedding: seq<Component>)
    requires Valid(s)
    ensures var id := if request.entryId.Some? then request.entryId.value else freshId;
            var history := HistoryOf(s, id);
            NextDocument(request, freshId, history, text, appliedAt, embedding) ==
            if request.entryId.Some? != request.supersedes.Some? then Err(Unpaired)
            else if request.supersedes.Some? && !(1 <= request.supersedes.value <= |history|) then Err(NoSuchVersion)
            else Ok(Document(id, request.key, text, |history| + 1, request.supersedes, appliedAt, embedding))
  {
    var id := if request.entryId.Some? then request.entryId.value else freshId;
    var history := HistoryOf(s, id);
    HistoryGood(s, id);
    if history != [] {
      assert history[|history| - 1].version == |history|;
      if request.supersedes.Some? {
        VersionIs(EntrySlot(s, id).value, history, request.supersedes.value);
      }
    }
  }

  /** A document numbered on from its entry's history, superseding one of its versions or beginning it. */
  ghost predicate FollowsOn(s: State, document: Document) {
    var history := HistoryOf(s, document.id);
    && document.version == |history| + 1 && !Unusable(document.embedding)
    && (document.supersedes.Some? ==> 1 <= document.supersedes.value <= |history|)
  }

  /**
   * Appended undisturbed, such a document is refused exactly if its id is another key's, or if its entry exists and
   * the version superseded is not the active one.
   */
  lemma {:induction false} CommitExactly(s: State, document: Document)
    requires Valid(s) && FollowsOn(s, document)
    ensures var slot := Slot(document.key, document.id);
            FailureOf(Outcome(s, Upsert([document]))) ==
            if Taken(s, document) then Some(OtherKey)
            else if slot in s.histories && !(slot in s.active && document.supersedes == Some(s.active[slot].version))
            then Some(NotActive)
            else None
  {
    OneOutcome(s, document);
    AppendMeaning(s, document);
    NumberedOn(s, document, HistoryOf(s, document.id));
    if Append(s, document).Ok? {
      assert forall e :: !RefusedFor(s, document, e);
      assert !RefusedFor(s, document, OtherKey) && !RefusedFor(s, document, NotActive);
    }
  }

  lemma HistoryGood(s: State, id: Text)
    requires Valid(s)
    ensures var slot, history := EntrySlot(s, id), HistoryOf(s, id);
            if slot.None? then history == []
            else slot.value in s.histories && slot.value.id == id && history == s.histories[slot.value]
                 && GoodHistory(slot.value, history)
  {
    EntryMeaning(s, id);
  }

  lemma OneOutcome(s: State, document: Document)
    requires Valid(s) && !Unusable(document.embedding)
    ensures FailureOf(Outcome(s, Upsert([document]))) == FailureOf(Append(s, document))
  {
    assert FiniteVector(document.embedding) && AllFinite([document]);
    var rest := [document][1..];
    assert rest == [];
    if Append(s, document).Ok? {
      assert AppendAll(Append(s, document).value, rest) == Append(s, document);
    }
    assert AppendAll(s, [document]) == Append(s, document);
  }

  /** What may be said against a document that is numbered on from its own entry's history. */
  lemma NumberedOn(s: State, document: Document, history: seq<Document>)
    requires Valid(s) && history == HistoryOf(s, document.id) && document.version == |history| + 1
    requires history == [] ==> document.supersedes.None?
    ensures var slot := SlotOf(document);
            forall e :: RefusedFor(s, document, e) <==>
              || (e == OtherKey && Taken(s, document))
              || (e == NotActive && !Taken(s, document) && slot in s.histories
                  && !(slot in s.active && document.supersedes == Some(s.active[slot].version)))
  {
    EntryMeaning(s, document.id);
    HistoryGood(s, document.id);
    if SlotOf(document) in s.histories {
      assert EntryAt(s, document.id, SlotOf(document));
    } else if !Taken(s, document) {
      forall slot
        ensures !EntryAt(s, document.id, slot)
      {
        assert slot == Slot(slot.key, slot.id);
      }
    }
  }

  /** Of all remembers that read the same history of an entry, at most one commits. */
  lemma AtMostOneCommit(run: seq<Op>, i: nat, j: nat, a: Request, b: Request, freshA: Text, freshB: Text,
                        history: seq<Document>)
    requires i < |run| && j < |run|
    requires IdOf(a, freshA) == IdOf(b, freshB)
    requires CommitsAt(run, i, a, freshA, history) && CommitsAt(run, j, b, freshB, history)
    ensures i == j
  {
    var first, second := run[i].documents[0], run[j].documents[0];
    assert run[i] == Upsert([first]) && run[j] == Upsert([second]);
    assert first.id == second.id && first.version == second.version;
    if i < j {
      VersionsRise(run, i, j, first, second);
    } else if j < i {
      VersionsRise(run, j, i, second, first);
    }
  }

  /** Of two documents appended to one entry, the later one has the higher version. */
  lemma VersionsRise(run: seq<Op>, i: nat, j: nat, first: Document, second: Document)
    requires i < j < |run| && run[i] == Upsert([first]) && run[j] == Upsert([second])
    requires first.id == second.id
    requires Outcome(After(run[..i]), run[i]).Ok? && Outcome(After(run[..j]), run[j]).Ok?
    ensures first.version < second.version
  {
    LongerAfter(run, i, j, first);
    RunValid(run[..j]);
    OneAppended(After(run[..j]), second);
    SoleOwner(After(run[..j]), second, SlotOf(first));
  }

  /** Once a document is appended, its history stays at least as long as its version. */
  lemma LongerAfter(run: seq<Op>, i: nat, j: nat, document: Document)
    requires i < j <= |run| && run[i] == Upsert([document]) && Outcome(After(run[..i]), run[i]).Ok?
    ensures SlotOf(document) in After(run[..j]).histories
    ensures |HistoryAt(After(run[..j]), SlotOf(document))| >= document.version
  {
    RunValid(run[..i]);
    OneAppended(After(run[..i]), document);
    assert run[..j][..i + 1] == run[..i + 1] && run[..i + 1][..i] == run[..i];
    assert After(run[..i + 1]) == Added(After(run[..i]), document);
    RunExtends(run[..j], i + 1);
    var slot := SlotOf(document);
    assert After(run[..i + 1]).histories[slot] <= After(run[..j]).histories[slot];
  }

  /**
   * A commit to an existing entry supersedes the version active at that moment and becomes the active one;
   * the history it read was the whole history.
   */
  lemma CommitSupersedesActive(run: seq<Op>, i: nat, request: Request, freshId: Text, history: seq<Document>, at: nat)
    requires at <= i < |run| && CommitsAt(run, i, request, freshId, history)
    requires history == HistoryOf(After(run[..at]), IdOf(request, freshId)) && history != []
    ensures var s, t, slot := After(run[..i]), Next(After(run[..i]), run[i]), Slot(request.key, IdOf(request, freshId));
            && slot in s.active && request.supersedes == Some(s.active[slot].version)
            && s.histories[slot] == history
            && run[i].Upsert? && |run[i].documents| == 1
            && ActiveAt(t, slot) == Some(run[i].documents[0])
            && HistoryAt(t, slot) == history + run[i].documents
  {
    var document, slot := run[i].documents[0], Slot(request.key, IdOf(request, freshId));
    var early, s := After(run[..at]), After(run[..i]);
    assert run[i] == Upsert([document]) && SlotOf(document) == slot;
    RunValid(run[..at]);
    RunValid(run[..i]);
    OneAppended(s, document);
    AppendNumbered(s, document);
    var owner := EntrySlot(early, slot.id).value;
    SlotUnique(early, slot.id, owner);
    assert run[..i][..at] == run[..at];
    RunExtends(run[..i], at);
    SoleOwner(s, document, owner);
    assert GoodHistory(slot, s.histories[slot]) && GoodHistory(slot, history);
    assert history <= s.histories[slot] && |s.histories[slot]| == |history|;
  }
}
