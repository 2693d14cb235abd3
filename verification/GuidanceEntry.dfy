/** Guidance entries, the edits that change them, and the proposals that carry edits. */
module GuidanceEntry {
  import opened Wrappers
  import opened Texts

  datatype Kind = Prompt | Memory | Skill | Subagent

  /** Every kind in canonical order. */
  const KINDS: seq<Kind> := [Prompt, Memory, Skill, Subagent]

  function KindName(kind: Kind): Text {
    match kind
    case Prompt => [112, 114, 111, 109, 112, 116]               // prompt
    case Memory => [109, 101, 109, 111, 114, 121]               // memory
    case Skill => [115, 107, 105, 108, 108]                     // skill
    case Subagent => [115, 117, 98, 97, 103, 101, 110, 116]     // subagent
  }

  /** A JSON record, stood for by its canonical text. */
  type Json = Text

  datatype EntryValue = EntryValue(
    title: Text, content: Text,
    path: Option<Text>, reference: Option<Text>,
    arguments: Option<Json>, metadata: Option<Json>, source: Option<Text>)

  datatype Revision = Revision(createdAt: Text, updatedAt: Text, version: int)

  datatype Entry = Entry(
    id: Text, kind: Kind, scope: Text,
    title: Text, content: Text,
    path: Option<Text>, reference: Option<Text>,
    arguments: Option<Json>, metadata: Option<Json>, source: Option<Text>,
    createdAt: Text, updatedAt: Text, version: int)

  /** The entry spread from an identity, an authored value and a revision. */
  function Assemble(id: Text, kind: Kind, scope: Text, v: EntryValue, r: Revision): Entry {
    Entry(id, kind, scope, v.title, v.content, v.path, v.reference, v.arguments, v.metadata, v.source,
          r.createdAt, r.updatedAt, r.version)
  }

  function ValueOf(entry: Entry): EntryValue
  {
    EntryValue(entry.title, entry.content, entry.path, entry.reference, entry.arguments, entry.metadata,
               entry.source)
  }

  function RevisionOf(entry: Entry): (r: Revision)
    ensures entry == Assemble(entry.id, entry.kind, entry.scope, ValueOf(entry), r)
  {
    Revision(entry.createdAt, entry.updatedAt, entry.version)
  }

  /** The projection as the source builds it, one optional field at a time. */
  method ProjectValue(entry: Entry) returns (projected: EntryValue)
    ensures projected == ValueOf(entry)
    ensures entry == Assemble(entry.id, entry.kind, entry.scope, projected, RevisionOf(entry))
  {
    projected := EntryValue(entry.title, entry.content, None, None, None, None, None);
    if entry.path.Some? { projected := projected.(path := entry.path); }
    if entry.reference.Some? { projected := projected.(reference := entry.reference); }
    if entry.arguments.Some? { projected := projected.(arguments := entry.arguments); }
    if entry.metadata.Some? { projected := projected.(metadata := entry.metadata); }
    if entry.source.Some? { projected := projected.(source := entry.source); }
  }

  datatype Edit =
    | Create(kind: Kind, id: Text, value: EntryValue, pinned: Option<Revision>)
    | Update(kind: Kind, id: Text, value: EntryValue, baseVersion: Option<int>, pinned: Option<Revision>)
    | Delete(kind: Kind, id: Text, baseVersion: Option<int>)

  /** The exact identity of one edit target within a state. */
  function EditKey(edit: Edit): Text {
    KindName(edit.kind) + [SLASH] + edit.id
  }

  predicate SameTarget(a: Edit, b: Edit) {
    a.kind == b.kind && a.id == b.id
  }

  /** Keys tell targets apart: no kind's name plus a slash is a prefix of another's. */
  lemma EditKeyInjective(a: Edit, b: Edit)
    ensures EditKey(a) == EditKey(b) <==> SameTarget(a, b)
  {
    var ka, kb := EditKey(a), EditKey(b);
    var na, nb := |KindName(a.kind)| + 1, |KindName(b.kind)| + 1;
    assert ka[na..] == a.id && kb[nb..] == b.id;
    assert ka[0] == KindName(a.kind)[0] && kb[0] == KindName(b.kind)[0];
    assert ka[1] == KindName(a.kind)[1] && kb[1] == KindName(b.kind)[1];
  }

  /** The content-addressed identity of a state. A free constructor: the digest is taken to be injective. */
  datatype SnapshotId = SnapshotId(scope: Text, entries: Groups)

  /** Entries grouped by kind. */
  datatype Groups = Groups(prompt: seq<Entry>, memory: seq<Entry>, skill: seq<Entry>, subagent: seq<Entry>) {
    function Of(kind: Kind): seq<Entry> {
      match kind
      case Prompt => prompt
      case Memory => memory
      case Skill => skill
      case Subagent => subagent
    }

    function With(kind: Kind, entries: seq<Entry>): (groups: Groups)
      ensures groups.Of(kind) == entries
      ensures forall other :: other != kind ==> groups.Of(other) == this.Of(other)
    {
      match kind
      case Prompt => this.(prompt := entries)
      case Memory => this.(memory := entries)
      case Skill => this.(skill := entries)
      case Subagent => this.(subagent := entries)
    }
  }

  datatype AppliedEdit = AppliedEdit(edit: Edit, before: Option<Entry>, after: Option<Entry>)

  datatype Event = Event(
    proposal: Text, at: Text, scope: Text, rationale: Option<Text>, source: Option<Text>,
    before: SnapshotId, after: SnapshotId, applied: seq<AppliedEdit>)

  datatype Proposal = Proposal(
    id: Text, at: Text, rationale: Option<Text>, source: Option<Text>,
    baseSnapshot: Option<SnapshotId>, rollbackOf: Option<Text>, edits: seq<Edit>)
}
