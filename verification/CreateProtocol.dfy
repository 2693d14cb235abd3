/**
 * Concurrent create-once writes to a local directory: make the parents, write and sync a temporary file,
 * hard-link it to the object's name, clean up. A run is any interleaving of the writers' single steps;
 * a writer may stop anywhere, fail anywhere, or be answered with a timeout while its steps go on.
 */
module CreateProtocol {
  import opened Wrappers
  import opened Texts
  import opened Bytes
  import opened SegmentCodec
  import opened ObjectKeys

  datatype Node = Dir | File(inode: nat)

  type Nodes = map<Path, Node>

  datatype Failure = InvalidResponse | Unavailable | Timeout

  datatype Reply = Created | Conflict | Failed(why: Failure)

  datatype Phase =
    | MakingDirs
    | Opening
    | Writing(done: nat)
    | Linking
    | Resolving
    | Cleaning(outcome: Reply)
    | Replied(reply: Reply)

  type Target = path: Path | path != [] witness [[]]

  datatype Writer = Writer(
    key: Key, uuid: Text, target: Target, temp: Target, bytes: seq<Byte>,
    phase: Phase, inode: Option<nat>, timedOut: bool)

  /**
   * The file system and the writers at work on it. Nodes stand at the paths the volume files them under, each with
   * the spelling of its last name it was created with; inodes are numbered in order of creation.
   */
  datatype System = System(
    volume: Volume, nodes: Nodes, spelled: map<Path, Text>, made: nat, contents: map<nat, seq<Byte>>,
    writers: map<nat, Writer>)

  function Fresh(volume: Volume): System {
    System(volume, map[], map[], 0, map[], map[])
  }

  datatype Step =
    | Start(w: nat, key: Key, bytes: seq<Byte>, uuid: Text)
    | MakeDir(w: nat)
    | Open(w: nat)
    | Write(w: nat, count: nat)
    | Sync(w: nat)
    | Link(w: nat)
    | Resolve(w: nat)
    | Clean(w: nat)
    | Break(w: nat)
    | TimeOut(w: nat)

  // ----- Paths -----

  const TMP: Text := [0x2E, 0x74, 0x6D, 0x70, 0x2D] // .tmp-

  function ParentOf(target: Target): Path {
    target[..|target| - 1]
  }

  /** The temporary file beside a target. */
  function TempOf(volume: Volume, target: Target, uuid: Text): Target {
    ParentOf(target) + [Filed(volume, TMP + uuid)]
  }

  /** The last name starts with a dot, as every temporary's does. */
  predicate Temporary(path: Path) {
    path != [] && path[|path| - 1] != [] && path[|path| - 1][0] == DOT
  }

  predicate IsDir(nodes: Nodes, path: Path) {
    path == [] || (path in nodes && nodes[path].Dir?)
  }

  predicate IsFile(nodes: Nodes, path: Path) {
    path in nodes && nodes[path].File?
  }

  /** The shortest proper ancestor (or the parent itself) that is no directory, if there is one. */
  function FirstGap(nodes: Nodes, parent: Path): (gap: Option<Path>)
    ensures gap.None? ==> IsDir(nodes, parent)
    ensures gap.Some? ==> gap.value != [] && gap.value <= parent && !IsDir(nodes, gap.value)
                          && IsDir(nodes, gap.value[..|gap.value| - 1])
    decreases |parent|
  {
    if parent == [] then None
    else
      var above := FirstGap(nodes, parent[..|parent| - 1]);
      if above.Some? then above
      else if IsDir(nodes, parent) then None
      else Some(parent)
  }

  predicate NameLimits(path: Path) {
    forall i :: 0 <= i < |path| ==> |path[i]| <= 255
  }

  // ----- Steps -----

  /** A node comes into being at a path, spelled as its maker spells it. */
  function Place(s: System, path: Path, node: Node, spelling: Text): System {
    s.(nodes := s.nodes[path := node], spelled := s.spelled[path := spelling])
  }

  /** How a writer of this key spells the name `depth` directories below the root; no key goes deeper. */
  function SpellingAt(key: Key, depth: nat): Text {
    if depth < |Split(key)| then Encode(Split(key)[depth]) else []
  }

  function Put(s: System, w: nat, writer: Writer): System {
    s.(writers := s.writers[w := writer])
  }

  function Fail(s: System, w: nat, why: Failure): System
    requires w in s.writers
  {
    Put(s, w, s.writers[w].(phase := Replied(Failed(why))))
  }

  function NewWriter(volume: Volume, key: Key, bytes: seq<Byte>, uuid: Text): Writer {
    var target := PathOf(volume, key);
    var ready := CheckKey(key) && NameLimits(target);
    Writer(key, uuid, target, TempOf(volume, target, uuid), bytes,
           if ready then MakingDirs else Replied(Failed(InvalidResponse)), None, false)
  }

  function Starting(s: System, step: Step): System
    requires step.Start?
  {
    if step.w in s.writers then s
    else
      Put(s, step.w, NewWriter(s.volume, step.key, step.bytes, step.uuid))
  }

  /** One step of the recursive directory creation: the first missing ancestor, or on to the next phase. */
  function MakingDir(s: System, w: nat): System
    requires w in s.writers
  {
    var gap := FirstGap(s.nodes, ParentOf(s.writers[w].target));
    if gap.None? then Put(s, w, s.writers[w].(phase := Opening))
    else if gap.value in s.nodes then Fail(s, w, InvalidResponse)
    else Place(s, gap.value, Dir, SpellingAt(s.writers[w].key, |gap.value| - 1))
  }

  /** Exclusive creation of the temporary file. */
  function OpeningTemp(s: System, w: nat): System
    requires w in s.writers
  {
    var writer := s.writers[w];
    if !IsDir(s.nodes, ParentOf(writer.target)) then Fail(s, w, Unavailable)
    else if writer.temp in s.nodes then Fail(s, w, InvalidResponse)
    else
      Put(Place(s, writer.temp, File(s.made), TMP + writer.uuid).(made := s.made + 1, contents := s.contents[s.made := []]),
          w, writer.(phase := Writing(0), inode := Some(s.made)))
  }

  function WritingSome(s: System, w: nat, count: nat): System
    requires w in s.writers && s.writers[w].phase.Writing?
  {
    var writer := s.writers[w];
    var done := writer.phase.done + count;
    var upto := if done > |writer.bytes| then |writer.bytes| else done;
    match writer.inode
    case None => s
    case Some(i) => Put(s.(contents := s.contents[i := writer.bytes[..upto]]), w, writer.(phase := Writing(upto)))
  }

  function Syncing(s: System, w: nat): System
    requires w in s.writers && s.writers[w].phase.Writing?
  {
    var writer := s.writers[w];
    if writer.phase.done < |writer.bytes| then s else Put(s, w, writer.(phase := Linking))
  }

  /** The hard link, exclusive like the temporary's creation. */
  function LinkingTarget(s: System, w: nat): System
    requires w in s.writers
  {
    var writer := s.writers[w];
    if !IsFile(s.nodes, writer.temp) || !IsDir(s.nodes, ParentOf(writer.target)) then
      Put(s, w, writer.(phase := Cleaning(Failed(Unavailable))))
    else if writer.target in s.nodes then Put(s, w, writer.(phase := Resolving))
    else
      Put(Place(s, writer.target, s.nodes[writer.temp], SpellingAt(writer.key, |writer.target| - 1)), w,
          writer.(phase := Cleaning(Created)))
  }

  /** A conflict is reported only after a file was seen at the object's name. */
  function ResolvingExisting(s: System, w: nat): System
    requires w in s.writers
  {
    var writer := s.writers[w];
    var outcome :=
      if writer.target !in s.nodes then Failed(Unavailable)
      else if s.nodes[writer.target].File? then Conflict
      else Failed(InvalidResponse);
    Put(s, w, writer.(phase := Cleaning(outcome)))
  }

  /** Removal of whatever stands at the temporary's name, then the answer. */
  function CleaningUp(s: System, w: nat): System
    requires w in s.writers && s.writers[w].phase.Cleaning?
  {
    var writer := s.writers[w];
    Put(s.(nodes := s.nodes - {writer.temp}, spelled := s.spelled - {writer.temp}), w, writer.(phase := Replied(writer.phase.outcome)))
  }

  /** A writer that fails before it has an outcome: its temporary is cleaned up only once it got to linking. */
  function Broken(writer: Writer): Writer {
    writer.(phase := if writer.phase.Linking? || writer.phase.Resolving? then Cleaning(Failed(Unavailable))
                     else Replied(Failed(Unavailable)))
  }

  /** A step of one writer; a step that is not the writer's turn does nothing. */
  function Next(s: System, step: Step): System {
    if step.Start? then Starting(s, step)
    else if step.w !in s.writers then s
    else
      var w, writer := step.w, s.writers[step.w];
      match step
      case MakeDir(_) => if writer.phase.MakingDirs? then MakingDir(s, w) else s
      case Open(_) => if writer.phase.Opening? then OpeningTemp(s, w) else s
      case Write(_, count) => if writer.phase.Writing? then WritingSome(s, w, count) else s
      case Sync(_) => if writer.phase.Writing? then Syncing(s, w) else s
      case Link(_) => if writer.phase.Linking? then LinkingTarget(s, w) else s
      case Resolve(_) => if writer.phase.Resolving? then ResolvingExisting(s, w) else s
      case Clean(_) => if writer.phase.Cleaning? then CleaningUp(s, w) else s
      case Break(_) => if Outcome(writer).Some? then s else Put(s, w, Broken(writer))
      case TimeOut(_) => if writer.phase.Replied? then s else Put(s, w, writer.(timedOut := true))
  }

  /** What the caller of a create was told. */
  function Answer(writer: Writer): Option<Reply> {
    if writer.timedOut then Some(Failed(Timeout))
    else if writer.phase.Replied? then Some(writer.phase.reply)
    else None
  }

  /** The outcome a writer has reached, told or not. */
  function Outcome(writer: Writer): Option<Reply> {
    match writer.phase
    case Cleaning(outcome) => Some(outcome)
    case Replied(reply) => Some(reply)
    case _ => None
  }

  predicate Holds(writer: Writer) {
    writer.phase.Writing? || writer.phase.Linking? || writer.phase.Resolving? || writer.phase.Cleaning?
  }

  // ----- The invariant -----

  /** Everything stored stands in directories. */
  ghost predicate Tree(nodes: Nodes) {
    forall path :: path in nodes ==> path != [] && IsDir(nodes, path[..|path| - 1])
  }

  ghost predicate InodesNumbered(s: System) {
    forall i :: i in s.contents ==> i < s.made
  }

  /** Temporaries and targets never meet; both stand in the same directory. */
  ghost predicate Placed(writer: Writer) {
    && Temporary(writer.temp) && ParentOf(writer.temp) == ParentOf(writer.target)
    && (!writer.phase.Replied? || Outcome(writer) == Some(Created) ==> !Temporary(writer.target))
  }

  /** The writer's own file, and how much of it is written. */
  ghost predicate OwnFile(s: System, writer: Writer) {
    && (writer.inode.Some? ==> writer.inode.value in s.contents)
    && (Holds(writer) || Outcome(writer) == Some(Created) ==> writer.inode.Some?)
    && (Holds(writer) ==> writer.temp in s.nodes && s.nodes[writer.temp] == File(writer.inode.value))
    && (writer.phase.Writing? ==>
          && writer.phase.done <= |writer.bytes|
          && s.contents[writer.inode.value] == writer.bytes[..writer.phase.done])
    && ((Holds(writer) && !writer.phase.Writing?) || Outcome(writer) == Some(Created) ==>
          s.contents[writer.inode.value] == writer.bytes)
  }

  /** The writer's directory once it is made, and the object at its target once it has found or made it. */
  ghost predicate OwnObject(s: System, writer: Writer) {
    && (writer.phase.Opening? || Holds(writer) ==> IsDir(s.nodes, ParentOf(writer.target)))
    && (writer.phase.Resolving? ==> writer.target in s.nodes)
    && (Outcome(writer) == Some(Created) ==>
          writer.inode.Some? && writer.target in s.nodes && s.nodes[writer.target] == File(writer.inode.value))
    && (Outcome(writer) == Some(Conflict) ==> IsFile(s.nodes, writer.target) && !Temporary(writer.target))
  }

  ghost predicate WriterSound(s: System, writer: Writer) {
    Placed(writer) && OwnFile(s, writer) && OwnObject(s, writer)
  }

  ghost predicate AllSound(s: System) {
    forall w :: w in s.writers ==> WriterSound(s, s.writers[w])
  }

  /** No two writers write one inode. */
  ghost predicate InodesApart(s: System) {
    forall v, w :: v in s.writers && w in s.writers && v != w && s.writers[v].inode.Some? ==>
      s.writers[v].inode != s.writers[w].inode
  }

  ghost predicate LinkedBy(s: System, path: Path, w: nat) {
    w in s.writers && Outcome(s.writers[w]) == Some(Created) && s.writers[w].target == path
  }

  /** Every stored object is the work of a writer that linked it. */
  ghost predicate ObjectsLinked(s: System) {
    forall path :: IsFile(s.nodes, path) && !Temporary(path) ==> exists w :: LinkedBy(s, path, w)
  }

  ghost predicate Valid(s: System) {
    Tree(s.nodes) && InodesNumbered(s) && InodesApart(s) && ObjectsLinked(s) && AllSound(s)
  }

  // ----- Every step keeps it -----

  /** What `writer` relies on is the same in `t`. */
  ghost predicate Spared(s: System, t: System, writer: Writer) {
    && (writer.inode.Some? && writer.inode.value in s.contents ==>
          writer.inode.value in t.contents && t.contents[writer.inode.value] == s.contents[writer.inode.value])
    && (Holds(writer) && writer.temp in s.nodes ==>
          writer.temp in t.nodes && t.nodes[writer.temp] == s.nodes[writer.temp])
    && (IsDir(s.nodes, ParentOf(writer.target)) ==> IsDir(t.nodes, ParentOf(writer.target)))
    && (!Temporary(writer.target) && writer.target in s.nodes ==>
          writer.target in t.nodes && t.nodes[writer.target] == s.nodes[writer.target])
  }

  lemma SparedSound(s: System, t: System, writer: Writer)
    requires WriterSound(s, writer) && Spared(s, t, writer)
    ensures WriterSound(t, writer)
  {
  }

  /** `t` differs from `s` in writer `w` and in things no other writer relies on. */
  ghost predicate OnlyMoves(s: System, t: System, w: nat) {
    && w in t.writers && t.writers.Keys == s.writers.Keys + {w}
    && (forall v :: v in s.writers && v != w ==> t.writers[v] == s.writers[v] && Spared(s, t, s.writers[v]))
    && (w in s.writers ==> t.writers[w].target == s.writers[w].target)
    && (w in s.writers && Outcome(s.writers[w]) == Some(Created) ==> Outcome(t.writers[w]) == Some(Created))
  }

  ghost predicate KeepsInode(s: System, t: System, w: nat) {
    w in t.writers
    && (t.writers[w].inode.None? || (w in s.writers && t.writers[w].inode == s.writers[w].inode)
        || t.writers[w].inode == Some(s.made))
  }

  ghost predicate NewObjects(s: System, t: System, w: nat) {
    forall path :: IsFile(t.nodes, path) && !Temporary(path) ==> IsFile(s.nodes, path) || LinkedBy(t, path, w)
  }

  lemma SoundAfter(s: System, t: System, w: nat)
    requires AllSound(s) && OnlyMoves(s, t, w) && WriterSound(t, t.writers[w])
    ensures AllSound(t)
  {
    forall v | v in t.writers && v != w
      ensures WriterSound(t, t.writers[v])
    {
      SparedSound(s, t, s.writers[v]);
    }
  }

  lemma ApartAfter(s: System, t: System, w: nat)
    requires AllSound(s) && InodesNumbered(s) && InodesApart(s) && OnlyMoves(s, t, w) && KeepsInode(s, t, w)
    ensures InodesApart(t)
  {
    forall v | v in s.writers && v != w
      ensures t.writers[v].inode.Some? ==> t.writers[v].inode != t.writers[w].inode
      ensures t.writers[w].inode.Some? ==> t.writers[v].inode != t.writers[w].inode
    {
      assert WriterSound(s, s.writers[v]);
      if w in s.writers && s.writers[w].inode.Some? {
        assert s.writers[w].inode != s.writers[v].inode;
      }
    }
    forall v, u | v in t.writers && u in t.writers && v != u && t.writers[v].inode.Some?
      ensures t.writers[v].inode != t.writers[u].inode
    {
      if v != w && u != w {
        assert s.writers[v].inode != s.writers[u].inode;
      }
    }
  }

  lemma LinkedAfter(s: System, t: System, w: nat)
    requires ObjectsLinked(s) && OnlyMoves(s, t, w) && NewObjects(s, t, w)
    ensures ObjectsLinked(t)
  {
    forall path | IsFile(t.nodes, path) && !Temporary(path)
      ensures exists v :: LinkedBy(t, path, v)
    {
      if IsFile(s.nodes, path) {
        var v :| LinkedBy(s, path, v);
        assert LinkedBy(t, path, v);
      }
    }
  }

  lemma {:induction false} ValidAfter(s: System, t: System, w: nat)
    requires Valid(s) && Tree(t.nodes) && InodesNumbered(t)
    requires OnlyMoves(s, t, w) && WriterSound(t, t.writers[w]) && KeepsInode(s, t, w) && NewObjects(s, t, w)
    ensures Valid(t)
  {
    SoundAfter(s, t, w);
    ApartAfter(s, t, w);
    LinkedAfter(s, t, w);
  }

  /** A step that changes one writer's phase and nothing else. */
  lemma {:induction false} PhaseKeeps(s: System, w: nat, writer: Writer)
    requires Valid(s) && w in s.writers && WriterSound(s, writer)
    requires writer.inode == s.writers[w].inode && writer.target == s.writers[w].target
    requires Outcome(s.writers[w]) == Some(Created) ==> Outcome(writer) == Some(Created)
    ensures Valid(Put(s, w, writer))
  {
    ValidAfter(s, Put(s, w, writer), w);
  }

  lemma TempPlaced(volume: Volume, target: Target, uuid: Text)
    ensures Temporary(TempOf(volume, target, uuid)) && ParentOf(TempOf(volume, target, uuid)) == ParentOf(target)
  {
    var name := Filed(volume, TMP + uuid);
    assert (TMP + uuid)[0] == DOT;
    assert name != [] && name[0] == DOT;
  }

  lemma NotTemporary(path: Path)
    requires !Hidden(path)
    ensures !Temporary(path)
  {
  }

  lemma {:induction false} NewWriterKeeps(s: System, w: nat, writer: Writer)
    requires Valid(s) && w !in s.writers && Placed(writer) && writer.inode.None?
    requires writer.phase.MakingDirs? || (writer.phase.Replied? && writer.phase.reply.Failed?)
    ensures Valid(Put(s, w, writer))
  {
    ValidAfter(s, Put(s, w, writer), w);
  }

  lemma StartKeeps(s: System, step: Step)
    requires Valid(s) && step.Start?
    ensures Valid(Starting(s, step))
  {
    if step.w !in s.writers {
      NewWriterPlaced(s.volume, step.key, step.bytes, step.uuid);
      NewWriterKeeps(s, step.w, NewWriter(s.volume, step.key, step.bytes, step.uuid));
    }
  }

  lemma NewWriterPlaced(volume: Volume, key: Key, bytes: seq<Byte>, uuid: Text)
    ensures var writer := NewWriter(volume, key, bytes, uuid);
            && Placed(writer) && writer.inode.None?
            && (writer.phase.MakingDirs? || (writer.phase.Replied? && writer.phase.reply.Failed?))
  {
    TempPlaced(volume, PathOf(volume, key), uuid);
    if CheckKey(key) {
      KeyPathsShown(volume, key);
      NotTemporary(PathOf(volume, key));
    }
  }

  lemma TreeGrows(nodes: Nodes, path: Path, node: Node)
    requires Tree(nodes) && path != [] && path !in nodes && IsDir(nodes, path[..|path| - 1])
    ensures Tree(nodes[path := node])
  {
  }

  lemma {:induction false} DirKeeps(s: System, w: nat, gap: Path, spelling: Text)
    requires Valid(s) && w in s.writers && gap != [] && gap !in s.nodes && IsDir(s.nodes, gap[..|gap| - 1])
    ensures Valid(Place(s, gap, Dir, spelling))
  {
    var t := Place(s, gap, Dir, spelling);
    TreeGrows(s.nodes, gap, Dir);
    DirMoves(s, w, gap, spelling);
    assert WriterSound(s, s.writers[w]);
    SparedSound(s, t, s.writers[w]);
    ValidAfter(s, t, w);
  }

  lemma DirMoves(s: System, w: nat, gap: Path, spelling: Text)
    requires w in s.writers && gap !in s.nodes
    ensures var t := Place(s, gap, Dir, spelling);
            OnlyMoves(s, t, w) && KeepsInode(s, t, w) && NewObjects(s, t, w) && Spared(s, t, s.writers[w])
  {
  }

  /** A new inode and a new name touch nothing a writer already relies on. */
  lemma OpenSpares(s: System, w: nat, writer: Writer)
    requires w in s.writers && InodesNumbered(s) && s.writers[w].temp !in s.nodes
    requires IsDir(s.nodes, ParentOf(s.writers[w].target))
    ensures Spared(s, OpeningTemp(s, w), writer)
  {
  }

  lemma OpenMoves(s: System, w: nat)
    requires w in s.writers && InodesNumbered(s) && s.writers[w].phase.Opening? && s.writers[w].temp !in s.nodes
    requires IsDir(s.nodes, ParentOf(s.writers[w].target))
    ensures OnlyMoves(s, OpeningTemp(s, w), w) && KeepsInode(s, OpeningTemp(s, w), w)
  {
    var t := OpeningTemp(s, w);
    forall v | v in s.writers && v != w
      ensures Spared(s, t, s.writers[v]) && t.writers[v] == s.writers[v]
    {
      OpenSpares(s, w, s.writers[v]);
    }
  }

  lemma OpenSound(s: System, w: nat)
    requires w in s.writers && WriterSound(s, s.writers[w])
    requires s.writers[w].phase.Opening? && s.writers[w].temp !in s.nodes && IsDir(s.nodes, ParentOf(s.writers[w].target))
    ensures var t := OpeningTemp(s, w); WriterSound(t, t.writers[w])
  {
  }

  lemma OpenRest(s: System, w: nat)
    requires Valid(s) && w in s.writers && WriterSound(s, s.writers[w]) && s.writers[w].temp !in s.nodes
    requires IsDir(s.nodes, ParentOf(s.writers[w].target))
    ensures var t := OpeningTemp(s, w);
            Tree(t.nodes) && InodesNumbered(t) && NewObjects(s, t, w)
  {
    TreeGrows(s.nodes, s.writers[w].temp, File(s.made));
  }

  lemma FailKeeps(s: System, w: nat, why: Failure)
    requires Valid(s) && w in s.writers && Outcome(s.writers[w]) == None
    ensures Valid(Fail(s, w, why))
  {
    var failed := s.writers[w].(phase := Replied(Failed(why)));
    assert WriterSound(s, s.writers[w]);
    assert WriterSound(s, failed);
    PhaseKeeps(s, w, failed);
  }

  lemma {:induction false} OpenKeeps(s: System, w: nat)
    requires Valid(s) && w in s.writers && s.writers[w].phase.Opening?
    ensures Valid(OpeningTemp(s, w))
  {
    var writer := s.writers[w];
    assert WriterSound(s, writer);
    if !IsDir(s.nodes, ParentOf(writer.target)) {
      FailKeeps(s, w, Unavailable);
    } else if writer.temp in s.nodes {
      FailKeeps(s, w, InvalidResponse);
    } else {
      OpenRest(s, w);
      OpenMoves(s, w);
      OpenSound(s, w);
      ValidAfter(s, OpeningTemp(s, w), w);
    }
  }

  lemma WriteKeeps(s: System, w: nat, count: nat)
    requires Valid(s) && w in s.writers && s.writers[w].phase.Writing?
    ensures Valid(WritingSome(s, w, count))
  {
    assert WriterSound(s, s.writers[w]);
    ValidAfter(s, WritingSome(s, w, count), w);
  }

  /** A new name for a file takes nothing away from a writer. */
  lemma LinkSpares(s: System, w: nat, writer: Writer)
    requires w in s.writers && s.writers[w].target !in s.nodes
    requires IsFile(s.nodes, s.writers[w].temp) && IsDir(s.nodes, ParentOf(s.writers[w].target))
    ensures Spared(s, LinkingTarget(s, w), writer)
  {
  }

  lemma LinkMoves(s: System, w: nat)
    requires w in s.writers && s.writers[w].phase.Linking? && s.writers[w].target !in s.nodes
    requires IsFile(s.nodes, s.writers[w].temp) && IsDir(s.nodes, ParentOf(s.writers[w].target))
    ensures OnlyMoves(s, LinkingTarget(s, w), w) && KeepsInode(s, LinkingTarget(s, w), w)
  {
    var t := LinkingTarget(s, w);
    forall v | v in s.writers && v != w
      ensures Spared(s, t, s.writers[v]) && t.writers[v] == s.writers[v]
    {
      LinkSpares(s, w, s.writers[v]);
    }
  }

  lemma LinkSound(s: System, w: nat)
    requires w in s.writers && WriterSound(s, s.writers[w]) && s.writers[w].phase.Linking?
    requires s.writers[w].target !in s.nodes
    requires IsFile(s.nodes, s.writers[w].temp) && IsDir(s.nodes, ParentOf(s.writers[w].target))
    ensures WriterSound(LinkingTarget(s, w), LinkingTarget(s, w).writers[w])
  {
  }

  lemma LinkKeeps(s: System, w: nat)
    requires Valid(s) && w in s.writers && s.writers[w].phase.Linking?
    ensures Valid(LinkingTarget(s, w))
  {
    var writer, t := s.writers[w], LinkingTarget(s, w);
    assert WriterSound(s, writer);
    if IsFile(s.nodes, writer.temp) && IsDir(s.nodes, ParentOf(writer.target)) && writer.target !in s.nodes {
      TreeGrows(s.nodes, writer.target, s.nodes[writer.temp]);
      LinkMoves(s, w);
      LinkSound(s, w);
      assert NewObjects(s, t, w);
      ValidAfter(s, t, w);
    } else {
      PhaseKeeps(s, w, t.writers[w]);
    }
  }

  lemma TreeShrinks(nodes: Nodes, path: Path)
    requires Tree(nodes) && (path in nodes ==> nodes[path].File?)
    ensures Tree(nodes - {path})
  {
  }

  /** Cleaning up removes the writer's own temporary, which nobody else relies on. */
  lemma {:induction false} CleanKeeps(s: System, w: nat)
    requires Valid(s) && w in s.writers && s.writers[w].phase.Cleaning?
    ensures Valid(CleaningUp(s, w))
  {
    var writer, t := s.writers[w], CleaningUp(s, w);
    assert WriterSound(s, writer);
    forall v | v in s.writers && v != w
      ensures Spared(s, t, s.writers[v])
    {
      assert WriterSound(s, s.writers[v]);
      CleanSpares(s, w, s.writers[v]);
    }
    TreeShrinks(s.nodes, writer.temp);
    CleanSound(s, w);
    ValidAfter(s, t, w);
  }

  /** No other writer holds the inode at the temporary's name, nor is that name an object's. */
  lemma CleanSpares(s: System, w: nat, other: Writer)
    requires w in s.writers && s.writers[w].phase.Cleaning? && WriterSound(s, s.writers[w]) && WriterSound(s, other)
    requires s.writers[w].inode.Some? ==> other.inode != s.writers[w].inode
    ensures Spared(s, CleaningUp(s, w), other)
  {
  }

  lemma CleanSound(s: System, w: nat)
    requires w in s.writers && s.writers[w].phase.Cleaning? && WriterSound(s, s.writers[w])
    ensures WriterSound(CleaningUp(s, w), CleaningUp(s, w).writers[w])
  {
  }

  lemma DirsMadeKeeps(s: System, w: nat)
    requires Valid(s) && w in s.writers && s.writers[w].phase.MakingDirs?
    requires IsDir(s.nodes, ParentOf(s.writers[w].target))
    ensures Valid(Put(s, w, s.writers[w].(phase := Opening)))
  {
    assert WriterSound(s, s.writers[w]);
    PhaseKeeps(s, w, s.writers[w].(phase := Opening));
  }

  lemma {:induction false} MakeDirKeeps(s: System, w: nat)
    requires Valid(s) && w in s.writers && s.writers[w].phase.MakingDirs?
    ensures Valid(MakingDir(s, w))
  {
    var gap := FirstGap(s.nodes, ParentOf(s.writers[w].target));
    if gap.None? {
      DirsMadeKeeps(s, w);
    } else if gap.value in s.nodes {
      FailKeeps(s, w, InvalidResponse);
    } else {
      DirKeeps(s, w, gap.value, SpellingAt(s.writers[w].key, |gap.value| - 1));
    }
  }

  lemma SettleKeeps(s: System, step: Step)
    requires Valid(s) && (step.Sync? || step.Resolve?)
    ensures Valid(Next(s, step))
  {
    if Next(s, step) != s {
      assert WriterSound(s, s.writers[step.w]);
      PhaseKeeps(s, step.w, Next(s, step).writers[step.w]);
    }
  }

  lemma BrokenSound(s: System, writer: Writer)
    requires WriterSound(s, writer) && Outcome(writer) == None
    ensures WriterSound(s, Broken(writer))
  {
  }

  lemma {:induction false} BreakKeeps(s: System, w: nat)
    requires Valid(s) && w in s.writers && Outcome(s.writers[w]) == None
    ensures Valid(Put(s, w, Broken(s.writers[w])))
  {
    assert WriterSound(s, s.writers[w]);
    BrokenSound(s, s.writers[w]);
    PhaseKeeps(s, w, Broken(s.writers[w]));
  }

  lemma {:induction false} TimeOutKeeps(s: System, w: nat)
    requires Valid(s) && w in s.writers
    ensures Valid(Put(s, w, s.writers[w].(timedOut := true)))
  {
    assert WriterSound(s, s.writers[w]);
    PhaseKeeps(s, w, s.writers[w].(timedOut := true));
  }

  lemma {:induction false} NextValid(s: System, step: Step)
    requires Valid(s)
    ensures Valid(Next(s, step))
  {
    if step.Start? {
      StartKeeps(s, step);
    } else if step.w in s.writers {
      var w, phase := step.w, s.writers[step.w].phase;
      match step
      case MakeDir(_) => if phase.MakingDirs? { MakeDirKeeps(s, w); }
      case Open(_) => if phase.Opening? { OpenKeeps(s, w); }
      case Write(_, count) => if phase.Writing? { WriteKeeps(s, w, count); }
      case Link(_) => if phase.Linking? { LinkKeeps(s, w); }
      case Clean(_) => if phase.Cleaning? { CleanKeeps(s, w); }
      case Sync(_) => SettleKeeps(s, step);
      case Resolve(_) => SettleKeeps(s, step);
      case Break(_) => if Outcome(s.writers[w]) == None { BreakKeeps(s, w); }
      case TimeOut(_) => if !phase.Replied? { TimeOutKeeps(s, w); }
    }
  }
}
