/** What every interleaving of concurrent creates keeps: create-once, complete, permanent objects. */
module CreateRuns {
  import opened Wrappers
  import opened Bytes
  import opened SegmentCodec
  import opened ObjectKeys
  import opened CreateProtocol

  function After(volume: Volume, run: seq<Step>): System {
    if run == [] then Fresh(volume) else Next(After(volume, run[..|run| - 1]), run[|run| - 1])
  }

  lemma OneMore(volume: Volume, run: seq<Step>, step: Step)
    ensures After(volume, run + [step]) == Next(After(volume, run), step)
  {
    assert (run + [step])[..|run|] == run;
  }

  lemma {:induction false} RunValid(volume: Volume, run: seq<Step>)
    ensures Valid(After(volume, run))
  {
    if run != [] {
      RunValid(volume, run[..|run| - 1]);
      NextValid(After(volume, run[..|run| - 1]), run[|run| - 1]);
    }
  }

  /** A writer works at its key's path; only a checked key gets further than a failed answer. */
  ghost predicate Addressed(volume: Volume, writer: Writer) {
    && writer.target == PathOf(volume, writer.key) && writer.temp == TempOf(volume, writer.target, writer.uuid)
    && (CheckKey(writer.key) || (writer.phase.Replied? && writer.phase.reply.Failed?))
  }

  ghost predicate AllAddressed(volume: Volume, s: System) {
    s.volume == volume && forall w :: w in s.writers ==> Addressed(volume, s.writers[w])
  }

  /** The writer goes on with the same key at the same paths; once its caller has an answer it stays the answer. */
  ghost predicate Continues(s: System, t: System, w: nat) {
    && t.volume == s.volume && w in s.writers && w in t.writers
    && t.writers[w].key == s.writers[w].key && t.writers[w].uuid == s.writers[w].uuid
    && t.writers[w].target == s.writers[w].target && t.writers[w].temp == s.writers[w].temp
    && (s.writers[w].phase.Replied? ==> t.writers[w].phase == s.writers[w].phase)
    && (Answer(s.writers[w]).Some? ==> Answer(t.writers[w]) == Answer(s.writers[w]))
  }

  lemma MakingDirContinues(s: System, v: nat, w: nat)
    requires w in s.writers && v in s.writers && s.writers[v].phase.MakingDirs?
    ensures Continues(s, MakingDir(s, v), w)
  {
  }

  lemma OpeningContinues(s: System, v: nat, w: nat)
    requires w in s.writers && v in s.writers && s.writers[v].phase.Opening?
    ensures Continues(s, OpeningTemp(s, v), w)
  {
  }

  lemma LinkingContinues(s: System, v: nat, w: nat)
    requires w in s.writers && v in s.writers && s.writers[v].phase.Linking?
    ensures Continues(s, LinkingTarget(s, v), w)
  {
  }

  lemma StepContinues(s: System, step: Step, w: nat)
    requires w in s.writers
    ensures Continues(s, Next(s, step), w)
  {
    if step.w in s.writers {
      var v, phase := step.w, s.writers[step.w].phase;
      match step
      case MakeDir(_) => if phase.MakingDirs? { MakingDirContinues(s, v, w); }
      case Open(_) => if phase.Opening? { OpeningContinues(s, v, w); }
      case Write(_, count) => if phase.Writing? { WritingContinues(s, v, count, w); }
      case Link(_) => if phase.Linking? { LinkingContinues(s, v, w); }
      case Clean(_) => if phase.Cleaning? { CleaningContinues(s, v, w); }
      case _ => SettlingContinues(s, step, w);
    }
  }

  lemma WritingContinues(s: System, v: nat, count: nat, w: nat)
    requires w in s.writers && v in s.writers && s.writers[v].phase.Writing?
    ensures Continues(s, WritingSome(s, v, count), w)
  {
  }

  lemma CleaningContinues(s: System, v: nat, w: nat)
    requires w in s.writers && v in s.writers && s.writers[v].phase.Cleaning?
    ensures Continues(s, CleaningUp(s, v), w)
  {
  }

  lemma SettlingContinues(s: System, step: Step, w: nat)
    requires w in s.writers && (step.Start? || step.Sync? || step.Resolve? || step.Break? || step.TimeOut?)
    ensures Continues(s, Next(s, step), w)
  {
  }

  lemma StepNewWriters(s: System, step: Step, w: nat)
    requires w !in s.writers && w in Next(s, step).writers
    ensures step.Start? && Next(s, step).writers[w] == NewWriter(s.volume, step.key, step.bytes, step.uuid)
  {
  }

  lemma {:induction false} RunAddressed(volume: Volume, run: seq<Step>)
    ensures AllAddressed(volume, After(volume, run))
  {
    if run != [] {
      var s, step := After(volume, run[..|run| - 1]), run[|run| - 1];
      RunAddressed(volume, run[..|run| - 1]);
      RunVolume(volume, run);
      forall w | w in Next(s, step).writers
        ensures Addressed(volume, Next(s, step).writers[w])
      {
        if w in s.writers {
          StepContinues(s, step, w);
        } else {
          StepNewWriters(s, step, w);
        }
      }
    }
  }

  lemma StepVolume(s: System, step: Step)
    ensures Next(s, step).volume == s.volume
  {
  }

  lemma {:induction false} RunVolume(volume: Volume, run: seq<Step>)
    ensures After(volume, run).volume == volume
  {
    if run != [] {
      RunVolume(volume, run[..|run| - 1]);
      StepVolume(After(volume, run[..|run| - 1]), run[|run| - 1]);
    }
  }

  /** The bytes stored under a key, as a direct read finds them. */
  function Visible(s: System, key: Key): Option<seq<Byte>> {
    var path := PathOf(s.volume, key);
    if CheckKey(key) && IsFile(s.nodes, path) && s.nodes[path].inode in s.contents
    then Some(s.contents[s.nodes[path].inode])
    else None
  }

  /** At most one create of a key ends as "created", in any interleaving. */
  lemma AtMostOneCreated(volume: Volume, run: seq<Step>, v: nat, w: nat)
    requires var s := After(volume, run);
             && v in s.writers && w in s.writers
             && Outcome(s.writers[v]) == Some(Created) && Outcome(s.writers[w]) == Some(Created)
             && s.writers[v].key == s.writers[w].key
    ensures v == w
  {
    var s := After(volume, run);
    RunValid(volume, run);
    RunAddressed(volume, run);
    assert Addressed(volume, s.writers[v]) && Addressed(volume, s.writers[w]);
    SharedTarget(s, v, w);
  }

  lemma SharedTarget(s: System, v: nat, w: nat)
    requires Valid(s) && v in s.writers && w in s.writers && s.writers[v].target == s.writers[w].target
    requires Outcome(s.writers[v]) == Some(Created) && Outcome(s.writers[w]) == Some(Created)
    ensures v == w
  {
    assert WriterSound(s, s.writers[v]) && WriterSound(s, s.writers[w]);
  }

  lemma ObjectInode(s: System, path: Path)
    requires Valid(s) && IsFile(s.nodes, path) && !Temporary(path)
    ensures s.nodes[path].inode in s.contents
  {
    var v :| LinkedBy(s, path, v);
    assert WriterSound(s, s.writers[v]);
  }

  lemma StepKeepsName(s: System, step: Step, path: Path)
    requires Valid(s) && IsFile(s.nodes, path) && !Temporary(path)
    ensures path in Next(s, step).nodes && Next(s, step).nodes[path] == s.nodes[path]
  {
    if step.w in s.writers {
      assert Placed(s.writers[step.w]) by {
        assert WriterSound(s, s.writers[step.w]);
      }
    }
  }

  lemma StepKeepsBytes(s: System, step: Step, path: Path)
    requires Valid(s) && IsFile(s.nodes, path) && !Temporary(path)
    ensures var i := s.nodes[path].inode;
            i in s.contents && i in Next(s, step).contents && Next(s, step).contents[i] == s.contents[i]
  {
    ObjectInode(s, path);
    var v :| LinkedBy(s, path, v);
    assert WriterSound(s, s.writers[v]);
    if step.Write? && step.w in s.writers && s.writers[step.w].phase.Writing? {
      assert WriterSound(s, s.writers[step.w]);
      assert s.writers[v].inode != s.writers[step.w].inode;
    }
  }

  /** A stored object keeps its file, and the file its bytes, through any step. */
  lemma {:induction false} StepKeepsObject(s: System, step: Step, path: Path)
    requires Valid(s) && IsFile(s.nodes, path) && !Temporary(path)
    ensures var t := Next(s, step);
            && path in t.nodes && t.nodes[path] == s.nodes[path]
            && s.nodes[path].inode in s.contents && s.nodes[path].inode in t.contents
            && t.contents[s.nodes[path].inode] == s.contents[s.nodes[path].inode]
  {
    StepKeepsName(s, step, path);
    StepKeepsBytes(s, step, path);
  }

  lemma {:induction false} RunKeepsObject(volume: Volume, run: seq<Step>, i: nat, path: Path)
    requires i <= |run| && IsFile(After(volume, run[..i]).nodes, path) && !Temporary(path)
    ensures var s, t := After(volume, run[..i]), After(volume, run);
            && path in t.nodes && t.nodes[path] == s.nodes[path]
            && s.nodes[path].inode in s.contents && s.nodes[path].inode in t.contents
            && t.contents[s.nodes[path].inode] == s.contents[s.nodes[path].inode]
    decreases |run|
  {
    RunValid(volume, run[..i]);
    if i == |run| {
      assert run[..i] == run;
      ObjectInode(After(volume, run), path);
    } else {
      var init := run[..|run| - 1];
      assert init[..i] == run[..i];
      RunKeepsObject(volume, init, i, path);
      RunValid(volume, init);
      StepKeepsObject(After(volume, init), run[|run| - 1], path);
    }
  }

  lemma KeyPathObject(volume: Volume, key: Key)
    requires CheckKey(key)
    ensures !Temporary(PathOf(volume, key))
  {
    KeyPathsShown(volume, key);
    NotTemporary(PathOf(volume, key));
  }

  /** A visible key holds the same bytes at every later moment. */
  lemma {:induction false} VisibleForever(volume: Volume, run: seq<Step>, i: nat, key: Key)
    requires i <= |run| && Visible(After(volume, run[..i]), key).Some?
    ensures Visible(After(volume, run), key) == Visible(After(volume, run[..i]), key)
  {
    RunVolume(volume, run[..i]);
    RunVolume(volume, run);
    KeyPathObject(volume, key);
    RunKeepsObject(volume, run, i, PathOf(volume, key));
  }

  /** A visible key holds the complete bytes of the one create that made it, never part of a write. */
  lemma VisibleComplete(volume: Volume, run: seq<Step>, key: Key)
    requires Visible(After(volume, run), key).Some?
    ensures exists w :: && w in After(volume, run).writers
                        && var writer := After(volume, run).writers[w];
                           writer.key == key && Outcome(writer) == Some(Created)
                           && Visible(After(volume, run), key) == Some(writer.bytes)
  {
    var s := After(volume, run);
    RunValid(volume, run);
    RunAddressed(volume, run);
    KeyPathObject(volume, key);
    var path := PathOf(volume, key);
    var w :| LinkedBy(s, path, w);
    assert WriterSound(s, s.writers[w]) && Addressed(volume, s.writers[w]);
    PathInjective(volume, s.writers[w].key, key);
  }

  /** "created" means the writer's own bytes are visible; "conflict" that somebody's already are. */
  lemma {:induction false} ReportedVisible(volume: Volume, run: seq<Step>, w: nat)
    requires w in After(volume, run).writers
    ensures var s, writer := After(volume, run), After(volume, run).writers[w];
            && (Outcome(writer) == Some(Created) ==> Visible(s, writer.key) == Some(writer.bytes))
            && (Outcome(writer) == Some(Conflict) ==> Visible(s, writer.key).Some?)
  {
    var s := After(volume, run);
    RunValid(volume, run);
    RunAddressed(volume, run);
    assert WriterSound(s, s.writers[w]) && Addressed(volume, s.writers[w]);
    if Outcome(s.writers[w]) == Some(Conflict) {
      var path := s.writers[w].target;
      var v :| LinkedBy(s, path, v);
      assert WriterSound(s, s.writers[v]);
    }
  }

  /** A file that is no temporary stands at the path of a key that is visible. */
  lemma FileIsKey(volume: Volume, run: seq<Step>, path: Path)
    requires IsFile(After(volume, run).nodes, path) && !Temporary(path)
    ensures exists key :: PathOf(volume, key) == path && Visible(After(volume, run), key).Some?
  {
    var s := After(volume, run);
    RunValid(volume, run);
    RunAddressed(volume, run);
    ObjectInode(s, path);
    var w :| LinkedBy(s, path, w);
    assert Addressed(volume, s.writers[w]);
    assert PathOf(volume, s.writers[w].key) == path;
  }

  lemma {:induction false} Ancestors(nodes: Nodes, path: Path, n: nat)
    requires Tree(nodes) && path in nodes && n < |path|
    ensures IsDir(nodes, path[..n])
    decreases |path| - n
  {
    if n + 1 < |path| {
      Ancestors(nodes, path, n + 1);
      assert path[..n + 1] in nodes;
      assert path[..n + 1][..n] == path[..n];
    }
  }

  /** No stored key is a proper segment prefix of another. */
  lemma NoKeyInsideAnother(volume: Volume, run: seq<Step>, a: Key, b: Key)
    requires Visible(After(volume, run), a).Some? && Visible(After(volume, run), b).Some?
    ensures !(Split(a) < Split(b))
  {
    var s := After(volume, run);
    RunValid(volume, run);
    RunVolume(volume, run);
    var pa, pb := PathOf(volume, a), PathOf(volume, b);
    if Split(a) < Split(b) {
      var n := |Split(a)|;
      PrefixNames(volume, Split(b), n);
      assert Split(b)[..n] == Split(a);
      Ancestors(s.nodes, pb, n);
    }
  }

  lemma PrefixNames(volume: Volume, segments: seq<Segment>, n: nat)
    requires n <= |segments|
    ensures Names(volume, segments)[..n] == Names(volume, segments[..n])
  {
    forall i | 0 <= i < n
      ensures Names(volume, segments)[..n][i] == Names(volume, segments[..n])[i]
    {
      NameAt(volume, segments, i);
      NameAt(volume, segments[..n], i);
    }
  }
}
