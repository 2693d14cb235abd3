/**
 * How a create ends. A writer nobody disturbs ends as the directory it finds decides, for every key and in every
 * reachable system; and no writer is ever told "unavailable" unless something broke it.
 */
module CreateOutcomes {
  import opened Wrappers
  import opened Texts
  import opened Sequences
  import opened Bytes
  import opened SegmentCodec
  import opened ObjectKeys
  import opened CreateProtocol
  import opened CreateRuns

  // ----- The last steps -----

  /** The link is made exactly when nothing stands at the target. */
  lemma LinkDecides(s: System, w: nat)
    requires Valid(s) && w in s.writers && s.writers[w].phase.Linking?
    ensures var t := Next(s, Link(w));
            w in t.writers && t.writers[w].target == s.writers[w].target && t.writers[w].timedOut == s.writers[w].timedOut
            && t.writers[w].phase == if s.writers[w].target in s.nodes then Resolving else Cleaning(Created)
  {
    assert WriterSound(s, s.writers[w]);
  }

  /** A writer that found its target taken learns what stands there. */
  lemma ResolveDecides(s: System, w: nat)
    requires Valid(s) && w in s.writers && s.writers[w].phase.Resolving?
    ensures s.writers[w].target in s.nodes
    ensures var t := Next(s, Resolve(w));
            w in t.writers && t.writers[w].timedOut == s.writers[w].timedOut
            && t.writers[w].phase == Cleaning(if s.nodes[s.writers[w].target].File? then Conflict else Failed(InvalidResponse))
  {
    assert WriterSound(s, s.writers[w]);
  }

  lemma CleanReplies(s: System, w: nat)
    requires w in s.writers && s.writers[w].phase.Cleaning?
    ensures var t := Next(s, Clean(w));
            w in t.writers && t.writers[w].timedOut == s.writers[w].timedOut
            && t.writers[w].phase == Replied(s.writers[w].phase.outcome)
  {
  }

  /** The steps one after the other. */
  function Do(s: System, steps: seq<Step>): System
    decreases |steps|
  {
    if steps == [] then s else Do(Next(s, steps[0]), steps[1..])
  }

  lemma {:induction false} DoAfter(volume: Volume, run: seq<Step>, steps: seq<Step>)
    ensures Do(After(volume, run), steps) == After(volume, run + steps)
    decreases |steps|
  {
    if steps == [] {
      assert run + steps == run;
    } else {
      OneMore(volume, run, steps[0]);
      DoAfter(volume, run + [steps[0]], steps[1..]);
      ConcatAssociates(run, [steps[0]], steps[1..]);
      assert steps == [steps[0]] + steps[1..];
    }
  }

  lemma {:induction false} DoConcat(s: System, a: seq<Step>, b: seq<Step>)
    ensures Do(s, a + b) == Do(Do(s, a), b)
    decreases |a|
  {
    if a == [] {
      assert a + b == b;
    } else {
      assert (a + b)[1..] == a[1..] + b;
      DoConcat(Next(s, a[0]), a[1..], b);
    }
  }

  lemma DoCons(s: System, step: Step, rest: seq<Step>)
    ensures Do(s, [step] + rest) == Do(Next(s, step), rest)
  {
    assert ([step] + rest)[1..] == rest;
  }

  lemma {:induction false} DoValid(s: System, steps: seq<Step>)
    requires Valid(s)
    ensures Valid(Do(s, steps))
    decreases |steps|
  {
    if steps != [] {
      NextValid(s, steps[0]);
      DoValid(Next(s, steps[0]), steps[1..]);
    }
  }

  function LastSteps(w: nat): seq<Step> {
    [Link(w)] + ([Resolve(w)] + ([Clean(w)] + []))
  }

  /** What stands at a target tells how a create ends that is about to link. */
  function Ending(nodes: Nodes, target: Path): Reply {
    if target !in nodes then Created
    else if nodes[target].File? then Conflict
    else Failed(InvalidResponse)
  }

  /**
   * A writer about to link ends as created exactly when nothing stands at its target, as a conflict exactly when a
   * file does, and as an invalid response exactly when a directory does.
   */
  lemma LinkEnds(s: System, w: nat)
    requires Valid(s) && w in s.writers && s.writers[w].phase.Linking?
    ensures var t := Do(s, LastSteps(w));
            w in t.writers && t.writers[w].timedOut == s.writers[w].timedOut
            && t.writers[w].phase == Replied(
                 if s.writers[w].target !in s.nodes then Created
                 else if s.nodes[s.writers[w].target].File? then Conflict
                 else Failed(InvalidResponse))
  {
    DoCons(s, Link(w), [Resolve(w)] + ([Clean(w)] + []));
    LinkDecides(s, w);
    NextValid(s, Link(w));
    if s.writers[w].target in s.nodes {
      LinkRefused(s, w);
      FoundEnds(Next(s, Link(w)), w);
    } else {
      MadeEnds(Next(s, Link(w)), w);
    }
  }

  lemma FoundEnds(s: System, w: nat)
    requires Valid(s) && w in s.writers && s.writers[w].phase.Resolving?
    ensures s.writers[w].target in s.nodes
    ensures var t := Do(s, [Resolve(w)] + ([Clean(w)] + []));
            w in t.writers && t.writers[w].timedOut == s.writers[w].timedOut
            && t.writers[w].phase == Replied(if s.nodes[s.writers[w].target].File? then Conflict else Failed(InvalidResponse))
  {
    DoCons(s, Resolve(w), [Clean(w)] + []);
    DoCons(Next(s, Resolve(w)), Clean(w), []);
    ResolveDecides(s, w);
    CleanReplies(Next(s, Resolve(w)), w);
  }

  lemma MadeEnds(s: System, w: nat)
    requires w in s.writers && s.writers[w].phase == Cleaning(Created)
    ensures var t := Do(s, [Resolve(w)] + ([Clean(w)] + []));
            w in t.writers && t.writers[w].timedOut == s.writers[w].timedOut && t.writers[w].phase == Replied(Created)
  {
    DoCons(s, Resolve(w), [Clean(w)] + []);
    DoCons(s, Clean(w), []);
    CleanReplies(s, w);
  }

  lemma LinkRefused(s: System, w: nat)
    requires Valid(s) && w in s.writers && s.writers[w].phase.Linking? && s.writers[w].target in s.nodes
    ensures Next(s, Link(w)).nodes == s.nodes
  {
    assert WriterSound(s, s.writers[w]);
  }

  /** Cleaning up takes away the temporary and nothing else. */
  lemma CleanRemoves(s: System, w: nat, path: Path)
    requires w in s.writers && s.writers[w].phase.Cleaning?
    ensures var t := Next(s, Clean(w));
            if path == s.writers[w].temp then path !in t.nodes else SameAt(s, t, path)
  {
  }

  /** A link stands for the temporary's own file. */
  lemma LinkPlaces(s: System, w: nat, path: Path)
    requires Valid(s) && w in s.writers && s.writers[w].phase.Linking?
    ensures var t, writer := Next(s, Link(w)), s.writers[w];
            && writer.inode.Some? && w in t.writers && t.writers[w].temp == writer.temp
            && if path == writer.target && path !in s.nodes
               then path in t.nodes && t.nodes[path] == File(writer.inode.value) else SameAt(s, t, path)
  {
    assert WriterSound(s, s.writers[w]);
  }

  lemma ResolveKeeps(s: System, w: nat)
    requires w in s.writers
    ensures var t := Next(s, Resolve(w));
            t.nodes == s.nodes && w in t.writers && t.writers[w].temp == s.writers[w].temp
  {
  }

  /** Once it has ended the writer's temporary is gone, its file stands at its target if that was free, and all else is as it was. */
  lemma {:induction false} LinkLeaves(s: System, w: nat, path: Path)
    requires Valid(s) && w in s.writers && s.writers[w].phase.Linking? && s.writers[w].temp != s.writers[w].target
    ensures var t, writer := Do(s, LastSteps(w)), s.writers[w];
            if path == writer.temp then path !in t.nodes
            else if path == writer.target && path !in s.nodes
            then path in t.nodes && writer.inode.Some? && t.nodes[path] == File(writer.inode.value)
            else SameAt(s, t, path)
  {
    var linked := Next(s, Link(w));
    DoCons(s, Link(w), [Resolve(w)] + ([Clean(w)] + []));
    DoCons(linked, Resolve(w), [Clean(w)] + []);
    DoCons(Next(linked, Resolve(w)), Clean(w), []);
    LinkPlaces(s, w, path);
    ResolveKeeps(linked, w);
    SettledAtClean(s, w);
    CleanRemoves(Next(linked, Resolve(w)), w, path);
  }

  lemma SettledAtClean(s: System, w: nat)
    requires Valid(s) && w in s.writers && s.writers[w].phase.Linking?
    ensures var t := Next(Next(s, Link(w)), Resolve(w)); w in t.writers && t.writers[w].phase.Cleaning?
  {
    LinkDecides(s, w);
    NextValid(s, Link(w));
    if s.writers[w].target in s.nodes {
      ResolveDecides(Next(s, Link(w)), w);
    }
  }

  // ----- The first steps -----

  function MakeDirs(w: nat, n: nat): seq<Step> {
    if n == 0 then [] else [MakeDir(w)] + MakeDirs(w, n - 1)
  }

  /** A file stands on the way to a directory. */
  predicate Blocked(nodes: Nodes, parent: Path)
    decreases |parent|
  {
    parent != [] && (IsFile(nodes, parent) || Blocked(nodes, parent[..|parent| - 1]))
  }

  lemma {:induction false} BlockedAt(nodes: Nodes, parent: Path)
    ensures Blocked(nodes, parent) <==> exists i :: 0 < i <= |parent| && IsFile(nodes, parent[..i])
    decreases |parent|
  {
    if parent != [] {
      var front := parent[..|parent| - 1];
      BlockedAt(nodes, front);
      assert parent[..|parent|] == parent;
      if i :| 0 < i <= |front| && IsFile(nodes, front[..i]) {
        assert front[..i] == parent[..i];
      }
      if i :| 0 < i < |parent| && IsFile(nodes, parent[..i]) {
        assert front[..i] == parent[..i];
      }
    }
  }

  lemma {:induction false} SameBlocked(nodes: Nodes, next: Nodes, parent: Path)
    requires forall path :: IsFile(next, path) <==> IsFile(nodes, path)
    ensures Blocked(next, parent) <==> Blocked(nodes, parent)
    decreases |parent|
  {
    if parent != [] {
      SameBlocked(nodes, next, parent[..|parent| - 1]);
    }
  }

  /** The first gap is a file only when the way is blocked, and without a gap it is not. */
  lemma {:induction false} GapKind(nodes: Nodes, parent: Path)
    ensures var gap := FirstGap(nodes, parent);
            (gap.None? ==> !Blocked(nodes, parent)) && (gap.Some? && gap.value in nodes ==> Blocked(nodes, parent))
    decreases |parent|
  {
    if parent != [] {
      GapKind(nodes, parent[..|parent| - 1]);
    }
  }

  lemma {:induction false} GapStaysFilled(nodes: Nodes, path: Path, parent: Path)
    requires FirstGap(nodes, parent).None?
    ensures FirstGap(nodes[path := Dir], parent).None?
    decreases |parent|
  {
    if parent != [] {
      GapStaysFilled(nodes, path, parent[..|parent| - 1]);
    }
  }

  /** With the first gap made a directory, the next one is longer. */
  lemma {:induction false} NextGapLonger(nodes: Nodes, parent: Path)
    requires FirstGap(nodes, parent).Some?
    ensures var gap := FirstGap(nodes, parent).value;
            var later := FirstGap(nodes[gap := Dir], parent);
            later.Some? ==> |later.value| > |gap|
    decreases |parent|
  {
    var front := parent[..|parent| - 1];
    if FirstGap(nodes, front).Some? {
      NextGapLonger(nodes, front);
    } else {
      GapStaysFilled(nodes, parent, front);
    }
  }

  /** How many names of the way are made already. */
  function Made(nodes: Nodes, parent: Path): nat {
    var gap := FirstGap(nodes, parent);
    if gap.None? then |parent| else |gap.value| - 1
  }

  lemma GapFilled(nodes: Nodes, parent: Path)
    requires FirstGap(nodes, parent).Some? && FirstGap(nodes, parent).value !in nodes
    ensures var next := nodes[FirstGap(nodes, parent).value := Dir];
            Made(next, parent) > Made(nodes, parent) && (Blocked(next, parent) <==> Blocked(nodes, parent))
  {
    NextGapLonger(nodes, parent);
    SameBlocked(nodes, nodes[FirstGap(nodes, parent).value := Dir], parent);
  }

  /** Making the way to a directory changes the phase of one writer. */
  ghost predicate OnlyDirs(s: System, t: System, w: nat) {
    && t.volume == s.volume && w in s.writers && w in t.writers
    && t.writers[w] == s.writers[w].(phase := t.writers[w].phase)
  }

  /** The same stands at a path, or still nothing. */
  ghost predicate SameAt(s: System, t: System, path: Path) {
    (path in t.nodes <==> path in s.nodes) && (path in s.nodes ==> t.nodes[path] == s.nodes[path])
  }

  /** Making the way to a directory leaves alone what stands deeper. */
  lemma {:induction false} DeepKept(s: System, w: nat, target: Target, deep: Path, n: nat)
    requires w in s.writers && s.writers[w].target == target && |deep| >= |target|
    ensures SameAt(s, Do(s, MakeDirs(w, n)), deep)
    decreases n
  {
    if n > 0 {
      DoCons(s, MakeDir(w), MakeDirs(w, n - 1));
      DirBelow(s, w, deep);
      DeepKept(Next(s, MakeDir(w)), w, target, deep, n - 1);
    }
  }

  lemma DirBelow(s: System, w: nat, deep: Path)
    requires w in s.writers && |deep| >= |s.writers[w].target|
    ensures var next := Next(s, MakeDir(w));
            SameAt(s, next, deep) && w in next.writers && next.writers[w].target == s.writers[w].target
  {
  }

  lemma {:induction false} IdleDirs(s: System, w: nat, n: nat)
    requires w in s.writers && !s.writers[w].phase.MakingDirs?
    ensures Do(s, MakeDirs(w, n)) == s
  {
    if n > 0 {
      DoCons(s, MakeDir(w), MakeDirs(w, n - 1));
      IdleDirs(s, w, n - 1);
    }
  }

  /** The whole way is made, or a file that blocks it was found. */
  ghost predicate WayEnds(s: System, t: System, w: nat, blocked: bool) {
    && OnlyDirs(s, t, w)
    && t.writers[w].phase == if blocked then Replied(Failed(InvalidResponse)) else Opening
  }

  /** A writer is making the way to `parent`, which at most `n` steps settle. */
  ghost predicate WayBegun(s: System, w: nat, parent: Path, blocked: bool, n: nat) {
    && w in s.writers && s.writers[w].phase.MakingDirs? && ParentOf(s.writers[w].target) == parent
    && (Blocked(s.nodes, parent) <==> blocked)
    && n + Made(s.nodes, parent) > |parent|
  }

  /** Enough steps make the whole way to the target's directory, or stop at a file that blocks it. */
  lemma {:induction false} DirsMade(s: System, t: System, w: nat, parent: Path, blocked: bool, n: nat)
    requires WayBegun(s, w, parent, blocked, n) && DoesDirs(s, t, w, n)
    ensures WayEnds(s, t, w, blocked)
    decreases n
  {
    WayPositive(s, w, parent, blocked, n);
    var next, more := OneStep(s, t, w, parent, blocked, n);
    if more {
      DirsMade(next, t, w, parent, blocked, n - 1);
      WayThen(s, next, t, w, blocked);
    } else {
      WayOver(s, next, t, w, blocked, n - 1);
    }
  }

  /** The steps lead to this system. */
  ghost predicate DoesDirs(s: System, t: System, w: nat, n: nat) {
    exists steps :: steps == MakeDirs(w, n) && Do(s, steps) == t
  }

  lemma WayPositive(s: System, w: nat, parent: Path, blocked: bool, n: nat)
    requires WayBegun(s, w, parent, blocked, n)
    ensures n > 0
  {
    MadeBound(s.nodes, parent);
  }

  lemma WayThen(s: System, next: System, t: System, w: nat, blocked: bool)
    requires OnlyDirs(s, next, w) && WayEnds(next, t, w, blocked)
    ensures WayEnds(s, t, w, blocked)
  {
  }

  lemma WayOver(s: System, next: System, t: System, w: nat, blocked: bool, n: nat)
    requires WayEnds(s, next, w, blocked) && DoesDirs(next, t, w, n)
    ensures WayEnds(s, t, w, blocked)
  {
    IdleDirs(next, w, n);
  }

  /** One step settles the way, or makes one more of its directories. */
  lemma OneStep(s: System, t: System, w: nat, parent: Path, blocked: bool, n: nat) returns (next: System, more: bool)
    requires WayBegun(s, w, parent, blocked, n) && n > 0 && DoesDirs(s, t, w, n)
    ensures DoesDirs(next, t, w, n - 1)
    ensures if more then OnlyDirs(s, next, w) && WayBegun(next, w, parent, blocked, n - 1)
            else WayEnds(s, next, w, blocked)
  {
    var gap := FirstGap(s.nodes, parent);
    next := Next(s, MakeDir(w));
    DoCons(s, MakeDir(w), MakeDirs(w, n - 1));
    more := gap.Some? && gap.value !in s.nodes;
    OneDir(s, w);
    GapKind(s.nodes, parent);
    if more {
      GapFilled(s.nodes, parent);
    }
  }

  lemma MadeBound(nodes: Nodes, parent: Path)
    ensures Made(nodes, parent) <= |parent| && (Made(nodes, parent) == |parent| ==> FirstGap(nodes, parent).None?)
  {
  }

  lemma OneDir(s: System, w: nat)
    requires w in s.writers && s.writers[w].phase.MakingDirs?
    ensures var parent, next := ParentOf(s.writers[w].target), Next(s, MakeDir(w));
            var gap := FirstGap(s.nodes, parent);
            && OnlyDirs(s, next, w)
            && (if gap.None? then next.writers[w].phase == Opening
                else if gap.value in s.nodes then next.writers[w].phase == Replied(Failed(InvalidResponse))
                else next.writers[w].phase.MakingDirs? && next.nodes == s.nodes[gap.value := Dir])
  {
  }

  function FileSteps(w: nat, size: nat): seq<Step> {
    [Open(w)] + ([Write(w, size)] + ([Sync(w)] + []))
  }

  /** The temporary is opened, written whole and synced; nothing else comes or goes. */
  lemma FileWritten(s: System, w: nat)
    requires Valid(s) && w in s.writers && s.writers[w].phase.Opening? && s.writers[w].temp !in s.nodes
    ensures var writer, t := s.writers[w], Do(s, FileSteps(w, |s.writers[w].bytes|));
            && w in t.writers && t.writers[w] == writer.(phase := Linking, inode := t.writers[w].inode)
            && t.nodes == s.nodes[writer.temp := File(s.made)]
  {
    var size := |s.writers[w].bytes|;
    var begun := Next(s, Open(w));
    DoCons(s, Open(w), [Write(w, size)] + ([Sync(w)] + []));
    assert WriterSound(s, s.writers[w]);
    BytesWritten(begun, w);
  }

  lemma BytesWritten(s: System, w: nat)
    requires w in s.writers && s.writers[w].phase == Writing(0) && s.writers[w].inode.Some?
    ensures var t := Do(s, [Write(w, |s.writers[w].bytes|)] + ([Sync(w)] + []));
            w in t.writers && t.writers[w] == s.writers[w].(phase := Linking) && t.nodes == s.nodes
  {
    var size := |s.writers[w].bytes|;
    DoCons(s, Write(w, size), [Sync(w)] + []);
    DoCons(Next(s, Write(w, size)), Sync(w), []);
  }

  // ----- A whole create -----

  /** All steps of one create that nobody disturbs. */
  function CreateSteps(w: nat, key: Key, bytes: seq<Byte>, uuid: Text): seq<Step> {
    [Start(w, key, bytes, uuid)] + (MakeDirs(w, |Split(key)|) + (FileSteps(w, |bytes|) + LastSteps(w)))
  }

  lemma {:induction false} DoneStays(s: System, w: nat, steps: seq<Step>)
    requires w in s.writers && s.writers[w].phase.Replied? && forall step :: step in steps ==> step.w == w && !step.TimeOut?
    ensures Do(s, steps) == s
    decreases |steps|
  {
    if steps != [] {
      assert steps[0] in steps && forall step :: step in steps[1..] ==> step in steps;
      assert Next(s, steps[0]) == s;
      DoneStays(s, w, steps[1..]);
    }
  }

  lemma {:induction false} MakeDirsOf(w: nat, n: nat)
    ensures forall step :: step in MakeDirs(w, n) ==> step == MakeDir(w)
  {
    if n > 0 {
      MakeDirsOf(w, n - 1);
    }
  }

  lemma RestOf(w: nat, n: nat, size: nat)
    ensures forall step :: step in FileSteps(w, size) + LastSteps(w) ==> step.w == w && !step.TimeOut?
    ensures forall step :: step in MakeDirs(w, n) + (FileSteps(w, size) + LastSteps(w)) ==> step.w == w && !step.TimeOut?
  {
    MakeDirsOf(w, n);
  }

  /** Start and all later steps, for a key that is refused at once. */
  lemma RefusedCreate(s: System, w: nat, key: Key, bytes: seq<Byte>, uuid: Text)
    requires w !in s.writers && !(CheckKey(key) && NameLimits(PathOf(s.volume, key)))
    ensures var t := Do(s, CreateSteps(w, key, bytes, uuid));
            w in t.writers && Answer(t.writers[w]) == Some(Failed(InvalidResponse))
  {
    var rest := MakeDirs(w, |Split(key)|) + (FileSteps(w, |bytes|) + LastSteps(w));
    DoCons(s, Start(w, key, bytes, uuid), rest);
    RestOf(w, |Split(key)|, |bytes|);
    DoneStays(Next(s, Start(w, key, bytes, uuid)), w, rest);
  }

  /** How a create of an acceptable key ends, told from the directory it finds. */
  lemma AcceptedCreate(s: System, w: nat, key: Key, bytes: seq<Byte>, uuid: Text)
    requires Valid(s) && w !in s.writers && CheckKey(key) && NameLimits(PathOf(s.volume, key))
    requires TempOf(s.volume, PathOf(s.volume, key), uuid) !in s.nodes
    ensures var t, target := Do(s, CreateSteps(w, key, bytes, uuid)), PathOf(s.volume, key);
            w in t.writers
            && Answer(t.writers[w]) == Some(if Blocked(s.nodes, target[..|target| - 1]) then Failed(InvalidResponse)
                                            else Ending(s.nodes, target))
  {
    var n, rest := |Split(key)|, FileSteps(w, |bytes|) + LastSteps(w);
    var begun := Next(s, Start(w, key, bytes, uuid));
    DoCons(s, Start(w, key, bytes, uuid), MakeDirs(w, n) + rest);
    CreateBegun(s, w, key, bytes, uuid);
    DoConcat(begun, MakeDirs(w, n), rest);
    BegunEnds(begun, w, n);
  }

  lemma CreateBegun(s: System, w: nat, key: Key, bytes: seq<Byte>, uuid: Text)
    requires Valid(s) && w !in s.writers && CheckKey(key) && NameLimits(PathOf(s.volume, key))
    ensures var t := Next(s, Start(w, key, bytes, uuid));
            && Valid(t) && t.nodes == s.nodes && w in t.writers && t.writers[w].phase.MakingDirs?
            && t.writers[w].target == PathOf(s.volume, key) && t.writers[w].temp == TempOf(s.volume, PathOf(s.volume, key), uuid)
            && t.writers[w].bytes == bytes && !t.writers[w].timedOut
            && t.writers[w].temp != t.writers[w].target && |t.writers[w].temp| == |t.writers[w].target| == |Split(key)|
  {
    NextValid(s, Start(w, key, bytes, uuid));
    TempDeep(s.volume, key, uuid);
  }

  /** From its first step on, the way to its target and what stands there decide how a writer ends. */
  lemma BegunEnds(s: System, w: nat, n: nat)
    requires Valid(s) && w in s.writers && s.writers[w].phase.MakingDirs? && !s.writers[w].timedOut
    requires s.writers[w].temp !in s.nodes && s.writers[w].temp != s.writers[w].target
    requires |s.writers[w].temp| == |s.writers[w].target| == n
    ensures var t := Do(Do(s, MakeDirs(w, n)), FileSteps(w, |s.writers[w].bytes|) + LastSteps(w));
            w in t.writers
            && Answer(t.writers[w]) == Some(if Blocked(s.nodes, ParentOf(s.writers[w].target)) then Failed(InvalidResponse)
                                            else Ending(s.nodes, s.writers[w].target))
  {
    var writer, made := s.writers[w], Do(s, MakeDirs(w, n));
    var blocked := Blocked(s.nodes, ParentOf(writer.target));
    DirsMade(s, made, w, ParentOf(writer.target), blocked, n);
    DeepKept(s, w, writer.target, writer.target, n);
    DeepKept(s, w, writer.target, writer.temp, n);
    DoValid(s, MakeDirs(w, n));
    if blocked {
      RestOf(w, n, |writer.bytes|);
      DoneStays(made, w, FileSteps(w, |writer.bytes|) + LastSteps(w));
    } else {
      MadeCreate(made, w);
    }
  }

  /** Once the way is made, what stands at the target decides. */
  lemma MadeCreate(s: System, w: nat)
    requires Valid(s) && w in s.writers && s.writers[w].phase.Opening? && s.writers[w].temp !in s.nodes
    requires s.writers[w].temp != s.writers[w].target
    ensures var t := Do(s, FileSteps(w, |s.writers[w].bytes|) + LastSteps(w));
            w in t.writers && t.writers[w].timedOut == s.writers[w].timedOut
            && t.writers[w].phase == Replied(Ending(s.nodes, s.writers[w].target))
  {
    var file := FileSteps(w, |s.writers[w].bytes|);
    DoConcat(s, file, LastSteps(w));
    FileWritten(s, w);
    DoValid(s, file);
    LinkEnds(Do(s, file), w);
  }

  lemma TempDeep(volume: Volume, key: Key, uuid: Text)
    requires CheckKey(key)
    ensures var target, temp := PathOf(volume, key), TempOf(volume, PathOf(volume, key), uuid);
            temp != target && |temp| == |target| > |ParentOf(target)|
  {
    KeyPathObject(volume, key);
    TempPlaced(volume, PathOf(volume, key), uuid);
  }

  // ----- Told in keys -----

  /** Some stored object's key is a proper segment prefix of this one. */
  ghost predicate InsideObject(s: System, key: Key) {
    exists other :: Visible(s, other).Some? && Split(other) < Split(key)
  }

  lemma BlockedByKey(volume: Volume, run: seq<Step>, key: Key)
    requires CheckKey(key)
    ensures var s, target := After(volume, run), PathOf(volume, key);
            Blocked(s.nodes, target[..|target| - 1]) <==> InsideObject(s, key)
  {
    var s, target := After(volume, run), PathOf(volume, key);
    var parent := target[..|target| - 1];
    BlockedAt(s.nodes, parent);
    if i :| 0 < i <= |parent| && IsFile(s.nodes, parent[..i]) {
      assert parent[..i] == target[..i];
      BlockingKey(volume, run, key, i);
    }
    if other :| Visible(s, other).Some? && Split(other) < Split(key) {
      KeyBlocks(volume, run, key, other);
    }
  }

  lemma KeyBlocks(volume: Volume, run: seq<Step>, key: Key, other: Key)
    requires Visible(After(volume, run), other).Some? && Split(other) < Split(key)
    ensures Blocked(After(volume, run).nodes, PathOf(volume, key)[..|PathOf(volume, key)| - 1])
  {
    var target, n := PathOf(volume, key), |Split(other)|;
    RunVolume(volume, run);
    PrefixNames(volume, Split(key), n);
    assert Split(key)[..n] == Split(other);
    assert target[..|target| - 1][..n] == target[..n];
    BlockedAt(After(volume, run).nodes, target[..|target| - 1]);
    assert IsFile(After(volume, run).nodes, target[..|target| - 1][..n]);
  }

  lemma BlockingKey(volume: Volume, run: seq<Step>, key: Key, i: nat)
    requires CheckKey(key) && 0 < i < |PathOf(volume, key)| && IsFile(After(volume, run).nodes, PathOf(volume, key)[..i])
    ensures InsideObject(After(volume, run), key)
  {
    var path := PathOf(volume, key)[..i];
    KeyPathsShown(volume, key);
    assert path[i - 1] == PathOf(volume, key)[i - 1];
    FileIsKey(volume, run, path);
    var other :| CheckKey(other) && PathOf(volume, other) == path && Visible(After(volume, run), other).Some?;
    PrefixNames(volume, Split(key), i);
    NamesInjective(volume, Split(other), Split(key)[..i]);
  }

  /** A name no longer than a file system takes. */
  lemma LimitsOfNames(volume: Volume, key: Key)
    ensures NameLimits(PathOf(volume, key)) <==> forall segment :: segment in Split(key) ==> |Encode(segment)| <= 255
  {
    forall i | 0 <= i < |Split(key)|
      ensures |PathOf(volume, key)[i]| == |Encode(Split(key)[i])|
    {
      NameAt(volume, Split(key), i);
    }
    if NameLimits(PathOf(volume, key)) {
      forall segment | segment in Split(key)
        ensures |Encode(segment)| <= 255
      {
        var i :| 0 <= i < |Split(key)| && Split(key)[i] == segment;
        assert |PathOf(volume, key)[i]| <= 255;
      }
    }
  }

  lemma VisibleFile(volume: Volume, run: seq<Step>, key: Key)
    requires CheckKey(key)
    ensures Visible(After(volume, run), key).Some? <==> IsFile(After(volume, run).nodes, PathOf(volume, key))
  {
    RunVolume(volume, run);
    RunValid(volume, run);
    KeyPathObject(volume, key);
    if IsFile(After(volume, run).nodes, PathOf(volume, key)) {
      ObjectInode(After(volume, run), PathOf(volume, key));
    }
  }

  /** How a create of an acceptable key ends, told in keys. */
  lemma AcceptableEnds(volume: Volume, run: seq<Step>, w: nat, key: Key, bytes: seq<Byte>, uuid: Text)
    requires w !in After(volume, run).writers && CheckKey(key) && NameLimits(PathOf(volume, key))
    requires TempOf(volume, PathOf(volume, key), uuid) !in After(volume, run).nodes
    ensures var s, t := After(volume, run), After(volume, run + CreateSteps(w, key, bytes, uuid));
            w in t.writers
            && Answer(t.writers[w]) == Some(
                 if InsideObject(s, key) then Failed(InvalidResponse)
                 else if Visible(s, key).Some? then Conflict
                 else if PathOf(volume, key) in s.nodes then Failed(InvalidResponse)
                 else Created)
  {
    RunVolume(volume, run);
    RunValid(volume, run);
    DoAfter(volume, run, CreateSteps(w, key, bytes, uuid));
    AcceptedCreate(After(volume, run), w, key, bytes, uuid);
    BlockedByKey(volume, run, key);
    VisibleFile(volume, run, key);
  }

  lemma UnacceptableEnds(volume: Volume, run: seq<Step>, w: nat, key: Key, bytes: seq<Byte>, uuid: Text)
    requires w !in After(volume, run).writers && !(CheckKey(key) && NameLimits(PathOf(volume, key)))
    ensures var t := After(volume, run + CreateSteps(w, key, bytes, uuid));
            w in t.writers && Answer(t.writers[w]) == Some(Failed(InvalidResponse))
  {
    RunVolume(volume, run);
    DoAfter(volume, run, CreateSteps(w, key, bytes, uuid));
    RefusedCreate(After(volume, run), w, key, bytes, uuid);
  }

  /**
   * In every reachable system a create that nobody disturbs, of any key at any depth, is told exactly this: an
   * invalid response if the key is malformed, a name too long, an object in the way or a directory in its place; a
   * conflict if the key is visible; and otherwise created.
   */
  lemma CreateExactly(volume: Volume, run: seq<Step>, w: nat, key: Key, bytes: seq<Byte>, uuid: Text)
    requires w !in After(volume, run).writers
    requires TempOf(volume, PathOf(volume, key), uuid) !in After(volume, run).nodes
    ensures var s, t := After(volume, run), After(volume, run + CreateSteps(w, key, bytes, uuid));
            w in t.writers
            && Answer(t.writers[w]) == Some(
                 if !CheckKey(key) || exists segment :: segment in Split(key) && |Encode(segment)| > 255 then Failed(InvalidResponse)
                 else if exists other :: Visible(s, other).Some? && Split(other) < Split(key) then Failed(InvalidResponse)
                 else if Visible(s, key).Some? then Conflict
                 else if PathOf(volume, key) in s.nodes then Failed(InvalidResponse)
                 else Created)
  {
    LimitsOfNames(volume, key);
    if CheckKey(key) && NameLimits(PathOf(volume, key)) {
      AcceptableEnds(volume, run, w, key, bytes, uuid);
    } else {
      UnacceptableEnds(volume, run, w, key, bytes, uuid);
    }
  }

  // ----- Unavailable -----

  /** The writer has failed for another reason than what it found on its way. */
  ghost predicate Troubled(writer: Writer) {
    Outcome(writer).Some? && Outcome(writer).value.Failed? && Outcome(writer).value.why != InvalidResponse
  }

  lemma OpeningAvailable(s: System, w: nat)
    requires w in s.writers && s.writers[w].phase.Opening? && WriterSound(s, s.writers[w])
    ensures var t := OpeningTemp(s, w); w in t.writers && !Troubled(t.writers[w])
  {
  }

  lemma MakingDirAvailable(s: System, w: nat)
    requires w in s.writers && s.writers[w].phase.MakingDirs?
    ensures var t := MakingDir(s, w); w in t.writers && !Troubled(t.writers[w])
  {
  }

  lemma WritingAvailable(s: System, w: nat, count: nat)
    requires w in s.writers && s.writers[w].phase.Writing?
    ensures var t := WritingSome(s, w, count); w in t.writers && !Troubled(t.writers[w])
  {
  }

  lemma OwnStepAvailable(s: System, step: Step)
    requires Valid(s) && step.w in s.writers && !step.Break? && !Troubled(s.writers[step.w])
    ensures step.w in Next(s, step).writers && !Troubled(Next(s, step).writers[step.w])
  {
    var w, phase := step.w, s.writers[step.w].phase;
    assert WriterSound(s, s.writers[w]);
    match step
    case MakeDir(_) => if phase.MakingDirs? { MakingDirAvailable(s, w); }
    case Open(_) => if phase.Opening? { OpeningAvailable(s, w); }
    case Write(_, count) => if phase.Writing? { WritingAvailable(s, w, count); }
    case Link(_) => if phase.Linking? { LinkDecides(s, w); }
    case Resolve(_) => if phase.Resolving? { ResolveDecides(s, w); }
    case Clean(_) => if phase.Cleaning? { CleanReplies(s, w); }
    case _ =>
  }

  lemma OthersStepAvailable(s: System, step: Step, w: nat)
    requires w in s.writers && step.w != w
    ensures w in Next(s, step).writers && Next(s, step).writers[w] == s.writers[w]
  {
  }

  lemma StepAvailable(s: System, step: Step, w: nat)
    requires Valid(s) && w in s.writers && step != Break(w) && !Troubled(s.writers[w])
    ensures w in Next(s, step).writers && !Troubled(Next(s, step).writers[w])
  {
    if step.w == w {
      OwnStepAvailable(s, step);
    } else {
      OthersStepAvailable(s, step, w);
    }
  }

  lemma NewAvailable(s: System, step: Step, w: nat)
    requires w !in s.writers && w in Next(s, step).writers
    ensures !Troubled(Next(s, step).writers[w])
  {
    StepNewWriters(s, step, w);
  }

  lemma TroubledStays(s: System, step: Step, w: nat)
    requires w in s.writers && Outcome(s.writers[w]).Some?
    ensures w in Next(s, step).writers && Outcome(Next(s, step).writers[w]) == Outcome(s.writers[w])
  {
    if step.w != w {
      OthersStepAvailable(s, step, w);
    }
  }

  /** Whatever breaks a writer that has no outcome yet ends it as unavailable. */
  lemma BreakEnds(s: System, w: nat)
    requires w in s.writers && Outcome(s.writers[w]).None?
    ensures var t := Next(s, Break(w)); w in t.writers && Outcome(t.writers[w]) == Some(Failed(Unavailable))
  {
  }

  /** In any interleaving a writer fails for another reason than an invalid response only if something broke it. */
  lemma {:induction false} UnavailableMeansBroken(volume: Volume, run: seq<Step>, w: nat)
    requires w in After(volume, run).writers && Outcome(After(volume, run).writers[w]).Some?
    requires var reply := Outcome(After(volume, run).writers[w]).value; reply.Failed? && reply.why != InvalidResponse
    ensures Break(w) in run && Outcome(After(volume, run).writers[w]) == Some(Failed(Unavailable))
  {
    if run != [] {
      var front, last := run[..|run| - 1], run[|run| - 1];
      RunValid(volume, front);
      if w !in After(volume, front).writers {
        NewAvailable(After(volume, front), last, w);
      } else if Outcome(After(volume, front).writers[w]).Some? {
        TroubledStays(After(volume, front), last, w);
        UnavailableMeansBroken(volume, front, w);
      } else if last == Break(w) {
        BreakEnds(After(volume, front), w);
      } else {
        StepAvailable(After(volume, front), last, w);
      }
    }
  }
}
