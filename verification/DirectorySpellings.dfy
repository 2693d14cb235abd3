/**
 * How stored names are spelled. A volume that ignores case files a node under its folded name but goes on listing
 * the spelling it was created with; over every run that spelling is the one and only encoding of its segment.
 */
module DirectorySpellings {
  import opened Wrappers
  import opened Texts
  import opened Bytes
  import opened SegmentCodec
  import opened ObjectKeys
  import opened CreateProtocol
  import opened CreateRuns

  ghost predicate IsEncoding(name: Text) {
    exists segment :: name == Encode(segment)
  }

  /** The spelling files under the path's last name, and is an encoding unless it is a temporary's. */
  ghost predicate SpelledRight(volume: Volume, path: Path, spelling: Text) {
    && path != [] && Filed(volume, spelling) == path[|path| - 1]
    && (Temporary(path) || IsEncoding(spelling))
  }

  ghost predicate AllSpelled(s: System) {
    forall path :: path in s.nodes ==> path in s.spelled && SpelledRight(s.volume, path, s.spelled[path])
  }

  lemma KeySpelled(volume: Volume, key: Key, depth: nat)
    requires depth < |PathOf(volume, key)|
    ensures Filed(volume, SpellingAt(key, depth)) == PathOf(volume, key)[depth] && IsEncoding(SpellingAt(key, depth))
  {
    NameAt(volume, Split(key), depth);
  }

  lemma PlaceSpelled(s: System, path: Path, node: Node, spelling: Text)
    requires AllSpelled(s) && SpelledRight(s.volume, path, spelling)
    ensures AllSpelled(Place(s, path, node, spelling))
  {
  }

  lemma DirSpelled(s: System, w: nat)
    requires AllSpelled(s) && w in s.writers && Addressed(s.volume, s.writers[w])
    ensures AllSpelled(MakingDir(s, w))
  {
    var writer := s.writers[w];
    var gap := FirstGap(s.nodes, ParentOf(writer.target));
    if gap.Some? && gap.value !in s.nodes {
      var depth := |gap.value| - 1;
      assert gap.value[depth] == writer.target[depth];
      KeySpelled(s.volume, writer.key, depth);
      PlaceSpelled(s, gap.value, Dir, SpellingAt(writer.key, depth));
    }
  }

  lemma TempSpelled(s: System, w: nat)
    requires AllSpelled(s) && w in s.writers && Addressed(s.volume, s.writers[w])
    ensures AllSpelled(OpeningTemp(s, w))
  {
    var writer := s.writers[w];
    TempPlaced(s.volume, writer.target, writer.uuid);
    PlaceSpelled(s, writer.temp, File(s.made), TMP + writer.uuid);
  }

  lemma TargetSpelled(s: System, w: nat)
    requires AllSpelled(s) && w in s.writers && Addressed(s.volume, s.writers[w])
    ensures AllSpelled(LinkingTarget(s, w))
  {
    var writer := s.writers[w];
    if IsFile(s.nodes, writer.temp) {
      KeySpelled(s.volume, writer.key, |writer.target| - 1);
      PlaceSpelled(s, writer.target, s.nodes[writer.temp], SpellingAt(writer.key, |writer.target| - 1));
    }
  }

  lemma OtherSpelled(s: System, step: Step)
    requires AllSpelled(s) && !step.MakeDir? && !step.Open? && !step.Link?
    ensures AllSpelled(Next(s, step))
  {
  }

  lemma StepSpelled(s: System, step: Step)
    requires AllSpelled(s) && AllAddressed(s.volume, s)
    ensures AllSpelled(Next(s, step))
  {
    if step.MakeDir? || step.Open? || step.Link? {
      if step.w in s.writers {
        var phase := s.writers[step.w].phase;
        assert Addressed(s.volume, s.writers[step.w]);
        if step.MakeDir? && phase.MakingDirs? { DirSpelled(s, step.w); }
        if step.Open? && phase.Opening? { TempSpelled(s, step.w); }
        if step.Link? && phase.Linking? { TargetSpelled(s, step.w); }
      }
    } else {
      OtherSpelled(s, step);
    }
  }

  /** In every interleaving every name is spelled as the encoder spells it, temporaries aside. */
  lemma {:induction false} RunSpelled(volume: Volume, run: seq<Step>)
    ensures AllSpelled(After(volume, run))
  {
    if run != [] {
      RunSpelled(volume, run[..|run| - 1]);
      RunAddressed(volume, run[..|run| - 1]);
      StepSpelled(After(volume, run[..|run| - 1]), run[|run| - 1]);
    }
  }

  /** A name that stands where a segment's name is filed is spelled exactly as that segment's encoding. */
  lemma SpelledAs(s: System, path: Path, segment: Segment)
    requires AllSpelled(s) && path in s.nodes && !Temporary(path)
    requires path != [] && path[|path| - 1] == Filed(s.volume, Encode(segment))
    ensures path in s.spelled && s.spelled[path] == Encode(segment)
  {
    var other :| s.spelled[path] == Encode(other);
    FiledInjective(s.volume, other, segment);
  }
}
