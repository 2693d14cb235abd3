/** What the callers of concurrent creates are told, and what they may conclude from it. */
module CreateAnswers {
  import opened Wrappers
  import opened Texts
  import opened Bytes
  import opened ObjectKeys
  import opened CreateProtocol
  import opened CreateRuns

  /** The writer had answered its caller by moment `i` of the run. */
  predicate Told(volume: Volume, run: seq<Step>, i: nat, w: nat, reply: Reply)
    requires i <= |run|
  {
    w in After(volume, run[..i]).writers && Answer(After(volume, run[..i]).writers[w]) == Some(reply)
  }

  /** A caller is told once: no later step changes its answer. */
  lemma {:induction false} ToldForGood(volume: Volume, run: seq<Step>, i: nat, w: nat, reply: Reply)
    requires i <= |run| && Told(volume, run, i, w, reply)
    ensures w in After(volume, run).writers && Answer(After(volume, run).writers[w]) == Some(reply)
    ensures After(volume, run).writers[w].key == After(volume, run[..i]).writers[w].key
    decreases |run|
  {
    if i == |run| {
      assert run[..i] == run;
    } else {
      var init := run[..|run| - 1];
      assert init[..i] == run[..i];
      ToldForGood(volume, init, i, w, reply);
      StepContinues(After(volume, init), run[|run| - 1], w);
    }
  }

  /** At most one caller of a key is ever told "created", whenever each is told. */
  lemma OneToldCreated(volume: Volume, run: seq<Step>, i: nat, j: nat, v: nat, w: nat)
    requires i <= |run| && j <= |run| && Told(volume, run, i, v, Created) && Told(volume, run, j, w, Created)
    requires After(volume, run[..i]).writers[v].key == After(volume, run[..j]).writers[w].key
    ensures v == w
  {
    ToldForGood(volume, run, i, v, Created);
    ToldForGood(volume, run, j, w, Created);
    AtMostOneCreated(volume, run, v, w);
  }

  /**
   * Whoever is told "created" finds its own bytes under the key at every later moment, and whoever is told
   * "conflict" finds at every later moment the bytes that were there when it was told.
   */
  lemma ToldVisible(volume: Volume, run: seq<Step>, i: nat, w: nat)
    requires i <= |run| && w in After(volume, run[..i]).writers
    ensures var writer := After(volume, run[..i]).writers[w];
            && (Told(volume, run, i, w, Created) ==> Visible(After(volume, run), writer.key) == Some(writer.bytes))
            && (Told(volume, run, i, w, Conflict) ==>
                  && Visible(After(volume, run), writer.key).Some?
                  && Visible(After(volume, run), writer.key) == Visible(After(volume, run[..i]), writer.key))
  {
    var writer := After(volume, run[..i]).writers[w];
    ReportedVisible(volume, run[..i], w);
    if Told(volume, run, i, w, Created) || Told(volume, run, i, w, Conflict) {
      VisibleForever(volume, run, i, writer.key);
    }
  }

  /** A writer about to make its hard link, with nothing in the way. */
  predicate MayLink(s: System, w: nat) {
    && w in s.writers && s.writers[w].phase.Linking?
    && IsFile(s.nodes, s.writers[w].temp) && IsDir(s.nodes, ParentOf(s.writers[w].target))
    && s.writers[w].target !in s.nodes
  }

  lemma TimedOutLinks(s: System, w: nat)
    requires MayLink(s, w)
    ensures var t := Next(Next(s, TimeOut(w)), Link(w));
            && w in t.writers && t.writers[w].key == s.writers[w].key && t.writers[w].bytes == s.writers[w].bytes
            && Answer(t.writers[w]) == Some(Failed(Timeout)) && Outcome(t.writers[w]) == Some(Created)
  {
    assert Next(s, TimeOut(w)) == Put(s, w, s.writers[w].(timedOut := true));
  }

  /**
   * A caller told "timeout" knows nothing: in any run, a writer about to link that is timed out first still ends
   * as created, with its bytes visible for good.
   */
  lemma TimedOutStillCreates(volume: Volume, run: seq<Step>, w: nat)
    requires MayLink(After(volume, run), w)
    ensures var writer := After(volume, run).writers[w];
            var later := run + [TimeOut(w)] + [Link(w)];
            && Told(volume, later, |later|, w, Failed(Timeout)) && w in After(volume, later).writers
            && Outcome(After(volume, later).writers[w]) == Some(Created)
            && Visible(After(volume, later), writer.key) == Some(writer.bytes)
  {
    var later := run + [TimeOut(w)] + [Link(w)];
    OneMore(volume, run, TimeOut(w));
    OneMore(volume, run + [TimeOut(w)], Link(w));
    TimedOutLinks(After(volume, run), w);
    assert later[..|later|] == later;
    ReportedVisible(volume, later, w);
  }

  // ----- Such runs exist -----

  /** One writer alone with its own file. */
  function Solo(volume: Volume, writer: Writer, written: seq<Byte>): System {
    System(volume, map[writer.temp := File(0)], map[writer.temp := TMP + writer.uuid], 1, map[0 := written], map[0 := writer])
  }

  lemma SoloOpens(volume: Volume, key: Key, bytes: seq<Byte>, uuid: Text)
    requires CheckKey(key) && NameLimits(PathOf(volume, key)) && |PathOf(volume, key)| == 1
    ensures var writer := NewWriter(volume, key, bytes, uuid);
            After(volume, [Start(0, key, bytes, uuid)] + [MakeDir(0)] + [Open(0)])
            == Solo(volume, writer.(phase := Writing(0), inode := Some(0)), [])
  {
    var writer := NewWriter(volume, key, bytes, uuid);
    var begun := System(volume, map[], map[], 0, map[], map[0 := writer]);
    var start := [Start(0, key, bytes, uuid)];
    assert [] + start == start;
    OneMore(volume, [], Start(0, key, bytes, uuid));
    assert After(volume, start) == begun;
    OneMore(volume, start, MakeDir(0));
    SoloMakesDirs(begun);
    OneMore(volume, start + [MakeDir(0)], Open(0));
    SoloMakesTemp(begun);
  }

  lemma SoloMakesDirs(s: System)
    requires s.writers.Keys == {0} && s.writers[0].phase.MakingDirs? && |s.writers[0].target| == 1
    ensures Next(s, MakeDir(0)) == s.(writers := map[0 := s.writers[0].(phase := Opening)])
  {
    assert ParentOf(s.writers[0].target) == [];
    assert Next(s, MakeDir(0)) == Put(s, 0, s.writers[0].(phase := Opening));
    assert s.writers[0 := s.writers[0].(phase := Opening)] == map[0 := s.writers[0].(phase := Opening)];
  }

  lemma SoloMakesTemp(s: System)
    requires s.writers.Keys == {0} && |s.writers[0].target| == 1
    requires s.nodes == map[] && s.spelled == map[] && s.made == 0 && s.contents == map[]
    ensures var writer := s.writers[0];
            Next(s.(writers := map[0 := writer.(phase := Opening)]), Open(0))
            == Solo(s.volume, writer.(phase := Writing(0), inode := Some(0)), [])
  {
    assert ParentOf(s.writers[0].target) == [];
  }

  lemma SoloWrites(volume: Volume, writer: Writer)
    requires writer.phase == Writing(0) && writer.inode == Some(0)
    ensures Next(Next(Solo(volume, writer, []), Write(0, |writer.bytes|)), Sync(0))
            == Solo(volume, writer.(phase := Linking), writer.bytes)
  {
    assert writer.bytes[..|writer.bytes|] == writer.bytes;
    assert Next(Solo(volume, writer, []), Write(0, |writer.bytes|))
        == Solo(volume, writer.(phase := Writing(|writer.bytes|)), writer.bytes);
  }

  /** Every key of one segment, whatever its bytes, is about to be linked after five steps of a lone writer. */
  lemma LoneWriterMayLink(volume: Volume, key: Key, bytes: seq<Byte>, uuid: Text)
    requires CheckKey(key) && NameLimits(PathOf(volume, key)) && |PathOf(volume, key)| == 1
    ensures var run := [Start(0, key, bytes, uuid)] + [MakeDir(0)] + [Open(0)] + [Write(0, |bytes|)] + [Sync(0)];
            MayLink(After(volume, run), 0) && After(volume, run).writers[0].bytes == bytes
  {
    var begun := [Start(0, key, bytes, uuid)] + [MakeDir(0)] + [Open(0)];
    var writer := NewWriter(volume, key, bytes, uuid).(phase := Writing(0), inode := Some(0));
    SoloOpens(volume, key, bytes, uuid);
    OneMore(volume, begun, Write(0, |bytes|));
    OneMore(volume, begun + [Write(0, |bytes|)], Sync(0));
    SoloWrites(volume, writer);
    TempApart(volume, key, uuid);
    SoloLinks(volume, writer.(phase := Linking));
  }

  lemma TempApart(volume: Volume, key: Key, uuid: Text)
    requires CheckKey(key)
    ensures TempOf(volume, PathOf(volume, key), uuid) != PathOf(volume, key)
  {
    KeyPathObject(volume, key);
    TempPlaced(volume, PathOf(volume, key), uuid);
  }

  lemma SoloLinks(volume: Volume, writer: Writer)
    requires writer.phase.Linking? && |writer.target| == 1 && writer.temp != writer.target
    ensures MayLink(Solo(volume, writer, writer.bytes), 0)
  {
    assert ParentOf(writer.target) == [];
  }
}
