/** Whether a tree of runs can still progress: a memoised search, and the plain meaning it computes. */
module RunTree {
  import opened Wrappers
  import opened Texts
  import opened RunMeaning

  predicate IsTerminal(status: Status) {
    status == Succeeded || status == FailedRun || status == Cancelled
  }

  function RunsOf(entries: seq<TreeRun>): map<Text, Run> {
    if entries == [] then map[]
    else
      var last := entries[|entries| - 1].run;
      RunsOf(entries[..|entries| - 1])[last.runId := last]
  }

  predicate LinkedTo(entry: TreeRun, key: (Text, Text)) {
    entry.parentRunId == Some(key.0) && entry.invocationId == Some(key.1)
  }

  /** The runs linked to one wait, in order of listing. */
  function Linked(entries: seq<TreeRun>, key: (Text, Text)): seq<Run> {
    if entries == [] then []
    else
      var last := entries[|entries| - 1];
      Linked(entries[..|entries| - 1], key) + if LinkedTo(last, key) then [last.run] else []
  }

  /** The index of a list of tree runs. */
  ghost predicate IndexOf(entries: seq<TreeRun>, index: Index) {
    && index.runs == RunsOf(entries)
    && (forall key :: (key in index.children <==> Linked(entries, key) != []))
    && (forall key :: key in index.children ==> index.children[key] == Linked(entries, key))
  }

  method IndexTree(entries: seq<TreeRun>) returns (index: Index)
    ensures IndexOf(entries, index) && Indexes(entries, index)
  {
    index := Index(map[], map[]);
    for i := 0 to |entries|
      invariant IndexOf(entries[..i], index)
    {
      var entry := entries[i];
      ChildrenStep(entries, i, index);
      index := index.(runs := index.runs[entry.run.runId := entry.run]);
      if entry.parentRunId.None? || entry.invocationId.None? {
        continue;
      }
      var key := (entry.parentRunId.value, entry.invocationId.value);
      if key !in index.children {
        index := index.(children := index.children[key := [entry.run]]);
      } else {
        index := index.(children := index.children[key := index.children[key] + [entry.run]]);
      }
    }
    assert entries[..|entries|] == entries;
    IndexTold(entries, index);
  }

  /** The children once an entry is linked under its key, if it has one. */
  function Linking(children: map<(Text, Text), seq<Run>>, entry: TreeRun): map<(Text, Text), seq<Run>> {
    if entry.parentRunId.None? || entry.invocationId.None? then children
    else
      var key := (entry.parentRunId.value, entry.invocationId.value);
      children[key := (if key in children then children[key] else []) + [entry.run]]
  }

  lemma ChildrenStep(entries: seq<TreeRun>, i: nat, index: Index)
    requires i < |entries| && IndexOf(entries[..i], index)
    ensures IndexOf(entries[..i + 1],
                    Index(index.runs[entries[i].run.runId := entries[i].run], Linking(index.children, entries[i])))
  {
    var entry, next := entries[i], Linking(index.children, entries[i]);
    assert entries[..i + 1][..i] == entries[..i];
    forall key
      ensures key in next <==> Linked(entries[..i + 1], key) != []
      ensures key in next ==> next[key] == Linked(entries[..i + 1], key)
    {
      LinkedStep(entries, i, key);
    }
  }

  lemma LinkedStep(entries: seq<TreeRun>, i: nat, key: (Text, Text))
    requires i < |entries|
    ensures Linked(entries[..i + 1], key) ==
            Linked(entries[..i], key) + if LinkedTo(entries[i], key) then [entries[i].run] else []
  {
    assert entries[..i + 1][..i] == entries[..i];
  }

  lemma {:induction false} RunsMeaning(entries: seq<TreeRun>, id: Text)
    ensures id in RunsOf(entries) <==> exists i :: Current(entries, id, i)
    ensures forall i :: Current(entries, id, i) ==> id in RunsOf(entries) && RunsOf(entries)[id] == entries[i].run
  {
    if entries != [] {
      var init, last := entries[..|entries| - 1], |entries| - 1;
      RunsMeaning(init, id);
      if entries[last].run.runId == id {
        assert Current(entries, id, last);
      } else {
        forall i
          ensures Current(entries, id, i) <==> Current(init, id, i)
        {
          CurrentInit(entries, id, i);
        }
      }
    }
  }

  lemma CurrentInit(entries: seq<TreeRun>, id: Text, i: int)
    requires entries != [] && entries[|entries| - 1].run.runId != id
    ensures Current(entries, id, i) <==> Current(entries[..|entries| - 1], id, i)
  {
    var init := entries[..|entries| - 1];
    assert forall j :: 0 <= j < |init| ==> init[j] == entries[j];
  }

  /** The places of the runs linked to one wait. */
  function Places(entries: seq<TreeRun>, key: (Text, Text)): (places: seq<nat>)
    ensures forall i :: 0 <= i < |places| ==> places[i] < |entries|
  {
    if entries == [] then []
    else
      var last := |entries| - 1;
      Places(entries[..last], key) + if LinkedTo(entries[last], key) then [last] else []
  }

  lemma {:induction false} PlacesListed(entries: seq<TreeRun>, key: (Text, Text))
    ensures Listed(entries, key, Places(entries, key), Linked(entries, key))
  {
    if entries != [] {
      var init, last := entries[..|entries| - 1], |entries| - 1;
      PlacesListed(init, key);
      assert forall j :: 0 <= j < |init| ==> init[j] == entries[j];
      forall c
        ensures ChildOf(entries, c, key.0, key.1) <==> ChildOf(init, c, key.0, key.1) || (c == last && LinkedTo(entries[last], key))
      {
      }
    }
  }

  lemma LinkedSome(entries: seq<TreeRun>, runId: Text, waitId: Text)
    ensures Linked(entries, (runId, waitId)) != [] <==> exists c :: ChildOf(entries, c, runId, waitId)
  {
    var places := Places(entries, (runId, waitId));
    PlacesListed(entries, (runId, waitId));
    if places != [] {
      assert places[0] in places;
      assert ChildOf(entries, places[0], runId, waitId);
    }
  }

  lemma ChildrenListed(entries: seq<TreeRun>, index: Index, key: (Text, Text))
    requires IndexOf(entries, index) && key in index.children
    ensures exists places :: Listed(entries, key, places, index.children[key])
  {
    PlacesListed(entries, key);
  }

  /** The index tells which run is current under each id and which are linked to each wait. */
  lemma IndexTold(entries: seq<TreeRun>, index: Index)
    requires IndexOf(entries, index)
    ensures Indexes(entries, index)
  {
    forall id
      ensures id in index.runs <==> exists i :: Current(entries, id, i)
      ensures forall i :: Current(entries, id, i) ==> id in index.runs && index.runs[id] == entries[i].run
    {
      RunsMeaning(entries, id);
    }
    forall runId, waitId
      ensures (runId, waitId) in index.children <==> exists c :: ChildOf(entries, c, runId, waitId)
    {
      LinkedSome(entries, runId, waitId);
    }
    forall key | key in index.children
      ensures exists places :: Listed(entries, key, places, index.children[key])
    {
      ChildrenListed(entries, index, key);
    }
  }

  // ----- What it means to be able to progress -----

  /** Neither over nor waiting for an operator. */
  predicate Alive(run: Run) {
    !IsTerminal(run.status) && run.status != NeedsResolution
  }

  /** A tool wait whose outcome is on its way: nothing is linked to it yet, or a linked run has ended. */
  predicate Answered(index: Index, runId: Text, wait: Wait) {
    && wait.toolWait
    && var key := (runId, wait.waitId);
       key !in index.children || exists c :: 0 <= c < |index.children[key]| && IsTerminal(index.children[key][c].status)
  }

  /** A run that can advance by itself: at work, waiting for nothing, or with an answered wait. */
  predicate Ready(index: Index, runId: Text) {
    && runId in index.runs && Alive(index.runs[runId])
    && (index.runs[runId].status != Waiting || index.runs[runId].waits == []
        || exists w :: 0 <= w < |index.runs[runId].waits| && Answered(index, runId, index.runs[runId].waits[w]))
  }

  /** The runs linked to one wait that could answer it. */
  function LinkedIds(index: Index, runId: Text, wait: Wait): set<Text> {
    if wait.toolWait && (runId, wait.waitId) in index.children
    then set c | 0 <= c < |index.children[(runId, wait.waitId)]| :: index.children[(runId, wait.waitId)][c].runId
    else {}
  }

  /** The runs a waiting run may be advanced by. */
  function Blockers(index: Index, runId: Text): set<Text> {
    if runId in index.runs && index.runs[runId].status == Waiting
    then set w, id | 0 <= w < |index.runs[runId].waits| && id in LinkedIds(index, runId, index.runs[runId].waits[w]) :: id
    else {}
  }

  ghost predicate AdvancesWithin(index: Index, runId: Text, n: nat)
    decreases n
  {
    Ready(index, runId) || (n > 0 && exists id :: id in Blockers(index, runId) && AdvancesWithin(index, id, n - 1))
  }

  /** The plain meaning: some chain of waits leads from the run to one that is ready. */
  ghost predicate CanAdvance(index: Index, runId: Text) {
    exists n: nat :: AdvancesWithin(index, runId, n)
  }

  /** Chains and statuses agree on what can advance by this many links. */
  ghost predicate SameWithin(index: Index, n: nat) {
    forall id :: AdvancesWithin(index, id, n) <==> Advances(index, id, n)
  }

  lemma {:induction false} WithinAnswers(index: Index, runId: Text, w: int, n: nat)
    requires runId in index.runs && index.runs[runId].status == Waiting && 0 <= w < |index.runs[runId].waits|
    requires n > 0 ==> SameWithin(index, n - 1)
    ensures WaitAnswered(index, runId, w, n) <==>
            || Answered(index, runId, index.runs[runId].waits[w])
            || (n > 0 && exists id :: id in LinkedIds(index, runId, index.runs[runId].waits[w]) && AdvancesWithin(index, id, n - 1))
  {
    var wait := index.runs[runId].waits[w];
    var key := (runId, wait.waitId);
    if wait.toolWait && key in index.children {
      forall c | 0 <= c < |index.children[key]|
        ensures ChildAnswers(index, key, c, n) <==>
                || IsTerminal(index.children[key][c].status)
                || (n > 0 && AdvancesWithin(index, index.children[key][c].runId, n - 1))
      {
      }
      if c :| 0 <= c < |index.children[key]| && IsTerminal(index.children[key][c].status) {
        assert ChildAnswers(index, key, c, n);
      }
      if n > 0 {
        if id :| id in LinkedIds(index, runId, wait) && AdvancesWithin(index, id, n - 1) {
          var c :| 0 <= c < |index.children[key]| && index.children[key][c].runId == id;
          assert ChildAnswers(index, key, c, n);
        }
        if c :| 0 <= c < |index.children[key]| && AdvancesWithin(index, index.children[key][c].runId, n - 1) {
          assert index.children[key][c].runId in LinkedIds(index, runId, wait);
        }
      }
    }
  }

  lemma WaitingAdvances(index: Index, runId: Text, n: nat)
    requires runId in index.runs && index.runs[runId].status == Waiting
    requires n > 0 ==> SameWithin(index, n - 1)
    ensures AdvancesWithin(index, runId, n) <==> Advances(index, runId, n)
  {
    var waits := index.runs[runId].waits;
    forall w | 0 <= w < |waits|
      ensures WaitAnswered(index, runId, w, n) <==>
              || Answered(index, runId, waits[w])
              || (n > 0 && exists id :: id in LinkedIds(index, runId, waits[w]) && AdvancesWithin(index, id, n - 1))
    {
      WithinAnswers(index, runId, w, n);
    }
    if w :| 0 <= w < |waits| && Answered(index, runId, waits[w]) {
      assert WaitAnswered(index, runId, w, n);
    }
    if n > 0 {
      if id :| id in Blockers(index, runId) && AdvancesWithin(index, id, n - 1) {
        var w :| 0 <= w < |waits| && id in LinkedIds(index, runId, waits[w]);
        assert WaitAnswered(index, runId, w, n);
      }
      if w, id :| 0 <= w < |waits| && id in LinkedIds(index, runId, waits[w]) && AdvancesWithin(index, id, n - 1) {
        assert id in Blockers(index, runId);
      }
    }
  }

  lemma {:induction false} WithinMeaning(index: Index, n: nat)
    ensures SameWithin(index, n)
    decreases n
  {
    if n > 0 {
      WithinMeaning(index, n - 1);
    }
    forall runId
      ensures AdvancesWithin(index, runId, n) <==> Advances(index, runId, n)
    {
      if runId in index.runs && index.runs[runId].status == Waiting {
        WaitingAdvances(index, runId, n);
      }
    }
  }

  /** A chain to a ready run is what lets a run advance, told status by status. */
  lemma AdvanceMeaning(index: Index, runId: Text)
    ensures CanAdvance(index, runId) <==> MayAdvance(index, runId)
  {
    if n: nat :| AdvancesWithin(index, runId, n) {
      WithinMeaning(index, n);
    }
    if n: nat :| Advances(index, runId, n) {
      WithinMeaning(index, n);
    }
  }

  lemma AdvancesBy(index: Index, runId: Text, id: Text)
    requires id in Blockers(index, runId) && CanAdvance(index, id)
    ensures CanAdvance(index, runId)
  {
    var n: nat :| AdvancesWithin(index, id, n);
    assert AdvancesWithin(index, runId, n + 1);
  }

  lemma ReadyAdvances(index: Index, runId: Text)
    requires Ready(index, runId)
    ensures CanAdvance(index, runId)
  {
    assert AdvancesWithin(index, runId, 0);
  }

  lemma NeverAdvances(index: Index, runId: Text)
    requires !Ready(index, runId) && forall id :: id in Blockers(index, runId) ==> !CanAdvance(index, id)
    ensures !CanAdvance(index, runId)
  {
    forall n: nat
      ensures !AdvancesWithin(index, runId, n)
    {
      forall id | id in Blockers(index, runId) && n > 0
        ensures !AdvancesWithin(index, id, n - 1)
      {
        assert !CanAdvance(index, id);
      }
    }
  }

  // ----- The memoised search -----

  predicate Blocks(index: Index, runId: Text, id: Text) {
    id in Blockers(index, runId)
  }

  /** A run blocks another exactly when it is linked to a tool wait of the other, which is waiting. */
  lemma BlocksMeaning(index: Index, runId: Text, id: Text)
    ensures Blocks(index, runId, id) <==> exists w, c :: WaitsOn(index, runId, w, c, id)
  {
    if Blocks(index, runId, id) {
      var waits := index.runs[runId].waits;
      var w :| 0 <= w < |waits| && id in LinkedIds(index, runId, waits[w]);
      var key := (runId, waits[w].waitId);
      var c :| 0 <= c < |index.children[key]| && index.children[key][c].runId == id;
      assert WaitsOn(index, runId, w, c, id);
    }
    if w, c :| WaitsOn(index, runId, w, c, id) {
      assert id in LinkedIds(index, runId, index.runs[runId].waits[w]);
    }
  }

  /** Links never lead back: every linked run ranks below the run waiting for it. */
  ghost predicate Acyclic(index: Index, rank: map<Text, nat>) {
    forall runId, id :: Blocks(index, runId, id) ==> runId in rank && id in rank && rank[id] < rank[runId]
  }

  type Memo = map<Text, bool>

  datatype Answer = Answer(yes: bool, memo: Memo)

  /** What the search answers with a memo, and the memo it leaves. A run being looked at is remembered as no. */
  function Searched(index: Index, memo: Memo, runId: Text): (a: Answer)
    ensures memo.Keys + {runId} <= a.memo.Keys
    decreases index.runs.Keys - memo.Keys, 0
  {
    if runId in memo then Answer(memo[runId], memo)
    else if runId !in index.runs || !Alive(index.runs[runId]) then Answer(false, memo[runId := false])
    else if index.runs[runId].status != Waiting || index.runs[runId].waits == [] then Answer(true, memo[runId := true])
    else
      assert runId in index.runs.Keys - memo.Keys;
      var a := WaitsSearched(index, memo[runId := false], runId, index.runs[runId].waits);
      Answer(a.yes, a.memo[runId := a.yes])
  }

  function WaitsSearched(index: Index, memo: Memo, runId: Text, waits: seq<Wait>): (a: Answer)
    ensures memo.Keys <= a.memo.Keys
    decreases index.runs.Keys - memo.Keys, 3, |waits|
  {
    if waits == [] then Answer(false, memo)
    else
      var a := WaitSearched(index, memo, runId, waits[0]);
      assert index.runs.Keys - a.memo.Keys <= index.runs.Keys - memo.Keys;
      if a.yes then a else WaitsSearched(index, a.memo, runId, waits[1..])
  }

  function WaitSearched(index: Index, memo: Memo, runId: Text, wait: Wait): (a: Answer)
    ensures memo.Keys <= a.memo.Keys
    decreases index.runs.Keys - memo.Keys, 2
  {
    if !wait.toolWait then Answer(false, memo)
    else if (runId, wait.waitId) !in index.children then Answer(true, memo)
    else LinkedSearched(index, memo, index.children[(runId, wait.waitId)])
  }

  function LinkedSearched(index: Index, memo: Memo, linked: seq<Run>): (a: Answer)
    ensures memo.Keys <= a.memo.Keys
    decreases index.runs.Keys - memo.Keys, 1, |linked|
  {
    if linked == [] then Answer(false, memo)
    else if IsTerminal(linked[0].status) then Answer(true, memo)
    else
      var a := Searched(index, memo, linked[0].runId);
      assert index.runs.Keys - a.memo.Keys <= index.runs.Keys - memo.Keys;
      if a.yes then a else LinkedSearched(index, a.memo, linked[1..])
  }

  /** The memo one or more searches of one index share. */
  class Search {
    var memo: Memo
    const index: Index

    constructor (index: Index)
      ensures memo == map[] && this.index == index
    {
      memo := map[];
      this.index := index;
    }

    /** May the run progress? The runs absent from the memo bound the search, on cyclic links as well. */
    method CanProgress(runId: Text) returns (r: bool)
      modifies this`memo
      ensures Answer(r, memo) == Searched(index, old(memo), runId)
      decreases index.runs.Keys - memo.Keys, 0
    {
      if runId in memo {
        return memo[runId];
      }
      memo := memo[runId := false];
      if runId !in index.runs || !Alive(index.runs[runId]) {
        return false;
      }
      if index.runs[runId].status != Waiting || index.runs[runId].waits == [] {
        memo := memo[runId := true];
        return true;
      }
      assert runId in old(index.runs.Keys - memo.Keys) && runId !in index.runs.Keys - memo.Keys;
      r := SomeWait(runId, index.runs[runId].waits);
      memo := memo[runId := r];
    }

    /** Could one of the run's waits be answered? */
    method SomeWait(runId: Text, waits: seq<Wait>) returns (r: bool)
      modifies this`memo
      ensures Answer(r, memo) == WaitsSearched(index, old(memo), runId, waits)
      decreases index.runs.Keys - memo.Keys, 3
    {
      for i := 0 to |waits|
        invariant old(memo.Keys) <= memo.Keys
        invariant WaitsSearched(index, memo, runId, waits[i..]) == WaitsSearched(index, old(memo), runId, waits)
      {
        assert waits[i..][0] == waits[i] && waits[i..][1..] == waits[i + 1..];
        assert index.runs.Keys - memo.Keys <= old(index.runs.Keys - memo.Keys);
        r := SomeChild(runId, waits[i]);
        if r {
          return;
        }
      }
      r := false;
    }

    /** Could this wait be answered by a run linked to it? */
    method SomeChild(runId: Text, wait: Wait) returns (r: bool)
      modifies this`memo
      ensures Answer(r, memo) == WaitSearched(index, old(memo), runId, wait)
      decreases index.runs.Keys - memo.Keys, 2
    {
      if !wait.toolWait {
        return false;
      }
      if (runId, wait.waitId) !in index.children {
        return true;
      }
      var linked := index.children[(runId, wait.waitId)];
      for c := 0 to |linked|
        invariant old(memo.Keys) <= memo.Keys
        invariant LinkedSearched(index, memo, linked[c..]) == LinkedSearched(index, old(memo), linked)
      {
        assert linked[c..][0] == linked[c] && linked[c..][1..] == linked[c + 1..];
        assert index.runs.Keys - memo.Keys <= old(index.runs.Keys - memo.Keys);
        if IsTerminal(linked[c].status) {
          return true;
        }
        r := CanProgress(linked[c].runId);
        if r {
          return;
        }
      }
      r := false;
    }
  }

  // ----- What a memo is worth -----

  /** A remembered yes is right. */
  ghost predicate Sound(index: Index, memo: Memo) {
    forall id :: id in memo && memo[id] ==> CanAdvance(index, id)
  }

  /** Every finished no was not ready, with all its blockers remembered too; `open` runs are still being looked at. */
  ghost predicate Finished(index: Index, memo: Memo, open: set<Text>) {
    forall id :: id in memo && id !in open && !memo[id] ==> !Ready(index, id) && Blockers(index, id) <= memo.Keys
  }

  ghost predicate AllNo(memo: Memo) {
    forall id :: id in memo ==> !memo[id]
  }

  /** What any part of a search keeps of the memo it starts with. */
  ghost predicate Carries(index: Index, memo: Memo, open: set<Text>, a: Answer) {
    && Sound(index, a.memo)
    && (Finished(index, memo, open) ==> Finished(index, a.memo, open))
    && (AllNo(memo) && !a.yes ==> AllNo(a.memo))
  }

  lemma CarriesThen(index: Index, memo: Memo, open: set<Text>, a: Answer, b: Answer)
    requires Carries(index, memo, open, a) && !a.yes && Carries(index, a.memo, open, b)
    ensures Carries(index, memo, open, b)
  {
  }

  /** A wait found unanswered, with everything linked to it looked at. */
  ghost predicate Refused(index: Index, seen: set<Text>, runId: Text, wait: Wait) {
    !Answered(index, runId, wait) && LinkedIds(index, runId, wait) <= seen
  }

  predicate WaitsFor(index: Index, runId: Text, wait: Wait) {
    runId in index.runs && index.runs[runId].status == Waiting && wait in index.runs[runId].waits
  }

  /** A run linked to one of the tool waits of a waiting run. */
  ghost predicate LinkedRun(index: Index, runId: Text, child: Run) {
    child.runId in Blockers(index, runId) && (IsTerminal(child.status) ==> Ready(index, runId))
  }

  lemma LinkedBlock(index: Index, runId: Text, wait: Wait, child: Run)
    requires WaitsFor(index, runId, wait) && wait.toolWait && (runId, wait.waitId) in index.children
    requires child in index.children[(runId, wait.waitId)]
    ensures LinkedRun(index, runId, child)
  {
    var linked := index.children[(runId, wait.waitId)];
    var w :| 0 <= w < |index.runs[runId].waits| && index.runs[runId].waits[w] == wait;
    var c :| 0 <= c < |linked| && linked[c] == child;
    assert child.runId in LinkedIds(index, runId, index.runs[runId].waits[w]);
    if IsTerminal(child.status) {
      assert Answered(index, runId, index.runs[runId].waits[w]);
    }
  }

  lemma Opened(index: Index, memo: Memo, open: set<Text>, runId: Text)
    requires Sound(index, memo) && runId !in memo
    ensures Sound(index, memo[runId := false])
    ensures Finished(index, memo, open) ==> Finished(index, memo[runId := false], open + {runId})
    ensures AllNo(memo) ==> AllNo(memo[runId := false])
  {
  }

  lemma Decided(index: Index, memo: Memo, open: set<Text>, runId: Text, a: Answer)
    requires Sound(index, memo) && runId !in memo && runId in a.memo
    requires Carries(index, memo[runId := false], open + {runId}, a)
    requires if a.yes then CanAdvance(index, runId) else !Ready(index, runId) && Blockers(index, runId) <= a.memo.Keys
    ensures Carries(index, memo, open, Answer(a.yes, a.memo[runId := a.yes]))
  {
    Opened(index, memo, open, runId);
  }

  /** A search keeps its memo sound and finished, remembers no yes before it answers one, and its yes is right. */
  lemma {:induction false} SearchedCarries(index: Index, memo: Memo, runId: Text, open: set<Text>)
    requires Sound(index, memo)
    ensures Carries(index, memo, open, Searched(index, memo, runId))
    ensures Searched(index, memo, runId).yes ==> CanAdvance(index, runId)
    decreases index.runs.Keys - memo.Keys, 0
  {
    var begun := memo[runId := false];
    if runId in memo {
    } else if runId !in index.runs || !Alive(index.runs[runId]) {
      Decided(index, memo, open, runId, Answer(false, begun));
    } else if index.runs[runId].status != Waiting || index.runs[runId].waits == [] {
      ReadyAdvances(index, runId);
      assert begun[runId := true] == memo[runId := true];
      AnswersYes(index, memo, open, runId);
    } else {
      var waits := index.runs[runId].waits;
      assert runId in index.runs.Keys - memo.Keys && runId !in index.runs.Keys - begun.Keys;
      Opened(index, memo, open, runId);
      WaitsCarries(index, begun, runId, waits, open + {runId});
      var a := WaitsSearched(index, begun, runId, waits);
      if !a.yes {
        AllRefused(index, runId, a.memo.Keys);
      }
      Decided(index, memo, open, runId, a);
    }
  }

  lemma AnswersYes(index: Index, memo: Memo, open: set<Text>, runId: Text)
    requires Sound(index, memo) && runId !in memo && CanAdvance(index, runId)
    ensures Carries(index, memo, open, Answer(true, memo[runId := true]))
  {
  }

  lemma AllRefused(index: Index, runId: Text, seen: set<Text>)
    requires runId in index.runs && index.runs[runId].status == Waiting && index.runs[runId].waits != []
    requires forall wait :: wait in index.runs[runId].waits ==> Refused(index, seen, runId, wait)
    ensures !Ready(index, runId) && Blockers(index, runId) <= seen
  {
    assert forall w :: 0 <= w < |index.runs[runId].waits| ==> index.runs[runId].waits[w] in index.runs[runId].waits;
  }

  lemma {:induction false} WaitsCarries(index: Index, memo: Memo, runId: Text, waits: seq<Wait>, open: set<Text>)
    requires Sound(index, memo) && forall wait :: wait in waits ==> WaitsFor(index, runId, wait)
    ensures var a := WaitsSearched(index, memo, runId, waits);
            && Carries(index, memo, open, a) && (a.yes ==> CanAdvance(index, runId))
            && (!a.yes ==> forall wait :: wait in waits ==> Refused(index, a.memo.Keys, runId, wait))
    decreases index.runs.Keys - memo.Keys, 3, |waits|
  {
    if waits != [] {
      var a := WaitSearched(index, memo, runId, waits[0]);
      WaitCarries(index, memo, runId, waits[0], open);
      assert index.runs.Keys - a.memo.Keys <= index.runs.Keys - memo.Keys;
      if !a.yes {
        assert forall wait :: wait in waits <==> wait == waits[0] || wait in waits[1..];
        WaitsCarries(index, a.memo, runId, waits[1..], open);
        CarriesThen(index, memo, open, a, WaitsSearched(index, a.memo, runId, waits[1..]));
      }
    }
  }

  lemma {:induction false} WaitCarries(index: Index, memo: Memo, runId: Text, wait: Wait, open: set<Text>)
    requires Sound(index, memo) && WaitsFor(index, runId, wait)
    ensures var a := WaitSearched(index, memo, runId, wait);
            && Carries(index, memo, open, a) && (a.yes ==> CanAdvance(index, runId))
            && (!a.yes ==> Refused(index, a.memo.Keys, runId, wait))
    decreases index.runs.Keys - memo.Keys, 2
  {
    if wait.toolWait && (runId, wait.waitId) !in index.children {
      assert Answered(index, runId, wait);
      ReadyAdvances(index, runId);
    } else if wait.toolWait {
      var linked := index.children[(runId, wait.waitId)];
      forall child | child in linked {
        LinkedBlock(index, runId, wait, child);
      }
      LinkedCarries(index, memo, runId, linked, open);
    }
  }

  lemma {:induction false} LinkedCarries(index: Index, memo: Memo, runId: Text, linked: seq<Run>, open: set<Text>)
    requires Sound(index, memo) && forall child :: child in linked ==> LinkedRun(index, runId, child)
    ensures var a := LinkedSearched(index, memo, linked);
            && Carries(index, memo, open, a) && (a.yes ==> CanAdvance(index, runId))
            && (!a.yes ==> forall child :: child in linked ==> !IsTerminal(child.status) && child.runId in a.memo)
    decreases index.runs.Keys - memo.Keys, 1, |linked|
  {
    if linked != [] {
      var child := linked[0];
      assert LinkedRun(index, runId, child);
      if IsTerminal(child.status) {
        ReadyAdvances(index, runId);
      } else {
        var a := Searched(index, memo, child.runId);
        SearchedCarries(index, memo, child.runId, open);
        assert index.runs.Keys - a.memo.Keys <= index.runs.Keys - memo.Keys;
        if a.yes {
          AdvancesBy(index, runId, child.runId);
        } else {
          assert forall c :: c in linked <==> c == child || c in linked[1..];
          LinkedCarries(index, a.memo, runId, linked[1..], open);
          CarriesThen(index, memo, open, a, LinkedSearched(index, a.memo, linked[1..]));
        }
      }
    }
  }

  // ----- Acyclic links -----

  /** Every run in `open` waits, directly or not, for `runId`. */
  ghost predicate Above(open: set<Text>, runId: Text, rank: map<Text, nat>) {
    forall id :: id in open ==> id in rank && runId in rank && rank[runId] < rank[id]
  }

  ghost predicate AtOrAbove(open: set<Text>, runId: Text, rank: map<Text, nat>) {
    forall id :: id in open && id != runId ==> id in rank && runId in rank && rank[runId] < rank[id]
  }

  lemma RankBelow(index: Index, open: set<Text>, runId: Text, id: Text, rank: map<Text, nat>)
    requires Acyclic(index, rank) && id in Blockers(index, runId) && AtOrAbove(open, runId, rank)
    ensures Above(open, id, rank)
  {
    assert Blocks(index, runId, id);
  }

  /** Every finished answer is right. */
  ghost predicate Exact(index: Index, memo: Memo, open: set<Text>) {
    forall id :: id in memo && id !in open ==> (memo[id] <==> CanAdvance(index, id))
  }

  ghost predicate Hopeless(index: Index, runId: Text, wait: Wait) {
    forall id :: id in LinkedIds(index, runId, wait) ==> !CanAdvance(index, id)
  }

  /** On acyclic links every answer is right, whatever the memo was used for before. */
  lemma {:induction false} SearchedExact(index: Index, memo: Memo, runId: Text, open: set<Text>, rank: map<Text, nat>)
    requires Sound(index, memo) && Exact(index, memo, open) && Acyclic(index, rank) && Above(open, runId, rank)
    ensures var a := Searched(index, memo, runId);
            Sound(index, a.memo) && Exact(index, a.memo, open) && (a.yes <==> CanAdvance(index, runId))
    decreases index.runs.Keys - memo.Keys, 0
  {
    SearchedCarries(index, memo, runId, open);
    var begun := memo[runId := false];
    if runId in memo {
    } else if runId !in index.runs || !Alive(index.runs[runId]) {
      NeverAdvances(index, runId);
    } else if index.runs[runId].status == Waiting && index.runs[runId].waits != [] {
      var waits := index.runs[runId].waits;
      assert runId in index.runs.Keys - memo.Keys && runId !in index.runs.Keys - begun.Keys;
      WaitsExact(index, begun, runId, waits, open + {runId}, rank);
      var a := WaitsSearched(index, begun, runId, waits);
      if !a.yes {
        WaitsCarries(index, begun, runId, waits, open + {runId});
        AllHopeless(index, runId, a.memo.Keys);
      }
    }
  }

  lemma AllHopeless(index: Index, runId: Text, seen: set<Text>)
    requires runId in index.runs && index.runs[runId].status == Waiting && index.runs[runId].waits != []
    requires forall wait :: wait in index.runs[runId].waits ==> Refused(index, seen, runId, wait) && Hopeless(index, runId, wait)
    ensures !CanAdvance(index, runId)
  {
    AllRefused(index, runId, seen);
    forall id | id in Blockers(index, runId)
      ensures !CanAdvance(index, id)
    {
      var w :| 0 <= w < |index.runs[runId].waits| && id in LinkedIds(index, runId, index.runs[runId].waits[w]);
      assert index.runs[runId].waits[w] in index.runs[runId].waits;
    }
    NeverAdvances(index, runId);
  }

  lemma {:induction false} WaitsExact(index: Index, memo: Memo, runId: Text, waits: seq<Wait>, open: set<Text>, rank: map<Text, nat>)
    requires Sound(index, memo) && Exact(index, memo, open) && Acyclic(index, rank) && AtOrAbove(open, runId, rank)
    requires forall wait :: wait in waits ==> WaitsFor(index, runId, wait)
    ensures var a := WaitsSearched(index, memo, runId, waits);
            && Exact(index, a.memo, open)
            && (!a.yes ==> forall wait :: wait in waits ==> Hopeless(index, runId, wait))
    decreases index.runs.Keys - memo.Keys, 3, |waits|
  {
    if waits != [] {
      var a := WaitSearched(index, memo, runId, waits[0]);
      WaitExact(index, memo, runId, waits[0], open, rank);
      WaitCarries(index, memo, runId, waits[0], open);
      assert index.runs.Keys - a.memo.Keys <= index.runs.Keys - memo.Keys;
      if !a.yes {
        assert forall wait :: wait in waits <==> wait == waits[0] || wait in waits[1..];
        WaitsExact(index, a.memo, runId, waits[1..], open, rank);
      }
    }
  }

  lemma {:induction false} WaitExact(index: Index, memo: Memo, runId: Text, wait: Wait, open: set<Text>, rank: map<Text, nat>)
    requires Sound(index, memo) && Exact(index, memo, open) && Acyclic(index, rank) && AtOrAbove(open, runId, rank)
    requires WaitsFor(index, runId, wait)
    ensures var a := WaitSearched(index, memo, runId, wait);
            Exact(index, a.memo, open) && (!a.yes ==> Hopeless(index, runId, wait))
    decreases index.runs.Keys - memo.Keys, 2
  {
    if wait.toolWait && (runId, wait.waitId) in index.children {
      var linked := index.children[(runId, wait.waitId)];
      forall child | child in linked {
        LinkedBlock(index, runId, wait, child);
      }
      LinkedExact(index, memo, runId, linked, open, rank);
      assert forall c :: 0 <= c < |linked| ==> linked[c] in linked;
    }
  }

  lemma {:induction false} LinkedExact(index: Index, memo: Memo, runId: Text, linked: seq<Run>, open: set<Text>, rank: map<Text, nat>)
    requires Sound(index, memo) && Exact(index, memo, open) && Acyclic(index, rank) && AtOrAbove(open, runId, rank)
    requires forall child :: child in linked ==> LinkedRun(index, runId, child)
    ensures var a := LinkedSearched(index, memo, linked);
            && Exact(index, a.memo, open)
            && (!a.yes ==> forall child :: child in linked ==> !CanAdvance(index, child.runId))
    decreases index.runs.Keys - memo.Keys, 1, |linked|
  {
    if linked != [] && !IsTerminal(linked[0].status) {
      var child := linked[0];
      assert LinkedRun(index, runId, child);
      var a := Searched(index, memo, child.runId);
      RankBelow(index, open, runId, child.runId, rank);
      SearchedExact(index, memo, child.runId, open, rank);
      assert index.runs.Keys - a.memo.Keys <= index.runs.Keys - memo.Keys;
      if !a.yes {
        assert forall c :: c in linked <==> c == child || c in linked[1..];
        LinkedExact(index, a.memo, runId, linked[1..], open, rank);
      }
    }
  }

  // ----- Remembered answers on cyclic links -----

  /** The memo any list of queries leaves. */
  function Queried(index: Index, queries: seq<Text>): Memo {
    if queries == [] then map[]
    else Searched(index, Queried(index, queries[..|queries| - 1]), queries[|queries| - 1]).memo
  }

  lemma {:induction false} QueriedFinished(index: Index, queries: seq<Text>)
    ensures Sound(index, Queried(index, queries)) && Finished(index, Queried(index, queries), {})
  {
    if queries != [] {
      var init := queries[..|queries| - 1];
      QueriedFinished(index, init);
      SearchedCarries(index, Queried(index, init), queries[|queries| - 1], {});
    }
  }

  /** No run remembered as stuck waits for one remembered as able to progress. */
  ghost predicate NoWaitsForYes(index: Index, memo: Memo) {
    forall id, blocker :: id in memo && !memo[id] && blocker in memo && Blocks(index, id, blocker) ==> !memo[blocker]
  }

  lemma {:induction false} StuckTogether(index: Index, memo: Memo, id: Text, n: nat)
    requires Finished(index, memo, {}) && NoWaitsForYes(index, memo) && id in memo && !memo[id]
    ensures !AdvancesWithin(index, id, n)
    decreases n
  {
    if n > 0 {
      forall blocker | blocker in Blockers(index, id)
        ensures !AdvancesWithin(index, blocker, n - 1)
      {
        assert Blocks(index, id, blocker) && blocker in memo;
        StuckTogether(index, memo, blocker, n - 1);
      }
    }
  }

  lemma StuckForGood(index: Index, memo: Memo, id: Text)
    requires Finished(index, memo, {}) && NoWaitsForYes(index, memo) && id in memo && !memo[id]
    ensures !CanAdvance(index, id)
  {
    forall n: nat {
      StuckTogether(index, memo, id, n);
    }
  }

  /**
   * A remembered yes is always right. After any queries, on any links, the remembered no are all right if and only
   * if none of them waits for a run remembered as yes.
   */
  lemma RememberedExactly(index: Index, queries: seq<Text>)
    ensures var memo := Queried(index, queries);
            && (forall id :: id in memo && memo[id] ==> CanAdvance(index, id))
            && ((forall id :: id in memo && !memo[id] ==> !CanAdvance(index, id)) <==> NoWaitsForYes(index, memo))
  {
    var memo := Queried(index, queries);
    QueriedFinished(index, queries);
    if NoWaitsForYes(index, memo) {
      forall id | id in memo && !memo[id]
        ensures !CanAdvance(index, id)
      {
        StuckForGood(index, memo, id);
      }
    } else {
      var id, blocker :| id in memo && !memo[id] && blocker in memo && Blocks(index, id, blocker) && memo[blocker];
      AdvancesBy(index, id, blocker);
    }
  }

  /** `a` waits for `b` and for `c`, `b` waits for `a`, and `c` is at work. */
  function Ring(a: Text, b: Text, c: Text): Index {
    Index(map[a := Run(a, Waiting, [Wait(b, true), Wait(c, true)]), b := Run(b, Waiting, [Wait(a, true)]), c := Run(c, Running, [])],
          map[(a, b) := [Run(b, Waiting, [Wait(a, true)])],
              (a, c) := [Run(c, Running, [])],
              (b, a) := [Run(a, Waiting, [Wait(b, true), Wait(c, true)])]])
  }

  lemma RingInner(a: Text, b: Text, c: Text)
    requires a != b && b != c && a != c
    ensures Searched(Ring(a, b, c), map[a := false], b) == Answer(false, map[a := false, b := false])
  {
    var index, begun := Ring(a, b, c), map[a := false, b := false];
    var run := Run(a, Waiting, [Wait(b, true), Wait(c, true)]);
    assert map[a := false][b := false] == begun;
    assert LinkedSearched(index, begun, [run]) == Answer(false, begun) by {
      assert Searched(index, begun, a) == Answer(false, begun);
      assert [run][1..] == [];
    }
    assert WaitSearched(index, begun, b, Wait(a, true)) == Answer(false, begun);
    assert [Wait(a, true)][1..] == [];
    assert WaitsSearched(index, begun, b, [Wait(a, true)]) == Answer(false, begun);
    assert begun[b := false] == begun;
  }

  lemma RingOuter(a: Text, b: Text, c: Text)
    requires a != b && b != c && a != c
    ensures Searched(Ring(a, b, c), map[], a) == Answer(true, map[a := true, b := false, c := true])
  {
    var index, begun, closed := Ring(a, b, c), map[a := false], map[a := false, b := false];
    var waits, linkedB, linkedC := [Wait(b, true), Wait(c, true)], [Run(b, Waiting, [Wait(a, true)])], [Run(c, Running, [])];
    RingInner(a, b, c);
    assert linkedB[1..] == [];
    assert LinkedSearched(index, begun, linkedB) == Answer(false, closed);
    assert WaitSearched(index, begun, a, waits[0]) == Answer(false, closed);
    assert waits[1..] == [Wait(c, true)];
    assert Searched(index, closed, c) == Answer(true, closed[c := true]);
    assert LinkedSearched(index, closed, linkedC) == Answer(true, closed[c := true]);
    assert WaitSearched(index, closed, a, Wait(c, true)) == Answer(true, closed[c := true]);
    assert WaitsSearched(index, closed, a, waits[1..]) == Answer(true, closed[c := true]);
    assert WaitsSearched(index, begun, a, waits) == Answer(true, closed[c := true]);
    assert closed[c := true][a := true] == map[a := true, b := false, c := true];
    assert map[][a := false] == begun;
  }

  /** On a ring a remembered no can be wrong: asked about `a` and then about `b`, the search denies what `b` can do. */
  lemma RingDenied(a: Text, b: Text, c: Text)
    requires a != b && b != c && a != c
    ensures Searched(Ring(a, b, c), map[], a).yes
    ensures !Searched(Ring(a, b, c), Searched(Ring(a, b, c), map[], a).memo, b).yes
    ensures CanAdvance(Ring(a, b, c), b)
  {
    var index := Ring(a, b, c);
    RingOuter(a, b, c);
    SearchedCarries(index, map[], a, {});
    assert [Wait(a, true)][0] in index.runs[b].waits;
    LinkedBlock(index, b, Wait(a, true), index.children[(b, a)][0]);
    AdvancesBy(index, b, a);
  }

  // ----- Settlement -----

  datatype Inspection = Active(runs: seq<TreeRun>, activeRunIds: seq<Text>) | Terminal(runs: seq<TreeRun>)

  datatype Settlement = TreeTerminal | RootBlocked

  /**
   * A root-blocked tree is settled exactly when no active run can advance, on any links, cyclic ones included:
   * the loop stops at the first yes, so its memo never holds anything but no.
   */
  method IsSettled(inspection: Inspection, settlement: Settlement) returns (settled: bool)
    ensures inspection.Terminal? ==> settled
    ensures inspection.Active? && settlement == TreeTerminal ==> !settled
    ensures inspection.Active? && settlement == RootBlocked ==>
              forall index :: IndexOf(inspection.runs, index) ==>
                (settled <==> forall id :: id in inspection.activeRunIds ==> !CanAdvance(index, id))
    ensures inspection.Active? && settlement == RootBlocked ==>
              exists index :: Indexes(inspection.runs, index)
                              && (settled <==> forall id :: id in inspection.activeRunIds ==> !MayAdvance(index, id))
  {
    if inspection.Terminal? {
      return true;
    }
    if settlement == TreeTerminal {
      return false;
    }
    var index := IndexTree(inspection.runs);
    forall other | IndexOf(inspection.runs, other) {
      IndexUnique(inspection.runs, index, other);
    }
    forall id {
      AdvanceMeaning(index, id);
    }
    var search := new Search(index);
    var active := inspection.activeRunIds;
    for i := 0 to |active|
      invariant fresh(search) && search.index == index
      invariant Sound(index, search.memo) && Finished(index, search.memo, {}) && AllNo(search.memo)
      invariant forall j :: 0 <= j < i ==> active[j] in search.memo
    {
      SearchedCarries(index, search.memo, active[i], {});
      var can := search.CanProgress(active[i]);
      if can {
        assert active[i] in active;
        return false;
      }
    }
    forall id | id in active
      ensures !CanAdvance(index, id)
    {
      StuckForGood(index, search.memo, id);
    }
    settled := true;
  }

  lemma IndexUnique(entries: seq<TreeRun>, a: Index, b: Index)
    requires IndexOf(entries, a) && IndexOf(entries, b)
    ensures a == b
  {
    assert a.children.Keys == b.children.Keys;
    assert a.children == b.children;
  }

  /** Any list of queries may share one memo when links are acyclic: every answer is the plain one. */
  method CanProgressAll(index: Index, queries: seq<Text>, ghost rank: map<Text, nat>) returns (answers: seq<bool>)
    requires Acyclic(index, rank)
    ensures |answers| == |queries|
    ensures forall i :: 0 <= i < |queries| ==> (answers[i] <==> CanAdvance(index, queries[i]))
    ensures forall i :: 0 <= i < |queries| ==> (answers[i] <==> MayAdvance(index, queries[i]))
  {
    var search := new Search(index);
    answers := [];
    for i := 0 to |queries|
      invariant fresh(search) && search.index == index
      invariant Sound(index, search.memo) && Exact(index, search.memo, {})
      invariant |answers| == i && forall j :: 0 <= j < i ==> (answers[j] <==> CanAdvance(index, queries[j]))
    {
      SearchedExact(index, search.memo, queries[i], {}, rank);
      var can := search.CanProgress(queries[i]);
      answers := answers + [can];
    }
    forall i | 0 <= i < |queries| {
      AdvanceMeaning(index, queries[i]);
    }
  }

  /** On acyclic links what one search answers, with nothing remembered, is what the statuses say. */
  lemma {:induction false} AnswerMeaning(index: Index, runId: Text, rank: map<Text, nat>)
    requires Acyclic(index, rank)
    ensures Searched(index, map[], runId).yes <==> MayAdvance(index, runId)
  {
    SearchedExact(index, map[], runId, {}, rank);
    AdvanceMeaning(index, runId);
  }

  /** The recursive definition without a memo, on acyclic links. */
  ghost predicate Plain(index: Index, runId: Text, rank: map<Text, nat>)
    requires Acyclic(index, rank)
    decreases if runId in rank then rank[runId] else 0
  {
    || Ready(index, runId)
    || exists id :: Blocks(index, runId, id) && Plain(index, id, rank)
  }

  /** On acyclic links the recursive definition is the meaning. */
  lemma {:induction false} PlainMeaning(index: Index, runId: Text, rank: map<Text, nat>)
    requires Acyclic(index, rank)
    ensures Plain(index, runId, rank) <==> CanAdvance(index, runId)
    decreases if runId in rank then rank[runId] else 0
  {
    forall id | Blocks(index, runId, id)
      ensures Plain(index, id, rank) <==> CanAdvance(index, id)
    {
      PlainMeaning(index, id, rank);
    }
    if Ready(index, runId) {
      ReadyAdvances(index, runId);
    } else if id :| Blocks(index, runId, id) && CanAdvance(index, id) {
      AdvancesBy(index, runId, id);
    } else {
      forall id | id in Blockers(index, runId)
        ensures !CanAdvance(index, id)
      {
        assert Blocks(index, runId, id);
      }
      NeverAdvances(index, runId);
    }
  }
}
