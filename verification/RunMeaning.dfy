/** Runs of a tree and the waits between them, and what it means by each status that a run can still advance. */
module RunMeaning {
  import opened Wrappers
  import opened Texts

  datatype Status = Queued | Running | Waiting | NeedsResolution | Cancelling | Succeeded | FailedRun | Cancelled

  /** A durable wait; only a tool wait can be resolved by linked child runs. */
  datatype Wait = Wait(waitId: Text, toolWait: bool)

  datatype Run = Run(runId: Text, status: Status, waits: seq<Wait>)

  datatype TreeRun = TreeRun(run: Run, parentRunId: Option<Text>, invocationId: Option<Text>)

  /** The runs by id, and the children linked to each wait of each parent. */
  datatype Index = Index(runs: map<Text, Run>, children: map<(Text, Text), seq<Run>>)

  // ----- In an index -----

  /** A run linked to the wait has ended or can advance in fewer steps. */
  ghost predicate ChildAnswers(index: Index, key: (Text, Text), c: int, n: nat)
    decreases n, 0
  {
    key in index.children && 0 <= c < |index.children[key]| &&
    var child := index.children[key][c];
    match child.status
    case Succeeded => true
    case FailedRun => true
    case Cancelled => true
    case _ => n > 0 && Advances(index, child.runId, n - 1)
  }

  /** A tool wait that nothing is linked to, or that a linked run answers. */
  ghost predicate WaitAnswered(index: Index, runId: Text, w: int, n: nat)
    requires runId in index.runs
    decreases n, 1
  {
    0 <= w < |index.runs[runId].waits| &&
    var wait := index.runs[runId].waits[w];
    wait.toolWait && ((runId, wait.waitId) !in index.children || exists c :: ChildAnswers(index, (runId, wait.waitId), c, n))
  }

  /** The run can advance, by at most `n` links: told status by status. */
  ghost predicate Advances(index: Index, runId: Text, n: nat)
    decreases n, 2
  {
    runId in index.runs &&
    match index.runs[runId].status
    case Queued => true
    case Running => true
    case Cancelling => true
    case Waiting => index.runs[runId].waits == [] || exists w :: WaitAnswered(index, runId, w, n)
    case NeedsResolution => false
    case Succeeded => false
    case FailedRun => false
    case Cancelled => false
  }

  ghost predicate MayAdvance(index: Index, runId: Text) {
    exists n: nat :: Advances(index, runId, n)
  }

  /** A waiting run has a tool wait that a run of this id is linked to. */
  ghost predicate WaitsOn(index: Index, runId: Text, w: int, c: int, id: Text) {
    && runId in index.runs && index.runs[runId].status == Waiting && 0 <= w < |index.runs[runId].waits|
    && index.runs[runId].waits[w].toolWait
    && var key := (runId, index.runs[runId].waits[w].waitId);
       key in index.children && 0 <= c < |index.children[key]| && index.children[key][c].runId == id
  }

  // ----- In a list of runs -----

  /** The last run listed under its id: the one that counts. */
  ghost predicate Current(entries: seq<TreeRun>, runId: Text, i: int) {
    0 <= i < |entries| && entries[i].run.runId == runId && forall j :: i < j < |entries| ==> entries[j].run.runId != runId
  }

  ghost predicate ChildOf(entries: seq<TreeRun>, c: int, runId: Text, waitId: Text) {
    0 <= c < |entries| && entries[c].parentRunId == Some(runId) && entries[c].invocationId == Some(waitId)
  }

  /** What the index of a list holds: the current run of each id, and each wait's children in order of listing. */
  ghost predicate Indexes(entries: seq<TreeRun>, index: Index) {
    && (forall id :: id in index.runs <==> exists i :: Current(entries, id, i))
    && (forall id, i :: Current(entries, id, i) ==> id in index.runs && index.runs[id] == entries[i].run)
    && (forall runId, waitId :: (runId, waitId) in index.children <==> exists c :: ChildOf(entries, c, runId, waitId))
    && (forall key :: key in index.children ==> exists places :: Listed(entries, key, places, index.children[key]))
  }

  /** The places of all children of one wait in the list, ascending, and the runs there. */
  ghost predicate Listed(entries: seq<TreeRun>, key: (Text, Text), places: seq<nat>, children: seq<Run>) {
    && |places| == |children|
    && (forall i, j :: 0 <= i < j < |places| ==> places[i] < places[j])
    && (forall c :: ChildOf(entries, c, key.0, key.1) <==> c in places)
    && (forall i :: 0 <= i < |places| ==> places[i] < |entries| && children[i] == entries[places[i]].run)
  }
}
