/** What holds over every run of the kernel resource authority, whatever the clock reads. */
module KernelRuns {
  import opened Wrappers
  import opened Texts
  import opened KernelAuthority

  /** One operation and the instant it read before its atomic transition. */
  datatype Event = Event(op: Op, now: nat)

  /** The authority after a run that starts with nobody owning anything. */
  function After(run: seq<Event>): Authority {
    if run == [] then NOBODY
    else
      var last := run[|run| - 1];
      Next(After(run[..|run| - 1]), last.op, last.now)
  }

  function StateAt(run: seq<Event>, i: nat): Authority
    requires i <= |run|
  {
    After(run[..i])
  }

  lemma StateStep(run: seq<Event>, i: nat)
    requires i < |run|
    ensures StateAt(run, i + 1) == Next(StateAt(run, i), run[i].op, run[i].now)
  {
    assert run[..i + 1][..i] == run[..i];
  }

  lemma {:induction false} RunConsistent(run: seq<Event>)
    ensures Consistent(After(run))
  {
    if run != [] {
      var last := run[|run| - 1];
      RunConsistent(run[..|run| - 1]);
      StepConsistent(After(run[..|run| - 1]), last.op, last.now);
    }
  }

  // ----- Generations -----

  /** From `s` to `t` no generation went down, and an unchanged generation kept its owner. */
  ghost predicate Advanced(s: Authority, t: Authority) {
    && s.leases.Keys <= t.leases.Keys && s.generations.Keys <= t.generations.Keys
    && (forall k :: k in s.generations ==> s.generations[k] <= t.generations[k])
    && (forall k :: k in s.leases && k in s.generations && s.generations[k] == t.generations[k] ==>
          s.leases[k].claim == t.leases[k].claim)
  }

  lemma StepAdvances(s: Authority, op: Op, now: nat)
    requires Consistent(s)
    ensures Advanced(s, Next(s, op, now))
  {
    if !op.Acquire? {
      StepKeepsClaims(s, op, now);
    }
  }

  lemma {:induction false} RunAdvances(run: seq<Event>, i: nat, j: nat)
    requires i <= j <= |run|
    ensures Advanced(StateAt(run, i), StateAt(run, j))
    decreases j - i
  {
    RunConsistent(run[..i]);
    if i < j {
      StateStep(run, i);
      StepAdvances(StateAt(run, i), run[i].op, run[i].now);
      RunConsistent(run[..i + 1]);
      RunConsistent(run[..j]);
      RunAdvances(run, i + 1, j);
      AdvancedThen(StateAt(run, i), StateAt(run, i + 1), StateAt(run, j));
    }
  }

  lemma AdvancedThen(s: Authority, t: Authority, u: Authority)
    requires Consistent(s) && Consistent(t) && Consistent(u) && Advanced(s, t) && Advanced(t, u)
    ensures Advanced(s, u)
  {
    forall k | k in s.leases && k in s.generations && s.generations[k] == u.generations[k]
      ensures s.leases[k].claim == u.leases[k].claim
    {
      assert s.generations[k] <= t.generations[k] <= u.generations[k];
    }
  }

  /** A claim was issued by instant `i` of the run. */
  ghost predicate Issued(run: seq<Event>, i: nat, claim: Claim)
    requires i <= |run|
  {
    claim.session in StateAt(run, i).leases && StateAt(run, i).leases[claim.session].claim == claim
  }

  /** Each session and generation belongs to one owner, over the whole run. */
  lemma OneOwner(run: seq<Event>, i: nat, j: nat, a: Claim, b: Claim)
    requires i <= j <= |run| && Issued(run, i, a) && Issued(run, j, b)
    requires a.session == b.session
    ensures a.generation <= b.generation
    ensures a.generation == b.generation ==> a == b
  {
    RunConsistent(run[..i]);
    RunConsistent(run[..j]);
    RunAdvances(run, i, j);
  }

  /** Once a higher generation is issued, no operation carrying an older claim ever succeeds again. */
  lemma Fenced(run: seq<Event>, i: nat, j: nat, newer: Claim)
    requires i <= j < |run| && Issued(run, i, newer)
    requires Carries(run[j].op).Some?
    requires Carries(run[j].op).value.session == newer.session
    requires Carries(run[j].op).value.generation < newer.generation
    ensures !Succeeds(StateAt(run, j), run[j].op, run[j].now)
  {
    RunConsistent(run[..i]);
    RunConsistent(run[..j]);
    RunAdvances(run, i, j);
  }

  ghost predicate ClockNeverTurnsBack(run: seq<Event>) {
    forall i, j :: 0 <= i < j < |run| ==> run[i].now <= run[j].now
  }

  /** Issued, but not current at `now`. */
  ghost predicate Lapsed(s: Authority, claim: Claim, now: nat) {
    && claim.session in s.generations && claim.generation <= s.generations[claim.session]
    && !Current(s, claim, now)
  }

  lemma StepLapsed(s: Authority, op: Op, now: nat, claim: Claim, since: nat)
    requires Consistent(s) && Lapsed(s, claim, since) && since <= now
    ensures Lapsed(Next(s, op, now), claim, now)
  {
    StepAdvances(s, op, now);
    if SessionOf(op) != claim.session {
      StepFrame(s, op, now, claim.session);
    } else if !op.Acquire? {
      StepKeepsClaims(s, op, now);
    }
  }

  /** On a clock that never turns back, a claim that has lapsed stays dead. */
  lemma {:induction false} LapsedStaysDead(run: seq<Event>, i: nat, j: nat, claim: Claim)
    requires i <= j < |run| && ClockNeverTurnsBack(run)
    requires Lapsed(StateAt(run, i), claim, run[i].now)
    ensures Lapsed(StateAt(run, j), claim, run[j].now)
    ensures Carries(run[j].op) == Some(claim) ==> !Succeeds(StateAt(run, j), run[j].op, run[j].now)
    decreases j - i
  {
    if i < j {
      RunConsistent(run[..i]);
      StateStep(run, i);
      StepLapsed(StateAt(run, i), run[i].op, run[i].now, claim, run[i].now);
      assert run[i].now <= run[i + 1].now;
      assert Lapsed(StateAt(run, i + 1), claim, run[i + 1].now);
      LapsedStaysDead(run, i + 1, j, claim);
    }
  }

  // ----- Cells -----

  function ResourceOf(s: Authority, session: Text): Option<Resource> {
    if session in s.leases then s.leases[session].resource else None
  }

  function ActiveCell(s: Authority, session: Text): Option<Command> {
    match ResourceOf(s, session)
    case None => None
    case Some(resource) => resource.activeCell
  }

  function BoundIdentity(s: Authority, session: Text): Option<Identity> {
    match ResourceOf(s, session)
    case None => None
    case Some(resource) => Some(resource.binding.identity)
  }

  predicate IsDeleting(s: Authority, session: Text) {
    ResourceOf(s, session).Some? && ResourceOf(s, session).value.binding.state == Deleting
  }

  /** An active cell runs on a live resource with that cell's exact epoch and profile. */
  ghost predicate CellOnLive(s: Authority, session: Text) {
    ActiveCell(s, session).Some? ==>
      var binding, cell := ResourceOf(s, session).value.binding, ActiveCell(s, session).value;
      binding.state == Live && binding.identity.epoch == cell.epoch && binding.identity.profile == cell.profile
      && cell.claim.session == session
  }

  /** The one request that pulls a live resource from under its cell, as its caller can see beforehand. */
  predicate PullsFromUnderCell(s: Authority, op: Op, now: nat, session: Text) {
    && op.Bind? && op.claim.session == session && Current(s, op.claim, now)
    && op.binding.state == Deleting && ActiveCell(s, session).Some?
    && op.binding.identity.provider == s.leases[session].provider
    && op.binding.identity.profile == s.leases[session].profile
    && BoundIdentity(s, session) == Some(op.binding.identity)
  }

  /**
   * A step keeps cells on live resources exactly when it is no bind to `deleting`, under a current claim and
   * of the very resource its lease asked for, over an active cell.
   */
  lemma CellOnLiveExactly(s: Authority, op: Op, now: nat, session: Text)
    requires Consistent(s) && CellOnLive(s, session)
    ensures CellOnLive(Next(s, op, now), session) <==> !PullsFromUnderCell(s, op, now, session)
  {
    if SessionOf(op) != session {
      StepFrame(s, op, now, session);
    }
  }

  /** In every run that never pulls a resource from under a cell, cells stay on live resources. */
  lemma {:induction false} CellsOnLive(run: seq<Event>, session: Text)
    requires forall i :: 0 <= i < |run| ==> !PullsFromUnderCell(StateAt(run, i), run[i].op, run[i].now, session)
    ensures CellOnLive(After(run), session)
  {
    if run != [] {
      var before, last := run[..|run| - 1], run[|run| - 1];
      forall i | 0 <= i < |before|
        ensures !PullsFromUnderCell(StateAt(before, i), before[i].op, before[i].now, session)
      {
        assert before[..i] == run[..i];
        assert !PullsFromUnderCell(StateAt(run, i), run[i].op, run[i].now, session);
      }
      CellsOnLive(before, session);
      RunConsistent(before);
      assert StateAt(run, |run| - 1) == After(before);
      CellOnLiveExactly(After(before), last.op, last.now, session);
    }
  }

  datatype CellEvent = Admitted(command: Command) | Finished(command: Command)

  /** What one event adds to a session's log. */
  function Logged(s: Authority, e: Event, session: Text): seq<CellEvent> {
    if SessionOf(e.op) != session || !Succeeds(s, e.op, e.now) then []
    else if e.op.Admit? && !e.op.control then [Admitted(e.op.command)]
    else if e.op.Finish? then [Finished(e.op.cell)]
    else []
  }

  /** The successful admissions and finishes on one session, in order. */
  function CellLog(run: seq<Event>, session: Text): seq<CellEvent> {
    if run == [] then []
    else
      var before, last := run[..|run| - 1], run[|run| - 1];
      CellLog(before, session) + Logged(After(before), last, session)
  }

  /** Admissions and finishes alternate, each finish naming exactly the command admitted before it. */
  ghost predicate Alternates(log: seq<CellEvent>) {
    && (forall i :: 0 <= i < |log| && i % 2 == 0 ==> log[i].Admitted?)
    && (forall i :: 0 <= i < |log| && i % 2 == 1 ==> log[i] == Finished(log[i - 1].command))
  }

  function Unfinished(log: seq<CellEvent>): Option<Command> {
    if |log| % 2 == 1 then Some(log[|log| - 1].command) else None
  }

  /**
   * A confirmed deletion under which a cell is still active. Everything in it can be inspected before the call:
   * the claim is current, the resource deleting under the expected identity, and a cell active on it.
   */
  predicate Forgets(s: Authority, op: Op, now: nat, session: Text) {
    && op.ConfirmDeletion? && op.claim.session == session && Current(s, op.claim, now)
    && IsDeleting(s, session) && BoundIdentity(s, session) == Some(op.expected)
    && ActiveCell(s, session).Some?
  }

  lemma CellStep(s: Authority, op: Op, now: nat, session: Text)
    requires Consistent(s)
    ensures var before, after := ActiveCell(s, session), ActiveCell(Next(s, op, now), session);
            if SessionOf(op) == session && Succeeds(s, op, now) && op.Admit? && !op.control then
              before == None && after == Some(op.command)
            else if SessionOf(op) == session && Succeeds(s, op, now) && op.Finish? then
              before == Some(op.cell) && after == None
            else if Forgets(s, op, now, session) then after == None
            else after == before
  {
    if SessionOf(op) != session {
      StepFrame(s, op, now, session);
    }
  }

  /** The log alternates and the cell the authority holds is exactly the unfinished one. */
  ghost predicate Tracks(run: seq<Event>, session: Text) {
    Alternates(CellLog(run, session)) && ActiveCell(After(run), session) == Unfinished(CellLog(run, session))
  }

  /** One more step keeps track of the cell exactly when it does not forget it; the log alternates either way. */
  lemma TracksStepExactly(run: seq<Event>, e: Event, session: Text)
    requires Tracks(run, session)
    ensures Alternates(CellLog(run + [e], session))
    ensures Tracks(run + [e], session) <==> !Forgets(After(run), e.op, e.now, session)
  {
    var s := After(run);
    RunConsistent(run);
    LogGrows(run, e, session);
    CellStep(s, e.op, e.now, session);
    LogStep(CellLog(run, session), Logged(s, e, session));
  }

  /** No step of the run confirms a deletion under an active cell of the session. */
  predicate NeverForgets(run: seq<Event>, session: Text) {
    run != [] ==>
      var front, last := run[..|run| - 1], run[|run| - 1];
      NeverForgets(front, session) && !Forgets(After(front), last.op, last.now, session)
  }

  /** After every step of the run. */
  ghost predicate AlwaysTracks(run: seq<Event>, session: Text) {
    Tracks(run, session) && (run != [] ==> AlwaysTracks(run[..|run| - 1], session))
  }

  /**
   * Admissions and finishes strictly alternate on a session, across ownership takeovers, and the authority holds
   * exactly the unfinished cell all along, if and only if no step of the run forgets one.
   */
  lemma {:induction false} CellsAlternateExactly(run: seq<Event>, session: Text)
    ensures AlwaysTracks(run, session) <==> NeverForgets(run, session)
  {
    if run != [] {
      var front, last := run[..|run| - 1], run[|run| - 1];
      assert run == front + [last];
      CellsAlternateExactly(front, session);
      if AlwaysTracks(front, session) {
        TracksStepExactly(front, last, session);
      }
    }
  }

  /** In every run that never forgets, whatever it binds, admissions and finishes strictly alternate. */
  lemma CellsAlternate(run: seq<Event>, session: Text)
    requires NeverForgets(run, session)
    ensures Alternates(CellLog(run, session))
    ensures ActiveCell(After(run), session) == Unfinished(CellLog(run, session))
  {
    CellsAlternateExactly(run, session);
  }

  lemma LogGrows(run: seq<Event>, e: Event, session: Text)
    ensures After(run + [e]) == Next(After(run), e.op, e.now)
    ensures CellLog(run + [e], session) == CellLog(run, session) + Logged(After(run), e, session)
  {
    assert (run + [e])[..|run + [e]| - 1] == run;
  }

  lemma LogStep(log: seq<CellEvent>, more: seq<CellEvent>)
    requires Alternates(log) && |more| <= 1
    requires more != [] ==> if more[0].Admitted? then Unfinished(log) == None else Unfinished(log) == Some(more[0].command)
    ensures Alternates(log + more)
    ensures Unfinished(log + more) == if more == [] then Unfinished(log)
                                      else if more[0].Admitted? then Some(more[0].command) else None
  {
    if more == [] {
      assert log + more == log;
    } else {
      var whole := log + more;
      assert forall i :: 0 <= i < |log| ==> whole[i] == log[i];
      assert whole[|log|] == more[0];
    }
  }

  /** One session's authority. */
  function Sole(lease: Lease): Authority {
    Authority(map[lease.claim.session := lease.claim.generation], map[lease.claim.session := lease])
  }

  lemma SoleStep(lease: Lease, op: Op)
    requires Carries(op) == Some(lease.claim) && lease.expiresAt > 0 && Succeeds(Sole(lease), op, 0)
    ensures Next(Sole(lease), op, 0) == Sole(Next(Sole(lease), op, 0).leases[lease.claim.session])
  {
  }

  /** A run that binds `deleting` over an active cell and goes on. */
  function ForgetfulRun(claim: Claim, identity: Identity, cell: Text): seq<Event> {
    var live, deleting := Binding(identity, Live, RestartOnly), Binding(identity, Deleting, RestartOnly);
    var command := Command(claim, identity.epoch, identity.profile, cell);
    [Event(Acquire(claim.session, claim.owner, identity.provider, identity.profile, 10), 0),
     Event(Bind(claim, live), 0), Event(Admit(command, false, None), 0),
     Event(Bind(claim, deleting), 0), Event(ConfirmDeletion(claim, identity), 0),
     Event(Bind(claim, live), 0), Event(Admit(command, false, None), 0)]
  }

  /** Binding `deleting` over an active cell does break the alternation: the cell is forgotten unfinished. */
  lemma ForgottenCell(claim: Claim, identity: Identity, cell: Text)
    requires claim.generation == 1
    ensures var command := Command(claim, identity.epoch, identity.profile, cell);
            var log := CellLog(ForgetfulRun(claim, identity, cell), claim.session);
            log == [Admitted(command), Admitted(command)] && !Alternates(log)
  {
    ForgetfulEnd(claim, identity, cell);
    var log := CellLog(ForgetfulRun(claim, identity, cell), claim.session);
    assert log[1] != Finished(log[0].command);
  }

  /** The lease of the forgetful run, holding this resource. */
  function Holding(claim: Claim, identity: Identity, resource: Option<Resource>): Lease {
    Lease(claim, identity.provider, identity.profile, 10, resource)
  }

  lemma ForgetfulBusy(claim: Claim, identity: Identity, cell: Text)
    requires claim.generation == 1
    ensures var run, k := ForgetfulRun(claim, identity, cell), claim.session;
            var command, live := Command(claim, identity.epoch, identity.profile, cell), Binding(identity, Live, RestartOnly);
            && After(run[..3]) == Sole(Holding(claim, identity, Some(Resource(live, Some(command), None))))
            && CellLog(run[..3], k) == [Admitted(command)]
  {
    var run, free, live := ForgetfulRun(claim, identity, cell), Holding(claim, identity, None), Binding(identity, Live, RestartOnly);
    assert After(run[..1]) == Sole(free) && CellLog(run[..1], claim.session) == [] by {
      LogAt(run, 0, claim.session);
    }
    StageBind(run, 1, free, live, None);
    StageAdmit(run, 2, free, live, Command(claim, identity.epoch, identity.profile, cell));
  }

  lemma ForgetfulFree(claim: Claim, identity: Identity, cell: Text)
    requires claim.generation == 1
    ensures var run := ForgetfulRun(claim, identity, cell);
            && After(run[..5]) == Sole(Holding(claim, identity, None))
            && CellLog(run[..5], claim.session) == [Admitted(Command(claim, identity.epoch, identity.profile, cell))]
  {
    var run, free := ForgetfulRun(claim, identity, cell), Holding(claim, identity, None);
    var command := Command(claim, identity.epoch, identity.profile, cell);
    var live, deleting := Binding(identity, Live, RestartOnly), Binding(identity, Deleting, RestartOnly);
    ForgetfulBusy(claim, identity, cell);
    StageBind(run, 3, Holding(claim, identity, Some(Resource(live, Some(command), None))), deleting, Some(command));
    StageConfirm(run, 4, free, Resource(deleting, Some(command), None));
  }

  lemma ForgetfulEnd(claim: Claim, identity: Identity, cell: Text)
    requires claim.generation == 1
    ensures var command := Command(claim, identity.epoch, identity.profile, cell);
            CellLog(ForgetfulRun(claim, identity, cell), claim.session) == [Admitted(command), Admitted(command)]
  {
    var run, free, live := ForgetfulRun(claim, identity, cell), Holding(claim, identity, None), Binding(identity, Live, RestartOnly);
    ForgetfulFree(claim, identity, cell);
    StageBind(run, 5, free, live, None);
    StageAdmit(run, 6, free, live, Command(claim, identity.epoch, identity.profile, cell));
    assert run[..7] == run;
  }

  lemma StageBind(run: seq<Event>, i: nat, lease: Lease, binding: Binding, active: Option<Command>)
    requires i < |run| && run[i] == Event(Bind(lease.claim, binding), 0) && After(run[..i]) == Sole(lease)
    requires lease.expiresAt > 0 && binding.identity.provider == lease.provider && binding.identity.profile == lease.profile
    requires if binding.state == Live then lease.resource == None && active == None
             else lease.resource == Some(Resource(binding.(state := Live), active, None)) && binding.state == Deleting
    ensures After(run[..i + 1]) == Sole(lease.(resource := Some(Resource(binding, active, None))))
    ensures CellLog(run[..i + 1], lease.claim.session) == CellLog(run[..i], lease.claim.session)
  {
    Stage(run, i, lease, lease.(resource := Some(Resource(binding, active, None))));
  }

  lemma StageAdmit(run: seq<Event>, i: nat, free: Lease, binding: Binding, command: Command)
    requires i < |run| && run[i] == Event(Admit(command, false, None), 0) && command.claim == free.claim
    requires After(run[..i]) == Sole(free.(resource := Some(Resource(binding, None, None))))
    requires free.expiresAt > 0 && binding.identity.provider == free.provider && binding.identity.profile == free.profile
    requires binding.state == Live && command.profile == free.profile && command.epoch == binding.identity.epoch
    ensures After(run[..i + 1]) == Sole(free.(resource := Some(Resource(binding, Some(command), None))))
    ensures CellLog(run[..i + 1], free.claim.session) == CellLog(run[..i], free.claim.session) + [Admitted(command)]
  {
    Stage(run, i, free.(resource := Some(Resource(binding, None, None))),
          free.(resource := Some(Resource(binding, Some(command), None))));
  }

  lemma StageConfirm(run: seq<Event>, i: nat, free: Lease, resource: Resource)
    requires i < |run| && run[i] == Event(ConfirmDeletion(free.claim, resource.binding.identity), 0)
    requires After(run[..i]) == Sole(free.(resource := Some(resource))) && resource.binding.state == Deleting
    requires free.expiresAt > 0 && free.resource == None
    ensures After(run[..i + 1]) == Sole(free)
    ensures CellLog(run[..i + 1], free.claim.session) == CellLog(run[..i], free.claim.session)
  {
    Stage(run, i, free.(resource := Some(resource)), free);
  }

  lemma LogAt(run: seq<Event>, i: nat, session: Text)
    requires i < |run|
    ensures After(run[..i + 1]) == Next(After(run[..i]), run[i].op, run[i].now)
    ensures CellLog(run[..i + 1], session) == CellLog(run[..i], session) + Logged(After(run[..i]), run[i], session)
  {
    assert run[..i + 1] == run[..i] + [run[i]];
    LogGrows(run[..i], run[i], session);
  }

  lemma {:induction false} Stage(run: seq<Event>, i: nat, before: Lease, after: Lease)
    requires i < |run| && run[i].now == 0 && After(run[..i]) == Sole(before)
    requires Carries(run[i].op) == Some(before.claim) && before.expiresAt > 0
    requires Succeeds(Sole(before), run[i].op, 0)
    requires Next(Sole(before), run[i].op, 0).leases[before.claim.session] == after
    ensures After(run[..i + 1]) == Sole(after)
    ensures var k := before.claim.session;
            CellLog(run[..i + 1], k) == CellLog(run[..i], k) + Logged(Sole(before), run[i], k)
  {
    LogAt(run, i, before.claim.session);
    SoleStep(before, run[i].op);
  }

  // ----- Deletion -----

  /** The step deletes `identity` for good: it confirms that exact identity in the deleting state. */
  predicate Confirms(s: Authority, op: Op, now: nat, session: Text) {
    && op.ConfirmDeletion? && op.claim.session == session && Succeeds(s, op, now)
    && IsDeleting(s, session) && BoundIdentity(s, session) == Some(op.expected)
  }

  /** A bound identity is lost, and `deleting` is left, exactly by confirming that identity's deletion. */
  lemma IdentityKept(s: Authority, op: Op, now: nat, session: Text)
    requires Consistent(s) && BoundIdentity(s, session).Some?
    ensures var next := Next(s, op, now);
            && (BoundIdentity(next, session) != BoundIdentity(s, session) <==> Confirms(s, op, now, session))
            && (Confirms(s, op, now, session) ==> BoundIdentity(next, session) == None)
            && (IsDeleting(s, session) ==> (!IsDeleting(next, session) <==> Confirms(s, op, now, session)))
  {
    if SessionOf(op) != session {
      StepFrame(s, op, now, session);
    }
  }

  /** Over a run, an identity bound at one point is still bound later unless its deletion was confirmed between. */
  lemma {:induction false} IdentityKeptOverRun(run: seq<Event>, i: nat, j: nat, session: Text)
    requires i <= j <= |run| && BoundIdentity(StateAt(run, i), session).Some?
    ensures || BoundIdentity(StateAt(run, j), session) == BoundIdentity(StateAt(run, i), session)
            || exists k :: i <= k < j && Confirms(StateAt(run, k), run[k].op, run[k].now, session)
                           && run[k].op.expected == BoundIdentity(StateAt(run, i), session).value
    decreases j - i
  {
    if i < j {
      RunConsistent(run[..i]);
      StateStep(run, i);
      IdentityKept(StateAt(run, i), run[i].op, run[i].now, session);
      if !Confirms(StateAt(run, i), run[i].op, run[i].now, session) {
        IdentityKeptOverRun(run, i + 1, j, session);
      }
    }
  }

  /** Successful failed-deletion reports on one session since its resource was last bound afresh. */
  function FailureCount(run: seq<Event>, session: Text): int {
    if run == [] then 0
    else
      var before, last := run[..|run| - 1], run[|run| - 1];
      if ResourceOf(After(run), session).None? then 0
      else
        FailureCount(before, session) +
        if last.op.FailDeletion? && last.op.claim.session == session && Succeeds(After(before), last.op, last.now)
        then 1 else 0
  }

  lemma AttemptsStep(s: Authority, op: Op, now: nat, session: Text)
    requires Consistent(s)
    ensures var before, after := ResourceOf(s, session), ResourceOf(Next(s, op, now), session);
            after.Some? ==>
              && Attempts(after.value) == (if before.Some? then Attempts(before.value) else 0)
                 + (if op.FailDeletion? && op.claim.session == session && Succeeds(s, op, now) then 1 else 0)
  {
    if SessionOf(op) != session {
      StepFrame(s, op, now, session);
    }
  }

  /** The recorded cleanup attempts count exactly the failed deletions since binding. */
  lemma {:induction false} AttemptsCounted(run: seq<Event>, session: Text)
    ensures FailureCount(run, session) ==
            match ResourceOf(After(run), session)
            case None => 0
            case Some(resource) => Attempts(resource)
  {
    if run != [] {
      var before, last := run[..|run| - 1], run[|run| - 1];
      AttemptsCounted(before, session);
      RunConsistent(before);
      AttemptsStep(After(before), last.op, last.now, session);
    }
  }

  // ----- No state is stuck -----

  /** What a holder wants to run, and the provider resource it would bind afresh. */
  datatype Goal = Goal(cell: Text, resourceId: Text, epoch: int, checkpoint: Checkpoint)

  predicate Suits(lease: Lease, resource: Resource) {
    resource.binding.identity.provider == lease.provider && resource.binding.identity.profile == lease.profile
  }

  /** The epoch the goal's command names: the bound resource's if it suits, else the fresh one. */
  function EpochFor(lease: Lease, goal: Goal): int {
    if lease.resource.Some? && Suits(lease, lease.resource.value) then lease.resource.value.binding.identity.epoch
    else goal.epoch
  }

  function CommandFor(lease: Lease, goal: Goal): Command {
    Command(lease.claim, EpochFor(lease, goal), lease.profile, goal.cell)
  }

  /** The holder's next move, from whatever an earlier owner left behind. */
  function Move(lease: Lease, goal: Goal): Op {
    if lease.resource.None? then
      Bind(lease.claim, Binding(Identity(lease.provider, goal.resourceId, lease.profile, goal.epoch), Live, goal.checkpoint))
    else
      var resource := lease.resource.value;
      if resource.activeCell.Some? then Finish(lease.claim, resource.activeCell.value)
      else if resource.binding.state == Deleting then ConfirmDeletion(lease.claim, resource.binding.identity)
      else if !Suits(lease, resource) then Revoke(lease.claim)
      else if resource.binding.state == Paused then Bind(lease.claim, resource.binding.(state := Live))
      else Admit(CommandFor(lease, goal), false, None)
  }

  /** Moves left until a cell is admitted. */
  function Distance(lease: Lease): (d: nat)
    ensures 1 <= d <= 5
  {
    if lease.resource.None? then 2
    else
      var resource := lease.resource.value;
      (if resource.activeCell.Some? then 1 else 0) +
      (if resource.binding.state == Deleting then 3
       else if !Suits(lease, resource) then 4
       else if resource.binding.state == Paused then 2
       else 1)
  }

  /** The whole plan: at most finish, revoke, confirm deletion, bind, admit. */
  function Plan(s: Authority, session: Text, goal: Goal, now: nat, fuel: nat): seq<Op>
    decreases fuel
  {
    if session !in s.leases || fuel == 0 then []
    else
      var move := Move(s.leases[session], goal);
      [move] + if move.Admit? then [] else Plan(Next(s, move, now), session, goal, now, fuel - 1)
  }

  function Perform(s: Authority, ops: seq<Op>, now: nat): Authority
    decreases |ops|
  {
    if ops == [] then s else Perform(Next(s, ops[0], now), ops[1..], now)
  }

  ghost predicate AllSucceed(s: Authority, ops: seq<Op>, now: nat)
    decreases |ops|
  {
    ops != [] ==> Succeeds(s, ops[0], now) && AllSucceed(Next(s, ops[0], now), ops[1..], now)
  }

  lemma MoveAdvances(s: Authority, session: Text, goal: Goal, now: nat)
    requires Consistent(s) && session in s.leases && s.leases[session].expiresAt > now
    ensures var lease := s.leases[session];
            var move := Move(lease, goal);
            var next := Next(s, move, now);
            && Succeeds(s, move, now)
            && session in next.leases
            && next.leases[session] == lease.(resource := next.leases[session].resource)
            && (if move.Admit? then ActiveCell(next, session) == Some(CommandFor(lease, goal))
                                    && Suits(lease, next.leases[session].resource.value)
                else Distance(next.leases[session]) == Distance(lease) - 1)
            && (move.Admit? <==> Distance(lease) == 1)
  {
  }

  /** The holder of `lease` has its goal's cell admitted, on a live resource of the profile it requested. */
  ghost predicate Reached(s: Authority, lease: Lease, goal: Goal) {
    var session := lease.claim.session;
    && session in s.leases && s.leases[session].claim == lease.claim
    && ActiveCell(s, session).Some? && CellOnLive(s, session)
    && var cell := ActiveCell(s, session).value;
       && cell.claim == lease.claim && cell.cell == goal.cell && cell.profile == lease.profile
       && s.leases[session].resource.value.binding.identity.provider == lease.provider
  }

  lemma AdmitReaches(s: Authority, session: Text, goal: Goal, now: nat)
    requires Consistent(s) && session in s.leases && s.leases[session].expiresAt > now
    requires Move(s.leases[session], goal).Admit?
    ensures Reached(Next(s, Move(s.leases[session], goal), now), s.leases[session], goal)
  {
    var move := Move(s.leases[session], goal);
    MoveAdvances(s, session, goal, now);
    CellOnLiveExactly(s, move, now, session);
  }

  /** The session's lease is running at `now` with no resource bound. */
  predicate Vacant(s: Authority, session: Text, now: nat) {
    session in s.leases && s.leases[session].expiresAt > now && s.leases[session].resource.None?
  }

  lemma ForgettingVacates(s: Authority, op: Op, now: nat, session: Text)
    requires Consistent(s) && Forgets(s, op, now, session)
    ensures Succeeds(s, op, now) && Vacant(Next(s, op, now), session, now)
  {
  }

  /** The state once the holder has bound its goal's resource. */
  function Rebound(s: Authority, session: Text, goal: Goal, now: nat): Authority
    requires session in s.leases
  {
    Next(s, Move(s.leases[session], goal), now)
  }

  /** The holder of a vacant session may bind and then admit at the same instant. */
  lemma VacantMoves(s: Authority, session: Text, goal: Goal, now: nat)
    requires Consistent(s) && Vacant(s, session, now)
    ensures Move(s.leases[session], goal).Bind? && Succeeds(s, Move(s.leases[session], goal), now)
    ensures var t := Rebound(s, session, goal, now);
            session in t.leases && t.leases[session].claim.session == session
            && var admit := Move(t.leases[session], goal);
               admit.Admit? && !admit.control && SessionOf(admit) == session && Succeeds(t, admit, now)
  {
    MoveAdvances(s, session, goal, now);
    StepConsistent(s, Move(s.leases[session], goal), now);
    MoveAdvances(Rebound(s, session, goal, now), session, goal, now);
  }

  /** The two moves of a holder whose session stands vacant: bind afresh, then admit. */
  function Aftermath(s: Authority, session: Text, goal: Goal, now: nat): seq<Event>
    requires Consistent(s) && Vacant(s, session, now)
  {
    VacantMoves(s, session, goal, now);
    [Event(Move(s.leases[session], goal), now), Event(Move(Rebound(s, session, goal, now).leases[session], goal), now)]
  }

  lemma AftermathLog(run: seq<Event>, session: Text, goal: Goal, now: nat)
    requires Consistent(After(run)) && Vacant(After(run), session, now)
    ensures var after := Aftermath(After(run), session, goal, now);
            && Succeeds(After(run), after[0].op, now) && Succeeds(After(run + [after[0]]), after[1].op, now)
            && after[1].op.Admit?
            && CellLog(run + [after[0]] + [after[1]], session) == CellLog(run, session) + [Admitted(after[1].op.command)]
  {
    var after := Aftermath(After(run), session, goal, now);
    VacantMoves(After(run), session, goal, now);
    LogGrows(run, after[0], session);
    LogGrows(run + [after[0]], after[1], session);
    assert CellLog(run, session) + [] == CellLog(run, session);
  }

  /**
   * Once a cell is forgotten, alternation can always be broken: the holder's next two moves, at the same instant,
   * both succeed and admit a cell while the forgotten one was never finished.
   */
  lemma ForgottenThenBroken(run: seq<Event>, e: Event, session: Text, goal: Goal)
    requires Tracks(run, session) && Forgets(After(run), e.op, e.now, session)
    ensures Consistent(After(run + [e])) && Vacant(After(run + [e]), session, e.now)
    ensures var after := Aftermath(After(run + [e]), session, goal, e.now);
            && Succeeds(After(run + [e]), after[0].op, e.now)
            && Succeeds(After(run + [e] + [after[0]]), after[1].op, e.now)
            && !Alternates(CellLog(run + [e] + [after[0]] + [after[1]], session))
  {
    RunConsistent(run);
    RunConsistent(run + [e]);
    LogGrows(run, e, session);
    ForgettingVacates(After(run), e.op, e.now, session);
    AftermathLog(run + [e], session, goal, e.now);
    var after := Aftermath(After(run + [e]), session, goal, e.now);
    TwiceAdmitted(CellLog(run, session), after[1].op.command);
    assert CellLog(run, session) + [] == CellLog(run, session);
  }

  lemma TwiceAdmitted(log: seq<CellEvent>, command: Command)
    requires Alternates(log) && Unfinished(log).Some?
    ensures !Alternates(log + [Admitted(command)])
  {
    var whole := log + [Admitted(command)];
    assert whole[|log|] != Finished(whole[|log| - 1].command);
  }

  /**
   * No state is stuck: the holder of a current claim reaches, at one instant and in at most five moves that
   * all succeed, an admitted cell of its own on a live resource of the profile it requested.
   */
  lemma {:induction false} HolderReachesCell(s: Authority, session: Text, goal: Goal, now: nat, fuel: nat)
    requires Consistent(s) && session in s.leases && s.leases[session].expiresAt > now
    requires fuel >= Distance(s.leases[session])
    ensures var lease, plan := s.leases[session], Plan(s, session, goal, now, fuel);
            && |plan| == Distance(lease) <= 5
            && AllSucceed(s, plan, now)
            && Reached(Perform(s, plan, now), lease, goal)
    decreases fuel
  {
    var move := Move(s.leases[session], goal);
    PlanStep(s, session, goal, now, fuel);
    MoveAdvances(s, session, goal, now);
    if move.Admit? {
      AdmitReaches(s, session, goal, now);
      PerformCons(s, move, [], now);
    } else {
      var next := Next(s, move, now);
      StepConsistent(s, move, now);
      HolderReachesCell(next, session, goal, now, fuel - 1);
      ReachedBy(s, move, Plan(next, session, goal, now, fuel - 1), now, s.leases[session], next.leases[session], goal);
    }
  }

  lemma PlanStep(s: Authority, session: Text, goal: Goal, now: nat, fuel: nat)
    requires session in s.leases && fuel > 0
    ensures var move := Move(s.leases[session], goal);
            Plan(s, session, goal, now, fuel) ==
            [move] + if move.Admit? then [] else Plan(Next(s, move, now), session, goal, now, fuel - 1)
  {
  }

  lemma ReachedBy(s: Authority, move: Op, rest: seq<Op>, now: nat, lease: Lease, later: Lease, goal: Goal)
    requires Succeeds(s, move, now) && AllSucceed(Next(s, move, now), rest, now)
    requires Reached(Perform(Next(s, move, now), rest, now), later, goal) && later == lease.(resource := later.resource)
    ensures AllSucceed(s, [move] + rest, now) && Reached(Perform(s, [move] + rest, now), lease, goal)
  {
    PerformCons(s, move, rest, now);
    ReachedSame(Perform(s, [move] + rest, now), lease, later, goal);
  }

  lemma PerformCons(s: Authority, op: Op, rest: seq<Op>, now: nat)
    ensures Perform(s, [op] + rest, now) == Perform(Next(s, op, now), rest, now)
    ensures AllSucceed(s, [op] + rest, now) <==> Succeeds(s, op, now) && AllSucceed(Next(s, op, now), rest, now)
  {
    assert ([op] + rest)[1..] == rest;
  }

  lemma ReachedSame(s: Authority, lease: Lease, later: Lease, goal: Goal)
    requires Reached(s, later, goal) && later == lease.(resource := later.resource)
    ensures Reached(s, lease, goal)
  {
  }
}
