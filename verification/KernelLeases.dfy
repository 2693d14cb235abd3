/** The authority as its callers see it: when operations are accepted and what a host that acquires can always do. */
module KernelLeases {
  import opened Wrappers
  import opened Texts
  import opened KernelAuthority
  import opened KernelRuns
  import KernelEffects

  /** The session is leased to somebody at `now`. */
  predicate Held(s: Authority, session: Text, now: nat) {
    session in s.leases && s.leases[session].expiresAt > now
  }

  /** A live resource of the provider and profile the session's lease asks for, at this epoch. */
  predicate LiveAsRequested(s: Authority, session: Text, profile: Text, epoch: int) {
    && ResourceOf(s, session).Some?
    && var binding := ResourceOf(s, session).value.binding;
       binding.state == Live && binding.identity.profile == profile && binding.identity.epoch == epoch
       && binding.identity.provider == s.leases[session].provider && profile == s.leases[session].profile
  }

  /** What an operation asks of the authority, told from the lease, the bound identity and the active cell. */
  predicate Accepts(s: Authority, op: Op, now: nat) {
    match op
    case Acquire(session, owner, _, _, millis) =>
      millis >= 1 && (Held(s, session, now) ==> s.leases[session].claim.owner == owner)
    case Renew(claim, millis) => millis >= 1 && Current(s, claim, now)
    case Bind(claim, binding) =>
      && Current(s, claim, now)
      && binding.identity.provider == s.leases[claim.session].provider
      && binding.identity.profile == s.leases[claim.session].profile
      && !IsDeleting(s, claim.session)
      && (BoundIdentity(s, claim.session).Some? ==> BoundIdentity(s, claim.session).value == binding.identity)
      && (binding.state == Paused ==> ActiveCell(s, claim.session).None?)
    case Admit(command, control, expected) =>
      && Current(s, command.claim, now)
      && LiveAsRequested(s, command.claim.session, command.profile, command.epoch)
      && (expected.Some? ==> ActiveCell(s, command.claim.session) == expected)
      && (control || ActiveCell(s, command.claim.session).None?)
    case Finish(claim, cell) => Current(s, claim, now) && ActiveCell(s, claim.session) == Some(cell)
    case Revoke(claim) => Current(s, claim, now) && ActiveCell(s, claim.session).None?
    case FailDeletion(claim, expected, _) =>
      Current(s, claim, now) && IsDeleting(s, claim.session) && BoundIdentity(s, claim.session) == Some(expected)
    case ConfirmDeletion(claim, expected) =>
      Current(s, claim, now) && IsDeleting(s, claim.session) && BoundIdentity(s, claim.session) == Some(expected)
    case Expire(_) => true
  }

  /** An operation succeeds exactly when the authority accepts it; one with a dead claim is told so. */
  lemma AcceptedExactly(s: Authority, op: Op, now: nat)
    ensures Succeeds(s, op, now) <==> Accepts(s, op, now)
    ensures Carries(op).Some? && !Current(s, Carries(op).value, now) && (op.Renew? ==> op.leaseMillis >= 1) ==>
              Step(s, op, now) == Rejected(StaleClaim)
  {
  }

  /** An acquired or renewed claim is current until exactly its duration has passed. */
  lemma LeaseLasts(s: Authority, op: Op, now: nat, later: nat)
    requires Consistent(s) && Succeeds(s, op, now) && (op.Acquire? || op.Renew?)
    ensures var t := Next(s, op, now);
            && SessionOf(op) in t.leases
            && (Current(t, t.leases[SessionOf(op)].claim, later) <==> later < now + op.leaseMillis)
            && t.leases[SessionOf(op)].claim.session == SessionOf(op)
  {
  }

  /** The running holder keeps its claim; after a lapse whoever acquires gets the next generation. */
  lemma AcquireGeneration(s: Authority, op: Op, now: nat)
    requires Consistent(s) && op.Acquire? && Succeeds(s, op, now)
    ensures var claim := Next(s, op, now).leases[op.session].claim;
            && claim.owner == op.owner
            && (Held(s, op.session, now) <==> op.session in s.leases && claim == s.leases[op.session].claim)
            && (!Held(s, op.session, now) ==>
                  claim.generation == (if op.session in s.generations then s.generations[op.session] else 0) + 1)
  {
  }

  /** Expiring a session leaves none of its claims current at any instant. */
  lemma ExpireEnds(s: Authority, session: Text, now: nat, claim: Claim, later: nat)
    requires claim.session == session
    ensures !Current(Next(s, Expire(session), now), claim, later)
  {
  }

  /**
   * Whoever acquires a session, whatever a previous owner left behind, reaches an admitted cell of its own on a
   * live resource of the provider and profile it asked for, in at most five moves at that same instant.
   */
  lemma AcquirerReachesCell(s: Authority, op: Op, now: nat, goal: Goal)
    requires Consistent(s) && op.Acquire? && Succeeds(s, op, now)
    ensures var t := Next(s, op, now);
            var lease, plan := t.leases[op.session], Plan(t, op.session, goal, now, 5);
            && lease.claim.owner == op.owner && lease.provider == op.provider && lease.profile == op.profile
            && |plan| <= 5 && AllSucceed(t, plan, now) && Reached(Perform(t, plan, now), lease, goal)
  {
    StepConsistent(s, op, now);
    LeaseLasts(s, op, now, now);
    HolderReachesCell(Next(s, op, now), op.session, goal, now, 5);
  }

  /** The shared reference every operation updates atomically. */
  class MemoryAuthority {
    var authority: Authority

    constructor ()
      ensures authority == NOBODY && Consistent(authority)
    {
      authority := NOBODY;
    }

    /**
     * Perform one operation. One that is accepted has its whole effect and is answered as told; any other is refused
     * for its reason and changes nothing.
     */
    method Perform(op: Op, now: nat) returns (result: Result<Reply, Reason>)
      requires Consistent(authority)
      modifies this
      ensures Consistent(authority) && authority == Next(old(authority), op, now)
      ensures result.Ok? <==> Accepts(old(authority), op, now)
      ensures result.Ok? ==> KernelEffects.Effect(old(authority), op, now, result.value, authority)
      ensures forall reason :: result == Err(reason) <==> KernelEffects.RefusedFor(old(authority), op, now, reason)
      ensures result.Err? ==> authority == old(authority)
    {
      StepConsistent(authority, op, now);
      AcceptedExactly(authority, op, now);
      KernelEffects.RefusedExactly(authority, op, now);
      if Succeeds(authority, op, now) {
        KernelEffects.StepEffect(authority, op, now);
      }
      match Step(authority, op, now)
      case Done(reply, next) =>
        authority := next;
        result := Ok(reply);
      case Rejected(reason) =>
        result := Err(reason);
    }

    method PendingDeletion() returns (pending: set<Lease>)
      ensures forall lease :: lease in pending <==>
                exists session :: session in authority.leases && authority.leases[session] == lease
                                  && lease.resource.Some? && lease.resource.value.binding.state == Deleting
    {
      pending := set session | session in authority.leases && authority.leases[session].resource.Some?
                               && authority.leases[session].resource.value.binding.state == Deleting
                   :: authority.leases[session];
    }
  }
}
