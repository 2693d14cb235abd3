/** What each operation of the authority leaves in its session's lease, what it answers, and why it is refused, told on fields. */
module KernelEffects {
  import opened Wrappers
  import opened Texts
  import opened KernelAuthority

  /** The session an operation is about. */
  ghost function About(op: Op): Text {
    match op
    case Acquire(session, _, _, _, _) => session
    case Renew(claim, _) => claim.session
    case Bind(claim, _) => claim.session
    case Admit(command, _, _) => command.claim.session
    case Finish(claim, _) => claim.session
    case Revoke(claim) => claim.session
    case FailDeletion(claim, _, _) => claim.session
    case ConfirmDeletion(claim, _) => claim.session
    case Expire(session) => session
  }

  ghost function LeaseOf(s: Authority, session: Text): Option<Lease> {
    if session in s.leases then Some(s.leases[session]) else None
  }

  /** The generation last issued to a session; nobody's is zero. */
  ghost function Issued(s: Authority, session: Text): int {
    if session in s.generations then s.generations[session] else 0
  }

  /** The lease is the same but for the bound resource. */
  ghost predicate SameTerms(a: Lease, b: Lease) {
    a.claim == b.claim && a.provider == b.provider && a.profile == b.profile && a.expiresAt == b.expiresAt
  }

  /** A new lease on the terms asked for: the running holder keeps its claim, anybody else gets the next generation. */
  ghost predicate Granted(before: Option<Lease>, issued: int, op: Op, now: nat, after: Lease)
    requires op.Acquire?
  {
    && after.claim.session == op.session && after.claim.owner == op.owner
    && after.claim.generation == (if before.Some? && before.value.expiresAt > now then before.value.claim.generation else issued + 1)
    && after.provider == op.provider && after.profile == op.profile && after.expiresAt == now + op.leaseMillis
    && after.resource == (if before.Some? then before.value.resource else None)
  }

  /** What an accepted operation makes of the resource its session's lease bound before. */
  ghost predicate Rebound(before: Option<Resource>, op: Op, after: Option<Resource>) {
    match op
    case Bind(_, binding) =>
      && after.Some? && after.value.binding == binding
      && after.value.activeCell == (if before.Some? then before.value.activeCell else None)
      && after.value.cleanupFailure == (if before.Some? then before.value.cleanupFailure else None)
    case Admit(command, control, _) =>
      && before.Some? && after.Some?
      && after.value.binding == before.value.binding && after.value.cleanupFailure == before.value.cleanupFailure
      && after.value.activeCell == (if control then before.value.activeCell else Some(command))
    case Finish(_, _) =>
      && before.Some? && after.Some?
      && after.value.binding == before.value.binding && after.value.cleanupFailure == before.value.cleanupFailure
      && after.value.activeCell == None
    case Revoke(_) =>
      if before.None? then after.None?
      else
        && after.Some?
        && after.value.binding.identity == before.value.binding.identity
        && after.value.binding.checkpoint == before.value.binding.checkpoint
        && after.value.binding.state == Deleting
        && after.value.activeCell == before.value.activeCell && after.value.cleanupFailure == before.value.cleanupFailure
    case FailDeletion(_, _, message) =>
      && before.Some? && after.Some?
      && after.value.binding == before.value.binding && after.value.activeCell == before.value.activeCell
      && after.value.cleanupFailure.Some? && after.value.cleanupFailure.value.message == message
      && after.value.cleanupFailure.value.attempts ==
         1 + (if before.value.cleanupFailure.Some? then before.value.cleanupFailure.value.attempts else 0)
    case ConfirmDeletion(_, _) => before.Some? && after.None?
    case _ => after == before
  }

  /** What an accepted operation leaves in its session's lease. */
  ghost predicate Leaves(before: Option<Lease>, issued: int, op: Op, now: nat, after: Option<Lease>) {
    if op.Acquire? then after.Some? && Granted(before, issued, op, now, after.value)
    else if op.Expire? then
      if before.None? then after.None?
      else after.Some? && after.value == before.value.(expiresAt := 0)
    else if op.Renew? then
      before.Some? && after.Some? && after.value == before.value.(expiresAt := now + op.leaseMillis)
    else
      && before.Some? && after.Some? && SameTerms(before.value, after.value)
      && Rebound(before.value.resource, op, after.value.resource)
  }

  /** What an accepted operation answers: the lease or the resource as it now is, or the identity to be deleted. */
  ghost predicate Told(before: Option<Lease>, op: Op, after: Option<Lease>, reply: Reply) {
    match op
    case Acquire(_, _, _, _, _) => after.Some? && reply == LeaseReply(after.value)
    case Renew(_, _) => after.Some? && reply == LeaseReply(after.value)
    case Bind(_, _) => after.Some? && reply == LeaseReply(after.value)
    case Admit(_, _, _) => after.Some? && after.value.resource.Some? && reply == ResourceReply(after.value.resource.value)
    case FailDeletion(_, _, _) => after.Some? && after.value.resource.Some? && reply == ResourceReply(after.value.resource.value)
    case Revoke(_) =>
      before.Some? && reply == IdentityReply(if before.value.resource.None? then None
                                             else Some(before.value.resource.value.binding.identity))
    case _ => reply == Nothing
  }

  /** The whole effect of an accepted operation: on its own session, and on no other. */
  ghost predicate Effect(s: Authority, op: Op, now: nat, reply: Reply, t: Authority) {
    && Leaves(LeaseOf(s, About(op)), Issued(s, About(op)), op, now, LeaseOf(t, About(op)))
    && Told(LeaseOf(s, About(op)), op, LeaseOf(t, About(op)), reply)
    && (forall other :: other != About(op) ==> LeaseOf(t, other) == LeaseOf(s, other) && Issued(t, other) == Issued(s, other))
    && (LeaseOf(t, About(op)).Some? ==> LeaseOf(t, About(op)).value.claim.generation == Issued(t, About(op)))
  }

  lemma OwnEffect(s: Authority, op: Op, now: nat)
    requires Consistent(s) && Succeeds(s, op, now)
    ensures var t := Step(s, op, now);
            && Leaves(LeaseOf(s, About(op)), Issued(s, About(op)), op, now, LeaseOf(t.state, About(op)))
            && Told(LeaseOf(s, About(op)), op, LeaseOf(t.state, About(op)), t.reply)
  {
    if op.Acquire? || op.Expire? || op.Renew? {
    } else {
      ResourceEffect(s, op, now);
    }
  }

  lemma ResourceEffect(s: Authority, op: Op, now: nat)
    requires Consistent(s) && Succeeds(s, op, now) && !op.Acquire? && !op.Expire? && !op.Renew?
    ensures var t := Step(s, op, now);
            && Leaves(LeaseOf(s, About(op)), Issued(s, About(op)), op, now, LeaseOf(t.state, About(op)))
            && Told(LeaseOf(s, About(op)), op, LeaseOf(t.state, About(op)), t.reply)
  {
  }

  lemma StepEffect(s: Authority, op: Op, now: nat)
    requires Consistent(s) && Succeeds(s, op, now)
    ensures Effect(s, op, now, Step(s, op, now).reply, Step(s, op, now).state)
  {
    OwnEffect(s, op, now);
    StepConsistent(s, op, now);
    forall other | other != About(op)
      ensures var t := Step(s, op, now).state; LeaseOf(t, other) == LeaseOf(s, other) && Issued(t, other) == Issued(s, other)
    {
      StepFrame(s, op, now, other);
    }
  }

  // ----- Refusals -----

  /** The claim an operation comes with. */
  ghost function ClaimOf(op: Op): Option<Claim> {
    match op
    case Acquire(_, _, _, _, _) => None
    case Renew(claim, _) => Some(claim)
    case Bind(claim, _) => Some(claim)
    case Admit(command, _, _) => Some(command.claim)
    case Finish(claim, _) => Some(claim)
    case Revoke(claim) => Some(claim)
    case FailDeletion(claim, _, _) => Some(claim)
    case ConfirmDeletion(claim, _) => Some(claim)
    case Expire(_) => None
  }

  /** The lease names this claim, whole, and has not run out. */
  ghost predicate Runs(lease: Option<Lease>, claim: Claim, now: nat) {
    lease.Some? && lease.value.claim.session == claim.session && lease.value.claim.owner == claim.owner
    && lease.value.claim.generation == claim.generation && now < lease.value.expiresAt
  }

  /** The command names the live resource the lease asks for. */
  ghost predicate NamesLive(lease: Lease, resource: Resource, command: Command) {
    && resource.binding.state == Live
    && resource.binding.identity.provider == lease.provider
    && resource.binding.identity.profile == lease.profile && lease.profile == command.profile
    && resource.binding.identity.epoch == command.epoch
  }

  ghost predicate AsRequested(lease: Lease, identity: Identity) {
    identity.provider == lease.provider && identity.profile == lease.profile
  }

  /** Why an operation with a running claim is refused, the reasons apart: no two hold at once. */
  ghost predicate Blocked(lease: Lease, op: Op, reason: Reason) {
    var resource := lease.resource;
    match reason
    case ResourceMissing => op.Admit? && resource.None?
    case ResourceMismatch =>
      || (op.Bind? && !AsRequested(lease, op.binding.identity))
      || (op.Bind? && resource.Some? && resource.value.binding.state != Deleting && resource.value.binding.identity != op.binding.identity)
      || (op.Admit? && resource.Some? && !NamesLive(lease, resource.value, op.command))
      || ((op.FailDeletion? || op.ConfirmDeletion?)
          && (resource.None? || resource.value.binding.state != Deleting || resource.value.binding.identity != op.expected))
    case CleanupPending =>
      op.Bind? && AsRequested(lease, op.binding.identity) && resource.Some? && resource.value.binding.state == Deleting
    case CellActive =>
      && resource.Some? && resource.value.activeCell.Some?
      && (|| op.Revoke?
          || (op.Bind? && AsRequested(lease, op.binding.identity) && resource.value.binding.state != Deleting
              && resource.value.binding.identity == op.binding.identity && op.binding.state == Paused)
          || (op.Admit? && !op.control && NamesLive(lease, resource.value, op.command)
              && (op.expectedCell.Some? ==> op.expectedCell == resource.value.activeCell)))
    case CellNotActive =>
      || (op.Finish? && (resource.None? || resource.value.activeCell != Some(op.cell)))
      || (op.Admit? && resource.Some? && NamesLive(lease, resource.value, op.command)
          && op.expectedCell.Some? && op.expectedCell != resource.value.activeCell)
    case _ => false
  }

  /** Why an operation is refused. */
  ghost predicate RefusedFor(s: Authority, op: Op, now: nat, reason: Reason) {
    var lease := LeaseOf(s, About(op));
    if (op.Acquire? || op.Renew?) && op.leaseMillis < 1 then reason == ResourceMismatch
    else if op.Acquire? then
      reason == Owned && lease.Some? && now < lease.value.expiresAt && lease.value.claim.owner != op.owner
    else if op.Expire? then false
    else if !Runs(lease, ClaimOf(op).value, now) then reason == StaleClaim
    else Blocked(lease.value, op, reason)
  }

  /** An operation is refused exactly for these reasons, and accepted when none of them holds. */
  lemma RefusedExactly(s: Authority, op: Op, now: nat)
    ensures forall reason :: Step(s, op, now) == Rejected(reason) <==> RefusedFor(s, op, now, reason)
    ensures Succeeds(s, op, now) <==> forall reason :: !RefusedFor(s, op, now, reason)
  {
    forall reason
      ensures Step(s, op, now) == Rejected(reason) <==> RefusedFor(s, op, now, reason)
    {
      RefusedForExactly(s, op, now, reason);
    }
    if !Succeeds(s, op, now) {
      assert RefusedFor(s, op, now, Step(s, op, now).reason);
    }
  }

  lemma RefusedForExactly(s: Authority, op: Op, now: nat, reason: Reason)
    ensures Step(s, op, now) == Rejected(reason) <==> RefusedFor(s, op, now, reason)
  {
  }
}
