/** The kernel resource authority: leases with generations, cell admission, and two-phase deletion. */
module KernelAuthority {
  import opened Wrappers
  import opened Texts

  datatype Claim = Claim(session: Text, owner: Text, generation: int)

  datatype Command = Command(claim: Claim, epoch: int, profile: Text, cell: Text)

  datatype ResourceState = Live | Paused | Deleting

  datatype Checkpoint = LiveProcess | Filesystem | Namespace | RestartOnly

  datatype Identity = Identity(provider: Text, resourceId: Text, profile: Text, epoch: int)

  datatype Binding = Binding(identity: Identity, state: ResourceState, checkpoint: Checkpoint)

  datatype CleanupFailure = CleanupFailure(attempts: int, message: Text)

  datatype Resource = Resource(binding: Binding, activeCell: Option<Command>, cleanupFailure: Option<CleanupFailure>)

  datatype Lease = Lease(claim: Claim, provider: Text, profile: Text, expiresAt: int, resource: Option<Resource>)

  datatype Authority = Authority(generations: map<Text, int>, leases: map<Text, Lease>)

  const NOBODY := Authority(map[], map[])

  datatype Reason = Owned | StaleClaim | ResourceMissing | ResourceMismatch | CellActive | CellNotActive | CleanupPending

  datatype Reply = LeaseReply(lease: Lease) | ResourceReply(resource: Resource) | IdentityReply(identity: Option<Identity>) | Nothing

  datatype Op =
    | Acquire(session: Text, owner: Text, provider: Text, profile: Text, leaseMillis: int)
    | Renew(claim: Claim, leaseMillis: int)
    | Bind(claim: Claim, binding: Binding)
    | Admit(command: Command, control: bool, expectedCell: Option<Command>)
    | Finish(claim: Claim, cell: Command)
    | Revoke(claim: Claim)
    | FailDeletion(claim: Claim, expected: Identity, message: Text)
    | ConfirmDeletion(claim: Claim, expected: Identity)
    | Expire(session: Text)

  datatype Transition = Done(reply: Reply, state: Authority) | Rejected(reason: Reason)

  function SetLease(s: Authority, lease: Lease): Authority {
    s.(leases := s.leases[lease.claim.session := lease])
  }

  predicate Current(s: Authority, claim: Claim, now: nat) {
    claim.session in s.leases && s.leases[claim.session].claim == claim && s.leases[claim.session].expiresAt > now
  }

  function Acquiring(s: Authority, op: Op, now: nat): Transition
    requires op.Acquire?
  {
    if op.leaseMillis < 1 then Rejected(ResourceMismatch)
    else
      var known := op.session in s.leases;
      var running := known && s.leases[op.session].expiresAt > now;
      if running && s.leases[op.session].claim.owner != op.owner then Rejected(Owned)
      else
        var previous := if op.session in s.generations then s.generations[op.session] else 0;
        var generation := if running then s.leases[op.session].claim.generation else previous + 1;
        var lease := Lease(Claim(op.session, op.owner, generation), op.provider, op.profile, now + op.leaseMillis,
                           if known then s.leases[op.session].resource else None);
        Done(LeaseReply(lease), SetLease(s.(generations := s.generations[op.session := generation]), lease))
  }

  function Rebinding(s: Authority, lease: Lease, binding: Binding): Transition {
    var existing := lease.resource;
    if binding.identity.provider != lease.provider || binding.identity.profile != lease.profile then
      Rejected(ResourceMismatch)
    else if existing.Some? && existing.value.binding.state == Deleting then Rejected(CleanupPending)
    else if existing.Some? && existing.value.binding.identity != binding.identity then Rejected(ResourceMismatch)
    else if binding.state == Paused && existing.Some? && existing.value.activeCell.Some? then Rejected(CellActive)
    else
      var bound := if existing.None? then Resource(binding, None, None) else existing.value.(binding := binding);
      var updated := lease.(resource := Some(bound));
      Done(LeaseReply(updated), SetLease(s, updated))
  }

  function Admitting(s: Authority, lease: Lease, op: Op): Transition
    requires op.Admit?
  {
    if lease.resource.None? then Rejected(ResourceMissing)
    else
      var resource := lease.resource.value;
      var identity := resource.binding.identity;
      if || resource.binding.state != Live
         || identity.provider != lease.provider
         || identity.profile != lease.profile
         || identity.profile != op.command.profile
         || identity.epoch != op.command.epoch
      then Rejected(ResourceMismatch)
      else if op.expectedCell.Some? && resource.activeCell != op.expectedCell then Rejected(CellNotActive)
      else if op.control then Done(ResourceReply(resource), s)
      else if resource.activeCell.Some? then Rejected(CellActive)
      else
        var admitted := resource.(activeCell := Some(op.command));
        Done(ResourceReply(admitted), SetLease(s, lease.(resource := Some(admitted))))
  }

  function Finishing(s: Authority, lease: Lease, cell: Command): Transition {
    if lease.resource.None? || lease.resource.value.activeCell != Some(cell) then Rejected(CellNotActive)
    else
      var idle := lease.resource.value.(activeCell := None);
      Done(Nothing, SetLease(s, lease.(resource := Some(idle))))
  }

  function Revoking(s: Authority, lease: Lease): Transition {
    if lease.resource.None? then Done(IdentityReply(None), s)
    else if lease.resource.value.activeCell.Some? then Rejected(CellActive)
    else
      var resource := lease.resource.value;
      var deleting := resource.(binding := resource.binding.(state := Deleting));
      Done(IdentityReply(Some(deleting.binding.identity)), SetLease(s, lease.(resource := Some(deleting))))
  }

  predicate DeletingExactly(lease: Lease, expected: Identity) {
    && lease.resource.Some?
    && lease.resource.value.binding.state == Deleting
    && lease.resource.value.binding.identity == expected
  }

  function Attempts(resource: Resource): int {
    if resource.cleanupFailure.Some? then resource.cleanupFailure.value.attempts else 0
  }

  function FailingDeletion(s: Authority, lease: Lease, expected: Identity, message: Text): Transition {
    if !DeletingExactly(lease, expected) then Rejected(ResourceMismatch)
    else
      var resource := lease.resource.value;
      var failed := resource.(cleanupFailure := Some(CleanupFailure(Attempts(resource) + 1, message)));
      Done(ResourceReply(failed), SetLease(s, lease.(resource := Some(failed))))
  }

  function ConfirmingDeletion(s: Authority, lease: Lease, expected: Identity): Transition {
    if !DeletingExactly(lease, expected) then Rejected(ResourceMismatch)
    else Done(Nothing, SetLease(s, lease.(resource := None)))
  }

  function Expiring(s: Authority, session: Text): Transition {
    Done(Nothing, if session in s.leases then SetLease(s, s.leases[session].(expiresAt := 0)) else s)
  }

  /** The claim an operation carries; acquiring and the test-only expiry carry none. */
  function Carries(op: Op): Option<Claim> {
    match op
    case Acquire(_, _, _, _, _) => None
    case Expire(_) => None
    case Admit(command, _, _) => Some(command.claim)
    case Renew(claim, _) => Some(claim)
    case Bind(claim, _) => Some(claim)
    case Finish(claim, _) => Some(claim)
    case Revoke(claim) => Some(claim)
    case FailDeletion(claim, _, _) => Some(claim)
    case ConfirmDeletion(claim, _) => Some(claim)
  }

  function SessionOf(op: Op): Text {
    if op.Acquire? || op.Expire? then op.session else Carries(op).value.session
  }

  /** One atomic operation at the instant `now`. */
  function Step(s: Authority, op: Op, now: nat): Transition {
    if op.Acquire? then Acquiring(s, op, now)
    else if op.Expire? then Expiring(s, op.session)
    else if op.Renew? && op.leaseMillis < 1 then Rejected(ResourceMismatch)
    else if !Current(s, Carries(op).value, now) then Rejected(StaleClaim)
    else
      var lease := s.leases[SessionOf(op)];
      match op
      case Renew(_, millis) =>
        var renewed := lease.(expiresAt := now + millis);
        Done(LeaseReply(renewed), SetLease(s, renewed))
      case Bind(_, binding) => Rebinding(s, lease, binding)
      case Admit(_, _, _) => Admitting(s, lease, op)
      case Finish(_, cell) => Finishing(s, lease, cell)
      case Revoke(_) => Revoking(s, lease)
      case FailDeletion(_, expected, message) => FailingDeletion(s, lease, expected, message)
      case ConfirmDeletion(_, expected) => ConfirmingDeletion(s, lease, expected)
  }

  function Next(s: Authority, op: Op, now: nat): Authority {
    var t := Step(s, op, now);
    if t.Done? then t.state else s
  }

  predicate Succeeds(s: Authority, op: Op, now: nat) {
    Step(s, op, now).Done?
  }

  // ----- One step -----

  /** Leases and generations agree: a session's lease carries the generation last issued to it. */
  ghost predicate Consistent(s: Authority) {
    && s.leases.Keys == s.generations.Keys
    && forall k :: k in s.leases ==>
         s.leases[k].claim.session == k && s.leases[k].claim.generation == s.generations[k] && s.generations[k] >= 1
  }

  lemma StepConsistent(s: Authority, op: Op, now: nat)
    requires Consistent(s)
    ensures Consistent(Next(s, op, now))
  {
    if op.Acquire? {
    } else if op.Expire? {
    } else {
      StepKeepsClaims(s, op, now);
    }
  }

  /** Only acquiring touches claims and generations. */
  lemma StepKeepsClaims(s: Authority, op: Op, now: nat)
    requires Consistent(s) && !op.Acquire?
    ensures var next := Next(s, op, now);
            && next.generations == s.generations && next.leases.Keys == s.leases.Keys
            && forall k :: k in s.leases ==> next.leases[k].claim == s.leases[k].claim
  {
  }

  /** A step on one session leaves all others untouched. */
  lemma StepFrame(s: Authority, op: Op, now: nat, other: Text)
    requires Consistent(s) && other != SessionOf(op)
    ensures var next := Next(s, op, now);
            && (other in next.leases <==> other in s.leases)
            && (other in s.leases ==> next.leases[other] == s.leases[other])
            && (other in next.generations <==> other in s.generations)
            && (other in s.generations ==> next.generations[other] == s.generations[other])
  {
  }
}
