/** Resource leases: `src/core/state.rs` lines 888-941 and `conflicts_with` of `src/core/domain.rs`. */
module Leases {
  import opened Wrappers
  import opened Errors

  datatype ResourceKind = Workspace | File | Port | Browser | Gpu

  datatype ResourceClaim = ResourceClaim(kind: ResourceKind, key: string, exclusive: bool)

  datatype LeaseStatus = Active | Released

  datatype FlightLease = FlightLease(id: string, flowId: string, taskId: string, principalId: string)

  datatype ResourceLease = ResourceLease(
    id: string,
    flightLeaseId: string,
    flowId: string,
    taskId: string,
    principalId: string,
    claim: ResourceClaim,
    status: LeaseStatus,
    issuedAt: int,
    expiresAt: int,
    releasedAt: Option<int>
  ) {
    predicate ConflictsWith(other: ResourceClaim, now: int) {
      && status == Active && expiresAt > now
      && claim.kind == other.kind && claim.key == other.key
      && (claim.exclusive || other.exclusive)
    }

    /** The lease holds its resource at instant t. */
    predicate Holds(t: int) { status == Active && issuedAt <= t < expiresAt }
  }

  function Acquire(flights: map<string, FlightLease>, leases: map<string, ResourceLease>, lease: ResourceLease):
    Result<map<string, ResourceLease>, RelayError>
  {
    if lease.flightLeaseId !in flights then Err(NotFound(lease.flightLeaseId))
    else
      var flight := flights[lease.flightLeaseId];
      if flight.flowId != lease.flowId || flight.taskId != lease.taskId || flight.principalId != lease.principalId then
        Err(Validation(ScopeMismatch(lease.id)))
      else if exists id ::
        id in leases && leases[id].id != lease.id && leases[id].ConflictsWith(lease.claim, lease.issuedAt) then
        Err(InvalidTransition(lease.id))
      else Ok(leases[lease.id := lease])
  }

  function Release(leases: map<string, ResourceLease>, id: string, flowId: string, taskId: string, at: int):
    Result<map<string, ResourceLease>, RelayError>
  {
    if id !in leases then Err(NotFound(id))
    else if leases[id].flowId != flowId || leases[id].taskId != taskId then Err(Validation(ScopeMismatch(id)))
    else if leases[id].status != Active then Err(InvalidTransition(id))
    else Ok(leases[id := leases[id].(status := Released, releasedAt := Some(at))])
  }

  /** Same resource, at least one side exclusive. */
  predicate Contend(a: ResourceLease, b: ResourceLease) {
    && a.claim.kind == b.claim.kind && a.claim.key == b.claim.key
    && (a.claim.exclusive || b.claim.exclusive)
  }

  /** The lease stands in the way: another one, active, not expired, of the same resource, and one of them exclusive. */
  predicate Blocks(other: ResourceLease, lease: ResourceLease) {
    && other.id != lease.id && other.status != Released && lease.issuedAt < other.expiresAt
    && other.claim.kind == lease.claim.kind && other.claim.key == lease.claim.key
    && (other.claim.exclusive || lease.claim.exclusive)
  }

  /** A lease is acquired iff its flight is of that task and principal, and no lease blocks it. */
  lemma AcquireOkIff(flights: map<string, FlightLease>, leases: map<string, ResourceLease>, lease: ResourceLease)
    ensures Acquire(flights, leases, lease).Ok? <==>
      && lease.flightLeaseId in flights && flights[lease.flightLeaseId].flowId == lease.flowId
      && flights[lease.flightLeaseId].taskId == lease.taskId
      && flights[lease.flightLeaseId].principalId == lease.principalId
      && forall id | id in leases :: !Blocks(leases[id], lease)
    ensures Acquire(flights, leases, lease).Err? ==>
      Acquire(flights, leases, lease).error ==
      if lease.flightLeaseId !in flights then NotFound(lease.flightLeaseId)
      else
        var flight := flights[lease.flightLeaseId];
        if flight.flowId != lease.flowId || flight.taskId != lease.taskId || flight.principalId != lease.principalId
        then Validation(ScopeMismatch(lease.id)) else InvalidTransition(lease.id)
  {
    forall id | id in leases
      ensures Blocks(leases[id], lease)
        <==> leases[id].id != lease.id && leases[id].ConflictsWith(lease.claim, lease.issuedAt)
    {
    }
  }

  /** Two contending active leases never overlap: one ends before the other is issued. */
  ghost predicate Exclusive(leases: map<string, ResourceLease>) {
    && (forall id | id in leases :: leases[id].id == id)
    && forall i, j | i in leases && j in leases && i != j ::
      leases[i].status == Active && leases[j].status == Active && Contend(leases[i], leases[j]) ==>
        leases[i].expiresAt <= leases[j].issuedAt || leases[j].expiresAt <= leases[i].issuedAt
  }

  lemma AcquireKeepsExclusive(flights: map<string, FlightLease>, leases: map<string, ResourceLease>,
                              lease: ResourceLease)
    requires Exclusive(leases)
    ensures var r := Acquire(flights, leases, lease); r.Ok? ==> Exclusive(r.value)
  {
    var r := Acquire(flights, leases, lease);
    if r.Ok? {
      forall i | i in leases && i != lease.id && leases[i].status == Active && Contend(leases[i], lease)
        ensures leases[i].expiresAt <= lease.issuedAt
      {
        assert !leases[i].ConflictsWith(lease.claim, lease.issuedAt);
      }
    }
  }

  lemma ReleaseKeepsExclusive(leases: map<string, ResourceLease>, id: string, flowId: string, taskId: string, at: int)
    requires Exclusive(leases)
    ensures var r := Release(leases, id, flowId, taskId, at); r.Ok? ==> Exclusive(r.value)
  {
  }

  /** No instant has two contending holders. */
  lemma NoTwoHolders(leases: map<string, ResourceLease>, i: string, j: string, t: int)
    requires Exclusive(leases) && i in leases && j in leases && i != j && Contend(leases[i], leases[j])
    ensures !(leases[i].Holds(t) && leases[j].Holds(t))
  {
  }
}
