/** The records of `src/core/domain.rs` that planning, scheduling and the ledger share. */
module Domain {
  import opened Wrappers

  datatype TargetKind = Human | Agent | Team

  datatype Assignment = Assignment(ownerKind: TargetKind, ownerId: string)

  datatype Estimate = Estimate(
    effortHours: real,
    p50Hours: real,
    p80Hours: real,
    earliestStart: int,
    p50Finish: int,
    p80Finish: int
  )

  datatype TaskDraft = TaskDraft(
    key: string,
    title: string,
    dependsOn: seq<string>,
    effortHours: real,
    requiresHuman: bool
  )

  datatype TaskStatus =
    | Proposed | Assigned | Accepted | InProgress | Blocked | Submitted | Completed | Rejected | Cancelled
  {
    predicate IsTerminal() { Completed? || Rejected? || Cancelled? }
  }

  datatype Task = Task(
    id: string,
    key: string,
    title: string,
    dependsOn: seq<string>,
    requiresHuman: bool,
    assignment: Option<Assignment>,
    estimate: Estimate,
    status: TaskStatus,
    lastHeartbeat: Option<int>
  )

  datatype FlowStatus = DraftFlow | ApprovedFlow | ActiveFlow | CompletedFlow | CancelledFlow

  datatype Flow = Flow(
    id: string,
    status: FlowStatus,
    prd: string,
    tasks: seq<Task>,
    p50Finish: int,
    p80Finish: int,
    criticalPath: seq<string>
  )

  function TaskIds(tasks: seq<Task>): (ids: seq<string>)
    ensures |ids| == |tasks| && forall i | 0 <= i < |tasks| :: ids[i] == tasks[i].id
  {
    seq(|tasks|, i requires 0 <= i < |tasks| => tasks[i].id)
  }

  function TaskKeys(tasks: seq<Task>): (keys: seq<string>)
    ensures |keys| == |tasks| && forall i | 0 <= i < |tasks| :: keys[i] == tasks[i].key
  {
    seq(|tasks|, i requires 0 <= i < |tasks| => tasks[i].key)
  }

  /** `Flow::task`: the first task whose id or key is the given name. */
  function FindTask(tasks: seq<Task>, name: string): (r: Option<Task>)
    ensures r.Some? ==> r.value in tasks && (r.value.id == name || r.value.key == name)
    ensures r.None? <==> forall t | t in tasks :: t.id != name && t.key != name
  {
    if tasks == [] then None
    else if tasks[0].id == name || tasks[0].key == name then Some(tasks[0])
    else FindTask(tasks[1..], name)
  }
}
