/**
 * The `refresh_nagios_status` view: push the latest status of every active
 * backup task on an up machine to Nagios as a passive check through an NSCA
 * client, then send the batch once.
 */
module StatusSync {
  import opened Wrappers
  import opened Inventory
  import opened Sequences

  /** One passive-check result handed to the NSCA client. */
  datatype Submission = Submission(host: string, service: string, code: int, comment: string)

  /**
   * The NSCA client, reduced to what the view does to it: the results
   * buffered by `add_custom_status`, and the buffer as it stood at each
   * `send` call, one entry per call.
   */
  class Nsca {
    var submitted: seq<Submission>
    var delivered: seq<seq<Submission>>

    constructor ()
      ensures submitted == [] && delivered == []
    {
      submitted := [];
      delivered := [];
    }

    method AddCustomStatus(host: string, service: string, code: int, comment: string)
      modifies this
      ensures submitted == old(submitted) + [Submission(host, service, code, comment)]
      ensures delivered == old(delivered)
    {
      submitted := submitted + [Submission(host, service, code, comment)];
    }

    method Send()
      modifies this
      ensures submitted == old(submitted)
      ensures delivered == old(delivered) + [submitted]
    {
      delivered := delivered + [submitted];
    }
  }

  /** The response of the view; the last two stand for the exceptions that abort it. */
  datatype Response =
    | UpToDate                        // "Nagios up to date"
    | UnmappedStatus(status: string)  // `HUMAN_TO_NAGIOS[status]` raises KeyError
    | UnboundTask                     // the log line after the loop names `bt`, never bound

  predicate SyncEligible(t: BackupTask) { t.active && t.machine.up }

  /** `BackupTask.objects.filter(active=True, machine__up=True)`. */
  function SyncTasks(tasks: seq<BackupTask>): seq<BackupTask>
  {
    Filter(tasks, SyncEligible)
  }

  /**
   * `TaskCheck.objects.filter(task=bt).order_by('-task_time')[0]`, or `None`
   * where that raises IndexError: a check of the task with the greatest
   * `task_time` (of equal times, the first in table order).
   */
  function Latest(checks: seq<TaskCheck>, taskId: nat): (r: Option<TaskCheck>)
    ensures r.None? <==> forall c | c in checks :: c.taskId != taskId
    ensures r.Some? ==> r.value in checks && r.value.taskId == taskId
    ensures r.Some? ==> forall c | c in checks && c.taskId == taskId :: c.taskTime <= r.value.taskTime
  {
    if checks == [] then None
    else
      var earlier := Latest(checks[..|checks| - 1], taskId);
      var c := checks[|checks| - 1];
      assert checks == checks[..|checks| - 1] + [c];
      if c.taskId == taskId && (earlier.None? || earlier.value.taskTime < c.taskTime) then Some(c)
      else earlier
  }

  /** The `last_status` of the task's latest check, when there is one and it is a `TaskStatus`. */
  function StatusOf(t: BackupTask, checks: seq<TaskCheck>): Option<TaskStatus>
  {
    match Latest(checks, t.id)
    case None => None
    case Some(tc) => tc.lastStatus
  }

  /** The task's status, if any, has a Nagios code. */
  predicate Mapped(t: BackupTask, checks: seq<TaskCheck>, humanToNagios: map<string, int>)
  {
    StatusOf(t, checks).None? || StatusOf(t, checks).value.status in humanToNagios
  }

  /** What one task contributes to the batch: nothing, or its mapped status. */
  function ReportOf(t: BackupTask, checks: seq<TaskCheck>, humanToNagios: map<string, int>, nagiosSafe: string -> string)
    : seq<Submission>
  {
    match StatusOf(t, checks)
    case None => []
    case Some(st) =>
      if st.status in humanToNagios then
        [Submission(t.machine.fqdn, nagiosSafe(t.description), humanToNagios[st.status], st.comment)]
      else []
  }

  /** The buffer after a run over some tasks, and the unmapped status that stopped it, if one did. */
  datatype SyncRun = SyncRun(buffered: seq<Submission>, unmapped: Option<string>)

  function SyncStep(run: SyncRun, t: BackupTask, checks: seq<TaskCheck>, humanToNagios: map<string, int>,
                    nagiosSafe: string -> string): SyncRun
  {
    if run.unmapped.Some? then run
    else if !Mapped(t, checks, humanToNagios) then SyncRun(run.buffered, Some(StatusOf(t, checks).value.status))
    else SyncRun(run.buffered + ReportOf(t, checks, humanToNagios, nagiosSafe), None)
  }

  /** The run of the loop over `tasks`, in order. */
  function SyncRunOf(tasks: seq<BackupTask>, checks: seq<TaskCheck>, humanToNagios: map<string, int>,
                     nagiosSafe: string -> string): SyncRun
  {
    if tasks == [] then SyncRun([], None)
    else SyncStep(SyncRunOf(tasks[..|tasks| - 1], checks, humanToNagios, nagiosSafe), tasks[|tasks| - 1],
                  checks, humanToNagios, nagiosSafe)
  }

  /** The view's response as the code is written: with no eligible task, the closing log line fails. */
  function RefreshResponseAsWritten(eligible: nat, run: SyncRun): Response
  {
    if run.unmapped.Some? then UnmappedStatus(run.unmapped.value)
    else if eligible == 0 then UnboundTask
    else UpToDate
  }

  /** The view's response as intended: it fails only on an unmapped status. */
  function RefreshResponse(run: SyncRun): Response
  {
    if run.unmapped.Some? then UnmappedStatus(run.unmapped.value) else UpToDate
  }

  lemma SyncRunSnoc(tasks: seq<BackupTask>, i: nat, checks: seq<TaskCheck>, humanToNagios: map<string, int>,
                    nagiosSafe: string -> string)
    requires i < |tasks|
    ensures SyncRunOf(tasks[..i + 1], checks, humanToNagios, nagiosSafe) ==
      SyncStep(SyncRunOf(tasks[..i], checks, humanToNagios, nagiosSafe), tasks[i], checks, humanToNagios, nagiosSafe)
  {
    assert tasks[..i + 1][..i] == tasks[..i];
  }

  /** Once a status is found unmapped, the rest of the tasks change nothing. */
  lemma {:induction false} SyncRunStops(tasks: seq<BackupTask>, n: nat, checks: seq<TaskCheck>,
                                         humanToNagios: map<string, int>, nagiosSafe: string -> string)
    requires n <= |tasks|
    requires SyncRunOf(tasks[..n], checks, humanToNagios, nagiosSafe).unmapped.Some?
    ensures SyncRunOf(tasks, checks, humanToNagios, nagiosSafe) == SyncRunOf(tasks[..n], checks, humanToNagios, nagiosSafe)
    decreases |tasks| - n
  {
    if n < |tasks| {
      SyncRunSnoc(tasks, n, checks, humanToNagios, nagiosSafe);
      SyncRunStops(tasks, n + 1, checks, humanToNagios, nagiosSafe);
    } else {
      assert tasks[..n] == tasks;
    }
  }

  /**
   * The view. Every eligible task whose latest check carries a status adds
   * that status, mapped to its Nagios code, to the client's buffer; a task
   * without checks is skipped; an unmapped status aborts before `send`;
   * otherwise `send` is called once, after the loop, and delivers the whole
   * buffer. The response is the corrected one (`RefreshResponse`); the
   * response of the code as written is `RefreshResponseAsWritten`.
   */
  method RefreshNagiosStatus(tasks: seq<BackupTask>, checks: seq<TaskCheck>, humanToNagios: map<string, int>,
                             nagiosSafe: string -> string)
    returns (nsca: Nsca, response: Response)
    ensures fresh(nsca)
    ensures nsca.submitted == SyncRunOf(SyncTasks(tasks), checks, humanToNagios, nagiosSafe).buffered
    ensures nsca.delivered ==
      if SyncRunOf(SyncTasks(tasks), checks, humanToNagios, nagiosSafe).unmapped.None? then
        [SyncRunOf(SyncTasks(tasks), checks, humanToNagios, nagiosSafe).buffered]
      else []
    ensures response == RefreshResponse(SyncRunOf(SyncTasks(tasks), checks, humanToNagios, nagiosSafe))
  {
    nsca := new Nsca();
    var q := SyncTasks(tasks);
    for i := 0 to |q|
      invariant SyncRunOf(q[..i], checks, humanToNagios, nagiosSafe).unmapped.None?
      invariant nsca.submitted == SyncRunOf(q[..i], checks, humanToNagios, nagiosSafe).buffered
      invariant nsca.delivered == []
    {
      var bt := q[i];
      SyncRunSnoc(q, i, checks, humanToNagios, nagiosSafe);
      var tch := Latest(checks, bt.id);
      if tch.None? {
        continue;
      }
      var status := tch.value.lastStatus;
      if status.Some? {
        if status.value.status !in humanToNagios {
          SyncRunStops(q, i + 1, checks, humanToNagios, nagiosSafe);
          response := UnmappedStatus(status.value.status);
          return;
        }
        nsca.AddCustomStatus(bt.machine.fqdn, nagiosSafe(bt.description), humanToNagios[status.value.status],
                             status.value.comment);
      }
    }
    assert q[..|q|] == q;
    nsca.Send();
    response := UpToDate;
  }

  // ---------------------------------------------------------------------------
  // What the view submits
  // ---------------------------------------------------------------------------

  /**
   * A run is stopped by an unmapped status exactly when some task's status is
   * unmapped, and the status it reports is one of those; a run that is not
   * stopped buffers each task's report, task by task in order.
   */
  lemma {:induction false} SyncRunExactly(q: seq<BackupTask>, checks: seq<TaskCheck>, humanToNagios: map<string, int>,
                                           nagiosSafe: string -> string)
    ensures SyncRunOf(q, checks, humanToNagios, nagiosSafe).unmapped.None? <==>
      forall t | t in q :: Mapped(t, checks, humanToNagios)
    ensures SyncRunOf(q, checks, humanToNagios, nagiosSafe).unmapped.Some? ==>
      exists t | t in q :: !Mapped(t, checks, humanToNagios) &&
        StatusOf(t, checks).value.status == SyncRunOf(q, checks, humanToNagios, nagiosSafe).unmapped.value
    ensures SyncRunOf(q, checks, humanToNagios, nagiosSafe).unmapped.None? ==>
      SyncRunOf(q, checks, humanToNagios, nagiosSafe).buffered ==
        Flatten(q, (t: BackupTask) => ReportOf(t, checks, humanToNagios, nagiosSafe))
    decreases |q|
  {
    if q != [] {
      var init := q[..|q| - 1];
      SyncRunExactly(init, checks, humanToNagios, nagiosSafe);
      assert q == init + [q[|q| - 1]];
    }
  }

  /**
   * When every status is mapped, the batch holds exactly one submission per
   * active task on an up machine whose latest check carries a status: the
   * machine's fqdn, the sanitised description, the Nagios code of the status
   * and its comment. Tasks without checks, or whose latest check carries no
   * status, submit nothing and do not stop the others.
   */
  lemma RefreshSubmitsExactly(tasks: seq<BackupTask>, checks: seq<TaskCheck>, humanToNagios: map<string, int>,
                              nagiosSafe: string -> string, s: Submission)
    requires forall t | t in tasks && t.active && t.machine.up :: Mapped(t, checks, humanToNagios)
    ensures s in SyncRunOf(SyncTasks(tasks), checks, humanToNagios, nagiosSafe).buffered <==>
      exists t, tc | t in tasks && tc in checks ::
        && t.active && t.machine.up
        && Latest(checks, t.id) == Some(tc) && tc.lastStatus.Some? && tc.lastStatus.value.status in humanToNagios
        && s == Submission(t.machine.fqdn, nagiosSafe(t.description), humanToNagios[tc.lastStatus.value.status],
                           tc.lastStatus.value.comment)
  {
    var q := SyncTasks(tasks);
    FilterMembers(tasks, SyncEligible);
    SyncRunExactly(q, checks, humanToNagios, nagiosSafe);
    FlattenMembers(q, (t: BackupTask) => ReportOf(t, checks, humanToNagios, nagiosSafe), s);
  }

  /** The batch never holds more submissions than there are eligible tasks. */
  lemma {:induction false} SyncRunBounded(q: seq<BackupTask>, checks: seq<TaskCheck>, humanToNagios: map<string, int>,
                                           nagiosSafe: string -> string)
    ensures |SyncRunOf(q, checks, humanToNagios, nagiosSafe).buffered| <= |q|
    decreases |q|
  {
    if q != [] {
      SyncRunBounded(q[..|q| - 1], checks, humanToNagios, nagiosSafe);
    }
  }

  /** As intended, the view reports success exactly when no eligible task has an unmapped status. */
  lemma RefreshSucceedsIffAllMapped(tasks: seq<BackupTask>, checks: seq<TaskCheck>, humanToNagios: map<string, int>,
                                    nagiosSafe: string -> string)
    ensures RefreshResponse(SyncRunOf(SyncTasks(tasks), checks, humanToNagios, nagiosSafe)) == UpToDate <==>
      forall t | t in tasks && t.active && t.machine.up :: Mapped(t, checks, humanToNagios)
  {
    FilterMembers(tasks, SyncEligible);
    SyncRunExactly(SyncTasks(tasks), checks, humanToNagios, nagiosSafe);
  }

  /**
   * As written, a table without any active task on an up machine makes the
   * view fail after `send`, although no status is unmapped.
   */
  lemma NoEligibleTaskFailsAsWritten(tasks: seq<BackupTask>, checks: seq<TaskCheck>, humanToNagios: map<string, int>,
                                     nagiosSafe: string -> string)
    requires forall t | t in tasks :: !SyncEligible(t)
    ensures forall t | t in tasks && t.active && t.machine.up :: Mapped(t, checks, humanToNagios)
    ensures RefreshResponseAsWritten(|SyncTasks(tasks)|, SyncRunOf(SyncTasks(tasks), checks, humanToNagios, nagiosSafe))
      == UnboundTask
    ensures RefreshResponse(SyncRunOf(SyncTasks(tasks), checks, humanToNagios, nagiosSafe)) == UpToDate
  {
    FilterNone(tasks, SyncEligible);
  }
}
