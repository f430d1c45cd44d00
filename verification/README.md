# Nagios views of arritranco, modelled in Dafny

arritranco is an inventory application. Its monitoring module turns inventory rows
(machines, physical machines, unrackable networked devices, backup tasks, Nagios
check assignments) into the lists that Nagios configuration templates are rendered
from. It also pushes the latest status of each backup task to Nagios through an
NSCA client. This project models the list-building rules of those views and proves
what each list holds, in which order, and what the status sync submits.

Modules:

- `Wrappers`: `Option`.
- `Sequences`: a queryset `filter` (`Filter`, which keeps table order), a queryset
  `order_by` on a text column (`SortBy` over the lexicographic order `LexLe`), and
  `Flatten`, the list that nested appending loops build.
- `Text`: `sep.join`, `str.split` and `str.__contains__` on strings.
- `Inventory`: the rows the views read, as values. A queryset is a `seq` in table order.
- `NagiosConfig`: `hosts`, `hosts_ext_info`, `backup_checks`, `get_checks` and `getchecks_all`.
- `HardwareChecks`: `hardware`.
- `ServiceChecks`: `service`.
- `StatusSync`: `refresh_nagios_status`, with the NSCA client as a class whose
  fields record the buffered submissions and the batch each `send` call delivered.

The loops of the source (`hosts`, `hosts_ext_info`, `hardware`, `service`,
`refresh_nagios_status`) are methods with loop invariants. Each is proved equal to a
specification function, and lemmas state what that function holds. The views made
of single query expressions (`backup_checks`, `get_checks`, `getchecks_all`) are
functions.

Some consequences of the code that the model keeps:

- A hardware policy whose command names `management_ip` skips a machine that has no
  management IP. No error is raised and the loop goes on.
- A status with no Nagios code raises `KeyError` inside the loop of
  `refresh_nagios_status`. The whole request is aborted before `send`.
- The status sync visits the tasks in the queryset's order. The view answers with a
  fixed text.
- `service` suppresses a machine when that machine has a machine-level assignment of
  the same check (by check identity). It de-duplicates on `(description, fqdn)`.
  A second service check with the same description but a different check is
  therefore not blocked by the first check's machine-level assignment.
- The closing log line of `refresh_nagios_status` names the loop variable, which is
  unbound when no task qualifies (see "## Findings"). `StatusSync.RefreshNagiosStatus`
  models the corrected view, which answers "Nagios up to date" in that case;
  `StatusSync.RefreshResponseAsWritten` gives the response of the code as written.

## Model

| member | source | states |
|---|---|---|
| NagiosConfig.UpMachinesByFqdn | arritranco/monitoring/nagios/views.py:40 | the up-machines query holds only up machines of the table and no more rows than the table |
| NagiosConfig.Hosts | arritranco/monitoring/nagios/views.py:40-46 | one host entry per row of the up-machines query, in its order; entries ascend by fqdn; every up machine has its entry and every entry is an up machine's |
| NagiosConfig.UpMachinesByFqdnExactly | arritranco/monitoring/nagios/views.py:40 | the up-machines query is sorted by fqdn and holds each up machine as often as the table does, and no down machine |
| NagiosConfig.UpMachinesByFqdnStrict | arritranco/monitoring/nagios/views.py:40 | with unique fqdns the query's fqdns strictly ascend, so each machine is listed once |
| NagiosConfig.UpMachinesByFqdnMembers | arritranco/monitoring/nagios/views.py:40 | a machine is in the query iff it is in the table and up |
| NagiosConfig.HostsExtInfo | arritranco/monitoring/nagios/views.py:57-70 | the lines are those of the Linux, Windows and Solaris operating systems, in table order, each one only when the OS runs an up machine |
| NagiosConfig.ExtInfoLinesExactly | arritranco/monitoring/nagios/views.py:59-69 | a line is produced iff some OS of a wanted type runs at least one up machine, and the line is its logo and its up machines' fqdns joined by commas |
| NagiosConfig.ExtInfoLineLists | arritranco/monitoring/nagios/views.py:69 | the machine list of a line splits on commas back into exactly the fqdns of the OS's up machines, in order, when no fqdn holds a comma |
| NagiosConfig.BackupChecks | arritranco/monitoring/nagios/views.py:94-98 | the file, R1Soft and TSM lists hold only active tasks of their own subtype on up machines, taken from the table |
| NagiosConfig.MonitoredTasksExactly | arritranco/monitoring/nagios/views.py:95-98 | a subtype's task list is ordered by machine fqdn and holds exactly the active tasks of that subtype on up machines, with their multiplicity |
| NagiosConfig.BackupChecksExactly | arritranco/monitoring/nagios/views.py:94-98 | the file, R1Soft and TSM lists each hold exactly their subtype's active tasks on up machines, ordered by machine fqdn |
| NagiosConfig.ChecksAll | arritranco/monitoring/nagios/views.py:136-138 | a machine-level assignment is listed iff its machine is up; every device-level assignment is listed |
| NagiosConfig.ChecksNamed | arritranco/monitoring/nagios/views.py:77-81 | a machine-level assignment is listed iff its check has the name and its machine is up; a device-level one iff its check has the name |
| NagiosConfig.ChecksNamedNarrowsAll | arritranco/monitoring/nagios/views.py:77-81 | the assignments of the checks called `name` are those of `getchecks_all` (lines 136-138) filtered by check name, in the same order |
| NagiosConfig.FilterBoth | arritranco/monitoring/nagios/views.py:78-79 | a queryset filtered on two conditions at once equals one filtered on each in turn |
| HardwareChecks.Hardware | arritranco/monitoring/nagios/views.py:151-185 | the list built by the policy, model, machine and device loops is the specification list of all policies |
| HardwareChecks.AppendPolicyChecks | arritranco/monitoring/nagios/views.py:153-185 | the model loop appends the policy's records, model by model |
| HardwareChecks.AppendModelChecks | arritranco/monitoring/nagios/views.py:154-185 | one model appends its machines' records, then its devices' records |
| HardwareChecks.AppendMachineChecks | arritranco/monitoring/nagios/views.py:154-175 | the machine loop appends one record per selected machine whose addresses are not excluded, in order |
| HardwareChecks.AppendDeviceChecks | arritranco/monitoring/nagios/views.py:177-185 | the device loop appends one record per device of the model whose main IP is not excluded, in order |
| HardwareChecks.MachineRecord | arritranco/monitoring/nagios/views.py:157-175 | a machine gets a record iff, for a `management_ip` command, it has a management IP that is not excluded, or, for any other command, none of its IPs is excluded; the record is named by the fqdn and fills `management_ip` with that IP or `fqdn` with the fqdn |
| HardwareChecks.DeviceRecord | arritranco/monitoring/nagios/views.py:177-185 | a device gets a record iff its main IP is not excluded; the record is named by the device and always fills `management_ip` with the main IP |
| HardwareChecks.ModelRecordsExactly | arritranco/monitoring/nagios/views.py:154-185 | a model yields a record iff a machine of that model is owed it (up, OS not excluded, address clear, command filled from the management IP or the fqdn) or a device of that model is owed it (main IP not excluded, no up test) |
| HardwareChecks.HardwareRecordsExactly | arritranco/monitoring/nagios/views.py:152-185 | the view emits a record iff some policy, through one of its hardware models, owes it to a physical machine or a device |
| HardwareChecks.HardwareNeverTargetsExcludedAddress | arritranco/monitoring/nagios/views.py:157-178 | every emitted record comes from one of the policies and fills its placeholder with an address that policy does not exclude: a `management_ip` record carries a non-excluded address, and an `fqdn` record carries the fqdn of an up machine none of whose IPs is excluded (that a machine's `management_ip` record uses its own management IP is stated by `HardwareChecks.HardwareRecordsExactly`) |
| HardwareChecks.HardwareRecordsAppend | arritranco/monitoring/nagios/views.py:152 | the records of two policy lists are the records of each, one after the other |
| ServiceChecks.AlreadyListed | arritranco/monitoring/nagios/views.py:204 | the duplicate scan finds a record iff one with that description and host name is already listed |
| ServiceChecks.Service | arritranco/monitoring/nagios/views.py:200-209 | the list built by the loops is the candidate list with every later duplicate `(description, name)` dropped |
| ServiceChecks.AppendServiceCheck | arritranco/monitoring/nagios/views.py:202-209 | the machine loop of one service check extends the de-duplicated list by that check's candidates, dropping pairs already listed |
| ServiceChecks.CandidatesExactly | arritranco/monitoring/nagios/views.py:201-203 | a candidate exists iff some service check has the machine in its service, the machine is up and carries no machine-level assignment of the check |
| ServiceChecks.DedupListed | arritranco/monitoring/nagios/views.py:204 | de-duplication keeps every pair that occurs and adds none |
| ServiceChecks.DedupSubset | arritranco/monitoring/nagios/views.py:205-209 | every kept record is a candidate |
| ServiceChecks.DedupKeysUnique | arritranco/monitoring/nagios/views.py:204 | no two kept records share a `(description, name)` pair |
| ServiceChecks.DedupKeepsFirstInOrder | arritranco/monitoring/nagios/views.py:204-209 | the kept records are the first candidate of each pair, in the candidates' order |
| ServiceChecks.ServiceChecksExactly | arritranco/monitoring/nagios/views.py:200-209 | the view lists each pair at most once, lists a pair iff an eligible (service check, machine) pair has it, and each record is that of an eligible pair |
| StatusSync.Nsca.constructor | arritranco/monitoring/nagios/views.py:111 | a new client has nothing buffered and has delivered nothing |
| StatusSync.Nsca.AddCustomStatus | arritranco/monitoring/nagios/views.py:122-127 | buffers one submission at the end and delivers nothing |
| StatusSync.Nsca.Send | arritranco/monitoring/nagios/views.py:128 | delivers the current buffer as one more batch and leaves the buffer alone |
| StatusSync.Latest | arritranco/monitoring/nagios/views.py:114 | the latest check of a task is absent iff the task has no check; otherwise it is one of the task's checks with the greatest `task_time` |
| StatusSync.RefreshNagiosStatus | arritranco/monitoring/nagios/views.py:108-131 | models the corrected view: the client buffers the run's submissions of the active tasks on up machines, in order; iff no status is unmapped, `send` runs once, after the loop, and delivers exactly that buffer, and otherwise nothing is delivered; the response is "up to date" exactly when no status is unmapped |
| StatusSync.SyncRunStops | arritranco/monitoring/nagios/views.py:121-125 | once a status is unmapped, the remaining tasks change nothing: the request is aborted |
| StatusSync.SyncRunExactly | arritranco/monitoring/nagios/views.py:112-127 | a run is stopped iff some task's status is unmapped, by the status of such a task; an unstopped run buffers each task's report in task order, and skipped tasks contribute nothing |
| StatusSync.RefreshSubmitsExactly | arritranco/monitoring/nagios/views.py:112-127 | with all statuses mapped, a submission is buffered iff an active task on an up machine has a latest check carrying a status, and it holds the fqdn, the safe description, the Nagios code and the comment |
| StatusSync.SyncRunBounded | arritranco/monitoring/nagios/views.py:112-127 | at most one submission per eligible task |
| StatusSync.RefreshSucceedsIffAllMapped | arritranco/monitoring/nagios/views.py:119-131 | the corrected view answers "up to date" iff every eligible task's status is mapped |
| StatusSync.NoEligibleTaskFailsAsWritten | arritranco/monitoring/nagios/views.py:129 | with no active task on an up machine, every status is vacuously mapped, yet the view as written fails while the corrected one answers "up to date" |
| Sequences.SortBySorted | arritranco/monitoring/nagios/views.py:40 | `order_by` on a text column yields a list in ascending lexicographic order |
| Sequences.FilterMembers | arritranco/monitoring/nagios/views.py:40 | a filtered queryset holds exactly the rows that pass the filter |
| Text.Join | arritranco/monitoring/nagios/views.py:69 | the joined text starts with the first fqdn and, when no fqdn holds a comma, holds one comma fewer than there are fqdns; where the commas stand is fixed by `Text.SplitJoin` |
| Text.ContainsExactly | arritranco/monitoring/nagios/views.py:157 | `__contains__` holds iff the text occurs in the command at some position |
| Text.SplitJoin | arritranco/monitoring/nagios/views.py:69 | splitting a comma-joined list gives the list back when no element holds a comma |

## Left out

- Request and response handling is not modelled: `render_to_response`, the templates, the `file` query parameter and the `Content-Disposition` header. The model stops at the lists handed to the templates.
- `check_templates` only converts every template row to a dictionary. It has no selection logic.
- The pass-through context entries are not modelled: `services` and `unracknetdevs` of `hosts`, and `checks_service` of `service`. Each is the whole table.
- The methods of the inventory models are inputs computed beforehand: `get_service_ip`, `responsibles`, `get_parents_for_host`, `get_full_check`, `get_management_ip`, `get_all_ips` and `contact_group_all_csv`. The model does not see their code.
- HardwareChecks.Hardware: `get_management_ip()` and `server.management_ip.addr` are taken to be the same value, one optional field. A machine whose two disagree is not modelled.
- HardwareChecks.Hardware: a device's `main_ip` is taken to be present. A device without one raises `AttributeError` in the source; the model does not cover that.
- Python `%` formatting is modelled as the record `Command(template, placeholder, value)`. The `KeyError` or `TypeError` of a template naming another placeholder is not modelled.
- `nagios_safe` is a parameter of the status sync, a function on strings. `HUMAN_TO_NAGIOS` is a parameter too, a partial map from status names to codes. Both are defined in files that are not part of this model.
- StatusSync.Nsca: the NSCA transport, its network errors and all logging are left out. The client records only what was buffered and which batch each `send` handed to the transport.
- StatusSync.Latest: `order_by('-task_time')[0]` leaves the choice among equal `task_time`s to the database. The model picks the first in table order.
- Sequences.SortBy: `order_by('fqdn')` and `order_by('machine__fqdn')` are modelled as code-point lexicographic order (`LexLe`). In the running system the database collation decides the order: a case-insensitive collation, or one that ignores punctuation such as `-` and `.` at the first level, can order fqdns differently. The sortedness lemmas hold for `LexLe` only.
- Sequences.SortBy: no claim is made about the order of rows with equal keys, which the database leaves open. The proved facts are sortedness and being a permutation.
- NagiosConfig.ChecksNamed: `check=NagiosCheck.objects.filter(name=name)` compares the check id with a subquery. The model compares the check's name, which agrees when at most one check carries the name. With two such checks the database rejects the subquery and the request fails; the model does not represent that failure.
- `last_status` is reduced to a `TaskStatus` or nothing. Any status that is not a `TaskStatus` is skipped, as `isinstance` does.
- `arritranco/scheduler/urls.py` is URL routing and `arritranco/backups/admin.py` is admin-site registration. Neither has selection logic.

## Findings

| source | as written | input that shows it | evidently intended | confidence | as-written member | corrected member |
|---|---|---|---|---|---|---|
| arritranco/monitoring/nagios/views.py:129 | the closing log line names the loop variable `bt`, which is never bound when the loop runs zero times; `UnboundLocalError` is raised after `send()` | a table with no active backup task on an up machine | answer "Nagios up to date", since nothing failed | high (not executed) | StatusSync.RefreshResponseAsWritten, shown by StatusSync.NoEligibleTaskFailsAsWritten | StatusSync.RefreshResponse, with StatusSync.RefreshSucceedsIffAllMapped |
