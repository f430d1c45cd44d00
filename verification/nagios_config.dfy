/**
 * The configuration views that project inventory rows into Nagios config
 * files: `hosts`, `hosts_ext_info`, `backup_checks`, `get_checks` and
 * `getchecks_all`. The rendered text is the template's business; these
 * members model the lists handed to the templates.
 */
module NagiosConfig {
  import opened Wrappers
  import opened Inventory
  import opened Sequences
  import opened Text

  // ---------------------------------------------------------------------------
  // hosts
  // ---------------------------------------------------------------------------

  /** The host record the hosts template receives for one machine. */
  datatype HostEntry = HostEntry(fqdn: string, serviceIp: string, contactGroups: seq<string>, parents: seq<string>)

  function EntryOf(m: Machine): HostEntry
  {
    HostEntry(m.fqdn, m.serviceIp, m.responsibles, m.parents)
  }

  predicate IsUp(m: Machine) { m.up }

  function MachineFqdn(m: Machine): string { m.fqdn }

  /** `Machine.objects.filter(up=True).order_by('fqdn')`: only up machines of the table, never more rows than it has. */
  function UpMachinesByFqdn(machines: seq<Machine>): (r: seq<Machine>)
    ensures |r| <= |machines|
    ensures forall m | m in r :: m in machines && m.up
  {
    var kept := Filter(machines, IsUp);
    FilterMembers(machines, IsUp);
    var sorted := SortBy(kept, MachineFqdn);
    assert forall m | m in sorted :: m in kept by {
      forall m | m in sorted ensures m in kept {
        assert m in multiset(sorted);
      }
    }
    sorted
  }

  /** The machines query lists every up machine as often as the table holds it, no other machine, in fqdn order. */
  lemma UpMachinesByFqdnExactly(machines: seq<Machine>)
    ensures SortedBy(UpMachinesByFqdn(machines), MachineFqdn)
    ensures forall m :: multiset(UpMachinesByFqdn(machines))[m] == if m.up then multiset(machines)[m] else 0
  {
    SortBySorted(Filter(machines, IsUp), MachineFqdn);
    forall m ensures multiset(UpMachinesByFqdn(machines))[m] == if m.up then multiset(machines)[m] else 0 {
      FilterCount(machines, IsUp, m);
    }
  }

  /**
   * When fqdns are unique (the column is), the hosts come in strictly
   * ascending fqdn order: each fqdn is below every later one, and no two are equal.
   */
  lemma UpMachinesByFqdnStrict(machines: seq<Machine>)
    requires forall i, j | 0 <= i < j < |machines| :: machines[i].fqdn != machines[j].fqdn
    ensures forall i, j | 0 <= i < j < |UpMachinesByFqdn(machines)| ::
      && UpMachinesByFqdn(machines)[i].fqdn != UpMachinesByFqdn(machines)[j].fqdn
      && !LexLe(UpMachinesByFqdn(machines)[j].fqdn, UpMachinesByFqdn(machines)[i].fqdn)
  {
    var q := UpMachinesByFqdn(machines);
    UpMachinesByFqdnExactly(machines);
    forall i, j | 0 <= i < j < |q| ensures q[i].fqdn != q[j].fqdn && !LexLe(q[j].fqdn, q[i].fqdn) {
      SelectedRowsDiffer(machines, q, i, j);
      if LexLe(q[j].fqdn, q[i].fqdn) {
        LexLeAntisymmetric(q[i].fqdn, q[j].fqdn);
      }
    }
  }

  /** Two positions of a selection of a table with unique fqdns hold different fqdns. */
  lemma SelectedRowsDiffer(machines: seq<Machine>, q: seq<Machine>, i: nat, j: nat)
    requires forall i, j | 0 <= i < j < |machines| :: machines[i].fqdn != machines[j].fqdn
    requires forall m :: multiset(q)[m] == if m.up then multiset(machines)[m] else 0
    requires i < j < |q|
    ensures q[i].fqdn != q[j].fqdn
  {
    if q[i] == q[j] {
      UniqueRowsOccurOnce(machines, q[i]);
      TwiceCounted(q, i, j);
    } else {
      assert q[i] in multiset(q) && q[j] in multiset(q);
      assert q[i] in multiset(machines) && q[j] in multiset(machines);
      var a :| 0 <= a < |machines| && machines[a] == q[i];
      var b :| 0 <= b < |machines| && machines[b] == q[j];
      assert a < b || b < a;
    }
  }

  /** In a table with unique fqdns every row value occurs at most once. */
  lemma {:induction false} UniqueRowsOccurOnce(machines: seq<Machine>, m: Machine)
    requires forall i, j | 0 <= i < j < |machines| :: machines[i].fqdn != machines[j].fqdn
    ensures multiset(machines)[m] <= 1
    decreases |machines|
  {
    if machines != [] {
      var rest := machines[1..];
      UniqueRowsOccurOnce(rest, m);
      assert machines == [machines[0]] + rest;
      if machines[0] == m {
        assert m !in rest by {
          forall k | 0 <= k < |rest| ensures rest[k] != m {
            assert machines[k + 1].fqdn != machines[0].fqdn;
          }
        }
      }
    }
  }

  /** Equal values at two positions count twice. */
  lemma TwiceCounted<T>(s: seq<T>, i: nat, j: nat)
    requires i < j < |s|
    ensures s[i] == s[j] ==> multiset(s)[s[i]] >= 2
  {
    assert s == s[..i] + [s[i]] + s[i + 1..j] + [s[j]] + s[j + 1..];
  }

  /** The machines query holds exactly the up machines of the table. */
  lemma UpMachinesByFqdnMembers(machines: seq<Machine>)
    ensures forall m :: m in UpMachinesByFqdn(machines) <==> m in machines && m.up
  {
    UpMachinesByFqdnExactly(machines);
    forall m ensures m in UpMachinesByFqdn(machines) <==> m in machines && m.up {
      assert m in UpMachinesByFqdn(machines) <==> m in multiset(UpMachinesByFqdn(machines));
      assert m in machines <==> m in multiset(machines);
    }
  }

  /**
   * The hosts view: one entry per machine of the up-machines query, in the
   * query's order; hence fqdn-ascending, every up machine present, no other.
   */
  method Hosts(machines: seq<Machine>) returns (entries: seq<HostEntry>)
    ensures |entries| == |UpMachinesByFqdn(machines)|
    ensures forall i | 0 <= i < |entries| :: entries[i] == EntryOf(UpMachinesByFqdn(machines)[i])
    ensures forall i, j | 0 <= i < j < |entries| :: LexLe(entries[i].fqdn, entries[j].fqdn)
    ensures forall m | m in machines && m.up :: EntryOf(m) in entries
    ensures forall e | e in entries :: exists m | m in machines :: m.up && e == EntryOf(m)
  {
    var q := UpMachinesByFqdn(machines);
    entries := [];
    for k := 0 to |q|
      invariant |entries| == k
      invariant forall i | 0 <= i < k :: entries[i] == EntryOf(q[i])
    {
      entries := entries + [EntryOf(q[k])];
    }
    HostsFacts(machines, q, entries);
  }

  lemma HostsFacts(machines: seq<Machine>, q: seq<Machine>, entries: seq<HostEntry>)
    requires q == UpMachinesByFqdn(machines)
    requires |entries| == |q| && forall i | 0 <= i < |q| :: entries[i] == EntryOf(q[i])
    ensures forall i, j | 0 <= i < j < |entries| :: LexLe(entries[i].fqdn, entries[j].fqdn)
    ensures forall m | m in machines && m.up :: EntryOf(m) in entries
    ensures forall e | e in entries :: exists m | m in machines :: m.up && e == EntryOf(m)
  {
    UpMachinesByFqdnExactly(machines);
    UpMachinesByFqdnMembers(machines);
    forall i, j | 0 <= i < j < |entries| ensures LexLe(entries[i].fqdn, entries[j].fqdn) {
      assert LexLe(MachineFqdn(q[i]), MachineFqdn(q[j]));
    }
    forall m | m in machines && m.up ensures EntryOf(m) in entries {
      var i :| 0 <= i < |q| && q[i] == m;
      assert entries[i] == EntryOf(m);
    }
    forall e | e in entries ensures exists m | m in machines :: m.up && e == EntryOf(m) {
      var i :| 0 <= i < |entries| && entries[i] == e;
      assert q[i] in q;
    }
  }

  // ---------------------------------------------------------------------------
  // hosts_ext_info
  // ---------------------------------------------------------------------------

  /** The operating-system types that get an extended-info line. */
  const ExtInfoOsTypes: set<string> := {"Linux", "Windows", "Solaris"}

  predicate HasExtInfoType(os: OperatingSystem) { os.typeName in ExtInfoOsTypes }

  /** `os.machine_set.filter(up=True)`. */
  function RunningMachines(os: OperatingSystem, machines: seq<Machine>): seq<Machine>
  {
    Filter(machines, (m: Machine) => m.os == Some(os.id) && m.up)
  }

  function Fqdns(machines: seq<Machine>): (r: seq<string>)
    ensures |r| == |machines| && forall i | 0 <= i < |r| :: r[i] == machines[i].fqdn
  {
    seq(|machines|, i requires 0 <= i < |machines| => machines[i].fqdn)
  }

  /** The `(logo, "fqdn1,fqdn2,...")` line for one operating system. */
  function ExtInfoLine(os: OperatingSystem, running: seq<Machine>): (string, string)
  {
    (os.logo, Join(Fqdns(running), ','))
  }

  /** The lines for a list of operating systems already filtered by type, in order. */
  function ExtInfoLines(oses: seq<OperatingSystem>, machines: seq<Machine>): seq<(string, string)>
  {
    if oses == [] then []
    else
      var os := oses[|oses| - 1];
      var running := RunningMachines(os, machines);
      ExtInfoLines(oses[..|oses| - 1], machines) + (if |running| > 0 then [ExtInfoLine(os, running)] else [])
  }

  /** The hosts_ext_info view: one line per typed operating system that runs at least one up machine. */
  method HostsExtInfo(oses: seq<OperatingSystem>, machines: seq<Machine>) returns (lines: seq<(string, string)>)
    ensures lines == ExtInfoLines(Filter(oses, HasExtInfoType), machines)
  {
    var q := Filter(oses, HasExtInfoType);
    lines := [];
    for i := 0 to |q|
      invariant lines == ExtInfoLines(q[..i], machines)
    {
      var os := q[i];
      var running := RunningMachines(os, machines);
      if |running| > 0 {
        var listed: seq<Machine> := [];
        for k := 0 to |running|
          invariant listed == running[..k]
        {
          listed := listed + [running[k]];
        }
        assert listed == running;
        if |listed| > 0 {
          lines := lines + [ExtInfoLine(os, listed)];
        }
      }
      assert q[..i + 1][..i] == q[..i] && q[..i + 1][i] == os;
    }
    assert q[..|q|] == q;
  }

  /** A line is produced exactly for each listed operating system of a wanted type that runs some up machine. */
  lemma {:induction false} ExtInfoLinesExactly(oses: seq<OperatingSystem>, machines: seq<Machine>, line: (string, string))
    ensures line in ExtInfoLines(Filter(oses, HasExtInfoType), machines) <==>
      exists os | os in oses :: os.typeName in ExtInfoOsTypes && |RunningMachines(os, machines)| > 0 &&
        line == ExtInfoLine(os, RunningMachines(os, machines))
  {
    var q := Filter(oses, HasExtInfoType);
    ExtInfoLinesMembership(q, machines, line);
    FilterMembers(oses, HasExtInfoType);
  }

  lemma {:induction false} ExtInfoLinesMembership(q: seq<OperatingSystem>, machines: seq<Machine>, line: (string, string))
    ensures line in ExtInfoLines(q, machines) <==>
      exists os | os in q :: |RunningMachines(os, machines)| > 0 && line == ExtInfoLine(os, RunningMachines(os, machines))
    decreases |q|
  {
    if q != [] {
      var p := q[..|q| - 1];
      ExtInfoLinesMembership(p, machines, line);
      assert q == p + [q[|q| - 1]];
      forall os | os in p ensures os in q { }
    }
  }

  /**
   * The machine list of a line splits back on commas into exactly the fqdns
   * of the operating system's up machines, in table order, as long as no fqdn
   * holds a comma.
   */
  lemma ExtInfoLineLists(os: OperatingSystem, machines: seq<Machine>)
    requires forall m | m in machines :: ',' !in m.fqdn
    requires |RunningMachines(os, machines)| > 0
    ensures Split(ExtInfoLine(os, RunningMachines(os, machines)).1, ',') == Fqdns(RunningMachines(os, machines))
  {
    var running := RunningMachines(os, machines);
    var names := Fqdns(running);
    FilterMembers(machines, (m: Machine) => m.os == Some(os.id) && m.up);
    forall x | x in names ensures ',' !in x {
      var i :| 0 <= i < |names| && names[i] == x;
      assert running[i] in machines;
    }
    SplitJoin(names, ',');
  }

  // ---------------------------------------------------------------------------
  // backup_checks
  // ---------------------------------------------------------------------------

  /** The three task lists of the backup-checks template. */
  datatype BackupCheckLists = BackupCheckLists(fileTasks: seq<BackupTask>, r1softTasks: seq<BackupTask>, tsmTasks: seq<BackupTask>)

  function TaskMachineFqdn(t: BackupTask): string { t.machine.fqdn }

  /** A task the backup-checks view lists under `kind`: of that subclass, active, on an up machine. */
  predicate Monitored(t: BackupTask, kind: TaskKind)
  {
    t.kind == kind && t.active && t.machine.up
  }

  /** `<Subclass>.objects.filter(machine__up=True).filter(active=True).order_by('machine__fqdn')`. */
  function MonitoredTasks(tasks: seq<BackupTask>, kind: TaskKind): (r: seq<BackupTask>)
    ensures forall t | t in r :: t in tasks && Monitored(t, kind)
  {
    var kept := Filter(tasks, (t: BackupTask) => Monitored(t, kind));
    FilterMembers(tasks, (t: BackupTask) => Monitored(t, kind));
    var sorted := SortBy(kept, TaskMachineFqdn);
    assert forall t | t in sorted :: t in kept by {
      forall t | t in sorted ensures t in kept {
        assert t in multiset(sorted);
      }
    }
    sorted
  }

  /** The context of the backup-checks view: each list holds only active tasks of its subclass on up machines. */
  function BackupChecks(tasks: seq<BackupTask>): (r: BackupCheckLists)
    ensures forall t | t in r.fileTasks :: t in tasks && t.kind == FileBackup && t.active && t.machine.up
    ensures forall t | t in r.r1softTasks :: t in tasks && t.kind == R1Backup && t.active && t.machine.up
    ensures forall t | t in r.tsmTasks :: t in tasks && t.kind == TSMBackup && t.active && t.machine.up
  {
    BackupCheckLists(MonitoredTasks(tasks, FileBackup), MonitoredTasks(tasks, R1Backup), MonitoredTasks(tasks, TSMBackup))
  }

  /** A task list is ordered by machine fqdn and holds exactly the monitored tasks of its kind. */
  ghost predicate ListsExactly(list: seq<BackupTask>, tasks: seq<BackupTask>, kind: TaskKind)
  {
    && SortedBy(list, TaskMachineFqdn)
    && forall t :: multiset(list)[t] == if Monitored(t, kind) then multiset(tasks)[t] else 0
  }

  lemma MonitoredTasksExactly(tasks: seq<BackupTask>, kind: TaskKind)
    ensures ListsExactly(MonitoredTasks(tasks, kind), tasks, kind)
  {
    var keep := (t: BackupTask) => Monitored(t, kind);
    SortBySorted(Filter(tasks, keep), TaskMachineFqdn);
    forall t ensures multiset(MonitoredTasks(tasks, kind))[t] == if Monitored(t, kind) then multiset(tasks)[t] else 0 {
      FilterCount(tasks, keep, t);
    }
  }

  /** Each of the three backup-check lists holds exactly its subclass's active tasks on up machines, by machine fqdn. */
  lemma BackupChecksExactly(tasks: seq<BackupTask>)
    ensures ListsExactly(BackupChecks(tasks).fileTasks, tasks, FileBackup)
    ensures ListsExactly(BackupChecks(tasks).r1softTasks, tasks, R1Backup)
    ensures ListsExactly(BackupChecks(tasks).tsmTasks, tasks, TSMBackup)
  {
    MonitoredTasksExactly(tasks, FileBackup);
    MonitoredTasksExactly(tasks, R1Backup);
    MonitoredTasksExactly(tasks, TSMBackup);
  }

  // ---------------------------------------------------------------------------
  // get_checks and getchecks_all
  // ---------------------------------------------------------------------------

  /** The machine-level and device-level check assignments of the check template. */
  datatype CheckLists = CheckLists(machineChecks: seq<MachineCheckOpts>, deviceChecks: seq<DeviceCheckOpts>)

  predicate OnUpMachine(o: MachineCheckOpts) { o.machine.up }

  /** The assignments of every check: machine ones only on up machines, all device ones. */
  function ChecksAll(machineOpts: seq<MachineCheckOpts>, deviceOpts: seq<DeviceCheckOpts>): (r: CheckLists)
    ensures forall o | o in machineOpts :: o in r.machineChecks <==> o.machine.up
    ensures forall o | o in r.machineChecks :: o in machineOpts
    ensures r.deviceChecks == deviceOpts
  {
    FilterMembers(machineOpts, OnUpMachine);
    CheckLists(Filter(machineOpts, OnUpMachine), deviceOpts)
  }

  /** The assignments of the checks called `name`: machine ones only on up machines. */
  function ChecksNamed(name: string, machineOpts: seq<MachineCheckOpts>, deviceOpts: seq<DeviceCheckOpts>): (r: CheckLists)
    ensures forall o | o in machineOpts :: o in r.machineChecks <==> o.check.name == name && o.machine.up
    ensures forall o | o in r.machineChecks :: o in machineOpts
    ensures forall o | o in deviceOpts :: o in r.deviceChecks <==> o.check.name == name
    ensures forall o | o in r.deviceChecks :: o in deviceOpts
  {
    FilterMembers(machineOpts, (o: MachineCheckOpts) => o.check.name == name && o.machine.up);
    FilterMembers(deviceOpts, (o: DeviceCheckOpts) => o.check.name == name);
    CheckLists(
      Filter(machineOpts, (o: MachineCheckOpts) => o.check.name == name && o.machine.up),
      Filter(deviceOpts, (o: DeviceCheckOpts) => o.check.name == name))
  }

  /** Keeping the elements that pass both of two tests is keeping those that pass one and then the other. */
  lemma {:induction false} FilterBoth<T>(s: seq<T>, both: T -> bool, p: T -> bool, q: T -> bool)
    requires forall x :: both(x) == (p(x) && q(x))
    ensures Filter(s, both) == Filter(Filter(s, p), q)
    decreases |s|
  {
    if s != [] {
      FilterBoth(s[1..], both, p, q);
    }
  }

  /** `get_checks(name)` is `getchecks_all` narrowed to the checks called `name`, in the same order. */
  lemma ChecksNamedNarrowsAll(name: string, machineOpts: seq<MachineCheckOpts>, deviceOpts: seq<DeviceCheckOpts>)
    ensures ChecksNamed(name, machineOpts, deviceOpts).machineChecks ==
      Filter(ChecksAll(machineOpts, deviceOpts).machineChecks, (o: MachineCheckOpts) => o.check.name == name)
    ensures ChecksNamed(name, machineOpts, deviceOpts).deviceChecks ==
      Filter(ChecksAll(machineOpts, deviceOpts).deviceChecks, (o: DeviceCheckOpts) => o.check.name == name)
  {
    FilterBoth(machineOpts, (o: MachineCheckOpts) => o.check.name == name && o.machine.up,
      OnUpMachine, (o: MachineCheckOpts) => o.check.name == name);
  }
}
