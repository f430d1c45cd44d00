/**
 * The inventory, hardware, backup and Nagios records the views read, as
 * plain values. Each datatype keeps only the columns and the resolved
 * relations the views use; a queryset becomes a `seq` in table order.
 */
module Inventory {
  import opened Wrappers

  /** An IP address, compared by its textual `addr`. */
  type Ip = string

  /** An operating system row: its type's name (`os.type.name`) and the logo Nagios shows. */
  datatype OperatingSystem = OperatingSystem(id: nat, typeName: string, logo: string)

  /**
   * A machine. `serviceIp`, `responsibles` and `parents` are the values of
   * `get_service_ip()`, `responsibles()` and
   * `NagiosNetworkParent.get_parents_for_host(m)`, resolved beforehand.
   */
  datatype Machine = Machine(
    id: nat,
    fqdn: string,
    up: bool,
    os: Option<nat>,
    serviceIp: string,
    responsibles: seq<string>,
    parents: seq<string>)

  /**
   * A physical machine: the machine, the model of its server (none when it
   * has no server), `get_management_ip()` and the addresses of `get_all_ips()`.
   */
  datatype PhysicalMachine = PhysicalMachine(
    machine: Machine,
    serverModel: Option<nat>,
    managementIp: Option<Ip>,
    ips: seq<Ip>)

  /** An unrackable networked device: its name, hardware model and main IP. */
  datatype Device = Device(name: string, model: nat, mainIp: Ip)

  /** A Nagios check definition. */
  datatype Check = Check(id: nat, name: string, description: string)

  /** A machine-level check assignment (`NagiosMachineCheckOpts`). */
  datatype MachineCheckOpts = MachineCheckOpts(machine: Machine, check: Check)

  /** A device-level check assignment (`NagiosUnrackableNetworkedDeviceCheckOpts`). */
  datatype DeviceCheckOpts = DeviceCheckOpts(device: Device, check: Check)

  /** The concrete subclass of a backup task. */
  datatype TaskKind = FileBackup | R1Backup | TSMBackup | OtherBackup

  /** A backup task of any subclass, with its owning machine. */
  datatype BackupTask = BackupTask(
    id: nat,
    kind: TaskKind,
    machine: Machine,
    active: bool,
    description: string)

  /** A human-readable task status (`TaskStatus`): status name and comment. */
  datatype TaskStatus = TaskStatus(status: string, comment: string)

  /** One execution record of a task; `lastStatus` is `None` when it is not a `TaskStatus`. */
  datatype TaskCheck = TaskCheck(taskId: nat, taskTime: int, lastStatus: Option<TaskStatus>)
}
