/**
 * The `hardware` view: the hardware-policy checks. For every policy, every
 * hardware model of the policy, first the up physical machines of that model
 * whose OS the policy does not exclude, then the unrackable devices of that
 * model, each emitted unless an address of it is one the policy excludes.
 */
module HardwareChecks {
  import opened Wrappers
  import opened Inventory
  import opened Sequences
  import opened Text

  /** A hardware policy (`NagiosHardwarePolicyCheckOpts`); `fullCheck` is `get_full_check()`. */
  datatype HardwarePolicy = HardwarePolicy(
    id: nat,
    check: Check,
    fullCheck: string,
    models: seq<nat>,
    excludedOs: set<nat>,
    excludedIps: set<Ip>)

  /** The check template with one named placeholder filled in (`template % {placeholder: value}`). */
  datatype Command = Command(template: string, placeholder: string, value: string)

  /** One record of the hardware-checks template. */
  datatype HardwareCheck = HardwareCheck(check: Check, hostName: string, policy: nat, command: Command)

  const ManagementIpKey := "management_ip"
  const FqdnKey := "fqdn"

  /** The policy's command addresses the management interface rather than the host name. */
  predicate UsesManagementIp(p: HardwarePolicy)
  {
    Contains(p.fullCheck, ManagementIpKey)
  }

  /** The machine's OS is not one the policy excludes (a machine without OS is never excluded). */
  predicate OsAllowed(p: HardwarePolicy, m: Machine)
  {
    !(m.os.Some? && m.os.value in p.excludedOs)
  }

  /** `PhysicalMachine.objects.filter(server__model__id=model, up=True).exclude(os__in=excluded_os)`. */
  function SelectMachines(p: HardwarePolicy, model: nat, pms: seq<PhysicalMachine>): seq<PhysicalMachine>
  {
    Filter(pms, (pm: PhysicalMachine) => pm.serverModel == Some(model) && pm.machine.up && OsAllowed(p, pm.machine))
  }

  /** `UnrackableNetworkedDevice.objects.filter(model=model)`. */
  function DevicesOfModel(model: nat, devices: seq<Device>): seq<Device>
  {
    Filter(devices, (d: Device) => d.model == model)
  }

  /**
   * The record a selected machine contributes. A command on `management_ip`
   * needs a management IP the policy does not exclude and is filled with it;
   * any other command needs every IP of the machine clear and is filled with
   * the fqdn. The record is named by the machine's fqdn.
   */
  function MachineRecord(p: HardwarePolicy, pm: PhysicalMachine): (r: Option<HardwareCheck>)
    ensures r.Some? <==>
      if UsesManagementIp(p) then pm.managementIp.Some? && pm.managementIp.value !in p.excludedIps
      else forall ip | ip in pm.ips :: ip !in p.excludedIps
    ensures r.Some? ==> r.value.check == p.check && r.value.hostName == pm.machine.fqdn && r.value.policy == p.id
    ensures r.Some? && UsesManagementIp(p) ==>
      r.value.command == Command(p.fullCheck, ManagementIpKey, pm.managementIp.value)
    ensures r.Some? && !UsesManagementIp(p) ==> r.value.command == Command(p.fullCheck, FqdnKey, pm.machine.fqdn)
  {
    if UsesManagementIp(p) then
      if pm.managementIp.Some? && pm.managementIp.value !in p.excludedIps then
        Some(HardwareCheck(p.check, pm.machine.fqdn, p.id, Command(p.fullCheck, ManagementIpKey, pm.managementIp.value)))
      else None
    else if forall ip | ip in pm.ips :: ip !in p.excludedIps then
      Some(HardwareCheck(p.check, pm.machine.fqdn, p.id, Command(p.fullCheck, FqdnKey, pm.machine.fqdn)))
    else None
  }

  /**
   * The record a device contributes: present exactly when its main IP is not
   * excluded, named by the device, and always filling `management_ip` with
   * the main IP, whatever the command mentions.
   */
  function DeviceRecord(p: HardwarePolicy, d: Device): (r: Option<HardwareCheck>)
    ensures r.Some? <==> d.mainIp !in p.excludedIps
    ensures r.Some? ==> r.value.check == p.check && r.value.hostName == d.name && r.value.policy == p.id
    ensures r.Some? ==> r.value.command == Command(p.fullCheck, ManagementIpKey, d.mainIp)
  {
    if d.mainIp !in p.excludedIps then
      Some(HardwareCheck(p.check, d.name, p.id, Command(p.fullCheck, ManagementIpKey, d.mainIp)))
    else None
  }

  function Emitted(r: Option<HardwareCheck>): seq<HardwareCheck>
  {
    if r.Some? then [r.value] else []
  }

  function MachineRecords(p: HardwarePolicy, selected: seq<PhysicalMachine>): seq<HardwareCheck>
  {
    Flatten(selected, (pm: PhysicalMachine) => Emitted(MachineRecord(p, pm)))
  }

  function DeviceRecords(p: HardwarePolicy, ofModel: seq<Device>): seq<HardwareCheck>
  {
    Flatten(ofModel, (d: Device) => Emitted(DeviceRecord(p, d)))
  }

  /** The records of one model: its machines' records, then its devices' records. */
  function ModelRecords(p: HardwarePolicy, model: nat, pms: seq<PhysicalMachine>, devices: seq<Device>): seq<HardwareCheck>
  {
    MachineRecords(p, SelectMachines(p, model, pms)) + DeviceRecords(p, DevicesOfModel(model, devices))
  }

  /** The records of one policy for a list of its models, model by model. */
  function PolicyRecords(p: HardwarePolicy, models: seq<nat>, pms: seq<PhysicalMachine>, devices: seq<Device>): seq<HardwareCheck>
  {
    Flatten(models, (model: nat) => ModelRecords(p, model, pms, devices))
  }

  /** The records of a list of policies, policy by policy. */
  function HardwareRecords(policies: seq<HardwarePolicy>, pms: seq<PhysicalMachine>, devices: seq<Device>): seq<HardwareCheck>
  {
    Flatten(policies, (p: HardwarePolicy) => PolicyRecords(p, p.models, pms, devices))
  }

  /** The hardware view: the loops over policies and their models. */
  method Hardware(policies: seq<HardwarePolicy>, pms: seq<PhysicalMachine>, devices: seq<Device>)
    returns (checks: seq<HardwareCheck>)
    ensures checks == HardwareRecords(policies, pms, devices)
  {
    checks := [];
    for i := 0 to |policies|
      invariant checks == HardwareRecords(policies[..i], pms, devices)
    {
      var p := policies[i];
      checks := AppendPolicyChecks(p, pms, devices, checks);
      FlattenStep(policies, i, (p: HardwarePolicy) => PolicyRecords(p, p.models, pms, devices));
    }
    assert policies[..|policies|] == policies;
  }

  method AppendPolicyChecks(p: HardwarePolicy, pms: seq<PhysicalMachine>, devices: seq<Device>, checks: seq<HardwareCheck>)
    returns (out: seq<HardwareCheck>)
    ensures out == checks + PolicyRecords(p, p.models, pms, devices)
  {
    out := checks;
    for j := 0 to |p.models|
      invariant out == checks + PolicyRecords(p, p.models[..j], pms, devices)
    {
      out := AppendModelChecks(p, p.models[j], pms, devices, out);
      FlattenStep(p.models, j, (model: nat) => ModelRecords(p, model, pms, devices));
    }
    assert p.models[..|p.models|] == p.models;
  }

  /** The body of the model loop: append the checks of the model's machines, then of its devices. */
  method AppendModelChecks(p: HardwarePolicy, model: nat, pms: seq<PhysicalMachine>, devices: seq<Device>,
                           checks: seq<HardwareCheck>)
    returns (out: seq<HardwareCheck>)
    ensures out == checks + ModelRecords(p, model, pms, devices)
  {
    out := AppendMachineChecks(p, SelectMachines(p, model, pms), checks);
    out := AppendDeviceChecks(p, DevicesOfModel(model, devices), out);
  }

  /** The machine loop: a check for each selected machine whose addresses the policy does not exclude. */
  method AppendMachineChecks(p: HardwarePolicy, selected: seq<PhysicalMachine>, checks: seq<HardwareCheck>)
    returns (out: seq<HardwareCheck>)
    ensures out == checks + MachineRecords(p, selected)
  {
    out := checks;
    for k := 0 to |selected|
      invariant out == checks + MachineRecords(p, selected[..k])
    {
      var pm := selected[k];
      if Contains(p.fullCheck, ManagementIpKey) {
        if pm.managementIp.Some? && pm.managementIp.value !in p.excludedIps {
          out := out + [HardwareCheck(p.check, pm.machine.fqdn, p.id, Command(p.fullCheck, ManagementIpKey, pm.managementIp.value))];
        }
      } else {
        if forall ip | ip in pm.ips :: ip !in p.excludedIps {
          out := out + [HardwareCheck(p.check, pm.machine.fqdn, p.id, Command(p.fullCheck, FqdnKey, pm.machine.fqdn))];
        }
      }
      FlattenStep(selected, k, (pm: PhysicalMachine) => Emitted(MachineRecord(p, pm)));
    }
    assert selected[..|selected|] == selected;
  }

  /** The device loop: a check for each device of the model whose main IP the policy does not exclude. */
  method AppendDeviceChecks(p: HardwarePolicy, ofModel: seq<Device>, checks: seq<HardwareCheck>)
    returns (out: seq<HardwareCheck>)
    ensures out == checks + DeviceRecords(p, ofModel)
  {
    out := checks;
    for k := 0 to |ofModel|
      invariant out == checks + DeviceRecords(p, ofModel[..k])
    {
      var d := ofModel[k];
      if d.mainIp !in p.excludedIps {
        out := out + [HardwareCheck(p.check, d.name, p.id, Command(p.fullCheck, ManagementIpKey, d.mainIp))];
      }
      FlattenStep(ofModel, k, (d: Device) => Emitted(DeviceRecord(p, d)));
    }
    assert ofModel[..|ofModel|] == ofModel;
  }

  // ---------------------------------------------------------------------------
  // What the view emits, stated record by record
  // ---------------------------------------------------------------------------

  /**
   * `c` is the check policy `p` owes physical machine `pm` under `model`:
   * the machine has that server model, is up, runs no excluded OS, and the
   * address the command is built from is clear of the excluded IPs (the
   * management IP, which must exist, when the command mentions
   * `management_ip`; otherwise every IP of the machine, and the command gets
   * the fqdn).
   */
  ghost predicate MachineCheckAllowed(p: HardwarePolicy, model: nat, pm: PhysicalMachine, c: HardwareCheck)
  {
    && pm.serverModel == Some(model) && pm.machine.up && OsAllowed(p, pm.machine)
    && c.check == p.check && c.hostName == pm.machine.fqdn && c.policy == p.id
    && if UsesManagementIp(p) then
         && pm.managementIp.Some? && pm.managementIp.value !in p.excludedIps
         && c.command == Command(p.fullCheck, ManagementIpKey, pm.managementIp.value)
       else
         && (forall ip | ip in pm.ips :: ip !in p.excludedIps)
         && c.command == Command(p.fullCheck, FqdnKey, pm.machine.fqdn)
  }

  /**
   * `c` is the check policy `p` owes device `d` under `model`: the device has
   * that model (whether it is up is never asked), its main IP is not
   * excluded, and the check is named by the device and fills `management_ip`
   * with the main IP.
   */
  ghost predicate DeviceCheckAllowed(p: HardwarePolicy, model: nat, d: Device, c: HardwareCheck)
  {
    && d.model == model && d.mainIp !in p.excludedIps
    && c == HardwareCheck(p.check, d.name, p.id, Command(p.fullCheck, ManagementIpKey, d.mainIp))
  }

  /** A model contributes exactly the checks its machines and its devices are owed. */
  lemma ModelRecordsExactly(p: HardwarePolicy, model: nat, pms: seq<PhysicalMachine>, devices: seq<Device>, c: HardwareCheck)
    ensures c in ModelRecords(p, model, pms, devices) <==>
      (exists pm | pm in pms :: MachineCheckAllowed(p, model, pm, c)) ||
      (exists d | d in devices :: DeviceCheckAllowed(p, model, d, c))
  {
    var selected := SelectMachines(p, model, pms);
    var ofModel := DevicesOfModel(model, devices);
    FlattenMembers(selected, (pm: PhysicalMachine) => Emitted(MachineRecord(p, pm)), c);
    FlattenMembers(ofModel, (d: Device) => Emitted(DeviceRecord(p, d)), c);
    FilterMembers(pms, (pm: PhysicalMachine) => pm.serverModel == Some(model) && pm.machine.up && OsAllowed(p, pm.machine));
    FilterMembers(devices, (d: Device) => d.model == model);
    assert (exists pm | pm in selected :: MachineRecord(p, pm) == Some(c)) <==>
      (exists pm | pm in pms :: MachineCheckAllowed(p, model, pm, c));
    assert (exists d | d in ofModel :: DeviceRecord(p, d) == Some(c)) <==>
      (exists d | d in devices :: DeviceCheckAllowed(p, model, d, c));
  }

  /**
   * The hardware view emits a check exactly when some policy, through one of
   * its models, owes it to a physical machine or to a device.
   */
  lemma HardwareRecordsExactly(policies: seq<HardwarePolicy>, pms: seq<PhysicalMachine>, devices: seq<Device>,
                               c: HardwareCheck)
    ensures c in HardwareRecords(policies, pms, devices) <==>
      exists p, model | p in policies && model in p.models ::
        (exists pm | pm in pms :: MachineCheckAllowed(p, model, pm, c)) ||
        (exists d | d in devices :: DeviceCheckAllowed(p, model, d, c))
  {
    FlattenMembers(policies, (p: HardwarePolicy) => PolicyRecords(p, p.models, pms, devices), c);
    forall p | p in policies
      ensures c in PolicyRecords(p, p.models, pms, devices) <==>
        exists model | model in p.models ::
          (exists pm | pm in pms :: MachineCheckAllowed(p, model, pm, c)) ||
          (exists d | d in devices :: DeviceCheckAllowed(p, model, d, c))
    {
      FlattenMembers(p.models, (model: nat) => ModelRecords(p, model, pms, devices), c);
      forall model | model in p.models {
        ModelRecordsExactly(p, model, pms, devices, c);
      }
    }
  }

  /**
   * No emitted check is aimed at an address its policy excludes: a check on
   * `management_ip` carries a non-excluded address, and a check on `fqdn`
   * belongs to an up machine none of whose IPs is excluded.
   */
  lemma HardwareNeverTargetsExcludedAddress(policies: seq<HardwarePolicy>, pms: seq<PhysicalMachine>,
                                            devices: seq<Device>, c: HardwareCheck)
    requires c in HardwareRecords(policies, pms, devices)
    ensures exists p | p in policies ::
      && p.id == c.policy && p.check == c.check
      && ((c.command.placeholder == ManagementIpKey && c.command.value !in p.excludedIps) ||
          (c.command.placeholder == FqdnKey &&
           exists pm | pm in pms ::
             pm.machine.up && pm.machine.fqdn == c.hostName == c.command.value &&
             forall ip | ip in pm.ips :: ip !in p.excludedIps))
  {
    HardwareRecordsExactly(policies, pms, devices, c);
  }

  /** Policies are processed one after another: the checks of two policy lists are the checks of each, in order. */
  lemma HardwareRecordsAppend(first: seq<HardwarePolicy>, second: seq<HardwarePolicy>,
                              pms: seq<PhysicalMachine>, devices: seq<Device>)
    ensures HardwareRecords(first + second, pms, devices) ==
      HardwareRecords(first, pms, devices) + HardwareRecords(second, pms, devices)
  {
    FlattenAppend(first, second, (p: HardwarePolicy) => PolicyRecords(p, p.models, pms, devices));
  }
}
