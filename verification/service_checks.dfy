/**
 * The `service` view: for every service-level check and every machine of
 * that service, a per-machine service check, unless the machine is down or
 * already has a machine-level assignment of the same check. A `(description,
 * host name)` pair is listed at most once; the first candidate wins.
 */
module ServiceChecks {
  import opened Inventory
  import opened Sequences

  /** A service-level check (`NagiosServiceCheckOpts`) with the machines of its service. */
  datatype ServiceCheckOpts = ServiceCheckOpts(
    check: Check,
    fullCheck: string,
    contactGroups: string,
    machines: seq<Machine>)

  /** One record of the service-checks template. */
  datatype ServiceMachineCheck = ServiceMachineCheck(
    check: Check,
    description: string,
    name: string,
    command: string,
    contactGroups: string)

  /** The pair the view de-duplicates on. */
  function Key(r: ServiceMachineCheck): (string, string)
  {
    (r.description, r.name)
  }

  /** Some record in `rs` has key `k`. */
  predicate Listed(rs: seq<ServiceMachineCheck>, k: (string, string))
  {
    exists r | r in rs :: Key(r) == k
  }

  /** `NagiosMachineCheckOpts.objects.filter(machine=m, check=c)` is not empty. */
  predicate HasMachineOverride(overrides: seq<MachineCheckOpts>, m: Machine, c: Check)
  {
    exists o | o in overrides :: o.machine.id == m.id && o.check.id == c.id
  }

  /** The machine is up and carries no machine-level assignment of the check. */
  predicate Eligible(overrides: seq<MachineCheckOpts>, m: Machine, c: Check)
  {
    m.up && !HasMachineOverride(overrides, m, c)
  }

  function RecordFor(sc: ServiceCheckOpts, m: Machine): ServiceMachineCheck
  {
    ServiceMachineCheck(sc.check, sc.check.description, m.fqdn, sc.fullCheck, sc.contactGroups)
  }

  /** The candidate records of one service check for a list of its machines. */
  function MachineCandidates(sc: ServiceCheckOpts, machines: seq<Machine>, overrides: seq<MachineCheckOpts>)
    : seq<ServiceMachineCheck>
  {
    Flatten(machines, (m: Machine) => if Eligible(overrides, m, sc.check) then [RecordFor(sc, m)] else [])
  }

  /** The candidate records of all service checks, before de-duplication. */
  function Candidates(scs: seq<ServiceCheckOpts>, overrides: seq<MachineCheckOpts>): seq<ServiceMachineCheck>
  {
    Flatten(scs, (sc: ServiceCheckOpts) => MachineCandidates(sc, sc.machines, overrides))
  }

  /** `rs` with every record dropped whose key an earlier record already has. */
  function Dedup(rs: seq<ServiceMachineCheck>): seq<ServiceMachineCheck>
  {
    if rs == [] then []
    else
      var kept := Dedup(rs[..|rs| - 1]);
      var r := rs[|rs| - 1];
      if Listed(kept, Key(r)) then kept else kept + [r]
  }

  /** The positions in `rs` of the records `Dedup` keeps. */
  ghost function KeptPositions(rs: seq<ServiceMachineCheck>): seq<nat>
  {
    if rs == [] then []
    else
      var kept := Dedup(rs[..|rs| - 1]);
      if Listed(kept, Key(rs[|rs| - 1])) then KeptPositions(rs[..|rs| - 1])
      else KeptPositions(rs[..|rs| - 1]) + [|rs| - 1]
  }

  lemma DedupSnoc(rs: seq<ServiceMachineCheck>, r: ServiceMachineCheck)
    ensures Dedup(rs + [r]) == if Listed(Dedup(rs), Key(r)) then Dedup(rs) else Dedup(rs) + [r]
  {
    assert (rs + [r])[..|rs|] == rs;
  }

  /** The duplicate test of the view: a scan of the list built so far. */
  method AlreadyListed(rs: seq<ServiceMachineCheck>, description: string, name: string) returns (found: bool)
    ensures found == Listed(rs, (description, name))
  {
    found := false;
    for i := 0 to |rs|
      invariant found == exists k | 0 <= k < i :: rs[k].description == description && rs[k].name == name
    {
      if rs[i].description == description && rs[i].name == name {
        found := true;
      }
    }
    if found {
      var k :| 0 <= k < |rs| && rs[k].description == description && rs[k].name == name;
      assert Key(rs[k]) == (description, name);
    }
  }

  /** The service view: the loops over service checks and their machines. */
  method Service(scs: seq<ServiceCheckOpts>, overrides: seq<MachineCheckOpts>) returns (checks: seq<ServiceMachineCheck>)
    ensures checks == Dedup(Candidates(scs, overrides))
  {
    checks := [];
    for i := 0 to |scs|
      invariant checks == Dedup(Candidates(scs[..i], overrides))
    {
      var sc := scs[i];
      checks := AppendServiceCheck(sc, overrides, Candidates(scs[..i], overrides), checks);
      FlattenStep(scs, i, (sc: ServiceCheckOpts) => MachineCandidates(sc, sc.machines, overrides));
    }
    assert scs[..|scs|] == scs;
  }

  /**
   * The machine loop of one service check: append the record of each eligible
   * machine whose pair is not listed yet.
   */
  method AppendServiceCheck(sc: ServiceCheckOpts, overrides: seq<MachineCheckOpts>, ghost done: seq<ServiceMachineCheck>,
                            checks: seq<ServiceMachineCheck>)
    returns (out: seq<ServiceMachineCheck>)
    requires checks == Dedup(done)
    ensures out == Dedup(done + MachineCandidates(sc, sc.machines, overrides))
  {
    out := checks;
    assert sc.machines[..0] == [] && done + [] == done;
    for j := 0 to |sc.machines|
      invariant out == Dedup(done + MachineCandidates(sc, sc.machines[..j], overrides))
    {
      var m := sc.machines[j];
      ghost var seen := done + MachineCandidates(sc, sc.machines[..j], overrides);
      FlattenStep(sc.machines, j, (m: Machine) => if Eligible(overrides, m, sc.check) then [RecordFor(sc, m)] else []);
      if m.up && !HasMachineOverride(overrides, m, sc.check) {
        var duplicate := AlreadyListed(out, sc.check.description, m.fqdn);
        DedupSnoc(seen, RecordFor(sc, m));
        if !duplicate {
          out := out + [RecordFor(sc, m)];
        }
        assert seen + [RecordFor(sc, m)] == done + MachineCandidates(sc, sc.machines[..j + 1], overrides);
      } else {
        assert seen == done + MachineCandidates(sc, sc.machines[..j + 1], overrides);
      }
    }
    assert sc.machines[..|sc.machines|] == sc.machines;
  }

  // ---------------------------------------------------------------------------
  // What the view emits
  // ---------------------------------------------------------------------------

  /** The candidates are exactly the records of eligible (service check, machine) pairs. */
  lemma CandidatesExactly(scs: seq<ServiceCheckOpts>, overrides: seq<MachineCheckOpts>, c: ServiceMachineCheck)
    ensures c in Candidates(scs, overrides) <==>
      exists sc, m | sc in scs && m in sc.machines :: Eligible(overrides, m, sc.check) && c == RecordFor(sc, m)
  {
    FlattenMembers(scs, (sc: ServiceCheckOpts) => MachineCandidates(sc, sc.machines, overrides), c);
    forall sc | sc in scs
      ensures c in MachineCandidates(sc, sc.machines, overrides) <==>
        exists m | m in sc.machines :: Eligible(overrides, m, sc.check) && c == RecordFor(sc, m)
    {
      FlattenMembers(sc.machines, (m: Machine) => if Eligible(overrides, m, sc.check) then [RecordFor(sc, m)] else [], c);
    }
  }

  /** De-duplication loses no key and invents none. */
  lemma {:induction false} DedupListed(rs: seq<ServiceMachineCheck>, k: (string, string))
    ensures Listed(Dedup(rs), k) <==> Listed(rs, k)
    decreases |rs|
  {
    if rs != [] {
      var init := rs[..|rs| - 1];
      DedupListed(init, k);
      DedupSubset(init);
      assert rs == init + [rs[|rs| - 1]];
    }
  }

  /** Every kept record is one of the input records. */
  lemma {:induction false} DedupSubset(rs: seq<ServiceMachineCheck>)
    ensures forall r | r in Dedup(rs) :: r in rs
    decreases |rs|
  {
    if rs != [] {
      var init := rs[..|rs| - 1];
      DedupSubset(init);
      assert rs == init + [rs[|rs| - 1]];
    }
  }

  /** No two kept records share a key. */
  lemma {:induction false} DedupKeysUnique(rs: seq<ServiceMachineCheck>)
    ensures forall i, j | 0 <= i < j < |Dedup(rs)| :: Key(Dedup(rs)[i]) != Key(Dedup(rs)[j])
    decreases |rs|
  {
    if rs != [] {
      var init := rs[..|rs| - 1];
      DedupKeysUnique(init);
      var kept := Dedup(init);
      var r := rs[|rs| - 1];
      if !Listed(kept, Key(r)) {
        var out := kept + [r];
        forall i, j | 0 <= i < j < |out| ensures Key(out[i]) != Key(out[j]) {
          if j == |kept| {
            assert out[i] in kept;
          }
        }
      }
    }
  }

  /**
   * `Dedup` keeps, in their original order, exactly the first record of each
   * key: the kept positions increase, each holds the kept record, and no
   * earlier record has its key.
   */
  lemma {:induction false} DedupKeepsFirstInOrder(rs: seq<ServiceMachineCheck>)
    ensures |KeptPositions(rs)| == |Dedup(rs)|
    ensures forall k | 0 <= k < |Dedup(rs)| :: KeptPositions(rs)[k] < |rs| && rs[KeptPositions(rs)[k]] == Dedup(rs)[k]
    ensures forall k, l | 0 <= k < l < |Dedup(rs)| :: KeptPositions(rs)[k] < KeptPositions(rs)[l]
    ensures forall k, j | 0 <= k < |Dedup(rs)| && 0 <= j < KeptPositions(rs)[k] :: Key(rs[j]) != Key(Dedup(rs)[k])
    decreases |rs|
  {
    if rs != [] {
      var init := rs[..|rs| - 1];
      var r := rs[|rs| - 1];
      DedupKeepsFirstInOrder(init);
      assert forall j | 0 <= j < |init| :: rs[j] == init[j];
      if !Listed(Dedup(init), Key(r)) {
        DedupListed(init, Key(r));
        forall j | 0 <= j < |init| ensures Key(rs[j]) != Key(r) {
          assert init[j] in init;
        }
      }
    }
  }

  /**
   * The service view lists each `(description, fqdn)` pair at most once, and
   * lists a pair exactly when some service check with that description has a
   * machine with that fqdn that is up and has no machine-level assignment of
   * that check; each record is the one of such an eligible pair.
   */
  lemma ServiceChecksExactly(scs: seq<ServiceCheckOpts>, overrides: seq<MachineCheckOpts>)
    ensures forall i, j | 0 <= i < j < |Dedup(Candidates(scs, overrides))| ::
      Key(Dedup(Candidates(scs, overrides))[i]) != Key(Dedup(Candidates(scs, overrides))[j])
    ensures forall description: string, name: string ::
      Listed(Dedup(Candidates(scs, overrides)), (description, name)) <==>
        exists sc, m | sc in scs && m in sc.machines ::
          m.up && !HasMachineOverride(overrides, m, sc.check) && sc.check.description == description && m.fqdn == name
    ensures forall r | r in Dedup(Candidates(scs, overrides)) ::
      exists sc, m | sc in scs && m in sc.machines :: Eligible(overrides, m, sc.check) && r == RecordFor(sc, m)
  {
    var cands := Candidates(scs, overrides);
    DedupKeysUnique(cands);
    DedupSubset(cands);
    forall r | r in Dedup(cands)
      ensures exists sc, m | sc in scs && m in sc.machines :: Eligible(overrides, m, sc.check) && r == RecordFor(sc, m)
    {
      CandidatesExactly(scs, overrides, r);
    }
    forall description: string, name: string
      ensures Listed(Dedup(cands), (description, name)) <==>
        exists sc, m | sc in scs && m in sc.machines ::
          m.up && !HasMachineOverride(overrides, m, sc.check) && sc.check.description == description && m.fqdn == name
    {
      DedupListed(cands, (description, name));
      if Listed(cands, (description, name)) {
        var c :| c in cands && Key(c) == (description, name);
        CandidatesExactly(scs, overrides, c);
      }
      if exists sc, m | sc in scs && m in sc.machines ::
          m.up && !HasMachineOverride(overrides, m, sc.check) && sc.check.description == description && m.fqdn == name {
        var sc, m :| sc in scs && m in sc.machines &&
          m.up && !HasMachineOverride(overrides, m, sc.check) && sc.check.description == description && m.fqdn == name;
        CandidatesExactly(scs, overrides, RecordFor(sc, m));
      }
    }
  }
}
