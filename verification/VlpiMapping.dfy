/** Forwarding LPIs to virtual machines when vPEs are mapped on an ITS only while
    some of the VM's interrupts go through it. */
module VlpiMapping {
  import opened Options

  /** A device and one of its events; the ITS translates such pairs. */
  datatype Pair = Pair(dev: nat, event: nat)

  /** What the translation table of the ITS holds for a pair. */
  datatype Target = Physical | Virtual(vpe: nat)

  /** A VM's counters are kept per ITS. */
  datatype Key = Key(its: nat, vm: nat)

  datatype Ret = Ok | EInval | ENoMem

  datatype MapInfo = MapInfo(vm: nat, vpe: nat)

  /** What does not change: the ITS of each device, the VM of each vPE, and how many of both VMs and ITSs exist. */
  datatype Config = Config(itsOf: map<nat, nat>, vmOf: map<nat, nat>, vms: nat, itss: nat) {
    ghost predicate Ok() {
      && (forall d :: d in itsOf ==> itsOf[d] < itss)
      && (forall x :: x in vmOf ==> vmOf[x] < vms)
    }

    predicate HasKey(k: Key) { k.its < itss && k.vm < vms }
  }

  /** The forwarded pairs of one device. */
  ghost function OfDevice(forwarded: set<Pair>, dev: nat): set<Pair> {
    set p | p in forwarded && p.dev == dev
  }

  /** The forwarded pairs of one VM on one ITS. */
  ghost function OfVm(c: Config, forwarded: set<Pair>, vm: map<nat, Option<nat>>, k: Key): set<Pair> {
    set p | p in forwarded && p.dev in c.itsOf && p.dev in vm && c.itsOf[p.dev] == k.its && vm[p.dev] == Some(k.vm)
  }

  /** nr_vlpis is the number of the device's forwarded events, and the device belongs to a VM
      exactly while there are any. */
  ghost predicate DevicesCounted(c: Config, vm: map<nat, Option<nat>>, nrVlpis: map<nat, nat>, forwarded: set<Pair>) {
    && vm.Keys == nrVlpis.Keys == c.itsOf.Keys
    && forall d {:trigger DeviceCounted(c, vm, nrVlpis, forwarded, d)} :: d in c.itsOf ==>
          DeviceCounted(c, vm, nrVlpis, forwarded, d)
  }

  ghost predicate DeviceCounted(c: Config, vm: map<nat, Option<nat>>, nrVlpis: map<nat, nat>, forwarded: set<Pair>,
                                d: nat)
    requires d in vm && d in nrVlpis
  {
    && nrVlpis[d] == |OfDevice(forwarded, d)|
    && (vm[d].Some? <==> nrVlpis[d] > 0)
    && (vm[d].Some? ==> vm[d].value < c.vms)
  }

  ghost predicate KeysOk(c: Config, vlpiCount: map<Key, nat>) {
    forall k :: k in vlpiCount <==> c.HasKey(k)
  }

  /** vlpi_count is the number of forwarded events of the VM's devices on that ITS. */
  ghost predicate VmsCounted(c: Config, vm: map<nat, Option<nat>>, vlpiCount: map<Key, nat>, forwarded: set<Pair>) {
    forall k {:trigger VmCounted(c, vm, vlpiCount, forwarded, k)} :: k in vlpiCount ==>
          VmCounted(c, vm, vlpiCount, forwarded, k)
  }

  ghost predicate VmCounted(c: Config, vm: map<nat, Option<nat>>, vlpiCount: map<Key, nat>, forwarded: set<Pair>,
                            k: Key)
    requires k in vlpiCount
  {
    vlpiCount[k] == |OfVm(c, forwarded, vm, k)|
  }

  /** A vPE is mapped on an ITS exactly while its VM's count there is positive, and vmapp_count
      is the number of ITSs it is mapped on. */
  ghost predicate VpesMapped(c: Config, vlpiCount: map<Key, nat>, vmappCount: map<nat, nat>,
                             mappedOn: map<nat, set<nat>>) {
    && vmappCount.Keys == mappedOn.Keys == c.vmOf.Keys
    && forall x {:trigger VpeMapped(c, vlpiCount, x, vmappCount[x], mappedOn[x])} ::
         x in c.vmOf ==> VpeMapped(c, vlpiCount, x, vmappCount[x], mappedOn[x])
  }

  ghost predicate VpeMapped(c: Config, vlpiCount: map<Key, nat>, x: nat, n: nat, on: set<nat>)
    requires x in c.vmOf
  {
    && n == |on|
    && forall i: nat {:trigger Counts(vlpiCount, Key(i, c.vmOf[x]))} :: i in on <==>
          Counts(vlpiCount, Key(i, c.vmOf[x]))
  }

  ghost predicate Counts(vlpiCount: map<Key, nat>, k: Key) {
    k in vlpiCount && vlpiCount[k] > 0
  }

  /** The ITS translates a pair virtually exactly while it is forwarded, to a vPE of the device's VM. */
  ghost predicate Translated(c: Config, vm: map<nat, Option<nat>>, forwarded: set<Pair>, table: map<Pair, Target>) {
    forall p {:trigger PairOk(c, vm, forwarded, table, p)} :: PairOk(c, vm, forwarded, table, p)
  }

  ghost predicate PairOk(c: Config, vm: map<nat, Option<nat>>, forwarded: set<Pair>, table: map<Pair, Target>,
                         p: Pair) {
    && (p in table ==> p.dev in c.itsOf)
    && (p in forwarded <==> p in table && table[p].Virtual?)
    && (p in forwarded ==> table[p].vpe in c.vmOf && p.dev in vm && vm[p.dev] == Some(c.vmOf[table[p].vpe]))
  }

  // ------------------------------------------------------------------
  // What one forwarded pair more or less does to the counts
  // ------------------------------------------------------------------

  lemma CountDevice(forwarded: set<Pair>, p: Pair, d: nat)
    requires p !in forwarded
    ensures |OfDevice(forwarded + {p}, d)| == |OfDevice(forwarded, d)| + if p.dev == d then 1 else 0
  {
    if p.dev == d {
      assert OfDevice(forwarded + {p}, d) == OfDevice(forwarded, d) + {p};
    } else {
      assert OfDevice(forwarded + {p}, d) == OfDevice(forwarded, d);
    }
  }

  lemma CountVm(c: Config, forwarded: set<Pair>, vm: map<nat, Option<nat>>, p: Pair, k: Key)
    requires p !in forwarded && p.dev in c.itsOf && p.dev in vm
    ensures |OfVm(c, forwarded + {p}, vm, k)| ==
            |OfVm(c, forwarded, vm, k)| + if c.itsOf[p.dev] == k.its && vm[p.dev] == Some(k.vm) then 1 else 0
  {
    if c.itsOf[p.dev] == k.its && vm[p.dev] == Some(k.vm) {
      assert OfVm(c, forwarded + {p}, vm, k) == OfVm(c, forwarded, vm, k) + {p};
    } else {
      assert OfVm(c, forwarded + {p}, vm, k) == OfVm(c, forwarded, vm, k);
    }
  }

  /** Claiming or giving up a device without forwarded events changes no VM's count. */
  lemma CountClaim(c: Config, forwarded: set<Pair>, vm: map<nat, Option<nat>>, d: nat, v: Option<nat>, k: Key)
    requires d in vm && OfDevice(forwarded, d) == {}
    ensures OfVm(c, forwarded, vm[d := v], k) == OfVm(c, forwarded, vm, k)
  {
    assert forall p :: p in forwarded && p.dev == d ==> p in OfDevice(forwarded, d);
  }

  /** The ITSs of a vPE after one VMAPP. */
  function AfterVmapp(on: set<nat>, its: nat, valid: bool): set<nat> {
    if valid then on + {its} else on - {its}
  }

  /** A vPE after VMAPP went to those listed. */
  ghost predicate Swept(before: map<nat, set<nat>>, after: map<nat, set<nat>>, count: map<nat, nat>, list: seq<nat>,
                        its: nat, valid: bool, x: nat) {
    x in before && x in after && x in count ==>
      && count[x] == |after[x]|
      && after[x] == if x in list then AfterVmapp(before[x], its, valid) else before[x]
  }

  /** The array of vPEs of a VM lists each of them once. */
  ghost predicate Listed(c: Config, vpes: seq<seq<nat>>, v: nat)
    requires v < |vpes|
  {
    && (forall i, j :: 0 <= i < j < |vpes[v]| ==> vpes[v][i] != vpes[v][j])
    && (forall x :: x in vpes[v] <==> x in c.vmOf && c.vmOf[x] == v)
  }

  ghost predicate AllListed(c: Config, vpes: seq<seq<nat>>) {
    |vpes| == c.vms && forall v: nat {:trigger Listed(c, vpes, v)} :: v < c.vms ==> Listed(c, vpes, v)
  }

  class Vlpis {
    const c: Config
    const vpes: seq<seq<nat>>          // vm->vpes
    var vm: map<nat, Option<nat>>
    var nrVlpis: map<nat, nat>
    var vlpiCount: map<Key, nat>
    var vmappCount: map<nat, nat>
    var forwarded: set<Pair>
    var table: map<Pair, Target>
    var mappedOn: map<nat, set<nat>>
    ghost var clashes: nat             // commands that found their pair or vPE in the wrong state

    ghost predicate Lists() {
      AllListed(c, vpes)
    }

    ghost predicate Valid()
      reads this
    {
      && c.Ok() && Lists() && KeysOk(c, vlpiCount)
      && DevicesCounted(c, vm, nrVlpis, forwarded)
      && VmsCounted(c, vm, vlpiCount, forwarded)
      && VpesMapped(c, vlpiCount, vmappCount, mappedOn)
      && Translated(c, vm, forwarded, table)
    }

    /** its_vm and the devices as they are allocated: nothing is forwarded or mapped yet. */
    constructor (c: Config, vpes: seq<seq<nat>>)
      requires c.Ok() && AllListed(c, vpes)
      ensures Valid() && this.c == c && this.vpes == vpes
      ensures forwarded == {} && table == map[] && clashes == 0
    {
      this.c, this.vpes := c, vpes;
      vm := map d | d in c.itsOf :: None;
      nrVlpis := map d | d in c.itsOf :: 0;
      vlpiCount := map its: nat, v: nat | its < c.itss && v < c.vms :: Key(its, v) := 0;
      vmappCount := map x | x in c.vmOf :: 0;
      mappedOn := map x | x in c.vmOf :: {};
      forwarded, table, clashes := {}, map[], 0;
      new;
      forall k
        ensures k in vlpiCount <==> c.HasKey(k)
      {
        assert k == Key(k.its, k.vm);
      }
      forall d | d in c.itsOf
        ensures DeviceCounted(c, vm, nrVlpis, forwarded, d)
      {
        assert OfDevice(forwarded, d) == {};
      }
      forall k | k in vlpiCount
        ensures VmCounted(c, vm, vlpiCount, forwarded, k)
      {
        assert OfVm(c, forwarded, vm, k) == {};
      }
    }

    // ----- commands, and whether they were predictable for the ITS -----

    /** MAPTI: the pair must not be mapped yet. */
    method SendMapti(p: Pair)
      modifies `table, `clashes
      ensures table == old(table)[p := Physical]
      ensures clashes == old(clashes) + if p in old(table) then 1 else 0
    {
      clashes := clashes + if p in table then 1 else 0;
      table := table[p := Physical];
    }

    /** VMAPTI: the same, and the vPE must be mapped on the ITS. */
    method SendVmapti(p: Pair, vpe: nat)
      modifies `table, `clashes
      ensures table == old(table)[p := Virtual(vpe)]
      ensures clashes == old(clashes) + if p !in old(table) && Serves(p, vpe) then 0 else 1
    {
      clashes := clashes + if p !in table && Serves(p, vpe) then 0 else 1;
      table := table[p := Virtual(vpe)];
    }

    /** VMOVI: the pair must be mapped to a vPE already, and the new one be mapped on the ITS. */
    method SendVmovi(p: Pair, vpe: nat)
      modifies `table, `clashes
      ensures table == old(table)[p := Virtual(vpe)]
      ensures clashes == old(clashes) + if p in old(table) && old(table)[p].Virtual? && Serves(p, vpe) then 0 else 1
    {
      clashes := clashes + if p in table && table[p].Virtual? && Serves(p, vpe) then 0 else 1;
      table := table[p := Virtual(vpe)];
    }

    /** The vPE is mapped on the ITS of the pair's device. */
    predicate Serves(p: Pair, vpe: nat)
      reads `mappedOn
    {
      p.dev in c.itsOf && vpe in mappedOn && c.itsOf[p.dev] in mappedOn[vpe]
    }

    /** DISCARD: the pair must be mapped. */
    method SendDiscard(p: Pair)
      modifies `table, `clashes
      ensures table == old(table) - {p}
      ensures clashes == old(clashes) + if p in old(table) then 0 else 1
    {
      clashes := clashes + if p in table then 0 else 1;
      table := table - {p};
    }

    /** VMAPP, with the alloc bit its_build_vmapp_cmd derives from vmapp_count: set on the first
        ITS to map the vPE and on the last one to unmap it. */
    method SendVmapp(its: nat, vpe: nat, valid: bool) returns (alloc: bool)
      requires vpe in mappedOn && vpe in vmappCount && vmappCount[vpe] == |mappedOn[vpe]|
      requires its in mappedOn[vpe] <==> !valid
      modifies `mappedOn, `vmappCount
      ensures mappedOn == old(mappedOn)[vpe := AfterVmapp(old(mappedOn)[vpe], its, valid)]
      ensures vmappCount == old(vmappCount)[vpe := |mappedOn[vpe]|]
      ensures alloc <==> if valid then old(mappedOn)[vpe] == {} else mappedOn[vpe] == {}
    {
      if valid {
        alloc := vmappCount[vpe] == 0;
        vmappCount := vmappCount[vpe := vmappCount[vpe] + 1];
        mappedOn := mappedOn[vpe := mappedOn[vpe] + {its}];
      } else {
        vmappCount := vmappCount[vpe := vmappCount[vpe] - 1];
        alloc := vmappCount[vpe] == 0;
        mappedOn := mappedOn[vpe := mappedOn[vpe] - {its}];
      }
    }

    /** The loop of its_map_vm and its_unmap_vm over the vPEs of a VM. */
    method SendVmappAll(its: nat, list: seq<nat>, valid: bool)
      requires forall i, j :: 0 <= i < j < |list| ==> list[i] != list[j]
      requires mappedOn.Keys == vmappCount.Keys
      requires forall x :: x in mappedOn ==> vmappCount[x] == |mappedOn[x]|
      requires forall i :: 0 <= i < |list| ==> list[i] in mappedOn && (its in mappedOn[list[i]] <==> !valid)
      modifies `mappedOn, `vmappCount
      ensures mappedOn.Keys == vmappCount.Keys == old(mappedOn).Keys
      ensures forall x :: x in mappedOn ==> vmappCount[x] == |mappedOn[x]|
      ensures forall x :: x in mappedOn ==>
                mappedOn[x] == if x in list then AfterVmapp(old(mappedOn)[x], its, valid) else old(mappedOn)[x]
    {
      ghost var before := mappedOn;
      for i := 0 to |list|
        invariant mappedOn.Keys == vmappCount.Keys == before.Keys
        invariant forall x: nat {:trigger Swept(before, mappedOn, vmappCount, list[..i], its, valid, x)} ::
                    Swept(before, mappedOn, vmappCount, list[..i], its, valid, x)
      {
        assert list[i] !in list[..i];
        assert Swept(before, mappedOn, vmappCount, list[..i], its, valid, list[i]);
        ghost var mapped0, count0, done0 := mappedOn, vmappCount, list[..i];
        var alloc := SendVmapp(its, list[i], valid);
        ghost var done := list[..i + 1];
        forall x: nat
          ensures Swept(before, mappedOn, vmappCount, done, its, valid, x)
        {
          assert Swept(before, mapped0, count0, done0, its, valid, x);
          assert done == done0 + [list[i]];
        }
      }
      assert list[..|list|] == list;
      forall x: nat | x in mappedOn
        ensures vmappCount[x] == |mappedOn[x]|
        ensures mappedOn[x] == if x in list then AfterVmapp(before[x], its, valid) else before[x]
      {
        assert Swept(before, mappedOn, vmappCount, list[..|list|], its, valid, x);
      }
    }

    /** its_map_vm: the first forwarded interrupt maps the whole VM on the ITS. */
    method MapVm(its: nat, v: nat)
      requires Lists() && VpesMapped(c, vlpiCount, vmappCount, mappedOn) && v < c.vms && Key(its, v) in vlpiCount
      modifies `vlpiCount, `mappedOn, `vmappCount
      ensures VpesMapped(c, vlpiCount, vmappCount, mappedOn)
      ensures vlpiCount == old(vlpiCount)[Key(its, v) := old(vlpiCount)[Key(its, v)] + 1]
    {
      var k := Key(its, v);
      vlpiCount := vlpiCount[k := vlpiCount[k] + 1];
      ListedVpes(v);
      VpesBefore(c, old(vlpiCount), vmappCount, mappedOn, k, vpes[v]);
      if vlpiCount[k] == 1 {
        SendVmappAll(its, vpes[v], true);
      }
      CountChanged(c, old(vlpiCount), old(vmappCount), old(mappedOn), k, vlpiCount[k], vmappCount, mappedOn);
    }

    /** its_unmap_vm: the last one to go unmaps it again. */
    method UnmapVm(its: nat, v: nat)
      requires Lists() && VpesMapped(c, vlpiCount, vmappCount, mappedOn) && v < c.vms && Key(its, v) in vlpiCount
      requires vlpiCount[Key(its, v)] > 0
      modifies `vlpiCount, `mappedOn, `vmappCount
      ensures VpesMapped(c, vlpiCount, vmappCount, mappedOn)
      ensures vlpiCount == old(vlpiCount)[Key(its, v) := old(vlpiCount)[Key(its, v)] - 1]
    {
      var k := Key(its, v);
      vlpiCount := vlpiCount[k := vlpiCount[k] - 1];
      ListedVpes(v);
      VpesBefore(c, old(vlpiCount), vmappCount, mappedOn, k, vpes[v]);
      if vlpiCount[k] == 0 {
        SendVmappAll(its, vpes[v], false);
      }
      CountChanged(c, old(vlpiCount), old(vmappCount), old(mappedOn), k, vlpiCount[k], vmappCount, mappedOn);
    }

    /** its_vlpi_map for an activated interrupt. */
    method VlpiMap(p: Pair, info: Option<MapInfo>, memory: bool) returns (ret: Ret)
      requires Valid() && p in table && p.dev in c.itsOf
      requires info.Some? ==> info.value.vpe in c.vmOf && c.vmOf[info.value.vpe] == info.value.vm
      modifies this
      ensures Valid() && clashes == old(clashes)
      ensures ret != Ok ==> unchanged(this)
      ensures ret == Ok ==>
                info.Some? && forwarded == old(forwarded) + {p} && table == old(table)[p := Virtual(info.value.vpe)]
      ensures ret == Ok <==> info.Some? && (old(vm)[p.dev] == Some(info.value.vm) || (old(vm)[p.dev] == None && memory))
    {
      if info.None? {
        return EInval;
      }
      var v, vpe := info.value.vm, info.value.vpe;
      if vm[p.dev].None? && !memory {
        return ENoMem;
      }
      if vm[p.dev].Some? && vm[p.dev] != Some(v) {
        return EInval;
      }
      assert PairOk(c, vm, forwarded, table, p);
      if p in forwarded {
        MoveForwarded(p, vpe);
      } else {
        MapForwarded(p, v, vpe);
      }
      ret := Ok;
    }

    /** Already forwarded: only the target changes. */
    method MoveForwarded(p: Pair, vpe: nat)
      requires Valid() && p in forwarded && p.dev in c.itsOf && vpe in c.vmOf && vm[p.dev] == Some(c.vmOf[vpe])
      modifies `table, `clashes
      ensures Valid() && table == old(table)[p := Virtual(vpe)] && clashes == old(clashes)
    {
      assert PairOk(c, vm, forwarded, table, p);
      ForwardedIsMapped(p, vpe);
      MapTranslates(c, vm, forwarded, table, p, vpe);
      SendVmovi(p, vpe);
      assert vm[p.dev := Some(c.vmOf[vpe])] == vm && forwarded + {p} == forwarded;
    }

    /** First time: claim the device, map the VM, swap the physical translation for the virtual one. */
    method MapForwarded(p: Pair, v: nat, vpe: nat)
      requires Valid() && p in table && p !in forwarded && p.dev in c.itsOf && vpe in c.vmOf && c.vmOf[vpe] == v
      requires vm[p.dev] == None || vm[p.dev] == Some(v)
      modifies this
      ensures Valid() && forwarded == old(forwarded) + {p} && table == old(table)[p := Virtual(vpe)]
      ensures clashes == old(clashes)
    {
      MapCounts(p, v, vpe);
      vm := vm[p.dev := Some(v)];
      MapVm(c.itsOf[p.dev], v);
      forwarded := forwarded + {p};
      CountedVpeIsMapped(p.dev, v, vpe);
      ToVirtual(p, vpe);
      nrVlpis := nrVlpis[p.dev := nrVlpis[p.dev] + 1];
    }

    /** DISCARD, then VMAPTI. */
    method ToVirtual(p: Pair, vpe: nat)
      requires p in table && Serves(p, vpe)
      modifies `table, `clashes
      ensures table == old(table)[p := Virtual(vpe)] && clashes == old(clashes)
    {
      SendDiscard(p);
      SendVmapti(p, vpe);
      assert table == old(table)[p := Virtual(vpe)];
    }

    /** DISCARD, then MAPTI. */
    method ToPhysical(p: Pair)
      requires p in table
      modifies `table, `clashes
      ensures table == old(table)[p := Physical] && clashes == old(clashes)
    {
      SendDiscard(p);
      SendMapti(p);
      assert table == old(table)[p := Physical];
    }

    /** its_vlpi_unmap */
    method VlpiUnmap(p: Pair) returns (ret: Ret)
      requires Valid() && p in table && p.dev in c.itsOf
      modifies this
      ensures Valid() && clashes == old(clashes)
      ensures ret == Ok <==> p in old(forwarded)
      ensures ret != Ok ==> unchanged(this)
      ensures ret == Ok ==> forwarded == old(forwarded) - {p} && table == old(table)[p := Physical]
    {
      assert PairOk(c, vm, forwarded, table, p);
      if vm[p.dev].None? || p !in forwarded {
        return EInval;
      }
      UnmapForwarded(p, vm[p.dev].value);
      ret := Ok;
    }

    /** Swap the translations back, unmap the VM, and give up the device with its last event. */
    method UnmapForwarded(p: Pair, v: nat)
      requires Valid() && p in forwarded && p in table && p.dev in c.itsOf && vm[p.dev] == Some(v)
      modifies this
      ensures Valid() && forwarded == old(forwarded) - {p} && table == old(table)[p := Physical]
      ensures clashes == old(clashes)
    {
      UnmapCounts(p, v);
      ToPhysical(p);
      forwarded := forwarded - {p};
      UnmapVm(c.itsOf[p.dev], v);
      nrVlpis := nrVlpis[p.dev := nrVlpis[p.dev] - 1];
      if nrVlpis[p.dev] == 0 {
        vm := vm[p.dev := None];
      }
    }

    lemma MapCounts(p: Pair, v: nat, vpe: nat)
      requires Valid() && p in table && p !in forwarded && p.dev in c.itsOf && vpe in c.vmOf && c.vmOf[vpe] == v
      requires vm[p.dev] == None || vm[p.dev] == Some(v)
      ensures v < c.vms && Key(c.itsOf[p.dev], v) in vlpiCount
      ensures DevicesCounted(c, vm[p.dev := Some(v)], nrVlpis[p.dev := nrVlpis[p.dev] + 1], forwarded + {p})
      ensures var k := Key(c.itsOf[p.dev], v);
              VmsCounted(c, vm[p.dev := Some(v)], vlpiCount[k := vlpiCount[k] + 1], forwarded + {p})
      ensures Translated(c, vm[p.dev := Some(v)], forwarded + {p}, table[p := Virtual(vpe)])
    {
      assert DeviceCounted(c, vm, nrVlpis, forwarded, p.dev);
      assert c.HasKey(Key(c.itsOf[p.dev], v));
      MapCountsDevices(c, vm, nrVlpis, forwarded, p, v);
      MapCountsVms(c, vm, vlpiCount, forwarded, p, v);
      MapTranslates(c, vm, forwarded, table, p, vpe);
    }

    lemma UnmapCounts(p: Pair, v: nat)
      requires Valid() && p in forwarded && p.dev in c.itsOf && vm[p.dev] == Some(v)
      ensures v < c.vms && Key(c.itsOf[p.dev], v) in vlpiCount && vlpiCount[Key(c.itsOf[p.dev], v)] > 0 &&
                nrVlpis[p.dev] > 0
      ensures var vm' := if nrVlpis[p.dev] == 1 then vm[p.dev := None] else vm;
              var k := Key(c.itsOf[p.dev], v);
              && DevicesCounted(c, vm', nrVlpis[p.dev := nrVlpis[p.dev] - 1], forwarded - {p})
              && VmsCounted(c, vm', vlpiCount[k := vlpiCount[k] - 1], forwarded - {p})
              && Translated(c, vm', forwarded - {p}, table[p := Physical])
    {
      var vm' := if nrVlpis[p.dev] == 1 then vm[p.dev := None] else vm;
      assert DeviceCounted(c, vm, nrVlpis, forwarded, p.dev);
      assert c.HasKey(Key(c.itsOf[p.dev], v));
      UnmapCountsDevices(c, vm, nrVlpis, forwarded, p);
      UnmapCountsVms(c, vm, vlpiCount, forwarded, p, v, vm');
      UnmapTranslates(c, vm, forwarded, table, p, vm');
    }

    lemma ForwardedIsMapped(p: Pair, vpe: nat)
      requires Valid() && p in forwarded && p.dev in c.itsOf && vpe in c.vmOf && vm[p.dev] == Some(c.vmOf[vpe])
      ensures c.itsOf[p.dev] in mappedOn[vpe]
    {
      var k := Key(c.itsOf[p.dev], c.vmOf[vpe]);
      assert p in OfVm(c, forwarded, vm, k);
      assert c.HasKey(k);
      assert VmCounted(c, vm, vlpiCount, forwarded, k);
      assert VpeMapped(c, vlpiCount, vpe, vmappCount[vpe], mappedOn[vpe]);
      assert Counts(vlpiCount, Key(c.itsOf[p.dev], c.vmOf[vpe]));
    }

    lemma CountedVpeIsMapped(d: nat, v: nat, vpe: nat)
      requires VpesMapped(c, vlpiCount, vmappCount, mappedOn) && d in c.itsOf
      requires vpe in c.vmOf && c.vmOf[vpe] == v && Counts(vlpiCount, Key(c.itsOf[d], v))
      ensures vpe in mappedOn && c.itsOf[d] in mappedOn[vpe]
    {
      assert VpeMapped(c, vlpiCount, vpe, vmappCount[vpe], mappedOn[vpe]);
      assert Counts(vlpiCount, Key(c.itsOf[d], c.vmOf[vpe]));
    }

    /**
     * its_irq_domain_activate, the command it sends. It does not look whether the
     * pair is mapped: MAPTI is predictable exactly if it is not, and the books
     * stay right exactly if the pair is not forwarded.
     */
    method Activate(p: Pair)
      requires Valid() && p.dev in c.itsOf
      modifies `table, `clashes
      ensures table == old(table)[p := Physical]
      ensures clashes == old(clashes) <==> p !in old(table)
      ensures Valid() <==> p !in old(forwarded)
    {
      assert PairOk(c, vm, forwarded, table, p);
      if p !in forwarded {
        TableChanged(c, vm, forwarded, table, p, table[p := Physical]);
      }
      SendMapti(p);
      assert p in forwarded ==> !PairOk(c, vm, forwarded, table, p);
    }

    /** its_irq_domain_deactivate, the command it sends; it looks neither. */
    method Deactivate(p: Pair)
      requires Valid()
      modifies `table, `clashes
      ensures table == old(table) - {p}
      ensures clashes == old(clashes) <==> p in old(table)
      ensures Valid() <==> p !in old(forwarded)
    {
      if p !in forwarded {
        TableChanged(c, vm, forwarded, table, p, table - {p});
      }
      SendDiscard(p);
      assert p in forwarded ==> !PairOk(c, vm, forwarded, table, p);
    }

    lemma ListedVpes(v: nat)
      requires Lists() && v < c.vms
      ensures Listed(c, vpes, v)
      ensures forall i, j :: 0 <= i < j < |vpes[v]| ==> vpes[v][i] != vpes[v][j]
      ensures forall i :: 0 <= i < |vpes[v]| ==> vpes[v][i] in c.vmOf && c.vmOf[vpes[v][i]] == v
      ensures forall x :: x in c.vmOf ==> (x in vpes[v] <==> c.vmOf[x] == v)
    {
      forall i | 0 <= i < |vpes[v]|
        ensures vpes[v][i] in c.vmOf && c.vmOf[vpes[v][i]] == v
      {
        assert vpes[v][i] in vpes[v];
      }
    }
  }

  lemma VpesBefore(c: Config, vlpiCount: map<Key, nat>, vmappCount: map<nat, nat>, mappedOn: map<nat, set<nat>>,
                   k: Key, list: seq<nat>)
    requires VpesMapped(c, vlpiCount, vmappCount, mappedOn) && k in vlpiCount
    requires forall i :: 0 <= i < |list| ==> list[i] in c.vmOf && c.vmOf[list[i]] == k.vm
    ensures forall x :: x in mappedOn ==> vmappCount[x] == |mappedOn[x]|
    ensures forall i :: 0 <= i < |list| ==> (k.its in mappedOn[list[i]] <==> vlpiCount[k] > 0)
  {
    forall x | x in mappedOn
      ensures vmappCount[x] == |mappedOn[x]|
    {
      assert VpeMapped(c, vlpiCount, x, vmappCount[x], mappedOn[x]);
    }
    forall i | 0 <= i < |list|
      ensures k.its in mappedOn[list[i]] <==> vlpiCount[k] > 0
    {
      assert VpeMapped(c, vlpiCount, list[i], vmappCount[list[i]], mappedOn[list[i]]);
      assert k == Key(k.its, c.vmOf[list[i]]);
      assert Counts(vlpiCount, Key(k.its, c.vmOf[list[i]])) <==> vlpiCount[k] > 0;
    }
  }

  /** One counter changed; its VM's vPEs were (un)mapped if that made it leave or reach zero. */
  lemma CountChanged(c: Config, vlpiCount: map<Key, nat>, vmappCount: map<nat, nat>, mappedOn: map<nat, set<nat>>,
                     k: Key, n: nat, vmappCount': map<nat, nat>, mappedOn': map<nat, set<nat>>)
    requires VpesMapped(c, vlpiCount, vmappCount, mappedOn) && k in vlpiCount
    requires vmappCount'.Keys == mappedOn'.Keys == mappedOn.Keys
    requires forall x :: x in mappedOn' ==> vmappCount'[x] == |mappedOn'[x]|
    requires forall x :: x in mappedOn' && c.vmOf[x] != k.vm ==> mappedOn'[x] == mappedOn[x]
    requires forall x :: x in mappedOn' && c.vmOf[x] == k.vm ==>
               mappedOn'[x] == if (n > 0) == (vlpiCount[k] > 0) then mappedOn[x] else
                     AfterVmapp(mappedOn[x], k.its, n > 0)
    ensures VpesMapped(c, vlpiCount[k := n], vmappCount', mappedOn')
  {
    forall x | x in c.vmOf
      ensures VpeMapped(c, vlpiCount[k := n], x, vmappCount'[x], mappedOn'[x])
    {
      assert VpeMapped(c, vlpiCount, x, vmappCount[x], mappedOn[x]);
      VpeChanged(c, vlpiCount, k, n, x, vmappCount[x], mappedOn[x], vmappCount'[x], mappedOn'[x]);
    }
  }

  lemma VpeChanged(c: Config, vlpiCount: map<Key, nat>, k: Key, n: nat, x: nat, m: nat, on: set<nat>, m': nat,
                   on': set<nat>)
    requires x in c.vmOf && VpeMapped(c, vlpiCount, x, m, on) && k in vlpiCount && m' == |on'|
    requires on' == if c.vmOf[x] != k.vm || (n > 0) == (vlpiCount[k] > 0) then on else AfterVmapp(on, k.its, n > 0)
    ensures VpeMapped(c, vlpiCount[k := n], x, m', on')
  {
    forall i: nat
      ensures i in on' <==> Counts(vlpiCount[k := n], Key(i, c.vmOf[x]))
    {
      assert i in on <==> Counts(vlpiCount, Key(i, c.vmOf[x]));
    }
  }

  // ------------------------------------------------------------------
  // What mapping and unmapping one pair keeps
  // ------------------------------------------------------------------

  lemma MapCountsDevices(c: Config, vm: map<nat, Option<nat>>, nrVlpis: map<nat, nat>, forwarded: set<Pair>, p: Pair,
                         v: nat)
    requires DevicesCounted(c, vm, nrVlpis, forwarded) && p.dev in c.itsOf && p !in forwarded && v < c.vms
    ensures DevicesCounted(c, vm[p.dev := Some(v)], nrVlpis[p.dev := nrVlpis[p.dev] + 1], forwarded + {p})
  {
    var vm', nr' := vm[p.dev := Some(v)], nrVlpis[p.dev := nrVlpis[p.dev] + 1];
    forall d | d in c.itsOf
      ensures DeviceCounted(c, vm', nr', forwarded + {p}, d)
    {
      assert DeviceCounted(c, vm, nrVlpis, forwarded, d);
      CountDevice(forwarded, p, d);
    }
  }

  lemma UnmapCountsDevices(c: Config, vm: map<nat, Option<nat>>, nrVlpis: map<nat, nat>, forwarded: set<Pair>, p: Pair)
    requires DevicesCounted(c, vm, nrVlpis, forwarded) && p in forwarded && p.dev in c.itsOf
    ensures nrVlpis[p.dev] > 0
    ensures DevicesCounted(c, if nrVlpis[p.dev] == 1 then vm[p.dev := None] else vm,
                           nrVlpis[p.dev := nrVlpis[p.dev] - 1], forwarded - {p})
    ensures nrVlpis[p.dev] == 1 ==> OfDevice(forwarded - {p}, p.dev) == {}
  {
    assert forwarded - {p} + {p} == forwarded;
    assert DeviceCounted(c, vm, nrVlpis, forwarded, p.dev);
    CountDevice(forwarded - {p}, p, p.dev);
    var vm' := if nrVlpis[p.dev] == 1 then vm[p.dev := None] else vm;
    forall d | d in c.itsOf
      ensures DeviceCounted(c, vm', nrVlpis[p.dev := nrVlpis[p.dev] - 1], forwarded - {p}, d)
    {
      assert DeviceCounted(c, vm, nrVlpis, forwarded, d);
      CountDevice(forwarded - {p}, p, d);
    }
  }

  lemma MapCountsVms(c: Config, vm: map<nat, Option<nat>>, vlpiCount: map<Key, nat>, forwarded: set<Pair>, p: Pair,
                     v: nat)
    requires VmsCounted(c, vm, vlpiCount, forwarded) && p.dev in c.itsOf && p.dev in vm && p !in forwarded
    requires Key(c.itsOf[p.dev], v) in vlpiCount
    requires vm[p.dev] == Some(v) || OfDevice(forwarded, p.dev) == {}
    ensures var k := Key(c.itsOf[p.dev], v);
            VmsCounted(c, vm[p.dev := Some(v)], vlpiCount[k := vlpiCount[k] + 1], forwarded + {p})
  {
    var k0 := Key(c.itsOf[p.dev], v);
    var vm' := vm[p.dev := Some(v)];
    forall k | k in vlpiCount
      ensures VmCounted(c, vm', vlpiCount[k0 := vlpiCount[k0] + 1], forwarded + {p}, k)
    {
      assert VmCounted(c, vm, vlpiCount, forwarded, k);
      CountVm(c, forwarded, vm', p, k);
      if vm[p.dev] == Some(v) {
        assert vm' == vm;
      } else {
        CountClaim(c, forwarded, vm, p.dev, Some(v), k);
      }
    }
  }

  lemma UnmapCountsVms(c: Config, vm: map<nat, Option<nat>>, vlpiCount: map<Key, nat>, forwarded: set<Pair>, p: Pair,
                       v: nat, vm': map<nat, Option<nat>>)
    requires VmsCounted(c, vm, vlpiCount, forwarded) && p in forwarded && p.dev in c.itsOf && p.dev in vm
    requires vm[p.dev] == Some(v) && Key(c.itsOf[p.dev], v) in vlpiCount
    requires vm' == vm || (vm' == vm[p.dev := None] && OfDevice(forwarded - {p}, p.dev) == {})
    ensures vlpiCount[Key(c.itsOf[p.dev], v)] > 0
    ensures var k := Key(c.itsOf[p.dev], v);
            VmsCounted(c, vm', vlpiCount[k := vlpiCount[k] - 1], forwarded - {p})
  {
    var k0 := Key(c.itsOf[p.dev], v);
    assert forwarded - {p} + {p} == forwarded;
    assert VmCounted(c, vm, vlpiCount, forwarded, k0);
    assert p in OfVm(c, forwarded, vm, k0);
    forall k | k in vlpiCount
      ensures VmCounted(c, vm', vlpiCount[k0 := vlpiCount[k0] - 1], forwarded - {p}, k)
    {
      assert VmCounted(c, vm, vlpiCount, forwarded, k);
      CountVm(c, forwarded - {p}, vm, p, k);
      if vm' != vm {
        CountClaim(c, forwarded - {p}, vm, p.dev, None, k);
      }
    }
  }

  lemma MapTranslates(c: Config, vm: map<nat, Option<nat>>, forwarded: set<Pair>, table: map<Pair, Target>, p: Pair,
                      vpe: nat)
    requires Translated(c, vm, forwarded, table) && p in table && p.dev in vm && vpe in c.vmOf
    requires vm[p.dev] == Some(c.vmOf[vpe]) || OfDevice(forwarded, p.dev) == {}
    ensures Translated(c, vm[p.dev := Some(c.vmOf[vpe])], forwarded + {p}, table[p := Virtual(vpe)])
  {
    var vm', forwarded', table' := vm[p.dev := Some(c.vmOf[vpe])], forwarded + {p}, table[p := Virtual(vpe)];
    NoneOfDevice(forwarded, p.dev);
    assert PairOk(c, vm, forwarded, table, p);
    forall q
      ensures PairOk(c, vm', forwarded', table', q)
    {
      assert PairOk(c, vm, forwarded, table, q);
    }
  }

  lemma UnmapTranslates(c: Config, vm: map<nat, Option<nat>>, forwarded: set<Pair>, table: map<Pair, Target>, p: Pair,
                        vm': map<nat, Option<nat>>)
    requires Translated(c, vm, forwarded, table) && p in forwarded && p.dev in vm
    requires vm' == vm || (vm' == vm[p.dev := None] && OfDevice(forwarded - {p}, p.dev) == {})
    ensures Translated(c, vm', forwarded - {p}, table[p := Physical])
  {
    var forwarded', table' := forwarded - {p}, table[p := Physical];
    NoneOfDevice(forwarded', p.dev);
    assert PairOk(c, vm, forwarded, table, p);
    forall q
      ensures PairOk(c, vm', forwarded', table', q)
    {
      assert PairOk(c, vm, forwarded, table, q);
    }
  }

  /** A pair that is not forwarded may come or go. */
  lemma TableChanged(c: Config, vm: map<nat, Option<nat>>, forwarded: set<Pair>, table: map<Pair, Target>, p: Pair,
                     table': map<Pair, Target>)
    requires Translated(c, vm, forwarded, table)
    requires p !in forwarded && ((p.dev in c.itsOf && table' == table[p := Physical]) || table' == table - {p})
    ensures Translated(c, vm, forwarded, table')
  {
    forall q
      ensures PairOk(c, vm, forwarded, table', q)
    {
      assert PairOk(c, vm, forwarded, table, q);
    }
  }

  lemma NoneOfDevice(forwarded: set<Pair>, d: nat)
    ensures OfDevice(forwarded, d) == {} ==> forall q :: q in forwarded ==> q.dev != d
  {
    assert forall q :: q in forwarded && q.dev == d ==> q in OfDevice(forwarded, d);
  }
}
