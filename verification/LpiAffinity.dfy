/**
 * Spreading LPIs over CPUs.
 *
 * Every CPU has two counters, one for managed and one for ordinary
 * interrupts. They steer the choice of a target: the first least-loaded CPU of
 * a mask that depends on the affinity, the online CPUs and the ITS.
 */
module LpiAffinity {
  import opened Options

  const S32_MAX: int := 0x7fff_ffff

  datatype Ret = Done | EInval

  /** `node` is the CPU mask of the ITS's NUMA node, `tied` its erratum that forbids crossing sockets. */
  datatype Its = Its(node: Option<set<nat>>, tied: bool)

  // Picking a CPU

  /** `cpu` is in the mask, nobody there is less loaded, and nobody before it ties. */
  ghost predicate FirstLeast(load: seq<int>, mask: set<nat>, cpu: nat)
  {
    && cpu in mask && cpu < |load|
    && (forall c | c in mask && c < |load| :: load[cpu] <= load[c])
    && (forall c | c in mask && c < cpu :: load[cpu] < load[c])
  }

  lemma FirstLeastIsUnique(load: seq<int>, mask: set<nat>, a: nat, b: nat)
    requires FirstLeast(load, mask, a) && FirstLeast(load, mask, b)
    ensures a == b
  {
  }

  /** cpumask_pick_least_loaded: |load| is nr_cpu_ids, also the answer when nobody qualifies. */
  method PickLeastLoaded(load: seq<int>, mask: set<nat>) returns (cpu: nat)
    ensures cpu <= |load|
    ensures cpu < |load| ==> FirstLeast(load, mask, cpu) && load[cpu] < S32_MAX
    ensures cpu == |load| <==> forall c | c in mask && c < |load| :: load[c] >= S32_MAX
  {
    cpu := |load|;
    var count := S32_MAX;
    var c := 0;
    while c < |load|
      invariant 0 <= c <= |load|
      invariant cpu == |load| || cpu < c
      invariant cpu == |load| ==> count == S32_MAX
      invariant cpu < |load| ==> cpu in mask && count == load[cpu] < S32_MAX
      invariant forall i | i in mask && i < c :: count <= load[i]
      invariant cpu < |load| ==> forall i | i in mask && i < cpu :: count < load[i]
    {
      if c in mask && load[c] < count {
        cpu := c;
        count := load[c];
      }
      c := c + 1;
    }
  }

  /** The CPUs its_select_cpu finally chooses from. */
  function Choices(its: Its, managed: bool, affinity: set<nat>, online: set<nat>): set<nat>
  {
    if managed then
      if its.tied && its.node.Some? then affinity * its.node.value else affinity
    else if its.node.Some? && its.node.value * affinity * online != {} then
      its.node.value * affinity * online
    else if its.node.Some? && its.tied then
      {}
    else if affinity * online != {} then
      affinity * online
    else
      online
  }

  /**
   * An ordinary interrupt never leaves the online CPUs, and leaves its
   * affinity only when no online CPU is in it; a tied ITS never leaves its node.
   */
  lemma ChoicesAreAllowed(its: Its, managed: bool, affinity: set<nat>, online: set<nat>)
    ensures !managed ==> Choices(its, managed, affinity, online) <= online
    ensures managed || affinity * online != {} ==> Choices(its, managed, affinity, online) <= affinity
    ensures its.tied && its.node.Some? ==> Choices(its, managed, affinity, online) <= its.node.value
    ensures !managed && online != {} ==>
              (Choices(its, managed, affinity, online) == {} <==>
               its.tied && its.node.Some? && its.node.value * affinity * online == {})
  {
    if its.node.Some? {
      assert its.node.value * affinity * online <= affinity * online;
    }
  }

  ghost predicate Populated(load: seq<int>, mask: set<nat>)
  {
    exists c :: c in mask && c < |load|
  }

  // Counting

  function Bump(load: seq<int>, cpu: nat, delta: int): seq<int>
    requires cpu < |load|
  {
    load[cpu := load[cpu] + delta]
  }

  /** The interrupts of one class that one CPU answers for. */
  ghost function Tally(lpis: set<nat>, managed: set<nat>, col: map<nat, nat>, m: bool, cpu: nat): set<nat>
  {
    set d | d in lpis && (d in managed <==> m) && d in col && col[d] == cpu
  }

  ghost predicate LoadOk(load: seq<int>, lpis: set<nat>, managed: set<nat>, col: map<nat, nat>, m: bool, cpu: nat)
  {
    cpu < |load| ==> load[cpu] == |Tally(lpis, managed, col, m, cpu)|
  }

  /** `load` is the number of `lpis` of class `m` on every CPU. */
  ghost predicate Counted(load: seq<int>, lpis: set<nat>, managed: set<nat>, col: map<nat, nat>, m: bool)
  {
    forall cpu: nat {:trigger LoadOk(load, lpis, managed, col, m, cpu)} :: LoadOk(load, lpis, managed, col, m, cpu)
  }

  lemma CountWithout(load: seq<int>, lpis: set<nat>, managed: set<nat>, col: map<nat, nat>, m: bool, d: nat)
    requires Counted(load, lpis, managed, col, m) && d in lpis && d in col && col[d] < |load|
    ensures Counted(if d in managed <==> m then Bump(load, col[d], -1) else load, lpis - {d}, managed, col, m)
  {
    var load' := if d in managed <==> m then Bump(load, col[d], -1) else load;
    forall cpu: nat
      ensures LoadOk(load', lpis - {d}, managed, col, m, cpu)
    {
      assert LoadOk(load, lpis, managed, col, m, cpu);
      var before, after := Tally(lpis, managed, col, m, cpu), Tally(lpis - {d}, managed, col, m, cpu);
      if (d in managed <==> m) && col[d] == cpu {
        assert after == before - {d};
      } else {
        assert after == before;
      }
    }
  }

  lemma CountWith(load: seq<int>, lpis: set<nat>, managed: set<nat>, col: map<nat, nat>, m: bool, d: nat, cpu: nat)
    requires Counted(load, lpis, managed, col, m) && d !in lpis && cpu < |load|
    ensures Counted(if d in managed <==> m then Bump(load, cpu, 1) else load, lpis + {d}, managed, col[d := cpu], m)
  {
    var load', col' := if d in managed <==> m then Bump(load, cpu, 1) else load, col[d := cpu];
    forall c: nat
      ensures LoadOk(load', lpis + {d}, managed, col', m, c)
    {
      assert LoadOk(load, lpis, managed, col, m, c);
      var before, after := Tally(lpis, managed, col, m, c), Tally(lpis + {d}, managed, col', m, c);
      if (d in managed <==> m) && cpu == c {
        assert after == before + {d};
      } else {
        assert after == before;
      }
    }
  }

  lemma {:induction false} SubsetIsSmaller(a: set<nat>, b: set<nat>)
    requires a <= b
    ensures |a| <= |b|
    decreases a
  {
    if a != {} {
      var x :| x in a;
      SubsetIsSmaller(a - {x}, b - {x});
    }
  }

  /** With fewer than S32_MAX interrupts no counter reaches the picker's start value. */
  lemma LoadsAreSmall(load: seq<int>, lpis: set<nat>, managed: set<nat>, col: map<nat, nat>, m: bool)
    requires Counted(load, lpis, managed, col, m) && |lpis| < S32_MAX
    ensures forall c | 0 <= c < |load| :: 0 <= load[c] < S32_MAX
  {
    forall c: nat | c < |load|
      ensures 0 <= load[c] < S32_MAX
    {
      assert LoadOk(load, lpis, managed, col, m, c);
      SubsetIsSmaller(Tally(lpis, managed, col, m, c), lpis);
    }
  }

  class Lpis {
    const cpus: nat
    /** Every interrupt the driver may ever see, by class and ITS. */
    const irqs: set<nat>
    const managed: set<nat>
    const its: map<nat, Its>

    /** cpu_lpi_count */
    var managedLoad: seq<int>
    var unmanagedLoad: seq<int>
    /** event_map.col_map of all devices. */
    var col: map<nat, nat>
    /** What the ITS routes: the CPU of every mapped interrupt. */
    ghost var table: map<nat, nat>

    ghost predicate Valid()
      reads this
    {
      && Shape()
      && Counted(managedLoad, table.Keys, managed, col, true)
      && Counted(unmanagedLoad, table.Keys, managed, col, false)
    }

    /** Everything but the counters: the ITS routes each active interrupt where col_map says. */
    ghost predicate Shape()
      reads this
    {
      && |managedLoad| == |unmanagedLoad| == cpus
      && table.Keys <= irqs == its.Keys && |irqs| < S32_MAX
      && (forall d | d in table :: d in col && col[d] == table[d] < cpus)
    }

    function Load(m: bool): seq<int>
      reads this
    {
      if m then managedLoad else unmanagedLoad
    }

    constructor (cpus: nat, irqs: set<nat>, managed: set<nat>, its: map<nat, Its>)
      requires its.Keys == irqs && |irqs| < S32_MAX
      ensures Valid() && table == map[] && this.cpus == cpus && this.irqs == irqs && this.managed == managed &&
                this.its == its
      ensures managedLoad == unmanagedLoad == seq(cpus, _ => 0)
    {
      this.cpus, this.irqs, this.managed, this.its := cpus, irqs, managed, its;
      managedLoad, unmanagedLoad := seq(cpus, _ => 0), seq(cpus, _ => 0);
      col := map[];
      table := map[];
    }

    /** its_inc_lpi_count */
    method Inc(d: nat, cpu: nat)
      requires cpu < |managedLoad| == |unmanagedLoad|
      modifies `managedLoad, `unmanagedLoad
      ensures managedLoad == if d in managed then Bump(old(managedLoad), cpu, 1) else old(managedLoad)
      ensures unmanagedLoad == if d !in managed then Bump(old(unmanagedLoad), cpu, 1) else old(unmanagedLoad)
    {
      if d in managed {
        managedLoad := Bump(managedLoad, cpu, 1);
      } else {
        unmanagedLoad := Bump(unmanagedLoad, cpu, 1);
      }
    }

    /** its_dec_lpi_count */
    method Dec(d: nat, cpu: nat)
      requires cpu < |managedLoad| == |unmanagedLoad|
      modifies `managedLoad, `unmanagedLoad
      ensures managedLoad == if d in managed then Bump(old(managedLoad), cpu, -1) else old(managedLoad)
      ensures unmanagedLoad == if d !in managed then Bump(old(unmanagedLoad), cpu, -1) else old(unmanagedLoad)
    {
      if d in managed {
        managedLoad := Bump(managedLoad, cpu, -1);
      } else {
        unmanagedLoad := Bump(unmanagedLoad, cpu, -1);
      }
    }

    /** its_select_cpu */
    method SelectCpu(d: nat, affinity: set<nat>, online: set<nat>) returns (cpu: nat)
      requires d in its && |managedLoad| == |unmanagedLoad| == cpus
      requires forall c | c in online :: c < cpus
      requires forall c | 0 <= c < cpus :: managedLoad[c] < S32_MAX && unmanagedLoad[c] < S32_MAX
      ensures cpu <= cpus
      ensures cpu < cpus ==> FirstLeast(Load(d in managed), Choices(its[d], d in managed, affinity, online), cpu)
      ensures cpu == cpus <==> !Populated(Load(d in managed), Choices(its[d], d in managed, affinity, online))
    {
      var i := its[d];
      if d !in managed {
        if i.node.Some? {
          var near := i.node.value * affinity * online;
          cpu := PickLeastLoaded(unmanagedLoad, near);
          if cpu < cpus {
            return;
          }
          assert forall c | c in near :: c in online;
          if i.tied {
            return;
          }
        }
        var mask := affinity * online;
        if mask == {} {
          mask := online;
        }
        cpu := PickLeastLoaded(unmanagedLoad, mask);
      } else {
        var mask := affinity;
        if i.tied && i.node.Some? {
          mask := mask * i.node.value;
        }
        cpu := PickLeastLoaded(managedLoad, mask);
      }
    }

    /** All interrupts but `d` are counted. */
    ghost predicate ValidBut(d: nat)
      reads this
    {
      && Shape()
      && Counted(managedLoad, table.Keys - {d}, managed, col, true)
      && Counted(unmanagedLoad, table.Keys - {d}, managed, col, false)
    }

    lemma Small(d: nat)
      requires ValidBut(d)
      ensures forall c | 0 <= c < cpus :: managedLoad[c] < S32_MAX && unmanagedLoad[c] < S32_MAX
    {
      SubsetIsSmaller(table.Keys - {d}, irqs);
      LoadsAreSmall(managedLoad, table.Keys - {d}, managed, col, true);
      LoadsAreSmall(unmanagedLoad, table.Keys - {d}, managed, col, false);
    }

    /** Take `d` out of the counters. */
    method Leave(d: nat)
      requires Valid() && d in table
      modifies `managedLoad, `unmanagedLoad
      ensures ValidBut(d)
      ensures Load(d in managed) == Bump(old(Load(d in managed)), col[d], -1)
      ensures Load(d !in managed) == old(Load(d !in managed))
    {
      CountWithout(managedLoad, table.Keys, managed, col, true, d);
      CountWithout(unmanagedLoad, table.Keys, managed, col, false, d);
      Dec(d, col[d]);
    }

    /** its_set_affinity; `forwarded` says whether a vCPU owns the interrupt. */
    method SetAffinity(d: nat, mask: set<nat>, online: set<nat>, force: bool, forwarded: bool)
      returns (ret: Ret, cpu: nat)
      requires Valid() && d in table
      requires forall c | c in online :: c < cpus
      modifies this
      ensures Valid()
      ensures ret == EInval ==> unchanged(this)
      ensures ret == EInval <==> forwarded || !Populated(old(Load(d in managed)), Allowed(d, mask, online, force))
      ensures ret == Done ==>
                && table == old(table)[d := cpu]
                // the interrupt itself does not weigh in
                && FirstLeast(Bump(old(Load(d in managed)), old(col[d]), -1), Allowed(d, mask, online, force), cpu)
    {
      if forwarded {
        return EInval, 0;
      }
      var prev := col[d];
      Leave(d);
      Small(d);
      if !force {
        cpu := SelectCpu(d, mask, online);
      } else {
        cpu := PickLeastLoaded(Load(d in managed), mask);
      }
      if cpu >= cpus {
        Inc(d, prev);
        assert managedLoad == old(managedLoad) && unmanagedLoad == old(unmanagedLoad);
        return EInval, cpu;
      }
      Enter(d, cpu);
      ret := Done;
    }

    function Allowed(d: nat, mask: set<nat>, online: set<nat>, force: bool): set<nat>
      requires d in its
    {
      if force then mask else Choices(its[d], d in managed, mask, online)
    }

    /** The successful end of its_set_affinity. */
    method Enter(d: nat, cpu: nat)
      requires ValidBut(d) && d in table && cpu < cpus
      modifies this
      ensures Valid() && table == old(table)[d := cpu]
    {
      CountWith(managedLoad, table.Keys - {d}, managed, col, true, d, cpu);
      CountWith(unmanagedLoad, table.Keys - {d}, managed, col, false, d, cpu);
      assert table.Keys - {d} + {d} == table.Keys;
      // don't move an interrupt to where it is
      if cpu != col[d] {
        SendMovi(d, cpu);
        col := col[d := cpu];
      }
      assert col == old(col)[d := cpu] && table == old(table)[d := cpu] && table.Keys == old(table).Keys;
      Inc(d, cpu);
    }

    /** its_irq_domain_activate */
    method Activate(d: nat, online: set<nat>) returns (ret: Ret, cpu: nat)
      requires Valid() && d in irqs && d !in table
      requires forall c | c in online :: c < cpus
      modifies this
      ensures Valid()
      ensures ret == EInval ==> unchanged(this)
      ensures ret == EInval <==> !Populated(old(Load(d in managed)), Choices(its[d], d in managed, online, online))
      ensures ret == Done ==>
                && table == old(table)[d := cpu]
                && FirstLeast(old(Load(d in managed)), Choices(its[d], d in managed, online, online), cpu)
                && Load(d in managed) == Bump(old(Load(d in managed)), cpu, 1)
                && Load(d !in managed) == old(Load(d !in managed))
    {
      assert table.Keys - {d} == table.Keys;
      Small(d);
      cpu := SelectCpu(d, online, online);
      if cpu >= cpus {
        return EInval, cpu;
      }
      CountWith(managedLoad, table.Keys, managed, col, true, d, cpu);
      CountWith(unmanagedLoad, table.Keys, managed, col, false, d, cpu);
      Inc(d, cpu);
      col := col[d := cpu];
      SendMapti(d, cpu);
      assert table.Keys == old(table).Keys + {d};
      ret := Done;
    }

    /** its_irq_domain_deactivate */
    method Deactivate(d: nat)
      requires Valid() && d in table
      modifies this
      ensures Valid() && table == old(table) - {d} && col == old(col)
    {
      Leave(d);
      SendDiscard(d);
      assert table.Keys == old(table).Keys - {d};
    }

    ghost method SendMapti(d: nat, cpu: nat)
      requires d !in table
      modifies `table
      ensures table == old(table)[d := cpu]
    {
      table := table[d := cpu];
    }

    ghost method SendMovi(d: nat, cpu: nat)
      requires d in table
      modifies `table
      ensures table == old(table)[d := cpu]
    {
      table := table[d := cpu];
    }

    ghost method SendDiscard(d: nat)
      requires d in table
      modifies `table
      ensures table == old(table) - {d}
    {
      table := table - {d};
    }

    /**
     * Any run that only activates interrupts, of both classes in any order, on
     * fixed online CPUs, those of class `m` on ITSs without a NUMA node: the
     * counters of that class form a staircase, so no two online CPUs differ by
     * more than one. Empty counters are such a staircase.
     */
    method ActivateEach(ds: seq<nat>, m: bool, online: set<nat>)
      requires Valid() && online != {} && (forall c | c in online :: c < cpus)
      requires Staircase(Load(m), online)
      requires forall i | 0 <= i < |ds| :: ds[i] in irqs && ds[i] !in table
      requires forall i | 0 <= i < |ds| && (ds[i] in managed <==> m) :: its[ds[i]].node.None?
      requires forall i, j | 0 <= i < j < |ds| :: ds[i] != ds[j]
      modifies this
      ensures Valid() && Staircase(Load(m), online)
      ensures forall a, b | a in online && b in online && a < cpus && b < cpus :: Load(m)[a] <= Load(m)[b] + 1
      ensures forall i | 0 <= i < |ds| && (ds[i] in managed <==> m) :: ds[i] in table
    {
      for i := 0 to |ds|
        invariant Valid() && Staircase(Load(m), online)
        invariant forall j | i <= j < |ds| :: ds[j] !in table
        invariant forall j | 0 <= j < i && (ds[j] in managed <==> m) :: ds[j] in table
      {
        if ds[i] in managed <==> m {
          OneMore(ds[i], m, online);
        } else {
          var ret, cpu := Activate(ds[i], online);
        }
      }
      WithinOne(Load(m), online);
    }

    method OneMore(d: nat, m: bool, online: set<nat>)
      requires Valid() && online != {} && (forall c | c in online :: c < cpus)
      requires d in irqs && d !in table && (d in managed <==> m) && its[d].node.None?
      requires Staircase(Load(m), online)
      modifies this
      ensures Valid() && Staircase(Load(m), online)
      ensures table.Keys == old(table.Keys) + {d}
    {
      ghost var load := Load(m);
      assert online * online == online;
      assert Choices(its[d], m, online, online) == online;
      ghost var someone :| someone in online;
      assert Populated(load, online);
      var ret, cpu := Activate(d, online);
      StaircaseGrows(load, online, cpu);
    }
  }

  // The staircase

  /** Online CPUs before `edge` carry one interrupt more than the others. */
  ghost predicate Step(load: seq<int>, online: set<nat>, level: int, edge: nat)
  {
    forall c | c in online && c < |load| :: load[c] == if c < edge then level + 1 else level
  }

  ghost predicate Staircase(load: seq<int>, online: set<nat>)
  {
    exists level, edge: nat :: Step(load, online, level, edge)
  }

  lemma EmptyIsStaircase(cpus: nat, online: set<nat>)
    ensures Staircase(seq(cpus, _ => 0), online)
  {
    assert Step(seq(cpus, _ => 0), online, 0, 0);
  }

  lemma WithinOne(load: seq<int>, online: set<nat>)
    requires Staircase(load, online)
    ensures forall a, b | a in online && b in online && a < |load| && b < |load| :: load[a] <= load[b] + 1
  {
    var level, edge: nat :| Step(load, online, level, edge);
    forall a, b | a in online && b in online && a < |load| && b < |load|
      ensures load[a] <= load[b] + 1
    {
    }
  }

  lemma StaircaseGrows(load: seq<int>, online: set<nat>, cpu: nat)
    requires Staircase(load, online) && FirstLeast(load, online, cpu)
    ensures Staircase(Bump(load, cpu, 1), online)
  {
    var level, edge: nat :| Step(load, online, level, edge);
    var load' := Bump(load, cpu, 1);
    if cpu < edge {
      // everybody stands on the upper stair
      assert Step(load', online, level + 1, cpu + 1);
    } else {
      assert Step(load', online, level, cpu + 1);
    }
  }
}
