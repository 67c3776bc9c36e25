/** The second allocation level: a device owns one LPI block and hands out
    power-of-two regions of it, tracked in a bitmap. */
module DeviceLpis {
  import opened LpiRanges
  import opened Options

  /** n / 2^j, the size tried after j refusals. */
  function Halved(n: nat, j: nat): nat
  {
    if j == 0 then n else Halved(n / 2, j - 1)
  }

  lemma {:induction false} HalvedStep(n: nat, j: nat)
    ensures Halved(n, j + 1) == Halved(n, j) / 2
  {
    if j > 0 {
      HalvedStep(n / 2, j - 1);
    }
  }

  ghost predicate FreeSomewhere(rs: seq<Range>, n: nat) {
    exists b: int :: FreeBlock(rs, b, n)
  }

  /** Size k is the first of n, n/2, n/4, ... that some run of free numbers can hold. */
  ghost predicate LargestFit(rs: seq<Range>, n: nat, j: nat, k: nat) {
    && k == Halved(n, j) && k > 0 && FreeSomewhere(rs, k)
    && forall i :: 0 <= i < j ==> !FreeSomewhere(rs, Halved(n, i))
  }

  datatype LpiGrant = NoSpace | NoBitmap(base: nat, nr: nat) | Granted(base: nat, nr: nat)

  ghost predicate LpiAllocPost(rs: seq<Range>, n: nat, r: LpiGrant, rs': seq<Range>) {
    if r.NoSpace? then
      rs' == rs && forall j :: Halved(n, j) > 0 ==> !FreeSomewhere(rs, Halved(n, j))
    else
      && (exists j :: LargestFit(rs, n, j, r.nr))
      && AllocPost(rs, r.nr, Some(r.base), rs')
  }

  lemma {:induction false} HalvedZero(n: nat, j: nat, i: nat)
    requires Halved(n, j) == 0 && j <= i
    ensures Halved(n, i) == 0
    decreases i - j
  {
    if j < i {
      HalvedStep(n, j);
      HalvedZero(n, j + 1, i);
    }
  }

  /** its_lpi_alloc: halve the request until some range can serve it. A block
      whose bitmap cannot be allocated is not given back. */
  method LpiAlloc(list: FreeList, nvecs: nat, haveBitmap: bool) returns (r: LpiGrant)
    requires list.Valid()
    modifies list
    ensures list.Valid() && LpiAllocPost(old(list.ranges), nvecs, r, list.ranges)
    ensures r.NoBitmap? ==> !haveBitmap
    ensures r.Granted? ==> haveBitmap
  {
    var n := nvecs;
    ghost var j := 0;
    while true
      invariant list.Valid() && n == Halved(nvecs, j)
      invariant forall i :: 0 <= i < j ==> Halved(nvecs, i) > 0 ==> !FreeSomewhere(list.ranges, Halved(nvecs, i))
      invariant forall i :: 0 <= i < j ==> Halved(nvecs, i) > 0
      invariant list.ranges == old(list.ranges)
      decreases n
    {
      var before := list.ranges;
      var got := list.AllocRange(n);
      if got.Some? {
        if n == 0 {
          CanonicalIsUnique(list.ranges, before);
          AllZeroFrom(nvecs, j);
          return NoSpace;
        }
        assert FreeSomewhere(before, n);
        assert LargestFit(before, nvecs, j, n);
        return if haveBitmap then Granted(got.value, n) else NoBitmap(got.value, n);
      }
      HalvedStep(nvecs, j);
      n := n / 2;
      j := j + 1;
      if n == 0 {
        AllZeroFrom(nvecs, j);
        assert forall i :: 0 <= i < j && Halved(nvecs, i) > 0 ==> !FreeSomewhere(list.ranges, Halved(nvecs, i));
        return NoSpace;
      }
    }
  }

  lemma AllZeroFrom(n: nat, j: nat)
    requires Halved(n, j) == 0
    ensures forall i :: i >= j ==> Halved(n, i) == 0
  {
    forall i | i >= j
      ensures Halved(n, i) == 0
    {
      HalvedZero(n, j, i);
    }
  }

  // ------------------------------------------------------------------
  // The per-device bitmap
  // ------------------------------------------------------------------

  /** The power of two that get_count_order rounds a request up to. */
  function RegionSize(n: nat): (size: nat)
    requires n > 0
    ensures n <= size < 2 * n
  {
    if n == 1 then 1 else 2 * RegionSize((n + 1) / 2)
  }

  function Pow2(k: nat): (r: nat)
    ensures r > 0
  {
    if k == 0 then 1 else 2 * Pow2(k - 1)
  }

  /** The vectors a device gets: a power of two, within the event IDs of the ITS. */
  function Vectors(nvecs: nat, idBits: nat): (n: nat)
    requires nvecs > 0
    ensures 0 < n <= Pow2(idBits) && exists k :: n == Pow2(k)
  {
    RegionSizeIsPow2(nvecs);
    if RegionSize(nvecs) <= Pow2(idBits) then RegionSize(nvecs) else Pow2(idBits)
  }

  /** nr_ites: an ITT has at least two entries. */
  function Ites(vectors: nat): nat
  {
    if vectors < 2 then 2 else vectors
  }

  lemma {:induction false} RegionSizeIsPow2(n: nat)
    requires n > 0
    ensures exists k :: RegionSize(n) == Pow2(k)
  {
    if n == 1 {
      assert RegionSize(1) == Pow2(0);
    } else {
      RegionSizeIsPow2((n + 1) / 2);
      var k: nat :| RegionSize((n + 1) / 2) == Pow2(k);
      assert RegionSize(n) == Pow2(k + 1);
    }
  }

  lemma {:induction false} HalvedWithin(n: nat, j: nat)
    ensures Halved(n, j) <= n
  {
    if j > 0 {
      HalvedWithin(n / 2, j - 1);
    }
  }

  lemma LargestFitWithin(rs: seq<Range>, n: nat, k: nat)
    requires exists j :: LargestFit(rs, n, j, k)
    ensures 0 < k <= n
  {
    var j :| LargestFit(rs, n, j, k);
    HalvedWithin(n, j);
  }

  predicate AllClear(used: seq<bool>, pos: nat, size: nat)
    requires pos + size <= |used|
  {
    forall e :: pos <= e < pos + size ==> !used[e]
  }

  function Marked(used: seq<bool>, pos: nat, size: nat, v: bool): (r: seq<bool>)
    requires pos + size <= |used|
    ensures |r| == |used|
    ensures forall e :: 0 <= e < |used| ==> r[e] == if pos <= e < pos + size then v else used[e]
  {
    seq(|used|, e requires 0 <= e < |used| => if pos <= e < pos + size then v else used[e])
  }

  ghost predicate Aligned(pos: nat, size: nat) {
    exists q: nat :: pos == q * size
  }

  lemma MulMono(q: nat, k: nat, size: nat)
    requires q <= k
    ensures q * size <= k * size
  {
    assert k * size - q * size == (k - q) * size;
  }

  /** bitmap_find_free_region: the first clear region aligned to its size. */
  method FindFreeRegion(used: seq<bool>, size: nat) returns (r: Option<nat>)
    requires size > 0
    ensures r.Some? ==> Aligned(r.value, size) && r.value + size <= |used| && AllClear(used, r.value, size)
    ensures forall pos: nat :: Aligned(pos, size) && pos + size <= |used| && (r.Some? ==> pos < r.value) ==>
              !AllClear(used, pos, size)
  {
    var pos := 0;
    ghost var q := 0;
    while pos + size <= |used|
      invariant pos == q * size
      invariant forall p: nat :: Aligned(p, size) && p < pos && p + size <= |used| ==> !AllClear(used, p, size)
      decreases |used| - pos
    {
      if AllClear(used, pos, size) {
        return Some(pos);
      }
      forall p: nat | Aligned(p, size) && pos < p < pos + size
        ensures false
      {
        var k: nat :| p == k * size;
        if k <= q {
          MulMono(k, q, size);
        } else {
          MulMono(q + 1, k, size);
        }
      }
      pos := pos + size;
      q := q + 1;
    }
    return None;
  }

  // ------------------------------------------------------------------
  // Devices and the interrupts they hand out
  // ------------------------------------------------------------------

  datatype Device = Device(base: nat, used: seq<bool>, shared: bool) {
    function Nr(): nat { |used| }

    predicate Owns(x: int) { base <= x < base + |used| }
  }

  /** A region handed out to a caller of its_irq_domain_alloc. */
  datatype Grant = Grant(dev: nat, pos: nat, size: nat)

  /** its_get_event_id, with its 32-bit subtraction. */
  function EventId(d: Device, hwirq: nat): (event: nat)
  {
    (hwirq - d.base) % U32_SIZE
  }

  ghost predicate Uses(devices: map<nat, Device>, g: Grant, hwirq: int) {
    g.dev in devices && devices[g.dev].base + g.pos <= hwirq < devices[g.dev].base + g.pos + g.size
  }

  ghost predicate BlocksApart(rs: seq<Range>, devices: map<nat, Device>) {
    && (forall d :: d in devices ==>
          devices[d].Nr() > 0 && FIRST_LPI <= devices[d].base && devices[d].base + devices[d].Nr() <= U32_SIZE)
    && (forall d, x :: d in devices && devices[d].Owns(x) ==> !Covers(rs, x))
    && (forall d, d', x :: d in devices && d' in devices && devices[d].Owns(x) && devices[d'].Owns(x) ==> d == d')
  }

  ghost predicate GrantsApart(devices: map<nat, Device>, held: set<Grant>) {
    && (forall g :: g in held ==>
          g.dev in devices && g.size > 0 && g.pos + g.size <= devices[g.dev].Nr() &&
          forall e :: g.pos <= e < g.pos + g.size ==> devices[g.dev].used[e])
    && (forall g, g' :: g in held && g' in held && g.dev == g'.dev ==>
          g == g' || g.pos + g.size <= g'.pos || g'.pos + g'.size <= g.pos)
  }

  /** Through both levels, no interrupt number belongs to two grants. */
  lemma NoSharedHwirq(rs: seq<Range>, devices: map<nat, Device>, held: set<Grant>, g: Grant, g': Grant, hwirq: int)
    requires BlocksApart(rs, devices) && GrantsApart(devices, held)
    requires g in held && g' in held && Uses(devices, g, hwirq) && Uses(devices, g', hwirq)
    ensures g == g'
  {
    assert devices[g.dev].Owns(hwirq) && devices[g'.dev].Owns(hwirq);
  }

  /** its_get_event_id inverts lpi_base + event, within the bounds of the device's block. */
  lemma EventIdInverts(rs: seq<Range>, devices: map<nat, Device>, d: nat, hwirq: nat)
    requires BlocksApart(rs, devices) && d in devices && devices[d].Owns(hwirq)
    ensures EventId(devices[d], hwirq) < devices[d].Nr()
    ensures devices[d].base + EventId(devices[d], hwirq) == hwirq
  {
    assert hwirq - devices[d].base < U32_SIZE;
  }

  class LpiDomain {
    const list: FreeList
    var devices: map<nat, Device>
    var bare: set<nat>                 // devices that were created without LPIs
    ghost var held: set<Grant>

    ghost predicate Valid()
      reads this, list
    {
      && list.Valid()
      && BlocksApart(list.ranges, devices)
      && GrantsApart(devices, held)
    }

    constructor (list: FreeList)
      requires list.Valid()
      ensures Valid() && this.list == list && devices == map[] && held == {} && bare == {}
    {
      this.list := list;
      devices, bare := map[], {};
      held := {};
    }

    /**
     * its_create_device, the part that concerns LPIs. The device ID is known to
     * be new; the flags are what becomes of the allocations of the device table,
     * the bitmap and the rest. A device never has more LPIs than its ITT has entries.
     */
    method CreateDevice(id: nat, nvecs: nat, idBits: nat, shared: bool, allocLpis: bool,
                        haveTable: bool, haveBitmap: bool, haveRest: bool) returns (ok: bool)
      requires Valid() && id !in devices && id !in bare && nvecs > 0
      modifies this, list
      ensures Valid() && held == old(held)
      ensures !ok ==> devices == old(devices) && bare == old(bare)
      ensures !haveTable ==> !ok && list.ranges == old(list.ranges)
      ensures haveTable && !allocLpis ==>
                && (ok <==> haveRest) && list.ranges == old(list.ranges) && devices == old(devices)
                && (ok ==> bare == old(bare) + {id})
      ensures haveTable && allocLpis ==> exists r: LpiGrant ::
                && LpiAllocPost(old(list.ranges), Vectors(nvecs, idBits), r, list.ranges)
                && (ok <==> r.Granted? && haveRest) && bare == old(bare)
                && (ok ==> devices == old(devices)[id := Device(r.base, seq(r.nr, _ => false), shared)])
      ensures ok && allocLpis ==> id in devices && 0 < devices[id].Nr() <= Ites(Vectors(nvecs, idBits))
    {
      if !haveTable {
        return false;
      }
      var n := Vectors(nvecs, idBits);
      if !allocLpis {
        if haveRest {
          bare := bare + {id};
        }
        return haveRest;
      }
      var r := LpiAlloc(list, n, haveBitmap);
      if !r.Granted? || !haveRest {
        return false;
      }
      LargestFitWithin(old(list.ranges), n, r.nr);
      NewDeviceApart(old(list.ranges), devices, list.ranges, id, Device(r.base, seq(r.nr, _ => false), shared));
      devices := devices[id := Device(r.base, seq(r.nr, _ => false), shared)];
      ok := true;
    }

    /** its_alloc_device_irq for n vectors of one device. */
    method AllocIrqs(id: nat, n: nat) returns (hwirq: Option<nat>)
      requires Valid() && id in devices && n > 0
      modifies this
      ensures Valid()
      ensures hwirq.None? ==> devices == old(devices) && held == old(held)
      ensures hwirq.None? ==> forall pos: nat ::
                Aligned(pos, RegionSize(n)) && pos + RegionSize(n) <= devices[id].Nr() ==>
                !AllClear(devices[id].used, pos, RegionSize(n))
      ensures hwirq.Some? ==>
                var d := old(devices)[id];
                var pos := hwirq.value - d.base;
                && pos >= 0 && pos + RegionSize(n) <= d.Nr() && Aligned(pos, RegionSize(n))
                && held == old(held) + {Grant(id, pos, RegionSize(n))}
                && devices == old(devices)[id := d.(used := Marked(d.used, pos, RegionSize(n), true))]
      ensures hwirq.Some? ==> forall g, x :: g in old(held) && hwirq.value <= x < hwirq.value + n ==>
                !Uses(devices, g, x)
    {
      var size := RegionSize(n);
      var d := devices[id];
      var found := FindFreeRegion(d.used, size);
      if found.None? {
        return None;
      }
      var pos := found.value;
      MarkKeepsApart(list.ranges, devices, held, id, pos, size);
      devices := devices[id := d.(used := Marked(d.used, pos, size, true))];
      held := held + {Grant(id, pos, size)};
      hwirq := Some(d.base + pos);
      forall g, x | g in old(held) && hwirq.value <= x < hwirq.value + n
        ensures !Uses(devices, g, x)
      {
        if Uses(devices, g, x) {
          assert Uses(devices, Grant(id, pos, size), x);
          NoSharedHwirq(list.ranges, devices, held, g, Grant(id, pos, size), x);
        }
      }
    }

    /** its_irq_domain_free: release_region of the grant that starts at hwirq. */
    method FreeIrqs(id: nat, hwirq: nat, n: nat)
      requires Valid() && id in devices && n > 0 && devices[id].Owns(hwirq)
      requires Grant(id, hwirq - devices[id].base, RegionSize(n)) in held
      modifies this
      ensures Valid()
      ensures var d := old(devices)[id];
              var g := Grant(id, hwirq - d.base, RegionSize(n));
              && held == old(held) - {g}
              && g.pos + g.size <= d.Nr()
              && devices == old(devices)[id := d.(used := Marked(d.used, g.pos, g.size, false))]
    {
      var d := devices[id];
      var pos := EventId(d, hwirq);
      EventIdInverts(list.ranges, devices, id, hwirq);
      ClearKeepsApart(list.ranges, devices, held, Grant(id, pos, RegionSize(n)));
      devices := devices[id := d.(used := Marked(d.used, pos, RegionSize(n), false))];
      held := held - {Grant(id, pos, RegionSize(n))};
    }

    /** its_msi_teardown: a shared device, or one with LPIs still in use, stays. */
    method Teardown(id: nat, haveNode: bool) returns (gone: bool)
      requires Valid() && id in devices
      modifies this, list
      ensures Valid() && held == old(held)
      ensures gone <==> !old(devices)[id].shared && AllClear(old(devices)[id].used, 0, old(devices)[id].Nr())
      ensures !gone ==> devices == old(devices) && list.ranges == old(list.ranges)
      ensures gone ==> devices == old(devices) - {id}
      ensures gone && haveNode ==> FreePost(old(list.ranges), old(devices)[id].base, old(devices)[id].Nr(), list.ranges)
      ensures gone && !haveNode ==> list.ranges == old(list.ranges)
    {
      var d := devices[id];
      if d.shared || !AllClear(d.used, 0, d.Nr()) {
        return false;
      }
      forall x | d.base <= x < d.base + d.Nr()
        ensures !Covers(list.ranges, x)
      {
        assert d.Owns(x);
      }
      var ok := list.FreeRange(d.base, d.Nr(), haveNode);
      devices := devices - {id};
      assert forall g :: g in held ==> g.dev != id by {
        forall g | g in held
          ensures g.dev != id
        {
          assert devices.Keys == old(devices).Keys - {id};
          assert old(devices)[g.dev].used[g.pos];
        }
      }
      gone := true;
    }
  }

  lemma NewDeviceApart(rs: seq<Range>, devices: map<nat, Device>, rs': seq<Range>, id: nat, d: Device)
    requires BlocksApart(rs, devices) && id !in devices
    requires d.Nr() > 0 && AllocPost(rs, d.Nr(), Some(d.base), rs')
    ensures BlocksApart(rs', devices[id := d])
  {
    var devices' := devices[id := d];
    forall x | d.Owns(x)
      ensures Covers(rs, x) && !Covers(rs', x)
    {
    }
    forall e, e', x | e in devices' && e' in devices' && devices'[e].Owns(x) && devices'[e'].Owns(x)
      ensures e == e'
    {
    }
  }

  lemma MarkKeepsApart(rs: seq<Range>, devices: map<nat, Device>, held: set<Grant>, id: nat, pos: nat, size: nat)
    requires BlocksApart(rs, devices) && GrantsApart(devices, held)
    requires id in devices && size > 0 && pos + size <= devices[id].Nr() && AllClear(devices[id].used, pos, size)
    ensures Grant(id, pos, size) !in held
    ensures var d := devices[id];
            var devices' := devices[id := d.(used := Marked(d.used, pos, size, true))];
            BlocksApart(rs, devices') && GrantsApart(devices', held + {Grant(id, pos, size)})
  {
    var d := devices[id];
    var devices' := devices[id := d.(used := Marked(d.used, pos, size, true))];
    SameBlocks(rs, devices, devices');
    forall g | g in held && g.dev == id
      ensures g.pos + g.size <= pos || pos + size <= g.pos
    {
      var e := if g.pos < pos then pos else g.pos;
      assert e < d.Nr() && g.pos <= e < g.pos + g.size ==> d.used[e];
    }
  }

  lemma ClearKeepsApart(rs: seq<Range>, devices: map<nat, Device>, held: set<Grant>, g: Grant)
    requires BlocksApart(rs, devices) && GrantsApart(devices, held) && g in held
    ensures var d := devices[g.dev];
            var devices' := devices[g.dev := d.(used := Marked(d.used, g.pos, g.size, false))];
            BlocksApart(rs, devices') && GrantsApart(devices', held - {g})
  {
    var d := devices[g.dev];
    var devices' := devices[g.dev := d.(used := Marked(d.used, g.pos, g.size, false))];
    SameBlocks(rs, devices, devices');
  }

  lemma SameBlocks(rs: seq<Range>, devices: map<nat, Device>, devices': map<nat, Device>)
    requires BlocksApart(rs, devices) && devices'.Keys == devices.Keys
    requires forall d :: d in devices ==> devices'[d].base == devices[d].base && devices'[d].Nr() == devices[d].Nr()
    ensures BlocksApart(rs, devices')
  {
    forall d, x | d in devices' && devices'[d].Owns(x)
      ensures devices[d].Owns(x)
    {
    }
  }
}
