/**
 * Buffer credits for DMA tunnels.
 *
 * A lane adapter has a fixed number of buffers that USB 3.x, PCIe, DP streams
 * and DMA tunnels share. DMA paths reserve theirs hop by hop, give back what
 * they hold when any later hop fails, and again when the tunnel goes away.
 */
module DmaCredits {
  import opened Options

  const MAX_CREDITS := 127
  const MIN_DMA_CREDITS := 1
  /** Every credit number of the hardware is far below this. */
  const LIMIT := 0x100_0000
  const TWO_32 := 0x1_0000_0000

  /** What the platform lets the driver tunnel. */
  datatype Policy = Policy(usb3: bool, pcie: bool, dp: bool, xdomain: bool)

  /**
   * An adapter with the limits of its router. `lane` is a lane adapter,
   * `allocation` the router's credit allocation support.
   */
  datatype Port = Port(
    lane: bool, allocation: bool, bonded: bool, total: nat, ctl: nat,
    maxUsb3: nat, maxPcie: nat, maxDma: nat, dpAux: nat, dpMain: nat)
  {
    ghost predicate Ok()
    {
      && ctl <= total < LIMIT
      && maxUsb3 < LIMIT && maxPcie < LIMIT && maxDma < LIMIT && dpAux < LIMIT && dpMain < LIMIT
    }

    /** tb_port_use_credit_allocation */
    predicate Allocates()
    {
      lane && allocation
    }

    function Usable(): nat
      requires ctl <= total
    {
      total - ctl
    }

    function PerStream(): nat
    {
      dpAux + dpMain
    }
  }

  function MinNotZero(a: nat, b: nat): nat
  {
    if a == 0 then b else if b == 0 then a else if a < b then a else b
  }

  function Min(a: nat, b: nat): nat
  {
    if a < b then a else b
  }

  // Available credits

  function Usb3(k: Policy, p: Port): nat
  {
    if k.usb3 then p.maxUsb3 else 0
  }

  function Pcie(k: Policy, p: Port): nat
  {
    if k.pcie then p.maxPcie else 0
  }

  function Spare(k: Policy, p: Port, param: nat): nat
  {
    if k.xdomain then MinNotZero(p.maxDma, param) + MIN_DMA_CREDITS else 0
  }

  function Need(k: Policy, p: Port, param: nat): nat
  {
    Usb3(k, p) + Pcie(k, p) + Spare(k, p, param)
  }

  function U32(x: int): (r: nat)
    requires -LIMIT * 8 <= x < LIMIT * 8
    ensures r == if x < 0 then TWO_32 + x else x
  {
    if x < 0 then TWO_32 + x else x
  }

  /** An int that received the 64-bit value x, for the values that occur. */
  function S32(x: int): (r: int)
    requires -TWO_32 - LIMIT * 8 <= x < LIMIT * 8
  {
    if x < -TWO_32 / 2 then x + TWO_32 else x
  }

  /** Streams of DP the adapter is sized for; the C division is an unsigned one. */
  function Streams(k: Policy, p: Port, param: nat): nat
    requires p.Ok() && param < LIMIT
  {
    if k.dp && p.PerStream() > 0 then U32(p.Usable() - Need(k, p, param)) / p.PerStream() else 0
  }

  lemma Multiple(x: nat, n: nat)
    requires n > 0
    ensures x / n * n <= x < x / n * n + n && x % n == x - x / n * n
  {
  }

  lemma StreamCredits(k: Policy, p: Port, param: nat)
    requires p.Ok() && param < LIMIT && k.dp && p.PerStream() > 0
    ensures var x := U32(p.Usable() - Need(k, p, param));
            var held := Streams(k, p, param) * p.PerStream();
            held <= x < held + p.PerStream() && x % p.PerStream() == x - held
  {
    Multiple(U32(p.Usable() - Need(k, p, param)), p.PerStream());
  }

  /** tb_available_credits */
  function Available(k: Policy, p: Port, param: nat): (r: nat)
    requires p.Ok() && param < LIMIT
  {
    if k.dp && p.PerStream() > 0 then
      StreamCredits(k, p, param);
      var credits := S32(p.Usable() - Streams(k, p, param) * p.PerStream()) - Usb3(k, p);
      if credits > 0 then credits else 0
    else
      var credits := p.Usable() - Usb3(k, p);
      if credits > 0 then credits else 0
  }

  /** tb_dma_available_credits on an adapter whose dma_credits is `used`. */
  function DmaAvailable(k: Policy, p: Port, param: nat, used: int): (r: nat)
    requires p.Ok() && param < LIMIT
  {
    var credits := Available(k, p, param) - Pcie(k, p) - used;
    if credits > 0 then credits else 0
  }

  /** What is left for DMA once USB 3.x, PCIe and the DP streams have theirs. */
  ghost function Share(k: Policy, p: Port, param: nat): int
    requires p.Ok() && param < LIMIT
  {
    p.Usable() - Usb3(k, p) - Pcie(k, p) - Streams(k, p, param) * p.PerStream()
  }

  /** The adapter is big enough for USB 3.x, PCIe and the spare, or carries no DP at all. */
  predicate Roomy(k: Policy, p: Port, param: nat)
    requires p.ctl <= p.total
  {
    k.dp && p.PerStream() > 0 ==> p.Usable() >= Need(k, p, param)
  }

  lemma ShareWhenRoomy(k: Policy, p: Port, param: nat)
    requires p.Ok() && param < LIMIT && Roomy(k, p, param)
    ensures DmaAvailable(k, p, param, 0) == if Share(k, p, param) > 0 then Share(k, p, param) else 0
    ensures k.dp && p.PerStream() > 0 ==> Share(k, p, param) >= Spare(k, p, param)
  {
    if k.dp && p.PerStream() > 0 {
      StreamCredits(k, p, param);
    }
  }

  /** Otherwise the unsigned division wraps, and the spare is promised although it is not there. */
  lemma OverpromisedWhenTight(k: Policy, p: Port, param: nat)
    requires p.Ok() && param < LIMIT && !Roomy(k, p, param)
    ensures DmaAvailable(k, p, param, 0) == Spare(k, p, param) + U32(p.Usable() - Need(k, p, param)) % p.PerStream()
    ensures Spare(k, p, param) > p.Usable() - Usb3(k, p) - Pcie(k, p)
  {
    StreamCredits(k, p, param);
  }

  /** Credits for DMA that leave USB 3.x and PCIe theirs. */
  ghost predicate Harmless(k: Policy, p: Port, n: int)
    requires p.Ok()
  {
    n == 0 || n <= p.Usable() - Usb3(k, p) - Pcie(k, p)
  }

  /**
   * When other hosts are allowed, the DMA credits on offer leave USB 3.x and
   * PCIe their share exactly on roomy adapters, where the DP streams keep
   * theirs too. Without other hosts nothing may be on offer either.
   */
  lemma PromiseFitsExactlyWhenRoomy(k: Policy, p: Port, param: nat)
    requires p.Ok() && param < LIMIT
    ensures var nothing := !k.xdomain && p.PerStream() > 0 && U32(p.Usable() - Need(k, p, param)) % p.PerStream() == 0;
            Harmless(k, p, DmaAvailable(k, p, param, 0)) <==> Roomy(k, p, param) || nothing
    ensures Roomy(k, p, param) ==>
              DmaAvailable(k, p, param, 0) == 0 || DmaAvailable(k, p, param, 0) <= Share(k, p, param)
  {
    if Roomy(k, p, param) {
      ShareWhenRoomy(k, p, param);
    } else {
      OverpromisedWhenTight(k, p, param);
    }
  }

  /** 20 usable buffers, 16 + 6 for USB 3.x and PCIe: the wrapped division still offers all 20. */
  lemma TightExample()
    ensures var p := Port(true, true, true, 22, 2, 16, 6, 14, 1, 8);
            p.Ok() && DmaAvailable(Policy(true, true, true, true), p, 14, 0) == p.Usable() == 20
  {
    var p := Port(true, true, true, 22, 2, 16, 6, 14, 1, 8);
    OverpromisedWhenTight(Policy(true, true, true, true), p, 14);
  }

  // Tunnels

  /** A hop enters a router through `port` and holds `credits` there. */
  datatype Hop = Hop(port: nat, credits: nat)

  /** The receive path starts at the lane adapter of the other host. */
  datatype Tunnel = Tunnel(rx: seq<Hop>, tx: seq<Hop>)

  ghost function Credits(hops: seq<Hop>, p: nat): nat
  {
    if hops == [] then 0 else Credits(hops[..|hops| - 1], p) + Here(hops[|hops| - 1], p)
  }

  ghost function Here(h: Hop, p: nat): nat
  {
    if h.port == p then h.credits else 0
  }

  ghost function Held(t: Tunnel, p: nat): nat
  {
    Credits(t.rx, p) + Credits(t.tx, p)
  }

  /** The part of a path that went through tb_dma_reserve_credits. */
  ghost function Reserved(t: Tunnel, p: nat): nat
  {
    Credits(if t.rx == [] then [] else t.rx[1..], p) + Credits(t.tx, p)
  }

  ghost function AllHeld(ts: seq<Tunnel>, p: nat): nat
  {
    if ts == [] then 0 else AllHeld(ts[..|ts| - 1], p) + Held(ts[|ts| - 1], p)
  }

  ghost function AllReserved(ts: seq<Tunnel>, p: nat): nat
  {
    if ts == [] then 0 else AllReserved(ts[..|ts| - 1], p) + Reserved(ts[|ts| - 1], p)
  }

  lemma CreditsSnoc(hops: seq<Hop>, h: Hop, p: nat)
    ensures Credits(hops + [h], p) == Credits(hops, p) + Here(h, p)
  {
    assert (hops + [h])[..|hops|] == hops;
  }

  lemma {:induction false} CreditsFront(h: Hop, hops: seq<Hop>, p: nat)
    ensures Credits([h] + hops, p) == Here(h, p) + Credits(hops, p)
    decreases |hops|
  {
    if hops == [] {
      assert [h] + hops == [] + [h];
      CreditsSnoc([], h, p);
    } else {
      var init, last := hops[..|hops| - 1], hops[|hops| - 1];
      assert [h] + hops == ([h] + init) + [last];
      CreditsSnoc([h] + init, last, p);
      CreditsFront(h, init, p);
    }
  }

  lemma {:induction false} NoCredits(hops: seq<Hop>, p: nat)
    requires forall h | h in hops :: h.credits == 0
    ensures Credits(hops, p) == 0
    decreases |hops|
  {
    if hops != [] {
      NoCredits(hops[..|hops| - 1], p);
    }
  }

  lemma {:induction false} CreditsUpdate(hops: seq<Hop>, i: nat, h: Hop, p: nat)
    requires i < |hops|
    ensures Credits(hops[i := h], p) == Credits(hops, p) - Here(hops[i], p) + Here(h, p)
    decreases |hops|
  {
    var init := hops[..|hops| - 1];
    if i == |hops| - 1 {
      assert hops[i := h] == init + [h];
    } else {
      CreditsUpdate(init, i, h, p);
      assert hops[i := h][..|hops| - 1] == init[i := h];
    }
  }

  lemma ReservedWithinHeld(t: Tunnel, p: nat)
    ensures Reserved(t, p) <= Held(t, p)
  {
    if t.rx != [] {
      CreditsFront(t.rx[0], t.rx[1..], p);
      assert [t.rx[0]] + t.rx[1..] == t.rx;
    }
  }

  lemma {:induction false} AllReservedWithinHeld(ts: seq<Tunnel>, p: nat)
    ensures AllReserved(ts, p) <= AllHeld(ts, p)
    decreases |ts|
  {
    if ts != [] {
      AllReservedWithinHeld(ts[..|ts| - 1], p);
      ReservedWithinHeld(ts[|ts| - 1], p);
    }
  }

  lemma TunnelAdded(ts: seq<Tunnel>, t: Tunnel, p: nat)
    ensures AllHeld(ts + [t], p) == AllHeld(ts, p) + Held(t, p)
    ensures AllReserved(ts + [t], p) == AllReserved(ts, p) + Reserved(t, p)
  {
    assert (ts + [t])[..|ts|] == ts;
  }

  ghost function Without(ts: seq<Tunnel>, i: nat): seq<Tunnel>
    requires i < |ts|
  {
    ts[..i] + ts[i + 1..]
  }

  lemma WithoutSnoc(ts: seq<Tunnel>, t: Tunnel, i: nat)
    requires i < |ts|
    ensures Without(ts + [t], i) == Without(ts, i) + [t]
  {
  }

  lemma {:induction false} TunnelRemoved(ts: seq<Tunnel>, i: nat, p: nat)
    requires i < |ts|
    ensures AllHeld(Without(ts, i), p) == AllHeld(ts, p) - Held(ts[i], p)
    ensures AllReserved(Without(ts, i), p) == AllReserved(ts, p) - Reserved(ts[i], p)
    decreases |ts|
  {
    var init, last := ts[..|ts| - 1], ts[|ts| - 1];
    assert ts == init + [last];
    TunnelAdded(init, last, p);
    if i == |ts| - 1 {
      assert Without(ts, i) == init;
    } else {
      TunnelRemoved(init, i, p);
      WithoutSnoc(init, last, i);
      TunnelAdded(Without(init, i), last, p);
    }
  }

  class Domain {
    const policy: Policy
    /** The dma_credits module parameter. */
    const param: nat
    const ports: map<nat, Port>

    /** tb_port::dma_credits */
    var dma: map<nat, int>
    var tunnels: seq<Tunnel>

    ghost predicate Valid()
      reads this
    {
      && Wired()
      && (forall p | p in ports && ports[p].Allocates() :: dma[p] == AllHeld(tunnels, p))
      && (forall p | p in ports && ports[p].Allocates() && Roomy(policy, ports[p], param) ::
            Fits(AllReserved(tunnels, p), ports[p]))
      && (forall t | t in tunnels :: OnPorts(t.rx) && OnPorts(t.tx))
    }

    ghost predicate Wired()
      reads `dma
    {
      && dma.Keys == ports.Keys && param < LIMIT
      && forall p | p in ports :: ports[p].Ok() && dma[p] >= 0
    }

    /** `n` credits for DMA leave the other users of the adapter their share. */
    ghost predicate Fits(n: int, port: Port)
      requires port.Ok() && param < LIMIT
    {
      n == 0 || n <= Share(policy, port, param)
    }

    /** The hops enter the routers of a path, in order. */
    ghost predicate Follows(hops: seq<Hop>, path: seq<nat>)
    {
      |hops| == |path| && forall i | 0 <= i < |hops| :: hops[i].port == path[i]
    }

    ghost predicate SamePorts(hops: seq<Hop>, path: seq<Hop>)
    {
      |hops| == |path| && forall i | 0 <= i < |hops| :: hops[i].port == path[i].port
    }

    /** From `start` on, every hop has credits, and no more than asked for. */
    ghost predicate Supplied(hops: seq<Hop>, start: nat, credits: nat)
    {
      forall i | start <= i < |hops| :: HopSupplied(hops[i], credits)
    }

    ghost predicate HopSupplied(h: Hop, credits: nat)
    {
      h.port in ports && ports[h.port].Allocates() ==> Min(credits, MIN_DMA_CREDITS) <= h.credits <= credits
    }

    predicate OnPorts(hops: seq<Hop>)
    {
      forall h | h in hops :: h.port in ports
    }

    constructor (policy: Policy, param: nat, ports: map<nat, Port>)
      requires param < LIMIT && forall p | p in ports :: ports[p].Ok()
      ensures Valid() && tunnels == [] && this.policy == policy && this.param == param && this.ports == ports
    {
      this.policy, this.param, this.ports := policy, param, ports;
      dma := map p | p in ports :: 0;
      tunnels := [];
    }

    /** tb_dma_reserve_credits */
    method Reserve(port: nat, credits: nat) returns (ok: bool, hop: Hop)
      requires Wired() && port in ports
      modifies `dma
      ensures Wired() && hop.port == port
      ensures !ok ==> dma == old(dma) && hop.credits == 0
      ensures ok == (ports[port].Allocates() ==>
                       DmaAvailable(policy, ports[port], param, old(dma[port])) >= MIN_DMA_CREDITS)
      ensures ok && ports[port].Allocates() ==>
                hop.credits == Min(credits, DmaAvailable(policy, ports[port], param, old(dma[port])))
      ensures !ports[port].Allocates() ==>
                hop.credits == if !ports[port].lane then Min(ports[port].total, credits) else
                      if ports[port].bonded then 14 else 6
      ensures ok ==> HopSupplied(hop, credits)
      ensures forall p | p in ports && ports[p].Allocates() :: dma[p] == old(dma[p]) + Here(hop, p)
      ensures ok && ports[port].Allocates() && Roomy(policy, ports[port], param) ==>
                dma[port] <= Share(policy, ports[port], param)
    {
      var p := ports[port];
      var n := credits;
      if p.Allocates() {
        var available := DmaAvailable(policy, p, param, dma[port]);
        if available < MIN_DMA_CREDITS {
          return false, Hop(port, 0);
        }
        n := Min(n, available);
        dma := dma[port := dma[port] + n];
        if Roomy(policy, p, param) {
          ShareWhenRoomy(policy, p, param);
        }
      } else if p.lane {
        n := if p.bonded then 14 else 6;
      } else {
        n := Min(p.total, n);
      }
      return true, Hop(port, n);
    }

    /** The loops of tb_dma_init_rx_path and tb_dma_init_tx_path over the hops from `start` on. */
    method ReserveFrom(path: seq<Hop>, start: nat, credits: nat) returns (ok: bool, hops: seq<Hop>)
      requires Wired() && OnPorts(path) && start <= |path|
      requires forall i | start <= i < |path| :: path[i].credits == 0
      modifies `dma
      ensures Wired() && OnPorts(hops) && SamePorts(hops, path) && hops[..start] == path[..start]
      ensures ok ==> Supplied(hops, start, credits)
      ensures forall p | p in ports && ports[p].Allocates() ::
                dma[p] == old(dma[p]) + Credits(hops, p) - Credits(path, p)
      ensures forall p | p in ports && ports[p].Allocates() && Roomy(policy, ports[p], param) ::
                dma[p] == old(dma[p]) || dma[p] <= Share(policy, ports[p], param)
    {
      hops := path;
      for i := start to |path|
        invariant Wired() && OnPorts(hops) && SamePorts(hops, path) && hops[..start] == path[..start]
        invariant forall j | i <= j < |path| :: hops[j].credits == 0
        invariant forall j | start <= j < i :: HopSupplied(hops[j], credits)
        invariant forall p | p in ports && ports[p].Allocates() ::
                    dma[p] == old(dma[p]) + Credits(hops, p) - Credits(path, p)
        invariant forall p | p in ports && ports[p].Allocates() && Roomy(policy, ports[p], param) ::
                    dma[p] == old(dma[p]) || dma[p] <= Share(policy, ports[p], param)
      {
        ok, hops := ReserveAt(hops, i, credits);
        if !ok {
          return;
        }
      }
      ok := true;
    }

    /** One hop of a path. */
    method ReserveAt(path: seq<Hop>, i: nat, credits: nat) returns (ok: bool, hops: seq<Hop>)
      requires Wired() && OnPorts(path) && i < |path| && path[i].credits == 0
      modifies `dma
      ensures Wired() && OnPorts(hops) && SamePorts(hops, path) && hops == path[i := hops[i]]
      ensures ok ==> HopSupplied(hops[i], credits)
      ensures forall p | p in ports && ports[p].Allocates() ::
                dma[p] == old(dma[p]) + Credits(hops, p) - Credits(path, p)
      ensures forall p | p in ports && ports[p].Allocates() && Roomy(policy, ports[p], param) ::
                dma[p] == old(dma[p]) || dma[p] <= Share(policy, ports[p], param)
    {
      assert path[i] in path;
      var hop;
      ok, hop := Reserve(path[i].port, credits);
      hops := path[i := hop];
      forall p
        ensures Credits(hops, p) == Credits(path, p) + Here(hop, p)
      {
        CreditsUpdate(path, i, hop, p);
      }
    }

    /** tb_dma_init_rx_path */
    method InitRx(path: seq<Hop>, credits: nat) returns (ok: bool, hops: seq<Hop>)
      requires Wired() && OnPorts(path) && |path| > 0 && forall h | h in path :: h.credits == 0
      modifies `dma
      ensures Wired() && OnPorts(hops) && SamePorts(hops, path)
      ensures hops[0].credits == Min(ports[hops[0].port].Usable(), credits) && (ok ==> Supplied(hops, 1, credits))
      ensures forall p | p in ports && ports[p].Allocates() :: dma[p] == old(dma[p]) + Credits(hops, p)
      ensures forall p | p in ports && ports[p].Allocates() && Roomy(policy, ports[p], param) ::
                Credits(hops[1..], p) == 0 || dma[p] <= Share(policy, ports[p], param)
    {
      var first := path[0].port;
      assert path[0] in path;
      // nothing else crosses the link to the other host, so all its buffers may go
      var n := Min(ports[first].Usable(), credits);
      var hop := Hop(first, n);
      var started := path[0 := hop];
      dma := dma[first := dma[first] + n];
      forall p
        ensures Credits(started, p) == Here(hop, p)
      {
        NoCredits(path, p);
        CreditsUpdate(path, 0, hop, p);
      }
      ok, hops := ReserveFrom(started, 1, credits);
      assert hops[0] == hops[..1][0] == started[..1][0];
      forall p
        ensures Credits(hops, p) == Here(hop, p) + Credits(hops[1..], p)
      {
        CreditsFront(hop, hops[1..], p);
        assert [hop] + hops[1..] == hops;
      }
    }

    /** tb_dma_init_tx_path */
    method InitTx(path: seq<Hop>, credits: nat) returns (ok: bool, hops: seq<Hop>)
      requires Wired() && OnPorts(path) && forall h | h in path :: h.credits == 0
      modifies `dma
      ensures Wired() && OnPorts(hops) && SamePorts(hops, path) && (ok ==> Supplied(hops, 0, credits))
      ensures forall p | p in ports && ports[p].Allocates() :: dma[p] == old(dma[p]) + Credits(hops, p)
      ensures forall p | p in ports && ports[p].Allocates() && Roomy(policy, ports[p], param) ::
                Credits(hops, p) == 0 || dma[p] <= Share(policy, ports[p], param)
    {
      ok, hops := ReserveFrom(path, 0, credits);
      forall p
        ensures Credits(path, p) == 0
      {
        NoCredits(path, p);
      }
    }

    /** tb_dma_release_credits on every hop: tb_dma_destroy_path. */
    method DestroyPath(hops: seq<Hop>)
      requires Wired() && OnPorts(hops)
      requires forall p | p in ports && ports[p].Allocates() :: dma[p] >= Credits(hops, p)
      modifies `dma
      ensures Wired()
      ensures forall p | p in ports ::
                dma[p] == old(dma[p]) - if ports[p].Allocates() then Credits(hops, p) else 0
    {
      for i := 0 to |hops|
        invariant dma.Keys == ports.Keys
        invariant forall p | p in ports ::
                    dma[p] == old(dma[p]) - if ports[p].Allocates() then Credits(hops[..i], p) else 0
      {
        var hop := hops[i];
        assert hop in hops;
        forall p
          ensures Credits(hops[..i + 1], p) == Credits(hops[..i], p) + Here(hop, p)
        {
          CreditsSnoc(hops[..i], hop, p);
          assert hops[..i + 1] == hops[..i] + [hop];
        }
        if ports[hop.port].Allocates() {
          dma := dma[hop.port := dma[hop.port] - hop.credits];
        }
      }
      assert hops[..|hops|] == hops;
    }

    /** The ledger while tunnel `t` is set up or taken down beside the live ones. */
    ghost predicate Building(t: Tunnel)
      reads this
    {
      && Wired() && OnPorts(t.rx) && OnPorts(t.tx)
      && forall p | p in ports && ports[p].Allocates() :: dma[p] == AllHeld(tunnels, p) + Held(t, p)
    }

    /** tb_dma_destroy */
    method Release(t: Tunnel)
      requires Building(t)
      modifies `dma
      ensures Wired()
      ensures forall p | p in ports && ports[p].Allocates() :: dma[p] == AllHeld(tunnels, p)
    {
      DestroyPath(t.rx);
      DestroyPath(t.tx);
    }

    /** The last tb_tunnel_put of live tunnel `i`. */
    method Put(i: nat)
      requires Valid() && i < |tunnels|
      modifies this
      ensures Valid() && tunnels == Without(old(tunnels), i)
    {
      var t := tunnels[i];
      assert t in tunnels;
      forall p
        ensures AllHeld(Without(tunnels, i), p) == AllHeld(tunnels, p) - Held(t, p)
        ensures AllReserved(Without(tunnels, i), p) == AllReserved(tunnels, p) - Reserved(t, p)
      {
        TunnelRemoved(tunnels, i, p);
      }
      tunnels := tunnels[..i] + tunnels[i + 1..];
      Release(t);
    }

    /** tb_tunnel_alloc_dma: `memory` and the two paths are what the allocators return. */
    method AllocDma(nhi: nat, receiveRing: int, transmitRing: int, memory: bool, rx: Option<seq<nat>>,
                    tx: Option<seq<nat>>)
      returns (ok: bool)
      requires Valid() && nhi in ports && PathOk(rx) && PathOk(tx)
      modifies this
      ensures Valid()
      ensures !ok ==> tunnels == old(tunnels) && forall p | p in ports && ports[p].Allocates() :: dma[p] == old(dma[p])
      ensures ok ==> |tunnels| > 0 && tunnels == old(tunnels) + [tunnels[|tunnels| - 1]]
      ensures ok && receiveRing > 0 ==> rx.Some? && Follows(tunnels[|tunnels| - 1].rx, rx.value)
      ensures ok && transmitRing > 0 ==> tx.Some? && Follows(tunnels[|tunnels| - 1].tx, tx.value)
      ensures ok ==> memory && receiveRing != 0 && transmitRing != 0 && (receiveRing > 0 || transmitRing > 0)
    {
      if receiveRing == 0 || transmitRing == 0 || (receiveRing < 0 && transmitRing < 0) || !memory {
        return false;
      }
      var credits := Min(MinNotZero(param, ports[nhi].maxDma), MAX_CREDITS);
      var t := Tunnel([], []);
      if receiveRing > 0 {
        ok, t := Receive(rx, credits);
        if !ok {
          return;
        }
      }
      if transmitRing > 0 {
        ok, t := Transmit(t, tx, credits);
        if !ok {
          return;
        }
      }
      Keep(t);
      ok := true;
    }

    /** A tunnel that is all set up joins the live ones. */
    method Keep(t: Tunnel)
      requires Building(t) && Shares(t) && forall u | u in tunnels :: OnPorts(u.rx) && OnPorts(u.tx)
      modifies `tunnels
      ensures Valid() && tunnels == old(tunnels) + [t]
    {
      forall p
        ensures AllHeld(tunnels + [t], p) == AllHeld(tunnels, p) + Held(t, p)
        ensures AllReserved(tunnels + [t], p) == AllReserved(tunnels, p) + Reserved(t, p)
      {
        TunnelAdded(tunnels, t, p);
      }
      tunnels := tunnels + [t];
    }

    predicate PathOk(path: Option<seq<nat>>)
    {
      path.Some? ==> |path.value| > 0 && forall p | p in path.value :: p in ports
    }

    /** tb_path_alloc leaves every hop without credits. */
    function Empty(path: seq<nat>): (hops: seq<Hop>)
      ensures Follows(hops, path) && forall h | h in hops :: h.credits == 0 && h.port in path
    {
      seq(|path|, i requires 0 <= i < |path| => Hop(path[i], 0))
    }

    ghost predicate Shares(t: Tunnel)
      requires Wired()
      reads this
    {
      forall p | p in ports && ports[p].Allocates() && Roomy(policy, ports[p], param) ::
        Fits(AllReserved(tunnels, p) + Reserved(t, p), ports[p])
    }

    lemma Within(p: nat, t: Tunnel)
      requires Building(t) && p in ports && ports[p].Allocates()
      ensures AllReserved(tunnels, p) + Reserved(t, p) <= dma[p]
    {
      AllReservedWithinHeld(tunnels, p);
      ReservedWithinHeld(t, p);
    }

    /** The receive half of tb_tunnel_alloc_dma, its failure exit included. */
    method Receive(rx: Option<seq<nat>>, credits: nat) returns (ok: bool, t: Tunnel)
      requires Valid() && PathOk(rx)
      modifies `dma
      ensures ok ==> Building(t) && Shares(t) && t.tx == [] && rx.Some? && Follows(t.rx, rx.value)
      ensures !ok ==> Wired() && forall p | p in ports && ports[p].Allocates() :: dma[p] == old(dma[p])
    {
      t := Tunnel([], []);
      if rx.None? {
        return false, t;
      }
      var hops;
      ok, hops := InitRx(Empty(rx.value), credits);
      t := Tunnel(hops, []);
      assert Building(t);
      if !ok {
        Release(t);
        return;
      }
      forall p | p in ports && ports[p].Allocates() && Roomy(policy, ports[p], param)
        ensures Fits(AllReserved(tunnels, p) + Reserved(t, p), ports[p])
      {
        Within(p, t);
      }
    }

    /** The transmit half. */
    method Transmit(start: Tunnel, tx: Option<seq<nat>>, credits: nat) returns (ok: bool, t: Tunnel)
      requires Building(start) && Shares(start) && start.tx == [] && PathOk(tx)
      modifies `dma
      ensures ok ==> Building(t) && Shares(t) && t.rx == start.rx && tx.Some? && Follows(t.tx, tx.value)
      ensures !ok ==> Wired() && forall p | p in ports && ports[p].Allocates() :: dma[p] == AllHeld(tunnels, p)
    {
      t := start;
      if tx.None? {
        Release(t);
        return false, t;
      }
      var hops;
      ok, hops := InitTx(Empty(tx.value), credits);
      t := Tunnel(start.rx, hops);
      assert Building(t);
      if !ok {
        Release(t);
        return;
      }
      forall p | p in ports && ports[p].Allocates() && Roomy(policy, ports[p], param)
        ensures Fits(AllReserved(tunnels, p) + Reserved(t, p), ports[p])
      {
        Within(p, t);
        assert Fits(AllReserved(tunnels, p) + Reserved(start, p), ports[p]);
      }
    }
  }
}
