/**
 * The DisplayPort bandwidth ledger of the connection manager.
 *
 * DP tunnels between the same two routers form a group. A tunnel that asks for
 * less leaves the difference reserved for its group for a while; a tunnel that
 * asks for more may take it back. No link may be promised more than it has.
 */
module DpBandwidth {
  import opened Options

  const MAX_GROUPS := 7
  /** Mb/s an asymmetric Gen 4 link can carry, the start value of the search. */
  const LINK_LIMIT := 120000
  const PCIE_RESERVE := 1500

  datatype Ret = Ok | ENoBufs | EIo

  /** A symmetric link; `pcie` says whether bandwidth is kept for PCIe bulk traffic. */
  datatype Link = Link(speed: nat, width: nat, pcie: bool)

  /** The links between two routers, and whether they lead away from the host. */
  datatype Route = Route(path: seq<nat>, down: bool)

  /** All tunnels between the same two routers, `ends`, take the same links. */
  datatype Config = Config(links: map<nat, Link>, routes: map<nat, Route>)
  {
    ghost predicate Ok()
    {
      forall e, l | e in routes && l in routes[e].path :: l in links
    }

    /** tb_maximum_bandwidth on a symmetric link, less what tb_tunnel_reserved_pci asks for. */
    function Cap(l: nat): int
      requires l in links
    {
      var bw := links[l].speed * links[l].width * 1000;
      bw - bw / 10 - if links[l].pcie then PCIE_RESERVE else 0
    }
  }

  function RoundUp(x: nat, g: nat): (r: nat)
    requires g > 0
    ensures x <= r < x + g
  {
    assert (x + g - 1) / g * g == x + g - 1 - (x + g - 1) % g;
    (x + g - 1) / g * g
  }

  /**
   * A DP tunnel: `max` is the most its link rates allow, `legacy` what it uses
   * outside bandwidth allocation mode, `alloc` the adapter's allocation register.
   */
  datatype Tunnel = Tunnel(ends: nat, group: nat, max: nat, granularity: nat, legacy: nat, mode: bool, alloc: nat)
  {
    ghost predicate Ok(c: Config)
    {
      && ends in c.routes && 1 <= group <= MAX_GROUPS && granularity > 0
      && (mode ==> alloc <= RoundUp(max, granularity))
    }

    function Rounded(): nat
      requires granularity > 0
    {
      RoundUp(max, granularity)
    }

    /** tb_dp_consumed_bandwidth and tb_dp_allocated_bandwidth in the tunnel's direction. */
    function Consumed(): nat
      requires granularity > 0
    {
      if !mode then legacy else if alloc == Rounded() then max else alloc
    }

    /** tb_dp_alloc_bandwidth with a write that succeeds. */
    function Write(bw: nat): Tunnel
      requires granularity > 0
    {
      this.(mode := true, alloc := if bw < Rounded() then bw else Rounded())
    }
  }

  // What a link carries

  predicate Crosses(c: Config, t: Tunnel, l: nat)
  {
    t.ends in c.routes && l in c.routes[t.ends].path
  }

  /** Crosses the link in one direction. */
  ghost predicate Flows(c: Config, t: Tunnel, l: nat, down: bool)
  {
    Crosses(c, t, l) && c.routes[t.ends].down == down
  }

  ghost function Part(c: Config, t: Tunnel, l: nat, down: bool): nat
  {
    if Flows(c, t, l, down) && t.granularity > 0 then t.Consumed() else 0
  }

  /** The DP bandwidth in use on a link in one direction. */
  ghost function Use(c: Config, ts: seq<Tunnel>, l: nat, down: bool): nat
  {
    if ts == [] then 0 else Use(c, ts[..|ts| - 1], l, down) + Part(c, ts[|ts| - 1], l, down)
  }

  /** The same without tunnel `i`. */
  ghost function UseBut(c: Config, ts: seq<Tunnel>, l: nat, down: bool, i: nat): int
  {
    Use(c, ts, l, down) - if i < |ts| then Part(c, ts[i], l, down) else 0
  }

  /** The groups with a tunnel over the link, in any direction and in one. */
  ghost function Groups(c: Config, ts: seq<Tunnel>, l: nat): set<nat>
  {
    set t | t in ts && Crosses(c, t, l) :: t.group
  }

  ghost function GroupsOf(c: Config, ts: seq<Tunnel>, l: nat, down: bool): set<nat>
  {
    set t | t in ts && Flows(c, t, l, down) :: t.group
  }

  /** What is reserved for a set of groups, among the first `n`. */
  ghost function Held(reserved: seq<int>, groups: set<nat>, n: nat): int
    requires n <= |reserved|
  {
    if n == 0 then 0 else Held(reserved, groups, n - 1) + if n - 1 in groups then reserved[n - 1] else 0
  }

  ghost predicate Fits(c: Config, ts: seq<Tunnel>, reserved: seq<int>, l: nat, down: bool)
  {
    l in c.links ==>
      Use(c, ts, l, down) + Held(reserved, GroupsOf(c, ts, l, down), |reserved|) <= c.Cap(l)
  }

  ghost predicate SameEnds(ts: seq<Tunnel>, i: nat, j: nat)
  {
    i < |ts| && j < |ts| && ts[i].group == ts[j].group ==> ts[i].ends == ts[j].ends
  }

  ghost predicate InUse(ts: seq<Tunnel>, g: nat)
  {
    exists i :: 0 <= i < |ts| && ts[i].group == g
  }

  /** A reservation belongs to a group that has tunnels. */
  ghost predicate Owned(ts: seq<Tunnel>, reserved: seq<int>, g: nat)
  {
    g < |reserved| && !InUse(ts, g) ==> reserved[g] == 0
  }

  ghost predicate Grouped(c: Config, ts: seq<Tunnel>, reserved: seq<int>)
  {
    && c.Ok() && |reserved| == MAX_GROUPS + 1
    && (forall i | 0 <= i < |ts| :: ts[i].Ok(c))
    && (forall i: nat, j: nat {:trigger SameEnds(ts, i, j)} :: SameEnds(ts, i, j))
    && (forall g: nat {:trigger Owned(ts, reserved, g)} :: Owned(ts, reserved, g))
  }

  /** No link is over-promised in either direction. */
  ghost predicate AllFit(c: Config, ts: seq<Tunnel>, reserved: seq<int>)
  {
    forall l: nat, down {:trigger Fits(c, ts, reserved, l, down)} :: Fits(c, ts, reserved, l, down)
  }

  /** Nor is any reservation negative. */
  ghost predicate Safe(c: Config, ts: seq<Tunnel>, reserved: seq<int>)
  {
    AllFit(c, ts, reserved) && forall g | 0 <= g < |reserved| :: reserved[g] >= 0
  }

  // Sums

  lemma {:induction false} UseUpdate(c: Config, ts: seq<Tunnel>, i: nat, t: Tunnel, l: nat, down: bool)
    requires i < |ts|
    ensures Use(c, ts[i := t], l, down) == Use(c, ts, l, down) - Part(c, ts[i], l, down) + Part(c, t, l, down)
    decreases |ts|
  {
    var init := ts[..|ts| - 1];
    if i == |ts| - 1 {
      assert ts[i := t][..|ts| - 1] == init;
    } else {
      UseUpdate(c, init, i, t, l, down);
      assert ts[i := t][..|ts| - 1] == init[i := t];
    }
  }

  lemma UseAdd(c: Config, ts: seq<Tunnel>, t: Tunnel, l: nat, down: bool)
    ensures Use(c, ts + [t], l, down) == Use(c, ts, l, down) + Part(c, t, l, down)
  {
    assert (ts + [t])[..|ts|] == ts;
  }

  ghost function Without(ts: seq<Tunnel>, i: nat): seq<Tunnel>
    requires i < |ts|
  {
    ts[..i] + ts[i + 1..]
  }

  lemma {:induction false} UseRemove(c: Config, ts: seq<Tunnel>, i: nat, l: nat, down: bool)
    requires i < |ts|
    ensures Use(c, Without(ts, i), l, down) == Use(c, ts, l, down) - Part(c, ts[i], l, down)
    decreases |ts|
  {
    var init, last := ts[..|ts| - 1], ts[|ts| - 1];
    if i == |ts| - 1 {
      assert Without(ts, i) == init;
    } else {
      UseRemove(c, init, i, l, down);
      assert Without(ts, i) == Without(init, i) + [last];
      UseAdd(c, Without(init, i), last, l, down);
    }
  }

  lemma {:induction false} HeldGrows(reserved: seq<int>, a: set<nat>, b: set<nat>, n: nat)
    requires n <= |reserved| && a <= b && forall g | 0 <= g < |reserved| :: reserved[g] >= 0
    ensures 0 <= Held(reserved, a, n) <= Held(reserved, b, n)
    decreases n
  {
    if n > 0 {
      HeldGrows(reserved, a, b, n - 1);
    }
  }

  lemma {:induction false} HeldUpdate(reserved: seq<int>, groups: set<nat>, g: nat, x: int, n: nat)
    requires n <= |reserved| && g < |reserved|
    ensures Held(reserved[g := x], groups, n) ==
            Held(reserved, groups, n) + if g in groups && g < n then x - reserved[g] else 0
    decreases n
  {
    if n > 0 {
      HeldUpdate(reserved, groups, g, x, n - 1);
    }
  }

  /** A group without a reservation may come and go. */
  lemma {:induction false} HeldIgnores(reserved: seq<int>, groups: set<nat>, g: nat, n: nat)
    requires n <= |reserved| && g < |reserved| && reserved[g] == 0
    ensures Held(reserved, groups + {g}, n) == Held(reserved, groups, n)
    decreases n
  {
    if n > 0 {
      HeldIgnores(reserved, groups, g, n - 1);
    }
  }

  lemma GroupsKept(c: Config, ts: seq<Tunnel>, i: nat, t: Tunnel, l: nat, down: bool)
    requires i < |ts| && t.ends == ts[i].ends && t.group == ts[i].group
    ensures GroupsOf(c, ts[i := t], l, down) == GroupsOf(c, ts, l, down)
  {
    forall g
      ensures g in GroupsOf(c, ts[i := t], l, down) <==> g in GroupsOf(c, ts, l, down)
    {
      if g in GroupsOf(c, ts, l, down) {
        var u :| u in ts && Flows(c, u, l, down) && u.group == g;
        var k :| 0 <= k < |ts| && ts[k] == u;
        assert ts[i := t][k] in ts[i := t] && Flows(c, ts[i := t][k], l, down);
      }
      if g in GroupsOf(c, ts[i := t], l, down) {
        var u :| u in ts[i := t] && Flows(c, u, l, down) && u.group == g;
        var k :| 0 <= k < |ts| && ts[i := t][k] == u;
        assert ts[k] in ts && Flows(c, ts[k], l, down);
      }
    }
  }

  /** The links a group's reservation weighs on are those of any of its tunnels. */
  lemma GroupFlows(c: Config, ts: seq<Tunnel>, reserved: seq<int>, i: nat, l: nat, down: bool)
    requires Grouped(c, ts, reserved) && i < |ts|
    ensures ts[i].group in GroupsOf(c, ts, l, down) <==> Flows(c, ts[i], l, down)
  {
    if Flows(c, ts[i], l, down) {
      assert ts[i] in ts;
    }
    if ts[i].group in GroupsOf(c, ts, l, down) {
      var u :| u in ts && Flows(c, u, l, down) && u.group == ts[i].group;
      var k: nat :| k < |ts| && ts[k] == u;
      assert SameEnds(ts, i, k);
    }
  }

  ghost function Load(c: Config, ts: seq<Tunnel>, reserved: seq<int>, l: nat, down: bool): int
  {
    Use(c, ts, l, down) + Held(reserved, GroupsOf(c, ts, l, down), |reserved|)
  }

  /** What one tunnel's change, and its group's, does to a link. */
  lemma LoadAfter(c: Config, ts: seq<Tunnel>, reserved: seq<int>, i: nat, t: Tunnel, x: int, l: nat, down: bool)
    requires Grouped(c, ts, reserved) && i < |ts| && t.ends == ts[i].ends && t.group == ts[i].group && t.Ok(c)
    ensures var was := ts[i];
            Load(c, ts[i := t], reserved[t.group := x], l, down) == Load(c, ts, reserved, l, down) +
              if Flows(c, was, l, down) then t.Consumed() - was.Consumed() + x - reserved[t.group] else 0
  {
    UseUpdate(c, ts, i, t, l, down);
    GroupsKept(c, ts, i, t, l, down);
    GroupFlows(c, ts, reserved, i, l, down);
    HeldUpdate(reserved, GroupsOf(c, ts, l, down), t.group, x, |reserved|);
  }

  lemma GroupedAfter(c: Config, ts: seq<Tunnel>, reserved: seq<int>, i: nat, t: Tunnel, x: int)
    requires Grouped(c, ts, reserved) && i < |ts| && t.ends == ts[i].ends && t.group == ts[i].group && t.Ok(c)
    ensures Grouped(c, ts[i := t], reserved[t.group := x])
  {
    var ts', reserved' := ts[i := t], reserved[t.group := x];
    forall j: nat, k: nat
      ensures SameEnds(ts', j, k)
    {
      assert SameEnds(ts, j, k);
    }
    forall g: nat
      ensures Owned(ts', reserved', g)
    {
      assert Owned(ts, reserved, g);
      assert ts'[i].group == t.group;
      if k :| 0 <= k < |ts| && ts[k].group == g {
        assert ts'[k].group == g;
      }
    }
  }

  // A bandwidth request

  /** A request for the granularity-rounded maximum counts as the maximum. */
  function Corrected(t: Tunnel, request: nat): nat
    requires t.granularity > 0
  {
    if request == t.Rounded() then t.max else request
  }

  predicate TooHigh(t: Tunnel, request: nat)
    requires t.granularity > 0
  {
    Corrected(t, request) > t.Rounded()
  }

  predicate Shrinks(t: Tunnel, request: nat)
    requires t.granularity > 0
  {
    !TooHigh(t, request) && Corrected(t, request) <= t.Consumed()
  }

  predicate Grows(t: Tunnel, request: nat, available: int, reserved: int)
    requires t.granularity > 0
  {
    !TooHigh(t, request) && !Shrinks(t, request) && available + reserved >= Corrected(t, request)
  }

  /** What a shrinking tunnel leaves to its group. */
  function Spared(t: Tunnel, request: nat): nat
    requires t.granularity > 0
  {
    if t.mode && t.Consumed() > request then t.Consumed() - request else 0
  }

  /** What a growing tunnel takes from its group. */
  function Taken(request: nat, available: int): int
  {
    if request > available then request - available else 0
  }

  /**
   * What becomes of the hardware accesses of a request: the tunnel is active and
   * its allocation readable, its maximum is, the links are, the new allocation
   * is written, and the old one is written again after a failure.
   */
  datatype Io = Io(active: bool, maximum: bool, links: bool, written: bool, rewritten: bool)

  datatype Outcome = Outcome(tunnel: Tunnel, reserved: int, ret: Ret)

  /** Refusing a request writes the old allocation again; `rewritten` tells whether that worked. */
  function Refused(t: Tunnel, rewritten: bool): Tunnel
    requires t.granularity > 0
  {
    if rewritten then t.Write(t.Consumed()) else t
  }

  /** tb_alloc_dp_bandwidth, with the bandwidth that is available. */
  function Decide(t: Tunnel, reserved: int, request: nat, available: int, io: Io): Outcome
    requires t.granularity > 0
  {
    if !io.active then
      Outcome(t, reserved, EIo)
    else if !io.maximum then
      Outcome(Refused(t, io.rewritten), reserved, EIo)
    else if TooHigh(t, request) then
      Outcome(Refused(t, io.rewritten), reserved, ENoBufs)
    else if Shrinks(t, request) then
      if io.written then Outcome(t.Write(request), reserved + Spared(t, request), Ok)
      else Outcome(Refused(t, io.rewritten), reserved + Spared(t, request), EIo)
    else if !io.links then
      Outcome(Refused(t, io.rewritten), reserved, EIo)
    else if Grows(t, request, available, reserved) then
      if io.written then Outcome(t.Write(request), reserved - Taken(request, available), Ok)
      else Outcome(Refused(t, io.rewritten), reserved - Taken(request, available), EIo)
    else
      Outcome(Refused(t, io.rewritten), reserved, ENoBufs)
  }

  /** A request that spares bandwidth, but is not written. */
  predicate Unwritten(t: Tunnel, request: nat, io: Io)
    requires t.granularity > 0
  {
    io.active && io.maximum && !io.written && Shrinks(t, request) && Spared(t, request) > 0
  }

  /** A request that takes the growing branch. */
  predicate Growing(t: Tunnel, request: nat, available: int, reserved: int, io: Io)
    requires t.granularity > 0
  {
    io.active && io.maximum && io.links && Grows(t, request, available, reserved)
  }

  lemma WriteConsumes(c: Config, t: Tunnel, bw: nat)
    requires t.Ok(c)
    ensures t.Write(bw).Ok(c) && t.Write(bw).Consumed() == if bw >= t.Rounded() then t.max else bw
  {
  }

  lemma RefusedConsumes(c: Config, t: Tunnel, rewritten: bool)
    requires t.Ok(c)
    ensures Refused(t, rewritten).Ok(c) && Refused(t, rewritten).Consumed() <= t.Consumed()
    ensures t.mode ==> Refused(t, rewritten).Consumed() == t.Consumed()
  {
    WriteConsumes(c, t, t.Consumed());
  }

  /**
   * What a request comes to when all accesses succeed. It is granted exactly when
   * it is no more than the tunnel has, or than is available and reserved; then
   * the tunnel uses what it asked for. What a tunnel gives up goes to its group
   * to the last Mb/s, and what it gets beyond the available comes from there.
   */
  lemma GrantedRequest(c: Config, t: Tunnel, reserved: int, request: nat, available: nat, rewritten: bool)
    requires t.Ok(c)
    ensures var o := Decide(t, reserved, request, available, Io(true, true, true, true, rewritten));
            && (o.ret == Ok <==> Corrected(t, request) <= t.Rounded() &&
                                 (Corrected(t, request) <= t.Consumed() ||
                                       Corrected(t, request) <= available + reserved))
            && (o.ret == Ok ==> o.tunnel.Consumed() == Corrected(t, request) && o.tunnel.alloc == request)
            && (o.ret != Ok ==> o.tunnel.Consumed() <= t.Consumed() && o.reserved == reserved)
            && (t.mode && request != t.Rounded() && request <= t.Consumed() ==>
                  o.tunnel.Consumed() + o.reserved == t.Consumed() + reserved)
            && (o.ret == Ok && t.Consumed() < request <= available ==> o.reserved == reserved)
            && (o.ret == Ok && t.Consumed() < Corrected(t, request) && available <= request ==>
                  available - request == o.reserved - reserved)
  {
    WriteConsumes(c, t, request);
    RefusedConsumes(c, t, rewritten);
  }

  // The available bandwidth

  /** What the other tunnels and all reservations leave of a link. */
  ghost function Left(c: Config, ts: seq<Tunnel>, reserved: seq<int>, l: nat, down: bool, i: nat): int
    requires l in c.links
  {
    c.Cap(l) - UseBut(c, ts, l, down, i) - Held(reserved, Groups(c, ts, l), |reserved|)
  }

  ghost function Least(c: Config, ts: seq<Tunnel>, reserved: seq<int>, path: seq<nat>, down: bool, i: nat): int
    requires forall l | l in path :: l in c.links
  {
    if path == [] then LINK_LIMIT
    else
      var rest := Least(c, ts, reserved, path[..|path| - 1], down, i);
      var here := Left(c, ts, reserved, path[|path| - 1], down, i);
      if here < rest then here else rest
  }

  /** tb_available_bandwidth for tunnel `i`, or for a new one. */
  ghost function Offer(c: Config, ts: seq<Tunnel>, reserved: seq<int>, r: Route, i: nat): nat
    requires forall l | l in r.path :: l in c.links
  {
    var least := Least(c, ts, reserved, r.path, r.down, i);
    if least < 0 then 0 else least
  }

  lemma {:induction false} LeastIsLeast(c: Config, ts: seq<Tunnel>, reserved: seq<int>, path: seq<nat>, down: bool,
                                        i: nat, l: nat)
    requires (forall m | m in path :: m in c.links) && l in path
    ensures Least(c, ts, reserved, path, down, i) <= Left(c, ts, reserved, l, down, i)
    decreases |path|
  {
    if l != path[|path| - 1] {
      LeastIsLeast(c, ts, reserved, path[..|path| - 1], down, i, l);
    }
  }

  lemma GroupsOfWithin(c: Config, ts: seq<Tunnel>, l: nat, down: bool)
    ensures GroupsOf(c, ts, l, down) <= Groups(c, ts, l)
  {
  }

  /** The offer fits every link of the route, beside what it already carries. */
  lemma OfferFits(c: Config, ts: seq<Tunnel>, reserved: seq<int>, r: Route, i: nat, l: nat)
    requires c.Ok() && Safe(c, ts, reserved) && l in r.path && forall m | m in r.path :: m in c.links
    ensures var offer := Offer(c, ts, reserved, r, i);
            var own := if i < |ts| then Part(c, ts[i], l, r.down) else 0;
            offer == 0 || Load(c, ts, reserved, l, r.down) - own + offer <= c.Cap(l)
    ensures Load(c, ts, reserved, l, r.down) <= c.Cap(l)
  {
    assert Fits(c, ts, reserved, l, r.down);
    LeastIsLeast(c, ts, reserved, r.path, r.down, i, l);
    GroupsOfWithin(c, ts, l, r.down);
    HeldGrows(reserved, GroupsOf(c, ts, l, r.down), Groups(c, ts, l), |reserved|);
  }

  /** A decision frees bandwidth, or takes no more than the offer replaces. */
  lemma DecideTakes(c: Config, t: Tunnel, reserved: int, request: nat, available: nat, io: Io)
    requires t.Ok(c) && !Unwritten(t, request, io)
    ensures var o := Decide(t, reserved, request, available, io);
            var delta := o.tunnel.Consumed() - t.Consumed() + o.reserved - reserved;
            && o.tunnel.ends == t.ends && o.tunnel.group == t.group && o.tunnel.Ok(c)
            && (delta <= 0 || delta <= available - t.Consumed())
            && (reserved >= 0 ==>
                  (o.reserved >= 0 <==>
                        (Growing(t, request, available, reserved, io) ==> request <= available + reserved)))
  {
    WriteConsumes(c, t, request);
    RefusedConsumes(c, t, io.rewritten);
  }

  /**
   * Whatever is requested, a link stays within its capacity as long as a
   * shrinking request that spares bandwidth is also written; and the group's
   * reservation stays non-negative exactly when a growing request asks for no
   * more than is available and reserved.
   */
  lemma RequestIsSafe(c: Config, ts: seq<Tunnel>, reserved: seq<int>, i: nat, request: nat, io: Io)
    requires Grouped(c, ts, reserved) && Safe(c, ts, reserved) && i < |ts|
    requires !Unwritten(ts[i], request, io)
    ensures var t, g := ts[i], ts[i].group;
            var available := Offer(c, ts, reserved, c.routes[t.ends], i);
            var o := Decide(t, reserved[g], request, available, io);
            && o.tunnel.ends == t.ends && o.tunnel.group == g && o.tunnel.Ok(c)
            && (o.reserved >= 0 <==>
                  (Growing(t, request, available, reserved[g], io) ==> request <= available + reserved[g]))
            && AllFit(c, ts[i := o.tunnel], reserved[g := o.reserved])
            && (o.reserved >= 0 ==> Safe(c, ts[i := o.tunnel], reserved[g := o.reserved]))
  {
    var t, g, r := ts[i], ts[i].group, c.routes[ts[i].ends];
    var available := Offer(c, ts, reserved, r, i);
    var o := Decide(t, reserved[g], request, available, io);
    DecideTakes(c, t, reserved[g], request, available, io);
    var ts', reserved' := ts[i := o.tunnel], reserved[g := o.reserved];
    forall l: nat, down
      ensures Fits(c, ts', reserved', l, down)
    {
      LoadAfter(c, ts, reserved, i, o.tunnel, o.reserved, l, down);
      assert Fits(c, ts, reserved, l, down);
      if Flows(c, t, l, down) {
        OfferFits(c, ts, reserved, r, i, l);
      }
    }
  }

  /** Only the granularity-rounded maximum, when rounding changes it, can ask for too much. */
  lemma OnlyRoundedMaximum(t: Tunnel, request: nat, available: int, reserved: int)
    requires t.granularity > 0 && Grows(t, request, available, reserved)
    ensures request != t.Rounded() || t.max == t.Rounded() ==> request <= available + reserved
  {
  }

  /** 17280 Mb/s of which 100 are the group's, granularity 500: the reservation ends at -220. */
  lemma RoundedMaximumExample()
    ensures var t := Tunnel(0, 1, 17280, 500, 0, true, 0);
            Decide(t, 100, 17500, 17180, Io(true, true, true, true, true)).reserved == -220
  {
  }

  /**
   * A sparing request whose write fails reserves what is still in use: a link of
   * the tunnel stays within its capacity exactly when it had that much room.
   */
  lemma UnwrittenShrink(c: Config, ts: seq<Tunnel>, reserved: seq<int>, i: nat, request: nat, available: int,
                        io: Io, l: nat)
    requires Grouped(c, ts, reserved) && i < |ts| && l in c.routes[ts[i].ends].path
    requires Unwritten(ts[i], request, io)
    ensures var t, g, down := ts[i], ts[i].group, c.routes[ts[i].ends].down;
            var o := Decide(t, reserved[g], request, available, io);
            Fits(c, ts[i := o.tunnel], reserved[g := o.reserved], l, down) <==>
              Load(c, ts, reserved, l, down) + Spared(t, request) <= c.Cap(l)
  {
    var t, g, down := ts[i], ts[i].group, c.routes[ts[i].ends].down;
    var o := Decide(t, reserved[g], request, available, io);
    RefusedConsumes(c, t, io.rewritten);
    LoadAfter(c, ts, reserved, i, o.tunnel, o.reserved, l, down);
  }

  /** One symmetric link of 40 Gb/s, 36 Gb/s within the guard band, and one route over it. */
  const ONE_LINK := Config(map[0 := Link(20, 2, false)], map[0 := Route([0], true)])

  const NOTHING: seq<int> := [0, 0, 0, 0, 0, 0, 0, 0]

  /** The only tunnel of that link. */
  lemma OneTunnel(t: Tunnel)
    requires t.Ok(ONE_LINK) && t.ends == 0 && t.Consumed() <= 36000
    ensures ONE_LINK.Cap(0) == 36000
    ensures Grouped(ONE_LINK, [t], NOTHING) && Safe(ONE_LINK, [t], NOTHING)
    ensures Load(ONE_LINK, [t], NOTHING, 0, true) == t.Consumed()
  {
    var c := ONE_LINK;
    forall l: nat, down
      ensures Load(c, [t], NOTHING, l, down) == if Flows(c, t, l, down) then t.Consumed() else 0
    {
      NothingHeld(NOTHING, GroupsOf(c, [t], l, down), |NOTHING|);
      assert [t][..0] == [];
      assert Use(c, [t], l, down) == Use(c, [], l, down) + Part(c, t, l, down);
    }
    forall l: nat, down
      ensures Fits(c, [t], NOTHING, l, down)
    {
      assert Load(c, [t], NOTHING, l, down) <= 36000;
    }
    forall i: nat, j: nat
      ensures SameEnds([t], i, j)
    {
    }
    forall g: nat
      ensures Owned([t], NOTHING, g)
    {
    }
  }

  /** 25920 Mb/s in use, none asked for, and no write: 51840 Mb/s are promised on 36000. */
  lemma UnwrittenShrinkExample(rewritten: bool)
    ensures var t := Tunnel(0, 1, 25920, 1, 0, true, 25920);
            var o := Decide(t, 0, 0, 0, Io(true, true, true, false, rewritten));
            && Grouped(ONE_LINK, [t], NOTHING) && Safe(ONE_LINK, [t], NOTHING)
            && o.tunnel.Consumed() + o.reserved == 51840
            && !Safe(ONE_LINK, [t][0 := o.tunnel], NOTHING[1 := o.reserved])
  {
    var t := Tunnel(0, 1, 25920, 1, 0, true, 25920);
    OneTunnel(t);
    UnwrittenShrink(ONE_LINK, [t], NOTHING, 0, 0, 0, Io(true, true, true, false, rewritten), 0);
  }

  // Tunnels that come and go

  lemma GroupedReleased(c: Config, ts: seq<Tunnel>, reserved: seq<int>, g: nat)
    requires Grouped(c, ts, reserved) && g < |reserved|
    ensures Grouped(c, ts, reserved[g := 0])
  {
    var reserved' := reserved[g := 0];
    forall k: nat
      ensures Owned(ts, reserved', k)
    {
      assert Owned(ts, reserved, k);
    }
  }

  lemma SafeReleased(c: Config, ts: seq<Tunnel>, reserved: seq<int>, g: nat)
    requires Safe(c, ts, reserved) && g < |reserved|
    ensures Safe(c, ts, reserved[g := 0])
  {
    var reserved' := reserved[g := 0];
    forall l: nat, down
      ensures Fits(c, ts, reserved', l, down)
    {
      assert Fits(c, ts, reserved, l, down);
      HeldUpdate(reserved, GroupsOf(c, ts, l, down), g, 0, |reserved|);
    }
  }

  lemma {:induction false} NothingHeld(reserved: seq<int>, groups: set<nat>, n: nat)
    requires n <= |reserved| && forall g | 0 <= g < |reserved| :: reserved[g] == 0
    ensures Held(reserved, groups, n) == 0
    decreases n
  {
    if n > 0 {
      NothingHeld(reserved, groups, n - 1);
    }
  }

  lemma SafeRemoved(c: Config, ts: seq<Tunnel>, reserved: seq<int>, i: nat)
    requires Safe(c, ts, reserved) && i < |ts|
    ensures Safe(c, Without(ts, i), reserved)
  {
    var ts' := Without(ts, i);
    forall l: nat, down
      ensures Fits(c, ts', reserved, l, down)
    {
      assert Fits(c, ts, reserved, l, down);
      UseRemove(c, ts, i, l, down);
      assert forall t | t in ts' :: t in ts;
      assert GroupsOf(c, ts', l, down) <= GroupsOf(c, ts, l, down);
      HeldGrows(reserved, GroupsOf(c, ts', l, down), GroupsOf(c, ts, l, down), |reserved|);
    }
  }

  /** Without its last tunnel a group must also lose its reservation. */
  lemma GroupedRemoved(c: Config, ts: seq<Tunnel>, reserved: seq<int>, i: nat)
    requires Grouped(c, ts, reserved) && i < |ts|
    ensures var ts', g := Without(ts, i), ts[i].group;
            Grouped(c, ts', if InUse(ts', g) then reserved else reserved[g := 0])
  {
    var ts', g := Without(ts, i), ts[i].group;
    var reserved' := if InUse(ts', g) then reserved else reserved[g := 0];
    forall j: nat, k: nat
      ensures SameEnds(ts', j, k)
    {
      assert SameEnds(ts, if j < i then j else j + 1, if k < i then k else k + 1);
    }
    forall k: nat
      ensures Owned(ts', reserved', k)
    {
      assert Owned(ts, reserved, k);
      if k != g && InUse(ts, k) {
        var j :| 0 <= j < |ts| && ts[j].group == k;
        assert ts'[if j < i then j else j - 1].group == k;
      }
    }
  }

  /** A group for new tunnels between `ends`: theirs, or one that nobody uses. */
  ghost predicate FreeFor(ts: seq<Tunnel>, g: nat, ends: nat)
  {
    1 <= g <= MAX_GROUPS && forall i | 0 <= i < |ts| && ts[i].group == g :: ts[i].ends == ends
  }

  lemma GroupedAdded(c: Config, ts: seq<Tunnel>, reserved: seq<int>, t: Tunnel)
    requires Grouped(c, ts, reserved) && t.Ok(c) && FreeFor(ts, t.group, t.ends)
    ensures Grouped(c, ts + [t], reserved)
  {
    var ts' := ts + [t];
    forall j: nat, k: nat
      ensures SameEnds(ts', j, k)
    {
      assert SameEnds(ts, j, k);
    }
    forall k: nat
      ensures Owned(ts', reserved, k)
    {
      assert Owned(ts, reserved, k);
      if InUse(ts, k) {
        var j :| 0 <= j < |ts| && ts[j].group == k;
        assert ts'[j].group == k;
      }
    }
  }

  lemma LoadAdded(c: Config, ts: seq<Tunnel>, reserved: seq<int>, t: Tunnel, l: nat, down: bool)
    requires Grouped(c, ts, reserved) && t.Ok(c) && FreeFor(ts, t.group, t.ends)
    ensures Load(c, ts + [t], reserved, l, down) ==
            Load(c, ts, reserved, l, down) + if Flows(c, t, l, down) then t.Consumed() else 0
  {
    UseAdd(c, ts, t, l, down);
    var before, after := GroupsOf(c, ts, l, down), GroupsOf(c, ts + [t], l, down);
    if Flows(c, t, l, down) {
      assert after == before + {t.group};
      if InUse(ts, t.group) {
        var j: nat :| j < |ts| && ts[j].group == t.group;
        assert ts[j] in ts && Flows(c, ts[j], l, down);
        assert after == before;
      } else {
        assert Owned(ts, reserved, t.group);
        HeldIgnores(reserved, before, t.group, |reserved|);
      }
    } else {
      assert after == before;
    }
  }

  /** Beyond the offer, a link of the new tunnel stays within its capacity exactly when it had the room. */
  lemma EstablishedFits(c: Config, ts: seq<Tunnel>, reserved: seq<int>, t: Tunnel, l: nat)
    requires Grouped(c, ts, reserved) && t.Ok(c) && FreeFor(ts, t.group, t.ends) && l in c.routes[t.ends].path
    ensures var down := c.routes[t.ends].down;
            Fits(c, ts + [t], reserved, l, down) <==> Load(c, ts, reserved, l, down) + t.Consumed() <= c.Cap(l)
  {
    LoadAdded(c, ts, reserved, t, l, c.routes[t.ends].down);
  }

  /** 36000 Mb/s in use on 36000: nothing is on offer, and any other tunnel overruns the link. */
  lemma NoOfferExample(u: Tunnel)
    requires u.Ok(ONE_LINK) && u.ends == 0 && u.group == 1 && u.Consumed() > 0
    ensures var t := Tunnel(0, 1, 36000, 1, 36000, false, 0);
            && Grouped(ONE_LINK, [t], NOTHING) && Safe(ONE_LINK, [t], NOTHING) && FreeFor([t], 1, 0)
            && Offer(ONE_LINK, [t], NOTHING, ONE_LINK.routes[0], 1) == 0
            && !Safe(ONE_LINK, [t] + [u], NOTHING)
  {
    var t := Tunnel(0, 1, 36000, 1, 36000, false, 0);
    OneTunnel(t);
    EstablishedFits(ONE_LINK, [t], NOTHING, u, 0);
    NothingHeld(NOTHING, Groups(ONE_LINK, [t], 0), |NOTHING|);
    NothingHeld(NOTHING, GroupsOf(ONE_LINK, [t], 0, true), |NOTHING|);
    assert [0][..0] == [];
    assert Left(ONE_LINK, [t], NOTHING, 0, true, 1) == 0;
    assert Least(ONE_LINK, [t], NOTHING, [0], true, 1) == 0;
  }

  /** A new tunnel that keeps to the offer is safe. */
  lemma EstablishIsSafe(c: Config, ts: seq<Tunnel>, reserved: seq<int>, t: Tunnel)
    requires Grouped(c, ts, reserved) && Safe(c, ts, reserved) && t.Ok(c) && FreeFor(ts, t.group, t.ends)
    requires t.Consumed() <= Offer(c, ts, reserved, c.routes[t.ends], |ts|)
    ensures Safe(c, ts + [t], reserved)
  {
    var ts', r := ts + [t], c.routes[t.ends];
    forall l: nat, down
      ensures Fits(c, ts', reserved, l, down)
    {
      LoadAdded(c, ts, reserved, t, l, down);
      assert Fits(c, ts, reserved, l, down);
      if Flows(c, t, l, down) {
        OfferFits(c, ts, reserved, r, |ts|, l);
      }
    }
  }

  // Reducing a DP link to what is there

  /** Rate per lane in Mb/s and lanes. */
  const DP_BW: seq<(nat, nat)> :=
    [(8100, 4), (5400, 4), (8100, 2), (2700, 4), (5400, 2), (8100, 1),
     (1620, 4), (5400, 1), (2700, 2), (1620, 2), (2700, 1), (1620, 1)]

  /** tb_dp_bandwidth */
  function Bandwidth(rate: nat, lanes: nat): nat
  {
    if rate >= 10000 then rate * lanes * 128 / 132 else rate * lanes * 8 / 10
  }

  datatype Caps = Caps(rate: nat, lanes: nat)

  predicate Supported(combination: (nat, nat), caps: Caps)
  {
    combination.0 <= caps.rate && combination.1 <= caps.lanes
  }

  predicate Suits(k: nat, maxBw: nat, dpIn: Caps, dpOut: Caps)
    requires k < |DP_BW|
  {
    Supported(DP_BW[k], dpOut) && Supported(DP_BW[k], dpIn) && Bandwidth(DP_BW[k].0, DP_BW[k].1) <= maxBw
  }

  lemma {:induction false} TableDescends(j: nat, k: nat)
    requires j <= k < |DP_BW|
    ensures Bandwidth(DP_BW[k].0, DP_BW[k].1) <= Bandwidth(DP_BW[j].0, DP_BW[j].1)
    decreases k - j
  {
    if j < k {
      TableDescends(j, k - 1);
      assert Bandwidth(DP_BW[k].0, DP_BW[k].1) <= Bandwidth(DP_BW[k - 1].0, DP_BW[k - 1].1);
    }
  }

  /** tb_dp_reduce_bandwidth: the most that suits both adapters and the limit. */
  method ReduceBandwidth(maxBw: nat, dpIn: Caps, dpOut: Caps) returns (r: Option<Caps>)
    ensures r.None? <==> forall k | 0 <= k < |DP_BW| :: !Suits(k, maxBw, dpIn, dpOut)
    ensures r.Some? ==>
              && Bandwidth(r.value.rate, r.value.lanes) <= maxBw
              && r.value.rate <= dpIn.rate && r.value.rate <= dpOut.rate
              && r.value.lanes <= dpIn.lanes && r.value.lanes <= dpOut.lanes
              && forall k | 0 <= k < |DP_BW| && Suits(k, maxBw, dpIn, dpOut) ::
                   Bandwidth(DP_BW[k].0, DP_BW[k].1) <= Bandwidth(r.value.rate, r.value.lanes)
  {
    for i := 0 to |DP_BW|
      invariant forall k | 0 <= k < i :: !Suits(k, maxBw, dpIn, dpOut)
    {
      if Supported(DP_BW[i], dpOut) && Supported(DP_BW[i], dpIn) {
        if Bandwidth(DP_BW[i].0, DP_BW[i].1) <= maxBw {
          forall k | i <= k < |DP_BW|
            ensures Bandwidth(DP_BW[k].0, DP_BW[k].1) <= Bandwidth(DP_BW[i].0, DP_BW[i].1)
          {
            TableDescends(i, k);
          }
          assert Suits(i, maxBw, dpIn, dpOut);
          return Some(Caps(DP_BW[i].0, DP_BW[i].1));
        }
      }
    }
    r := None;
  }

  /** The write of a sparing request succeeds, and no request is the maximum changed by rounding. */
  predicate Regular(t: Tunnel, request: nat, io: Io)
    requires t.granularity > 0
  {
    && !Unwritten(t, request, io)
    && (request == t.Rounded() ==> request == t.max)
  }

  // The connection manager

  lemma GroupsSnoc(c: Config, ts: seq<Tunnel>, t: Tunnel, l: nat)
    ensures Groups(c, ts + [t], l) == Groups(c, ts, l) + if Crosses(c, t, l) then {t.group} else {}
  {
    var after := Groups(c, ts + [t], l);
    assert forall u | u in ts :: u in ts + [t];
    assert t in ts + [t];
    assert forall u | u in ts + [t] :: u in ts || u == t;
  }

  class Manager {
    const c: Config
    /** tcm->tunnel_list, the DP tunnels of it. */
    var tunnels: seq<Tunnel>
    /** group->reserved, by Group_ID; entry 0 is not used. */
    var reserved: seq<int>

    ghost predicate Valid()
      reads this
    {
      Grouped(c, tunnels, reserved)
    }

    ghost predicate Sound()
      reads this
    {
      Safe(c, tunnels, reserved)
    }

    constructor (c: Config)
      requires c.Ok() && forall l | l in c.links :: c.Cap(l) >= 0
      ensures Valid() && Sound() && tunnels == [] && this.c == c
    {
      this.c := c;
      tunnels := [];
      reserved := seq(MAX_GROUPS + 1, _ => 0);
      new;
      forall l: nat, down
        ensures Fits(c, tunnels, reserved, l, down)
      {
        NothingHeld(reserved, GroupsOf(c, [], l, down), |reserved|);
      }
    }

    /** tb_consumed_dp_bandwidth: the other tunnels, and every group over the link once. */
    method ConsumedDp(l: nat, down: bool, i: nat) returns (n: int)
      requires Valid() && l in c.links
      ensures c.Cap(l) - n == Left(c, tunnels, reserved, l, down, i)
    {
      var groupReserved: seq<int> := seq(MAX_GROUPS + 1, _ => 0);
      n := 0;
      for k := 0 to |tunnels|
        invariant |groupReserved| == |reserved|
        invariant forall g | 0 <= g < |reserved| ::
                    groupReserved[g] == if g in Groups(c, tunnels[..k], l) then reserved[g] else 0
        invariant n == UseBut(c, tunnels[..k], l, down, i)
      {
        var t := tunnels[k];
        assert tunnels[..k + 1] == tunnels[..k] + [t];
        GroupsSnoc(c, tunnels[..k], t, l);
        UseAdd(c, tunnels[..k], t, l, down);
        if Crosses(c, t, l) {
          if reserved[t.group] != 0 && groupReserved[t.group] == 0 {
            groupReserved := groupReserved[t.group := reserved[t.group]];
          }
          if k != i && c.routes[t.ends].down == down {
            n := n + t.Consumed();
          }
        }
      }
      assert tunnels[..|tunnels|] == tunnels;
      ghost var use := n;
      for g := 0 to |groupReserved|
        invariant n == use + Held(reserved, Groups(c, tunnels, l), g)
      {
        n := n + groupReserved[g];
      }
    }

    /** tb_available_bandwidth on links that stay symmetric and carry no USB 3.x. */
    method Available(r: Route, i: nat) returns (available: nat)
      requires Valid() && forall l | l in r.path :: l in c.links
      ensures available == Offer(c, tunnels, reserved, r, i)
    {
      var least := LINK_LIMIT;
      for k := 0 to |r.path|
        invariant least == Least(c, tunnels, reserved, r.path[..k], r.down, i)
      {
        assert r.path[..k + 1][..k] == r.path[..k];
        var consumed := ConsumedDp(r.path[k], r.down, i);
        var left := c.Cap(r.path[k]) - consumed;
        if left < least {
          least := left;
        }
      }
      assert r.path[..|r.path|] == r.path;
      available := if least < 0 then 0 else least;
    }

    /**
     * tb_alloc_dp_bandwidth for tunnel `i`; `io` is what becomes of the reads
     * and writes.
     */
    method AllocDp(i: nat, request: nat, io: Io) returns (ret: Ret, ghost o: Outcome)
      requires Valid() && i < |tunnels|
      modifies this
      ensures Valid()
      ensures var t := old(tunnels[i]);
              var available := old(Offer(c, tunnels, reserved, c.routes[tunnels[i].ends], i));
              && o == Decide(t, old(reserved[t.group]), request, available, io) && ret == o.ret
              && tunnels == old(tunnels)[i := o.tunnel] && reserved == old(reserved)[t.group := o.reserved]
      ensures old(Sound()) && Regular(old(tunnels[i]), request, io) ==> Sound()
    {
      var t := tunnels[i];
      var g, current := t.group, t.Consumed();
      var corrected := if request == t.Rounded() then t.max else request;
      ghost var available0 := Offer(c, tunnels, reserved, c.routes[t.ends], i);
      o := Decide(t, reserved[g], request, available0, io);
      Keeps(i, request, io);
      if !io.active {
        assert reserved == old(reserved)[g := o.reserved] && tunnels == old(tunnels)[i := o.tunnel];
        return EIo, o;
      }
      if !io.maximum {
        ret := EIo;
      } else if corrected > t.Rounded() {
        ret := ENoBufs;
      } else if corrected <= current {
        if t.mode && current > request {
          reserved := reserved[g := reserved[g] + current - request];
        }
        ret := if io.written then Ok else EIo;
      } else if !io.links {
        ret := EIo;
      } else {
        var available := Available(c.routes[t.ends], i);
        if available + reserved[g] >= corrected {
          ret := if io.written then Ok else EIo;
          if request > available {
            reserved := reserved[g := reserved[g] - (request - available)];
          }
        } else {
          ret := ENoBufs;
        }
      }
      assert ret == o.ret;
      assert reserved == old(reserved)[g := o.reserved];
      if ret == Ok {
        tunnels := tunnels[i := t.Write(request)];
      } else if io.rewritten {
        tunnels := tunnels[i := t.Write(current)];
      }
      assert tunnels == old(tunnels)[i := o.tunnel];
    }

    lemma Keeps(i: nat, request: nat, io: Io)
      requires Valid() && i < |tunnels|
      ensures var t := tunnels[i];
              var o := Decide(t, reserved[t.group], request, Offer(c, tunnels, reserved, c.routes[t.ends], i), io);
              && Grouped(c, tunnels[i := o.tunnel], reserved[t.group := o.reserved])
              && (Sound() && Regular(t, request, io) ==>
                    Safe(c, tunnels[i := o.tunnel], reserved[t.group := o.reserved]))
    {
      var t := tunnels[i];
      var available := Offer(c, tunnels, reserved, c.routes[t.ends], i);
      var o := Decide(t, reserved[t.group], request, available, io);
      WriteConsumes(c, t, request);
      RefusedConsumes(c, t, io.rewritten);
      GroupedAfter(c, tunnels, reserved, i, o.tunnel, o.reserved);
      if Sound() && Regular(t, request, io) {
        RequestIsSafe(c, tunnels, reserved, i, request, io);
      }
    }

    /** tb_bandwidth_group_release_work */
    method ReleaseGroup(g: nat)
      requires Valid() && 1 <= g <= MAX_GROUPS
      modifies `reserved
      ensures Valid() && reserved == old(reserved)[g := 0] && (old(Sound()) ==> Sound())
    {
      GroupedReleased(c, tunnels, reserved, g);
      if Sound() {
        SafeReleased(c, tunnels, reserved, g);
      }
      if reserved[g] != 0 {
        reserved := reserved[g := 0];
      }
    }

    /** tb_deactivate_and_free_tunnel with tb_detach_bandwidth_group. */
    method Detach(i: nat)
      requires Valid() && i < |tunnels|
      modifies this
      ensures Valid() && tunnels == Without(old(tunnels), i) && (old(Sound()) ==> Sound())
      ensures var g := old(tunnels[i].group);
              reserved == if InUse(tunnels, g) then old(reserved) else old(reserved)[g := 0]
    {
      var g := tunnels[i].group;
      GroupedRemoved(c, tunnels, reserved, i);
      if Sound() {
        SafeRemoved(c, tunnels, reserved, i);
      }
      tunnels := tunnels[..i] + tunnels[i + 1..];
      if forall k | 0 <= k < |tunnels| :: tunnels[k].group != g {
        if old(Sound()) {
          SafeReleased(c, tunnels, reserved, g);
        }
        reserved := reserved[g := 0];
      }
    }

    /** tb_attach_bandwidth_group: the group of the tunnels between the same routers, or an unused one. */
    method AttachGroup(ends: nat) returns (g: Option<nat>)
      requires Valid()
      ensures g.Some? ==> FreeFor(tunnels, g.value, ends)
      ensures g.None? <==> (forall k | 0 <= k < |tunnels| :: tunnels[k].ends != ends)
                           && (forall n: nat | 1 <= n <= MAX_GROUPS :: InUse(tunnels, n))
      ensures (exists k :: 0 <= k < |tunnels| && tunnels[k].ends == ends) ==>
                g.Some? && exists k :: 0 <= k < |tunnels| && tunnels[k].ends == ends && tunnels[k].group == g.value
    {
      for i := 0 to |tunnels|
        invariant forall k | 0 <= k < i :: tunnels[k].ends != ends
      {
        if tunnels[i].ends == ends {
          forall k: nat | k < |tunnels| && tunnels[k].group == tunnels[i].group
            ensures tunnels[k].ends == ends
          {
            assert SameEnds(tunnels, i, k);
          }
          return Some(tunnels[i].group);
        }
      }
      for n := 1 to MAX_GROUPS + 1
        invariant forall m: nat | 1 <= m < n :: InUse(tunnels, m)
      {
        if forall k | 0 <= k < |tunnels| :: tunnels[k].group != n {
          assert !InUse(tunnels, n);
          return Some(n);
        }
      }
      g := None;
    }

    /**
     * tb_tunnel_one_dp with tb_dp_xchg_caps: a new tunnel gets what its adapters
     * can do, reduced to the offer. An offer of zero reads as no limit. `activated`
     * is what becomes of the rest of the activation.
     */
    method Establish(ends: nat, max: nat, granularity: nat, dpIn: Caps, dpOut: Caps, activated: bool)
      returns (ok: bool, ghost offer: nat)
      requires Valid() && ends in c.routes && granularity > 0
      modifies this
      ensures Valid() && offer == old(Offer(c, tunnels, reserved, c.routes[ends], |tunnels|))
      ensures reserved == old(reserved) && (!ok ==> tunnels == old(tunnels)) && (ok ==> activated)
      ensures ok ==> |tunnels| > 0 && tunnels == old(tunnels) + [tunnels[|tunnels| - 1]]
                     && tunnels[|tunnels| - 1].ends == ends
      ensures ok && offer > 0 ==> tunnels[|tunnels| - 1].Consumed() <= offer
      ensures ok && offer == 0 ==> tunnels[|tunnels| - 1].Consumed() == Bandwidth(dpOut.rate, dpOut.lanes)
      ensures old(Sound()) && (offer > 0 || Bandwidth(dpOut.rate, dpOut.lanes) == 0) ==> Sound()
    {
      offer := Offer(c, tunnels, reserved, c.routes[ends], |tunnels|);
      var g := AttachGroup(ends);
      if g.None? {
        return false, offer;
      }
      var available := Available(c.routes[ends], |tunnels|);
      var bw, fits := Bandwidth(dpOut.rate, dpOut.lanes), true;
      if available != 0 && bw > available {
        var reduced := ReduceBandwidth(available, dpIn, dpOut);
        if reduced.None? {
          fits := false;
        } else {
          bw := Bandwidth(reduced.value.rate, reduced.value.lanes);
        }
      }
      if !fits || !activated {
        DetachUnused(g.value);
        return false, offer;
      }
      var t := Tunnel(ends, g.value, max, granularity, bw, false, 0);
      GroupedAdded(c, tunnels, reserved, t);
      if Sound() && bw <= available {
        EstablishIsSafe(c, tunnels, reserved, t);
      }
      tunnels := tunnels + [t];
      ok := true;
    }

    /** tb_detach_bandwidth_group for an adapter whose tunnel did not come up: it leaves no trace. */
    method DetachUnused(g: nat)
      requires Valid() && 1 <= g <= MAX_GROUPS
      modifies `reserved
      ensures reserved == old(reserved)
    {
      if forall k | 0 <= k < |tunnels| :: tunnels[k].group != g {
        assert Owned(tunnels, reserved, g);
        reserved := reserved[g := 0];
        assert reserved == old(reserved);
      }
    }

    /**
     * Whether a step of a run is one the ledger is sound for: a regular request,
     * or a new tunnel while something is on offer.
     */
    ghost predicate Admissible(e: Event)
      requires Valid()
      reads this
    {
      match e
      case Request(i, request, io) =>
        i < |tunnels| ==> Regular(tunnels[i], request, io)
      case SetUp(ends, _, _, _, _, _) =>
        ends in c.routes ==> Offer(c, tunnels, reserved, c.routes[ends], |tunnels|) > 0
      case _ => true
    }

    method Perform(e: Event)
      requires Valid()
      modifies this
      ensures Valid() && (old(Sound() && Admissible(e)) ==> Sound())
    {
      match e
      case Request(i, request, io) =>
        if i < |tunnels| {
          var _, _ := AllocDp(i, request, io);
        }
      case Release(g) =>
        if 1 <= g <= MAX_GROUPS {
          ReleaseGroup(g);
        }
      case Leave(i) =>
        if i < |tunnels| {
          Detach(i);
        }
      case SetUp(ends, max, granularity, dpIn, dpOut, activated) =>
        if ends in c.routes && granularity > 0 {
          var _, _ := Establish(ends, max, granularity, dpIn, dpOut, activated);
        }
    }

    /** Every run of new tunnels, requests, releases and departures keeps every link within its capacity. */
    method Run(events: seq<Event>) returns (ghost admissible: bool)
      requires Valid() && Sound()
      modifies this
      ensures Valid() && (admissible ==> Sound())
      ensures admissible ==>
                && (forall l, down | l in c.links :: Load(c, tunnels, reserved, l, down) <= c.Cap(l))
                && (forall g | 0 <= g < |reserved| :: reserved[g] >= 0)
    {
      admissible := true;
      for k := 0 to |events|
        invariant Valid() && (admissible ==> Sound())
      {
        admissible := admissible && Admissible(events[k]);
        Perform(events[k]);
      }
      if admissible {
        forall l: nat, down | l in c.links
          ensures Load(c, tunnels, reserved, l, down) <= c.Cap(l)
        {
          assert Fits(c, tunnels, reserved, l, down);
        }
      }
    }
  }

  datatype Event =
    | Request(tunnel: nat, bandwidth: nat, io: Io)
    | Release(group: nat)
    | Leave(tunnel: nat)
    | SetUp(ends: nat, max: nat, granularity: nat, dpIn: Caps, dpOut: Caps, activated: bool)
}
