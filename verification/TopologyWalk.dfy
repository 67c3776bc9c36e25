/** Walking from one port to another through a tree of routers, steered only by
    the masked comparison of route strings. */
module TopologyWalk {
  import opened Options

  /** A router is named by the port numbers on the way to it from the host router. */
  type Id = seq<nat>

  datatype Port = Port(sw: Id, num: nat)

  /** What the walk reads of a port: the other end of the link and the second lane. */
  datatype Lane = Lane(remote: Option<Port>, dual: Option<nat>, link: nat)

  datatype Router = Router(upstream: nat, ports: seq<Lane>)

  type Topology = map<Id, Router>

  const MAX_DEPTH := 7

  // ------------------------------------------------------------------
  // Route strings
  // ------------------------------------------------------------------

  predicate ValidId(id: Id) {
    |id| <= MAX_DEPTH && forall i :: 0 <= i < |id| ==> 0 < id[i] < 256
  }

  /** The 64-bit route string: byte d is the port to leave the router at depth d by. */
  function Route(id: Id): (r: nat)
  {
    if id == [] then 0 else id[0] + 256 * Route(id[1..])
  }

  /** 1ULL << (8 * d) */
  function Shift(d: nat): (p: nat)
    ensures p > 0
  {
    if d == 0 then 1 else 256 * Shift(d - 1)
  }

  /** tb_switch_is_reachable: masking with (1ULL << 8 * depth) - 1 is the remainder below. */
  predicate Reachable(parent: Id, sw: Id) {
    Route(parent) % Shift(|parent|) == Route(sw) % Shift(|parent|)
  }

  /** The port number tb_port_at takes from a route for the router sw. */
  function PortByte(route: nat, sw: Id): (b: nat)
  {
    route / Shift(|sw|) % 256
  }

  lemma DivModUnique(r: nat, m: nat, u: nat, w: nat)
    requires r == m * u + w && w < m
    ensures r / m == u && r % m == w
  {
    var q, v := r / m, r % m;
    assert r == m * q + v;
    MulStep(m, u, q);
    MulStep(m, q, u);
  }

  lemma MulStep(m: nat, a: nat, b: nat)
    ensures a < b ==> m * a + m <= m * b
  {
    if a < b {
      var d: nat := b - a - 1;
      MulSum(m, a, d);
    }
  }

  lemma MulSum(m: nat, a: nat, d: nat)
    ensures m * (a + 1 + d) == m * a + m + m * d && m * d >= 0
  {
  }

  /** Taking the remainder by one more byte peels off the lowest byte. */
  lemma PeelByte(r: nat, p: nat)
    requires p > 0
    ensures r % (256 * p) == r % 256 + 256 * (r / 256 % p)
    ensures r / (256 * p) == r / 256 / p
  {
    var b, q := r % 256, r / 256;
    var u, v := q / p, q % p;
    assert q == p * u + v;
    assert r == 256 * q + b;
    assert 256 * (p * u) == 256 * p * u;
    assert 256 * v + b < 256 * p;
    DivModUnique(r, 256 * p, u, 256 * v + b);
  }

  lemma RouteHead(id: Id)
    requires ValidId(id) && id != []
    ensures Route(id) % 256 == id[0] && Route(id) / 256 == Route(id[1..])
    ensures ValidId(id[1..])
  {
  }

  /** The masked route test holds exactly for the routers below parent, and parent itself. */
  lemma {:induction false} ReachableIffDescendant(parent: Id, sw: Id)
    requires ValidId(parent) && ValidId(sw)
    ensures Reachable(parent, sw) <==> parent <= sw
    decreases |parent|
  {
    if parent != [] {
      RouteHead(parent);
      PeelByte(Route(parent), Shift(|parent| - 1));
      PeelByte(Route(sw), Shift(|parent| - 1));
      if sw != [] {
        RouteHead(sw);
        ReachableIffDescendant(parent[1..], sw[1..]);
        assert parent <= sw <==> parent[0] == sw[0] && parent[1..] <= sw[1..] by {
          assert parent == [parent[0]] + parent[1..] && sw == [sw[0]] + sw[1..];
        }
      }
    }
  }

  /** tb_downstream_route: the port number goes into the byte at the router's depth, which is
      still clear, so the bitwise or is a sum; with at most seven bytes it fits 64 bits. */
  lemma {:induction false} DownstreamRoute(id: Id, port: nat)
    requires forall i :: 0 <= i < |id| ==> 0 < id[i] < 256
    ensures Route(id) < Shift(|id|)
    ensures Route(id + [port]) == Route(id) + port * Shift(|id|)
    ensures |id| <= MAX_DEPTH ==> Shift(|id|) < 0x1_0000_0000_0000_0000
    decreases |id|
  {
    if id != [] {
      DownstreamRoute(id[1..], port);
      assert (id + [port])[1..] == id[1..] + [port];
      assert port * (256 * Shift(|id| - 1)) == 256 * (port * Shift(|id| - 1));
      ShiftFits(|id|);
    } else {
      assert [port][1..] == [] && id + [port] == [port];
      assert Route([port]) == port + 256 * Route([]);
    }
  }

  lemma ShiftFits(d: nat)
    ensures d <= MAX_DEPTH ==> Shift(d) < 0x1_0000_0000_0000_0000
  {
    if d <= MAX_DEPTH {
      assert Shift(0) == 1;
      assert Shift(1) == 0x100;
      assert Shift(2) == 0x1_0000;
      assert Shift(3) == 0x100_0000;
      assert Shift(4) == 0x1_0000_0000;
      assert Shift(5) == 0x100_0000_0000;
      assert Shift(6) == 0x1_0000_0000_0000;
      assert Shift(7) == 0x100_0000_0000_0000;
    }
  }

  /** Below a router, the port byte of a route names the child that leads on. */
  lemma {:induction false} PortByteLeadsOn(sw: Id, below: Id)
    requires ValidId(below) && sw < below
    ensures PortByte(Route(below), sw) == below[|sw|]
    decreases |sw|
  {
    RouteHead(below);
    if sw != [] {
      PeelByte(Route(below), Shift(|sw| - 1));
      PortByteLeadsOn(sw[1..], below[1..]);
    } else {
      assert Route(below) / 1 == Route(below);
    }
  }

  // ------------------------------------------------------------------
  // Well-formed trees
  // ------------------------------------------------------------------

  predicate Has(t: Topology, p: Port) {
    p.sw in t && p.num < |t[p.sw].ports|
  }

  function LaneOf(t: Topology, p: Port): Lane
    requires Has(t, p)
  {
    t[p.sw].ports[p.num]
  }

  /** tb_upstream_port */
  function Upstream(t: Topology, sw: Id): Port
    requires sw in t
  {
    Port(sw, t[sw].upstream)
  }

  /** tb_is_upstream_port: both lanes of a dual link count. */
  predicate IsUpstream(t: Topology, p: Port)
    requires Has(t, p)
  {
    p.num == t[p.sw].upstream || LaneOf(t, p).dual == Some(t[p.sw].upstream)
  }

  function Parent(id: Id): Id
    requires id != []
  {
    id[..|id| - 1]
  }

  /** The port of the parent that the route names for this router. */
  function ParentPort(id: Id): Port
    requires id != []
  {
    Port(Parent(id), id[|id| - 1])
  }

  /** The two lanes of a dual link name each other. */
  ghost predicate DualOk(ports: seq<Lane>, k: nat)
    requires k < |ports|
  {
    ports[k].dual.Some? ==>
      var j := ports[k].dual.value;
      j < |ports| && j != k && ports[j].dual == Some(k)
  }

  ghost predicate RouterOk(t: Topology, id: Id)
    requires id in t
  {
    var r := t[id];
    && ValidId(id)
    && r.upstream < |r.ports|
    && forall k :: 0 <= k < |r.ports| ==> DualOk(r.ports, k)
  }

  /** The port lies on the link from the parent to this router, on either lane. */
  ghost predicate OnLinkDown(t: Topology, id: Id, p: Port)
    requires id != [] && Has(t, p) && Has(t, ParentPort(id))
  {
    p.sw == Parent(id) && (p == ParentPort(id) || LaneOf(t, ParentPort(id)).dual == Some(p.num))
  }

  ghost predicate LinkOk(t: Topology, id: Id)
    requires id in t && id != []
  {
    && Has(t, ParentPort(id))
    && LaneOf(t, ParentPort(id)).remote.Some?
    && (forall p {:trigger OnLinkDown(t, id, p)} :: Has(t, p) && OnLinkDown(t, id, p) ==>
          && !IsUpstream(t, p)
          && (LaneOf(t, p).remote.Some? ==>
                var q := LaneOf(t, p).remote.value;
                q.sw == id && Has(t, q) && IsUpstream(t, q) && LaneOf(t, q).remote == Some(p)))
    && (forall q {:trigger IsUpstream(t, q)} :: Has(t, q) && q.sw == id && IsUpstream(t, q) ==>
          && LaneOf(t, q).remote.Some?
          && (var p := LaneOf(t, q).remote.value;
              Has(t, p) && OnLinkDown(t, id, p) && LaneOf(t, p).remote == Some(q)))
  }

  ghost predicate WellFormed(t: Topology) {
    && [] in t
    && (forall id {:trigger RouterOk(t, id)} :: id in t ==> RouterOk(t, id))
    && (forall id {:trigger LinkOk(t, id)} :: id in t && id != [] ==> LinkOk(t, id))
  }

  // ------------------------------------------------------------------
  // tb_next_port_on_path
  // ------------------------------------------------------------------

  function NextPort(t: Topology, start: Port, end: Port, prev: Option<Port>): (next: Option<Port>)
    requires WellFormed(t) && Has(t, end) && (prev.Some? ==> Has(t, prev.value))
  {
    if prev.None? then Some(start)
    else
      var p := prev.value;
      if p.sw == end.sw then
        if p == end then None else Some(end)
      else
        var next :=
          if Reachable(p.sw, end.sw) then
            var down := Port(p.sw, PortByte(Route(end.sw), p.sw));
            DownPortExists(t, p.sw, end.sw);
            if LaneOf(t, p).remote.Some? && (down == p || LaneOf(t, down).dual == Some(p.num))
            then LaneOf(t, p).remote
            else Some(down)
          else if IsUpstream(t, p) then LaneOf(t, p).remote
          else
            var up := Upstream(t, p.sw);
            assert RouterOk(t, p.sw);
            if LaneOf(t, up).dual.Some? && LaneOf(t, up).link != LaneOf(t, p).link
            then Some(Port(p.sw, LaneOf(t, up).dual.value))
            else Some(up);
        if next != Some(p) then next else None
  }

  lemma {:induction false} AncestorsPresent(t: Topology, sw: Id, n: nat)
    requires WellFormed(t) && sw in t && n <= |sw|
    ensures sw[..n] in t
    decreases |sw|
  {
    if n < |sw| {
      assert LinkOk(t, sw);
      AncestorsPresent(t, Parent(sw), n);
      assert Parent(sw)[..n] == sw[..n];
    } else {
      assert sw[..n] == sw;
    }
  }

  /** On the way down the route names a port that exists and leads to the next router. */
  lemma DownPortExists(t: Topology, sw: Id, end: Id)
    requires WellFormed(t) && sw in t && end in t && sw != end && Reachable(sw, end)
    ensures sw < end
    ensures PortByte(Route(end), sw) == end[|sw|]
    ensures end[..|sw| + 1] in t && ParentPort(end[..|sw| + 1]) == Port(sw, end[|sw|])
    ensures Has(t, Port(sw, end[|sw|]))
  {
    assert RouterOk(t, sw) && RouterOk(t, end);
    ReachableIffDescendant(sw, end);
    PortByteLeadsOn(sw, end);
    AncestorsPresent(t, end, |sw| + 1);
    assert Parent(end[..|sw| + 1]) == sw;
    assert LinkOk(t, end[..|sw| + 1]);
  }

  // ------------------------------------------------------------------
  // Distance in the tree
  // ------------------------------------------------------------------

  /** Length of the longest common prefix: the depth of the lowest common ancestor. */
  function Common(a: Id, b: Id): (n: nat)
    ensures n <= |a| && n <= |b|
  {
    if a == [] || b == [] || a[0] != b[0] then 0 else 1 + Common(a[1..], b[1..])
  }

  lemma {:induction false} CommonIsLowest(a: Id, b: Id)
    ensures a[..Common(a, b)] == b[..Common(a, b)]
    ensures Common(a, b) < |a| && Common(a, b) < |b| ==> a[Common(a, b)] != b[Common(a, b)]
    decreases |a|
  {
    if a != [] && b != [] && a[0] == b[0] {
      CommonIsLowest(a[1..], b[1..]);
      var n := Common(a[1..], b[1..]);
      assert a[..n + 1] == [a[0]] + a[1..][..n];
      assert b[..n + 1] == [b[0]] + b[1..][..n];
    }
  }

  lemma CommonUnique(a: Id, b: Id, n: nat)
    requires n <= |a| && n <= |b| && a[..n] == b[..n]
    requires n < |a| && n < |b| ==> a[n] != b[n]
    ensures Common(a, b) == n
  {
    CommonIsLowest(a, b);
    var m := Common(a, b);
    forall i | 0 <= i < m || 0 <= i < n
      ensures i < |a| && i < |b| && a[i] == b[i]
    {
      assert i < m ==> a[..m][i] == b[..m][i];
      assert i < n ==> a[..n][i] == b[..n][i];
    }
  }

  lemma CommonSymmetric(a: Id, b: Id)
    ensures Common(a, b) == Common(b, a)
  {
    CommonIsLowest(a, b);
    CommonUnique(b, a, Common(a, b));
  }

  lemma CommonUp(a: Id, b: Id)
    requires a != [] && !(a <= b)
    ensures Common(a, b) < |a| && Common(Parent(a), b) == Common(a, b)
  {
    CommonIsLowest(a, b);
    var n := Common(a, b);
    assert a[..|a|] == a;
    assert Parent(a)[..n] == a[..n];
    assert n < |a| - 1 ==> Parent(a)[n] == a[n];
    CommonUnique(Parent(a), b, n);
  }

  lemma CommonDown(a: Id, b: Id)
    requires a < b
    ensures Common(a, b) == |a| && Common(b[..|a| + 1], b) == |a| + 1
  {
    CommonUnique(a, b, |a|);
    CommonUnique(b[..|a| + 1], b, |a| + 1);
  }

  function Distance(a: Id, b: Id): (d: nat)
  {
    |a| + |b| - 2 * Common(a, b)
  }

  /** The next router on the way from a to b: the parent until a is above b, then the child. */
  function Toward(a: Id, b: Id): (c: Id)
    requires a != b
  {
    if a <= b then b[..|a| + 1] else Parent(a)
  }

  lemma TowardIsCloser(a: Id, b: Id)
    requires a != b
    ensures Distance(Toward(a, b), b) == Distance(a, b) - 1
  {
    if a <= b {
      CommonDown(a, b);
    } else {
      CommonUp(a, b);
    }
  }

  // ------------------------------------------------------------------
  // The walk
  // ------------------------------------------------------------------

  /** The port is the one through which the walk leaves its router. */
  ghost predicate Leaving(t: Topology, end: Id, p: Port)
    requires WellFormed(t) && Has(t, p) && end in t && p.sw != end
  {
    && LaneOf(t, p).remote.Some?
    && if p.sw <= end then OnWayDown(t, end, p) else IsUpstream(t, p)
  }

  ghost predicate OnWayDown(t: Topology, end: Id, p: Port)
    requires WellFormed(t) && Has(t, p) && end in t && p.sw < end
  {
    AncestorsPresent(t, end, |p.sw| + 1);
    assert LinkOk(t, end[..|p.sw| + 1]);
    OnLinkDown(t, end[..|p.sw| + 1], p)
  }

  lemma LinkDown(t: Topology, id: Id, p: Port)
    requires WellFormed(t) && id in t && id != [] && Has(t, ParentPort(id))
    requires Has(t, p) && OnLinkDown(t, id, p) && LaneOf(t, p).remote.Some?
    ensures Has(t, LaneOf(t, p).remote.value) && LaneOf(t, p).remote.value.sw == id
  {
    assert LinkOk(t, id);
  }

  lemma LinkUp(t: Topology, q: Port)
    requires WellFormed(t) && Has(t, q) && q.sw != [] && IsUpstream(t, q)
    ensures LaneOf(t, q).remote.Some?
    ensures Has(t, LaneOf(t, q).remote.value) && LaneOf(t, q).remote.value.sw == Parent(q.sw)
  {
    assert LinkOk(t, q.sw);
  }

  lemma DualOf(t: Topology, p: Port, j: nat)
    requires WellFormed(t) && Has(t, p) && LaneOf(t, p).dual == Some(j)
    ensures Has(t, Port(p.sw, j)) && LaneOf(t, Port(p.sw, j)).dual == Some(p.num) && j != p.num
  {
    assert RouterOk(t, p.sw);
    assert DualOk(t[p.sw].ports, p.num);
  }

  /** What one step does: reach the leaving port of this router, or cross its link. */
  ghost predicate StepOk(t: Topology, end: Port, p: Port, next: Option<Port>)
    requires WellFormed(t) && Has(t, p) && Has(t, end) && p.sw != end.sw
  {
    && next.Some? && Has(t, next.value) && next.value != p
    && if Leaving(t, end.sw, p)
       then LaneOf(t, p).remote == next && next.value.sw == Toward(p.sw, end.sw)
       else next.value.sw == p.sw && Leaving(t, end.sw, next.value)
  }

  lemma NextDown(t: Topology, end: Port, p: Port)
    requires WellFormed(t) && Has(t, p) && Has(t, end) && p.sw < end.sw
    ensures end.sw[..|p.sw| + 1] in t && Has(t, ParentPort(end.sw[..|p.sw| + 1]))
    ensures var child := end.sw[..|p.sw| + 1];
            var down := ParentPort(child);
            && down.sw == p.sw
            && NextPort(t, p, end, Some(p)) ==
               if LaneOf(t, p).remote.Some? && (down == p || LaneOf(t, down).dual == Some(p.num))
               then (if LaneOf(t, p).remote == Some(p) then None else LaneOf(t, p).remote)
               else if down == p then None else Some(down)
  {
    assert RouterOk(t, p.sw) && RouterOk(t, end.sw);
    ReachableIffDescendant(p.sw, end.sw);
    DownPortExists(t, p.sw, end.sw);
  }

  lemma StepDown(t: Topology, end: Port, p: Port)
    requires WellFormed(t) && Has(t, p) && Has(t, end) && p.sw != end.sw && p.sw <= end.sw
    ensures StepOk(t, end, p, NextPort(t, p, end, Some(p)))
  {
    NextDown(t, end, p);
    var child := end.sw[..|p.sw| + 1];
    var down := ParentPort(child);
    assert LaneOf(t, down).remote.Some? by {
      assert LinkOk(t, child);
    }
    assert OnLinkDown(t, child, p) <==> down == p || LaneOf(t, down).dual == Some(p.num);
    if Leaving(t, end.sw, p) {
      LinkDown(t, child, p);
    } else {
      assert OnLinkDown(t, child, down);
    }
  }

  lemma StepUp(t: Topology, end: Port, p: Port)
    requires WellFormed(t) && Has(t, p) && Has(t, end) && !(p.sw <= end.sw)
    ensures StepOk(t, end, p, NextPort(t, p, end, Some(p)))
  {
    assert RouterOk(t, p.sw) && RouterOk(t, end.sw);
    ReachableIffDescendant(p.sw, end.sw);
    var next := NextPort(t, p, end, Some(p));
    if IsUpstream(t, p) {
      LinkUp(t, p);
      assert next == LaneOf(t, p).remote;
    } else {
      var up := Upstream(t, p.sw);
      LinkUp(t, up);
      if next != Some(up) {
        DualOf(t, up, LaneOf(t, up).dual.value);
        LinkUp(t, next.value);
      }
    }
  }

  /** Twice the distance left, plus one while the leaving port is still to be reached. */
  ghost function Remaining(t: Topology, end: Port, p: Port): nat
    requires WellFormed(t) && Has(t, p) && Has(t, end)
  {
    if p.sw == end.sw then (if p == end then 0 else 1)
    else 2 * Distance(p.sw, end.sw) + (if Leaving(t, end.sw, p) then 0 else 1)
  }

  lemma StepProgress(t: Topology, end: Port, p: Port)
    requires WellFormed(t) && Has(t, p) && Has(t, end)
    ensures p == end <==> NextPort(t, p, end, Some(p)) == None
    ensures p != end ==> var n := NextPort(t, p, end, Some(p)).value;
                         Has(t, n) && Remaining(t, end, n) < Remaining(t, end, p)
    ensures p != end ==> var n := NextPort(t, p, end, Some(p)).value;
                         if n.sw == p.sw then n != p else LaneOf(t, p).remote == Some(n) && n.sw == Toward(p.sw, end.sw)
  {
    if p.sw != end.sw {
      TowardIsCloser(p.sw, end.sw);
      if p.sw <= end.sw {
        StepDown(t, end, p);
      } else {
        StepUp(t, end, p);
      }
    }
  }

  /** Everything tb_for_each_port_on_path visits from p on; that it is a function says it ends. */
  ghost function Walk(t: Topology, end: Port, p: Port): (ws: seq<Port>)
    requires WellFormed(t) && Has(t, p) && Has(t, end)
    ensures ws != [] && ws[0] == p && forall w :: w in ws ==> Has(t, w)
    decreases Remaining(t, end, p)
  {
    StepProgress(t, end, p);
    var next := NextPort(t, p, end, Some(p));
    if next.None? then [p] else [p] + Walk(t, end, next.value)
  }

  /** The routers between a and b, down to their lowest common ancestor and up again. */
  ghost function RouterPath(a: Id, b: Id): (rs: seq<Id>)
    ensures rs != [] && rs[0] == a
    decreases Distance(a, b)
  {
    if a == b then [a]
    else
      TowardIsCloser(a, b);
      [a] + RouterPath(Toward(a, b), b)
  }

  /** The routers of a walk, each stay on a router counted once. */
  ghost function Routers(ws: seq<Port>): seq<Id> {
    if |ws| == 0 then []
    else if |ws| > 1 && ws[1].sw == ws[0].sw then Routers(ws[1..])
    else [ws[0].sw] + Routers(ws[1..])
  }

  /** Neighbours on the walk are two ports of one router or the two ends of a link. */
  ghost predicate Connected(t: Topology, ws: seq<Port>)
    requires forall w :: w in ws ==> Has(t, w)
  {
    forall i :: 0 < i < |ws| ==>
      if ws[i].sw == ws[i - 1].sw then ws[i] != ws[i - 1] else LaneOf(t, ws[i - 1]).remote == Some(ws[i])
  }

  /** The walk ends at its end port, over real links, through exactly the routers of the tree path. */
  lemma {:induction false} WalkFollowsTree(t: Topology, end: Port, p: Port)
    requires WellFormed(t) && Has(t, p) && Has(t, end)
    ensures var ws := Walk(t, end, p);
            ws[|ws| - 1] == end && Connected(t, ws) && Routers(ws) == RouterPath(p.sw, end.sw)
    decreases Remaining(t, end, p)
  {
    StepProgress(t, end, p);
    if p != end {
      var n := NextPort(t, p, end, Some(p)).value;
      WalkFollowsTree(t, end, n);
      var rest := Walk(t, end, n);
      assert ([p] + rest)[1..] == rest;
    }
  }

  /** The i-th router on the way: up to the lowest common ancestor, then down. */
  ghost function Place(a: Id, b: Id, i: nat): Id
    requires i <= Distance(a, b)
  {
    var c := Common(a, b);
    if i <= |a| - c then a[..|a| - i] else b[..c + (i - (|a| - c))]
  }

  lemma PlaceStep(a: Id, b: Id, i: nat)
    requires a != b && 0 < i <= Distance(a, b)
    ensures Distance(Toward(a, b), b) == Distance(a, b) - 1
    ensures Place(a, b, i) == Place(Toward(a, b), b, i - 1)
  {
    TowardIsCloser(a, b);
    if a <= b {
      CommonDown(a, b);
    } else {
      CommonUp(a, b);
    }
  }

  /** The tree path climbs to the lowest common ancestor and then descends. */
  lemma {:induction false} RouterPathShape(a: Id, b: Id, i: nat)
    requires i <= Distance(a, b)
    ensures |RouterPath(a, b)| == Distance(a, b) + 1
    ensures RouterPath(a, b)[i] == Place(a, b, i)
    decreases Distance(a, b)
  {
    assert a[..|a|] == a;
    if a == b {
      CommonUnique(a, b, |a|);
    } else {
      TowardIsCloser(a, b);
      RouterPathShape(Toward(a, b), b, if i == 0 then 0 else i - 1);
      if i > 0 {
        PlaceStep(a, b, i);
      }
    }
  }

  // ------------------------------------------------------------------
  // Single links: the exact list of ports, and the way back
  // ------------------------------------------------------------------

  ghost predicate SingleLinks(t: Topology) {
    forall p :: Has(t, p) ==> LaneOf(t, p).dual.None?
  }

  ghost function Reversed<T>(s: seq<T>): (r: seq<T>)
    ensures |r| == |s|
  {
    if s == [] then [] else Reversed(s[1..]) + [s[0]]
  }

  lemma {:induction false} ReversedAppend<T>(a: seq<T>, b: seq<T>)
    ensures Reversed(a + b) == Reversed(b) + Reversed(a)
    decreases |a|
  {
    if a == [] {
      assert a + b == b;
    } else {
      ReversedAppend(a[1..], b);
      assert (a + b)[1..] == a[1..] + b;
    }
  }

  lemma {:induction false} ReversedTwice<T>(a: seq<T>)
    ensures Reversed(Reversed(a)) == a
    decreases |a|
  {
    if a != [] {
      ReversedTwice(a[1..]);
      ReversedAppend(Reversed(a[1..]), [a[0]]);
      assert Reversed([a[0]]) == [a[0]];
    }
  }

  lemma ReversedEnds<T>(a: seq<T>)
    requires a != []
    ensures Reversed(a)[0] == a[|a| - 1] && Reversed(a)[|a| - 1] == a[0]
  {
    assert a == a[..|a| - 1] + [a[|a| - 1]];
    ReversedAppend(a[..|a| - 1], [a[|a| - 1]]);
    assert Reversed([a[|a| - 1]]) == [a[|a| - 1]];
  }

  /** tb_upstream_port, also defined for routers outside the tree. */
  ghost function Up(t: Topology, sw: Id): Port {
    if sw in t then Upstream(t, sw) else Port(sw, 0)
  }

  /** The two ports of every link from a up to its ancestor at depth l. */
  ghost function Climb(t: Topology, a: Id, l: nat): (hops: seq<Port>)
    decreases |a|
  {
    if |a| <= l then [] else [Up(t, a), ParentPort(a)] + Climb(t, Parent(a), l)
  }

  lemma {:induction false} ClimbLast(t: Topology, a: Id, l: nat)
    requires l < |a|
    ensures Climb(t, a, l) == Climb(t, a, l + 1) + [Up(t, a[..l + 1]), ParentPort(a[..l + 1])]
    decreases |a|
  {
    if l + 1 == |a| {
      assert a[..l + 1] == a;
      assert Climb(t, Parent(a), l) == [];
      assert Climb(t, a, l + 1) == [];
    } else {
      ClimbLast(t, Parent(a), l);
      assert Parent(a)[..l + 1] == a[..l + 1];
      var first := [Up(t, a), ParentPort(a)];
      assert Climb(t, a, l) == first + Climb(t, Parent(a), l);
      assert Climb(t, a, l + 1) == first + Climb(t, Parent(a), l + 1);
    }
  }

  /** All link ports between two routers: up to the lowest common ancestor, then down. */
  ghost function TreeHops(t: Topology, a: Id, b: Id): (hops: seq<Port>)
  {
    Climb(t, a, Common(a, b)) + Reversed(Climb(t, b, Common(a, b)))
  }

  /** Link ports with the end ports added, unless they are link ports of the path themselves. */
  ghost function WithEnds(s: Port, h: seq<Port>, e: Port): seq<Port> {
    if h == [] then (if s == e then [s] else [s, e])
    else (if h[0] == s then [] else [s]) + h + (if h[|h| - 1] == e then [] else [e])
  }

  /** The ports from s to e. */
  ghost function TreePath(t: Topology, s: Port, e: Port): seq<Port> {
    WithEnds(s, TreeHops(t, s.sw, e.sw), e)
  }

  lemma ReversedShort<T>(a: seq<T>)
    requires |a| <= 1
    ensures Reversed(a) == a
  {
    if a != [] {
      assert Reversed(a[1..]) == [];
    }
  }

  lemma ReversedThree<T>(front: seq<T>, h: seq<T>, back: seq<T>)
    requires |front| <= 1 && |back| <= 1
    ensures Reversed(front + h + back) == back + Reversed(h) + front
  {
    ReversedAppend(front + h, back);
    ReversedAppend(front, h);
    ReversedShort(front);
    ReversedShort(back);
    assert back + (Reversed(h) + front) == back + Reversed(h) + front;
  }

  lemma WithEndsReverses(s: Port, h: seq<Port>, e: Port)
    ensures Reversed(WithEnds(s, h, e)) == WithEnds(e, Reversed(h), s)
  {
    if h == [] {
      ReversedThree([s], [], [e]);
      ReversedShort([s]);
      assert [s] + [] + [e] == [s, e] && [e] + [] + [s] == [e, s];
    } else {
      ReversedEnds(h);
      ReversedThree(if h[0] == s then [] else [s], h, if h[|h| - 1] == e then [] else [e]);
    }
  }

  lemma TreeHopsReverse(t: Topology, a: Id, b: Id)
    ensures Reversed(TreeHops(t, a, b)) == TreeHops(t, b, a)
  {
    var c := Common(a, b);
    CommonSymmetric(a, b);
    ReversedAppend(Climb(t, a, c), Reversed(Climb(t, b, c)));
    ReversedTwice(Climb(t, b, c));
  }

  /** Read backwards, the tree path from s to e is the tree path from e to s. */
  lemma TreePathReverses(t: Topology, s: Port, e: Port)
    ensures Reversed(TreePath(t, s, e)) == TreePath(t, e, s)
  {
    TreeHopsReverse(t, s.sw, e.sw);
    WithEndsReverses(s, TreeHops(t, s.sw, e.sw), e);
  }

  /** The two ports of the link from a towards b. */
  ghost function FirstLink(t: Topology, a: Id, b: Id): (hop: seq<Port>)
    requires a != b
    ensures |hop| == 2
  {
    if a <= b then [ParentPort(b[..|a| + 1]), Up(t, b[..|a| + 1])] else [Up(t, a), ParentPort(a)]
  }

  /** The first link of the tree path, and what is left of the path behind it. */
  lemma TreeHopsStep(t: Topology, a: Id, b: Id)
    requires a != b
    ensures TreeHops(t, a, b) == FirstLink(t, a, b) + TreeHops(t, Toward(a, b), b)
  {
    if a <= b {
      CommonDown(a, b);
      ClimbLast(t, b, |a|);
      var child := b[..|a| + 1];
      var last := [Up(t, child), ParentPort(child)];
      ReversedAppend(Climb(t, b, |a| + 1), last);
      assert last[1..] == [ParentPort(child)] && Reversed([ParentPort(child)]) == [ParentPort(child)];
      assert Reversed(last) == [ParentPort(child), Up(t, child)];
      assert Climb(t, a, |a|) == [] && Climb(t, child, |a| + 1) == [];
    } else {
      CommonUp(a, b);
      var c := Common(a, b);
      var rest := Reversed(Climb(t, b, c));
      assert Climb(t, a, c) == FirstLink(t, a, b) + Climb(t, Parent(a), c);
      assert FirstLink(t, a, b) + Climb(t, Parent(a), c) + rest == FirstLink(t, a, b) + (Climb(t, Parent(a), c) + rest);
    }
  }

  /** A single link joins the upstream port of a router to the port its route names. */
  lemma SingleLink(t: Topology, id: Id)
    requires WellFormed(t) && SingleLinks(t) && id in t && id != []
    ensures Parent(id) in t && Has(t, ParentPort(id)) && Has(t, Upstream(t, id))
    ensures !IsUpstream(t, ParentPort(id))
    ensures LaneOf(t, ParentPort(id)).remote == Some(Upstream(t, id))
    ensures LaneOf(t, Upstream(t, id)).remote == Some(ParentPort(id))
  {
    assert RouterOk(t, id) && LinkOk(t, id);
    var p, q := ParentPort(id), Upstream(t, id);
    assert LaneOf(t, q).dual.None?;
    assert OnLinkDown(t, id, p) && IsUpstream(t, q);
    LinkDown(t, id, p);
  }

  /** With single links the first link port is the one way out of a router. */
  lemma OneWayOut(t: Topology, b: Id, p: Port)
    requires WellFormed(t) && SingleLinks(t) && Has(t, p) && b in t && p.sw != b
    ensures Leaving(t, b, p) <==> p == FirstLink(t, p.sw, b)[0]
    ensures Leaving(t, b, p) ==> LaneOf(t, p).remote == Some(FirstLink(t, p.sw, b)[1])
  {
    var a := p.sw;
    if a <= b {
      AncestorsPresent(t, b, |a| + 1);
      var child := b[..|a| + 1];
      assert Parent(child) == a;
      SingleLink(t, child);
    } else {
      SingleLink(t, a);
    }
  }

  /** Having crossed a link, the walk does not stand on the next way out yet. */
  lemma ArrivedNotLeaving(t: Topology, a: Id, b: Id)
    requires WellFormed(t) && SingleLinks(t) && a in t && b in t && a != b && Toward(a, b) != b
    ensures FirstLink(t, a, b)[1] != FirstLink(t, Toward(a, b), b)[0]
  {
    var c := Toward(a, b);
    if a <= b {
      AncestorsPresent(t, b, |c| + 1);
      AncestorsPresent(t, b, |c|);
      var grandchild := b[..|c| + 1];
      assert Parent(grandchild) == c;
      SingleLink(t, grandchild);
    } else {
      SingleLink(t, a);
      if c <= b {
        assert a == c + [a[|a| - 1]];
        assert b[..|c| + 1] == c + [b[|c|]];
      }
    }
  }

  /** With single links, the walk visits exactly the ports of the tree path, in order. */
  lemma {:induction false} WalkIsTreePath(t: Topology, end: Port, p: Port)
    requires WellFormed(t) && SingleLinks(t) && Has(t, p) && Has(t, end)
    ensures Walk(t, end, p) == TreePath(t, p, end)
    decreases Remaining(t, end, p)
  {
    StepProgress(t, end, p);
    var a, b := p.sw, end.sw;
    if a == b {
      CommonUnique(a, b, |a|);
      assert TreeHops(t, a, b) == [];
      if p != end {
        WalkIsTreePath(t, end, end);
      }
    } else {
      var n := NextPort(t, p, end, Some(p)).value;
      WalkIsTreePath(t, end, n);
      TreeHopsStep(t, a, b);
      OneWayOut(t, b, p);
      StepShape(t, end, p);
      if Leaving(t, b, p) {
        CrossedPath(t, p, n, end);
      } else {
        OneWayOut(t, b, n);
      }
    }
  }

  lemma StepShape(t: Topology, end: Port, p: Port)
    requires WellFormed(t) && Has(t, p) && Has(t, end) && p.sw != end.sw
    ensures StepOk(t, end, p, NextPort(t, p, end, Some(p)))
  {
    if p.sw <= end.sw {
      StepDown(t, end, p);
    } else {
      StepUp(t, end, p);
    }
  }

  lemma CrossedPath(t: Topology, p: Port, n: Port, end: Port)
    requires WellFormed(t) && SingleLinks(t) && Has(t, p) && Has(t, n) && Has(t, end) && p.sw != end.sw
    requires n.sw == Toward(p.sw, end.sw) && [p, n] == FirstLink(t, p.sw, end.sw)
    ensures TreePath(t, p, end) == [p] + TreePath(t, n, end)
  {
    var a, b := p.sw, end.sw;
    TreeHopsStep(t, a, b);
    var rest := TreeHops(t, n.sw, b);
    if n.sw == b {
      CommonUnique(b, b, |b|);
    } else {
      ArrivedNotLeaving(t, a, b);
      TreeHopsStep(t, n.sw, b);
    }
    CrossedEnds(p, n, rest, end);
  }

  lemma CrossedEnds(p: Port, n: Port, rest: seq<Port>, e: Port)
    requires rest == [] || rest[0] != n
    ensures WithEnds(p, [p, n] + rest, e) == [p] + WithEnds(n, rest, e)
  {
    if rest == [] {
      assert [p, n] + rest == [p, n];
    } else {
      var back := if rest[|rest| - 1] == e then [] else [e];
      assert [] + ([p, n] + rest) + back == [p] + ([n] + rest + back);
    }
  }

  /** With single links, walking from end to start visits the same ports backwards. */
  lemma WalkBackReverses(t: Topology, start: Port, end: Port)
    requires WellFormed(t) && SingleLinks(t) && Has(t, start) && Has(t, end)
    ensures Walk(t, start, end) == Reversed(Walk(t, end, start))
  {
    WalkIsTreePath(t, end, start);
    WalkIsTreePath(t, start, end);
    TreePathReverses(t, start, end);
  }
}
