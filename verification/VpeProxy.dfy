/**
 * The doorbell proxy of GICv4.0 vPEs.
 *
 * Without DirectLPI the driver borrows the events of one spare ITS device to
 * reach the doorbells of resident vPEs. The slots are handed out round robin;
 * a vPE that needs a slot may push another one out.
 */
module VpeProxy {
  import opened Options

  /** What the slots hold, on values: the reference the class is proved against. */
  datatype Slots = Slots(vpes: seq<Option<nat>>, next: nat)
  {
    ghost predicate Ok()
    {
      && next < |vpes|
      && forall i, j | 0 <= i < |vpes| && 0 <= j < |vpes| && vpes[i].Some? && vpes[i] == vpes[j] :: i == j
    }

    ghost predicate Holds(v: nat)
    {
      Some(v) in vpes
    }
  }

  lemma SmallModulo(i: nat, n: nat)
    requires i < n
    ensures i % n == i
  {
  }

  /** One slot further, round robin. */
  function Next(i: nat, n: nat): (r: nat)
    requires i < n
    ensures r == if i + 1 < n then i + 1 else 0
  {
    assert i + 1 < n ==> (i + 1) % n == i + 1 by {
      if i + 1 < n {
        SmallModulo(i + 1, n);
      }
    }
    (i + 1) % n
  }

  ghost function Mapped(s: Slots, v: nat): Slots
    requires s.Ok()
  {
    if s.Holds(v) then s else Slots(s.vpes[s.next := Some(v)], Next(s.next, |s.vpes|))
  }

  ghost function Unmapped(s: Slots, e: nat): Slots
    requires s.Ok() && e < |s.vpes|
  {
    var vpes := s.vpes[e := None];
    Slots(vpes, if vpes[s.next].Some? then e else s.next)
  }

  /** A stream of requests, none of them an unmap. */
  ghost function MappedAll(s: Slots, requests: seq<nat>): (r: Slots)
    requires s.Ok()
    ensures r.Ok() && |r.vpes| == |s.vpes|
    decreases |requests|
  {
    if requests == [] then s else MappedAll(Mapped(s, requests[0]), requests[1..])
  }

  /** A mapping gives the vPE a slot and pushes out at most the vPE at next_victim. */
  lemma MappedHolds(s: Slots, v: nat)
    requires s.Ok()
    ensures Mapped(s, v).Ok() && Mapped(s, v).Holds(v)
    ensures forall w: nat | s.Holds(w) && Some(w) != s.vpes[s.next] :: Mapped(s, v).Holds(w)
  {
    var t := Mapped(s, v);
    if !s.Holds(v) {
      assert t.vpes[s.next] == Some(v);
      forall w: nat | s.Holds(w) && Some(w) != s.vpes[s.next]
        ensures t.Holds(w)
      {
        var i :| 0 <= i < |s.vpes| && s.vpes[i] == Some(w);
        assert t.vpes[i] == Some(w);
      }
    }
  }

  /** How many requests may still miss before slot `e` is next. */
  ghost function Distance(s: Slots, e: nat): nat
    requires s.Ok() && e < |s.vpes|
  {
    if s.next <= e then e - s.next else e + |s.vpes| - s.next
  }

  lemma Approaches(s: Slots, v: nat, e: nat)
    requires s.Ok() && e < |s.vpes| && Distance(s, e) > 0
    ensures Mapped(s, v).Ok()
    ensures Distance(Mapped(s, v), e) >= Distance(s, e) - 1
    ensures Mapped(s, v).vpes[e] == s.vpes[e]
  {
    MappedHolds(s, v);
  }

  /**
   * Round robin: a slot is not taken away before as many requests have come in
   * as there were slots in front of it, whatever the requests are.
   */
  lemma {:induction false} KeptUntilItsTurn(s: Slots, requests: seq<nat>, e: nat)
    requires s.Ok() && e < |s.vpes| && |requests| <= Distance(s, e)
    ensures MappedAll(s, requests).vpes[e] == s.vpes[e]
    decreases |requests|
  {
    if requests != [] {
      Approaches(s, requests[0], e);
      KeptUntilItsTurn(Mapped(s, requests[0]), requests[1..], e);
    }
  }

  /** In particular a vPE just mapped survives the next N - 1 requests. */
  lemma FreshEntrySurvives(s: Slots, v: nat, requests: seq<nat>)
    requires s.Ok() && !s.Holds(v) && |requests| < |s.vpes|
    ensures Mapped(s, v).Ok() && MappedAll(Mapped(s, v), requests).Holds(v)
  {
    MappedHolds(s, v);
    var t := Mapped(s, v);
    assert Distance(t, s.next) == |s.vpes| - 1;
    KeptUntilItsTurn(t, requests, s.next);
    assert MappedAll(t, requests).vpes[s.next] == Some(v);
  }

  // The size of the proxy

  function Pow2(k: nat): (r: nat)
    ensures r >= 1 && (k > 0 ==> r >= 2)
  {
    if k == 0 then 1 else 2 * Pow2(k - 1)
  }

  /** roundup_pow_of_two: the least power of two that is not smaller. */
  method RoundUpPow2(n: nat) returns (p: nat)
    requires n >= 1
    ensures exists k :: p == Pow2(k)
    ensures n <= p < 2 * n
    ensures n == 1 <==> p == 1
  {
    p := 1;
    ghost var k := 0;
    while p < n
      invariant p == Pow2(k)
      invariant p < 2 * n
      invariant p == 1 || n > 1
    {
      p := 2 * p;
      k := k + 1;
      assert p == Pow2(k);
    }
  }

  function Ites(entries: nat, idBits: nat): nat
  {
    var capped := if entries <= Pow2(idBits) then entries else Pow2(idBits);
    if capped < 2 then 2 else capped
  }

  /** After the start-up check the array and the proxy device have the same size, except on a single CPU. */
  lemma SizesAgree(entries: nat, idBits: nat)
    requires 1 <= entries <= Ites(entries, idBits)
    ensures Ites(entries, idBits) == entries <==> entries != 1
  {
  }

  /**
   * The array has `entries` slots and next_victim wraps at `ites`: it stays
   * inside the array, from every slot, exactly when the two agree.
   */
  lemma IndexStaysInside(entries: nat, ites: nat)
    requires 1 <= entries <= ites
    ensures (forall i: nat | i < entries :: Next(i, ites) < entries) <==> entries == ites
  {
    if entries != ites {
      assert Next(entries - 1, ites) == entries;
    }
  }

  /** On a single CPU the array has one slot, and after its first use next_victim is 1. */
  lemma SingleCpuLeavesTheArray(idBits: nat)
    ensures 1 <= Ites(1, idBits) && Ites(1, idBits) == 2 && Next(0, Ites(1, idBits)) == 1
  {
  }

  datatype Entry = Entry(lpi: nat, col: nat)

  datatype Command = Inv | Int | Clear

  // What the driver's arrays, the vPEs and the ITS agree on

  ghost predicate HasSlot(vpes: seq<Option<nat>>, event: map<nat, int>, v: nat)
  {
    v in event ==> event[v] == -1 || (0 <= event[v] < |vpes| && vpes[event[v]] == Some(v))
  }

  ghost predicate SlotOk(vpes: seq<Option<nat>>, cols: seq<nat>, event: map<nat, int>, table: map<int, Entry>,
                         dbLpi: map<nat, nat>, e: int)
  {
    0 <= e < |vpes| == |cols| ==>
      && (vpes[e].None? <==> e !in table)
      && (vpes[e].Some? ==>
            && vpes[e].value in event && event[vpes[e].value] == e
            && vpes[e].value in dbLpi && table[e] == Entry(dbLpi[vpes[e].value], cols[e]))
  }

  ghost predicate Agree(vpes: seq<Option<nat>>, cols: seq<nat>, event: map<nat, int>, table: map<int, Entry>,
                        dbLpi: map<nat, nat>)
  {
    && |vpes| == |cols|
    && (forall v: nat {:trigger HasSlot(vpes, event, v)} :: HasSlot(vpes, event, v))
    && (forall e: int {:trigger SlotOk(vpes, cols, event, table, dbLpi, e)} ::
          SlotOk(vpes, cols, event, table, dbLpi, e))
  }

  lemma DropKeeps(vpes: seq<Option<nat>>, cols: seq<nat>, event: map<nat, int>, table: map<int, Entry>,
                  dbLpi: map<nat, nat>, v: nat)
    requires Agree(vpes, cols, event, table, dbLpi) && v in event && event[v] != -1
    ensures 0 <= event[v] < |vpes| && event[v] in table
    ensures Agree(vpes[event[v] := None], cols, event[v := -1], table - {event[v]}, dbLpi)
  {
    assert HasSlot(vpes, event, v);
    assert SlotOk(vpes, cols, event, table, dbLpi, event[v]);
    var vpes', event', table' := vpes[event[v] := None], event[v := -1], table - {event[v]};
    forall w: nat
      ensures HasSlot(vpes', event', w)
    {
      assert HasSlot(vpes, event, w);
    }
    forall e: int
      ensures SlotOk(vpes', cols, event', table', dbLpi, e)
    {
      assert SlotOk(vpes, cols, event, table, dbLpi, e);
    }
  }

  lemma TakeKeeps(vpes: seq<Option<nat>>, cols: seq<nat>, event: map<nat, int>, table: map<int, Entry>,
                  dbLpi: map<nat, nat>, v: nat, e: nat, col: nat)
    requires Agree(vpes, cols, event, table, dbLpi) && v in event && event[v] == -1 && v in dbLpi
    requires e < |vpes| && vpes[e].None?
    ensures e !in table
    ensures Agree(vpes[e := Some(v)], cols[e := col], event[v := e], table[e := Entry(dbLpi[v], col)], dbLpi)
  {
    assert SlotOk(vpes, cols, event, table, dbLpi, e);
    var vpes', cols', event' := vpes[e := Some(v)], cols[e := col], event[v := e];
    var table' := table[e := Entry(dbLpi[v], col)];
    forall w: nat
      ensures HasSlot(vpes', event', w)
    {
      assert HasSlot(vpes, event, w);
    }
    forall i: int
      ensures SlotOk(vpes', cols', event', table', dbLpi, i)
    {
      assert SlotOk(vpes, cols, event, table, dbLpi, i);
    }
  }

  lemma MoveKeeps(vpes: seq<Option<nat>>, cols: seq<nat>, event: map<nat, int>, table: map<int, Entry>,
                  dbLpi: map<nat, nat>, v: nat, col: nat)
    requires Agree(vpes, cols, event, table, dbLpi) && v in event && event[v] != -1
    ensures 0 <= event[v] < |cols| && event[v] in table && v in dbLpi &&
              table[event[v]] == Entry(dbLpi[v], cols[event[v]])
    ensures Agree(vpes, cols[event[v] := col], event, table[event[v] := table[event[v]].(col := col)], dbLpi)
  {
    assert HasSlot(vpes, event, v);
    assert SlotOk(vpes, cols, event, table, dbLpi, event[v]);
    var cols', table' := cols[event[v] := col], table[event[v] := table[event[v]].(col := col)];
    forall i: int
      ensures SlotOk(vpes, cols', event, table', dbLpi, i)
    {
      assert SlotOk(vpes, cols, event, table, dbLpi, i);
    }
  }

  lemma SlotsApart(vpes: seq<Option<nat>>, cols: seq<nat>, event: map<nat, int>, table: map<int, Entry>,
                   dbLpi: map<nat, nat>, next: nat)
    requires Agree(vpes, cols, event, table, dbLpi) && next < |vpes|
    ensures Slots(vpes, next).Ok()
  {
    forall i, j | 0 <= i < |vpes| && 0 <= j < |vpes| && vpes[i].Some? && vpes[i] == vpes[j]
      ensures i == j
    {
      assert SlotOk(vpes, cols, event, table, dbLpi, i) && SlotOk(vpes, cols, event, table, dbLpi, j);
    }
  }

  class Proxy {
    const rvpeid: bool
    const directLpi: bool
    const nrItes: nat
    /** vpe_db_lpi of every vPE. */
    const dbLpi: map<nat, nat>

    const vpes: array<Option<nat>>
    const colMap: array<nat>
    var nextVictim: nat
    /** vpe_proxy_event of every vPE; -1 is "no slot". */
    var event: map<nat, int>
    /** The events of the proxy device that the ITS has mapped. */
    ghost var table: map<int, Entry>

    /** The sizes agree; every entry and every vPE tells the same story. */
    ghost predicate Valid()
      reads this, vpes, colMap
    {
      && vpes.Length == nrItes
      && nextVictim < nrItes
      && event.Keys == dbLpi.Keys
      && Agree(vpes[..], colMap[..], event, table, dbLpi)
    }

    ghost function State(): (s: Slots)
      requires Valid()
      reads this, vpes, colMap
      ensures s.Ok()
    {
      SlotsApart(vpes[..], colMap[..], event, table, dbLpi, nextVictim);
      Slots(vpes[..], nextVictim)
    }

    /** `vpes[e] == v` exactly when `v.vpe_proxy_event == e`. */
    lemma SlotIsEvent(v: nat, e: nat)
      requires Valid() && v in event && e < nrItes
      ensures vpes[e] == Some(v) <==> event[v] == e
      ensures event[v] == -1 <==> !State().Holds(v)
      ensures -1 <= event[v] < nrItes
    {
      assert HasSlot(vpes[..], event, v);
      assert SlotOk(vpes[..], colMap[..], event, table, dbLpi, e);
      if State().Holds(v) {
        var i :| 0 <= i < |vpes[..]| && vpes[..][i] == Some(v);
        assert SlotOk(vpes[..], colMap[..], event, table, dbLpi, i);
      }
    }

    constructor (entries: nat, idBits: nat, dbLpi: map<nat, nat>, rvpeid: bool, directLpi: bool)
      requires 1 < entries <= Ites(entries, idBits)
      ensures Valid() && table == map[] && nextVictim == 0 && nrItes == entries && this.dbLpi == dbLpi
      ensures this.rvpeid == rvpeid && this.directLpi == directLpi
      ensures fresh(vpes) && fresh(colMap)
    {
      SizesAgree(entries, idBits);
      this.dbLpi, this.rvpeid, this.directLpi := dbLpi, rvpeid, directLpi;
      nrItes := Ites(entries, idBits);
      vpes := new Option<nat>[entries](_ => None);
      colMap := new nat[entries](_ => 0);
      nextVictim := 0;
      event := map v | v in dbLpi :: -1;
      table := map[];
    }

    // Commands for the proxy device

    ghost method SendMapti(lpi: nat, e: int, col: nat)
      requires e !in table
      modifies `table
      ensures table == old(table)[e := Entry(lpi, col)]
    {
      table := table[e := Entry(lpi, col)];
    }

    ghost method SendDiscard(e: int)
      requires e in table
      modifies `table
      ensures table == old(table) - {e}
    {
      table := table - {e};
    }

    ghost method SendMovi(e: int, col: nat)
      requires e in table
      modifies `table
      ensures table == old(table)[e := old(table[e]).(col := col)]
    {
      table := table[e := table[e].(col := col)];
    }

    /** INV, INT and CLEAR act on a mapped event. */
    ghost method SendEvent(command: Command, e: int) returns (lpi: nat)
      requires e in table
      ensures lpi == table[e].lpi
    {
      lpi := table[e].lpi;
    }

    /** its_vpe_db_proxy_unmap_locked */
    method UnmapLocked(v: nat)
      requires Valid() && v in event
      modifies this, vpes
      ensures Valid()
      ensures rvpeid || old(event[v]) == -1 ==> unchanged(this) && unchanged(vpes)
      ensures !rvpeid && old(event[v]) != -1 ==>
                && 0 <= old(event[v]) < nrItes && State() == Unmapped(old(State()), old(event[v]))
                && event == old(event)[v := -1] && table == old(table) - {old(event[v])}
                && vpes[nextVictim].None?
    {
      if rvpeid {
        return;
      }
      if event[v] == -1 {
        return;
      }
      var e := event[v];
      DropKeeps(vpes[..], colMap[..], event, table, dbLpi, v);
      ghost var was := vpes[..];
      SendDiscard(e);
      vpes[e] := None;
      assert vpes[..] == was[e := None];
      if vpes[nextVictim].Some? {
        nextVictim := e;
      }
      event := event[v := -1];
    }

    /** its_vpe_db_proxy_map_locked; `col` is the vPE's collection. */
    method MapLocked(v: nat, col: nat)
      requires Valid() && v in event
      modifies this, vpes, colMap
      ensures Valid()
      ensures rvpeid || old(event[v]) != -1 ==> unchanged(this) && unchanged(vpes) && unchanged(colMap)
      ensures !rvpeid ==> event[v] != -1 && State() == Mapped(old(State()), v)
      ensures !rvpeid && old(event[v]) == -1 ==>
                && event[v] == old(nextVictim) && colMap[..] == old(colMap[..])[old(nextVictim) := col]
    {
      if rvpeid {
        return;
      }
      SlotIsEvent(v, nextVictim);
      if event[v] != -1 {
        return;
      }
      ghost var slots := State();
      if vpes[nextVictim].Some? {
        assert SlotOk(vpes[..], colMap[..], event, table, dbLpi, nextVictim);
        UnmapLocked(vpes[nextVictim].value);
        // eviction leaves next_victim on the slot it freed
        assert nextVictim == slots.next && vpes[..] == slots.vpes[slots.next := None];
      }
      TakeSlot(v, col);
      assert vpes[..] == slots.vpes[slots.next := Some(v)];
    }

    /** The second half of its_vpe_db_proxy_map_locked: next_victim is a free slot. */
    method TakeSlot(v: nat, col: nat)
      requires Valid() && v in event && event[v] == -1 && vpes[nextVictim].None?
      modifies this, vpes, colMap
      ensures Valid() && event == old(event)[v := old(nextVictim)]
      ensures nextVictim == Next(old(nextVictim), nrItes)
      ensures vpes[..] == old(vpes[..])[old(nextVictim) := Some(v)]
      ensures colMap[..] == old(colMap[..])[old(nextVictim) := col]
    {
      var e := nextVictim;
      TakeKeeps(vpes[..], colMap[..], event, table, dbLpi, v, e, col);
      ghost var slots, cols := vpes[..], colMap[..];
      vpes[e] := Some(v);
      event := event[v := e];
      nextVictim := Next(nextVictim, nrItes);
      colMap[e] := col;
      SendMapti(dbLpi[v], e, col);
      assert vpes[..] == slots[e := Some(v)] && colMap[..] == cols[e := col];
    }

    /** its_vpe_db_proxy_unmap */
    method Unmap(v: nat)
      requires Valid() && v in event
      modifies this, vpes
      ensures Valid()
      ensures rvpeid || directLpi ==> unchanged(this) && unchanged(vpes)
      ensures !rvpeid && !directLpi ==> !State().Holds(v) && event == old(event)[v := -1]
    {
      if rvpeid {
        return;
      }
      if !directLpi {
        UnmapLocked(v);
        SlotIsEvent(v, 0);
        assert event == old(event)[v := -1];
      }
    }

    /** its_vpe_db_proxy_move */
    method Move(v: nat, col: nat, to: nat)
      requires Valid() && v in event
      modifies this, vpes, colMap
      ensures Valid()
      ensures rvpeid || directLpi ==> unchanged(this) && unchanged(vpes) && unchanged(colMap)
      ensures !rvpeid && !directLpi ==>
                && State() == Mapped(old(State()), v)
                && event[v] in table && table[event[v]] == Entry(dbLpi[v], to)
    {
      if rvpeid || directLpi {
        return;
      }
      MapLocked(v, col);
      MoveKeeps(vpes[..], colMap[..], event, table, dbLpi, v, to);
      ghost var slots, cols := State(), colMap[..];
      var e := event[v];
      SendMovi(e, to);
      colMap[e] := to;
      assert colMap[..] == cols[e := to] && vpes[..] == slots.vpes;
    }

    /** its_vpe_send_cmd: the command reaches this vPE's own doorbell. */
    method SendCmd(v: nat, col: nat, command: Command)
      requires Valid() && v in event && !rvpeid
      modifies this, vpes, colMap
      ensures Valid() && State() == Mapped(old(State()), v)
      ensures event[v] in table && table[event[v]].lpi == dbLpi[v]
    {
      MapLocked(v, col);
      MoveKeeps(vpes[..], colMap[..], event, table, dbLpi, v, 0);
      ghost var lpi := SendEvent(command, event[v]);
      assert lpi == dbLpi[v];
    }
  }
}
