/** The life of iMSI receivers: one owner at a time, prepared once, stopped once,
    released once, and retired only when all of that went well. */
module ImsiReceiver {
  import opened ImsiPolicy
  import opened Options

  const NBANKS := 8
  const DBI := 0x4_0000_0000
  const DBI_SPAN := 0x1000_0000

  datatype Ret = Ok | EAlready | EInval | EPerm | ENoMem | EOther

  datatype StopReceipt = StopReceipt(attempted: bool, finished: bool, banksDisabled: nat, parentsDetached: nat,
                                     failed: bool)

  /** struct x1_imsi: the receipt and the software objects behind it. */
  datatype Receiver = Receiver(
    retained: bool, domainReady: bool, targetReserved: bool, policyComplete: bool, associated: bool, ready: bool,
    banks: nat, target: nat, failed: bool, stop: StopReceipt,
    releaseAttempted: bool, released: bool, releaseFailed: bool,
    group: bool, groupClosed: bool, irqDomain: bool, useRx: bool)

  const FRESH := Receiver(false, false, false, false, false, false, 0, 0, false,
                          StopReceipt(false, false, 0, 0, false), false, false, false, false, false, false, false)

  /** Something went wrong with this receiver after it became the owner. */
  predicate Broken(r: Receiver) {
    r.failed || r.stop.failed || r.releaseFailed
  }

  /** Stopped, released and without any live object. */
  predicate Retirable(r: Receiver) {
    && !Broken(r) && r.stop.finished && r.released
    && !r.ready && !r.associated && !r.domainReady && !r.targetReserved && !r.irqDomain && !r.group
  }

  /** What a receipt says about itself, in every state of its life. */
  predicate Consistent(r: Receiver) {
    && (r.stop.finished <==> r.stop.attempted && r.stop.banksDisabled == NBANKS && r.stop.parentsDetached == NBANKS)
    && (r.stop.attempted ==> (r.stop.finished <==> !r.stop.failed))
    && r.stop.banksDisabled <= NBANKS && r.stop.parentsDetached <= NBANKS
    && (!r.stop.attempted ==> r.stop == FRESH.stop && !r.releaseAttempted)
    && (r.ready ==> !r.failed && r.retained && r.policyComplete && r.associated && r.domainReady && r.targetReserved)
    && (r.associated ==> r.ready)
    && (r.stop.attempted ==> !r.failed)
    && (r.released ==> r.releaseAttempted && !r.releaseFailed && Retirable(r))
    && (r.releaseAttempted ==> r.stop.finished && !r.ready && !r.associated && (r.released || r.releaseFailed))
    && (r.releaseFailed ==> r.releaseAttempted)
  }

  /** x1_imsi_setup with both policies installed. Every register readback, guard and helper
      may fail; whatever had been set up by then stays in the receipt. */
  method Setup(r: Receiver, policy: Policy) returns (r': Receiver, ok: bool)
    requires r == FRESH.(retained := true) && policy.Valid()
    modifies policy
    ensures policy.Valid() && Consistent(r'.(failed := !ok)) && r'.retained && r'.stop == FRESH.stop
    ensures ok <==> r'.ready
    ensures r'.associated ==> policy.targetReady && policy.target == r'.target && policy.globalReady
    ensures r'.associated ==> r'.target % 8 == 0 && Apart(r'.target, DBI, DBI + DBI_SPAN - 1)
  {
    r', ok := r, false;
    var i := 0;
    var fine: bool := *;
    if !fine {                         // initial fence, root identity
      return;
    }
    while i < NBANKS {
      fine := *;
      if !fine {                       // guard, mask readback, status
        return;
      }
      i := i + 1;
    }
    fine := *;
    if !fine {                         // guard, devres group
      return;
    }
    r' := r'.(group := true);
    fine := *;                         // dw_pcie_msi_host_init
    r' := r'.(groupClosed := true);
    if !fine {
      return;
    }
    var address: int := *;
    var target := address % (U64_MAX + 1);
    var hasDomain: bool := *;
    r' := r'.(domainReady := true, targetReserved := true, target := target, banks := NBANKS, irqDomain := hasDomain);
    fine := *;
    if !fine || !hasDomain || target == U64_MAX || target % 8 != 0 || (DBI <= target < DBI + DBI_SPAN) {
      return;
    }
    var admitted: bool, live: bool := *, *;
    var targetOk := policy.CheckTarget(target, admitted, live);
    if !targetOk {
      return;
    }
    fine := *;
    if !fine {                         // guard
      return;
    }
    r' := r'.(useRx := true);
    fine := *;
    if !fine {                         // address, mask, enable and status readbacks, guard
      return;
    }
    var idle0: bool, idle1: bool, idle2: bool, idle3: bool, idle4: bool := *, *, *, *, *;
    var status0: Word, mask0: Word, mask1: Word, status1: Word := *, *, *, *;
    admitted := *;
    var globalOk := policy.EnableBanks(admitted, [idle0, idle1, idle2, idle3, idle4], status0, mask0, mask1, status1);
    if !globalOk {
      return;
    }
    r' := r'.(policyComplete := true);
    fine := *;
    if !fine {                         // guard
      return;
    }
    r' := r'.(associated := true, ready := true);
    ok := true;
  }

  /** The 8 bytes at the target are in no memory window, as CPU and as bus addresses. */
  ghost predicate TargetIsApart(target: nat, policy: Policy)
  {
    forall i | 0 <= i < |policy.windows| && policy.windows[i].kind == Memory :: Outside(target, policy.windows[i])
  }

  /** The PARF mask was written at most once, and the write differs from the original only in bank bits set. */
  ghost predicate MaskIsKept(policy: Policy)
    reads policy
  {
    && policy.maskWrites <= 1
    && (policy.maskWrites == 1 ==>
          policy.written - BANKS == policy.maskBefore - BANKS && policy.maskBefore + BANKS == policy.written)
  }

  /** What a policy that accepted its target guarantees to the receiver. */
  lemma PolicyHolds(policy: Policy)
    requires policy.Valid() && policy.targetReady
    ensures TargetIsApart(policy.target, policy) && MaskIsKept(policy)
  {
    assert forall i | 0 <= i < |policy.windows| :: WindowAllows(policy.target, policy.windows[i]);
  }

  class Imsi {
    var active: Option<nat>            // x1_imsi_active
    var all: map<nat, Receiver>        // every receiver that was ever allocated

    ghost predicate Valid()
      reads this
    {
      && (active.Some? ==> active.value in all)
      && (forall i :: i in all ==> Consistent(all[i]))
      && (forall i :: i in all && active != Some(i) ==> Retirable(all[i]))
    }

    constructor ()
      ensures Valid() && active == None && all == map[]
    {
      active, all := None, map[];
    }

    /** x1_imsi_prepare. id names the new allocation; a null policy is a request without the two
        policy callbacks. */
    method Prepare(id: nat, complete: bool, memory: bool, policy: Policy?) returns (ret: Ret)
      requires Valid() && id !in all && (policy != null ==> policy.Valid())
      modifies this, policy
      ensures Valid() && (policy != null ==> policy.Valid())
      ensures complete && old(active).Some? ==> ret == EAlready
      ensures id in all <==> complete && memory && old(active) == None
      ensures id !in all ==> all == old(all) && active == old(active) && ret != Ok
      ensures id in all ==> active == Some(id) && all == old(all)[id := all[id]] && all[id].stop == FRESH.stop
      ensures id in all ==> forall i :: i in old(all) ==> Retirable(old(all)[i])
      ensures id in all ==> (ret == Ok <==> all[id].ready) && (ret != Ok <==> all[id].failed)
      ensures id in all && all[id].associated ==>
                && policy != null && policy.targetReady && policy.target == all[id].target && policy.globalReady
                && TargetIsApart(all[id].target, policy) && MaskIsKept(policy)
    {
      if !complete {
        return EInval;
      }
      if active.Some? {
        return EAlready;
      }
      if !memory {
        return ENoMem;
      }
      var r := FRESH;
      var admitted: bool := *;
      var retained: bool := *;
      var ok := false;
      if admitted && policy != null && retained {
        r := r.(retained := true);
        r, ok := Setup(r, policy);
        if r.associated {
          PolicyHolds(policy);
        }
      }
      r := r.(failed := !ok);
      active := Some(id);
      all := all[id := r];
      ret := if ok then Ok else EOther;
    }

    /** x1_imsi_stop_retained: one attempt, banks first, then every parent. */
    method Stop(id: nat) returns (ret: Ret)
      requires Valid() && id in all
      modifies this`all
      ensures Valid() && all.Keys == old(all).Keys
      ensures forall i :: i in all && i != id ==> all[i] == old(all)[i]
      ensures all[id] == old(all)[id].(stop := all[id].stop)
      ensures old(all)[id].stop.attempted ==> ret == EAlready && all == old(all)
      ensures ret == Ok ==> all[id].stop.finished && !old(all)[id].stop.attempted
      ensures ret == EOther <==> !old(all)[id].stop.attempted && all[id].stop.attempted && all[id].stop.failed
      ensures ret == EPerm ==> all == old(all)
    {
      var r := all[id];
      if r.stop.attempted {
        return EAlready;
      }
      var idle: bool := *;             // the parents still carry our handler, no vector is in use
      if !r.ready || r.failed || !r.retained || !r.associated || !r.domainReady || !r.targetReserved ||
         !r.irqDomain || !r.useRx || r.banks != NBANKS || !idle {
        return EPerm;
      }
      var failed, banks, parents := false, 0, 0;
      while banks < NBANKS && !failed
        invariant banks <= NBANKS && (failed ==> banks < NBANKS)
        decreases NBANKS - banks, !failed
      {
        var readback: bool := *;
        if readback {
          banks := banks + 1;
        } else {
          failed := true;
        }
      }
      var bankFailed := failed;
      var i := 0;
      while i < NBANKS
        invariant i <= NBANKS && parents <= i
        invariant failed <==> bankFailed || parents < i
        invariant !bankFailed <==> banks == NBANKS
      {
        var gone: bool := *;
        if gone {
          parents := parents + 1;
        } else {
          failed := true;
        }
        i := i + 1;
      }
      all := all[id := r.(stop := StopReceipt(true, !failed, banks, parents, failed))];
      ret := if failed then EOther else Ok;
    }

    /** x1_imsi_release_stopped */
    method Release(id: nat) returns (ret: Ret)
      requires Valid() && id in all
      modifies this`all
      ensures Valid() && all.Keys == old(all).Keys
      ensures forall i :: i in all && i != id ==> all[i] == old(all)[i]
      ensures all[id].stop == old(all)[id].stop && all[id].failed == old(all)[id].failed
      ensures old(all)[id].releaseAttempted ==> ret == EAlready && all == old(all)
      ensures ret == Ok ==> Retirable(all[id]) && !old(all)[id].releaseAttempted
      ensures all[id].releaseAttempted && !old(all)[id].releaseAttempted ==>
                old(all)[id].stop.finished && !Broken(old(all)[id])
    {
      var r := all[id];
      if r.releaseAttempted {
        return EAlready;
      }
      var quiet: bool := *;            // bus removed, vectors free, handlers gone
      if !r.ready || r.failed || !r.retained || !r.associated || !r.domainReady || !r.targetReserved ||
         !r.stop.attempted || !r.stop.finished || r.stop.failed || r.stop.banksDisabled != NBANKS ||
         r.stop.parentsDetached != NBANKS || !r.group || !r.groupClosed || !r.irqDomain || !quiet {
        return EPerm;
      }
      var stopped: bool := *;          // check_stopped
      if !stopped {
        return EOther;
      }
      r := r.(releaseAttempted := true, associated := false, irqDomain := false, useRx := false,
              domainReady := false, ready := false);
      var freed: bool := *;            // devres_release_group
      if freed {
        r := r.(group := false, targetReserved := false, released := true);
        ret := Ok;
      } else {
        r := r.(releaseFailed := true);
        ret := EOther;
      }
      all := all[id := r];
    }

    /** x1_imsi_retire_context: only this gives up ownership. */
    method Retire(id: nat) returns (ret: Ret)
      requires Valid() && id in all
      modifies this`active
      ensures Valid()
      ensures ret == Ok ==> old(active) == Some(id) && active == None && Retirable(all[id])
      ensures ret != Ok ==> active == old(active)
    {
      var r := all[id];
      var quiet: bool := *;
      if active != Some(id) || !r.released || r.releaseFailed || !r.stop.finished || r.stop.failed || r.ready ||
         r.associated || r.domainReady || r.targetReserved || r.irqDomain || r.group || !quiet {
        return EPerm;
      }
      var stopped: bool := *;
      if !stopped {
        return EOther;
      }
      active := None;
      ret := Ok;
    }
  }

  /** At most one receiver has anything live, and it is the owner. */
  lemma OneLiveReceiver(imsi: Imsi, i: nat, j: nat)
    requires imsi.Valid() && i in imsi.all && j in imsi.all
    requires !Retirable(imsi.all[i]) && !Retirable(imsi.all[j])
    ensures i == j && imsi.active == Some(i)
  {
  }

  datatype Call = CallPrepare(complete: bool,
                              memory: bool) | CallStop(id: nat) | CallRelease(id: nat) | CallRetire(id: nat)

  method Perform(imsi: Imsi, c: Call, id: nat, policy: Policy?)
    requires imsi.Valid() && id !in imsi.all && (policy != null ==> policy.Valid())
    modifies imsi, policy
    ensures imsi.Valid() && (policy != null ==> policy.Valid())
    ensures var owner := old(imsi.active);
            owner.Some? && Broken(old(imsi.all)[owner.value]) ==>
              imsi.active == owner && owner.value in imsi.all && Broken(imsi.all[owner.value]) &&
                    imsi.all.Keys == old(imsi.all).Keys
    ensures id in imsi.all ==> forall i :: i in old(imsi.all) ==> Retirable(old(imsi.all)[i])
  {
    match c
    case CallPrepare(complete, memory) =>
      var ret := imsi.Prepare(id, complete, memory, policy);
    case CallStop(i) =>
      if i in imsi.all {
        var ret := imsi.Stop(i);
      }
    case CallRelease(i) =>
      if i in imsi.all {
        var ret := imsi.Release(i);
      }
    case CallRetire(i) =>
      if i in imsi.all {
        var ret := imsi.Retire(i);
      }
  }

  /** Once the owner is broken, no sequence of calls ever admits another receiver. */
  method BrokenLocksOut(imsi: Imsi, calls: seq<Call>, policy: Policy?)
    requires imsi.Valid() && imsi.active.Some? && Broken(imsi.all[imsi.active.value])
    requires policy != null ==> policy.Valid()
    modifies imsi, policy
    ensures imsi.Valid() && imsi.active == old(imsi.active) && imsi.all.Keys == old(imsi.all).Keys
    ensures Broken(imsi.all[imsi.active.value])
  {
    for n := 0 to |calls|
      invariant imsi.Valid() && imsi.active == old(imsi.active) && imsi.all.Keys == old(imsi.all).Keys
      invariant Broken(imsi.all[imsi.active.value])
      invariant policy != null ==> policy.Valid()
    {
      var id: int := *;
      if id >= 0 && id !in imsi.all {
        Perform(imsi, calls[n], id, policy);
      }
    }
  }
}
