/** The two one-shot policies of the iMSI receiver: where the MSI target may lie, and
    which bits of the PARF interrupt mask may be set. */
module ImsiPolicy {

  const U64_MAX := 0xFFFF_FFFF_FFFF_FFFF

  /** A 32-bit register as the set of its bits that are one. */
  type Word = set<nat>

  const ALL_ONES: Word := set b: nat | b < 32
  const BANKS: Word := set b: nat | 23 <= b <= 30    // GENMASK(30, 23)
  const LINK_UP: Word := {13}                        // BIT(13)

  datatype Kind = BusNumbers | Memory | OtherKind

  /** A bridge window; res is absent when the list entry has no resource. */
  datatype Window = Window(hasRes: bool, kind: Kind, start: nat, end: nat, offset: nat)

  predicate FitsU64(w: Window) {
    w.start <= U64_MAX && w.end <= U64_MAX && w.offset <= U64_MAX
  }

  /** An address interval, both ends included, does not meet the 8 bytes at target. */
  predicate Apart(target: nat, start: int, end: int) {
    target + 7 < start || end < target
  }

  predicate MemoryOk(w: Window) {
    w.kind == Memory && w.start <= w.end && w.offset <= w.start
  }

  /** The target lies outside the window, as CPU address and as bus address. */
  predicate Outside(target: nat, w: Window) {
    Apart(target, w.start, w.end) && Apart(target, w.start - w.offset, w.end - w.offset)
  }

  predicate WindowAllows(target: nat, w: Window) {
    w.hasRes && (w.kind == BusNumbers || (MemoryOk(w) && Outside(target, w)))
  }

  /** What the target policy accepts. */
  ghost predicate TargetAllowed(target: nat, windows: seq<Window>) {
    && target % 8 == 0 && target <= U64_MAX - 7
    && |windows| <= 16
    && (forall i :: 0 <= i < |windows| ==> WindowAllows(target, windows[i]))
    && (exists i :: 0 <= i < |windows| && windows[i].kind == Memory)
  }

  class Policy {
    const windows: seq<Window>
    var globalAttempted: bool
    var globalReady: bool
    var targetAttempted: bool
    var targetReady: bool
    var target: nat
    var memoryWindows: nat
    var maskBefore: Word
    ghost var maskWrites: nat          // how often the PARF mask register was written
    ghost var written: Word            // and the last value written

    ghost predicate Valid()
      reads this
    {
      && (forall i :: 0 <= i < |windows| ==> FitsU64(windows[i]))
      && (targetReady ==> targetAttempted && TargetAllowed(target, windows))
      && (!targetAttempted ==> memoryWindows == 0)
      && (globalReady ==> globalAttempted)
      && (!globalAttempted ==> maskWrites == 0)
      && maskWrites <= 1
      && (maskWrites == 1 ==>
            written == maskBefore + BANKS && written != maskBefore && written - BANKS == maskBefore - BANKS)
    }

    constructor (windows: seq<Window>)
      requires forall i :: 0 <= i < |windows| ==> FitsU64(windows[i])
      ensures Valid() && this.windows == windows && !globalAttempted && !targetAttempted && maskWrites == 0
    {
      this.windows := windows;
      globalAttempted, globalReady, targetAttempted, targetReady := false, false, false, false;
      target, memoryWindows, maskBefore, maskWrites, written := 0, 0, {}, 0, {};
    }

    /** x1_imsi_policy_target; admitted and live are the answers of the two platform checks. */
    method CheckTarget(t: nat, admitted: bool, live: bool) returns (ok: bool)
      requires Valid() && t <= U64_MAX
      modifies `targetAttempted, `targetReady, `target, `memoryWindows
      ensures Valid()
      ensures old(targetAttempted) ==> !ok && targetReady == old(targetReady) && target == old(target)
      ensures !old(targetAttempted) ==> (ok <==> admitted && live && TargetAllowed(t, windows))
      ensures targetAttempted && (ok ==> targetReady && target == t)
      ensures !old(targetAttempted) && !ok ==> !targetReady
    {
      if targetAttempted {
        return false;
      }
      targetAttempted := true;
      target := t;
      if !admitted || t % 8 != 0 || t > U64_MAX - 7 {
        return false;
      }
      var i := 0;
      while i < |windows|
        invariant i <= |windows| && i <= 16
        invariant targetAttempted && !targetReady && target == t
        invariant forall j :: 0 <= j < i ==> WindowAllows(t, windows[j])
        invariant memoryWindows > 0 <==> exists j :: 0 <= j < i && windows[j].kind == Memory
      {
        var w := windows[i];
        if i + 1 > 16 || !w.hasRes {
          assert !WindowAllows(t, windows[i]) || |windows| > 16;
          return false;
        }
        if w.kind != BusNumbers {
          if w.kind != Memory || w.end < w.start || w.offset > w.start {
            assert !WindowAllows(t, windows[i]);
            return false;
          }
          var busStart, busEnd := w.start - w.offset, w.end - w.offset;
          memoryWindows := memoryWindows + 1;
          if (t <= busEnd && t + 7 >= busStart) || (t <= w.end && t + 7 >= w.start) {
            assert !WindowAllows(t, windows[i]);
            return false;
          }
        }
        i := i + 1;
      }
      if memoryWindows == 0 || !live {
        return false;
      }
      targetReady := true;
      ok := true;
    }

    /** x1_imsi_policy_global. idle[k] answers the k-th check that the global interrupt is
        untouched; the other arguments are what the PARF registers show at each read. */
    method EnableBanks(admitted: bool, idle: seq<bool>, status0: Word, mask0: Word, mask1: Word, status1: Word)
      returns (ok: bool)
      requires Valid() && |idle| == 5
      modifies `globalAttempted, `globalReady, `maskBefore, `maskWrites, `written
      ensures Valid() && globalAttempted
      ensures old(globalAttempted) ==> !ok && globalReady == old(globalReady) && maskWrites == old(maskWrites)
      ensures !old(globalAttempted) ==>
                (ok <==> && admitted && (forall k :: 0 <= k < 5 ==> idle[k])
                         && status0 <= LINK_UP && status1 <= LINK_UP
                         && mask0 != ALL_ONES && mask0 + BANKS != ALL_ONES && mask1 == mask0 + BANKS)
      ensures ok ==> globalReady && maskBefore == mask0
      ensures ok ==> (maskWrites == 0 <==> mask0 + BANKS == mask0)
      ensures !old(globalAttempted) && !ok ==> !globalReady
    {
      if globalAttempted {
        return false;
      }
      globalAttempted := true;
      if !admitted || !idle[0] || status0 - LINK_UP != {} || !idle[1] {
        return false;
      }
      maskBefore := mask0;
      if mask0 == ALL_ONES {
        return false;
      }
      var desired := mask0 + BANKS;
      if desired == ALL_ONES || !idle[2] {
        return false;
      }
      if desired != mask0 {
        maskWrites, written := maskWrites + 1, desired;
      }
      if mask1 != desired || !idle[3] || status1 - LINK_UP != {} || !idle[4] {
        return false;
      }
      globalReady := true;
      ok := true;
    }
  }
}
