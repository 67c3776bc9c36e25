/** The USB4 storage service: a phase machine that drives one-way kernel stages
    against a kernel that may answer anything. */
module StorageService {
  import opened Options

  const SLEEP_BUDGET := 60000      // milliseconds
  const SLEEP_GRACE := 120000
  const REFUSAL_REUSE := 60000
  const CONNECT_BUDGET := 45000

  datatype Errno = EBUSY | EPERM | ENOTCONN | OtherErrno

  /** The exceptions the service distinguishes; Bad is a ValueError or KeyError. */
  datatype Exn = Stop | OsError(errno: Errno) | Bad | Busy

  datatype Result<+T> = Success(value: T) | Failure(error: Exn) {
    predicate IsFailure() { Failure? }

    function PropagateFailure<U>(): Result<U>
      requires Failure?
    {
      Failure(error)
    }

    function Extract(): T
      requires Success?
    {
      value
    }
  }

  datatype Phase =
    | Starting | UnplugToStart | Waiting | Connecting | ReplugRequired | Connected | Releasing | Ejecting
    | SafeToUnplug | Failed | Asleep | Pulled | ReplugAfterPull | EjectedForSleep

  /** The sysfs attributes the service writes to. */
  datatype Stage =
    | EndpointRemove | TunnelQuiesce | HostQuiesce | PowerQuiesce
    | Inventory | Renew(gen: nat) | PulledRetire | IdleRetire

  /** What the service did and saw, in order. */
  datatype Event =
    | Store(stage: Stage, ok: bool)
    | Receipt(stage: Stage, good: bool)
    | Mounts(any: bool)
    | Released(yes: bool)
    | Slept
    | FullyRetired(yes: bool)
    | DiskVisible(yes: bool)
    | Published(phase: Phase)
    | Began(action: Action)

  /** The three actions that may eject: the poll, a manual eject, and release before sleep. */
  datatype Action = Poll | Manual | ForSleep

  datatype Status = Disconnected | RetiredAttached | Abandoned | EmptyPort | ConnectedPort | Ready

  datatype Attempt = PoweredDown | NewDrive | NotYet

  datatype Adopted = Nothing | AsWaiting(gen: nat) | AsRetired(gen: nat)

  /** The fields of session_state the service compares; anything but 0 or 1 is other. */
  datatype Session = Session(
    managed: int, generation: Option<nat>, orientation: int, pristine: int, prepared: int, waiting: int, complete: int,
    fullyRetired: int, platformRetired: int, platformError: int, initialEvent: Option<nat>,
    disconnectEvent: Option<nat>)

  /** The fields of inventory_state the service compares. */
  datatype Batch = Batch(error: int, terminal: int, connectStep: bool, rearm: int, failures: Option<nat>)

  // ------------------------------------------------------------------
  // What a trace must show
  // ------------------------------------------------------------------

  ghost predicate EndsWith(tr: seq<Event>, pat: seq<Event>) {
    |pat| <= |tr| && tr[|tr| - |pat|..] == pat
  }

  ghost predicate LastIs(tr: seq<Event>, e: Event) {
    tr != [] && tr[|tr| - 1] == e
  }

  const SEEN_FREE := [Mounts(false), Released(true)]

  const SEEN_SETTLED := [Mounts(false), Released(true), Slept, Mounts(false), Released(true), Slept]

  /** All four stages stored in order, each with its receipt, then full retirement and no disk. */
  const FULL_EJECT := [
    Store(EndpointRemove, true), Receipt(EndpointRemove, true),
    Store(TunnelQuiesce, true), Receipt(TunnelQuiesce, true),
    Store(HostQuiesce, true), Receipt(HostQuiesce, true),
    Store(PowerQuiesce, true), Receipt(PowerQuiesce, true),
    FullyRetired(true), DiskVisible(false)]

  /** The idle router powered down, with its receipt and full retirement. */
  const IDLE_RETIRED := [Store(IdleRetire, true), Receipt(IdleRetire, true), FullyRetired(true)]

  /** Action `a` looked once, found the drive free, and announced the eject. */
  ghost function LookedOnce(a: Action): seq<Event> {
    [Began(a)] + SEEN_FREE + [Published(Ejecting)]
  }

  /** Two settled rounds in a row, and then the eject. */
  const SETTLED_TWICE := SEEN_SETTLED + [Published(Ejecting)]

  /** The running action itself saw that nothing holds the drive: once while awake, else in two rounds in a row. */
  ghost predicate DriveFree(tr: seq<Event>) {
    EndsWith(tr, LookedOnce(Poll)) || EndsWith(tr, LookedOnce(Manual)) || EndsWith(tr, SETTLED_TWICE)
  }

  /** The drive was free, and all four stages and the retirement followed, within one awake action. */
  ghost predicate EjectedAwake(tr: seq<Event>) {
    EndsWith(tr, LookedOnce(Poll) + FULL_EJECT) || EndsWith(tr, LookedOnce(Manual) + FULL_EJECT)
  }

  /** The last event of a trace is justified by the events before it. */
  ghost predicate LastOk(tr: seq<Event>)
    requires tr != []
  {
    var before := tr[..|tr| - 1];
    match tr[|tr| - 1]
    case Store(EndpointRemove, _) => DriveFree(before)
    case Published(SafeToUnplug) => EjectedAwake(before)
    case Published(EjectedForSleep) => EndsWith(before, SETTLED_TWICE + FULL_EJECT)
    case Published(Asleep) => EndsWith(before, IDLE_RETIRED)
    case _ => true
  }

  ghost predicate Safe(tr: seq<Event>) {
    forall i {:trigger tr[..i]} :: 0 < i <= |tr| ==> LastOk(tr[..i])
  }

  lemma SafeAppend(tr: seq<Event>, e: Event)
    requires Safe(tr) && LastOk(tr + [e])
    ensures Safe(tr + [e])
  {
    forall i | 0 < i <= |tr + [e]|
      ensures LastOk((tr + [e])[..i])
    {
      if i <= |tr| {
        assert (tr + [e])[..i] == tr[..i];
      } else {
        assert (tr + [e])[..i] == tr + [e];
      }
    }
  }

  /** Event `i` of a trace has the past it needs. */
  ghost predicate JustifiedAt(tr: seq<Event>, i: nat) {
    i < |tr| ==>
      && (tr[i].Store? && tr[i].stage.EndpointRemove? ==> DriveFree(tr[..i]))
      && (tr[i] == Published(SafeToUnplug) ==> EjectedAwake(tr[..i]))
      && (tr[i] == Published(EjectedForSleep) ==> EndsWith(tr[..i], SETTLED_TWICE + FULL_EJECT))
      && (tr[i] == Published(Asleep) ==> EndsWith(tr[..i], IDLE_RETIRED))
  }

  /**
   * What a safe trace shows: the endpoint is removed only after the same action
   * saw the drive free, twice in a row before sleep; the phases that promise a
   * safe drive follow a complete eject, and asleep a complete power-down.
   */
  ghost predicate Justified(tr: seq<Event>) {
    forall i: nat :: JustifiedAt(tr, i)
  }

  lemma SafeIsJustified(tr: seq<Event>)
    requires Safe(tr)
    ensures Justified(tr)
  {
    forall i: nat
      ensures JustifiedAt(tr, i)
    {
      if i < |tr| {
        assert LastOk(tr[..i + 1]);
        assert tr[..i + 1][..i] == tr[..i];
      }
    }
  }

  /** A trace whose last event publishes a phase shows right before it what the phase promises. */
  ghost predicate Promised(tr: seq<Event>, phase: Phase) {
    && (phase in {SafeToUnplug, EjectedForSleep, Asleep} ==> LastIs(tr, Published(phase)))
    && (phase == SafeToUnplug ==> EjectedAwake(tr[..|tr| - 1]))
    && (phase == EjectedForSleep ==> EndsWith(tr[..|tr| - 1], SETTLED_TWICE + FULL_EJECT))
    && (phase == Asleep ==> EndsWith(tr[..|tr| - 1], IDLE_RETIRED))
  }

  lemma SafeIsPromised(tr: seq<Event>, phase: Phase)
    requires Safe(tr) && (phase in {SafeToUnplug, EjectedForSleep, Asleep} ==> LastIs(tr, Published(phase)))
    ensures Promised(tr, phase)
  {
    if tr != [] {
      assert tr[..|tr|] == tr;
      assert LastOk(tr[..|tr|]);
    }
  }

  /** The trace after action `a` looked once at a free drive and ejected it. */
  ghost function Ejected(tr: seq<Event>, a: Action): seq<Event> {
    tr + LookedOnce(a) + FULL_EJECT + [Published(SafeToUnplug)]
  }

  ghost predicate Increasing(s: seq<nat>) {
    forall i, j :: 0 <= i < j < |s| ==> s[i] < s[j]
  }

  /** Phases in which the router holds nothing. */
  predicate Parked(p: Phase) {
    p in {Starting, UnplugToStart, SafeToUnplug, EjectedForSleep, Asleep, Pulled, ReplugAfterPull}
  }

  class Service {
    var phase: Phase
    var generation: nat
    var disk: Option<nat>
    var wasMounted: bool
    var idleRetired: bool
    var sleeping: bool
    var sleepStarted: nat
    var refusal: Option<nat>        // when a sleep was refused at the announcement
    var failures: nat               // Router.failures
    var clock: nat                  // time.monotonic, in milliseconds
    ghost var trace: seq<Event>
    ghost var renewed: seq<nat>     // generations whose renewal was accepted

    /** What holds in every state, also while an exception is on its way up. */
    ghost predicate Sound()
      reads this
    {
      Safe(trace) && Increasing(renewed)
    }

    /** What holds between any two calls. */
    ghost predicate Valid()
      reads this
    {
      && Sound()
      && (phase != Failed ==> forall g :: g in renewed ==> g < generation)
      && (sleeping ==> Parked(phase) && sleepStarted <= clock)
      && (phase in {SafeToUnplug, EjectedForSleep} ==> disk == None)
      && (phase in {SafeToUnplug, EjectedForSleep, Asleep} ==> LastIs(trace, Published(phase)))
    }

    constructor ()
      ensures Valid() && phase == Starting && generation == 0 && trace == [] && renewed == []
    {
      phase, generation, disk, wasMounted, idleRetired := Starting, 0, None, false, false;
      sleeping, sleepStarted, refusal, failures, clock := false, 0, None, 0, 0;
      trace, renewed := [], [];
    }

    // ----- the kernel, which answers as it likes -----

    method Tick() returns (now: nat)
      modifies `clock
      ensures old(clock) <= clock == now
    {
      var d: int := *;
      clock := clock + if d > 0 then d else 0;
      now := clock;
    }

    /** time.sleep: at least the given time passes. */
    method Pause(ms: nat)
      requires Safe(trace)
      modifies `clock, `trace
      ensures old(clock) + ms <= clock
      ensures trace == old(trace) + [Slept] && Safe(trace)
    {
      var d: int := *;
      clock := clock + ms + if d > 0 then d else 0;
      SafeAppend(trace, Slept);
      trace := trace + [Slept];
    }

    method KernelStore(stage: Stage) returns (r: Result<()>)
      requires Safe(trace) && (stage.EndpointRemove? ==> DriveFree(trace))
      modifies `trace
      ensures trace == old(trace) + [Store(stage, r.Success?)] && Safe(trace)
      ensures r.Failure? ==> r.error.OsError? || r.error.Stop?
    {
      var ok: bool, short: bool, errno: Errno := *, *, *;
      r := if ok then Success(()) else if short then Failure(Stop) else Failure(OsError(errno));
      assert (trace + [Store(stage, ok)])[..|trace|] == trace;
      SafeAppend(trace, Store(stage, ok));
      trace := trace + [Store(stage, ok)];
    }

    method ReadReceipt(stage: Stage) returns (r: Result<()>)
      requires Safe(trace)
      modifies `trace
      ensures trace == old(trace) + [Receipt(stage, r.Success?)] && Safe(trace)
      ensures r.Failure? ==> r.error != Busy
    {
      var good: bool, gone: bool, errno: Errno := *, *, *;
      r := if good then Success(()) else if gone then Failure(OsError(errno)) else Failure(Stop);
      SafeAppend(trace, Receipt(stage, good));
      trace := trace + [Receipt(stage, good)];
    }

    method ReadMounts() returns (n: nat)
      requires Safe(trace)
      modifies `trace
      ensures trace == old(trace) + [Mounts(n > 0)] && Safe(trace)
    {
      n := *;
      SafeAppend(trace, Mounts(n > 0));
      trace := trace + [Mounts(n > 0)];
    }

    method ReadReleased() returns (r: Result<bool>)
      requires Safe(trace)
      modifies `trace
      ensures trace == old(trace) + [Released(r == Success(true))] && Safe(trace)
      ensures r.Failure? ==> r.error.OsError?
    {
      var raised: bool, yes: bool, errno: Errno := *, *, *;
      r := if raised then Failure(OsError(errno)) else Success(yes);
      SafeAppend(trace, Released(r == Success(true)));
      trace := trace + [Released(r == Success(true))];
    }

    method ReadDisk() returns (d: Option<nat>)
      requires Safe(trace)
      modifies `trace
      ensures trace == old(trace) + [DiskVisible(d.Some?)] && Safe(trace)
    {
      d := *;
      SafeAppend(trace, DiskVisible(d.Some?));
      trace := trace + [DiskVisible(d.Some?)];
    }

    method ReadSession(gen: Option<nat>) returns (r: Result<Session>)
      ensures r.Failure? ==> r.error != Busy
      ensures r.Success? && gen.Some? ==> r.value.generation == gen
    {
      var raised: bool, errno: Errno, value: Session := *, *, *;
      if raised {
        return Failure(OsError(errno));
      }
      if value.managed != 1 || (gen.Some? && value.generation != gen) {
        return Failure(Stop);
      }
      return Success(value);
    }

    method ReadBatch() returns (r: Result<Batch>)
      ensures r.Failure? ==> r.error != Busy
    {
      var raised: bool, value: Batch := *, *;
      r := if raised then Failure(Stop) else Success(value);
    }

    /** The check that ends eject, pulled_retire and idle_retire. */
    method ReadRetired() returns (r: Result<()>)
      requires Safe(trace)
      modifies `trace
      ensures trace == old(trace) + [FullyRetired(r.Success?)] && Safe(trace)
      ensures r.Failure? ==> r.error != Busy
    {
      var value := ReadSession(Some(generation));
      if value.Failure? {
        r := Failure(value.error);
      } else if value.value.fullyRetired == 1 && value.value.platformRetired == 1 {
        r := Success(());
      } else {
        r := Failure(Stop);
      }
      SafeAppend(trace, FullyRetired(r.Success?));
      trace := trace + [FullyRetired(r.Success?)];
    }

    method Publish(p: Phase)
      requires Safe(trace)
      requires p == SafeToUnplug ==> EjectedAwake(trace)
      requires p == EjectedForSleep ==> EndsWith(trace, SETTLED_TWICE + FULL_EJECT)
      requires p == Asleep ==> EndsWith(trace, IDLE_RETIRED)
      modifies `phase, `trace
      ensures phase == p && trace == old(trace) + [Published(p)] && Safe(trace)
    {
      phase := p;
      assert (trace + [Published(p)])[..|trace|] == trace;
      SafeAppend(trace, Published(p));
      trace := trace + [Published(p)];
    }

    /** Marks in the trace which action runs. */
    ghost method Begin(a: Action)
      requires Safe(trace)
      modifies `trace
      ensures trace == old(trace) + [Began(a)] && Safe(trace)
    {
      SafeAppend(trace, Began(a));
      trace := trace + [Began(a)];
    }

    // ----- Router -----

    method PortEmpty() returns (r: Result<bool>)
      ensures r.Failure? ==> r.error != Busy
    {
      var value :- ReadSession(None);
      return Success(value.orientation == 0);
    }

    method Adopt() returns (r: Result<Adopted>)
      ensures r.Failure? ==> r.error != Busy
    {
      var value :- ReadSession(None);
      if value.orientation != 0 || value.pristine == 1 {
        return Success(Nothing);
      }
      if value.fullyRetired == 1 {
        if value.platformRetired == 1 && value.platformError == 0 {
          return if value.generation.Some? then Success(AsRetired(value.generation.value)) else Failure(Bad);
        }
        return Success(Nothing);
      }
      if !(value.prepared == 1 && value.waiting == 1 && value.complete == 0) {
        return Success(Nothing);
      }
      var batch :- ReadBatch();
      if !(batch.error == 0 && batch.terminal == 0 && batch.connectStep && batch.rearm == 0 &&
            batch.failures == Some(0)) {
        return Success(Nothing);
      }
      return if value.generation.Some? then Success(AsWaiting(value.generation.value)) else Failure(Bad);
    }

    method Prepare(former: nat) returns (r: Result<nat>)
      requires Safe(trace)
      modifies `trace, `failures
      ensures Safe(trace) && |old(trace)| <= |trace| && trace[..|old(trace)|] == old(trace)
      ensures r.Success? ==> former < r.value
      ensures r.Failure? ==> r.error != Busy
    {
      var value :- ReadSession(None);
      if value.generation.None? {
        return Failure(Bad);
      }
      var next := value.generation.value;
      if next <= former ||
         !(value.pristine == 1 && value.orientation == 0 && value.prepared == 0 && value.fullyRetired == 0) {
        return Failure(Stop);
      }
      failures := 0;
      var _ :- KernelStore(Inventory);
      var after :- ReadSession(Some(next));
      if !(after.prepared == 1 && after.waiting == 1) {
        return Failure(Stop);
      }
      return Success(next);
    }

    method Connection() returns (r: Result<Status>)
      ensures r.Failure? ==> r.error != Busy
    {
      var value :- ReadSession(Some(generation));
      if value.platformError != 0 {
        return Failure(Stop);
      }
      if value.fullyRetired == 1 {
        if value.orientation == 0 {
          if value.disconnectEvent.None? || value.initialEvent.None? {
            return Failure(Bad);
          }
          if value.disconnectEvent.value > value.initialEvent.value {
            return Success(Disconnected);
          }
        }
        return Success(RetiredAttached);
      }
      var batch :- ReadBatch();
      if batch.error != 0 {
        return Failure(Stop);
      }
      if batch.rearm == 1 {
        return Success(Abandoned);
      }
      if value.orientation == 0 {
        return Success(EmptyPort);
      }
      return Success(if value.complete == 1 then ConnectedPort else Ready);
    }

    method Rearmed() returns (r: Result<bool>)
      ensures r.Failure? ==> r.error != Busy
    {
      var value :- ReadSession(Some(generation));
      var batch :- ReadBatch();
      return Success(value.waiting == 1 && value.complete == 0 && batch.terminal == 0 && batch.error == 0 &&
                     batch.connectStep && batch.failures == Some(failures + 1));
    }

    /** Router.connect: true once the drive is published, false for replug-required. */
    method RouterConnect() returns (r: Result<bool>)
      requires Safe(trace)
      modifies `trace, `failures, `clock
      ensures Safe(trace) && old(clock) <= clock
      ensures r.Failure? ==> r.error != Busy
    {
      var stored := KernelStore(Inventory);
      if stored.Failure? {
        if stored.error != OsError(ENOTCONN) {
          return Failure(stored.error);
        }
        var again :- Rearmed();
        if !again {
          return Failure(stored.error);
        }
        failures := failures + 1;
        return Success(false);
      }
      var value :- ReadSession(Some(generation));
      if !(value.complete == 1 && value.waiting == 0) {
        return Failure(Stop);
      }
      var start := Tick();
      var deadline := start + CONNECT_BUDGET;
      var seen := ReadDisk();
      while seen.None?
        invariant Safe(trace) && old(clock) <= clock
        decreases if clock < deadline then deadline - clock else 0, seen.None?
      {
        var now := Tick();
        if now >= deadline {
          return Failure(Stop);
        }
        Pause(200);
        seen := ReadDisk();
      }
      return Success(true);
    }

    method EjectStage(stage: Stage) returns (r: Result<()>)
      requires Safe(trace) && (stage.EndpointRemove? ==> DriveFree(trace))
      modifies `trace
      ensures Safe(trace) && old(trace) <= trace
      ensures r.Success? ==> trace == old(trace) + [Store(stage, true), Receipt(stage, true)]
      ensures r.Failure? ==> r.error != Busy
    {
      var _ :- KernelStore(stage);
      var _ :- ReadReceipt(stage);
      r := Success(());
    }

    /** Router.eject */
    method RouterEject() returns (r: Result<()>)
      requires Safe(trace) && DriveFree(trace)
      modifies `trace
      ensures Safe(trace) && old(trace) <= trace
      ensures r.Success? ==> trace == old(trace) + FULL_EJECT
      ensures r.Failure? ==> r.error != Busy
    {
      var _ :- EjectStage(EndpointRemove);
      var _ :- EjectStage(TunnelQuiesce);
      var _ :- EjectStage(HostQuiesce);
      var _ :- EjectStage(PowerQuiesce);
      var _ :- ReadRetired();
      var seen := ReadDisk();
      r := if seen.None? then Success(()) else Failure(Stop);
    }

    method RouterRenew(gen: nat) returns (r: Result<()>)
      requires Sound() && forall g :: g in renewed ==> g < gen
      modifies `trace, `renewed
      ensures Sound()
      ensures trace == old(trace) + [Store(Renew(gen), r.Success?)]
      ensures renewed == if r.Success? then old(renewed) + [gen] else old(renewed)
      ensures r.Failure? ==> r.error != Busy
    {
      r := KernelStore(Renew(gen));
      if r.Success? {
        assert forall i :: 0 <= i < |renewed| ==> renewed[i] in renewed;
        renewed := renewed + [gen];
      }
    }

    method RouterPulledRetire() returns (r: Result<()>)
      requires Safe(trace)
      modifies `trace
      ensures Safe(trace)
      ensures r.Success? ==>
                trace == old(trace) + [Store(PulledRetire, true), Receipt(PulledRetire, true), FullyRetired(true)]
      ensures r.Failure? ==> r.error != Busy
    {
      var _ :- KernelStore(PulledRetire);
      var _ :- ReadReceipt(PulledRetire);
      r := ReadRetired();
    }

    /**
     * Router.idle_retire: false exactly if the kernel refused with one of two
     * errors and its state shows that it changed nothing. `why` is the
     * error of the store.
     */
    method RouterIdleRetire() returns (r: Result<bool>, ghost why: Option<Exn>)
      requires Safe(trace)
      modifies `trace
      ensures Safe(trace)
      ensures r == Success(true) <==> trace == old(trace) + IDLE_RETIRED
      ensures r == Success(false) <==>
                && why in {Some(OsError(EBUSY)), Some(OsError(EPERM))}
                && trace == old(trace) + [Store(IdleRetire, false)] + [Receipt(IdleRetire, true)]
      ensures r.Failure? ==> r.error != Busy
    {
      why := None;
      var stored := KernelStore(IdleRetire);
      if stored.Failure? {
        why := Some(stored.error);
        if stored.error.Stop? {
          return Failure(Stop), why;
        }
        var state := ReadReceipt(IdleRetire);
        if state.Failure? {
          assert trace[|trace| - 1] == Receipt(IdleRetire, false);
          return Failure(state.error), why;
        }
        if stored.error.errno == EBUSY || stored.error.errno == EPERM {
          return Success(false), why;
        }
        return Failure(stored.error), why;
      }
      var receipt := ReadReceipt(IdleRetire);
      if receipt.Failure? {
        return Failure(receipt.error), why;
      }
      var retired := ReadRetired();
      if retired.Failure? {
        assert trace[|trace| - 1] == FullyRetired(false);
        return Failure(retired.error), why;
      }
      r := Success(true);
    }

    // ----- Service -----

    method Fail()
      requires Sound() && !sleeping
      modifies `phase, `trace
      ensures Valid() && phase == Failed && trace == old(trace) + [Published(Failed)]
    {
      Publish(Failed);
    }

    /** Service.step: false once the service has failed. */
    method Step() returns (alive: bool)
      requires Valid()
      modifies this
      ensures Valid() && old(generation) <= generation && old(clock) <= clock
      ensures alive <==> phase != Failed
      ensures old(phase) == Failed ==> trace == old(trace) && phase == Failed
      ensures old(sleeping) && clock - old(sleepStarted) < SLEEP_GRACE ==>
                trace == old(trace) && sleeping && phase == old(phase) && sleepStarted == old(sleepStarted)
    {
      if phase == Failed {
        return false;
      }
      var r := StepInner();
      if r.Failure? {
        Fail();
      }
      alive := r.Success?;
    }

    method StepInner() returns (r: Result<()>)
      requires Valid() && phase != Failed
      modifies this
      ensures Sound() && old(generation) <= generation && old(clock) <= clock
      ensures r.Success? ==> Valid() && phase != Failed
      ensures r.Failure? ==> !sleeping
      ensures old(sleeping) && clock - old(sleepStarted) < SLEEP_GRACE ==>
                r.Success? && trace == old(trace) && sleeping && phase == old(phase) &&
                      sleepStarted == old(sleepStarted)
    {
      if sleeping {
        var now := Tick();
        if now - sleepStarted < SLEEP_GRACE {
          return Success(());
        }
        sleeping := false;
      }
      if phase in {Starting, UnplugToStart, Asleep} {
        r := StepStart();
      } else {
        var status :- Connection();
        r := StepStatus(status);
      }
    }

    /** Take over what a stopped service left behind. */
    method StepAdopt(adopted: Adopted) returns (r: Result<()>)
      requires Valid() && phase in {Starting, UnplugToStart, Asleep} && !sleeping
      requires generation == 0 && adopted != Nothing
      modifies `phase, `generation, `failures, `trace, `renewed
      ensures Sound() && old(generation) <= generation
      ensures r.Success? ==> Valid() && phase != Failed
      ensures r.Failure? ==> r.error != Busy
    {
      var gen := adopted.gen;
      if adopted.AsRetired? {
        var renewal := RouterRenew(gen);
        if renewal.Failure? {
          if renewal.error != OsError(EBUSY) {
            return Failure(renewal.error);
          }
          Publish(UnplugToStart);
          return Success(());
        }
        gen :- Prepare(gen);
      }
      generation := gen;
      Publish(Waiting);
      r := Success(());
    }

    /** The branch of _step for a router that is not prepared yet. */
    method StepStart() returns (r: Result<()>)
      requires Valid() && phase in {Starting, UnplugToStart, Asleep} && !sleeping
      modifies `phase, `generation, `idleRetired, `failures, `trace, `renewed
      ensures Sound() && old(generation) <= generation
      ensures r.Success? ==> Valid() && phase != Failed
      ensures r.Failure? ==> r.error != Busy
    {
      var adopted := Nothing;
      if generation == 0 {
        adopted :- Adopt();
      }
      if adopted != Nothing {
        r := StepAdopt(adopted);
        return;
      }
      var empty :- PortEmpty();
      if !empty {
        Publish(UnplugToStart);
        return Success(());
      }
      r := StepPrepare();
    }

    /** The end of that branch: renew a retired stage, then prepare the next. */
    method StepPrepare() returns (r: Result<()>)
      requires Valid() && phase in {Starting, UnplugToStart, Asleep} && !sleeping
      modifies `phase, `generation, `idleRetired, `failures, `trace, `renewed
      ensures Sound() && old(generation) <= generation
      ensures r.Success? ==> Valid() && phase != Failed
      ensures r.Failure? ==> r.error != Busy
    {
      var former := generation;
      if idleRetired {
        var renewal := RouterRenew(former);
        if renewal.Failure? {
          if renewal.error != OsError(EBUSY) {
            return Failure(renewal.error);
          }
          Publish(UnplugToStart);
          return Success(());
        }
        idleRetired := false;
      }
      generation :- Prepare(former);
      Publish(Waiting);
      r := Success(());
    }

    /** The branches of _step that depend on the connection status. */
    method StepStatus(status: Status) returns (r: Result<()>)
      requires Valid() && phase !in {Failed, Starting, UnplugToStart, Asleep} && !sleeping
      modifies `phase, `generation, `disk, `wasMounted, `failures, `clock, `trace, `renewed
      ensures Sound() && old(generation) <= generation && old(clock) <= clock
      ensures r.Success? ==> Valid() && phase != Failed
      ensures r.Failure? ==> r.error != Busy
    {
      if phase in {Connected, Releasing} && status == EmptyPort {
        Publish(Pulled);
        var _ :- RouterPulledRetire();
        disk := None;
      } else if phase == Waiting && status == Ready {
        var _ :- Connect();
      } else if phase == ReplugRequired {
        if status in {EmptyPort, Ready} {
          Publish(Waiting);
        }
      } else if phase in {Connected, Releasing} {
        r := StepAttached(status);
        return;
      } else if phase in {Pulled, ReplugAfterPull} && status == RetiredAttached {
        Publish(ReplugAfterPull);
      } else if phase in {SafeToUnplug, EjectedForSleep, Pulled, ReplugAfterPull} && status == Disconnected {
        r := StepRenew();
        return;
      }
      r := Success(());
    }

    /** A drive is plugged in and was connected. */
    method StepAttached(status: Status) returns (r: Result<()>)
      requires Valid() && phase in {Connected, Releasing} && !sleeping
      modifies `phase, `disk, `wasMounted, `trace
      ensures Sound()
      ensures r.Success? ==> Valid() && phase != Failed
      ensures r.Failure? ==> r.error != Busy
    {
      if status != ConnectedPort {
        return Failure(Stop);
      }
      r := StepConnected();
    }

    /** The drive is gone and the session retired: renew it and prepare the next. */
    method StepRenew() returns (r: Result<()>)
      requires Valid() && phase in {SafeToUnplug, EjectedForSleep, Pulled, ReplugAfterPull} && !sleeping
      modifies `phase, `generation, `failures, `trace, `renewed
      ensures Sound() && old(generation) <= generation
      ensures r.Success? ==> Valid() && phase == Waiting && old(generation) < generation
      ensures r.Failure? ==> r.error != Busy
    {
      var former := generation;
      var _ :- RouterRenew(former);
      generation :- Prepare(former);
      Publish(Waiting);
      r := Success(());
    }

    /** The end of both ejects while awake, right after the running action saw the drive free. */
    method EjectFree(ghost a: Action) returns (r: Result<()>)
      requires Sound() && a != ForSleep && EndsWith(trace, [Began(a)] + SEEN_FREE)
      modifies `phase, `disk, `trace
      ensures Sound() && old(trace) + [Published(Ejecting)] <= trace
      ensures r.Success? ==> phase == SafeToUnplug && disk == None && LastIs(trace, Published(SafeToUnplug))
      ensures r.Success? ==> trace == old(trace) + [Published(Ejecting)] + FULL_EJECT + [Published(SafeToUnplug)]
      ensures r.Failure? ==> r.error != Busy && phase == Ejecting && disk == old(disk)
    {
      Publish(Ejecting);
      FreeThenEjecting(old(trace), a, trace);
      ghost var before := trace;
      var _ :- RouterEject();
      EndsLonger(before, LookedOnce(a), FULL_EJECT);
      disk := None;
      Publish(SafeToUnplug);
      r := Success(());
    }

    /** A connected drive: notice mounts, and eject once the last one is gone everywhere. */
    method StepConnected() returns (r: Result<()>)
      requires Valid() && phase in {Connected, Releasing} && !sleeping
      modifies `phase, `disk, `wasMounted, `trace
      ensures Sound()
      ensures r.Success? ==> Valid()
      ensures r.Success? ==>
                var tr := old(trace) + [Began(Poll)];
                || (phase == Connected && wasMounted
                    && trace == tr + [Mounts(true)] + if old(phase) == Releasing then [Published(Connected)] else [])
                || (phase == old(phase) && !old(wasMounted) && trace == tr + [Mounts(false)])
                || (phase == Releasing && old(wasMounted)
                    && trace == tr + [Mounts(false), Released(false), Published(Releasing)])
                || (phase == SafeToUnplug && old(wasMounted) && trace == Ejected(old(trace), Poll))
      ensures r.Failure? ==> r.error != Busy && old(wasMounted)
      ensures r.Failure? ==>
                || (phase == old(phase) && trace == old(trace) + [Began(Poll), Mounts(false), Released(false)])
                || (phase == Ejecting && old(trace) + LookedOnce(Poll) <= trace)
    {
      Begin(Poll);
      var n := ReadMounts();
      if n > 0 {
        wasMounted := true;
        if phase == Releasing {
          Publish(Connected);
        }
      } else if wasMounted {
        var free := ReadReleased();
        if free.Failure? {
          assert trace == old(trace) + [Began(Poll), Mounts(false), Released(false)];
          return Failure(free.error);
        }
        if !free.value {
          Publish(Releasing);
          return Success(());
        }
        LookedNow(old(trace), Poll, trace);
        r := EjectFree(Poll);
        return;
      }
      r := Success(());
    }

    /** Service.connect */
    method Connect() returns (r: Result<()>)
      requires Valid() && phase == Waiting && !sleeping
      modifies `phase, `disk, `wasMounted, `failures, `clock, `trace
      ensures Sound() && old(clock) <= clock
      ensures r.Success? ==> Valid() && phase in {Connected, ReplugRequired}
      ensures r.Failure? ==> r.error != Busy
    {
      Publish(Connecting);
      var there :- RouterConnect();
      if !there {
        Publish(ReplugRequired);
        return Success(());
      }
      disk := ReadDisk();
      wasMounted := false;
      Publish(Connected);
      r := Success(());
    }

    /** Service.eject_now, for drives that were never mounted. */
    method EjectNow() returns (r: Result<()>)
      requires Valid()
      modifies `phase, `disk, `trace
      ensures Valid()
      ensures old(phase) !in {Connected, Releasing} ==>
                r == Failure(Stop) && trace == old(trace) && phase == old(phase)
      ensures r.Success? ==> phase == SafeToUnplug && disk == None && trace == Ejected(old(trace), Manual)
      ensures r.Failure? ==> phase in {old(phase), Ejecting} && disk == old(disk)
      ensures r.Failure? && phase == old(phase) ==>
                var tr := old(trace) + [Began(Manual)];
                trace in {old(trace), tr + [Mounts(true)], tr + [Mounts(false)] + [Released(false)]}
      ensures r.Failure? && phase != old(phase) ==> old(trace) + LookedOnce(Manual) <= trace
    {
      if phase !in {Connected, Releasing} {
        return Failure(Stop);
      }
      Begin(Manual);
      var n := ReadMounts();
      if n > 0 {
        return Failure(Stop);
      }
      var free :- ReadReleased();
      if !free {
        return Failure(Stop);
      }
      LookedNow(old(trace), Manual, trace);
      r := EjectFree(Manual);
    }

    /** One round of release_for_sleep; settled counts the free rounds in a row. */
    method ReleaseRound(settled: nat) returns (r: Result<nat>)
      requires Valid() && phase in {Connected, Releasing} && !sleeping
      requires settled > 0 ==> EndsWith(trace, SEEN_FREE + [Slept])
      modifies `phase, `wasMounted, `clock, `trace
      ensures Valid() && phase in {Connected, Releasing} && old(trace) <= trace
      ensures r.Success? ==> old(clock) + 500 <= clock && r.value in {0, settled + 1}
      ensures r.Success? && r.value > 0 ==> EndsWith(trace, SEEN_FREE + [Slept])
      ensures r.Success? && r.value > 1 ==> EndsWith(trace, SEEN_SETTLED)
      ensures r.Failure? ==> phase == old(phase) && old(clock) <= clock
    {
      var count := 0;
      var n := ReadMounts();
      if n > 0 {
        var i := 0;
        while i < n
          decreases n - i
        {
          var unmounted: bool := *;
          if !unmounted {
            return Failure(Busy);
          }
          i := i + 1;
        }
        wasMounted := true;
        Pause(500);
      } else {
        var free :- ReadReleased();
        if free {
          count := settled + 1;
          Pause(500);
          SettledRound(old(trace), settled, trace);
        } else {
          Publish(Releasing);
          Pause(500);
        }
      }
      r := Success(count);
    }

    /** Service.release_for_sleep; the desktop unmount at its start changes nothing here. */
    method ReleaseForSleep(deadline: nat, desktop: bool) returns (r: Result<()>, ghost announced: seq<Event>)
      requires Valid() && phase in {Connected, Releasing} && !sleeping
      modifies `phase, `disk, `wasMounted, `clock, `trace
      ensures Sound() && old(clock) <= clock
      ensures r.Success? ==> Valid() && disk == None && EndsWith(trace, SETTLED_TWICE + FULL_EJECT)
      ensures r == Failure(Busy) ==> Valid() && phase in {Connected, Releasing}
      ensures old(trace) + [Began(ForSleep)] <= announced <= trace
      ensures phase in {Connected, Releasing} || EndsWith(announced, SETTLED_TWICE)
    {
      Begin(ForSleep);
      if desktop {
        var n := ReadMounts();
      }
      var settled := 0;
      while settled < 2
        invariant Valid() && phase in {Connected, Releasing} && !sleeping && settled <= 2 && old(clock) <= clock
        invariant old(trace) + [Began(ForSleep)] <= trace
        invariant settled > 0 ==> EndsWith(trace, SEEN_FREE + [Slept])
        invariant settled == 2 ==> EndsWith(trace, SEEN_SETTLED)
        decreases if clock < deadline then deadline - clock else 0, 2 - settled
      {
        var now := Tick();
        if now >= deadline {
          return Failure(Busy), trace;
        }
        var round := ReleaseRound(settled);
        if round.Failure? {
          return Failure(round.error), trace;
        }
        settled := round.value;
      }
      r, announced := EjectSettled();
    }

    /** The end of release_for_sleep. */
    method EjectSettled() returns (r: Result<()>, ghost announced: seq<Event>)
      requires Sound() && EndsWith(trace, SEEN_SETTLED)
      modifies `phase, `disk, `trace
      ensures Sound() && phase == Ejecting && old(trace) <= announced <= trace && EndsWith(announced, SETTLED_TWICE)
      ensures r.Success? ==> disk == None && EndsWith(trace, SETTLED_TWICE + FULL_EJECT)
      ensures r.Failure? ==> r.error != Busy
    {
      Publish(Ejecting);
      SettledThenEjecting(old(trace), trace);
      announced := trace;
      r := RouterEject();
      if r.Success? {
        EndsLonger(announced, SETTLED_TWICE, FULL_EJECT);
        disk := None;
      }
    }

    /** What the loop body of sleep_pre does before it looks at the time. */
    method SleepAttempt(deadline: nat, desktop: bool) returns (r: Result<Attempt>)
      requires Valid() && !Parked(phase) && phase != Failed
      modifies `phase, `disk, `wasMounted, `idleRetired, `failures, `clock, `trace
      ensures Sound() && old(clock) <= clock
      ensures r.Success? ==> Valid()
      ensures r == Success(PoweredDown) ==> Parked(phase)
      ensures r == Success(NewDrive) ==> old(phase) == Waiting && phase in {Connected, ReplugRequired}
      ensures r == Success(NotYet) ==> phase == old(phase)
      ensures r == Failure(Busy) ==> Valid() && phase != Failed
    {
      if phase in {Waiting, ReplugRequired} {
        var retired, refused :- RouterIdleRetire();
        if retired {
          idleRetired := true;
          Publish(Asleep);
          return Success(PoweredDown);
        }
        if phase == Waiting {
          var status :- Connection();
          if status == Ready {
            var _ :- Connect();
            return Success(NewDrive);
          }
        }
      } else if phase in {Connected, Releasing} {
        var _, announced :- ReleaseForSleep(deadline, desktop);
        Publish(EjectedForSleep);
        return Success(PoweredDown);
      }
      r := Success(NotYet);
    }

    /** The end of a round of sleep_pre: give up at the deadline, else wait half a second. */
    method SleepWait(deadline: nat) returns (r: Result<()>)
      requires Valid() && !Parked(phase)
      modifies `clock, `trace
      ensures Valid() && old(clock) <= clock
      ensures r.Success? ==> old(clock) < deadline && old(clock) + 500 <= clock
      ensures r.Failure? ==> r.error == Stop && trace == old(trace)
    {
      var now := Tick();
      if now >= deadline {
        return Failure(Stop);
      }
      Pause(500);
      r := Success(());
    }

    /** Service.sleep_pre. Only the round that connects a drive takes no time, and it can
        happen once; every other round moves towards the deadline. */
    method SleepPre(desktop: bool) returns (r: Result<()>, ghost rounds: nat, ghost untimed: nat)
      requires Valid()
      modifies this
      ensures Sound() && generation == old(generation) && renewed == old(renewed) && old(clock) <= clock
      ensures refusal == old(refusal)
      ensures r.Success? ==> Valid() && sleeping && Parked(phase) && old(clock) <= sleepStarted
      ensures r == Failure(Busy) ==> Valid() && phase != Failed
      ensures r.Failure? && r.error != Busy ==> !sleeping
      ensures Parked(old(phase)) ==> r.Success? && trace == old(trace) && phase == old(phase)
      ensures old(phase) == Failed ==> r == Failure(Stop) && trace == old(trace) && phase == Failed
      ensures untimed <= 1 && rounds <= SLEEP_BUDGET / 500 + 1
    {
      var start := Tick();
      var deadline := start + SLEEP_BUDGET;
      rounds, untimed := 0, 0;
      while !Parked(phase)
        invariant Valid() && old(clock) <= start <= clock
        invariant generation == old(generation) && renewed == old(renewed) && refusal == old(refusal)
        invariant untimed <= 1 && (phase == Waiting ==> untimed == 0)
        invariant rounds >= untimed && 500 * (rounds - untimed) <= clock - start
        invariant rounds > untimed ==> 500 * (rounds - untimed) <= SLEEP_BUDGET
        invariant Parked(old(phase)) || old(phase) == Failed ==> phase == old(phase) && trace == old(trace)
        decreases if phase == Waiting then 1 else 0, if clock < deadline then deadline - clock else 0, !Parked(phase)
      {
        if phase == Failed {
          return Failure(Stop), rounds, untimed;
        }
        var attempt := SleepAttempt(deadline, desktop);
        if attempt.Failure? {
          return Failure(attempt.error), rounds, untimed;
        }
        if attempt.value == PoweredDown {
          break;
        }
        if attempt.value == NewDrive {
          rounds, untimed := rounds + 1, untimed + 1;
          continue;
        }
        var waited := SleepWait(deadline);
        if waited.Failure? {
          return Failure(Stop), rounds, untimed;
        }
        rounds := rounds + 1;
      }
      sleeping := true;
      sleepStarted := Tick();
      r := Success(());
    }

    method SleepPost()
      requires Valid()
      modifies `sleeping, `refusal
      ensures Valid() && !sleeping && refusal == None
    {
      sleeping := false;
      refusal := None;
    }

    /** Service.sleep_request: 'pre' or 'post', from the hook or from logind's announcement. */
    method SleepRequest(pre: bool, desktop: bool) returns (ok: bool)
      requires Valid()
      modifies this
      ensures Valid() && generation == old(generation) && renewed == old(renewed) && old(clock) <= clock
      ensures pre && ok ==> sleeping && Parked(phase)
      ensures !pre ==> ok && !sleeping && phase == old(phase) && trace == old(trace)
      ensures old(phase) == Failed ==> phase == Failed && StoresOf(trace) == StoresOf(old(trace))
      ensures Parked(old(phase)) ==> trace == old(trace) && phase == old(phase)
      ensures old(sleeping) && pre ==> sleeping && old(sleepStarted) <= sleepStarted
    {
      if !pre {
        SleepPost();
        return true;
      }
      var now := Tick();
      if !desktop && refusal.Some? && now - refusal.value < REFUSAL_REUSE {
        return false;
      }
      ok := SleepAnswer(desktop);
    }

    /** The attempt itself: busy is a refusal, any other error is a failure. */
    method SleepAnswer(desktop: bool) returns (ok: bool)
      requires Valid()
      modifies this
      ensures Valid() && generation == old(generation) && renewed == old(renewed) && old(clock) <= clock
      ensures ok ==> sleeping && Parked(phase)
      ensures old(phase) == Failed ==> phase == Failed && StoresOf(trace) == StoresOf(old(trace))
      ensures Parked(old(phase)) ==> trace == old(trace) && phase == old(phase)
      ensures old(sleeping) ==> sleeping && old(sleepStarted) <= sleepStarted
    {
      var r, rounds, untimed := SleepPre(desktop);
      if r == Failure(Busy) {
        if desktop {
          var at := Tick();
          refusal := Some(at);
        }
        return false;
      }
      if r.Failure? {
        Fail();
        assert old(phase) == Failed ==> trace[..|trace| - 1] == old(trace);
        return false;
      }
      ok := true;
    }
  }

  /** What serve() may ask of the service, in any order. */
  datatype Call = CallStep | CallEject | CallPre(desktop: bool) | CallPost

  method Perform(s: Service, c: Call)
    requires s.Valid()
    modifies s
    ensures s.Valid() && old(s.generation) <= s.generation && old(s.clock) <= s.clock
    ensures old(s.phase) == Failed ==> s.phase == Failed && StoresOf(s.trace) == StoresOf(old(s.trace))
    ensures old(s.sleeping) && !c.CallPost? && s.clock - old(s.sleepStarted) < SLEEP_GRACE ==>
              s.trace == old(s.trace) && s.sleeping && s.phase == old(s.phase) && old(s.sleepStarted) <= s.sleepStarted
  {
    match c
    case CallStep =>
      var alive := s.Step();
    case CallEject =>
      var r := s.EjectNow();
    case CallPre(desktop) =>
      var ok := s.SleepRequest(true, desktop);
    case CallPost =>
      var ok := s.SleepRequest(false, false);
  }

  /** Every run, whatever the kernel answers: removals and safe phases stay justified, each
      generation is renewed at most once, generations only grow, and failure is final. */
  method Run(s: Service, calls: seq<Call>)
    requires s.Valid()
    modifies s
    ensures Safe(s.trace) && Increasing(s.renewed)
    ensures s.phase != Failed ==> forall g :: g in s.renewed ==> g < s.generation
    ensures Justified(s.trace) && Promised(s.trace, s.phase)
    ensures s.phase in {SafeToUnplug, EjectedForSleep} ==> s.disk == None
    ensures old(s.generation) <= s.generation
    ensures old(s.phase) == Failed ==> s.phase == Failed && StoresOf(s.trace) == StoresOf(old(s.trace))
  {
    for i := 0 to |calls|
      invariant s.Valid() && old(s.generation) <= s.generation
      invariant old(s.phase) == Failed ==> s.phase == Failed && StoresOf(s.trace) == StoresOf(old(s.trace))
    {
      Perform(s, calls[i]);
    }
    SafeIsJustified(s.trace);
    SafeIsPromised(s.trace, s.phase);
  }

  /** From a successful 'pre' on, nothing reaches the router until 'post' or the grace time. */
  method RunAsleep(s: Service, calls: seq<Call>)
    requires s.Valid() && s.sleeping && CallPost !in calls
    modifies s
    ensures s.Valid()
    ensures s.clock - old(s.sleepStarted) < SLEEP_GRACE ==>
              s.trace == old(s.trace) && s.sleeping && s.phase == old(s.phase)
  {
    for i := 0 to |calls|
      invariant s.Valid() && old(s.clock) <= s.clock
      invariant s.clock - old(s.sleepStarted) < SLEEP_GRACE ==>
                  s.trace == old(s.trace) && s.sleeping && s.phase == old(s.phase) &&
                        old(s.sleepStarted) <= s.sleepStarted
    {
      Perform(s, calls[i]);
    }
  }

  ghost function StoresOf(tr: seq<Event>): seq<Event> {
    if tr == [] then []
    else StoresOf(tr[..|tr| - 1]) + if tr[|tr| - 1].Store? then [tr[|tr| - 1]] else []
  }

  lemma LookedNow(tr: seq<Event>, a: Action, tr': seq<Event>)
    requires tr' == tr + [Began(a)] + [Mounts(false)] + [Released(true)]
    ensures tr' == tr + ([Began(a)] + SEEN_FREE) && EndsWith(tr', [Began(a)] + SEEN_FREE)
  {
    assert tr'[|tr|..] == [Began(a)] + SEEN_FREE;
  }

  /** What follows a pattern extends it. */
  lemma EndsLonger(tr: seq<Event>, pat: seq<Event>, more: seq<Event>)
    requires EndsWith(tr, pat)
    ensures EndsWith(tr + more, pat + more)
  {
    assert (tr + more)[|tr| - |pat|..] == tr[|tr| - |pat|..] + more;
  }

  lemma FreeThenEjecting(tr: seq<Event>, a: Action, tr': seq<Event>)
    requires a != ForSleep && EndsWith(tr, [Began(a)] + SEEN_FREE) && tr' == tr + [Published(Ejecting)]
    ensures DriveFree(tr') && EndsWith(tr', LookedOnce(a))
  {
    EndsLonger(tr, [Began(a)] + SEEN_FREE, [Published(Ejecting)]);
  }

  lemma SettledThenEjecting(tr: seq<Event>, tr': seq<Event>)
    requires EndsWith(tr, SEEN_SETTLED) && tr' == tr + [Published(Ejecting)]
    ensures DriveFree(tr') && EndsWith(tr', SETTLED_TWICE)
  {
    EndsLonger(tr, SEEN_SETTLED, [Published(Ejecting)]);
  }

  lemma SettledRound(tr: seq<Event>, settled: nat, tr': seq<Event>)
    requires settled > 0 ==> EndsWith(tr, SEEN_FREE + [Slept])
    requires tr' == tr + SEEN_FREE + [Slept]
    ensures EndsWith(tr', SEEN_FREE + [Slept])
    ensures settled > 0 ==> EndsWith(tr', SEEN_SETTLED)
  {
    assert tr'[|tr'| - 3..] == SEEN_FREE + [Slept];
    if settled > 0 {
      assert tr'[|tr'| - 6..] == tr[|tr| - 3..] + (SEEN_FREE + [Slept]);
    }
  }
}
