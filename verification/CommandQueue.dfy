/** The ITS command queue: a ring shared between CPUs that post under a lock and
    an ITS that consumes up to CWRITER whenever it likes, and the polling wait
    that decides from CREADR alone whether posted commands were consumed. */
module CommandQueue {
  import opened Options

  const ENTRIES := 2048          // ITS_CMD_QUEUE_NR_ENTRIES
  const CMD_SIZE := 32           // sizeof(struct its_cmd_block)
  const QUEUE_SZ := 65536        // ITS_CMD_QUEUE_SZ
  const POLLS := 1000000         // one second of one microsecond polls

  datatype Command = Cleared | Built(code: nat)

  /** The byte offset a queue register shows for the unbounded position p. */
  function Offset(p: nat): (o: nat)
    ensures o < QUEUE_SZ && o % CMD_SIZE == 0
  {
    p % ENTRIES * CMD_SIZE
  }

  lemma SlotsDiffer(a: nat, b: nat)
    requires a < b < a + ENTRIES
    ensures a % ENTRIES != b % ENTRIES
  {
  }

  lemma NextSlot(p: nat)
    ensures (p + 1) % ENTRIES == if p % ENTRIES + 1 == ENTRIES then 0 else p % ENTRIES + 1
  {
  }

  class ItsQueue {
    const slots: array<Command>
    var write: nat                 // cmd_write - cmd_base
    var creadr: nat                // GITS_CREADR, moved by the ITS only
    var cwriter: nat               // GITS_CWRITER, written by the CPUs only
    var executed: seq<Command>     // what the ITS has fetched so far
    ghost var log: seq<Command>    // every entry ever allocated, in order
    ghost var posted: nat          // how many of them CWRITER has announced
    ghost var consumed: nat        // how many of them the ITS has fetched

    ghost predicate Valid()
      reads this, slots
    {
      && slots.Length == ENTRIES
      && consumed <= posted <= |log| < consumed + ENTRIES
      && write == |log| % ENTRIES
      && cwriter == Offset(posted)
      && creadr == Offset(consumed)
      && (forall k :: consumed <= k < |log| ==> slots[k % ENTRIES] == log[k])
      && executed == log[..consumed]
    }

    constructor ()
      ensures Valid() && fresh(slots) && log == [] && posted == 0 && consumed == 0
    {
      slots := new Command[ENTRIES](_ => Cleared);
      write, creadr, cwriter, executed := 0, 0, 0, [];
      log, posted, consumed := [], 0, 0;
    }

    /** The ITS fetches the entry at CREADR, unless it has caught up with CWRITER. */
    method HardwareStep()
      requires Valid()
      modifies this`creadr, this`executed, this`consumed
      ensures Valid()
      ensures consumed == if old(consumed) < posted then old(consumed) + 1 else old(consumed)
    {
      if creadr != cwriter {
        NextSlot(consumed);
        assert slots[consumed % ENTRIES] == log[consumed];
        executed := executed + [slots[creadr / CMD_SIZE]];
        creadr := (creadr + CMD_SIZE) % QUEUE_SZ;
        consumed := consumed + 1;
      } else if consumed < posted {
        SlotsDiffer(consumed, posted);
      }
    }

    /** Any amount of ITS progress; it may happen before every CPU access. */
    method HardwareRuns()
      requires Valid()
      modifies this`creadr, this`executed, this`consumed
      ensures Valid() && old(consumed) <= consumed
    {
      var k: nat := *;
      while k > 0
        invariant Valid() && old(consumed) <= consumed
      {
        HardwareStep();
        k := k - 1;
      }
    }

    /** its_queue_full */
    method QueueFull() returns (full: bool)
      requires Valid()
      modifies this`creadr, this`executed, this`consumed
      ensures Valid() && old(consumed) <= consumed
      ensures full <==> |log| == consumed + ENTRIES - 1
    {
      HardwareRuns();
      var ridx := creadr / CMD_SIZE;
      full := (write + 1) % ENTRIES == ridx;
      FullTest(|log|, consumed);
    }

    /** its_allocate_entry: None once the queue did not drain within a second. */
    method AllocateEntry() returns (slot: Option<nat>)
      requires Valid()
      modifies this, slots
      ensures Valid() && posted == old(posted) && old(consumed) <= consumed
      ensures slot.None? ==> log == old(log) && consumed == old(consumed) && |log| == consumed + ENTRIES - 1
      ensures slot.Some? ==> log == old(log) + [Cleared] && slot.value == |old(log)| % ENTRIES
      ensures slot.Some? ==> forall k :: consumed <= k < |old(log)| ==> slot.value != k % ENTRIES
    {
      var count := POLLS;
      var full := QueueFull();
      while full
        invariant Valid() && posted == old(posted) && old(consumed) <= consumed && log == old(log)
        invariant full <==> |log| == consumed + ENTRIES - 1
        invariant count > 0
        decreases count
      {
        count := count - 1;
        if count == 0 {
          return None;
        }
        full := QueueFull();
      }
      var at := write;
      NextSlot(|log|);
      write := write + 1;
      if write == ENTRIES {
        write := 0;
      }
      KeptBySlotWrite(log, consumed, |log|, Cleared);
      slots[at] := Cleared;
      log := log + [Cleared];
      slot := Some(at);
    }

    /** The builder fills in an entry that was allocated but not yet posted. */
    method Build(at: nat, ghost k: nat, c: Command)
      requires Valid() && posted <= k < |log| && at == k % ENTRIES
      modifies slots, this`log
      ensures Valid() && log == old(log)[k := c]
    {
      forall j | consumed <= j < |log| && j != k
        ensures j % ENTRIES != at
      {
        if j < k {
          SlotsDiffer(j, k);
        } else {
          SlotsDiffer(k, j);
        }
      }
      slots[at] := c;
      log := log[k := c];
    }

    /** its_post_commands: announce everything written so far. */
    method PostCommands() returns (next: nat)
      requires Valid()
      modifies this`cwriter, this`posted
      ensures Valid() && posted == |log| && next == Offset(|log|)
    {
      cwriter := write * CMD_SIZE;
      posted := |log|;
      next := write * CMD_SIZE;
    }

    /** BUILD_SINGLE_CMD_FUNC up to the unlock. On success rdIdx is the CREADR sample
        and next the target the wait will use; r0 is the position behind the sample. */
    method SendCommand(c: Command, sync: Option<Command>)
      returns (ok: bool, rdIdx: nat, next: nat, ghost r0: nat, ghost n: nat)
      requires Valid() && posted == |log|
      modifies this, slots
      ensures Valid() && posted == |log| && old(consumed) <= consumed
      ensures n <= |Job(c, sync).Commands()| && log == old(log) + Job(c, sync).Commands()[..n]
      ensures ok <==> n > 0
      ensures ok ==> old(consumed) <= r0 <= consumed && r0 <= |old(log)| && |log| < r0 + ENTRIES
      ensures ok ==> rdIdx == Offset(r0) && next == Offset(|log|)
    {
      rdIdx, next, r0 := 0, 0, 0;
      ok, n := WriteEntries(c, sync);
      if !ok {
        return;
      }
      HardwareRuns();
      rdIdx := creadr;
      r0 := consumed;
      next := PostCommands();
    }

    /** The entries of the command and its sync, as far as the queue has room. */
    method WriteEntries(c: Command, sync: Option<Command>) returns (ok: bool, ghost n: nat)
      requires Valid() && posted == |log|
      modifies this, slots
      ensures Valid() && posted == old(posted) && old(consumed) <= consumed
      ensures n <= |Job(c, sync).Commands()| && log == old(log) + Job(c, sync).Commands()[..n]
      ensures ok <==> n > 0
    {
      n := 0;
      var slot := AllocateEntry();
      if slot.None? {
        return false, 0;
      }
      Build(slot.value, |old(log)|, c);
      ok, n := true, 1;
      assert log == old(log) + [c];
      if sync.Some? {
        var syncSlot := AllocateEntry();
        if syncSlot.Some? {
          Build(syncSlot.value, |log| - 1, sync.value);
          n := 2;
          assert log == old(log) + [c, sync.value];
        }
      }
    }

    /** One lock holder, with the ITS running before and after. */
    method PostOne(job: Job) returns (ghost n: nat)
      requires Valid() && posted == |log|
      modifies this, slots
      ensures Valid() && posted == |log| && old(consumed) <= consumed
      ensures n <= |job.Commands()| && log == old(log) + job.Commands()[..n]
    {
      HardwareRuns();
      var ok, rdIdx, next;
      ghost var r0;
      ok, rdIdx, next, r0, n := SendCommand(job.cmd, job.sync);
      HardwareRuns();
    }

    /** Any number of lock holders one after the other, on whatever CPUs: the ITS fetches
        a prefix of what they built, in the order in which they held the lock. */
    method PostAll(jobs: seq<Job>) returns (ghost sizes: seq<nat>)
      requires Valid() && posted == |log|
      modifies this, slots
      ensures Valid() && posted == |log| && old(consumed) <= consumed
      ensures Granted(jobs, sizes)
      ensures log == old(log) + Entries(jobs, sizes)
      ensures executed == (old(log) + Entries(jobs, sizes))[..consumed] && |log| < consumed + ENTRIES
    {
      sizes := [];
      for i := 0 to |jobs|
        invariant Valid() && posted == |log| && old(consumed) <= consumed
        invariant Granted(jobs[..i], sizes) && log == old(log) + Entries(jobs[..i], sizes)
      {
        ghost var n := PostOne(jobs[i]);
        EntriesSnoc(jobs[..i], jobs[i], sizes, n);
        assert jobs[..i + 1] == jobs[..i] + [jobs[i]];
        sizes := sizes + [n];
      }
      assert jobs[..|jobs|] == jobs;
    }

    /**
     * BUILD_SINGLE_CMD_FUNC with its wait. Between two polls the ITS runs and other
     * CPUs post others[i]. `end` is the position after the caller's own entries:
     * success means that the ITS has consumed them, and unless it ran a full lap
     * between two polls, giving up means that it has not.
     */
    method SendAndWait(c: Command, sync: Option<Command>, others: seq<seq<Job>>)
      returns (sent: bool, done: bool, ghost end: nat, ghost lapped: bool)
      requires Valid() && posted == |log| && |others| == POLLS
      modifies this, slots
      ensures Valid() && posted == |log|
      ensures !sent ==> !done && log == old(log)
      ensures sent ==> |old(log)| < end <= |old(log)| + |Job(c, sync).Commands()| && end <= |log|
      ensures sent ==> log[..end] == old(log) + Job(c, sync).Commands()[..end - |old(log)|]
      ensures done ==> end <= consumed
      ensures sent && !done && !lapped ==> consumed < end
    {
      ghost var r0, n;
      var rdIdx, next;
      sent, rdIdx, next, r0, n := SendCommand(c, sync);
      done, end, lapped := false, |log|, false;
      if !sent {
        return;
      }
      ghost var own := log;
      done, lapped := Wait(rdIdx, next, r0, end, others);
      assert log[..end] == own;
    }

    /** The polling loop of its_wait_for_range_completion, on the running queue. */
    method Wait(fromIdx: nat, to: nat, ghost r0: nat, ghost end: nat, others: seq<seq<Job>>)
      returns (done: bool, ghost lapped: bool)
      requires Valid() && posted == |log| && |others| == POLLS
      requires r0 <= end < r0 + ENTRIES && r0 <= consumed && end == |log|
      requires fromIdx == Offset(r0) && to == Offset(end)
      modifies this, slots
      ensures Valid() && posted == |log| && old(log) <= log
      ensures done ==> end <= consumed
      ensures !done && !lapped ==> consumed < end
    {
      var toIdx := LinearTarget(fromIdx, to);
      var linear: int, prevIdx := fromIdx, fromIdx;
      ghost var samples: seq<nat>, positions: seq<nat> := [], [];
      for i := 0 to POLLS
        invariant Valid() && posted == |log| && old(log) <= log
        invariant |samples| == i && Advances(r0, positions) && Shows(positions, samples)
        invariant Last(r0, positions) <= consumed && (i > 0 ==> Last(r0, positions) == consumed)
        invariant linear == Linear(fromIdx, samples) && prevIdx == LastSample(fromIdx, samples)
        invariant i > 0 ==> linear < toIdx
      {
        ghost var sizes := PostAll(others[i]);
        HardwareRuns();
        var now := creadr;
        Polled(r0, positions, samples, consumed);
        positions, samples := positions + [consumed], samples + [now];
        linear := linear + Delta(prevIdx, now);
        if linear >= toIdx {
          Reached(r0, end, positions, samples);
          return true, false;
        }
        prevIdx := now;
      }
      lapped := !LessThanALap(r0, positions);
      if !lapped {
        NotReached(r0, end, positions, samples);
      }
      done := false;
    }
  }

  /** One use of the send macro: a command and, if the builder returned an object, its sync. */
  datatype Job = Job(cmd: Command, sync: Option<Command>) {
    function Commands(): seq<Command> {
      if sync.Some? then [cmd, sync.value] else [cmd]
    }
  }

  /** Job i got sizes[i] of its entries into the queue. */
  ghost predicate Granted(jobs: seq<Job>, sizes: seq<nat>) {
    |jobs| == |sizes| && forall i :: 0 <= i < |jobs| ==> sizes[i] <= |jobs[i].Commands()|
  }

  /** The entries of all jobs, of which job i got the first sizes[i]. */
  ghost function Entries(jobs: seq<Job>, sizes: seq<nat>): seq<Command>
    requires Granted(jobs, sizes)
  {
    if jobs == [] then []
    else
      var n := |jobs| - 1;
      Entries(jobs[..n], sizes[..n]) + jobs[n].Commands()[..sizes[n]]
  }

  lemma FullTest(taken: nat, consumed: nat)
    requires consumed <= taken < consumed + ENTRIES
    ensures (taken % ENTRIES + 1) % ENTRIES == Offset(consumed) / CMD_SIZE <==> taken == consumed + ENTRIES - 1
  {
  }

  lemma KeptBySlotWrite(log: seq<Command>, consumed: nat, at: nat, c: Command)
    requires consumed <= |log| < consumed + ENTRIES - 1 && at == |log|
    ensures forall k :: consumed <= k < |log| ==> k % ENTRIES != at % ENTRIES
  {
    forall k | consumed <= k < |log|
      ensures k % ENTRIES != at % ENTRIES
    {
      SlotsDiffer(k, at);
    }
  }

  lemma EntriesSnoc(jobs: seq<Job>, job: Job, sizes: seq<nat>, n: nat)
    requires Granted(jobs, sizes) && n <= |job.Commands()|
    ensures Granted(jobs + [job], sizes + [n])
    ensures Entries(jobs + [job], sizes + [n]) == Entries(jobs, sizes) + job.Commands()[..n]
  {
    assert (jobs + [job])[..|jobs|] == jobs && (sizes + [n])[..|jobs|] == sizes;
  }

  // ------------------------------------------------------------------
  // its_wait_for_range_completion
  // ------------------------------------------------------------------

  /** How far CREADR moved between two samples, assuming less than one lap. */
  function Delta(prev: nat, now: nat): (d: int)
  {
    if now < prev then now - prev + QUEUE_SZ else now - prev
  }

  /** The linearised read index after all the samples in samples. */
  function Linear(prev: nat, samples: seq<nat>): (index: int)
  {
    if samples == [] then prev
    else
      var n := |samples| - 1;
      Linear(prev, samples[..n]) + Delta(if n == 0 then prev else samples[n - 1], samples[n])
  }

  function LinearTarget(prev: nat, to: nat): (target: nat)
  {
    if to < prev then to + QUEUE_SZ else to
  }

  function LastSample(prev: nat, samples: seq<nat>): nat
  {
    if samples == [] then prev else samples[|samples| - 1]
  }

  /** samples[i] is what CREADR shows at poll i. */
  method WaitForRange(prev: nat, to: nat, samples: seq<nat>) returns (done: bool, polls: nat)
    requires |samples| == POLLS
    ensures 0 < polls <= POLLS
    ensures done <==> Linear(prev, samples[..polls]) >= LinearTarget(prev, to)
    ensures !done ==> polls == POLLS
    ensures forall i :: 0 < i < polls ==> Linear(prev, samples[..i]) < LinearTarget(prev, to)
  {
    var toIdx := to;
    if toIdx < prev {
      toIdx := toIdx + QUEUE_SZ;
    }
    var linear: int := prev;
    var prevIdx := prev;
    polls := 0;
    var count := POLLS;
    while true
      invariant 0 < count == POLLS - polls
      invariant linear == Linear(prev, samples[..polls])
      invariant prevIdx == if polls == 0 then prev else samples[polls - 1]
      invariant forall i :: 0 < i <= polls ==> Linear(prev, samples[..i]) < LinearTarget(prev, to)
      decreases count
    {
      var rdIdx: int := samples[polls];
      var delta: int := rdIdx - prevIdx;
      if rdIdx < prevIdx {
        delta := delta + QUEUE_SZ;
      }
      linear := linear + delta;
      assert samples[..polls + 1][..polls] == samples[..polls];
      polls := polls + 1;
      if linear >= toIdx {
        return true, polls;
      }
      count := count - 1;
      if count == 0 {
        return false, polls;
      }
      prevIdx := rdIdx;
    }
  }

  /** The true positions of the ITS at the polls: it never moves back. */
  ghost predicate Advances(r0: nat, positions: seq<nat>) {
    && (forall i :: 0 <= i < |positions| ==> r0 <= positions[i])
    && (forall i, j :: 0 <= i < j < |positions| ==> positions[i] <= positions[j])
  }

  ghost predicate Shows(positions: seq<nat>, samples: seq<nat>) {
    |positions| == |samples| && forall i :: 0 <= i < |samples| ==> samples[i] == Offset(positions[i])
  }

  ghost predicate LessThanALap(r0: nat, positions: seq<nat>) {
    forall i {:trigger Before(r0, positions, i)} :: 0 <= i < |positions| ==>
          positions[i] < Before(r0, positions, i) + ENTRIES
  }

  ghost function Before(r0: nat, positions: seq<nat>, i: nat): nat
    requires i <= |positions|
  {
    if i == 0 then r0 else positions[i - 1]
  }

  lemma DeltaOfMove(a: nat, b: nat)
    requires a <= b
    ensures Delta(Offset(a), Offset(b)) <= CMD_SIZE * (b - a)
    ensures Delta(Offset(a), Offset(b)) == CMD_SIZE * (b - a) <==> b < a + ENTRIES
  {
  }

  ghost function Last(r0: nat, positions: seq<nat>): nat {
    if positions == [] then r0 else positions[|positions| - 1]
  }

  lemma LapPrefix(r0: nat, positions: seq<nat>, n: nat)
    requires n <= |positions|
    ensures LessThanALap(r0, positions) ==> LessThanALap(r0, positions[..n])
    ensures n == |positions| - 1 ==>
              (LessThanALap(r0, positions) <==>
               LessThanALap(r0, positions[..n]) && positions[n] < Last(r0, positions[..n]) + ENTRIES)
  {
    assert forall i :: 0 <= i <= n ==> Before(r0, positions[..n], i) == Before(r0, positions, i);
    assert n < |positions| ==> Before(r0, positions, n) == Last(r0, positions[..n]);
    if LessThanALap(r0, positions) {
      forall i | 0 <= i < n
        ensures positions[..n][i] < Before(r0, positions[..n], i) + ENTRIES
      {
        assert Before(r0, positions[..n], i) == Before(r0, positions, i);
      }
    }
    if n == |positions| - 1 && LessThanALap(r0, positions[..n]) && positions[n] < Last(r0, positions[..n]) + ENTRIES {
      forall i | 0 <= i <= n
        ensures positions[i] < Before(r0, positions, i) + ENTRIES
      {
        assert Before(r0, positions[..n], i) == Before(r0, positions, i);
        assert i < n ==> positions[..n][i] == positions[i];
      }
    }
  }

  lemma SampleStep(start: nat, r0: nat, a: nat, b: nat, before: int, after: int)
    requires r0 <= a <= b
    requires before <= start + CMD_SIZE * (a - r0)
    requires after == before + Delta(Offset(a), Offset(b))
    ensures after <= start + CMD_SIZE * (b - r0)
    ensures after == start + CMD_SIZE * (b - r0) <==> before == start + CMD_SIZE * (a - r0) && b < a + ENTRIES
  {
    DeltaOfMove(a, b);
  }

  /** The linearised index never runs ahead of the ITS, and it is exact as long as
      the ITS moves less than one lap between polls, and only then. */
  lemma {:induction false} LinearRefines(r0: nat, positions: seq<nat>, samples: seq<nat>)
    requires Advances(r0, positions) && Shows(positions, samples)
    ensures Linear(Offset(r0), samples) <= Offset(r0) + CMD_SIZE * (Last(r0, positions) - r0)
    ensures Linear(Offset(r0), samples) == Offset(r0) + CMD_SIZE * (Last(r0, positions) - r0) <==>
            LessThanALap(r0, positions)
    decreases |positions|
  {
    if positions != [] {
      var n := |positions| - 1;
      LinearRefines(r0, positions[..n], samples[..n]);
      var before := Linear(Offset(r0), samples[..n]);
      SampleStep(Offset(r0), r0, Last(r0, positions[..n]), positions[n], before, Linear(Offset(r0), samples));
      LapPrefix(r0, positions, n);
    }
  }

  lemma TargetIsLinear(r0: nat, target: nat)
    requires r0 <= target < r0 + ENTRIES
    ensures LinearTarget(Offset(r0), Offset(target)) == Offset(r0) + CMD_SIZE * (target - r0)
  {
  }

  lemma SameScale(start: int, r0: nat, p: nat, target: nat, linear: int, limit: int)
    requires limit == start + CMD_SIZE * (target - r0)
    ensures linear == start + CMD_SIZE * (p - r0) ==> (linear >= limit <==> p >= target)
    ensures linear <= start + CMD_SIZE * (p - r0) && linear >= limit ==> p >= target
  {
  }

  /** Success means that every command below the target was consumed by the last poll. */
  lemma WaitIsSound(r0: nat, target: nat, positions: seq<nat>, samples: seq<nat>, polls: nat)
    requires r0 <= target < r0 + ENTRIES
    requires Advances(r0, positions) && Shows(positions, samples) && 0 < polls <= |samples|
    requires Linear(Offset(r0), samples[..polls]) >= LinearTarget(Offset(r0), Offset(target))
    ensures positions[polls - 1] >= target
  {
    LinearRefines(r0, positions[..polls], samples[..polls]);
    TargetIsLinear(r0, target);
    SameScale(Offset(r0), r0, positions[polls - 1], target, Linear(Offset(r0), samples[..polls]),
              LinearTarget(Offset(r0), Offset(target)));
  }

  /** Without a full lap between polls the wait ends at the first poll that finds the
      commands consumed, whatever other CPUs post meanwhile. */
  lemma WaitIsExact(r0: nat, target: nat, positions: seq<nat>, samples: seq<nat>, polls: nat)
    requires r0 <= target < r0 + ENTRIES
    requires Advances(r0, positions) && Shows(positions, samples) && 0 < polls <= |samples|
    requires LessThanALap(r0, positions)
    ensures Linear(Offset(r0), samples[..polls]) >= LinearTarget(Offset(r0), Offset(target)) <==>
            positions[polls - 1] >= target
  {
    var linear := Linear(Offset(r0), samples[..polls]);
    assert linear == Offset(r0) + CMD_SIZE * (positions[polls - 1] - r0) by {
      LapPrefix(r0, positions, polls);
      LinearRefines(r0, positions[..polls], samples[..polls]);
    }
    TargetIsLinear(r0, target);
    SameScale(Offset(r0), r0, positions[polls - 1], target, linear, LinearTarget(Offset(r0), Offset(target)));
  }

  /** One more poll of an ITS that has moved on to `p`. */
  lemma Polled(r0: nat, positions: seq<nat>, samples: seq<nat>, p: nat)
    requires Advances(r0, positions) && Shows(positions, samples) && r0 <= p && Last(r0, positions) <= p
    ensures Advances(r0, positions + [p]) && Shows(positions + [p], samples + [Offset(p)])
    ensures Last(r0, positions + [p]) == p
    ensures Linear(Offset(r0), samples + [Offset(p)]) ==
            Linear(Offset(r0), samples) + Delta(LastSample(Offset(r0), samples), Offset(p))
  {
    assert (samples + [Offset(p)])[..|samples|] == samples;
  }

  lemma Reached(r0: nat, target: nat, positions: seq<nat>, samples: seq<nat>)
    requires r0 <= target < r0 + ENTRIES && positions != []
    requires Advances(r0, positions) && Shows(positions, samples)
    requires Linear(Offset(r0), samples) >= LinearTarget(Offset(r0), Offset(target))
    ensures Last(r0, positions) >= target
  {
    assert samples[..|samples|] == samples;
    WaitIsSound(r0, target, positions, samples, |samples|);
  }

  lemma NotReached(r0: nat, target: nat, positions: seq<nat>, samples: seq<nat>)
    requires r0 <= target < r0 + ENTRIES && positions != []
    requires Advances(r0, positions) && Shows(positions, samples) && LessThanALap(r0, positions)
    requires Linear(Offset(r0), samples) < LinearTarget(Offset(r0), Offset(target))
    ensures Last(r0, positions) < target
  {
    assert samples[..|samples|] == samples;
    WaitIsExact(r0, target, positions, samples, |samples|);
  }

  /** A lap that goes unnoticed can make the wait give up on consumed commands: here the ITS
      moves exactly one lap before the first poll and then stops. */
  lemma {:induction false} FullLapIsMissed(samples: seq<nat>)
    requires |samples| > 0 && Shows(seq(|samples|, _ => ENTRIES), samples)
    ensures Advances(0, seq(|samples|, _ => ENTRIES))
    ensures Linear(Offset(0), samples) < LinearTarget(Offset(0), Offset(1))
  {
    AllZeroReads(samples);
  }

  lemma {:induction false} AllZeroReads(samples: seq<nat>)
    requires forall i :: 0 <= i < |samples| ==> samples[i] == 0
    ensures Linear(0, samples) == 0
    decreases |samples|
  {
    if samples != [] {
      AllZeroReads(samples[..|samples| - 1]);
    }
  }
}
