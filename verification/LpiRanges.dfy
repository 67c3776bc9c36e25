/** The LPI number allocator: a list of free ranges, allocated first-fit and
    coalesced when a block comes back. */
module LpiRanges {
  import opened Options

  const FIRST_LPI := 8192
  const U32_SIZE := 0x1_0000_0000

  datatype Range = Range(base: nat, span: nat) {
    function End(): nat { base + span }

    predicate Has(x: int) { base <= x < base + span }
  }

  ghost predicate Covers(rs: seq<Range>, x: int) {
    exists i :: 0 <= i < |rs| && rs[i].Has(x)
  }

  /** The free list is sorted, its ranges are nonempty, and no two of them touch. */
  ghost predicate Canonical(rs: seq<Range>) {
    && (forall i :: 0 <= i < |rs| ==> rs[i].span > 0 && FIRST_LPI <= rs[i].base && rs[i].End() <= U32_SIZE)
    && (forall i, j :: 0 <= i < j < |rs| ==> rs[i].End() < rs[j].base)
  }

  /** All of the n numbers from b on are free. */
  ghost predicate FreeBlock(rs: seq<Range>, b: int, n: nat) {
    forall x :: b <= x < b + n ==> Covers(rs, x)
  }

  ghost predicate SameIds(rs: seq<Range>, rs': seq<Range>) {
    forall x :: Covers(rs, x) <==> Covers(rs', x)
  }

  // ------------------------------------------------------------------
  // The list is a canonical form of its set
  // ------------------------------------------------------------------

  lemma BlockWithinRange(rs: seq<Range>, b: int, n: nat) returns (i: nat)
    requires Canonical(rs) && n > 0 && FreeBlock(rs, b, n)
    ensures i < |rs| && rs[i].base <= b && b + n <= rs[i].End()
  {
    assert Covers(rs, b);
    i :| 0 <= i < |rs| && rs[i].Has(b);
    var e := rs[i].End();
    assert e < b + n ==> Covers(rs, e);
  }

  lemma TailCovers(rs: seq<Range>, x: int)
    requires Canonical(rs) && |rs| > 0
    ensures Canonical(rs[1..])
    ensures Covers(rs[1..], x) <==> Covers(rs, x) && !rs[0].Has(x)
  {
    if Covers(rs[1..], x) {
      var i :| 0 <= i < |rs[1..]| && rs[1..][i].Has(x);
      assert rs[i + 1].Has(x);
    }
    if Covers(rs, x) && !rs[0].Has(x) {
      var i :| 0 <= i < |rs| && rs[i].Has(x);
      assert rs[1..][i - 1].Has(x);
    }
  }

  /** Two canonical lists with the same numbers in them are the same list. */
  lemma {:induction false} CanonicalIsUnique(rs: seq<Range>, rs': seq<Range>)
    requires Canonical(rs) && Canonical(rs') && SameIds(rs, rs')
    ensures rs == rs'
    decreases |rs|
  {
    if |rs| == 0 {
      if |rs'| > 0 {
        assert rs'[0].Has(rs'[0].base);
        assert Covers(rs', rs'[0].base);
      }
    } else {
      var a := rs[0];
      assert a.Has(a.base);
      assert Covers(rs, a.base);
      var b := rs'[0];
      assert b.Has(b.base);
      assert Covers(rs', b.base);
      assert a.base == b.base;
      assert !Covers(rs, a.End());
      assert !Covers(rs', b.End());
      assert a.span < b.span ==> b.Has(a.End());
      assert b.span < a.span ==> a.Has(b.End());
      forall x
        ensures Covers(rs[1..], x) <==> Covers(rs'[1..], x)
      {
        TailCovers(rs, x);
        TailCovers(rs', x);
      }
      TailCovers(rs, 0);
      TailCovers(rs', 0);
      CanonicalIsUnique(rs[1..], rs'[1..]);
      assert rs == [a] + rs[1..] == [b] + rs'[1..] == rs';
    }
  }

  // ------------------------------------------------------------------
  // What the two operations promise, in terms of the set of free numbers
  // ------------------------------------------------------------------

  ghost predicate AllocPost(rs: seq<Range>, n: nat, r: Option<nat>, rs': seq<Range>) {
    match r
    case None =>
      && rs' == rs
      && (n == 0 ==> |rs| == 0)
      && (n > 0 ==> forall b: int :: !FreeBlock(rs, b, n))
    case Some(b) =>
      && FIRST_LPI <= b && b + n <= U32_SIZE
      && FreeBlock(rs, b, n)
      && (n > 0 ==> forall b': int :: b' < b ==> !FreeBlock(rs, b', n))
      && (forall x :: Covers(rs', x) <==> Covers(rs, x) && !(b <= x < b + n))
  }

  ghost predicate FreePost(rs: seq<Range>, base: nat, n: nat, rs': seq<Range>) {
    forall x :: Covers(rs', x) <==> Covers(rs, x) || base <= x < base + n
  }

  // ------------------------------------------------------------------
  // Steps of the list operations
  // ------------------------------------------------------------------

  /** The list after n numbers were cut off the front of range i. */
  function Cut(rs: seq<Range>, i: nat, n: nat): (rs': seq<Range>)
    requires i < |rs| && n <= rs[i].span
  {
    if rs[i].span == n then rs[..i] + rs[i + 1..]
    else rs[i := Range(rs[i].base + n, rs[i].span - n)]
  }

  lemma CutCovers(rs: seq<Range>, i: nat, n: nat, x: int)
    requires i < |rs| && n <= rs[i].span && Covers(Cut(rs, i, n), x)
    ensures Covers(rs, x)
  {
    var rs' := Cut(rs, i, n);
    var j :| 0 <= j < |rs'| && rs'[j].Has(x);
    var k := if rs[i].span == n && j >= i then j + 1 else j;
    assert rs[k].Has(x);
  }

  lemma CutKeeps(rs: seq<Range>, i: nat, n: nat, x: int)
    requires i < |rs| && n <= rs[i].span
    requires Covers(rs, x) && !(rs[i].base <= x < rs[i].base + n)
    ensures Covers(Cut(rs, i, n), x)
  {
    var rs' := Cut(rs, i, n);
    var j :| 0 <= j < |rs| && rs[j].Has(x);
    var k := if rs[i].span == n && j > i then j - 1 else j;
    assert rs'[k].Has(x);
  }

  lemma CutCanonical(rs: seq<Range>, i: nat, n: nat)
    requires Canonical(rs) && i < |rs| && n <= rs[i].span
    ensures Canonical(Cut(rs, i, n))
    ensures forall x :: rs[i].base <= x < rs[i].base + n ==> !Covers(Cut(rs, i, n), x)
  {
    var rs' := Cut(rs, i, n);
    if rs[i].span == n {
      assert forall j :: 0 <= j < i ==> rs'[j] == rs[j];
      assert forall j :: i <= j < |rs'| ==> rs'[j] == rs[j + 1];
    }
  }

  lemma CutResult(rs: seq<Range>, i: nat, n: nat)
    requires Canonical(rs) && i < |rs| && n <= rs[i].span
    ensures Canonical(Cut(rs, i, n))
    ensures forall x :: Covers(Cut(rs, i, n), x) <==> Covers(rs, x) && !(rs[i].base <= x < rs[i].base + n)
  {
    CutCanonical(rs, i, n);
    forall x
      ensures Covers(Cut(rs, i, n), x) <==> Covers(rs, x) && !(rs[i].base <= x < rs[i].base + n)
    {
      if Covers(Cut(rs, i, n), x) {
        CutCovers(rs, i, n, x);
      }
      if Covers(rs, x) && !(rs[i].base <= x < rs[i].base + n) {
        CutKeeps(rs, i, n, x);
      }
    }
  }

  /** merge_lpi_ranges on the elements at i and i + 1; -1 and |rs| stand for the list head. */
  function Merged(rs: seq<Range>, i: int): (rs': seq<Range>)
    requires -1 <= i < |rs|
  {
    if i < 0 || i + 1 == |rs| then rs
    else if (rs[i].base + rs[i].span) % U32_SIZE != rs[i + 1].base then rs
    else rs[..i] + [Range(rs[i].base, rs[i + 1].span + rs[i].span)] + rs[i + 2..]
  }

  /** Sorted and disjoint, where only the neighbours of position k may touch it. */
  ghost predicate Loose(rs: seq<Range>, k: int) {
    && (forall i :: 0 <= i < |rs| ==> rs[i].span > 0 && FIRST_LPI <= rs[i].base && rs[i].End() <= U32_SIZE)
    && (forall i, j :: 0 <= i < j < |rs| ==>
          rs[i].End() <= rs[j].base && (i != k && j != k ==> rs[i].End() < rs[j].base))
  }

  /** What a merge attempt at i leaves: the two ranges in one, or nothing changed. */
  ghost predicate MergeOutcome(rs: seq<Range>, i: int, rs': seq<Range>) {
    if 0 <= i && i + 1 < |rs| && rs[i].End() == rs[i + 1].base then
      && |rs'| == |rs| - 1
      && rs'[i] == Range(rs[i].base, rs[i].span + rs[i + 1].span)
      && (forall j :: 0 <= j < i ==> rs'[j] == rs[j])
      && (forall j :: i < j < |rs'| ==> rs'[j] == rs[j + 1])
    else
      rs' == rs
  }

  lemma MergedOutcome(rs: seq<Range>, i: int)
    requires -1 <= i < |rs|
    requires 0 <= i && i + 1 < |rs| ==> 0 < rs[i + 1].base < U32_SIZE && 0 <= rs[i].End() <= U32_SIZE
    ensures MergeOutcome(rs, i, Merged(rs, i))
  {
    if 0 <= i && i + 1 < |rs| {
      Wraps(rs[i].End());
      Joined(rs, i, Range(rs[i].base, rs[i + 1].span + rs[i].span));
    }
  }

  /** Only the very end of the number space wraps. */
  lemma Wraps(x: int)
    requires 0 <= x <= U32_SIZE
    ensures x % U32_SIZE == if x == U32_SIZE then 0 else x
  {
  }

  lemma Joined(rs: seq<Range>, i: nat, r: Range)
    requires i + 1 < |rs|
    ensures var rs' := rs[..i] + [r] + rs[i + 2..];
            && |rs'| == |rs| - 1 && rs'[i] == r
            && (forall j :: 0 <= j < i ==> rs'[j] == rs[j])
            && (forall j :: i < j < |rs'| ==> rs'[j] == rs[j + 1])
  {
  }

  lemma MergedCovers(rs: seq<Range>, i: int, rs': seq<Range>, x: int)
    requires MergeOutcome(rs, i, rs')
    ensures Covers(rs, x) <==> Covers(rs', x)
  {
    if |rs'| != |rs| {
      if Covers(rs, x) {
        var j :| 0 <= j < |rs| && rs[j].Has(x);
        var k := if j <= i then j else j - 1;
        assert rs'[k].Has(x);
      }
      if Covers(rs', x) {
        var j :| 0 <= j < |rs'| && rs'[j].Has(x);
        if j == i {
          assert rs[i].Has(x) || rs[i + 1].Has(x);
        } else {
          var k := if j < i then j else j + 1;
          assert rs[k].Has(x);
        }
      }
    }
  }

  /** A merge across a seam of a loose list closes that seam. */
  lemma MergedBefore(rs: seq<Range>, k: nat, rs': seq<Range>)
    requires Loose(rs, k) && k < |rs| && MergeOutcome(rs, k - 1, rs')
    ensures var at := if |rs'| < |rs| then k - 1 else k;
            at < |rs'| && Loose(rs', at) && forall i :: 0 <= i < at ==> rs'[i].End() < rs'[at].base
  {
    forall i | 0 <= i < k - 1
      ensures rs[i].End() < rs[k - 1].base < rs[k].base
    {
    }
  }

  lemma MergedAfter(rs: seq<Range>, k: nat, rs': seq<Range>)
    requires Loose(rs, k) && k < |rs| && MergeOutcome(rs, k, rs')
    requires forall i :: 0 <= i < k ==> rs[i].End() < rs[k].base
    ensures Canonical(rs')
  {
    forall j | k + 1 < j < |rs|
      ensures rs[k].End() < rs[k + 1].End() < rs[j].base
    {
    }
  }

  lemma WholeInterval(rs: seq<Range>, lpis: nat)
    requires 0 < lpis <= U32_SIZE - FIRST_LPI
    requires Canonical(rs) && FreePost([], FIRST_LPI, lpis, rs)
    ensures rs == [Range(FIRST_LPI, lpis)]
  {
    var whole := [Range(FIRST_LPI, lpis)];
    forall x
      ensures Covers(rs, x) <==> Covers(whole, x)
    {
      assert Covers(whole, x) <==> whole[0].Has(x);
    }
    CanonicalIsUnique(rs, whole);
  }

  class FreeList {
    var ranges: seq<Range>

    ghost predicate Valid()
      reads this
    {
      Canonical(ranges)
    }

    constructor ()
      ensures Valid() && ranges == []
    {
      ranges := [];
    }

    /** its_lpi_init: the whole interval, or the part of it a hypervisor left us, becomes free. */
    method Init(idSpace: nat, restricted: nat, haveNode: bool) returns (ok: bool, lpis: nat)
      requires Valid() && ranges == []
      requires FIRST_LPI < idSpace <= U32_SIZE
      modifies this
      ensures Valid() && ok == haveNode
      ensures 0 < lpis <= idSpace - FIRST_LPI
      ensures lpis == if 2 < restricted <= idSpace - FIRST_LPI then restricted else idSpace - FIRST_LPI
      ensures ranges == if ok then [Range(FIRST_LPI, lpis)] else []
    {
      lpis := idSpace - FIRST_LPI;
      if restricted > 2 && restricted <= lpis {
        lpis := restricted;
      }
      ok := FreeRange(FIRST_LPI, lpis, haveNode);
      if ok {
        WholeInterval(ranges, lpis);
      }
    }

    /** alloc_lpi_range: None is -ENOSPC, otherwise the base of the block. */
    method AllocRange(n: nat) returns (r: Option<nat>)
      requires Valid()
      modifies this
      ensures Valid() && AllocPost(old(ranges), n, r, ranges)
    {
      var i := 0;
      while i < |ranges|
        invariant 0 <= i <= |ranges|
        invariant ranges == old(ranges)
        invariant forall j :: 0 <= j < i ==> ranges[j].span < n
      {
        if ranges[i].span >= n {
          r := Some(ranges[i].base);
          CutResult(ranges, i, n);
          forall b: int | n > 0 && b < ranges[i].base
            ensures !FreeBlock(ranges, b, n)
          {
            if FreeBlock(ranges, b, n) {
              var j := BlockWithinRange(ranges, b, n);
            }
          }
          assert FreeBlock(ranges, ranges[i].base, n) by {
            assert forall x :: ranges[i].base <= x < ranges[i].base + n ==> ranges[i].Has(x);
          }
          ranges := Cut(ranges, i, n);
          return;
        }
        i := i + 1;
      }
      assert |ranges| > 0 ==> ranges[0].span < n;
      forall b: int | n > 0
        ensures !FreeBlock(ranges, b, n)
      {
        if FreeBlock(ranges, b, n) {
          var j := BlockWithinRange(ranges, b, n);
        }
      }
      r := None;
    }

    /** free_lpi_range: false is -ENOMEM, when no list node could be allocated. */
    method FreeRange(base: nat, n: nat, haveNode: bool) returns (ok: bool)
      requires Valid()
      requires n > 0 && FIRST_LPI <= base && base + n <= U32_SIZE
      requires forall x :: base <= x < base + n ==> !Covers(ranges, x)
      modifies this
      ensures Valid() && ok == haveNode
      ensures ok ==> FreePost(old(ranges), base, n, ranges)
      ensures !ok ==> ranges == old(ranges)
    {
      if !haveNode {
        return false;
      }
      var k := |ranges|;
      while k > 0 && ranges[k - 1].base >= base
        invariant 0 <= k <= |ranges|
        invariant ranges == old(ranges)
        invariant forall j :: k <= j < |ranges| ==> ranges[j].base >= base
      {
        k := k - 1;
      }
      FreeResult(ranges, k, Range(base, n));
      ranges := Insert(ranges, k, Range(base, n));
      var size := |ranges|;
      ranges := Merged(ranges, k - 1);
      var at := if |ranges| < size then k - 1 else k;
      ranges := Merged(ranges, at);
      ok := true;
    }
  }

  function Insert(rs: seq<Range>, k: nat, r: Range): (rs': seq<Range>)
    requires k <= |rs|
  {
    rs[..k] + [r] + rs[k..]
  }

  lemma InsertCovers(rs: seq<Range>, k: nat, r: Range, x: int)
    requires k <= |rs|
    ensures Covers(Insert(rs, k, r), x) <==> Covers(rs, x) || r.Has(x)
  {
    var rs' := Insert(rs, k, r);
    if Covers(rs', x) {
      var j :| 0 <= j < |rs'| && rs'[j].Has(x);
      if j != k {
        var i := if j < k then j else j - 1;
        assert rs[i].Has(x);
      }
    }
    if Covers(rs, x) {
      var j :| 0 <= j < |rs| && rs[j].Has(x);
      var i := if j < k then j else j + 1;
      assert rs'[i].Has(x);
    }
    if r.Has(x) {
      assert rs'[k].Has(x);
    }
  }

  ghost predicate Fits(rs: seq<Range>, k: nat, r: Range) {
    && k <= |rs|
    && r.span > 0 && FIRST_LPI <= r.base && r.End() <= U32_SIZE
    && (forall x :: r.Has(x) ==> !Covers(rs, x))
    && (forall j :: 0 <= j < k ==> rs[j].base < r.base)
    && (forall j :: k <= j < |rs| ==> rs[j].base >= r.base)
  }

  lemma FitsApart(rs: seq<Range>, k: nat, r: Range)
    requires Canonical(rs) && Fits(rs, k, r)
    ensures forall j :: 0 <= j < k ==> rs[j].End() <= r.base
    ensures forall j :: k <= j < |rs| ==> r.End() <= rs[j].base
  {
    assert r.Has(r.base);
    forall j | k <= j < |rs|
      ensures r.End() <= rs[j].base
    {
      assert rs[j].Has(rs[j].base);
      assert Covers(rs, rs[j].base);
    }
  }

  lemma InsertLoose(rs: seq<Range>, k: nat, r: Range)
    requires Canonical(rs) && Fits(rs, k, r)
    ensures Loose(Insert(rs, k, r), k)
  {
    FitsApart(rs, k, r);
    var rs' := Insert(rs, k, r);
    assert forall j :: 0 <= j < k ==> rs'[j] == rs[j];
    assert rs'[k] == r;
    assert forall j :: k < j < |rs'| ==> rs'[j] == rs[j - 1];
  }

  /** The list free_lpi_range leaves behind. */
  function FreedList(rs: seq<Range>, k: nat, r: Range): (rs': seq<Range>)
    requires k <= |rs|
  {
    var ins := Insert(rs, k, r);
    var one := Merged(ins, k - 1);
    Merged(one, if |one| < |ins| then k - 1 else k)
  }

  lemma BothSeamsClosed(ins: seq<Range>, k: nat, one: seq<Range>, at: nat, two: seq<Range>)
    requires k < |ins| && Loose(ins, k) && MergeOutcome(ins, k - 1, one)
    requires at == if |one| < |ins| then k - 1 else k
    requires MergeOutcome(one, at, two)
    ensures Canonical(two) && SameIds(ins, two)
  {
    MergedBefore(ins, k, one);
    MergedAfter(one, at, two);
    forall x
      ensures Covers(ins, x) <==> Covers(two, x)
    {
      MergedCovers(ins, k - 1, one, x);
      MergedCovers(one, at, two, x);
    }
  }

  lemma FreeResult(rs: seq<Range>, k: nat, r: Range)
    requires Canonical(rs) && Fits(rs, k, r)
    ensures Canonical(FreedList(rs, k, r)) && FreePost(rs, r.base, r.span, FreedList(rs, k, r))
  {
    var ins := Insert(rs, k, r);
    InsertLoose(rs, k, r);
    MergedOutcome(ins, k - 1);
    var one := Merged(ins, k - 1);
    MergedBefore(ins, k, one);
    var at := if |one| < |ins| then k - 1 else k;
    MergedOutcome(one, at);
    BothSeamsClosed(ins, k, one, at, Merged(one, at));
    FreedCovers(rs, k, r, Merged(one, at));
  }

  lemma FreedCovers(rs: seq<Range>, k: nat, r: Range, rs': seq<Range>)
    requires k <= |rs| && 0 <= r.base && 0 <= r.span && SameIds(Insert(rs, k, r), rs')
    ensures FreePost(rs, r.base, r.span, rs')
  {
    forall x
      ensures Covers(rs', x) <==> Covers(rs, x) || r.base <= x < r.base + r.span
    {
      InsertCovers(rs, k, r, x);
      assert Covers(Insert(rs, k, r), x) <==> Covers(rs', x);
    }
  }

  // ------------------------------------------------------------------
  // Runs of allocations and frees
  // ------------------------------------------------------------------

  /** The free list together with the blocks that were handed out, and those
      that were dropped when no list node could be allocated for them. */
  datatype World = World(free: seq<Range>, live: set<Range>, lost: set<Range>)

  ghost predicate Held(w: World, x: int) {
    exists r :: r in w.live + w.lost && r.Has(x)
  }

  ghost predicate AllocStep(w: World, w': World, n: nat, r: Option<nat>) {
    && n > 0 && Canonical(w'.free) && AllocPost(w.free, n, r, w'.free) && w'.lost == w.lost
    && w'.live == if r.Some? then w.live + {Range(r.value, n)} else w.live
  }

  ghost predicate FreeStep(w: World, w': World, r: Range) {
    && r in w.live && Canonical(w'.free) && FreePost(w.free, r.base, r.span, w'.free)
    && w'.live == w.live - {r} && w'.lost == w.lost
  }

  ghost predicate LoseStep(w: World, w': World, r: Range) {
    r in w.live && w' == World(w.free, w.live - {r}, w.lost + {r})
  }

  ghost predicate Step(w: World, w': World) {
    || (exists n, r :: AllocStep(w, w', n, r))
    || (exists r :: FreeStep(w, w', r))
    || (exists r :: LoseStep(w, w', r))
  }

  /** A run starts from the list that freeing the whole interval builds. */
  ghost predicate Run(lpis: nat, ws: seq<World>) {
    && |ws| > 0 && 0 < lpis <= U32_SIZE - FIRST_LPI
    && ws[0] == World([Range(FIRST_LPI, lpis)], {}, {})
    && forall i :: 0 < i < |ws| ==> Step(ws[i - 1], ws[i])
  }

  /** Free, live and lost blocks partition the initial interval. */
  ghost predicate Partition(lpis: nat, w: World) {
    && Canonical(w.free)
    && (forall r :: r in w.live + w.lost ==> r.span > 0)
    && (forall r, r', x :: r in w.live + w.lost && r' in w.live + w.lost && r.Has(x) && r'.Has(x) ==> r == r')
    && (forall x :: Covers(w.free, x) ==> !Held(w, x))
    && (forall x :: FIRST_LPI <= x < FIRST_LPI + lpis <==> Covers(w.free, x) || Held(w, x))
    && w.live !! w.lost
  }

  lemma AllocKeepsPartition(lpis: nat, w: World, w': World, n: nat, r: Option<nat>)
    requires Partition(lpis, w) && AllocStep(w, w', n, r)
    ensures Partition(lpis, w')
  {
    if r.Some? {
      var block := Range(r.value, n);
      forall x | block.Has(x)
        ensures Covers(w.free, x) && !Held(w, x)
      {
      }
      assert block !in w.live + w.lost by {
        assert block.Has(block.base);
      }
      forall x
        ensures Held(w', x) <==> Held(w, x) || block.Has(x)
      {
        assert block in w'.live + w'.lost;
        assert w'.live + w'.lost == w.live + w.lost + {block};
      }
    }
  }

  lemma FreeKeepsPartition(lpis: nat, w: World, w': World, r: Range)
    requires Partition(lpis, w) && FreeStep(w, w', r)
    ensures Partition(lpis, w')
  {
    assert w'.live + w'.lost == w.live + w.lost - {r};
    forall x
      ensures Held(w', x) <==> Held(w, x) && !r.Has(x)
    {
    }
  }

  lemma LoseKeepsPartition(lpis: nat, w: World, w': World, r: Range)
    requires Partition(lpis, w) && LoseStep(w, w', r)
    ensures Partition(lpis, w')
  {
    assert w'.live + w'.lost == w.live + w.lost;
  }

  /** Every reachable state splits the interval into free, live and lost numbers. */
  lemma {:induction false} RunKeepsPartition(lpis: nat, ws: seq<World>, i: nat)
    requires Run(lpis, ws) && i < |ws|
    ensures Partition(lpis, ws[i])
  {
    if i == 0 {
      assert ws[0].free[0] == Range(FIRST_LPI, lpis);
      forall x
        ensures Covers(ws[0].free, x) <==> FIRST_LPI <= x < FIRST_LPI + lpis
      {
        assert ws[0].free[0].Has(x) <==> FIRST_LPI <= x < FIRST_LPI + lpis;
      }
    } else {
      RunKeepsPartition(lpis, ws, i - 1);
      var w, w' := ws[i - 1], ws[i];
      if exists n, r :: AllocStep(w, w', n, r) {
        var n, r :| AllocStep(w, w', n, r);
        AllocKeepsPartition(lpis, w, w', n, r);
      } else if exists r :: FreeStep(w, w', r) {
        var r :| FreeStep(w, w', r);
        FreeKeepsPartition(lpis, w, w', r);
      } else {
        var r :| LoseStep(w, w', r);
        LoseKeepsPartition(lpis, w, w', r);
      }
    }
  }

  /** What FreeRange demands holds of every live block, so no run gets stuck on it. */
  lemma LiveBlockCanBeFreed(lpis: nat, w: World, r: Range)
    requires 0 < lpis <= U32_SIZE - FIRST_LPI && Partition(lpis, w) && r in w.live
    ensures r.span > 0 && FIRST_LPI <= r.base && r.End() <= U32_SIZE
    ensures forall x :: r.Has(x) ==> !Covers(w.free, x)
  {
    assert r in w.live + w.lost;
    forall x | r.Has(x)
      ensures Held(w, x)
    {
    }
    assert r.Has(r.base) && r.Has(r.End() - 1);
  }

  /** The list is the initial node again exactly when everything is back, in whatever order, and nothing was lost. */
  lemma RunRestores(lpis: nat, ws: seq<World>, i: nat)
    requires Run(lpis, ws) && i < |ws|
    ensures ws[i].free == [Range(FIRST_LPI, lpis)] <==> ws[i].live == {} && ws[i].lost == {}
  {
    RunKeepsPartition(lpis, ws, i);
    RunKeepsPartition(lpis, ws, 0);
    if ws[i].live == {} && ws[i].lost == {} {
      CanonicalIsUnique(ws[i].free, ws[0].free);
    } else {
      var r :| r in if ws[i].live != {} then ws[i].live else ws[i].lost;
      assert r in ws[i].live + ws[i].lost;
      assert r.Has(r.base) && Held(ws[i], r.base);
      assert !Covers(ws[i].free, r.base) && Covers(ws[0].free, r.base);
    }
  }
}
