/**
 * The identity check of the PCIe root port: a header and a walk over the
 * conventional capability list (section 6.7 of the PCI Local Bus Specification
 * 3.0). Configuration space is whatever the device returns.
 */
module CapabilityWalk {

  type word = x: int | 0 <= x < 0x1_0000_0000

  const SLOTS := 48
  const CAP_ID_EXP := 0x10
  const ROOT_PORT := 4

  datatype Ret = Pass | NoDev | Proto

  /** The first 256 bytes of configuration space. */
  type Space = s: seq<word> | |s| == 64 witness seq(64, _ => 0)

  // Fields

  function CapId(w: word): nat
  {
    w % 0x100
  }

  function Next(w: word): nat
  {
    w / 0x100 % 0x100
  }

  function Flags(w: word): nat
  {
    w / 0x1_0000
  }

  /** The header: vendor and device, class, Type 1, and a capability list. */
  predicate HeaderOk(s: Space)
  {
    && s[0] == 0x011117cb
    && (s[2] / 0x100 == 0x060400 || s[2] == 0xff000001)
    && s[3] / 0x1_0000 % 0x100 == 1
    && s[1] / 0x10_0000 % 2 == 1
  }

  function Head(s: Space): nat
  {
    s[13] % 0x100
  }

  /** Aligned, inside the capability space. */
  predicate InWindow(ptr: nat)
  {
    0x40 <= ptr <= 0xfc && ptr % 4 == 0
  }

  function At(s: Space, ptr: nat): word
    requires InWindow(ptr)
  {
    s[ptr / 4]
  }

  predicate IdOk(w: word)
  {
    CapId(w) != 0 && CapId(w) != 0xff
  }

  predicate IsExp(s: Space, ptr: nat)
    requires InWindow(ptr)
  {
    CapId(At(s, ptr)) == CAP_ID_EXP
  }

  /** A PCIe capability of a root port, of version 1 or 2, with room behind it. */
  predicate RootPort(w: word, ptr: nat)
  {
    Flags(w) / 0x10 % 0x10 == ROOT_PORT && 1 <= Flags(w) % 0x10 <= 2 && ptr <= 0xc4
  }

  // What a well-formed list is, without a walk

  /** Place `k` of a path that goes on to `tail` holds a proper capability that names the next place. */
  ghost predicate LinkOk(s: Space, path: seq<nat>, tail: nat, k: nat)
  {
    k < |path| ==>
      && InWindow(path[k]) && IdOk(At(s, path[k]))
      && (IsExp(s, path[k]) ==> RootPort(At(s, path[k]), path[k]))
      && Next(At(s, path[k])) == if k + 1 < |path| then path[k + 1] else tail
  }

  /** The pointers from the header on, through `path`, to `tail`. */
  ghost predicate Linked(s: Space, path: seq<nat>, tail: nat)
  {
    && Head(s) == (if path == [] then tail else path[0])
    && (forall k: nat {:trigger LinkOk(s, path, tail, k)} :: LinkOk(s, path, tail, k))
    && Distinct(path)
  }

  ghost predicate Distinct(path: seq<nat>)
  {
    forall i, j | 0 <= i < j < |path| :: path[i] != path[j]
  }

  /** Exactly one place is a PCIe capability. */
  ghost predicate OneExp(s: Space, path: seq<nat>)
  {
    exists k :: 0 <= k < |path| && ExpOnlyAt(s, path, k)
  }

  ghost predicate ExpOnlyAt(s: Space, path: seq<nat>, k: nat)
  {
    forall i | 0 <= i < |path| && InWindow(path[i]) :: IsExp(s, path[i]) <==> i == k
  }

  /** The whole list, from the header's pointer to the null pointer. */
  ghost predicate IsList(s: Space, path: seq<nat>)
  {
    Linked(s, path, 0) && OneExp(s, path)
  }

  // Pigeonhole

  lemma {:induction false} ManyDistinct(path: seq<nat>, n: nat)
    requires Distinct(path) && forall k | 0 <= k < |path| :: path[k] < n
    ensures |path| <= n
    decreases n
  {
    assert path != [] ==> path[0] < n;
    if n > 0 {
      if k :| 0 <= k < |path| && path[k] == n - 1 {
        var rest := path[..k] + path[k + 1..];
        forall i, j | 0 <= i < j < |rest|
          ensures rest[i] != rest[j]
        {
          assert rest[i] == path[if i < k then i else i + 1];
          assert rest[j] == path[if j < k then j else j + 1];
        }
        forall i | 0 <= i < |rest|
          ensures rest[i] < n - 1
        {
          assert rest[i] == path[if i < k then i else i + 1];
        }
        ManyDistinct(rest, n - 1);
      } else {
        ManyDistinct(path, n - 1);
      }
    }
  }

  function Slot(ptr: nat): nat
    requires InWindow(ptr)
  {
    ptr / 4 - 16
  }

  /** A list that never comes back to a slot has at most 48 entries: the bound on the walk cuts no such list. */
  lemma AtMost48(path: seq<nat>)
    requires Distinct(path) && forall k | 0 <= k < |path| :: InWindow(path[k])
    ensures |path| <= SLOTS
  {
    var slots := seq(|path|, k requires 0 <= k < |path| => Slot(path[k]));
    forall i, j | 0 <= i < j < |slots|
      ensures slots[i] != slots[j]
    {
      assert path[i] != path[j];
    }
    ManyDistinct(slots, SLOTS);
  }

  // The walk

  /** `pcie` is the PCIe capability among those visited, or 0. */
  ghost predicate Found(s: Space, visited: seq<nat>, pcie: nat)
  {
    && (pcie == 0 ==> forall k | 0 <= k < |visited| && InWindow(visited[k]) :: !IsExp(s, visited[k]))
    && (pcie != 0 ==> OneExp(s, visited))
  }

  /** The walk follows any list there is. */
  ghost predicate Follows(visited: seq<nat>, ptr: nat, path: seq<nat>)
  {
    && |visited| <= |path| && visited == path[..|visited|]
    && ptr == if |visited| < |path| then path[|visited|] else 0
  }

  /** Whatever the walk rejects at `ptr` is no part of a list. */
  lemma ListGoesOn(s: Space, visited: seq<nat>, ptr: nat, path: seq<nat>)
    requires IsList(s, path) && Follows(visited, ptr, path) && ptr != 0
    ensures InWindow(ptr) && ptr !in visited && IdOk(At(s, ptr))
    ensures IsExp(s, ptr) ==> RootPort(At(s, ptr), ptr) && !OneExp(s, visited)
    ensures Follows(visited + [ptr], Next(At(s, ptr)), path)
  {
    var n := |visited|;
    assert LinkOk(s, path, 0, n);
    assert path[..n + 1] == path[..n] + [path[n]];
    assert forall k | 0 <= k < n :: visited[k] == path[k];
    if OneExp(s, visited) {
      var e :| 0 <= e < |path| && ExpOnlyAt(s, path, e);
      var k :| 0 <= k < |visited| && ExpOnlyAt(s, visited, k);
      assert LinkOk(s, path, 0, k);
      assert IsExp(s, path[k]) && k == e;
    }
  }

  lemma WalkGoesOn(s: Space, visited: seq<nat>, ptr: nat)
    requires Linked(s, visited, ptr) && InWindow(ptr) && ptr !in visited && IdOk(At(s, ptr))
    requires IsExp(s, ptr) ==> RootPort(At(s, ptr), ptr)
    ensures Linked(s, visited + [ptr], Next(At(s, ptr)))
  {
    var on, next := visited + [ptr], Next(At(s, ptr));
    forall k: nat
      ensures LinkOk(s, on, next, k)
    {
      assert LinkOk(s, visited, ptr, k);
    }
  }

  lemma FoundGoesOn(s: Space, visited: seq<nat>, ptr: nat, pcie: nat)
    requires Found(s, visited, pcie) && InWindow(ptr)
    requires IsExp(s, ptr) ==> pcie == 0
    ensures Found(s, visited + [ptr], if IsExp(s, ptr) then ptr else pcie)
  {
    var on := visited + [ptr];
    if IsExp(s, ptr) {
      assert ExpOnlyAt(s, on, |visited|);
    } else if pcie != 0 {
      var k :| 0 <= k < |visited| && ExpOnlyAt(s, visited, k);
      assert ExpOnlyAt(s, on, k);
    }
  }

  /** A walk that stops, at a null pointer or at the bound, has seen the whole of any list. */
  lemma ListEnds(s: Space, visited: seq<nat>, ptr: nat, pcie: nat, path: seq<nat>)
    requires IsList(s, path) && Follows(visited, ptr, path) && (ptr == 0 || |visited| == SLOTS)
    requires Found(s, visited, pcie)
    ensures ptr == 0 && pcie != 0
  {
    forall k | 0 <= k < |path|
      ensures InWindow(path[k])
    {
      assert LinkOk(s, path, 0, k);
    }
    AtMost48(path);
    assert path[..|path|] == path;
    var k :| 0 <= k < |path| && ExpOnlyAt(s, path, k);
    assert IsExp(s, path[k]);
  }

  lemma AllInWindow(s: Space, visited: seq<nat>, ptr: nat)
    requires Linked(s, visited, ptr)
    ensures forall k | 0 <= k < |visited| :: InWindow(visited[k])
  {
    forall k | 0 <= k < |visited|
      ensures InWindow(visited[k])
    {
      assert LinkOk(s, visited, ptr, k);
    }
  }

  /** Nothing a list may hold at this place. */
  ghost predicate Malformed(s: Space, visited: seq<nat>, ptr: nat)
  {
    !InWindow(ptr) || ptr in visited || !IdOk(At(s, ptr))
  }

  lemma NotFound(s: Space, visited: seq<nat>, ptr: nat, pcie: nat)
    requires Linked(s, visited, ptr) && Found(s, visited, pcie)
    ensures pcie == 0 <==> !OneExp(s, visited)
  {
    AllInWindow(s, visited, ptr);
    if OneExp(s, visited) {
      var k :| 0 <= k < |visited| && ExpOnlyAt(s, visited, k);
      assert IsExp(s, visited[k]);
    }
  }

  /**
   * x1_root_validate: it passes exactly when the header is right and the
   * capability list is well formed and names one fitting root port. No slot is
   * read twice. Otherwise the walk came through `visited` to `stop`, and the
   * error tells a malformed list from one without the right root port.
   */
  method Validate(s: Space) returns (ret: Ret, ghost visited: seq<nat>, ghost stop: nat)
    ensures ret == Pass <==> HeaderOk(s) && exists path :: IsList(s, path)
    ensures ret == Pass ==> IsList(s, visited)
    ensures Distinct(visited) && |visited| <= SLOTS && forall k | 0 <= k < |visited| :: InWindow(visited[k])
    ensures !HeaderOk(s) ==> ret == NoDev && visited == []
    ensures HeaderOk(s) ==> Linked(s, visited, stop)
    ensures HeaderOk(s) ==> (ret == Proto <==> stop != 0 && |visited| < SLOTS && Malformed(s, visited, stop))
    ensures HeaderOk(s) && ret == NoDev ==>
              || (stop == 0 && !OneExp(s, visited))
              || (stop != 0 && |visited| == SLOTS)
              || (!Malformed(s, visited, stop) && IsExp(s, stop) && (OneExp(s, visited) ||
                    !RootPort(At(s, stop), stop)))
  {
    visited, stop := [], 0;
    if !HeaderOk(s) {
      return NoDev, visited, stop;
    }
    ghost var path: seq<nat> := [];
    ghost var list := exists p :: IsList(s, p);
    if list {
      path :| IsList(s, path);
    }
    var ptr, pcie := Head(s), 0;
    var seen: set<nat> := {};
    var i := 0;
    while ptr != 0 && i < SLOTS
      invariant i == |visited| <= SLOTS && Linked(s, visited, ptr) && Found(s, visited, pcie)
      invariant forall q | InWindow(q) :: Slot(q) in seen <==> q in visited
      invariant list ==> Follows(visited, ptr, path)
      decreases SLOTS - i
    {
      stop := ptr;
      AllInWindow(s, visited, ptr);
      if list {
        ListGoesOn(s, visited, ptr, path);
      }
      if ptr < 0x40 || ptr > 0xfc || ptr % 4 != 0 || Slot(ptr) in seen {
        return Proto, visited, stop;
      }
      var cap := At(s, ptr);
      if CapId(cap) == 0 || CapId(cap) == 0xff {
        return Proto, visited, stop;
      }
      if CapId(cap) == CAP_ID_EXP && (pcie != 0 || !RootPort(cap, ptr)) {
        return NoDev, visited, stop;
      }
      WalkGoesOn(s, visited, ptr);
      FoundGoesOn(s, visited, ptr, pcie);
      visited := visited + [ptr];
      seen := seen + {Slot(ptr)};
      if CapId(cap) == CAP_ID_EXP {
        pcie := ptr;
      }
      ptr := Next(cap);
      i := i + 1;
    }
    stop := ptr;
    AllInWindow(s, visited, ptr);
    if list {
      ListEnds(s, visited, ptr, pcie, path);
    }
    NotFound(s, visited, ptr, pcie);
    if ptr != 0 || pcie == 0 {
      return NoDev, visited, stop;
    }
    assert IsList(s, visited);
    ret := Pass;
  }
}
