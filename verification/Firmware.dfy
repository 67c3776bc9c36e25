/**
 * The firmware loader of the USB4 router.
 *
 * An image is a run of records, each a byte offset, a word count and that many
 * words, all little-endian. The loader checks the whole image before it writes
 * the first word; the frontend then reads every word back.
 */
module Firmware {
  import opened Options

  type byte = x: int | 0 <= x < 256
  type word = x: int | 0 <= x < TWO_32

  const TWO_32 := 0x1_0000_0000

  // The format

  /** One more byte below the others. */
  function Above(low: byte, rest: nat): nat
  {
    low + 0x100 * rest
  }

  lemma AboveSplits(a: byte, x: nat, b: byte, y: nat)
    requires Above(a, x) == Above(b, y)
    ensures a == b && x == y
  {
  }

  function Value(b: seq<byte>): word
    requires |b| == 4
  {
    Above(b[0], Above(b[1], Above(b[2], b[3])))
  }

  function Bytes(x: word): (b: seq<byte>)
    ensures |b| == 4 && Value(b) == x
  {
    var b0, r0 := x % 0x100, x / 0x100;
    var b1, r1 := r0 % 0x100, r0 / 0x100;
    [b0, b1, r1 % 0x100, r1 / 0x100]
  }

  lemma BytesOfValue(b: seq<byte>)
    requires |b| == 4
    ensures Bytes(Value(b)) == b
  {
    SameValue(Bytes(Value(b)), b);
  }

  lemma SameValue(a: seq<byte>, b: seq<byte>)
    requires |a| == |b| == 4 && Value(a) == Value(b)
    ensures a == b
  {
    AboveSplits(a[0], Above(a[1], Above(a[2], a[3])), b[0], Above(b[1], Above(b[2], b[3])));
    AboveSplits(a[1], Above(a[2], a[3]), b[1], Above(b[2], b[3]));
    AboveSplits(a[2], a[3], b[2], b[3]);
  }

  /** get_unaligned_le32 */
  function Get(data: seq<byte>, pos: nat): word
    requires pos + 4 <= |data|
  {
    Value(data[pos..pos + 4])
  }

  datatype RawRecord = Record(offset: word, words: seq<word>)

  /** The word count must fit its field. */
  type Record = r: RawRecord | |r.words| < TWO_32 witness Record(0, [])

  ghost function Words(ws: seq<word>): (b: seq<byte>)
    ensures |b| == 4 * |ws|
  {
    if ws == [] then [] else Bytes(ws[0]) + Words(ws[1..])
  }

  ghost function Encode(r: Record): (b: seq<byte>)
    ensures |b| == 8 + 4 * |r.words|
  {
    Bytes(r.offset) + Bytes(|r.words|) + Words(r.words)
  }

  /** A record the loader takes: aligned, without 32-bit overflow, inside RAM. */
  ghost predicate Good(r: Record, ram: nat)
  {
    var bytes := 4 * |r.words|;
    r.offset % 4 == 0 && r.offset + bytes < TWO_32 && r.offset + bytes <= ram
  }

  ghost predicate AllGood(rs: seq<Record>, ram: nat)
  {
    forall i | 0 <= i < |rs| :: Good(rs[i], ram)
  }

  ghost function Image(rs: seq<Record>): seq<byte>
  {
    if rs == [] then [] else Encode(rs[0]) + Image(rs[1..])
  }

  // Reading back what was encoded

  lemma GetBytes(pre: seq<byte>, x: word, post: seq<byte>)
    ensures Get(pre + Bytes(x) + post, |pre|) == x
  {
    assert (pre + Bytes(x) + post)[|pre|..|pre| + 4] == Bytes(x);
  }

  lemma {:induction false} WordsAppend(a: seq<word>, x: word)
    ensures Words(a + [x]) == Words(a) + Bytes(x)
    decreases |a|
  {
    if a == [] {
      assert a + [x] == [x] && Words([x]) == Bytes(x) + Words([]);
    } else {
      WordsAppend(a[1..], x);
      assert (a + [x])[1..] == a[1..] + [x];
    }
  }

  lemma {:induction false} ImageAppend(rs: seq<Record>, r: Record)
    ensures Image(rs + [r]) == Image(rs) + Encode(r)
    decreases |rs|
  {
    if rs == [] {
      assert rs + [r] == [r] && Image([r]) == Encode(r) + Image([]);
    } else {
      var head, tail := Encode(rs[0]), Image(rs[1..]);
      ImageAppend(rs[1..], r);
      assert (rs + [r])[1..] == rs[1..] + [r];
      assert head + (tail + Encode(r)) == (head + tail) + Encode(r);
    }
  }

  /** The words of a stretch of the image. */
  ghost function Read(data: seq<byte>, pos: nat, n: nat): (ws: seq<word>)
    requires pos + 4 * n <= |data|
    ensures |ws| == n
  {
    if n == 0 then [] else Read(data, pos, n - 1) + [Get(data, pos + 4 * (n - 1))]
  }

  lemma Adjoin(data: seq<byte>, i: nat, j: nat, k: nat)
    requires i <= j <= k <= |data|
    ensures data[i..j] + data[j..k] == data[i..k]
  {
  }

  lemma {:induction false} ReadIsEncoded(data: seq<byte>, pos: nat, n: nat)
    requires pos + 4 * n <= |data|
    ensures Words(Read(data, pos, n)) == data[pos..pos + 4 * n]
    decreases n
  {
    if n > 0 {
      var at := pos + 4 * (n - 1);
      ReadIsEncoded(data, pos, n - 1);
      WordsAppend(Read(data, pos, n - 1), Get(data, at));
      BytesOfValue(data[at..at + 4]);
      Adjoin(data, pos, at, at + 4);
    }
  }

  /** The record at `pos`, when its words are all there. */
  ghost function RecordAt(data: seq<byte>, pos: nat): Record
    requires pos + 8 <= |data| && pos + 8 + 4 * Get(data, pos + 4) <= |data|
  {
    Record(Get(data, pos), Read(data, pos + 8, Get(data, pos + 4)))
  }

  lemma RecordIsEncoded(data: seq<byte>, pos: nat)
    requires pos + 8 <= |data| && pos + 8 + 4 * Get(data, pos + 4) <= |data|
    ensures Encode(RecordAt(data, pos)) == data[pos..pos + 8 + 4 * Get(data, pos + 4)]
  {
    var n: nat := Get(data, pos + 4);
    ReadIsEncoded(data, pos + 8, n);
    BytesOfValue(data[pos..pos + 4]);
    BytesOfValue(data[pos + 4..pos + 8]);
    Adjoin(data, pos, pos + 4, pos + 8);
    Adjoin(data, pos, pos + 8, pos + 8 + 4 * n);
  }

  /** What the loader has against the record at the head of a stretch, if anything. */
  datatype Verdict = Accepted | Invalid | Overflow | TooBig

  /** The checks on a header, with `left` bytes behind it. */
  function Header(left: nat, offset: word, n: word, ram: nat): Verdict
  {
    if n > left / 4 then Invalid
    else if offset % 4 != 0 then Invalid
    else if 4 * (n as int) > TWO_32 - 1 - offset then Overflow
    else if offset > ram || 4 * (n as int) > ram - offset then TooBig
    else Accepted
  }

  function Fault(data: seq<byte>, pos: nat, ram: nat): Verdict
    requires pos <= |data|
  {
    if |data| - pos < 8 then Invalid
    else Header(|data| - pos - 8, Get(data, pos), Get(data, pos + 4), ram)
  }

  lemma FaultlessIsGood(data: seq<byte>, pos: nat, ram: nat)
    requires pos <= |data| && Fault(data, pos, ram) == Accepted
    ensures pos + 8 + 4 * Get(data, pos + 4) <= |data| && Good(RecordAt(data, pos), ram)
  {
  }

  lemma Regroup(pre: seq<byte>, a: seq<byte>, b: seq<byte>, c: seq<byte>, post: seq<byte>)
    ensures pre + (a + b + c) + post == pre + a + (b + c + post)
    ensures pre + (a + b + c) + post == (pre + a) + b + (c + post)
  {
  }

  lemma HeaderOf(pre: seq<byte>, r: Record, post: seq<byte>)
    ensures var data := pre + Encode(r) + post;
            Get(data, |pre|) == r.offset && Get(data, |pre| + 4) == |r.words|
  {
    var o, n, ws := Bytes(r.offset), Bytes(|r.words|), Words(r.words);
    Regroup(pre, o, n, ws, post);
    GetBytes(pre, r.offset, n + ws + post);
    GetBytes(pre + o, |r.words|, ws + post);
  }

  /** Conversely a good record read back raises no objection. */
  lemma GoodIsFaultless(pre: seq<byte>, r: Record, post: seq<byte>, ram: nat)
    requires Good(r, ram)
    ensures Fault(pre + Encode(r) + post, |pre|, ram) == Accepted
    ensures Get(pre + Encode(r) + post, |pre| + 4) == |r.words|
  {
    HeaderOf(pre, r, post);
    assert Header(4 * |r.words| + |post|, r.offset, |r.words|, ram) == Accepted;
  }

  lemma Cut(data: seq<byte>, pos: nat, x: seq<byte>, post: seq<byte>)
    requires pos <= |data| && data[pos..] == x + post
    ensures data == data[..pos] + x + post && data[pos + |x|..] == post
  {
    assert data == data[..pos] + data[pos..];
    assert data[pos + |x|..] == data[pos..][|x|..];
  }

  /** The loader's walk over an image that is good can only stop at its end. */
  lemma GoodFromHere(data: seq<byte>, pos: nat, rs: seq<Record>, ram: nat)
    requires pos < |data| && AllGood(rs, ram) && data[pos..] == Image(rs)
    ensures rs != [] && Fault(data, pos, ram) == Accepted
    ensures pos + 8 + 4 * Get(data, pos + 4) <= |data|
    ensures data[pos + 8 + 4 * Get(data, pos + 4)..] == Image(rs[1..])
  {
    Cut(data, pos, Encode(rs[0]), Image(rs[1..]));
    GoodIsFaultless(data[..pos], rs[0], Image(rs[1..]), ram);
  }

  ghost predicate IsImage(data: seq<byte>, ram: nat)
  {
    exists rs :: AllGood(rs, ram) && data == Image(rs)
  }

  /** The good records up to `pos`. */
  ghost predicate Walked(data: seq<byte>, pos: nat, records: seq<Record>, ram: nat)
  {
    pos <= |data| && AllGood(records, ram) && data[..pos] == Image(records)
  }

  lemma WalkOn(data: seq<byte>, pos: nat, records: seq<Record>, ram: nat)
    requires Walked(data, pos, records, ram) && Fault(data, pos, ram) == Accepted
    ensures pos + 8 + 4 * Get(data, pos + 4) <= |data|
    ensures Walked(data, pos + 8 + 4 * Get(data, pos + 4), records + [RecordAt(data, pos)], ram)
  {
    FaultlessIsGood(data, pos, ram);
    RecordIsEncoded(data, pos);
    ImageAppend(records, RecordAt(data, pos));
    var next := pos + 8 + 4 * Get(data, pos + 4);
    Adjoin(data, 0, pos, next);
  }

  /** What is left of a good image. */
  ghost predicate Ahead(data: seq<byte>, pos: nat, rest: seq<Record>, ram: nat)
  {
    pos <= |data| && AllGood(rest, ram) && data[pos..] == Image(rest)
  }

  lemma AheadOf(data: seq<byte>, pos: nat, rest: seq<Record>, ram: nat)
    requires pos < |data| && Ahead(data, pos, rest, ram)
    ensures rest != [] && Fault(data, pos, ram) == Accepted
    ensures Ahead(data, pos + 8 + 4 * Get(data, pos + 4), rest[1..], ram)
  {
    GoodFromHere(data, pos, rest, ram);
  }

  /** qcom_usb4_fw_validate: exactly the images of good records pass; else the first bad one decides. */
  method Validate(data: seq<byte>, ram: nat) returns (v: Verdict, ghost records: seq<Record>)
    ensures v == Accepted <==> data != [] && IsImage(data, ram)
    ensures v == Accepted ==> Walked(data, |data|, records, ram)
    ensures v != Accepted && data != [] ==>
              exists pos: nat :: pos < |data| && Walked(data, pos, records, ram) && v == Fault(data, pos, ram)
    ensures data == [] ==> v == Invalid
  {
    records := [];
    if data == [] {
      return Invalid, records;
    }
    var pos: nat := 0;
    ghost var rest: seq<Record> := [];
    ghost var image := IsImage(data, ram);
    if image {
      rest :| AllGood(rest, ram) && data == Image(rest);
      assert data[pos..] == data;
    }
    while pos < |data|
      invariant Walked(data, pos, records, ram)
      invariant image ==> Ahead(data, pos, rest, ram)
    {
      if image {
        AheadOf(data, pos, rest, ram);
        rest := rest[1..];
      }
      v := Fault(data, pos, ram);
      if v != Accepted {
        return;
      }
      WalkOn(data, pos, records, ram);
      records := records + [RecordAt(data, pos)];
      pos := pos + 8 + 4 * Get(data, pos + 4);
    }
    assert data[..pos] == data;
    v := Accepted;
  }

  // One image, one meaning

  lemma {:induction false} WordsInjective(a: seq<word>, b: seq<word>)
    requires |a| == |b| && Words(a) == Words(b)
    ensures a == b
    decreases |a|
  {
    if a != [] {
      assert Words(a)[..4] == Bytes(a[0]) && Words(b)[..4] == Bytes(b[0]);
      assert Words(a)[4..] == Words(a[1..]) && Words(b)[4..] == Words(b[1..]);
      WordsInjective(a[1..], b[1..]);
    }
  }

  lemma FirstHeader(r: Record, post: seq<byte>)
    ensures Get(Encode(r) + post, 0) == r.offset && Get(Encode(r) + post, 4) == |r.words|
  {
    HeaderOf([], r, post);
    assert [] + Encode(r) == Encode(r);
  }

  lemma HeaderInjective(a: Record, p: seq<byte>, b: Record, q: seq<byte>)
    requires Encode(a) + p == Encode(b) + q
    ensures a.offset == b.offset && |a.words| == |b.words|
  {
    FirstHeader(a, p);
    FirstHeader(b, q);
  }

  lemma RecordInjective(a: Record, p: seq<byte>, b: Record, q: seq<byte>)
    requires Encode(a) + p == Encode(b) + q
    ensures a == b && p == q
  {
    HeaderInjective(a, p, b, q);
    var x, y := Encode(a), Encode(b);
    assert x == (x + p)[..|x|] && y == (y + q)[..|y|];
    assert p == (x + p)[|x|..] && q == (y + q)[|y|..];
    assert x[8..] == Words(a.words) && y[8..] == Words(b.words);
    WordsInjective(a.words, b.words);
  }

  /** No two runs of records have the same image. */
  lemma {:induction false} ImageInjective(a: seq<Record>, b: seq<Record>, ram: nat)
    requires AllGood(a, ram) && AllGood(b, ram) && Image(a) == Image(b)
    ensures a == b
    decreases |a|
  {
    if a != [] && b != [] {
      RecordInjective(a[0], Image(a[1..]), b[0], Image(b[1..]));
      ImageInjective(a[1..], b[1..], ram);
      assert a == [a[0]] + a[1..] && b == [b[0]] + b[1..];
    }
  }

  // Uploading

  datatype Write = Write(addr: nat, value: word)

  /** The first `n` words of a record, at a base address. */
  ghost function RecordWrites(r: Record, base: nat, n: nat): (ws: seq<Write>)
    requires n <= |r.words|
    ensures |ws| == n
  {
    if n == 0 then [] else RecordWrites(r, base, n - 1) + [Write(base + r.offset + 4 * (n - 1), r.words[n - 1])]
  }

  ghost function Writes(rs: seq<Record>, base: nat): seq<Write>
  {
    if rs == [] then []
    else Writes(rs[..|rs| - 1], base) + RecordWrites(rs[|rs| - 1], base, |rs[|rs| - 1].words|)
  }

  ghost function Apply(memory: map<nat, word>, ws: seq<Write>): map<nat, word>
  {
    if ws == [] then memory else Apply(memory, ws[..|ws| - 1])[ws[|ws| - 1].addr := ws[|ws| - 1].value]
  }

  /** No address gets two different words. */
  ghost predicate Consistent(ws: seq<Write>)
  {
    forall i, j | 0 <= i < |ws| && 0 <= j < |ws| && ws[i].addr == ws[j].addr :: ws[i].value == ws[j].value
  }

  ghost predicate Kept(memory: map<nat, word>, w: Write)
  {
    w.addr in memory && memory[w.addr] == w.value
  }

  lemma {:induction false} ConsistentIsKept(memory: map<nat, word>, ws: seq<Write>, i: nat)
    requires Consistent(ws) && i < |ws|
    ensures Kept(Apply(memory, ws), ws[i])
    decreases |ws|
  {
    if ws[i].addr != ws[|ws| - 1].addr {
      ConsistentIsKept(memory, ws[..|ws| - 1], i);
    }
  }

  lemma {:induction false} WrittenIsThere(memory: map<nat, word>, ws: seq<Write>, i: nat)
    requires i < |ws|
    ensures ws[i].addr in Apply(memory, ws)
    decreases |ws|
  {
    if i < |ws| - 1 {
      WrittenIsThere(memory, ws[..|ws| - 1], i);
    }
  }

  /** Reading back finds every word exactly when no address got two. */
  lemma KeptIffConsistent(memory: map<nat, word>, ws: seq<Write>)
    ensures (forall i | 0 <= i < |ws| :: Kept(Apply(memory, ws), ws[i])) <==> Consistent(ws)
  {
    if Consistent(ws) {
      forall i | 0 <= i < |ws|
        ensures Kept(Apply(memory, ws), ws[i])
      {
        ConsistentIsKept(memory, ws, i);
      }
    } else {
      var i, j :| 0 <= i < |ws| && 0 <= j < |ws| && ws[i].addr == ws[j].addr && ws[i].value != ws[j].value;
      assert !(Kept(Apply(memory, ws), ws[i]) && Kept(Apply(memory, ws), ws[j]));
    }
  }

  lemma {:induction false} RecordWritesInside(r: Record, base: nat, n: nat, ram: nat, i: nat)
    requires Good(r, ram) && n <= |r.words| && i < n
    ensures base <= RecordWrites(r, base, n)[i].addr <= base + ram - 4
    decreases n
  {
    if i < n - 1 {
      RecordWritesInside(r, base, n - 1, ram, i);
    }
  }

  /** Every word lands inside RAM. */
  lemma {:induction false} WritesInside(rs: seq<Record>, base: nat, ram: nat, i: nat)
    requires AllGood(rs, ram) && i < |Writes(rs, base)|
    ensures base <= Writes(rs, base)[i].addr <= base + ram - 4
    decreases |rs|
  {
    var init, last := rs[..|rs| - 1], rs[|rs| - 1];
    if i < |Writes(init, base)| {
      WritesInside(init, base, ram, i);
    } else {
      RecordWritesInside(last, base, |last.words|, ram, i - |Writes(init, base)|);
    }
  }

  lemma {:induction false} ApplyElsewhere(memory: map<nat, word>, ws: seq<Write>, addr: nat)
    requires forall i | 0 <= i < |ws| :: ws[i].addr != addr
    ensures addr in Apply(memory, ws) <==> addr in memory
    ensures addr in memory ==> Apply(memory, ws)[addr] == memory[addr]
    decreases |ws|
  {
    if ws != [] {
      ApplyElsewhere(memory, ws[..|ws| - 1], addr);
    }
  }

  lemma {:induction false} ApplySplit(memory: map<nat, word>, a: seq<Write>, b: seq<Write>)
    ensures Apply(memory, a + b) == Apply(Apply(memory, a), b)
    decreases |b|
  {
    if b == [] {
      assert a + b == a;
    } else {
      ApplySplit(memory, a, b[..|b| - 1]);
      assert (a + b)[..|a + b| - 1] == a + b[..|b| - 1];
    }
  }

  lemma {:induction false} ReadAt(data: seq<byte>, pos: nat, n: nat, k: nat)
    requires pos + 4 * n <= |data| && k < n
    ensures Read(data, pos, n)[k] == Get(data, pos + 4 * k)
    decreases n
  {
    if k < n - 1 {
      ReadAt(data, pos, n - 1, k);
    }
  }

  /** In particular no word reaches the control register. */
  lemma WritesMissControl(rs: seq<Record>, mcu: Mcu)
    requires AllGood(rs, mcu.ramSize) && mcu.Apart()
    ensures forall i | 0 <= i < |Writes(rs, mcu.ram)| ::
              Writes(rs, mcu.ram)[i].addr + 4 <= mcu.control || mcu.control + 4 <= Writes(rs, mcu.ram)[i].addr
  {
    forall i | 0 <= i < |Writes(rs, mcu.ram)|
      ensures Writes(rs, mcu.ram)[i].addr + 4 <= mcu.control || mcu.control + 4 <= Writes(rs, mcu.ram)[i].addr
    {
      WritesInside(rs, mcu.ram, mcu.ramSize, i);
    }
  }

  /** The walk over an accepted image, `rest` still to come. */
  ghost predicate Between(data: seq<byte>, pos: nat, records: seq<Record>, rest: seq<Record>, ram: nat)
  {
    Walked(data, pos, records, ram) && Ahead(data, pos, rest, ram)
  }

  lemma Stride(data: seq<byte>, pos: nat, records: seq<Record>, rest: seq<Record>, ram: nat)
    requires pos < |data| && Between(data, pos, records, rest, ram)
    ensures pos + 8 <= |data| && pos + 8 + 4 * Get(data, pos + 4) <= |data| && rest != []
    ensures Between(data, pos + 8 + 4 * Get(data, pos + 4), records + [RecordAt(data, pos)], rest[1..], ram)
  {
    AheadOf(data, pos, rest, ram);
    WalkOn(data, pos, records, ram);
  }

  lemma FromTheStart(data: seq<byte>, records: seq<Record>, ram: nat)
    requires Walked(data, |data|, records, ram)
    ensures Between(data, 0, [], records, ram)
  {
    assert data[..|data|] == data && data[0..] == data;
  }

  lemma WritesAppend(rs: seq<Record>, r: Record, base: nat)
    ensures Writes(rs + [r], base) == Writes(rs, base) + RecordWrites(r, base, |r.words|)
  {
    assert (rs + [r])[..|rs|] == rs;
  }

  lemma CopiedOn(log0: seq<Write>, memory0: map<nat, word>, records: seq<Record>, r: Record, base: nat)
    ensures var ws, more := Writes(records, base), RecordWrites(r, base, |r.words|);
            && (log0 + ws) + more == log0 + Writes(records + [r], base)
            && Apply(Apply(memory0, ws), more) == Apply(memory0, Writes(records + [r], base))
  {
    WritesAppend(records, r, base);
    ApplySplit(memory0, Writes(records, base), RecordWrites(r, base, |r.words|));
  }

  // The router

  datatype Layout = Legacy | V2

  datatype Mcu = Mcu(ramSize: nat, ram: nat, control: nat)
  {
    /** RAM and the control register do not overlap. */
    ghost predicate Apart()
    {
      ram + ramSize <= control || control + 4 <= ram
    }
  }

  /** qcom_usb4_mcu_init on an aligned mapping. */
  method InitMcu(mapping: nat, ramSize: nat, layout: Layout) returns (mcu: Option<Mcu>)
    ensures mcu.Some? ==> mcu.value.Apart() && mcu.value.ramSize == ramSize >= 12
    ensures mcu.Some? ==> mcu.value.ram + ramSize <= mapping && mcu.value.control + 4 <= mapping
    ensures mcu.Some? && layout == Legacy ==> mcu.value.ram == 0x13000 && mcu.value.control == 0x22000
    ensures mcu.Some? && layout == V2 ==> mcu.value.ram == 0x1e000 && mcu.value.control == 0x14000
    ensures layout == Legacy ==> (mcu.Some? <==> 12 <= ramSize <= 0xf000 && mapping >= 0x22014)
    ensures layout == V2 ==> (mcu.Some? <==> 12 <= ramSize && mapping >= 0x1e000 + ramSize)
  {
    if ramSize < 12 {
      return None;
    }
    var ram, control, shared;
    match layout {
      case Legacy => ram, control, shared := 0x13000, 0x22000, 0x22010;
      case V2 => ram, control, shared := 0x1e000, 0x14000, 0x14010;
    }
    if mapping < shared + 4 || ram > mapping || ramSize > mapping - ram || (ram <= control && ramSize > control - ram) {
      return None;
    }
    mcu := Some(Mcu(ramSize, ram, control));
  }

  datatype Ret = Done | Rejected(v: Verdict) | Busy | IoError

  class Router {
    const mcu: Mcu
    var memory: map<nat, word>
    ghost var log: seq<Write>

    constructor (mcu: Mcu)
      ensures this.mcu == mcu && memory == map[] && log == []
    {
      this.mcu := mcu;
      memory := map[];
      log := [];
    }

    function Readl(addr: nat): word
      reads `memory
    {
      if addr in memory then memory[addr] else 0
    }

    method Writel(addr: nat, value: word)
      modifies this
      ensures memory == old(memory)[addr := value] && log == old(log) + [Write(addr, value)]
    {
      memory := memory[addr := value];
      log := log + [Write(addr, value)];
    }

    /** The words of one record, in order. */
    method WriteRecord(data: seq<byte>, pos: nat)
      requires pos + 8 <= |data| && pos + 8 + 4 * Get(data, pos + 4) <= |data|
      modifies this
      ensures var r := RecordAt(data, pos);
              var ws := RecordWrites(r, mcu.ram, |r.words|);
              log == old(log) + ws && memory == Apply(old(memory), ws)
    {
      ghost var r := RecordAt(data, pos);
      var offset: int, n: nat := Get(data, pos), Get(data, pos + 4);
      var at := pos + 8;
      for k := 0 to n
        invariant offset == r.offset + 4 * k && at == pos + 8 + 4 * k
        invariant log == old(log) + RecordWrites(r, mcu.ram, k)
        invariant memory == Apply(old(memory), RecordWrites(r, mcu.ram, k))
      {
        ReadAt(data, pos + 8, n, k);
        Writel(mcu.ram + offset, Get(data, at));
        offset := offset + 4;
        at := at + 4;
      }
    }

    /** qcom_usb4_fw_upload through qcom_usb4_mcu_write_word: all of the image or nothing. */
    method FwUpload(data: seq<byte>) returns (v: Verdict, ghost records: seq<Record>)
      modifies this
      ensures v == Accepted <==> data != [] && IsImage(data, mcu.ramSize)
      ensures v != Accepted ==> unchanged(this)
      ensures v == Accepted ==>
                && Walked(data, |data|, records, mcu.ramSize)
                && log == old(log) + Writes(records, mcu.ram)
                && memory == Apply(old(memory), Writes(records, mcu.ram))
    {
      v, records := Validate(data, mcu.ramSize);
      if v != Accepted {
        return;
      }
      ghost var rest := records;
      records := [];
      var pos: nat := 0;
      FromTheStart(data, rest, mcu.ramSize);
      while pos < |data|
        invariant pos <= |data| && Between(data, pos, records, rest, mcu.ramSize)
        invariant Copied(old(log), old(memory), records)
      {
        Stride(data, pos, records, rest, mcu.ramSize);
        CopyRecord(data, pos, old(log), old(memory), records);
        records, rest := records + [RecordAt(data, pos)], rest[1..];
        pos := pos + 8 + 4 * Get(data, pos + 4);
      }
    }

    /** The state after `records` went into RAM. */
    ghost predicate Copied(log0: seq<Write>, memory0: map<nat, word>, records: seq<Record>)
      reads this
    {
      log == log0 + Writes(records, mcu.ram) && memory == Apply(memory0, Writes(records, mcu.ram))
    }

    method CopyRecord(data: seq<byte>, pos: nat, ghost log0: seq<Write>, ghost memory0: map<nat, word>,
                      ghost records: seq<Record>)
      requires pos + 8 <= |data| && pos + 8 + 4 * Get(data, pos + 4) <= |data|
      requires Copied(log0, memory0, records)
      modifies this
      ensures Copied(log0, memory0, records + [RecordAt(data, pos)])
    {
      WriteRecord(data, pos);
      CopiedOn(log0, memory0, records, RecordAt(data, pos), mcu.ram);
    }

    /** qcom_usb4_mcu_upload */
    method Upload(data: seq<byte>) returns (ret: Ret, ghost records: seq<Record>)
      modifies this
      ensures ret != Done ==> unchanged(this)
      ensures ret == Done <==> data != [] && IsImage(data, mcu.ramSize) && old(Readl(mcu.control)) % 2 == 0
      ensures ret == Done ==>
                && Walked(data, |data|, records, mcu.ramSize)
                && log == old(log) + [Write(mcu.control, 0)] + Writes(records, mcu.ram)
                && memory == Apply(old(memory)[mcu.control := 0], Writes(records, mcu.ram))
    {
      var v;
      v, records := Validate(data, mcu.ramSize);
      if v != Accepted {
        return Rejected(v), records;
      }
      if Readl(mcu.control) % 2 == 1 {
        return Busy, records;
      }
      Writel(mcu.control, 0);
      v, records := FwUpload(data);
      ret := Done;
    }

    /** The check of one record by the frontend. */
    method VerifyRecord(data: seq<byte>, pos: nat) returns (same: bool)
      requires pos + 8 <= |data| && pos + 8 + 4 * Get(data, pos + 4) <= |data|
      ensures var r := RecordAt(data, pos);
              var ws := RecordWrites(r, mcu.ram, |r.words|);
              same <==> Matches(ws)
    {
      ghost var r := RecordAt(data, pos);
      var offset: int, n: nat := Get(data, pos), Get(data, pos + 4);
      ghost var ws := RecordWrites(r, mcu.ram, n);
      var at := pos + 8;
      for k := 0 to n
        invariant offset == r.offset + 4 * k && at == pos + 8 + 4 * k
        invariant forall i | 0 <= i < k :: Readl(ws[i].addr) == ws[i].value
      {
        ReadAt(data, pos + 8, n, k);
        RecordWriteAt(r, mcu.ram, n, k);
        if Readl(mcu.ram + offset) != Get(data, at) {
          return false;
        }
        offset := offset + 4;
        at := at + 4;
      }
      same := true;
    }

    ghost predicate Matches(ws: seq<Write>)
      reads `memory
    {
      forall i | 0 <= i < |ws| :: Readl(ws[i].addr) == ws[i].value
    }

    lemma MatchesAppend(a: seq<Write>, b: seq<Write>)
      ensures Matches(a + b) <==> Matches(a) && Matches(b)
    {
      assert forall i | 0 <= i < |a| :: (a + b)[i] == a[i];
      assert forall i | 0 <= i < |b| :: (a + b)[|a| + i] == b[i];
    }

    /** The read-back of the whole image. */
    method Verify(data: seq<byte>, ghost records: seq<Record>) returns (same: bool)
      requires Walked(data, |data|, records, mcu.ramSize)
      ensures same <==> Matches(Writes(records, mcu.ram))
    {
      var pos: nat := 0;
      ghost var passed: seq<Record>, rest := [], records;
      FromTheStart(data, records, mcu.ramSize);
      while pos < |data|
        invariant pos <= |data| && Between(data, pos, passed, rest, mcu.ramSize)
        invariant passed + rest == records && Matches(Writes(passed, mcu.ram))
      {
        same := VerifyNext(data, pos, passed, rest);
        SplitHead(passed, rest);
        passed, rest := passed + [rest[0]], rest[1..];
        if !same {
          NotAPrefix(passed, rest);
          return;
        }
        pos := pos + 8 + 4 * Get(data, pos + 4);
      }
      NothingLeft(data, rest, mcu.ramSize);
      assert passed + [] == passed;
      same := true;
    }

    method VerifyNext(data: seq<byte>, pos: nat, ghost passed: seq<Record>, ghost rest: seq<Record>)
      returns (same: bool)
      requires pos < |data| && Between(data, pos, passed, rest, mcu.ramSize) && Matches(Writes(passed, mcu.ram))
      ensures rest != [] && pos + 8 <= |data| && pos + 8 + 4 * Get(data, pos + 4) <= |data|
      ensures Between(data, pos + 8 + 4 * Get(data, pos + 4), passed + [rest[0]], rest[1..], mcu.ramSize)
      ensures same <==> Matches(Writes(passed + [rest[0]], mcu.ram))
    {
      Stride(data, pos, passed, rest, mcu.ramSize);
      NextIsHead(data, pos, rest, mcu.ramSize);
      ghost var r := RecordAt(data, pos);
      WritesAppend(passed, r, mcu.ram);
      MatchesAppend(Writes(passed, mcu.ram), RecordWrites(r, mcu.ram, |r.words|));
      same := VerifyRecord(data, pos);
    }

    lemma NotAPrefix(a: seq<Record>, b: seq<Record>)
      requires !Matches(Writes(a, mcu.ram))
      ensures !Matches(Writes(a + b, mcu.ram))
    {
      if Matches(Writes(a + b, mcu.ram)) {
        PrefixMatches(a, b);
      }
    }

    lemma {:induction false} PrefixMatches(a: seq<Record>, b: seq<Record>)
      requires Matches(Writes(a + b, mcu.ram))
      ensures Matches(Writes(a, mcu.ram))
      decreases |b|
    {
      if b == [] {
        assert a + b == a;
      } else {
        var init, last := b[..|b| - 1], b[|b| - 1];
        assert a + b == (a + init) + [last];
        WritesAppend(a + init, last, mcu.ram);
        MatchesAppend(Writes(a + init, mcu.ram), RecordWrites(last, mcu.ram, |last.words|));
        PrefixMatches(a, init);
      }
    }

    /**
     * upload_checked on the frontend's layout and on memory that keeps what is
     * written: it succeeds exactly for good images that write no address twice
     * with different words, while the controller is stopped.
     */
    method UploadChecked(data: seq<byte>) returns (ret: Ret, ghost records: seq<Record>)
      requires mcu.ram == 0x13000 && mcu.control == 0x22000 && mcu.Apart()
      modifies this
      ensures (data != [] && IsImage(data, mcu.ramSize)) && old(Readl(mcu.control)) % 2 == 0 ==>
                && Walked(data, |data|, records, mcu.ramSize)
                && (ret == Done <==> Consistent(Writes(records, mcu.ram)))
                && (ret == IoError <==> !Consistent(Writes(records, mcu.ram)))
                && log == old(log) + [Write(mcu.control, 0)] + Writes(records, mcu.ram)
      ensures !(data != [] && IsImage(data, mcu.ramSize)) || old(Readl(mcu.control)) % 2 == 1 ==>
                ret != Done && unchanged(this)
    {
      ret, records := Upload(data);
      if ret != Done {
        return;
      }
      ghost var ws := Writes(records, mcu.ram);
      KeptIffConsistent(old(memory)[mcu.control := 0], ws);
      MatchesIsKept(old(memory)[mcu.control := 0], ws);
      WritesMissControl(records, mcu);
      ApplyElsewhere(old(memory)[mcu.control := 0], ws, mcu.control);
      var same := Verify(data, records);
      if !same {
        return IoError, records;
      }
      if Readl(mcu.control) != 0 {
        return Busy, records;
      }
      ret := Done;
    }

    lemma MatchesIsKept(memory0: map<nat, word>, ws: seq<Write>)
      requires memory == Apply(memory0, ws)
      ensures Matches(ws) <==> forall i | 0 <= i < |ws| :: Kept(memory, ws[i])
    {
      forall i | 0 <= i < |ws|
        ensures ws[i].addr in memory
      {
        WrittenIsThere(memory0, ws, i);
      }
    }
  }

  /** The record found at `pos` is the next one encoded there. */
  lemma NextIsHead(data: seq<byte>, pos: nat, rest: seq<Record>, ram: nat)
    requires pos < |data| && Ahead(data, pos, rest, ram)
    requires pos + 8 <= |data| && pos + 8 + 4 * Get(data, pos + 4) <= |data|
    ensures rest != [] && rest[0] == RecordAt(data, pos)
  {
    GoodFromHere(data, pos, rest, ram);
    RecordIsEncoded(data, pos);
    var next := pos + 8 + 4 * Get(data, pos + 4);
    Adjoin(data, pos, next, |data|);
    RecordInjective(rest[0], Image(rest[1..]), RecordAt(data, pos), data[next..]);
  }

  lemma SplitHead(a: seq<Record>, b: seq<Record>)
    requires b != []
    ensures (a + [b[0]]) + b[1..] == a + b
  {
  }

  lemma NothingLeft(data: seq<byte>, rest: seq<Record>, ram: nat)
    requires Ahead(data, |data|, rest, ram)
    ensures rest == []
  {
    assert Image(rest) == [];
  }

  lemma {:induction false} RecordWriteAt(r: Record, base: nat, n: nat, k: nat)
    requires k < n <= |r.words|
    ensures RecordWrites(r, base, n)[k] == Write(base + r.offset + 4 * k, r.words[k])
    decreases n
  {
    if k < n - 1 {
      RecordWriteAt(r, base, n - 1, k);
    }
  }
}
