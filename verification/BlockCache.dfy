/** The write-back block cache shared by all partitions (source/filesystem/Partition.cc), as a function on
    values: five slots in list order, most recently used first, over the contents of the block devices.
    Module PartitionCache has the code that works in place; this module says what the cache means. */
module BlockCache {
  import opened Collections
  import opened Words
  import opened Numbers
  import opened LinkedLists

  const CACHED_BLOCKS: nat := 5

  /** The bytes of one sector; devices and the cache only move sectors whole. */
  type Sector = seq<bv8>

  type ErrorCode = e: int | e < OK witness ERROR

  /** The fields of a partition that the cache reads; partitions are told apart by identity. */
  class Partition {
    const device: nat
    const lbaStart: nat
    const sectors: nat
    const sectorsPerBlock: nat

    constructor (device: nat, lbaStart: nat, sectors: nat, sectorsPerBlock: nat)
      ensures this.device == device && this.lbaStart == lbaStart
      ensures this.sectors == sectors && this.sectorsPerBlock == sectorsPerBlock
    {
      this.device, this.lbaStart := device, lbaStart;
      this.sectors, this.sectorsPerBlock := sectors, sectorsPerBlock;
    }
  }

  /** Contents of all block devices, by device and sector address. */
  type Disk = map<(nat, nat), Sector>

  function SectorAt(disk: Disk, device: nat, address: nat): Sector {
    if (device, address) in disk then disk[(device, address)] else []
  }

  function ReadRange(disk: Disk, device: nat, start: nat, n: nat): (data: seq<Sector>)
    ensures |data| == n
    ensures forall i {:trigger data[i]} :: 0 <= i < n ==> data[i] == SectorAt(disk, device, start + i)
  {
    if n == 0 then [] else ReadRange(disk, device, start, n - 1) + [SectorAt(disk, device, start + n - 1)]
  }

  function WriteRange(disk: Disk, device: nat, start: nat, data: seq<Sector>): (r: Disk)
    ensures forall d: nat, a: nat {:trigger SectorAt(r, d, a)} ::
              SectorAt(r, d, a) == (if d == device && start <= a < start + |data| then data[a - start] else SectorAt(disk, d, a))
  {
    if data == [] then disk
    else
      var n := |data| - 1;
      var rest := WriteRange(disk, device, start, data[..n]);
      var all := rest[(device, start + n) := data[n]];
      assert forall d: nat, a: nat {:trigger SectorAt(all, d, a)} ::
          SectorAt(all, d, a) == if d == device && a == start + n then data[n] else SectorAt(rest, d, a);
      all
  }

  /** A device call ends well, or fails and leaves arbitrary sectors where it was to put data. */
  datatype Outcome = Done | Failed(error: ErrorCode, left: seq<Sector>)

  /** One cached block; `part` is null in a slot never used. */
  datatype Slot = Slot(part: Partition?, block: nat, modified: bool, data: seq<Sector>)

  datatype World = World(slots: seq<Slot>, disk: Disk)

  /** What one call of `accessSector` is asked to do, and how the device behaves in it. */
  datatype Request = Request(part: Partition, sector: nat, value: Option<Sector>, writeBack: Outcome, fetch: Outcome)

  datatype Answer = Error(error: ErrorCode) | Ok(value: Option<Sector>)

  function BlockOf(p: Partition, sector: nat): nat
    requires p.sectorsPerBlock > 0
  {
    sector - sector % p.sectorsPerBlock
  }

  /** The code masks the sector number with `~(sectorsPerBlock-1)`, and with `sectorsPerBlock-1` for the offset in the block:
      for a power of two that is the block and the remainder. */
  lemma BlockByMask(p: Partition, sector: bv32, k: nat)
    requires k < 32 && p.sectorsPerBlock == Number(Bit(k)) > 0
    ensures Number(Cleared(sector, Below(Bit(k)))) == BlockOf(p, Number(sector))
    ensures Number(And(sector, Below(Bit(k)))) == Number(sector) % p.sectorsPerBlock
  {
    MaskIsRemainder(sector, k);
  }

  function DeviceStart(p: Partition, block: nat): nat {
    (p.lbaStart + block) % UNINT4_RANGE
  }

  /** The position of the slot that holds the block, or the number of slots. */
  function Find(slots: seq<Slot>, p: Partition, block: nat): (k: nat)
    ensures k <= |slots|
    ensures k < |slots| ==> slots[k].part == p && slots[k].block == block
    ensures forall i :: 0 <= i < k ==> !(slots[i].part == p && slots[i].block == block)
  {
    if slots == [] then 0
    else if slots[0].part == p && slots[0].block == block then 0
    else 1 + Find(slots[1..], p, block)
  }

  /** A buffer whose front a failing device call has overwritten with `left`. */
  function Overwritten(data: seq<Sector>, left: seq<Sector>): (r: seq<Sector>)
    ensures |r| == |data|
  {
    if |left| <= |data| then left + data[|left|..] else left[..|data|]
  }

  /** The devices after the slot was written to its partition; a failing write leaves anything in that range. */
  function WriteBack(disk: Disk, s: Slot, outcome: Outcome): Disk
    requires s.part != null
  {
    WriteRange(disk, s.part.device, DeviceStart(s.part, s.block),
               if outcome.Done? then s.data else Overwritten(s.data, outcome.left))
  }

  /** Slot `k` moved to the front, with `value` (if any) stored at the offset. */
  function Served(w: World, k: nat, offset: nat, value: Option<Sector>): World
    requires k < |w.slots| && offset < |w.slots[k].data|
  {
    var s := w.slots[k];
    var s' := if value.None? then s else s.(modified := true, data := s.data[offset := value.value]);
    World([s'] + RemoveAt(w.slots, k), w.disk)
  }

  /** Serves the request from slot `k`. */
  function Serve(w: World, k: nat, r: Request): (World, Answer)
    requires k < |w.slots| && 0 < r.part.sectorsPerBlock == |w.slots[k].data|
  {
    var offset := r.sector % r.part.sectorsPerBlock;
    (Served(w, k, offset, r.value), Ok(if r.value.None? then Some(w.slots[k].data[offset]) else None))
  }

  predicate Sized(slots: seq<Slot>, spb: nat) {
    forall i :: 0 <= i < |slots| ==> |slots[i].data| == spb
  }

  /** Slot `k` of the world replaced by the block just read from the device. */
  function Fetched(w: World, k: nat, p: Partition, block: nat): World
    requires k < |w.slots|
  {
    World(w.slots[k := Slot(p, block, false, ReadRange(w.disk, p.device, DeviceStart(p, block), p.sectorsPerBlock))], w.disk)
  }

  /** A miss: the last slot is written back if it must be, and reads the block of the request. */
  function Evict(w: World, r: Request): (World, Answer)
    requires |w.slots| > 0 && r.part.sectorsPerBlock > 0 && Sized(w.slots, r.part.sectorsPerBlock)
  {
    var block := BlockOf(r.part, r.sector);
    var last := |w.slots| - 1;
    var victim := w.slots[last];
    var dirty := victim.part != null && victim.modified;
    var disk := if dirty then WriteBack(w.disk, victim, r.writeBack) else w.disk;
    if dirty && r.writeBack.Failed? then (World(w.slots, disk), Error(r.writeBack.error))
    else if r.fetch.Failed? then
      (World(w.slots[last := Slot(r.part, block, false, Overwritten(victim.data, r.fetch.left))], disk), Error(r.fetch.error))
    else
      (Fetched(World(w.slots, disk), last, r.part, block), Ok(None))
  }

  /** One call of `accessSector`: the world it leaves and what it returns. */
  function Access(w: World, r: Request): (World, Answer)
    requires |w.slots| > 0 && r.part.sectorsPerBlock > 0 && Sized(w.slots, r.part.sectorsPerBlock)
  {
    var k := Find(w.slots, r.part, BlockOf(r.part, r.sector));
    if k < |w.slots| then Serve(w, k, r)
    else
      var (v, a) := Evict(w, r);
      if a.Error? then (v, a) else Serve(v, |v.slots| - 1, r)
  }

  /** A hit succeeds without the device: neither calls it, nor depends on how it would behave. */
  lemma HitIgnoresDevice(w: World, r: Request, writeBack: Outcome, fetch: Outcome)
    requires |w.slots| > 0 && r.part.sectorsPerBlock > 0 && Sized(w.slots, r.part.sectorsPerBlock)
    requires Find(w.slots, r.part, BlockOf(r.part, r.sector)) < |w.slots|
    ensures Access(w, r.(writeBack := writeBack, fetch := fetch)) == Access(w, r)
    ensures Access(w, r).1.Ok? && Access(w, r).0.disk == w.disk
  {
  }

  // ---------- what the cache stands for ----------

  /** The contents of sector `offset` of a block: what its slot holds, or else the device. */
  function Cell(w: World, p: Partition, block: nat, offset: nat): Sector
    requires Sized(w.slots, p.sectorsPerBlock) && offset < p.sectorsPerBlock
  {
    var k := Find(w.slots, p, block);
    if k < |w.slots| then w.slots[k].data[offset] else SectorAt(w.disk, p.device, DeviceStart(p, block) + offset)
  }

  /** The contents of a sector as the users of the cache see it. */
  function Logical(w: World, p: Partition, sector: nat): Sector
    requires p.sectorsPerBlock > 0 && Sized(w.slots, p.sectorsPerBlock)
  {
    Cell(w, p, BlockOf(p, sector), sector % p.sectorsPerBlock)
  }

  /** The number of sectors of the partition, rounded up to whole blocks. */
  function Span(p: Partition): nat
    requires p.sectorsPerBlock > 0
  {
    if p.sectors == 0 then 0 else BlockOf(p, p.sectors - 1) + p.sectorsPerBlock
  }

  /** All partitions use the same block size, and their block-rounded device ranges are apart. */
  ghost predicate Geometry(parts: set<Partition>, spb: nat) {
    && spb > 0
    && (forall p :: p in parts ==> p.sectorsPerBlock == spb && p.lbaStart + Span(p) <= UNINT4_RANGE)
    && (forall p, q :: p in parts && q in parts && p != q && p.device == q.device ==>
          p.lbaStart + Span(p) <= q.lbaStart || q.lbaStart + Span(q) <= p.lbaStart)
  }

  /** The slot is unused or holds a whole block of a partition. */
  ghost predicate SlotOk(s: Slot, parts: set<Partition>, spb: nat)
    requires Geometry(parts, spb)
  {
    |s.data| == spb && (s.part != null ==> s.part in parts && s.block % spb == 0 && s.block + spb <= Span(s.part))
  }

  predicate SameBlock(s: Slot, t: Slot) {
    s.part != null && s.part == t.part && s.block == t.block
  }

  predicate Unique(slots: seq<Slot>) {
    forall i, j :: 0 <= i < j < |slots| ==> !SameBlock(slots[i], slots[j])
  }

  ghost predicate OnDisk(s: Slot, disk: Disk)
    requires s.part != null
  {
    forall i :: 0 <= i < |s.data| ==> SectorAt(disk, s.part.device, DeviceStart(s.part, s.block) + i) == s.data[i]
  }

  /** The invariant: slots hold whole blocks, no block twice, and unmodified slots agree with the device. */
  ghost predicate Coherent(w: World, parts: set<Partition>, spb: nat) {
    && Geometry(parts, spb)
    && |w.slots| == CACHED_BLOCKS
    && (forall i :: 0 <= i < |w.slots| ==> SlotOk(w.slots[i], parts, spb))
    && Unique(w.slots)
    && (forall i :: 0 <= i < |w.slots| && w.slots[i].part != null && !w.slots[i].modified ==> OnDisk(w.slots[i], w.disk))
  }

  lemma BlockArithmetic(s: nat, spb: nat)
    requires spb > 0
    ensures (s - s % spb) % spb == 0 && s - s % spb <= s < s - s % spb + spb
  {
    var n := s / spb;
    assert s - s % spb == spb * n;
    MultipleRemainder(n, spb);
  }

  lemma ProductBounds(spb: nat, d: int)
    requires spb > 0
    ensures d >= 1 ==> spb * d >= spb
    ensures d <= -1 ==> spb * d + spb <= 0
    ensures d <= 0 ==> spb * d <= 0
  {
  }

  lemma MultipleRemainder(n: nat, spb: nat)
    requires spb > 0
    ensures (spb * n) % spb == 0
  {
    var x := spb * n;
    var d := n - x / spb;
    assert spb * d == spb * n - spb * (x / spb) == x % spb;
    ProductBounds(spb, d);
  }

  /** Multiples of the block size that differ are a block apart. */
  lemma BlocksApart(a: nat, b: nat, spb: nat)
    requires spb > 0 && a % spb == 0 && b % spb == 0 && a < b
    ensures a + spb <= b
  {
    var m, n := a / spb, b / spb;
    assert a == spb * m;
    assert b == spb * n;
    var d := n - m;
    assert spb * d == b - a by { assert spb * (n - m) == spb * n - spb * m; }
    ProductBounds(spb, d);
  }

  /** A sector of a partition lies in a block of it. */
  lemma SectorInSpan(p: Partition, s: nat)
    requires p.sectorsPerBlock > 0 && s < p.sectors
    ensures BlockOf(p, s) % p.sectorsPerBlock == 0 && BlockOf(p, s) + p.sectorsPerBlock <= Span(p)
    ensures BlockOf(p, s) <= s < BlockOf(p, s) + p.sectorsPerBlock
  {
    var spb := p.sectorsPerBlock;
    var last := p.sectors - 1;
    BlockArithmetic(s, spb);
    BlockArithmetic(last, spb);
    var b, c := BlockOf(p, s), BlockOf(p, last);
    if c < b {
      BlocksApart(c, b, spb);
    }
  }

  /** Two blocks of partitions, unless the same, have no device sector in common. */
  lemma RangesApart(p: Partition, a: nat, q: Partition, b: nat, parts: set<Partition>, spb: nat)
    requires Geometry(parts, spb) && p in parts && q in parts && p.device == q.device
    requires a % spb == 0 && a + spb <= Span(p) && b % spb == 0 && b + spb <= Span(q)
    requires p != q || a != b
    ensures DeviceStart(p, a) == p.lbaStart + a && DeviceStart(q, b) == q.lbaStart + b
    ensures p.lbaStart + a + spb <= q.lbaStart + b || q.lbaStart + b + spb <= p.lbaStart + a
  {
    if p == q {
      if a < b {
        BlocksApart(a, b, spb);
      } else {
        BlocksApart(b, a, spb);
      }
    }
  }

  // ---------- the steps of an access, one by one ----------

  /** No slot but `k` holds the block. */
  ghost predicate OnlyAt(slots: seq<Slot>, k: nat, p: Partition, block: nat) {
    forall i :: 0 <= i < |slots| && i != k ==> !(slots[i].part == p && slots[i].block == block)
  }

  lemma UniqueOnly(slots: seq<Slot>, k: nat)
    requires k < |slots| && slots[k].part != null && Unique(slots)
    ensures OnlyAt(slots, k, slots[k].part, slots[k].block)
  {
    forall i | 0 <= i < |slots| && i != k
      ensures !(slots[i].part == slots[k].part && slots[i].block == slots[k].block)
    {
      assert if i < k then !SameBlock(slots[i], slots[k]) else !SameBlock(slots[k], slots[i]);
    }
  }

  lemma FindOnly(slots: seq<Slot>, k: nat, p: Partition, block: nat)
    requires k < |slots| && OnlyAt(slots, k, p, block)
    ensures Find(slots, p, block) == if slots[k].part == p && slots[k].block == block then k else |slots|
  {
  }

  /** Writing slot `k` back, well or badly, changes no logical contents: the slot hides the range it covers. */
  lemma WriteBackHidden(w: World, k: nat, outcome: Outcome, parts: set<Partition>, spb: nat)
    requires Coherent(w, parts, spb) && k < |w.slots| && w.slots[k].part != null && w.slots[k].modified
    ensures var disk := WriteBack(w.disk, w.slots[k], outcome);
            && Coherent(World(w.slots, disk), parts, spb)
            && (outcome.Done? ==> OnDisk(w.slots[k], disk))
            && (forall q, t {:trigger Logical(w, q, t)} :: q in parts && 0 <= t < q.sectors ==>
                 Logical(World(w.slots, disk), q, t) == Logical(w, q, t))
  {
    var s := w.slots[k];
    var disk := WriteBack(w.disk, s, outcome);
    forall i | 0 <= i < |w.slots| && w.slots[i].part != null && !w.slots[i].modified
      ensures OnDisk(w.slots[i], disk)
    {
      var c := w.slots[i];
      assert OnDisk(c, w.disk) && (i < k ==> !SameBlock(c, s)) && (k < i ==> !SameBlock(s, c));
      if c.part.device == s.part.device {
        RangesApart(c.part, c.block, s.part, s.block, parts, spb);
      }
    }
    forall q, t | q in parts && 0 <= t < q.sectors
      ensures Logical(World(w.slots, disk), q, t) == Logical(w, q, t)
    {
      SectorInSpan(q, t);
      var b := BlockOf(q, t);
      if Find(w.slots, q, b) == |w.slots| && q.device == s.part.device {
        RangesApart(q, b, s.part, s.block, parts, spb);
      }
    }
  }

  lemma FetchCoherent(w: World, k: nat, p: Partition, block: nat, parts: set<Partition>, spb: nat)
    requires Coherent(w, parts, spb) && k < |w.slots| && p in parts
    requires block % spb == 0 && block + spb <= Span(p) && Find(w.slots, p, block) == |w.slots|
    ensures Coherent(Fetched(w, k, p, block), parts, spb)
  {
    var v := Fetched(w, k, p, block);
    forall i, j | 0 <= i < j < |v.slots|
      ensures !SameBlock(v.slots[i], v.slots[j])
    {
      assert !SameBlock(w.slots[i], w.slots[j]);
    }
    assert OnDisk(v.slots[k], v.disk);
    forall i | 0 <= i < |v.slots| && i != k && v.slots[i].part != null && !v.slots[i].modified
      ensures OnDisk(v.slots[i], v.disk)
    {
      assert v.slots[i] == w.slots[i];
    }
  }

  /** Replacing a slot whose block is on the device by a freshly read block changes no logical contents. */
  lemma FetchHidden(w: World, k: nat, p: Partition, block: nat, parts: set<Partition>, spb: nat)
    requires Coherent(w, parts, spb) && k < |w.slots| && p in parts
    requires w.slots[k].part != null ==> OnDisk(w.slots[k], w.disk)
    requires block % spb == 0 && block + spb <= Span(p) && Find(w.slots, p, block) == |w.slots|
    ensures var v := Fetched(w, k, p, block);
            && Coherent(v, parts, spb)
            && (forall q, t {:trigger Logical(w, q, t)} :: q in parts && 0 <= t < q.sectors ==> Logical(v, q, t) == Logical(w, q, t))
  {
    FetchCoherent(w, k, p, block, parts, spb);
    forall q, t | q in parts && 0 <= t < q.sectors
      ensures Logical(Fetched(w, k, p, block), q, t) == Logical(w, q, t)
    {
      SectorInSpan(q, t);
      FetchedCell(w, k, p, block, q, BlockOf(q, t), t % spb);
    }
  }

  lemma FetchedCell(w: World, k: nat, p: Partition, block: nat, q: Partition, b: nat, o: nat)
    requires k < |w.slots| && Find(w.slots, p, block) == |w.slots| && Unique(w.slots)
    requires w.slots[k].part != null ==> OnDisk(w.slots[k], w.disk)
    requires Sized(w.slots, p.sectorsPerBlock) && o < q.sectorsPerBlock == p.sectorsPerBlock
    ensures Sized(Fetched(w, k, p, block).slots, p.sectorsPerBlock)
    ensures Cell(Fetched(w, k, p, block), q, b, o) == Cell(w, q, b, o)
  {
    var v := Fetched(w, k, p, block);
    var f := Find(w.slots, q, b);
    if f < |w.slots| && f != k {
      UniqueOnly(w.slots, f);
      FindOnly(v.slots, f, q, b);
    } else {
      if f == k {
        UniqueOnly(w.slots, k);
      }
      FindOnly(v.slots, k, q, b);
    }
  }

  // ---------- one access refines one access of a flat store ----------

  ghost predicate RequestOk(r: Request, parts: set<Partition>) {
    r.part in parts && r.sector < r.part.sectors
  }

  /** Serving from slot `k` returns the sector as it was and stores the value written, and nothing else changes. */
  lemma ServeRefines(w: World, k: nat, r: Request, parts: set<Partition>, spb: nat)
    requires Coherent(w, parts, spb) && RequestOk(r, parts)
    requires k < |w.slots| && w.slots[k].part == r.part && w.slots[k].block == BlockOf(r.part, r.sector)
    ensures var (v, a) := Serve(w, k, r);
            && Coherent(v, parts, spb)
            && a == Ok(if r.value.None? then Some(Logical(w, r.part, r.sector)) else None)
            && (forall q, t {:trigger Logical(v, q, t)} :: q in parts && 0 <= t < q.sectors ==>
                 Logical(v, q, t) == if r.value.Some? && q == r.part && t == r.sector then r.value.value else Logical(w, q, t))
  {
    var (v, a) := Serve(w, k, r);
    UniqueOnly(w.slots, k);
    FindOnly(w.slots, k, r.part, BlockOf(r.part, r.sector));
    SectorInSpan(r.part, r.sector);
    ServeCoherent(w, k, r, parts, spb);
    forall q, t | q in parts && 0 <= t < q.sectors
      ensures Logical(v, q, t) == if r.value.Some? && q == r.part && t == r.sector then r.value.value else Logical(w, q, t)
    {
      ServedCell(w, k, r.sector % spb, r.value, q, BlockOf(q, t), t % spb);
    }
  }

  lemma ServeCoherent(w: World, k: nat, r: Request, parts: set<Partition>, spb: nat)
    requires Coherent(w, parts, spb) && RequestOk(r, parts)
    requires k < |w.slots| && w.slots[k].part == r.part && w.slots[k].block == BlockOf(r.part, r.sector)
    ensures Coherent(Serve(w, k, r).0, parts, spb)
  {
    var v := Serve(w, k, r).0;
    FrontUnique(w.slots, k, v.slots[0]);
    forall i | 0 <= i < |v.slots| && v.slots[i].part != null && !v.slots[i].modified
      ensures OnDisk(v.slots[i], v.disk)
    {
      assert OnDisk(w.slots[if i == 0 then k else if i <= k then i - 1 else i], w.disk);
    }
  }

  lemma FrontUnique(slots: seq<Slot>, k: nat, x: Slot)
    requires k < |slots| && Unique(slots) && x.part == slots[k].part && x.block == slots[k].block
    ensures Unique([x] + RemoveAt(slots, k))
  {
    var v := [x] + RemoveAt(slots, k);
    forall i, j | 0 <= i < j < |v|
      ensures !SameBlock(v[i], v[j])
    {
      var m, n := if i == 0 then k else if i <= k then i - 1 else i, if j <= k then j - 1 else j;
      assert if m < n then !SameBlock(slots[m], slots[n]) else !SameBlock(slots[n], slots[m]);
    }
  }

  lemma ServedCell(w: World, k: nat, offset: nat, value: Option<Sector>, q: Partition, b: nat, o: nat)
    requires Sized(w.slots, q.sectorsPerBlock) && Unique(w.slots) && o < q.sectorsPerBlock && offset < q.sectorsPerBlock
    requires k < |w.slots| && w.slots[k].part != null && Sized(Served(w, k, offset, value).slots, q.sectorsPerBlock)
    ensures Cell(Served(w, k, offset, value), q, b, o) ==
            if value.Some? && q == w.slots[k].part && b == w.slots[k].block && o == offset then value.value else Cell(w, q, b, o)
  {
    var v := Served(w, k, offset, value);
    var f := Find(w.slots, q, b);
    UniqueOnly(w.slots, k);
    FrontOnlyAt(w.slots, k, v.slots[0]);
    if f == |w.slots| || f == k {
      assert OnlyAt(w.slots, k, q, b);
      FindOnly(v.slots, 0, q, b);
    } else {
      UniqueOnly(w.slots, f);
      FindOnly(v.slots, if f < k then f + 1 else f, q, b);
    }
  }

  /** Moving slot `k` to the front keeps every other slot, and where a block can be found. */
  lemma FrontOnlyAt(slots: seq<Slot>, k: nat, x: Slot)
    requires k < |slots|
    ensures var v := [x] + RemoveAt(slots, k);
            && |v| == |slots|
            && (forall i {:trigger slots[i]} :: 0 <= i < |slots| && i != k ==> v[if i < k then i + 1 else i] == slots[i])
            && (forall f: nat, q, b {:trigger OnlyAt(slots, f, q, b)} ::
                 (f < |slots| && f != k && OnlyAt(slots, f, q, b) && !(x.part == q && x.block == b)) ==>
                 OnlyAt(v, if f < k then f + 1 else f, q, b))
            && (forall q, b {:trigger OnlyAt(slots, k, q, b)} :: OnlyAt(slots, k, q, b) ==> OnlyAt(v, 0, q, b))
  {
    var v := [x] + RemoveAt(slots, k);
    assert forall i :: 0 < i < |v| ==> v[i] == slots[if i <= k then i - 1 else i];
  }

  /** Whether the request finds its block neither cached nor can make room for it. */
  predicate EvictionFails(w: World, r: Request)
    requires |w.slots| > 0 && r.part.sectorsPerBlock > 0
  {
    var victim := w.slots[|w.slots| - 1];
    Find(w.slots, r.part, BlockOf(r.part, r.sector)) == |w.slots| && victim.part != null && victim.modified && r.writeBack.Failed?
  }

  /** From `w` to `v` the users see `value`, if any, stored in the sector, and nothing else changed. */
  ghost predicate Updated(w: World, v: World, p: Partition, sector: nat, value: Option<Sector>, parts: set<Partition>, spb: nat)
    requires Geometry(parts, spb) && Sized(w.slots, spb) && Sized(v.slots, spb)
  {
    forall q, t {:trigger Logical(v, q, t)} {:trigger Logical(w, q, t)} :: q in parts && 0 <= t < q.sectors ==>
      Logical(v, q, t) == if value.Some? && q == p && t == sector then value.value else Logical(w, q, t)
  }

  /** The users of the partitions see the same contents in both worlds. */
  ghost predicate SameContents(w: World, v: World, parts: set<Partition>, spb: nat)
    requires Geometry(parts, spb) && Sized(w.slots, spb) && Sized(v.slots, spb)
  {
    forall q, t {:trigger Logical(v, q, t)} {:trigger Logical(w, q, t)} ::
      q in parts && 0 <= t < q.sectors ==> Logical(v, q, t) == Logical(w, q, t)
  }

  /** A miss first writes the last slot back if it must, which no user sees. */
  lemma VictimWritten(w: World, writeBack: Outcome, parts: set<Partition>, spb: nat) returns (w1: World)
    requires Coherent(w, parts, spb)
    ensures var victim := w.slots[|w.slots| - 1];
            var dirty := victim.part != null && victim.modified;
            && w1 == World(w.slots, if dirty then WriteBack(w.disk, victim, writeBack) else w.disk)
            && Coherent(w1, parts, spb) && SameContents(w, w1, parts, spb)
            && (victim.part != null && (dirty ==> writeBack.Done?) ==> OnDisk(victim, w1.disk))
  {
    var last := |w.slots| - 1;
    var victim := w.slots[last];
    w1 := w;
    if victim.part != null && victim.modified {
      WriteBackHidden(w, last, writeBack, parts, spb);
      w1 := World(w.slots, WriteBack(w.disk, victim, writeBack));
    }
  }

  /** With device reads that work, an access does on the flat store exactly what it says, or reports a failed
      write-back and changes nothing the users can see. */
  lemma AccessRefines(w: World, r: Request, parts: set<Partition>, spb: nat)
    requires Coherent(w, parts, spb) && RequestOk(r, parts) && r.fetch.Done?
    ensures var (v, a) := Access(w, r);
            && Coherent(v, parts, spb)
            && (EvictionFails(w, r) ==> a == Error(r.writeBack.error) && v.slots == w.slots)
            && (!EvictionFails(w, r) ==> a.Ok?)
            && (a.Ok? && r.value.None? ==> a.value == Some(Logical(w, r.part, r.sector)))
            && (a.Ok? && r.value.Some? ==> a.value == None)
            && Updated(w, v, r.part, r.sector, if a.Ok? then r.value else None, parts, spb)
  {
    var block := BlockOf(r.part, r.sector);
    var k := Find(w.slots, r.part, block);
    SectorInSpan(r.part, r.sector);
    if k < |w.slots| {
      ServeRefines(w, k, r, parts, spb);
    } else {
      var last := |w.slots| - 1;
      var w1 := VictimWritten(w, r.writeBack, parts, spb);
      if !EvictionFails(w, r) {
        FetchHidden(w1, last, r.part, block, parts, spb);
        ServeRefines(Fetched(w1, last, r.part, block), last, r, parts, spb);
      }
    }
  }

  /** Slot `k` labelled with a block but holding `data`: the invariant asks that this be what the device has. */
  lemma MislabelledCoherent(w: World, k: nat, p: Partition, block: nat, data: seq<Sector>, parts: set<Partition>, spb: nat)
    requires Coherent(w, parts, spb) && k < |w.slots| && p in parts && |data| == spb
    requires block % spb == 0 && block + spb <= Span(p) && Find(w.slots, p, block) == |w.slots|
    ensures Coherent(World(w.slots[k := Slot(p, block, false, data)], w.disk), parts, spb) <==>
            data == ReadRange(w.disk, p.device, DeviceStart(p, block), spb)
  {
    var v := World(w.slots[k := Slot(p, block, false, data)], w.disk);
    if data == ReadRange(w.disk, p.device, DeviceStart(p, block), spb) {
      FetchCoherent(w, k, p, block, parts, spb);
    }
    if Coherent(v, parts, spb) {
      assert OnDisk(v.slots[k], v.disk);
    }
  }

  lemma SameLabels(s: seq<Slot>, t: seq<Slot>, p: Partition, block: nat)
    requires |s| == |t| && forall i :: 0 <= i < |s| ==> s[i].part == t[i].part && s[i].block == t[i].block
    ensures Find(s, p, block) == Find(t, p, block)
  {
  }

  /** The sectors of a block are those from its first one on. */
  lemma InBlock(p: Partition, t: nat, block: nat)
    requires p.sectorsPerBlock > 0 && block % p.sectorsPerBlock == 0
    ensures BlockOf(p, t) == block <==> block <= t < block + p.sectorsPerBlock
    ensures BlockOf(p, t) == block ==> t % p.sectorsPerBlock == t - block
  {
    var spb := p.sectorsPerBlock;
    BlockArithmetic(t, spb);
    if BlockOf(p, t) < block {
      BlocksApart(BlockOf(p, t), block, spb);
    } else if block < BlockOf(p, t) {
      BlocksApart(block, BlockOf(p, t), spb);
    }
  }

  /** Slot `k` labelled with a block but holding `stale`: users see that in the block's sectors, and nothing else changes. */
  lemma MislabelledCell(w: World, k: nat, p: Partition, block: nat, stale: seq<Sector>, q: Partition, t: nat, parts: set<Partition>, spb: nat)
    requires Coherent(w, parts, spb) && k < |w.slots| && p in parts && |stale| == spb && q in parts && t < q.sectors
    requires w.slots[k].part != null ==> OnDisk(w.slots[k], w.disk)
    requires block % spb == 0 && block + spb <= Span(p) && Find(w.slots, p, block) == |w.slots|
    ensures var v := World(w.slots[k := Slot(p, block, false, stale)], w.disk);
            Logical(v, q, t) == if q == p && block <= t < block + spb then stale[t - block] else Logical(w, q, t)
  {
    var v, f := World(w.slots[k := Slot(p, block, false, stale)], w.disk), Fetched(w, k, p, block);
    FetchHidden(w, k, p, block, parts, spb);
    SameLabels(v.slots, f.slots, q, BlockOf(q, t));
    InBlock(q, t, block);
    FindOnly(v.slots, k, p, block);
    assert Logical(f, q, t) == Logical(w, q, t);
  }

  /** What users read of the block's sectors is right. */
  ghost predicate StaleIsRight(w: World, p: Partition, block: nat, stale: seq<Sector>)
    requires p.sectorsPerBlock > 0 && Sized(w.slots, p.sectorsPerBlock) && |stale| == p.sectorsPerBlock
  {
    forall t {:trigger Logical(w, p, t)} :: block <= t < block + p.sectorsPerBlock && t < p.sectors ==> stale[t - block] == Logical(w, p, t)
  }

  /** From `w` to `v` users see `stale` in the block's sectors, and nothing else changed. */
  ghost predicate SeenStale(w: World, v: World, p: Partition, block: nat, stale: seq<Sector>, parts: set<Partition>, spb: nat)
    requires Geometry(parts, spb) && Sized(w.slots, spb) && Sized(v.slots, spb) && |stale| == spb
  {
    forall q, t {:trigger Logical(v, q, t)} {:trigger Logical(w, q, t)} :: q in parts && 0 <= t < q.sectors ==>
      Logical(v, q, t) == if q == p && block <= t < block + spb then stale[t - block] else Logical(w, q, t)
  }

  lemma StaleIsSame(w: World, v: World, p: Partition, block: nat, stale: seq<Sector>, parts: set<Partition>, spb: nat)
    requires Geometry(parts, spb) && Sized(w.slots, spb) && Sized(v.slots, spb) && |stale| == spb && p in parts
    requires SeenStale(w, v, p, block, stale, parts, spb)
    ensures SameContents(w, v, parts, spb) <==> StaleIsRight(w, p, block, stale)
  {
    if SameContents(w, v, parts, spb) {
      forall t | block <= t < block + spb && t < p.sectors
        ensures stale[t - block] == Logical(w, p, t)
      {
        assert Logical(v, p, t) == Logical(w, p, t);
      }
    }
  }

  lemma MislabelledContents(w: World, k: nat, p: Partition, block: nat, stale: seq<Sector>, parts: set<Partition>, spb: nat)
    requires Coherent(w, parts, spb) && k < |w.slots| && p in parts && |stale| == spb
    requires w.slots[k].part != null ==> OnDisk(w.slots[k], w.disk)
    requires block % spb == 0 && block + spb <= Span(p) && Find(w.slots, p, block) == |w.slots|
    ensures SameContents(w, World(w.slots[k := Slot(p, block, false, stale)], w.disk), parts, spb) <==>
            StaleIsRight(w, p, block, stale)
  {
    var v := World(w.slots[k := Slot(p, block, false, stale)], w.disk);
    forall q, t | q in parts && 0 <= t < q.sectors
      ensures Logical(v, q, t) == if q == p && block <= t < block + spb then stale[t - block] else Logical(w, q, t)
    {
      MislabelledCell(w, k, p, block, stale, q, t, parts, spb);
    }
    StaleIsSame(w, v, p, block, stale, parts, spb);
  }

  /** A device read that fails reports its error and leaves the slot labelled with a block it does not hold. No user sees a
      difference exactly when the stale buffer agrees with every sector of the block that lies in the partition. */
  lemma FailedFetch(w: World, r: Request, parts: set<Partition>, spb: nat)
    requires Coherent(w, parts, spb) && RequestOk(r, parts) && r.fetch.Failed?
    requires Find(w.slots, r.part, BlockOf(r.part, r.sector)) == |w.slots| && !EvictionFails(w, r)
    ensures var (v, a) := Access(w, r);
            var stale := Overwritten(w.slots[CACHED_BLOCKS - 1].data, r.fetch.left);
            && a == Error(r.fetch.error)
            && (SameContents(w, v, parts, spb) <==> StaleIsRight(w, r.part, BlockOf(r.part, r.sector), stale))
  {
    SectorInSpan(r.part, r.sector);
    var last, block := |w.slots| - 1, BlockOf(r.part, r.sector);
    var w1 := VictimWritten(w, r.writeBack, parts, spb);
    MislabelledContents(w1, last, r.part, block, Overwritten(w.slots[last].data, r.fetch.left), parts, spb);
  }

  /** The cache stays coherent exactly when the stale buffer equals the whole block on the device. */
  lemma FailedFetchCoherent(w: World, r: Request, parts: set<Partition>, spb: nat)
    requires Coherent(w, parts, spb) && RequestOk(r, parts) && r.fetch.Failed?
    requires Find(w.slots, r.part, BlockOf(r.part, r.sector)) == |w.slots| && !EvictionFails(w, r)
    ensures var (v, a) := Access(w, r);
            && a == Error(r.fetch.error)
            && (Coherent(v, parts, spb) <==>
                Overwritten(w.slots[CACHED_BLOCKS - 1].data, r.fetch.left) ==
                ReadRange(v.disk, r.part.device, DeviceStart(r.part, BlockOf(r.part, r.sector)), spb))
  {
    SectorInSpan(r.part, r.sector);
    var last := |w.slots| - 1;
    var w1 := VictimWritten(w, r.writeBack, parts, spb);
    MislabelledCoherent(w1, last, r.part, BlockOf(r.part, r.sector), Overwritten(w.slots[last].data, r.fetch.left), parts, spb);
  }

  /** After a failed device read the next read of the sector is a hit that returns the stale contents. */
  lemma FailedFetchIsForgotten(w: World, r: Request, spb: nat)
    requires |w.slots| > 0 && spb == r.part.sectorsPerBlock > 0 && Sized(w.slots, spb) && r.fetch.Failed?
    requires Find(w.slots, r.part, BlockOf(r.part, r.sector)) == |w.slots| && !EvictionFails(w, r)
    ensures var v := Access(w, r).0;
            && |v.slots| > 0 && Sized(v.slots, spb)
            && Access(v, r.(value := None)).1 ==
               Ok(Some(Overwritten(w.slots[|w.slots| - 1].data, r.fetch.left)[r.sector % spb]))
  {
    FindOnly(Access(w, r).0.slots, |w.slots| - 1, r.part, BlockOf(r.part, r.sector));
  }
}
