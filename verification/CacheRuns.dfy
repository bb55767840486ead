/** Whole runs of the block cache: the flat store it refines, flushing, and the order of its slots. */
module CacheRuns {
  import opened Collections
  import opened Words
  import opened LinkedLists
  import opened BlockCache

  /** The cache after `initialize`: five unused slots. */
  function EmptyCache(spb: nat, disk: Disk): World {
    var s := Slot(null, 0, false, seq(spb, _ => []));
    World([s, s, s, s, s], disk)
  }

  /** An empty cache is coherent, and its users see the devices. */
  lemma EmptyCoherent(spb: nat, disk: Disk, parts: set<Partition>)
    requires Geometry(parts, spb)
    ensures var w := EmptyCache(spb, disk);
            && Coherent(w, parts, spb)
            && forall p, t {:trigger Logical(w, p, t)} :: p in parts && 0 <= t < p.sectors ==>
                 Logical(w, p, t) == SectorAt(disk, p.device, p.lbaStart + t)
  {
    forall p, t | p in parts && 0 <= t < p.sectors
      ensures Logical(EmptyCache(spb, disk), p, t) == SectorAt(disk, p.device, p.lbaStart + t)
    {
      EmptyFinds(spb, disk, p, BlockOf(p, t));
      SectorPlace(p, t, parts, spb);
    }
  }

  lemma EmptyFinds(spb: nat, disk: Disk, p: Partition, block: nat)
    ensures Find(EmptyCache(spb, disk).slots, p, block) == CACHED_BLOCKS
  {
    var slots := EmptyCache(spb, disk).slots;
    assert forall i :: 0 <= i < |slots| ==> slots[i].part == null;
  }

  // ---------- flushing ----------

  /** The list walk of `flushCache` from slot `i` on: modified slots of the partition are written back. */
  function FlushFrom(w: World, p: Partition, i: nat, outcomes: seq<Outcome>): (v: World)
    requires i <= |w.slots| == |outcomes|
    ensures |v.slots| == |w.slots|
    ensures forall j :: 0 <= j < |w.slots| ==>
              v.slots[j] == if i <= j && w.slots[j].part == p then w.slots[j].(modified := false) else w.slots[j]
    decreases |w.slots| - i
  {
    if i == |w.slots| then w
    else
      var s := w.slots[i];
      if s.part == p && s.modified then
        FlushFrom(World(w.slots[i := s.(modified := false)], WriteBack(w.disk, s, outcomes[i])), p, i + 1, outcomes)
      else
        FlushFrom(w, p, i + 1, outcomes)
  }

  function Flush(w: World, p: Partition, outcomes: seq<Outcome>): World
    requires |outcomes| == |w.slots|
  {
    FlushFrom(w, p, 0, outcomes)
  }

  /** The device has the logical contents of the whole partition. */
  ghost predicate Durable(w: World, p: Partition)
    requires p.sectorsPerBlock > 0 && Sized(w.slots, p.sectorsPerBlock)
  {
    forall t {:trigger Logical(w, p, t)} :: 0 <= t < p.sectors ==> SectorAt(w.disk, p.device, p.lbaStart + t) == Logical(w, p, t)
  }

  predicate ToFlush(s: Slot, p: Partition) {
    s.part == p && s.modified
  }

  /** What the write of a slot leaves in its place on the device. */
  function LeftBy(s: Slot, outcome: Outcome): (data: seq<Sector>)
    ensures |data| == |s.data|
  {
    if outcome.Done? then s.data else Overwritten(s.data, outcome.left)
  }

  /** What the device has in the place of a slot. */
  function PlaceHolds(disk: Disk, s: Slot): (data: seq<Sector>)
    requires s.part != null
    ensures |data| == |s.data|
    ensures forall i {:trigger data[i]} :: 0 <= i < |data| ==> data[i] == SectorAt(disk, s.part.device, DeviceStart(s.part, s.block) + i)
  {
    ReadRange(disk, s.part.device, DeviceStart(s.part, s.block), |s.data|)
  }

  lemma OnDiskIsHeld(s: Slot, disk: Disk)
    requires s.part != null
    ensures OnDisk(s, disk) <==> PlaceHolds(disk, s) == s.data
  {
    var data := PlaceHolds(disk, s);
    if data == s.data {
      assert forall i :: 0 <= i < |s.data| ==> data[i] == s.data[i];
    }
  }

  lemma WriteBackOwn(disk: Disk, s: Slot, outcome: Outcome)
    requires s.part != null
    ensures PlaceHolds(WriteBack(disk, s, outcome), s) == LeftBy(s, outcome)
  {
  }

  lemma WriteBackElsewhere(w: World, i: nat, k: nat, outcome: Outcome, parts: set<Partition>, spb: nat)
    requires Coherent(w, parts, spb) && i < |w.slots| && k < |w.slots| && i != k
    requires w.slots[i].part != null && w.slots[k].part != null
    ensures PlaceHolds(WriteBack(w.disk, w.slots[i], outcome), w.slots[k]) == PlaceHolds(w.disk, w.slots[k])
  {
    var s, c := w.slots[i], w.slots[k];
    assert if i < k then !SameBlock(s, c) else !SameBlock(c, s);
    if c.part.device == s.part.device {
      RangesApart(c.part, c.block, s.part, s.block, parts, spb);
    }
  }

  /** A write-back settles what its own slot's place holds, and changes no other's. */
  lemma WriteBackSettles(w: World, i: nat, outcome: Outcome, parts: set<Partition>, spb: nat)
    requires Coherent(w, parts, spb) && i < |w.slots| && w.slots[i].part != null
    ensures var disk := WriteBack(w.disk, w.slots[i], outcome);
            forall k :: 0 <= k < |w.slots| && w.slots[k].part != null ==>
              PlaceHolds(disk, w.slots[k]) == if k == i then LeftBy(w.slots[i], outcome) else PlaceHolds(w.disk, w.slots[k])
  {
    forall k | 0 <= k < |w.slots| && w.slots[k].part != null
      ensures PlaceHolds(WriteBack(w.disk, w.slots[i], outcome), w.slots[k])
              == if k == i then LeftBy(w.slots[i], outcome) else PlaceHolds(w.disk, w.slots[k])
    {
      if k == i {
        WriteBackOwn(w.disk, w.slots[i], outcome);
      } else {
        WriteBackElsewhere(w, i, k, outcome, parts, spb);
      }
    }
  }

  /** The same slots in both worlds, but that those before `i` may be marked unmodified in the second. */
  predicate MarkedBefore(w: World, x: World, i: nat) {
    && x.disk == w.disk && |x.slots| == |w.slots| >= i
    && (forall k :: 0 <= k < i ==> x.slots[k] == w.slots[k] || x.slots[k] == w.slots[k].(modified := false))
    && (forall k :: i <= k < |w.slots| ==> x.slots[k] == w.slots[k])
  }

  /** From `w` to `u` the slots from `i` on of a partition were written, with the slots still marked as they were. */
  ghost predicate Written(w: World, u: World, p: Partition, i: nat, outcomes: seq<Outcome>, parts: set<Partition>, spb: nat)
    requires |w.slots| == |outcomes|
  {
    && Coherent(w, parts, spb) && Coherent(u, parts, spb) && SameContents(w, u, parts, spb) && u.slots == w.slots
    && forall k :: 0 <= k < |w.slots| && w.slots[k].part != null ==>
         PlaceHolds(u.disk, w.slots[k])
         == if i <= k && ToFlush(w.slots[k], p) then LeftBy(w.slots[k], outcomes[k]) else PlaceHolds(w.disk, w.slots[k])
  }

  lemma WrittenNext(w: World, u: World, p: Partition, i: nat, outcomes: seq<Outcome>, parts: set<Partition>, spb: nat)
    requires Coherent(w, parts, spb) && i < |w.slots| == |outcomes|
    requires ToFlush(w.slots[i], p) ==>
               Written(World(w.slots, WriteBack(w.disk, w.slots[i], outcomes[i])), u, p, i + 1, outcomes, parts, spb)
    requires !ToFlush(w.slots[i], p) ==> Written(w, u, p, i + 1, outcomes, parts, spb)
    ensures Written(w, u, p, i, outcomes, parts, spb)
  {
    if ToFlush(w.slots[i], p) {
      WriteBackHidden(w, i, outcomes[i], parts, spb);
      WriteBackSettles(w, i, outcomes[i], parts, spb);
    }
  }

  /** The rest of a flush, seen with the slots still marked as they were: it writes modified slots only. */
  lemma {:induction false} FlushMarked(w: World, x: World, p: Partition, i: nat, outcomes: seq<Outcome>, parts: set<Partition>, spb: nat)
    requires Coherent(w, parts, spb) && i <= |w.slots| == |outcomes| && p in parts && MarkedBefore(w, x, i)
    ensures Written(w, World(w.slots, FlushFrom(x, p, i, outcomes).disk), p, i, outcomes, parts, spb)
    decreases |w.slots| - i
  {
    if i < |w.slots| {
      var s := w.slots[i];
      if ToFlush(s, p) {
        WriteBackHidden(w, i, outcomes[i], parts, spb);
        var w1 := World(w.slots, WriteBack(w.disk, s, outcomes[i]));
        FlushMarked(w1, World(x.slots[i := s.(modified := false)], w1.disk), p, i + 1, outcomes, parts, spb);
      } else {
        FlushMarked(w, x, p, i + 1, outcomes, parts, spb);
      }
      WrittenNext(w, World(w.slots, FlushFrom(x, p, i, outcomes).disk), p, i, outcomes, parts, spb);
    }
  }

  /** The world after a flush, but with the slots still marked as they were. */
  function Unmarked(w: World, p: Partition, outcomes: seq<Outcome>): World
    requires |outcomes| == |w.slots|
  {
    World(w.slots, Flush(w, p, outcomes).disk)
  }

  /** A flush changes nothing that any user sees, whatever its writes do. */
  lemma FlushHidden(w: World, p: Partition, outcomes: seq<Outcome>, parts: set<Partition>, spb: nat)
    requires Coherent(w, parts, spb) && |outcomes| == |w.slots| && p in parts
    ensures Written(w, Unmarked(w, p, outcomes), p, 0, outcomes, parts, spb)
    ensures SameContents(w, Flush(w, p, outcomes), parts, spb)
  {
    FlushMarked(w, w, p, 0, outcomes, parts, spb);
    var v, u := Flush(w, p, outcomes), Unmarked(w, p, outcomes);
    forall q, t | q in parts && 0 <= t < q.sectors
      ensures Logical(v, q, t) == Logical(u, q, t)
    {
      SameLabels(v.slots, u.slots, q, BlockOf(q, t));
    }
  }

  /** These data are what the slot holds of the partition. */
  predicate VisiblyHeld(s: Slot, data: seq<Sector>)
    requires s.part != null && |data| == |s.data|
  {
    forall o :: 0 <= o < |data| && s.block + o < s.part.sectors ==> data[o] == s.data[o]
  }

  /** Where a sector lies on its device. */
  lemma SectorPlace(p: Partition, t: nat, parts: set<Partition>, spb: nat)
    requires Geometry(parts, spb) && p in parts && t < p.sectors
    ensures BlockOf(p, t) <= t < BlockOf(p, t) + spb && t % spb == t - BlockOf(p, t)
    ensures DeviceStart(p, BlockOf(p, t)) + t % spb == p.lbaStart + t
  {
    SectorInSpan(p, t);
    InBlock(p, t, BlockOf(p, t));
  }

  lemma UncachedSector(u: World, p: Partition, t: nat, parts: set<Partition>, spb: nat)
    requires Geometry(parts, spb) && Sized(u.slots, spb) && p in parts && t < p.sectors && Find(u.slots, p, BlockOf(p, t)) == |u.slots|
    ensures SectorAt(u.disk, p.device, p.lbaStart + t) == Logical(u, p, t)
  {
    SectorPlace(p, t, parts, spb);
  }

  lemma CachedSector(u: World, p: Partition, t: nat, k: nat, parts: set<Partition>, spb: nat)
    requires Geometry(parts, spb) && Sized(u.slots, spb) && p in parts && t < p.sectors
    requires k == Find(u.slots, p, BlockOf(p, t)) < |u.slots|
    ensures var o := t - u.slots[k].block;
            && 0 <= o < spb && Logical(u, p, t) == u.slots[k].data[o]
            && SectorAt(u.disk, p.device, p.lbaStart + t) == PlaceHolds(u.disk, u.slots[k])[o]
  {
    SectorPlace(p, t, parts, spb);
  }

  /** A sector of a cached block is found in its slot. */
  lemma FoundInSlot(u: World, i: nat, p: Partition, o: nat, parts: set<Partition>, spb: nat)
    requires Coherent(u, parts, spb) && i < |u.slots| && u.slots[i].part == p && p in parts && o < |u.slots[i].data|
    ensures Find(u.slots, p, BlockOf(p, u.slots[i].block + o)) == i
  {
    InBlock(p, u.slots[i].block + o, u.slots[i].block);
    UniqueOnly(u.slots, i);
    FindOnly(u.slots, i, p, u.slots[i].block);
  }

  /** The device has the contents of the partition exactly when it does so in the places of all its modified slots. */
  lemma DurableInPlaces(u: World, p: Partition, parts: set<Partition>, spb: nat)
    requires Coherent(u, parts, spb) && p in parts
    ensures Durable(u, p) <==>
            forall i :: 0 <= i < |u.slots| && ToFlush(u.slots[i], p) ==> VisiblyHeld(u.slots[i], PlaceHolds(u.disk, u.slots[i]))
  {
    if Durable(u, p) {
      forall i | 0 <= i < |u.slots| && ToFlush(u.slots[i], p)
        ensures VisiblyHeld(u.slots[i], PlaceHolds(u.disk, u.slots[i]))
      {
        DurableAt(u, p, i, parts, spb);
      }
    }
    if forall i :: 0 <= i < |u.slots| && ToFlush(u.slots[i], p) ==> VisiblyHeld(u.slots[i], PlaceHolds(u.disk, u.slots[i])) {
      forall t {:trigger Logical(u, p, t)} | 0 <= t < p.sectors
        ensures SectorAt(u.disk, p.device, p.lbaStart + t) == Logical(u, p, t)
      {
        HeldSector(u, p, t, parts, spb);
      }
    }
  }

  lemma DurableAt(u: World, p: Partition, i: nat, parts: set<Partition>, spb: nat)
    requires Coherent(u, parts, spb) && p in parts && i < |u.slots| && u.slots[i].part == p && Durable(u, p)
    ensures VisiblyHeld(u.slots[i], PlaceHolds(u.disk, u.slots[i]))
  {
    var data := PlaceHolds(u.disk, u.slots[i]);
    forall o | 0 <= o < |data| && u.slots[i].block + o < p.sectors
      ensures data[o] == u.slots[i].data[o]
    {
      FoundInSlot(u, i, p, o, parts, spb);
      CachedSector(u, p, u.slots[i].block + o, i, parts, spb);
    }
  }

  lemma HeldSector(u: World, p: Partition, t: nat, parts: set<Partition>, spb: nat)
    requires Coherent(u, parts, spb) && p in parts && t < p.sectors
    requires forall i :: 0 <= i < |u.slots| && ToFlush(u.slots[i], p) ==> VisiblyHeld(u.slots[i], PlaceHolds(u.disk, u.slots[i]))
    ensures SectorAt(u.disk, p.device, p.lbaStart + t) == Logical(u, p, t)
  {
    var k := Find(u.slots, p, BlockOf(p, t));
    if k == |u.slots| {
      UncachedSector(u, p, t, parts, spb);
    } else {
      CachedSector(u, p, t, k, parts, spb);
      if !u.slots[k].modified {
        OnDiskIsHeld(u.slots[k], u.disk);
      }
    }
  }

  /** Whatever its writes do, a flush changes nothing that any user sees; and the device has the contents of the partition
      exactly when each write left there what its slot holds of the partition. */
  lemma FlushExact(w: World, p: Partition, outcomes: seq<Outcome>, parts: set<Partition>, spb: nat)
    requires Coherent(w, parts, spb) && |outcomes| == |w.slots| && p in parts
    ensures var v := Flush(w, p, outcomes);
            && SameContents(w, v, parts, spb)
            && (Durable(v, p) <==>
                forall i :: 0 <= i < |w.slots| && ToFlush(w.slots[i], p) ==> VisiblyHeld(w.slots[i], LeftBy(w.slots[i], outcomes[i])))
  {
    FlushHidden(w, p, outcomes, parts, spb);
    var v, u := Flush(w, p, outcomes), Unmarked(w, p, outcomes);
    assert forall t {:trigger Logical(v, p, t)} {:trigger Logical(u, p, t)} :: 0 <= t < p.sectors ==> Logical(v, p, t) == Logical(u, p, t);
    DurableInPlaces(u, p, parts, spb);
  }

  /** The invariant itself survives exactly when each write left on the device the whole of what its slot holds. */
  lemma FlushCoherent(w: World, p: Partition, outcomes: seq<Outcome>, parts: set<Partition>, spb: nat)
    requires Coherent(w, parts, spb) && |outcomes| == |w.slots| && p in parts
    ensures Coherent(Flush(w, p, outcomes), parts, spb) <==>
            forall i :: 0 <= i < |w.slots| && ToFlush(w.slots[i], p) ==> LeftBy(w.slots[i], outcomes[i]) == w.slots[i].data
  {
    FlushHidden(w, p, outcomes, parts, spb);
    var u := Unmarked(w, p, outcomes);
    forall i | 0 <= i < |w.slots| && ToFlush(w.slots[i], p)
      ensures OnDisk(w.slots[i], u.disk) <==> LeftBy(w.slots[i], outcomes[i]) == w.slots[i].data
    {
      OnDiskIsHeld(w.slots[i], u.disk);
    }
    MarkedCoherent(u, Flush(w, p, outcomes), p, parts, spb);
  }

  lemma MarkedCoherent(u: World, v: World, p: Partition, parts: set<Partition>, spb: nat)
    requires Coherent(u, parts, spb) && v.disk == u.disk && |v.slots| == |u.slots|
    requires forall k :: 0 <= k < |u.slots| ==> v.slots[k] == if u.slots[k].part == p then u.slots[k].(modified := false) else u.slots[k]
    ensures Coherent(v, parts, spb) <==> forall i :: 0 <= i < |u.slots| && ToFlush(u.slots[i], p) ==> OnDisk(u.slots[i], u.disk)
  {
    if Coherent(v, parts, spb) {
      forall i | 0 <= i < |u.slots| && ToFlush(u.slots[i], p)
        ensures OnDisk(u.slots[i], u.disk)
      {
        assert OnDisk(v.slots[i], v.disk);
      }
    }
    if forall i :: 0 <= i < |u.slots| && ToFlush(u.slots[i], p) ==> OnDisk(u.slots[i], u.disk) {
      OnDiskCoherent(u, v, p, parts, spb);
    }
  }

  lemma OnDiskCoherent(u: World, v: World, p: Partition, parts: set<Partition>, spb: nat)
    requires Coherent(u, parts, spb) && v.disk == u.disk && |v.slots| == |u.slots|
    requires forall k :: 0 <= k < |u.slots| ==> v.slots[k] == if u.slots[k].part == p then u.slots[k].(modified := false) else u.slots[k]
    requires forall i :: 0 <= i < |u.slots| && ToFlush(u.slots[i], p) ==> OnDisk(u.slots[i], u.disk)
    ensures Coherent(v, parts, spb)
  {
    forall i, j | 0 <= i < j < |v.slots|
      ensures !SameBlock(v.slots[i], v.slots[j])
    {
      assert !SameBlock(u.slots[i], u.slots[j]);
    }
    forall i | 0 <= i < |v.slots| && v.slots[i].part != null && !v.slots[i].modified
      ensures OnDisk(v.slots[i], v.disk)
    {
      assert OnDisk(u.slots[i], u.disk);
    }
  }

  /** A flush whose writes succeed makes the partition durable and changes nothing the users can see. */
  lemma FlushRefines(w: World, p: Partition, outcomes: seq<Outcome>, parts: set<Partition>, spb: nat)
    requires Coherent(w, parts, spb) && |outcomes| == |w.slots| && p in parts
    requires forall o :: o in outcomes ==> o.Done?
    ensures var v := Flush(w, p, outcomes);
            && Coherent(v, parts, spb) && Durable(v, p)
            && SameContents(w, v, parts, spb)
  {
    assert forall i :: 0 <= i < |outcomes| ==> outcomes[i] in outcomes;
    FlushExact(w, p, outcomes, parts, spb);
    FlushCoherent(w, p, outcomes, parts, spb);
  }

  // ---------- multi-sector calls ----------

  /** How the devices behave in one call of `accessSector`. */
  datatype Fault = Fault(writeBack: Outcome, fetch: Outcome)

  /** The values of a transfer that only reads, and of one that writes a buffer. */
  function Reads(count: nat): seq<Option<Sector>> {
    seq(count, _ => None)
  }

  function Writes(buffer: seq<Sector>): seq<Option<Sector>> {
    seq(|buffer|, i requires 0 <= i < |buffer| => Some(buffer[i]))
  }

  /** The guard of `readSectors` and `writeSectors`, in 32-bit arithmetic. */
  predicate InBounds(p: Partition, start: nat, count: nat) {
    (start + count) % UNINT4_RANGE < p.sectors
  }

  /** The guard keeps a request inside the partition exactly when `start + count` does not wrap around. */
  lemma InBoundsExact(p: Partition, start: nat, count: nat)
    requires start < UNINT4_RANGE && count < UNINT4_RANGE && p.sectors < UNINT4_RANGE && InBounds(p, start, count)
    ensures (forall i :: 0 <= i < count ==> SectorNumber(start, i) < p.sectors) <==> start + count < UNINT4_RANGE
  {
    if start + count >= UNINT4_RANGE {
      assert SectorNumber(start, UNINT4_RANGE - 1 - start) == UNINT4_RANGE - 1;
    }
  }

  /** With these bounds the guard passes although the first sector asked for is far outside. */
  lemma WrapWitness(p: Partition)
    requires p.sectors == 8
    ensures InBounds(p, 0xffff_ffff, 2) && SectorNumber(0xffff_ffff, 0) == 0xffff_ffff
  {
  }

  function SectorNumber(start: nat, i: nat): nat {
    (start + i) % UNINT4_RANGE
  }

  /** The loop of `readSectors` (no values) and `writeSectors` from sector `i` on, up to the first error. */
  function TransferFrom(w: World, p: Partition, start: nat, values: seq<Option<Sector>>, faults: seq<Fault>, i: nat)
    : (World, int, seq<Option<Sector>>)
    requires p.sectorsPerBlock > 0 && Sized(w.slots, p.sectorsPerBlock) && |w.slots| > 0 && i <= |values| == |faults|
    decreases |values| - i
  {
    if i == |values| then (w, OK, [])
    else
      var (v, a) := Access(w, Request(p, SectorNumber(start, i), values[i], faults[i].writeBack, faults[i].fetch));
      if a.Error? then (v, a.error, [])
      else
        AccessSized(w, Request(p, SectorNumber(start, i), values[i], faults[i].writeBack, faults[i].fetch));
        var (u, code, rest) := TransferFrom(v, p, start, values, faults, i + 1);
        (u, code, [a.value] + rest)
  }

  lemma AccessSized(w: World, r: Request)
    requires |w.slots| > 0 && r.part.sectorsPerBlock > 0 && Sized(w.slots, r.part.sectorsPerBlock)
    ensures |Access(w, r).0.slots| == |w.slots| && Sized(Access(w, r).0.slots, r.part.sectorsPerBlock)
  {
  }

  function Transfer(w: World, p: Partition, start: nat, values: seq<Option<Sector>>, faults: seq<Fault>)
    : (World, int, seq<Option<Sector>>)
    requires p.sectorsPerBlock > 0 && Sized(w.slots, p.sectorsPerBlock) && |w.slots| > 0 && |values| == |faults|
  {
    if InBounds(p, start, |values|) then TransferFrom(w, p, start, values, faults, 0) else (w, ERROR, [])
  }

  predicate NoFault(faults: seq<Fault>) {
    forall j :: 0 <= j < |faults| ==> faults[j].writeBack.Done? && faults[j].fetch.Done?
  }

  /** A transfer whose device calls all succeed serves all its sectors. */
  lemma {:induction false} TransferSucceeds(w: World, p: Partition, start: nat, values: seq<Option<Sector>>, faults: seq<Fault>, i: nat)
    requires p.sectorsPerBlock > 0 && Sized(w.slots, p.sectorsPerBlock) && |w.slots| > 0 && i <= |values| == |faults|
    requires NoFault(faults)
    ensures TransferFrom(w, p, start, values, faults, i).1 == OK
    decreases |values| - i
  {
    if i < |values| {
      var r := Request(p, SectorNumber(start, i), values[i], faults[i].writeBack, faults[i].fetch);
      AccessSized(w, r);
      TransferSucceeds(Access(w, r).0, p, start, values, faults, i + 1);
    }
  }

  lemma BoundsAtEnd(p: Partition, start: nat, count: nat)
    requires start + count <= p.sectors < UNINT4_RANGE
    ensures InBounds(p, start, count) <==> start + count != p.sectors
  {
  }

  /** Of the requests that lie in the partition, exactly those that reach its end are refused, and do nothing; the others
      are served, and succeed if the devices do. */
  lemma LastSectorRefused(w: World, p: Partition, start: nat, values: seq<Option<Sector>>, faults: seq<Fault>)
    requires p.sectorsPerBlock > 0 && Sized(w.slots, p.sectorsPerBlock) && |w.slots| > 0 && |values| == |faults|
    requires start + |values| <= p.sectors < UNINT4_RANGE
    ensures InBounds(p, start, |values|) <==> start + |values| != p.sectors
    ensures Transfer(w, p, start, values, faults) ==
            if start + |values| == p.sectors then (w, ERROR, []) else TransferFrom(w, p, start, values, faults, 0)
    ensures NoFault(faults) ==> (Transfer(w, p, start, values, faults).1 == OK <==> start + |values| != p.sectors)
  {
    BoundsAtEnd(p, start, |values|);
    if NoFault(faults) {
      TransferSucceeds(w, p, start, values, faults, 0);
    }
  }

  /** A request whose bounds do not wrap around is refused, with the error code and no effect, exactly if it reaches the
      partition's last sector or goes behind it. */
  lemma RefusedExactly(w: World, p: Partition, start: nat, values: seq<Option<Sector>>, faults: seq<Fault>)
    requires p.sectorsPerBlock > 0 && Sized(w.slots, p.sectorsPerBlock) && |w.slots| > 0 && |values| == |faults|
    requires start + |values| < UNINT4_RANGE
    ensures start + |values| >= p.sectors ==> Transfer(w, p, start, values, faults) == (w, ERROR, [])
    ensures start + |values| < p.sectors ==> Transfer(w, p, start, values, faults) == TransferFrom(w, p, start, values, faults, 0)
    ensures NoFault(faults) ==> (Transfer(w, p, start, values, faults) == (w, ERROR, []) <==> start + |values| >= p.sectors)
  {
    if NoFault(faults) {
      TransferSucceeds(w, p, start, values, faults, 0);
    }
  }

  /** From `w` to `v` the values for sectors `lo` to `hi` of the transfer were stored, and nothing else changed. */
  ghost predicate Stored(w: World, v: World, p: Partition, start: nat, values: seq<Option<Sector>>, lo: nat, hi: nat,
      parts: set<Partition>, spb: nat)
    requires Geometry(parts, spb) && Sized(w.slots, spb) && Sized(v.slots, spb) && lo <= hi <= |values|
  {
    forall q, t {:trigger Logical(v, q, t)} {:trigger Logical(w, q, t)} :: q in parts && 0 <= t < q.sectors ==>
      Logical(v, q, t) == if q == p && start + lo <= t < start + hi && values[t - start].Some?
                          then values[t - start].value else Logical(w, q, t)
  }

  /** The answers report what the sectors read held. */
  ghost predicate Reported(w: World, p: Partition, start: nat, values: seq<Option<Sector>>, lo: nat, outs: seq<Option<Sector>>,
      spb: nat)
    requires p.sectorsPerBlock == spb > 0 && Sized(w.slots, spb) && lo + |outs| <= |values|
  {
    forall j {:trigger outs[j]} :: 0 <= j < |outs| ==>
      outs[j] == if values[lo + j].None? then Some(Logical(w, p, start + lo + j)) else None
  }

  lemma StoredMore(w: World, v: World, u: World, p: Partition, start: nat, values: seq<Option<Sector>>, lo: nat, hi: nat,
      parts: set<Partition>, spb: nat)
    requires Geometry(parts, spb) && Sized(w.slots, spb) && Sized(v.slots, spb) && Sized(u.slots, spb)
    requires p in parts && lo < hi <= |values| && start + |values| <= p.sectors
    requires Updated(w, v, p, start + lo, values[lo], parts, spb) && Stored(v, u, p, start, values, lo + 1, hi, parts, spb)
    ensures Stored(w, u, p, start, values, lo, hi, parts, spb)
  {
  }

  /** Storing a sector in front of them does not change what was reported. */
  lemma ReportedSame(w: World, v: World, p: Partition, start: nat, values: seq<Option<Sector>>, lo: nat, rest: seq<Option<Sector>>,
      parts: set<Partition>, spb: nat)
    requires Geometry(parts, spb) && Sized(w.slots, spb) && Sized(v.slots, spb)
    requires p in parts && lo + 1 + |rest| <= |values| && start + |values| <= p.sectors
    requires Updated(w, v, p, start + lo, values[lo], parts, spb) && Reported(v, p, start, values, lo + 1, rest, spb)
    ensures Reported(w, p, start, values, lo + 1, rest, spb)
  {
  }

  lemma ReportedMore(w: World, p: Partition, start: nat, values: seq<Option<Sector>>, lo: nat, a: Option<Sector>,
      rest: seq<Option<Sector>>, spb: nat)
    requires p.sectorsPerBlock == spb > 0 && Sized(w.slots, spb) && lo + 1 + |rest| <= |values|
    requires a == if values[lo].None? then Some(Logical(w, p, start + lo)) else None
    requires Reported(w, p, start, values, lo + 1, rest, spb)
    ensures Reported(w, p, start, values, lo, [a] + rest, spb)
  {
  }

  /** What a transfer inside a partition needs, to go on with its `i`-th sector. */
  ghost predicate InTransfer(w: World, p: Partition, start: nat, values: seq<Option<Sector>>, faults: seq<Fault>, i: nat,
      parts: set<Partition>, spb: nat)
  {
    && Coherent(w, parts, spb) && p in parts && i <= |values| == |faults|
    && start + |values| < UNINT4_RANGE && start + |values| <= p.sectors
    && forall j :: 0 <= j < |faults| ==> faults[j].fetch.Done?
  }

  /** From `w` to the first world of a result, a transfer served its sectors from `i` on: all of them, or those before an
      error. */
  ghost predicate Serves(w: World, p: Partition, start: nat, values: seq<Option<Sector>>, i: nat,
      result: (World, int, seq<Option<Sector>>), parts: set<Partition>, spb: nat)
  {
    var (v, code, outs) := result;
    && Coherent(w, parts, spb) && Coherent(v, parts, spb) && p in parts
    && i + |outs| <= |values| && (code == OK <==> i + |outs| == |values|)
    && Reported(w, p, start, values, i, outs, spb)
    && Stored(w, v, p, start, values, i, i + |outs|, parts, spb)
  }

  /** One access on the flat store. */
  ghost predicate OneServed(w: World, v: World, p: Partition, t: nat, value: Option<Sector>, a: Answer, parts: set<Partition>, spb: nat)
  {
    && Coherent(w, parts, spb) && Coherent(v, parts, spb) && p in parts
    && (a.Ok? ==> Updated(w, v, p, t, value, parts, spb) && a.value == if value.None? then Some(Logical(w, p, t)) else None)
    && (a.Error? ==> SameContents(w, v, parts, spb))
  }

  function OneMore(a: Option<Sector>, rest: (World, int, seq<Option<Sector>>)): (World, int, seq<Option<Sector>>) {
    (rest.0, rest.1, [a] + rest.2)
  }

  lemma ServesNone(w: World, p: Partition, start: nat, values: seq<Option<Sector>>, i: nat, v: World, code: int,
      parts: set<Partition>, spb: nat)
    requires Coherent(w, parts, spb) && Coherent(v, parts, spb) && p in parts && i <= |values| && (code == OK <==> i == |values|)
    requires SameContents(w, v, parts, spb)
    ensures Serves(w, p, start, values, i, (v, code, []), parts, spb)
  {
  }

  lemma ServesMore(w: World, v: World, p: Partition, start: nat, values: seq<Option<Sector>>, i: nat, a: Answer,
      rest: (World, int, seq<Option<Sector>>), parts: set<Partition>, spb: nat)
    requires i < |values| && start + |values| <= p.sectors && a.Ok?
    requires OneServed(w, v, p, start + i, values[i], a, parts, spb) && Serves(v, p, start, values, i + 1, rest, parts, spb)
    ensures Serves(w, p, start, values, i, OneMore(a.value, rest), parts, spb)
  {
    StoredMore(w, v, rest.0, p, start, values, i, i + 1 + |rest.2|, parts, spb);
    ReportedSame(w, v, p, start, values, i, rest.2, parts, spb);
    ReportedMore(w, p, start, values, i, a.value, rest.2, spb);
  }

  lemma ServesStep(w: World, v: World, p: Partition, start: nat, values: seq<Option<Sector>>, faults: seq<Fault>, i: nat, a: Answer,
      rest: (World, int, seq<Option<Sector>>), result: (World, int, seq<Option<Sector>>), parts: set<Partition>, spb: nat)
    requires InTransfer(w, p, start, values, faults, i, parts, spb) && i < |values|
    requires OneServed(w, v, p, start + i, values[i], a, parts, spb)
    requires a.Ok? ==> Serves(v, p, start, values, i + 1, rest, parts, spb)
    requires result == if a.Error? then (v, a.error, []) else OneMore(a.value, rest)
    ensures Serves(w, p, start, values, i, result, parts, spb)
  {
    if a.Ok? {
      ServesMore(w, v, p, start, values, i, a, rest, parts, spb);
    } else {
      ServesNone(w, p, start, values, i, v, a.error, parts, spb);
    }
  }

  lemma AccessServes(w: World, p: Partition, t: nat, value: Option<Sector>, fault: Fault, parts: set<Partition>, spb: nat)
    returns (v: World, a: Answer)
    requires Coherent(w, parts, spb) && p in parts && t < p.sectors && fault.fetch.Done?
    ensures Access(w, Request(p, t, value, fault.writeBack, fault.fetch)) == (v, a)
    ensures OneServed(w, v, p, t, value, a, parts, spb)
  {
    AccessRefines(w, Request(p, t, value, fault.writeBack, fault.fetch), parts, spb);
    var (u, b) := Access(w, Request(p, t, value, fault.writeBack, fault.fetch));
    v, a := u, b;
  }

  /** The first access of a transfer, and the rest of it. */
  lemma TransferUnfolds(w: World, p: Partition, start: nat, values: seq<Option<Sector>>, faults: seq<Fault>, i: nat, t: nat,
      v: World, a: Answer)
    requires p.sectorsPerBlock > 0 && Sized(w.slots, p.sectorsPerBlock) && |w.slots| > 0 && i < |values| == |faults|
    requires t == SectorNumber(start, i) && Access(w, Request(p, t, values[i], faults[i].writeBack, faults[i].fetch)) == (v, a)
    ensures |v.slots| == |w.slots| && Sized(v.slots, p.sectorsPerBlock)
    ensures TransferFrom(w, p, start, values, faults, i)
            == if a.Error? then (v, a.error, []) else OneMore(a.value, TransferFrom(v, p, start, values, faults, i + 1))
  {
    AccessSized(w, Request(p, t, values[i], faults[i].writeBack, faults[i].fetch));
  }

  /** The first access of a transfer: the world and the answer that it leads to, the rest of the transfer, and the whole. */
  lemma TransferOne(w: World, p: Partition, start: nat, values: seq<Option<Sector>>, faults: seq<Fault>, i: nat,
      parts: set<Partition>, spb: nat)
    returns (v: World, a: Answer, rest: (World, int, seq<Option<Sector>>), whole: (World, int, seq<Option<Sector>>))
    requires InTransfer(w, p, start, values, faults, i, parts, spb) && i < |values|
    ensures InTransfer(v, p, start, values, faults, i + 1, parts, spb)
    ensures OneServed(w, v, p, start + i, values[i], a, parts, spb)
    ensures rest == TransferFrom(v, p, start, values, faults, i + 1) && whole == TransferFrom(w, p, start, values, faults, i)
    ensures whole == if a.Error? then (v, a.error, []) else OneMore(a.value, rest)
  {
    v, a := AccessServes(w, p, start + i, values[i], faults[i], parts, spb);
    TransferUnfolds(w, p, start, values, faults, i, start + i, v, a);
    rest := TransferFrom(v, p, start, values, faults, i + 1);
    whole := TransferFrom(w, p, start, values, faults, i);
  }

  lemma TransferEnds(w: World, p: Partition, start: nat, values: seq<Option<Sector>>, faults: seq<Fault>, parts: set<Partition>, spb: nat)
    requires InTransfer(w, p, start, values, faults, |values|, parts, spb)
    ensures Serves(w, p, start, values, |values|, TransferFrom(w, p, start, values, faults, |values|), parts, spb)
  {
    ServesNone(w, p, start, values, |values|, w, OK, parts, spb);
  }

  lemma TransferStep(w: World, p: Partition, start: nat, values: seq<Option<Sector>>, faults: seq<Fault>, i: nat,
      parts: set<Partition>, spb: nat) returns (v: World)
    requires InTransfer(w, p, start, values, faults, i, parts, spb) && i < |values|
    ensures InTransfer(v, p, start, values, faults, i + 1, parts, spb)
    ensures Serves(v, p, start, values, i + 1, TransferFrom(v, p, start, values, faults, i + 1), parts, spb) ==>
              Serves(w, p, start, values, i, TransferFrom(w, p, start, values, faults, i), parts, spb)
  {
    var u, a, rest, whole := TransferOne(w, p, start, values, faults, i, parts, spb);
    v := u;
    if Serves(v, p, start, values, i + 1, rest, parts, spb) {
      ServesStep(w, v, p, start, values, faults, i, a, rest, whole, parts, spb);
    }
  }

  lemma {:induction false} TransferServes(w: World, p: Partition, start: nat, values: seq<Option<Sector>>, faults: seq<Fault>,
      i: nat, parts: set<Partition>, spb: nat)
    requires InTransfer(w, p, start, values, faults, i, parts, spb)
    ensures Serves(w, p, start, values, i, TransferFrom(w, p, start, values, faults, i), parts, spb)
    decreases |values| - i
  {
    if i == |values| {
      TransferEnds(w, p, start, values, faults, parts, spb);
    } else {
      var v := TransferStep(w, p, start, values, faults, i, parts, spb);
      TransferServes(v, p, start, values, faults, i + 1, parts, spb);
    }
  }

  /** A transfer that ends with an error does so because the write-back for the next sector failed with it. */
  predicate StoppedBy(code: int, next: nat, faults: seq<Fault>) {
    code != OK ==> next < |faults| && faults[next].writeBack.Failed? && faults[next].writeBack.error == code
  }

  lemma AccessStops(w: World, p: Partition, t: nat, value: Option<Sector>, fault: Fault) returns (v: World, a: Answer)
    requires p.sectorsPerBlock > 0 && Sized(w.slots, p.sectorsPerBlock) && |w.slots| > 0 && fault.fetch.Done?
    ensures Access(w, Request(p, t, value, fault.writeBack, fault.fetch)) == (v, a)
    ensures a.Error? ==> fault.writeBack.Failed? && fault.writeBack.error == a.error
  {
    var (u, b) := Access(w, Request(p, t, value, fault.writeBack, fault.fetch));
    v, a := u, b;
  }

  lemma TransferBegins(w: World, p: Partition, start: nat, values: seq<Option<Sector>>, faults: seq<Fault>, i: nat)
    returns (v: World, a: Answer)
    requires p.sectorsPerBlock > 0 && Sized(w.slots, p.sectorsPerBlock) && |w.slots| > 0 && i < |values| == |faults|
    requires faults[i].fetch.Done?
    ensures |v.slots| == |w.slots| && Sized(v.slots, p.sectorsPerBlock)
    ensures TransferFrom(w, p, start, values, faults, i)
            == if a.Error? then (v, a.error, []) else OneMore(a.value, TransferFrom(v, p, start, values, faults, i + 1))
    ensures a.Error? ==> StoppedBy(a.error, i, faults)
  {
    v, a := AccessStops(w, p, SectorNumber(start, i), values[i], faults[i]);
    TransferUnfolds(w, p, start, values, faults, i, SectorNumber(start, i), v, a);
  }

  predicate Stops(result: (World, int, seq<Option<Sector>>), i: nat, faults: seq<Fault>) {
    StoppedBy(result.1, i + |result.2|, faults)
  }

  lemma StopsStep(v: World, a: Answer, rest: (World, int, seq<Option<Sector>>), i: nat, faults: seq<Fault>)
    requires if a.Error? then StoppedBy(a.error, i, faults) else Stops(rest, i + 1, faults)
    ensures Stops(if a.Error? then (v, a.error, []) else OneMore(a.value, rest), i, faults)
  {
  }

  lemma {:induction false} TransferStops(w: World, p: Partition, start: nat, values: seq<Option<Sector>>, faults: seq<Fault>, i: nat)
    requires p.sectorsPerBlock > 0 && Sized(w.slots, p.sectorsPerBlock) && |w.slots| > 0 && i <= |values| == |faults|
    requires forall j :: 0 <= j < |faults| ==> faults[j].fetch.Done?
    ensures Stops(TransferFrom(w, p, start, values, faults, i), i, faults)
    decreases |values| - i
  {
    if i < |values| {
      var v, a := TransferBegins(w, p, start, values, faults, i);
      var rest := TransferFrom(v, p, start, values, faults, i + 1);
      TransferStops(v, p, start, values, faults, i + 1);
      StopsStep(v, a, rest, i, faults);
    }
  }

  /** A transfer inside the partition serves its sectors from `i` on: all of them, or up to a failed write-back.
      It returns what they held, stores what was to be written, and changes no other sector. */
  lemma TransferRefines(w: World, p: Partition, start: nat, values: seq<Option<Sector>>, faults: seq<Fault>, i: nat,
      parts: set<Partition>, spb: nat)
    requires Coherent(w, parts, spb) && p in parts && i <= |values| == |faults|
    requires start + |values| < UNINT4_RANGE && start + |values| <= p.sectors
    requires forall j :: 0 <= j < |faults| ==> faults[j].fetch.Done?
    ensures var result := TransferFrom(w, p, start, values, faults, i);
            Serves(w, p, start, values, i, result, parts, spb) && Stops(result, i, faults)
  {
    TransferServes(w, p, start, values, faults, i, parts, spb);
    TransferStops(w, p, start, values, faults, i);
  }

  // ---------- runs ----------

  datatype Step = Do(request: Request) | FlushOf(part: Partition, outcomes: seq<Outcome>)

  predicate StepsSized(steps: seq<Step>, spb: nat) {
    forall i :: 0 <= i < |steps| ==>
      match steps[i]
      case Do(r) => r.part.sectorsPerBlock == spb
      case FlushOf(_, outcomes) => |outcomes| == CACHED_BLOCKS
  }

  /** One step of a run and its answer. */
  function Perform(w: World, s: Step): (World, Answer)
    requires |w.slots| == CACHED_BLOCKS && StepSized(w, s)
  {
    match s
    case Do(r) => Access(w, r)
    case FlushOf(p, outcomes) => (Flush(w, p, outcomes), Ok(None))
  }

  predicate StepSized(w: World, s: Step) {
    match s
    case Do(r) => r.part.sectorsPerBlock > 0 && Sized(w.slots, r.part.sectorsPerBlock)
    case FlushOf(_, outcomes) => |outcomes| == CACHED_BLOCKS
  }

  lemma PerformSized(w: World, s: Step, spb: nat)
    requires |w.slots| == CACHED_BLOCKS && spb > 0 && Sized(w.slots, spb) && StepsSized([s], spb)
    ensures StepSized(w, s) && |Perform(w, s).0.slots| == CACHED_BLOCKS && Sized(Perform(w, s).0.slots, spb)
  {
    assert [s][0] == s;
    if s.Do? {
      AccessSized(w, s.request);
    }
  }

  /** The world after a run, and the answers of its steps. */
  function Exec(w: World, steps: seq<Step>, spb: nat): (r: (World, seq<Answer>))
    requires |w.slots| == CACHED_BLOCKS && spb > 0 && Sized(w.slots, spb) && StepsSized(steps, spb)
    ensures |r.0.slots| == CACHED_BLOCKS && Sized(r.0.slots, spb) && |r.1| == |steps|
  {
    if steps == [] then (w, [])
    else
      var n := |steps| - 1;
      var (v, answers) := Exec(w, steps[..n], spb);
      assert StepsSized([steps[n]], spb);
      PerformSized(v, steps[n], spb);
      var (u, a) := Perform(v, steps[n]);
      (u, answers + [a])
  }

  /** The value last written to the sector by a step that succeeded, or else the value it started with. */
  function LastWritten(steps: seq<Step>, answers: seq<Answer>, p: Partition, t: nat, start: Sector): Sector
    requires |steps| == |answers|
  {
    if steps == [] then start
    else
      var n := |steps| - 1;
      if WritesTo(steps[n], answers[n], p, t) then steps[n].request.value.value
      else LastWritten(steps[..n], answers[..n], p, t, start)
  }

  predicate WritesTo(s: Step, a: Answer, p: Partition, t: nat) {
    s.Do? && a.Ok? && s.request.value.Some? && s.request.part == p && s.request.sector == t
  }

  /** A run inside the partitions whose device reads and flush writes succeed; evictions may fail. */
  ghost predicate LegalSteps(steps: seq<Step>, parts: set<Partition>) {
    forall i :: 0 <= i < |steps| ==> LegalStep(steps[i], parts)
  }

  ghost predicate LegalStep(s: Step, parts: set<Partition>) {
    match s
    case Do(r) => RequestOk(r, parts) && r.fetch.Done?
    case FlushOf(p, outcomes) => p in parts && |outcomes| == CACHED_BLOCKS && forall o :: o in outcomes ==> o.Done?
  }

  /** If step `i` is a read that succeeds, it returns the value last written to its sector before. */
  predicate ReadsLastWritten(w: World, steps: seq<Step>, answers: seq<Answer>, i: nat, spb: nat)
    requires spb > 0 && Sized(w.slots, spb) && StepsSized(steps, spb) && i < |steps| == |answers|
  {
    steps[i].Do? && steps[i].request.value.None? && answers[i].Ok? ==>
      var r := steps[i].request;
      answers[i].value == Some(LastWritten(steps[..i], answers[..i], r.part, r.sector, Logical(w, r.part, r.sector)))
  }

  lemma ReadBefore(w: World, steps: seq<Step>, answers: seq<Answer>, i: nat, spb: nat)
    requires spb > 0 && Sized(w.slots, spb) && StepsSized(steps, spb) && i < |steps| - 1 == |answers| - 1
    requires ReadsLastWritten(w, steps[..|steps| - 1], answers[..|steps| - 1], i, spb)
    ensures ReadsLastWritten(w, steps, answers, i, spb)
  {
    var n := |steps| - 1;
    assert steps[..n][..i] == steps[..i] && answers[..n][..i] == answers[..i];
  }

  /** Over every run the cache refines the flat store: each sector holds the value last written to it, and every
      read that succeeds returns that value. */
  lemma {:induction false} RunRefines(w: World, steps: seq<Step>, parts: set<Partition>, spb: nat)
    requires Coherent(w, parts, spb) && StepsSized(steps, spb) && LegalSteps(steps, parts)
    ensures var (v, answers) := Exec(w, steps, spb);
            && Coherent(v, parts, spb)
            && (forall q, t {:trigger Logical(v, q, t)} :: q in parts && 0 <= t < q.sectors ==>
                 Logical(v, q, t) == LastWritten(steps, answers, q, t, Logical(w, q, t)))
            && (forall i :: 0 <= i < |steps| ==> ReadsLastWritten(w, steps, answers, i, spb))
  {
    if steps != [] {
      var n := |steps| - 1;
      var (v, before) := Exec(w, steps[..n], spb);
      assert LegalStep(steps[n], parts);
      RunRefines(w, steps[..n], parts, spb);
      var (u, a) := Perform(v, steps[n]);
      PerformRefines(v, steps[n], parts, spb);
      var answers := before + [a];
      assert answers[..n] == before;
      forall i | 0 <= i < n
        ensures ReadsLastWritten(w, steps, answers, i, spb)
      {
        ReadBefore(w, steps, answers, i, spb);
      }
    }
  }

  /** One step of a run on the flat store. */
  lemma PerformRefines(w: World, s: Step, parts: set<Partition>, spb: nat)
    requires Coherent(w, parts, spb) && LegalStep(s, parts)
    ensures var (v, a) := Perform(w, s);
            && Coherent(v, parts, spb)
            && (forall q, t {:trigger Logical(v, q, t)} :: q in parts && 0 <= t < q.sectors ==>
                 Logical(v, q, t) == if WritesTo(s, a, q, t) then s.request.value.value else Logical(w, q, t))
            && (s.Do? && s.request.value.None? && a.Ok? ==> a.value == Some(Logical(w, s.request.part, s.request.sector)))
  {
    match s
    case Do(r) => AccessRefines(w, r, parts, spb);
    case FlushOf(p, outcomes) => FlushRefines(w, p, outcomes, parts, spb);
  }

  /** A user reads a wrong sector: the device has 7 there, its first read fails, and the second access to the sector
      succeeds with the empty buffer of an unused slot. */
  lemma WrongSectorRead(p: Partition)
    requires p.device == 0 && p.lbaStart == 0 && p.sectors == 2 && p.sectorsPerBlock == 1
    ensures var w := EmptyCache(1, map[(0, 0) := [7]]);
            var failed, read := Request(p, 0, None, Done, Failed(ERROR, [])), Request(p, 0, None, Done, Done);
            && Coherent(w, {p}, 1) && Logical(w, p, 0) == [7]
            && var (v, a) := Access(w, failed);
               |v.slots| > 0 && Sized(v.slots, 1) && a == Error(ERROR) && Access(v, read).1 == Ok(Some([]))
  {
    var w := EmptyCache(1, map[(0, 0) := [7]]);
    SectorInSpan(p, 1);
    EmptyCoherent(1, map[(0, 0) := [7]], {p});
    assert BlockOf(p, 0) == 0 && BlockOf(p, 1) == 1;
    var failed := Request(p, 0, None, Done, Failed(ERROR, []));
    assert Find(w.slots, p, 0) == |w.slots|;
    FailedFetchIsForgotten(w, failed, 1);
    AccessSized(w, failed);
  }

  /** The failing write of slot 0 leaves on the device what it left, and no slot is marked any more. */
  lemma FlushLeaves(w: World, p: Partition, outcomes: seq<Outcome>, parts: set<Partition>, spb: nat)
    requires Coherent(w, parts, spb) && p in parts && |outcomes| == |w.slots| && ToFlush(w.slots[0], p) && |w.slots[0].data| > 0
    ensures var v := Flush(w, p, outcomes);
            && SameContents(w, v, parts, spb)
            && SectorAt(v.disk, p.device, DeviceStart(p, w.slots[0].block)) == LeftBy(w.slots[0], outcomes[0])[0]
            && forall i :: 0 <= i < |v.slots| ==> !ToFlush(v.slots[i], p)
  {
    FlushHidden(w, p, outcomes, parts, spb);
    assert PlaceHolds(Flush(w, p, outcomes).disk, w.slots[0])[0] == LeftBy(w.slots[0], outcomes[0])[0];
  }

  /** A flush loses a write: the sector holds 1, the failing write leaves 2 on the device, and nothing is left to be flushed. */
  lemma FlushLoses(p: Partition)
    requires p.device == 0 && p.lbaStart == 0 && p.sectors == 2 && p.sectorsPerBlock == 1
    ensures var w := Access(EmptyCache(1, map[]), Request(p, 0, Some([1]), Done, Done)).0;
            var outcomes := [Failed(ERROR, [[2]]), Done, Done, Done, Done];
            && Coherent(w, {p}, 1) && Logical(w, p, 0) == [1]
            && var v := Flush(w, p, outcomes);
               && Logical(v, p, 0) == [1] && SectorAt(v.disk, 0, 0) == [2] && !Durable(v, p)
               && forall i :: 0 <= i < |v.slots| ==> !ToFlush(v.slots[i], p)
  {
    var empty, r := EmptyCache(1, map[]), Request(p, 0, Some([1]), Done, Done);
    var w := Access(empty, r).0;
    SectorInSpan(p, 1);
    EmptyCoherent(1, map[], {p});
    AccessRefines(empty, r, {p}, 1);
    var outcomes := [Failed(ERROR, [[2]]), Done, Done, Done, Done];
    assert w.slots[0] == Slot(p, 0, true, [[1]]);
    FlushLeaves(w, p, outcomes, {p}, 1);
    assert LeftBy(w.slots[0], outcomes[0])[0] == [2];
  }
}
