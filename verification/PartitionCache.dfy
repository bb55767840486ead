/** The block cache as the code runs it (source/filesystem/Partition.cc): five static slots, changed in place, and
    the linked list that keeps them in order. Each operation is proved to do to the abstract `View()` what the
    functions of modules BlockCache and CacheRuns say. */
module PartitionCache {
  import opened Collections
  import opened Words
  import opened LinkedLists
  import opened BlockCache
  import opened CacheRuns
  import opened CacheCalls

  /** The block devices. How a call ends is decided outside and passed in. */
  class Storage {
    var content: Disk

    constructor (content: Disk)
      ensures this.content == content
    {
      this.content := content;
    }

    /** `buffer` is what the caller's memory holds before; a failing read may overwrite the front of it. */
    method ReadBlock(device: nat, start: nat, buffer: seq<Sector>, outcome: Outcome) returns (err: int, data: seq<Sector>)
      ensures outcome.Done? ==> err == OK && data == ReadRange(content, device, start, |buffer|)
      ensures outcome.Failed? ==> err == outcome.error && data == Overwritten(buffer, outcome.left)
    {
      match outcome
      case Done => err, data := OK, ReadRange(content, device, start, |buffer|);
      case Failed(error, left) => err, data := error, Overwritten(buffer, left);
    }

    method WriteBlock(device: nat, start: nat, data: seq<Sector>, outcome: Outcome) returns (err: int)
      modifies this
      ensures err == if outcome.Done? then OK else outcome.error
      ensures content == WriteRange(old(content), device, start, if outcome.Done? then data else Overwritten(data, outcome.left))
    {
      match outcome
      case Done =>
        err := OK;
        content := WriteRange(content, device, start, data);
      case Failed(error, left) =>
        err := error;
        content := WriteRange(content, device, start, Overwritten(data, left));
    }
  }

  /** One static cache entry; `blockStart` is -1 in a slot never used. */
  class CacheSlot {
    var data: seq<Sector>
    var blockStart: int
    var modified: bool
    var partition: Partition?

    constructor (data: seq<Sector>)
      ensures this.data == data && blockStart == -1 && !modified && partition == null
    {
      this.data, blockStart, modified, partition := data, -1, false, null;
    }

    function Value(): Slot
      reads this
    {
      Slot(partition, if blockStart < 0 then 0 else blockStart, modified, data)
    }

    /** Writes the block of a used slot to its partition, `count` sectors of it. */
    method WriteOut(storage: Storage, count: nat, outcome: Outcome) returns (err: int)
      requires partition != null && blockStart >= 0 && count == |data|
      modifies storage
      ensures err == if outcome.Done? then OK else outcome.error
      ensures storage.content == WriteBack(old(storage.content), Value(), outcome)
    {
      assert data[..count] == data;
      err := storage.WriteBlock(partition.device, (partition.lbaStart + blockStart) % UNINT4_RANGE, data[..count], outcome);
    }

    /** Makes the slot that of a block, and reads the block from its partition. */
    method Fill(storage: Storage, p: Partition, blockNum: nat, outcome: Outcome) returns (err: int)
      requires |data| == p.sectorsPerBlock
      modifies this
      ensures blockStart >= 0
      ensures err == if outcome.Done? then OK else outcome.error
      ensures Value() == Slot(p, blockNum, false,
                if outcome.Done? then ReadRange(storage.content, p.device, DeviceStart(p, blockNum), p.sectorsPerBlock)
                else Overwritten(old(data), outcome.left))
    {
      partition := p;
      blockStart := blockNum;
      modified := false;
      var buffer;
      err, buffer := storage.ReadBlock(p.device, (p.lbaStart + blockStart) % UNINT4_RANGE, data, outcome);
      data := buffer;
    }

    /** Copies a sector out of the block, or into it, which marks the slot modified. */
    method CopySector(offset: nat, value: Option<Sector>) returns (out: Option<Sector>)
      requires offset < |data|
      modifies this
      ensures partition == old(partition) && blockStart == old(blockStart)
      ensures Value() == if value.None? then old(Value()) else old(Value()).(modified := true, data := old(data)[offset := value.value])
      ensures out == if value.None? then Some(old(data)[offset]) else None
    {
      if value.None? {
        out := Some(data[offset]);
      } else {
        modified := true;
        data := data[offset := value.value];
        out := None;
      }
    }
  }

  class Cache {
    const blocks: seq<CacheSlot>
    const list: LinkedList
    const storage: Storage
    ghost const items: set<LinkedListItem>

    /** The slots in list order, and the devices. */
    ghost var View: World

    /** The list holds the five slots, each once, by index, and `View` shows them. */
    ghost predicate Valid()
      reads this, list, items, blocks, storage
    {
      && Consistent({list}, items)
      && |list.Nodes| == |blocks| == |View.slots| == CACHED_BLOCKS && Distinct(blocks)
      && (forall i, j :: 0 <= i < j < CACHED_BLOCKS ==> list.Nodes[i].data != list.Nodes[j].data)
      && (forall i {:trigger list.Nodes[i]} :: 0 <= i < CACHED_BLOCKS ==> Shows(i))
      && View.disk == storage.content
    }

    ghost predicate Shows(i: nat)
      requires i < CACHED_BLOCKS && |list.Nodes| == |blocks| == |View.slots| == CACHED_BLOCKS
      reads this, list, items, blocks, list.Nodes
    {
      var d := list.Nodes[i].data;
      && 0 <= d < CACHED_BLOCKS
      && View.slots[i] == blocks[d].Value()
      && (blocks[d].partition != null ==> blocks[d].blockStart >= 0)
    }

    /** `Partition::initialize`: an empty cache of blocks of `spb` sectors over the given devices. */
    constructor Initialize(storage: Storage, spb: nat)
      ensures Valid() && this.storage == storage && View == EmptyCache(spb, storage.content)
      ensures fresh(list) && fresh(items) && (forall b :: b in blocks ==> fresh(b))
    {
      this.storage := storage;
      var b := CachedBlocks(spb);
      blocks := b;
      var l, its := BlockCacheList();
      list := l;
      items := its;
      View := EmptyCache(spb, storage.content);
      new;
      forall i | 0 <= i < CACHED_BLOCKS ensures Shows(i) {
        assert blocks[i] in blocks && list.Nodes[i].data == i;
      }
    }

    /** `litem->remove(); BlockCacheList->addHead(litem);` */
    method MoveToFront(litem: LinkedListItem, ghost k: nat)
      requires Valid() && k < CACHED_BLOCKS && list.Nodes[k] == litem
      modifies this, list, items`pred, items`succ, items`hostDb
      ensures Valid() && View == World([old(View).slots[k]] + RemoveAt(old(View).slots, k), old(View).disk)
    {
      ListToFront(list, litem, k, items);
      View := World([View.slots[k]] + RemoveAt(View.slots, k), View.disk);
      FrontShown(k);
    }

    /** The view follows a move of item `k` to the front of the list. */
    twostate lemma FrontShown(k: nat)
      requires old(Valid()) && k < CACHED_BLOCKS
      requires list.Nodes == [old(list.Nodes)[k]] + RemoveAt(old(list.Nodes), k)
      requires View.slots == [old(View.slots)[k]] + RemoveAt(old(View.slots), k)
      requires forall x :: x in old(list.Nodes) ==> x.data == old(x.data)
      requires forall b :: b in blocks ==> unchanged(b)
      ensures forall i :: 0 <= i < CACHED_BLOCKS ==> Shows(i)
      ensures forall i, j :: 0 <= i < j < CACHED_BLOCKS ==> list.Nodes[i].data != list.Nodes[j].data
    {
      ghost var nodes := old(list.Nodes);
      forall i | 0 <= i < CACHED_BLOCKS ensures Shows(i) {
        FrontAt(nodes, k, i);
        FrontAt(old(View.slots), k, i);
        var m := FrontSource(k, i);
        assert old(Shows(m)) && nodes[m] in nodes && blocks[list.Nodes[i].data] in blocks;
      }
      forall i, j | 0 <= i < j < CACHED_BLOCKS ensures list.Nodes[i].data != list.Nodes[j].data {
        FrontAt(nodes, k, i);
        FrontAt(nodes, k, j);
        var m, n := FrontSource(k, i), FrontSource(k, j);
        assert nodes[m] in nodes && nodes[n] in nodes && m != n;
        assert if m < n then old(nodes[m].data) != old(nodes[n].data) else old(nodes[n].data) != old(nodes[m].data);
      }
    }

    /** The search loop of `accessSector`: the list item whose slot holds the block, or null. */
    method Lookup(p: Partition, blockNum: nat) returns (litem: LinkedListItem?, ghost k: nat)
      requires Valid()
      ensures k == Find(View.slots, p, blockNum) && litem == ItemAt(list.Nodes, k)
    {
      litem := list.headItem;
      k := 0;
      while litem != null
        invariant k <= CACHED_BLOCKS && litem == ItemAt(list.Nodes, k)
        invariant forall i :: 0 <= i < k ==> !(View.slots[i].part == p && View.slots[i].block == blockNum)
        decreases CACHED_BLOCKS - k
      {
        assert Shows(k);
        var blockCache := blocks[litem.data];
        if blockCache.partition == p && blockCache.blockStart == blockNum {
          break;
        }
        NextItem(k);
        litem := litem.succ;
        k := k + 1;
      }
    }

    lemma NextItem(k: nat)
      requires Valid() && k < CACHED_BLOCKS
      ensures list.Nodes[k].succ == ItemAt(list.Nodes, k + 1)
    {
    }

    /** Lines 108-111 of `accessSector` on the slot of list item `k`. */
    method FillSlot(litem: LinkedListItem, ghost k: nat, p: Partition, blockNum: nat, fetch: Outcome) returns (err: int)
      requires Valid() && k < CACHED_BLOCKS && list.Nodes[k] == litem && |View.slots[k].data| == p.sectorsPerBlock
      modifies this, blocks[litem.data]
      ensures Valid()
      ensures err == if fetch.Done? then OK else fetch.error
      ensures View == World(old(View).slots[k := Slot(p, blockNum, false,
                if fetch.Done? then ReadRange(old(View).disk, p.device, DeviceStart(p, blockNum), p.sectorsPerBlock)
                else Overwritten(old(View).slots[k].data, fetch.left))], old(View).disk)
    {
      assert Shows(k);
      err := blocks[litem.data].Fill(storage, p, blockNum, fetch);
      View := World(View.slots[k := blocks[litem.data].Value()], View.disk);
      OthersShown(k);
    }

    /** A write to the slot of item `k` leaves the others as they are shown. */
    twostate lemma OthersShown(k: nat)
      requires old(Valid()) && k < CACHED_BLOCKS && |list.Nodes| == |View.slots| == CACHED_BLOCKS && unchanged(list)
      requires forall x :: x in list.Nodes ==> x.data == old(x.data)
      requires forall b :: b in blocks && b != blocks[list.Nodes[k].data] ==> unchanged(b)
      requires View.slots == old(View.slots)[k := View.slots[k]]
      ensures forall i :: 0 <= i < CACHED_BLOCKS && i != k ==> Shows(i)
    {
      forall i | 0 <= i < CACHED_BLOCKS && i != k ensures Shows(i) {
        var d := list.Nodes[i].data;
        assert old(Shows(i)) && list.Nodes[i] in list.Nodes;
        assert d != list.Nodes[k].data && blocks[d] in blocks && blocks[d] != blocks[list.Nodes[k].data];
      }
    }

    /** The miss branch of `accessSector`: the tail slot makes room and reads the block. */
    method Evict(p: Partition, blockNum: nat, ghost r: Request, writeBack: Outcome, fetch: Outcome)
      returns (err: int, litem: LinkedListItem)
      requires Valid() && p.sectorsPerBlock > 0 && Sized(View.slots, p.sectorsPerBlock)
      requires r.part == p && blockNum == BlockOf(p, r.sector) && r.writeBack == writeBack && r.fetch == fetch
      modifies this, blocks, storage
      ensures Valid() && list.Nodes[CACHED_BLOCKS - 1] == litem
      ensures Evicted(old(View), r, View, err)
    {
      ghost var w := View;
      litem := list.tailItem;
      var blockCache := blocks[litem.data];
      assert Shows(CACHED_BLOCKS - 1);
      if blockCache.partition != null && blockCache.modified {
        err := WriteSlot(litem, CACHED_BLOCKS - 1, p.sectorsPerBlock, writeBack);
        if err < OK {
          return;
        }
      }
      ghost var disk := View.disk;
      err := FillSlot(litem, CACHED_BLOCKS - 1, p, blockNum, fetch);
      EvictedFilled(w, r, disk, View, err);
    }

    /** Line 101 of `accessSector` on the slot of list item `k`. */
    method WriteSlot(litem: LinkedListItem, ghost k: nat, count: nat, outcome: Outcome) returns (err: int)
      requires Valid() && k < CACHED_BLOCKS && list.Nodes[k] == litem && View.slots[k].part != null && |View.slots[k].data| == count
      modifies this, storage
      ensures Valid() && View == World(old(View).slots, WriteBack(old(View).disk, old(View).slots[k], outcome))
      ensures err == if outcome.Done? then OK else outcome.error
    {
      assert Shows(k);
      err := blocks[litem.data].WriteOut(storage, count, outcome);
      View := World(View.slots, storage.content);
      forall i | 0 <= i < CACHED_BLOCKS ensures Shows(i) {
        assert old(Shows(i));
      }
    }

    /** Lines 118-127 of `accessSector` on the slot of list item `k`. */
    method ServeSlot(litem: LinkedListItem, ghost k: nat, offset: nat, value: Option<Sector>) returns (out: Option<Sector>)
      requires Valid() && k < CACHED_BLOCKS && list.Nodes[k] == litem && offset < |View.slots[k].data|
      modifies this, blocks[litem.data], list, items`pred, items`succ, items`hostDb
      ensures Valid() && View == Served(old(View), k, offset, value)
      ensures out == if value.None? then Some(old(View).slots[k].data[offset]) else None
    {
      out := blocks[litem.data].CopySector(offset, value);
      View := World(View.slots[k := blocks[litem.data].Value()], View.disk);
      OthersShown(k);
      MoveToFront(litem, k);
      assert RemoveAt(old(View).slots[k := View.slots[0]], k) == RemoveAt(old(View).slots, k);
    }

    /** One access to a sector: read it (no value) or write it. */
    method AccessSector(p: Partition, sectorNum: nat, value: Option<Sector>, fault: Fault)
      returns (err: int, out: Option<Sector>)
      requires Valid() && p.sectorsPerBlock > 0 && Sized(View.slots, p.sectorsPerBlock)
      modifies this, blocks, storage, list, items`pred, items`succ, items`hostDb
      ensures Valid()
      ensures Accessed(old(View), Request(p, sectorNum, value, fault.writeBack, fault.fetch), View, err, out)
    {
      ghost var w, r := View, Request(p, sectorNum, value, fault.writeBack, fault.fetch);
      out := None;
      var blockNum := sectorNum - sectorNum % p.sectorsPerBlock;
      var offset := sectorNum % p.sectorsPerBlock;
      ghost var k;
      var litem: LinkedListItem?;
      litem, k := Lookup(p, blockNum);
      if litem == null {
        err, litem := Evict(p, blockNum, r, fault.writeBack, fault.fetch);
        k := CACHED_BLOCKS - 1;
        if err < OK {
          AccessFails(w, r, View, err, out);
          return;
        }
      }
      ghost var u := View;
      out := ServeSlot(litem, k, offset, value);
      err := OK;
      AccessServed(w, r, u, k, View, out);
    }

    /** Writes the modified blocks of the partition to its device, in list order. */
    method FlushCache(p: Partition, outcomes: seq<Outcome>)
      requires Valid() && |outcomes| == CACHED_BLOCKS && p.sectorsPerBlock > 0 && Sized(View.slots, p.sectorsPerBlock)
      modifies this, blocks, storage
      ensures Valid() && View == Flush(old(View), p, outcomes)
    {
      ghost var goal := Flush(View, p, outcomes);
      var litem := list.headItem;
      var k := 0;
      while litem != null
        invariant Valid() && k <= CACHED_BLOCKS && litem == ItemAt(list.Nodes, k)
        invariant FlushLeft(goal, View, p, k, outcomes)
        decreases CACHED_BLOCKS - k
      {
        FlushTurn(litem, k, p, outcomes, goal);
        NextItem(k);
        litem := litem.succ;
        k := k + 1;
      }
    }

    /** One turn of the loop of `flushCache`. */
    method FlushTurn(litem: LinkedListItem, k: nat, p: Partition, outcomes: seq<Outcome>, ghost goal: World)
      requires Valid() && k < CACHED_BLOCKS && list.Nodes[k] == litem && FlushLeft(goal, View, p, k, outcomes)
      modifies this, blocks[litem.data], storage
      ensures Valid() && FlushLeft(goal, View, p, k + 1, outcomes)
    {
      ghost var w := View;
      assert Shows(k);
      var blockCache := blocks[litem.data];
      if blockCache.partition == p && blockCache.modified {
        FlushItem(litem, k, p.sectorsPerBlock, outcomes[k]);
      }
      FlushStep(goal, w, View, p, k, outcomes);
    }

    /** Lines 138-140 of `flushCache`: marked unmodified first, then written; the write's result is ignored. */
    method FlushItem(litem: LinkedListItem, ghost k: nat, count: nat, outcome: Outcome)
      requires Valid() && k < CACHED_BLOCKS && list.Nodes[k] == litem && View.slots[k].part != null && |View.slots[k].data| == count
      modifies this, blocks[litem.data], storage
      ensures Valid()
      ensures View == World(old(View).slots[k := old(View).slots[k].(modified := false)], WriteBack(old(View).disk, old(View).slots[k], outcome))
    {
      assert Shows(k);
      blocks[litem.data].modified := false;
      var _ := blocks[litem.data].WriteOut(storage, count, outcome);
      View := World(View.slots[k := blocks[litem.data].Value()], storage.content);
      OthersShown(k);
    }

    /** Reads a run of sectors, up to the first error. */
    method ReadSectors(p: Partition, sectorStart: nat, numSectors: nat, faults: seq<Fault>)
      returns (ret: int, buffer: seq<Option<Sector>>)
      requires Valid() && p.sectorsPerBlock > 0 && Sized(View.slots, p.sectorsPerBlock) && |faults| == numSectors
      modifies this, blocks, storage, list, items`pred, items`succ, items`hostDb
      ensures Valid() && Sized(View.slots, p.sectorsPerBlock)
      ensures Transfer(old(View), p, sectorStart, Reads(numSectors), faults) == (View, ret, buffer)
    {
      ret, buffer := TransferSectors(p, sectorStart, Reads(numSectors), faults);
    }

    /** Writes a run of sectors, up to the first error. */
    method WriteSectors(p: Partition, sectorStart: nat, buffer: seq<Sector>, faults: seq<Fault>) returns (ret: int)
      requires Valid() && p.sectorsPerBlock > 0 && Sized(View.slots, p.sectorsPerBlock) && |faults| == |buffer|
      modifies this, blocks, storage, list, items`pred, items`succ, items`hostDb
      ensures Valid() && Sized(View.slots, p.sectorsPerBlock)
      ensures var (v, code, _) := Transfer(old(View), p, sectorStart, Writes(buffer), faults);
              View == v && ret == code
    {
      var unused;
      ret, unused := TransferSectors(p, sectorStart, Writes(buffer), faults);
    }

    /** The loop that `readSectors` and `writeSectors` share but for the operation. */
    method TransferSectors(p: Partition, sectorStart: nat, values: seq<Option<Sector>>, faults: seq<Fault>)
      returns (ret: int, outs: seq<Option<Sector>>)
      requires Valid() && p.sectorsPerBlock > 0 && Sized(View.slots, p.sectorsPerBlock) && |faults| == |values|
      modifies this, blocks, storage, list, items`pred, items`succ, items`hostDb
      ensures Valid() && Sized(View.slots, p.sectorsPerBlock)
      ensures Transfer(old(View), p, sectorStart, values, faults) == (View, ret, outs)
    {
      ret, outs := OK, [];
      if (sectorStart + |values|) % UNINT4_RANGE < p.sectors {
        var i := 0;
        ghost var goal := TransferFrom(View, p, sectorStart, values, faults, 0);
        assert outs + goal.2 == goal.2;
        while i < |values|
          invariant Valid() && i <= |values| && ret == OK
          invariant TransferLeft(goal, View, p, sectorStart, values, faults, i, outs)
        {
          ghost var w := View;
          var out;
          ret, out := AccessSector(p, (sectorStart + i) % UNINT4_RANGE, values[i], faults[i]);
          TransferTurn(goal, w, View, p, sectorStart, values, faults, i, outs, ret, out);
          if ret < OK {
            return;
          }
          outs := outs + [out];
          i := i + 1;
        }
        assert outs + [] == outs;
      } else {
        ret := ERROR;
      }
    }
  }

  /** The request lies before the partition's last sector, and the device reads for it succeed. */
  predicate Serviceable(p: Partition, start: nat, count: nat, faults: seq<Fault>) {
    && |faults| == count && start + count < UNINT4_RANGE && start + count < p.sectors
    && forall j :: 0 <= j < count ==> faults[j].fetch.Done?
  }

  /** A caller that writes a buffer and reads the same sectors: it gets back what it wrote, as far as the write and the read
      got, which is all the way unless a write-back fails. */
  method WriteThenRead(cache: Cache, p: Partition, start: nat, buffer: seq<Sector>, writeFaults: seq<Fault>, readFaults: seq<Fault>,
      ghost parts: set<Partition>, ghost spb: nat)
    returns (ret: int, code: int, read: seq<Option<Sector>>, ghost n: nat)
    requires cache.Valid() && Coherent(cache.View, parts, spb) && p in parts
    requires Serviceable(p, start, |buffer|, writeFaults) && Serviceable(p, start, |buffer|, readFaults)
    modifies cache, cache.blocks, cache.storage, cache.list, cache.items`pred, cache.items`succ, cache.items`hostDb
    ensures cache.Valid()
    ensures n <= |buffer| && (ret == OK <==> n == |buffer|) && StoppedBy(ret, n, writeFaults)
    ensures |read| <= |buffer| && (code == OK <==> |read| == |buffer|) && StoppedBy(code, |read|, readFaults)
    ensures forall j :: 0 <= j < n && j < |read| ==> read[j] == Some(buffer[j])
  {
    ghost var w := cache.View;
    CoherentSized(w, p, parts, spb);
    ret := cache.WriteSectors(p, start, buffer, writeFaults);
    ghost var v := cache.View;
    code, read := cache.ReadSectors(p, start, |buffer|, readFaults);
    n := WrittenAndRead(w, v, cache.View, p, start, buffer, writeFaults, ret, readFaults, code, read, parts, spb);
  }

  lemma CoherentSized(w: World, p: Partition, parts: set<Partition>, spb: nat)
    requires Coherent(w, parts, spb) && p in parts
    ensures p.sectorsPerBlock == spb > 0 && Sized(w.slots, spb)
  {
  }

  lemma WrittenAndRead(w: World, v: World, u: World, p: Partition, start: nat, buffer: seq<Sector>, writeFaults: seq<Fault>, ret: int,
      readFaults: seq<Fault>, code: int, read: seq<Option<Sector>>, parts: set<Partition>, spb: nat)
    returns (n: nat)
    requires Coherent(w, parts, spb) && p in parts && Sized(v.slots, spb) && |v.slots| > 0
    requires Serviceable(p, start, |buffer|, writeFaults) && Serviceable(p, start, |buffer|, readFaults)
    requires var result := Transfer(w, p, start, Writes(buffer), writeFaults);
             result.0 == v && result.1 == ret
    requires Transfer(v, p, start, Reads(|buffer|), readFaults) == (u, code, read)
    ensures n <= |buffer| && (ret == OK <==> n == |buffer|) && StoppedBy(ret, n, writeFaults)
    ensures |read| <= |buffer| && (code == OK <==> |read| == |buffer|) && StoppedBy(code, |read|, readFaults)
    ensures forall j :: 0 <= j < n && j < |read| ==> read[j] == Some(buffer[j])
  {
    n := |Transfer(w, p, start, Writes(buffer), writeFaults).2|;
    WriteRefines(w, p, start, buffer, writeFaults, parts, spb);
    ReadServes(v, p, start, |buffer|, readFaults, parts, spb);
    ReadsBack(w, v, p, start, buffer, n, ret, writeFaults, Reply(code, read), readFaults, parts, spb);
  }

  lemma ReadsBack(w: World, v: World, p: Partition, start: nat, buffer: seq<Sector>, n: nat, ret: int, writeFaults: seq<Fault>, reply: Reply,
      readFaults: seq<Fault>, parts: set<Partition>, spb: nat)
    requires BufferStored(w, v, p, start, buffer, n, ret, writeFaults, parts, spb)
    requires ReadServed(v, p, start, |buffer|, readFaults, reply, parts, spb)
    ensures forall j :: 0 <= j < n && j < |reply.buffer| ==> reply.buffer[j] == Some(buffer[j])
  {
  }

  /** How an eviction changes the cache, and the error it reports. */
  ghost predicate Evicted(w: World, r: Request, v: World, err: int) {
    && |w.slots| > 0 && r.part.sectorsPerBlock > 0 && Sized(w.slots, r.part.sectorsPerBlock)
    && var (u, a) := BlockCache.Evict(w, r);
       v == u && err == if a.Error? then a.error else OK
  }

  /** How an access changes the cache, and what it returns. */
  ghost predicate Accessed(w: World, r: Request, v: World, err: int, out: Option<Sector>) {
    && |w.slots| > 0 && r.part.sectorsPerBlock > 0 && Sized(w.slots, r.part.sectorsPerBlock)
    && var (u, a) := Access(w, r);
       v == u && if a.Error? then err == a.error else err == OK && out == a.value
  }

  lemma EvictedFilled(w: World, r: Request, disk: Disk, v: World, err: int)
    requires |w.slots| > 0 && r.part.sectorsPerBlock > 0 && Sized(w.slots, r.part.sectorsPerBlock)
    requires var victim := w.slots[|w.slots| - 1];
             if victim.part != null && victim.modified then r.writeBack.Done? && disk == WriteBack(w.disk, victim, r.writeBack)
             else disk == w.disk
    requires err == if r.fetch.Done? then OK else r.fetch.error
    requires var last, block := |w.slots| - 1, BlockOf(r.part, r.sector);
             v == World(w.slots[last := Slot(r.part, block, false,
                    if r.fetch.Done? then ReadRange(disk, r.part.device, DeviceStart(r.part, block), r.part.sectorsPerBlock)
                    else Overwritten(w.slots[last].data, r.fetch.left))], disk)
    ensures Evicted(w, r, v, err)
  {
  }

  lemma AccessFails(w: World, r: Request, v: World, err: int, out: Option<Sector>)
    requires Evicted(w, r, v, err) && err < OK && Find(w.slots, r.part, BlockOf(r.part, r.sector)) == |w.slots|
    ensures Accessed(w, r, v, err, out)
  {
  }

  /** The request is served from slot `k` of `u`, where the block was found or has been read. */
  lemma AccessServed(w: World, r: Request, u: World, k: nat, v: World, out: Option<Sector>)
    requires |w.slots| > 0 && r.part.sectorsPerBlock > 0 && Sized(w.slots, r.part.sectorsPerBlock)
    requires var f := Find(w.slots, r.part, BlockOf(r.part, r.sector));
             if f < |w.slots| then u == w && k == f else Evicted(w, r, u, OK) && k == |w.slots| - 1
    requires k < |u.slots| && |u.slots[k].data| == r.part.sectorsPerBlock
    requires var offset := r.sector % r.part.sectorsPerBlock;
             v == Served(u, k, offset, r.value) && out == if r.value.None? then Some(u.slots[k].data[offset]) else None
    ensures Accessed(w, r, v, OK, out)
  {
  }

  /** After `i` turns that returned `outs` the rest of the transfer leads to `goal`. */
  ghost predicate TransferLeft(goal: (World, int, seq<Option<Sector>>), w: World, p: Partition, start: nat,
      values: seq<Option<Sector>>, faults: seq<Fault>, i: nat, outs: seq<Option<Sector>>)
  {
    && p.sectorsPerBlock > 0 && Sized(w.slots, p.sectorsPerBlock) && |w.slots| > 0 && i <= |values| == |faults|
    && var (v, code, rest) := TransferFrom(w, p, start, values, faults, i);
       goal == (v, code, outs + rest)
  }

  lemma TransferTurn(goal: (World, int, seq<Option<Sector>>), w: World, v: World, p: Partition, start: nat,
      values: seq<Option<Sector>>, faults: seq<Fault>, i: nat, outs: seq<Option<Sector>>, err: int, out: Option<Sector>)
    requires TransferLeft(goal, w, p, start, values, faults, i, outs) && i < |values|
    requires Accessed(w, Request(p, SectorNumber(start, i), values[i], faults[i].writeBack, faults[i].fetch), v, err, out)
    ensures Sized(v.slots, p.sectorsPerBlock)
    ensures if err < OK then goal == (v, err, outs) else TransferLeft(goal, v, p, start, values, faults, i + 1, outs + [out])
  {
    var a := AnswerOf(w, Request(p, SectorNumber(start, i), values[i], faults[i].writeBack, faults[i].fetch), v, err, out);
    TransferUnfolds(w, p, start, values, faults, i, SectorNumber(start, i), v, a);
    if a.Ok? {
      OneMoreOut(outs, out, TransferFrom(v, p, start, values, faults, i + 1));
    } else {
      assert outs + [] == outs;
    }
  }

  lemma AnswerOf(w: World, r: Request, v: World, err: int, out: Option<Sector>) returns (a: Answer)
    requires Accessed(w, r, v, err, out)
    ensures Access(w, r) == (v, a) && if a.Error? then err == a.error else err == OK && out == a.value
  {
    a := Access(w, r).1;
  }

  lemma OneMoreOut(outs: seq<Option<Sector>>, out: Option<Sector>, rest: (World, int, seq<Option<Sector>>))
    ensures outs + OneMore(out, rest).2 == outs + [out] + rest.2
  {
  }

  /** From slot `k` on the rest of the flush leads to `goal`. */
  ghost predicate FlushLeft(goal: World, w: World, p: Partition, k: nat, outcomes: seq<Outcome>) {
    && p.sectorsPerBlock > 0 && Sized(w.slots, p.sectorsPerBlock) && k <= |w.slots| == |outcomes|
    && FlushFrom(w, p, k, outcomes) == goal
  }

  lemma FlushStep(goal: World, w: World, v: World, p: Partition, k: nat, outcomes: seq<Outcome>)
    requires FlushLeft(goal, w, p, k, outcomes) && k < |w.slots|
    requires v == if ToFlush(w.slots[k], p)
                  then World(w.slots[k := w.slots[k].(modified := false)], WriteBack(w.disk, w.slots[k], outcomes[k]))
                  else w
    ensures FlushLeft(goal, v, p, k + 1, outcomes)
  {
  }

  method ListToFront(list: LinkedList, litem: LinkedListItem, ghost k: nat, ghost items: set<LinkedListItem>)
    requires Consistent({list}, items) && Distinct(list.Nodes) && k < |list.Nodes| && list.Nodes[k] == litem
    modifies list, items`pred, items`succ, items`hostDb
    ensures Consistent({list}, items) && list.Nodes == [litem] + RemoveAt(old(list.Nodes), k)
  {
    LeftBehind(list.Nodes, k);
    litem.Remove({list}, items);
    var _ := list.AddHead(litem, {list}, items);
  }

  lemma LeftBehind<X>(s: seq<X>, k: nat)
    requires Distinct(s) && k < |s|
    ensures Without(s, s[k]) == RemoveAt(s, k) && Without(RemoveAt(s, k), s[k]) == RemoveAt(s, k)
    ensures InsertAt(RemoveAt(s, k), 0, s[k]) == [s[k]] + RemoveAt(s, k)
  {
    WithoutAt(s, k);
    RemoveAtElements(s, k);
    WithoutAbsent(RemoveAt(s, k), s[k]);
  }

  /** The static slots, unused. */
  method CachedBlocks(spb: nat) returns (blocks: seq<CacheSlot>)
    ensures |blocks| == CACHED_BLOCKS && Distinct(blocks)
    ensures forall b :: b in blocks ==> fresh(b) && b.Value() == Slot(null, 0, false, seq(spb, _ => []))
  {
    blocks := [];
    for i := 0 to CACHED_BLOCKS
      invariant |blocks| == i && Distinct(blocks)
      invariant forall b :: b in blocks ==> fresh(b) && b.Value() == Slot(null, 0, false, seq(spb, _ => []))
    {
      var b := new CacheSlot(seq(spb, _ => []));
      blocks := blocks + [b];
    }
  }

  /** A list of the five slots in order. */
  method BlockCacheList() returns (list: LinkedList, ghost items: set<LinkedListItem>)
    ensures fresh(list) && fresh(items) && Consistent({list}, items)
    ensures |list.Nodes| == CACHED_BLOCKS && forall i :: 0 <= i < CACHED_BLOCKS ==> list.Nodes[i].data == i
  {
    list := new LinkedList();
    items := {};
    for i := 0 to CACHED_BLOCKS
      invariant fresh(list) && fresh(items) && Consistent({list}, items)
      invariant |list.Nodes| == i && forall j :: 0 <= j < i ==> list.Nodes[j].data == j
    {
      var item := new LinkedListItem(i);
      AddItem(list, item, items);
      items := items + {item};
    }
  }

  /** A free item may join a world of lists. */
  lemma Joined(lists: set<LinkedList>, item: LinkedListItem, items: set<LinkedListItem>)
    requires Consistent(lists, items) && item.hostDb == null && item.pred == null && item.succ == null
    ensures Consistent(lists, items + {item})
  {
  }

  method AddItem(list: LinkedList, item: LinkedListItem, ghost items: set<LinkedListItem>)
    requires Consistent({list}, items) && item !in items && item.hostDb == null && item.pred == null && item.succ == null
    modifies list, items`pred, items`succ, item`pred, item`succ, item`hostDb
    ensures Consistent({list}, items + {item}) && list.Nodes == old(list.Nodes) + [item]
  {
    ghost var was := list.Nodes;
    Joined({list}, item, items);
    WithoutAbsent(was, item);
    var _ := list.AddTail(item, {list}, items + {item});
    assert list.Nodes == was + [item];
  }
}
