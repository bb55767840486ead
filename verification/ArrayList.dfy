/** The fixed-size ring list of the kernel (source/db/ArrayList.cc). Pointers are numbers, and the null pointer is 0. */
module ArrayList {
  import opened Collections

  type ListItem = int

  const OK := 0
  const DATABASE_OVERFLOW := -500
  const INDEX_OUT_OF_BOUNDS := -502

  /** The list after an insertion, given what the first slot behind the list holds. With exactly one slot left, the first
      shift puts that on the head's place. */
  function Inserted(s: seq<ListItem>, max: nat, behind: ListItem, at: nat, item: ListItem): seq<ListItem>
    requires at <= |s| < max
  {
    InsertAt(if |s| > 0 && |s| + 1 == max then s[0 := behind] else s, at, item)
  }

  /** Insertion does what it should exactly when two slots are free, the list is empty, or the only free slot happens to
      hold the head. */
  lemma InsertExact(s: seq<ListItem>, max: nat, behind: ListItem, at: nat, item: ListItem)
    requires at <= |s| < max
    ensures Inserted(s, max, behind, at, item) == InsertAt(s, at, item) <==> |s| + 2 <= max || s == [] || behind == s[0]
  {
    if |s| > 0 && |s| + 1 == max {
      var k := if at == 0 then 1 else 0;
      assert Inserted(s, max, behind, at, item)[k] == behind;
      assert InsertAt(s, at, item)[k] == s[0];
      assert behind == s[0] ==> s[0 := behind] == s;
    }
  }

  /** A list of two items in three slots loses the first of them to the null behind them. */
  lemma InsertWitness()
    ensures Inserted([1, 2], 3, 0, 1, 9) == [0, 9, 2] && InsertAt([1, 2], 1, 9) == [1, 9, 2]
  {
    assert [1, 2][0 := 0] == [0, 2];
  }

  /** An array from one place on, around its end. */
  function Rotated(a: seq<ListItem>, head: nat): (r: seq<ListItem>)
    requires head <= |a|
    ensures |r| == |a|
  {
    a[head..] + a[..head]
  }

  /** A store behind a place, seen from there. */
  lemma RotatedStore(a: seq<ListItem>, head: nat, i: nat, item: ListItem)
    requires head < |a| && i < |a|
    ensures var p := if head + i >= |a| then head + i - |a| else head + i;
            Rotated(a[p := item], head) == Rotated(a, head)[i := item]
  {
  }

  /** Moving the head back by one place brings the last slot to the front. */
  lemma RotatedBack(a: seq<ListItem>, head: nat)
    requires head < |a|
    ensures var p := if head == 0 then |a| - 1 else head - 1;
            Rotated(a, p) == [a[p]] + Rotated(a, head)[..|a| - 1]
  {
  }

  lemma RotatedForth(a: seq<ListItem>, head: nat)
    requires head < |a|
    ensures var p := if head + 1 == |a| then 0 else head + 1;
            Rotated(a, p) == Rotated(a, head)[1..] + [a[head]]
  {
  }

  /** The ring while a removal closes the hole at `at`, after `i` steps. */
  function Closing(r: seq<ListItem>, at: nat, i: nat): seq<ListItem>
    requires at + 1 + i <= |r|
  {
    r[..at] + r[at + 1..at + 1 + i] + r[at + i..]
  }

  lemma ClosingStep(r: seq<ListItem>, at: nat, i: nat)
    requires at + 1 + i < |r|
    ensures Closing(r, at, i)[at + i + 1] == r[at + i + 1]
    ensures Closing(r, at, i + 1) == Closing(r, at, i)[at + i := r[at + i + 1]]
  {
  }

  lemma Closed(r: seq<ListItem>, n: nat, at: nat)
    requires at < n <= |r|
    ensures Closing(r[at := 0], at, n - 1 - at)[..n - 1] == RemoveAt(r[..n], at)
  {
  }

  /** A slot copied to the next one, around the end of the ring. */
  function Shifted(r: seq<ListItem>, i: nat): (r1: seq<ListItem>)
    requires i < |r|
    ensures |r1| == |r|
  {
    r[if i + 1 == |r| then 0 else i + 1 := r[i]]
  }

  /** The ring when an insertion has shifted the places from `n` down to the one behind `k`. */
  function Room(r: seq<ListItem>, n: nat, k: int): (r1: seq<ListItem>)
    requires -1 <= k <= n < |r|
    ensures |r1| == |r|
    decreases n - k
  {
    if k == n then r else Shifted(Room(r, n, k + 1), k + 1)
  }

  /** The first shift's ring with the places behind `k` moved. */
  function Opening(r1: seq<ListItem>, n: nat, k: int): (r: seq<ListItem>)
    requires -1 <= k < n < |r1|
    ensures |r| == |r1|
  {
    r1[..k + 2] + r1[k + 1..n] + r1[n + 1..]
  }

  lemma OpeningStep(r1: seq<ListItem>, n: nat, k: nat)
    requires k < n < |r1|
    ensures Opening(r1, n, k)[k] == r1[k]
    ensures Opening(r1, n, k - 1) == Opening(r1, n, k)[k + 1 := r1[k]]
  {
  }

  lemma OpeningStart(r1: seq<ListItem>, n: nat)
    requires n < |r1|
    ensures Opening(r1, n, n - 1) == r1
  {
  }

  lemma {:induction false} RoomOpens(r: seq<ListItem>, n: nat, k: int)
    requires -1 <= k < n < |r|
    ensures Room(r, n, k) == Opening(Shifted(r, n), n, k)
    decreases n - k
  {
    var r1 := Shifted(r, n);
    if k == n - 1 {
      OpeningStart(r1, n);
    } else {
      RoomOpens(r, n, k + 1);
      OpeningStep(r1, n, k + 1);
    }
  }

  lemma OpenedFront(r: seq<ListItem>, n: nat)
    requires n < |r|
    ensures Shifted(r, n)[..n] == if n > 0 && n + 1 == |r| then r[..n][0 := r[n]] else r[..n]
  {
  }

  lemma Filled(r1: seq<ListItem>, n: nat, at: nat, item: ListItem)
    requires at <= n < |r1|
    ensures Opening(r1, n, at - 1)[at := item][..n + 1] == InsertAt(r1[..n], at, item)
  {
  }

  lemma InsertDone(r: seq<ListItem>, n: nat, at: nat, item: ListItem)
    requires at <= n < |r|
    ensures Room(r, n, at - 1)[at := item][..n + 1] == Inserted(r[..n], |r|, r[n], at, item)
  {
    OpenedFront(r, n);
    RoomOpens(r, n, at - 1);
    Filled(Shifted(r, n), n, at, item);
  }

  class ArrayList {
    const entries: array<ListItem>
    const maxEntries: nat
    var numEntries: nat
    var headPointer: nat
    /** All slots, from the head on. */
    ghost var ring: seq<ListItem>

    constructor (max: nat)
      requires max < 256
      ensures Valid() && fresh(entries) && maxEntries == max && Contents() == []
    {
      maxEntries := max;
      numEntries := 0;
      entries := new ListItem[max](_ => 0);
      headPointer := 0;
      ring := seq(max, _ => 0);
    }

    ghost predicate Valid()
      reads this, entries
    {
      Shape() && ring == Rotated(entries[..], headPointer)
    }

    predicate Shape()
      reads this
    {
      && entries.Length == maxEntries < 256 && numEntries <= maxEntries
      && (maxEntries > 0 ==> headPointer < maxEntries) && (maxEntries == 0 ==> headPointer == 0)
    }

    /** The array slot of the i-th place after the head. */
    function Slot(i: nat): (p: nat)
      requires Shape()
      reads this
    {
      Modulo(headPointer + i)
    }

    function Modulo(a: nat): nat {
      if a >= maxEntries then a - maxEntries else a
    }

    /** The list: what stands between head and tail. */
    ghost function Contents(): (s: seq<ListItem>)
      requires Valid()
      reads this, entries
      ensures |s| == numEntries
    {
      ring[..numEntries]
    }


    method GetTail() returns (item: ListItem)
      requires Valid()
      ensures item == if Contents() == [] then 0 else Contents()[|Contents()| - 1]
    {
      if numEntries == 0 {
        return 0;
      } else {
        return entries[Modulo(headPointer + numEntries - 1)];
      }
    }

    method GetHead() returns (item: ListItem)
      requires Valid()
      ensures item == if Contents() == [] then 0 else Contents()[0]
    {
      if numEntries == 0 {
        return 0;
      } else {
        return entries[headPointer];
      }
    }

    /** No bounds check: a place behind the tail gives whatever its slot holds. */
    method GetItemAt(i: nat) returns (item: ListItem)
      requires Valid() && i < maxEntries
      ensures item == ring[i] && (i < |Contents()| ==> item == Contents()[i])
    {
      return entries[Modulo(headPointer + i)];
    }

    /** Stores into the slot of the i-th place. */
    method Store(i: nat, item: ListItem)
      requires Valid() && i < maxEntries
      modifies this`ring, entries
      ensures Valid() && ring == old(ring)[i := item]
    {
      RotatedStore(entries[..], headPointer, i, item);
      ghost var a := entries[..][Slot(i) := item];
      entries[Slot(i)] := item;
      assert entries[..] == a;
      ring := ring[i := item];
    }

    /** The slot of a place holds what the ring shows there. */
    lemma SlotHolds(i: nat)
      requires Valid() && i < maxEntries
      ensures entries[Slot(i)] == ring[i]
    {
    }

    method AddTail(item: ListItem) returns (error: int)
      requires Valid()
      modifies this`numEntries, this`ring, entries
      ensures Valid()
      ensures error == if |old(Contents())| == maxEntries then DATABASE_OVERFLOW else OK
      ensures Contents() == if error == OK then old(Contents()) + [item] else old(Contents())
    {
      if numEntries + 1 > maxEntries {
        return DATABASE_OVERFLOW;
      }
      var n := numEntries;
      numEntries := numEntries + 1;
      Store(n, item);
      return OK;
    }

    method AddHead(item: ListItem) returns (error: int)
      requires Valid()
      modifies this`numEntries, this`headPointer, this`ring, entries
      ensures Valid()
      ensures error == if |old(Contents())| == maxEntries then DATABASE_OVERFLOW else OK
      ensures Contents() == if error == OK then [item] + old(Contents()) else old(Contents())
    {
      if numEntries + 1 > maxEntries {
        return DATABASE_OVERFLOW;
      }
      RotatedBack(entries[..], headPointer);
      if headPointer == 0 {
        headPointer := maxEntries - 1;
      } else {
        headPointer := headPointer - 1;
      }
      ring := [entries[headPointer]] + ring[..maxEntries - 1];
      Store(0, item);
      numEntries := numEntries + 1;
      return OK;
    }

    method RemoveHead() returns (item: ListItem)
      requires Valid()
      modifies this`numEntries, this`headPointer, this`ring, entries
      ensures Valid()
      ensures if old(Contents()) == [] then item == 0 && Contents() == []
              else item == old(Contents())[0] && Contents() == old(Contents())[1..]
    {
      if 0 == numEntries {
        return 0;
      }
      SlotHolds(0);
      item := entries[headPointer];
      Store(0, 0);
      SlotHolds(0);
      RotatedForth(entries[..], headPointer);
      if headPointer == maxEntries - 1 {
        headPointer := 0;
      } else {
        headPointer := headPointer + 1;
      }
      ring := ring[1..] + [0];
      numEntries := numEntries - 1;
    }

    method RemoveTail() returns (item: ListItem)
      requires Valid()
      modifies this`numEntries, this`ring, entries
      ensures Valid()
      ensures if old(Contents()) == [] then item == 0 && Contents() == []
              else item == old(Contents())[|old(Contents())| - 1] && Contents() == old(Contents())[..|old(Contents())| - 1]
    {
      if 0 == numEntries {
        return 0;
      }
      item := entries[Slot(numEntries - 1)];
      Store(numEntries - 1, 0);
      numEntries := numEntries - 1;
    }

    method RemoveItemAt(at: int) returns (item: ListItem)
      requires Valid()
      modifies this`numEntries, this`ring, entries
      ensures Valid()
      ensures if 0 <= at < |old(Contents())| then item == old(Contents())[at] && Contents() == RemoveAt(old(Contents()), at)
              else item == 0 && Contents() == old(Contents())
    {
      if at < 0 || at >= numEntries {
        return 0;
      }
      item := entries[Slot(at)];
      Store(at, 0);
      ghost var n, r := numEntries, ring;
      for i := 0 to numEntries - 1 - at
        invariant Valid() && numEntries == n && ring == Closing(r, at, i)
      {
        CloseStep(r, at, i);
      }
      Closed(old(ring), n, at);
      numEntries := numEntries - 1;
    }

    /** One turn of the removal's loop. */
    method CloseStep(ghost r: seq<ListItem>, at: nat, i: nat)
      requires Valid() && at + 1 + i < |r| == maxEntries && ring == Closing(r, at, i)
      modifies this`ring, entries
      ensures Valid() && ring == Closing(r, at, i + 1)
    {
      ClosingStep(r, at, i);
      ShiftLeft(at + i);
    }

    /** Copies a slot from the next one, around the end of the array. */
    method ShiftLeft(i: nat)
      requires Valid() && i + 1 < maxEntries
      modifies this`ring, entries
      ensures Valid() && ring == old(ring)[i := old(ring)[i + 1]]
    {
      var p := Slot(i);
      Store(i, entries[Modulo(p + 1)]);
    }

    /** Copies a slot to the next one, around the end of the ring. */
    method ShiftRight(i: nat)
      requires Valid() && i < maxEntries
      modifies this`ring, entries
      ensures Valid() && ring == Shifted(old(ring), i)
    {
      var p := Slot(i);
      var q := Modulo(p + 1);
      RotatedStore(entries[..], headPointer, if i + 1 == maxEntries then 0 else i + 1, entries[p]);
      ghost var a := entries[..][q := entries[p]];
      entries[q] := entries[p];
      assert entries[..] == a;
      ring := ring[if i + 1 == maxEntries then 0 else i + 1 := ring[i]];
    }

    method InsertItemAt(at: int, item: ListItem) returns (error: int)
      requires Valid()
      modifies this`numEntries, this`ring, entries
      ensures Valid()
      ensures error == if |old(Contents())| == maxEntries then DATABASE_OVERFLOW
                       else if at < 0 || at > |old(Contents())| then INDEX_OUT_OF_BOUNDS
                       else OK
      ensures Contents() == if error == OK then Inserted(old(Contents()), maxEntries, old(ring)[|old(Contents())|], at, item)
                            else old(Contents())
    {
      if numEntries + 1 > maxEntries {
        return DATABASE_OVERFLOW;
      }
      if at < 0 || at > numEntries {
        return INDEX_OUT_OF_BOUNDS;
      }
      MakeRoom(at);
      InsertDone(old(ring), numEntries, at, item);
      Store(at, item);
      numEntries := numEntries + 1;
      return OK;
    }

    /** The insertion's loop. */
    method MakeRoom(at: nat)
      requires Valid() && at <= numEntries < maxEntries
      modifies this`ring, entries
      ensures Valid() && ring == Room(old(ring), numEntries, at - 1)
    {
      ghost var n, r := numEntries, ring;
      var i := numEntries - at;
      while i >= 0
        invariant Valid() && numEntries == n && -1 <= i <= n - at
        invariant ring == Room(r, n, at + i)
      {
        ShiftRight(at + i);
        i := i - 1;
      }
    }

    /** Removes the first occurrence. */
    method RemoveItem(item: ListItem) returns (removed: ListItem)
      requires Valid()
      modifies this`numEntries, this`ring, entries
      ensures Valid()
      ensures if item in old(Contents())
              then removed == item && Contents() == RemoveAt(old(Contents()), IndexOf(old(Contents()), item))
              else removed == 0 && Contents() == old(Contents())
    {
      for i := 0 to numEntries
        invariant forall k :: 0 <= k < i ==> Contents()[k] != item
      {
        if item == entries[Slot(i)] {
          assert Contents()[i] == item && item !in Contents()[..i];
          removed := RemoveItemAt(i);
          return;
        }
      }
      return 0;
    }
  }
}
