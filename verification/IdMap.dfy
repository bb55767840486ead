/** The allocator of ids (`IDMap`, source/inc/Bitmap.hh): one bit for every id, with the first id at the top of the first
    word, in words of 32 bits. */
module IdMap {
  import opened Numbers

  // ---------- the bits of ids ----------

  lemma ClearedSelf(w: bv32, m: bv32)
    ensures And(Cleared(w, m), m) == 0
  {
  }

  lemma ClearedApart(w: bv32, m: bv32, n: bv32)
    requires m & n == 0
    ensures And(Cleared(w, m), n) == And(w, n)
  {
  }

  lemma JoinedSelf(w: bv32, m: bv32)
    ensures And(Joined(w, m), m) == m
  {
  }

  lemma JoinedApart(w: bv32, m: bv32, n: bv32)
    requires m & n == 0
    ensures And(Joined(w, m), n) == And(w, n)
  {
  }

  /** The bit of the `k`-th id of a word. */
  function IdBit(k: nat): bv32
    requires k < 32
  {
    Bit(31 - k)
  }

  lemma IdBitsApart(k: nat, j: nat)
    requires k < 32 && j < 32 && j != k
    ensures IdBit(k) & IdBit(j) == 0
  {
    BitsApart(31 - k, 31 - j);
  }

  /** Whether the `k`-th id of a word is free. */
  predicate Has(w: bv32, k: nat)
    requires k < 32
  {
    And(w, IdBit(k)) != 0
  }

  lemma ClearId(w: bv32, k: nat, j: nat)
    requires k < 32 && j < 32
    ensures Has(Cleared(w, IdBit(k)), j) <==> j != k && Has(w, j)
  {
    if j == k {
      ClearedSelf(w, IdBit(k));
    } else {
      IdBitsApart(k, j);
      ClearedApart(w, IdBit(k), IdBit(j));
    }
  }

  lemma JoinId(w: bv32, k: nat, j: nat)
    requires k < 32 && j < 32
    ensures Has(Joined(w, IdBit(k)), j) <==> j == k || Has(w, j)
  {
    if j == k {
      JoinedSelf(w, IdBit(k));
      BitNonzero(31 - k);
    } else {
      IdBitsApart(k, j);
      JoinedApart(w, IdBit(k), IdBit(j));
    }
  }

  /** The number of leading zeros, counted from the `k`-th. */
  function LeadingZeros(w: bv32, k: nat): (n: nat)
    requires k <= 32
    ensures k <= n <= 32 && (n < 32 ==> Has(w, n)) && forall j :: k <= j < n ==> !Has(w, j)
    decreases 32 - k
  {
    if k == 32 || Has(w, k) then k else LeadingZeros(w, k + 1)
  }

  // ---------- the bits below a bit ----------

  /** Subtracting one from a single bit sets exactly the bits below it. */
  lemma BelowLess(x: bv32, y: bv32)
    requires Single(x) && Single(y) && y < x
    ensures And(Below(x), y) == y
  {
  }

  lemma BelowSame(x: bv32)
    requires Single(x)
    ensures And(Below(x), x) == 0
  {
  }

  lemma BelowGreater(x: bv32, y: bv32)
    requires Single(x) && Single(y) && x < y
    ensures And(Below(x), y) == 0
  {
  }

  lemma BelowSingle(x: bv32, y: bv32)
    requires Single(x) && Single(y)
    ensures And(Below(x), y) == if y < x then y else 0
  {
    if y < x {
      BelowLess(x, y);
    } else if x < y {
      BelowGreater(x, y);
    } else {
      BelowSame(x);
    }
  }

  lemma ClearedOut(m: bv32, y: bv32)
    requires And(m, y) == y
    ensures And(Cleared(0xffff_ffff, m), y) == 0
  {
  }

  lemma ClearedNot(m: bv32, y: bv32)
    requires And(m, y) == 0
    ensures And(Cleared(0xffff_ffff, m), y) == y
  {
  }

  lemma BelowAt(b: nat, c: nat)
    requires b < 32 && c < 32
    ensures And(Below(Bit(b)), Bit(c)) == if c < b then Bit(c) else 0
  {
    BitSingle(b);
    BitSingle(c);
    if c < b {
      BitsOrdered(c, b);
    } else if c > b {
      BitsOrdered(b, c);
    }
    BelowSingle(Bit(b), Bit(c));
  }

  /** `map[last] &= ~((1ul << b) - 1)` keeps exactly the ids before the last `b`. */
  lemma KeepsFirst(b: nat, k: nat)
    requires b < 32 && k < 32
    ensures Has(Cleared(0xffff_ffff, Below(Bit(b))), k) <==> k < 32 - b
  {
    BelowAt(b, 31 - k);
    BitNonzero(31 - k);
    if 31 - k < b {
      ClearedOut(Below(Bit(b)), IdBit(k));
    } else {
      ClearedNot(Below(Bit(b)), IdBit(k));
    }
  }

  // ---------- the map ----------

  predicate Free(words: seq<bv32>, id: nat) {
    id / 32 < |words| && Has(words[id / 32], id % 32)
  }

  lemma ClearOne(words: seq<bv32>, id: nat, j: nat)
    requires id / 32 < |words|
    ensures Free(words[id / 32 := Cleared(words[id / 32], IdBit(id % 32))], j) <==> j != id && Free(words, j)
  {
    if j / 32 == id / 32 {
      ClearId(words[id / 32], id % 32, j % 32);
    }
  }

  lemma JoinOne(words: seq<bv32>, id: nat, j: nat)
    requires id / 32 < |words|
    ensures Free(words[id / 32 := Joined(words[id / 32], IdBit(id % 32))], j) <==> j == id || Free(words, j)
  {
    if j / 32 == id / 32 {
      JoinId(words[id / 32], id % 32, j % 32);
    }
  }

  lemma AllOnes(k: nat)
    requires k < 32
    ensures Has(0xffff_ffff, k)
  {
    BitNonzero(31 - k);
    OnesKeep(IdBit(k));
  }

  lemma OnesKeep(y: bv32)
    ensures And(0xffff_ffff, y) == y
  {
  }

  /** The first word that is not zero holds the smallest free id, at its first bit. */
  lemma FirstFree(words: seq<bv32>, i: nat)
    requires i < |words| && forall j: nat :: j < 32 * i ==> !Free(words, j)
    ensures var n := LeadingZeros(words[i], 0);
            if n < 32 then Free(words, 32 * i + n) && forall j: nat :: j < 32 * i + n ==> !Free(words, j)
            else forall j: nat :: j < 32 * (i + 1) ==> !Free(words, j)
  {
    var n := LeadingZeros(words[i], 0);
    if n < 32 {
      assert (32 * i + n) / 32 == i && (32 * i + n) % 32 == n;
    }
    forall j: nat | j < 32 * i + n
      ensures !Free(words, j)
    {
      if j >= 32 * i {
        assert j / 32 == i && j % 32 == j - 32 * i;
      }
    }
  }

  /** The bits below a bit. */
  function Lower(b: nat): bv32
    requires b <= 32
  {
    if b == 0 then 0 else Joined(Lower(b - 1), Bit(b - 1))
  }

  lemma LowerStep(x: bv32)
    requires Single(x) && x << 1 != 0
    ensures Joined(Below(x), x) == Below(x << 1)
  {
  }

  lemma {:induction false} LowerIs(b: nat)
    requires b < 32
    ensures Lower(b) == Below(Bit(b))
  {
    if b > 0 {
      LowerIs(b - 1);
      BitSingle(b - 1);
      BitNonzero(b);
      LowerStep(Bit(b - 1));
    }
  }

  lemma AndJoined(x: bv32, m: bv32, n: bv32)
    requires And(x, m) == 0 && And(x, n) == 0
    ensures And(x, Joined(m, n)) == 0
  {
  }

  lemma {:induction false} NoBits(x: bv32, b: nat)
    requires b <= 32 && forall k :: 0 <= k < 32 ==> !Has(x, k)
    ensures And(x, Lower(b)) == 0
  {
    if b > 0 {
      NoBits(x, b - 1);
      assert !Has(x, 32 - b);
      AndJoined(x, Lower(b - 1), Bit(b - 1));
    }
  }

  lemma TopOnes()
    ensures Joined(Below(0x8000_0000), 0x8000_0000) == 0xffff_ffff
  {
  }

  lemma AndOnes(x: bv32)
    requires And(x, 0xffff_ffff) == 0
    ensures x == 0
  {
  }

  /** A word without free ids is zero. */
  lemma NoBitsIsZero(x: bv32)
    requires forall k :: 0 <= k < 32 ==> !Has(x, k)
    ensures x == 0
  {
    NoBits(x, 32);
    LowerIs(31);
    TopBit();
    TopOnes();
    AndOnes(x);
  }

  /** A word keeps all its ids only if nothing is cleared in it. */
  lemma AllKept(m: bv32)
    ensures (forall k :: 0 <= k < 32 ==> Has(Cleared(0xffff_ffff, m), k)) <==> m == 0
  {
    if m == 0 {
      NothingCleared();
      forall k | 0 <= k < 32
        ensures Has(Cleared(0xffff_ffff, m), k)
      {
        AllOnes(k);
      }
    } else if forall k :: 0 <= k < 32 ==> !Has(m, k) {
      NoBitsIsZero(m);
      assert false;
    } else {
      var k :| 0 <= k < 32 && Has(m, k);
      BitSingle(31 - k);
      InsideSingle(m, IdBit(k));
      ClearedOut(m, IdBit(k));
      assert !Has(Cleared(0xffff_ffff, m), k);
    }
  }

  lemma NothingCleared()
    ensures Cleared(0xffff_ffff, 0) == 0xffff_ffff
  {
  }

  lemma InsideSingle(m: bv32, y: bv32)
    requires Single(y) && And(m, y) != 0
    ensures And(m, y) == y
  {
  }

  lemma BelowOne(x: bv32)
    ensures Below(x) == 0 <==> x == 1
  {
  }

  /** What the constructor stores. */
  function Initial(ids: nat, shiftedOut: bv32): (words: seq<bv32>)
    requires ids > 0
    ensures |words| == (ids + 31) / 32
  {
    var n := (ids + 31) / 32;
    var shifted := if ids % 32 == 0 then shiftedOut else Bit(32 - ids % 32);
    seq(n, _ => 0xffff_ffff)[n - 1 := Cleared(0xffff_ffff, Below(shifted))]
  }

  lemma InitialFree(ids: nat, shiftedOut: bv32, id: nat)
    requires ids > 0 && (id / 32 != (ids + 31) / 32 - 1 || ids % 32 != 0)
    ensures Free(Initial(ids, shiftedOut), id) <==> id < ids
  {
    var last := (ids + 31) / 32 - 1;
    if id / 32 < last {
      AllOnes(id % 32);
    } else if id / 32 == last {
      KeepsFirst(32 - ids % 32, id % 32);
    }
  }

  /** The map starts with all its ids and no others exactly when its last word is not full or the shift gives 1. */
  lemma InitialExact(ids: nat, shiftedOut: bv32)
    requires ids > 0
    ensures (forall id: nat :: Free(Initial(ids, shiftedOut), id) <==> id < ids) <==> ids % 32 != 0 || shiftedOut == 1
  {
    var words, last := Initial(ids, shiftedOut), (ids + 31) / 32 - 1;
    if ids % 32 == 0 {
      AllKept(Below(shiftedOut));
      BelowOne(shiftedOut);
      if shiftedOut != 1 {
        var k :| 0 <= k < 32 && !Has(Cleared(0xffff_ffff, Below(shiftedOut)), k);
        assert (32 * last + k) / 32 == last && (32 * last + k) % 32 == k;
        assert !Free(words, 32 * last + k);
      }
    }
    forall id: nat | ids % 32 != 0 || shiftedOut == 1
      ensures Free(words, id) <==> id < ids
    {
      if id / 32 == last && ids % 32 == 0 {
        assert Has(Cleared(0xffff_ffff, Below(shiftedOut)), id % 32);
      } else {
        InitialFree(ids, shiftedOut, id);
      }
    }
  }

  /** Where the shift gives 0, a map of 32 ids starts with none of them. */
  lemma InitialWitness(id: nat)
    ensures !Free(Initial(32, 0), id)
  {
    assert Initial(32, 0)[0] == Cleared(0xffff_ffff, Below(0));
    AllGone();
    if id / 32 == 0 {
      NoneInZero(id % 32);
    }
  }

  lemma AllGone()
    ensures Cleared(0xffff_ffff, Below(0)) == 0
  {
  }

  lemma NoneInZero(k: nat)
    requires k < 32
    ensures !Has(0, k)
  {
  }

  // ---------- what the operations do to the set of free ids ----------

  /** The smallest free id, or -1 exactly when there is none. */
  predicate IsNext(free: set<nat>, id: int) {
    if free == {} then id == -1 else id in free && forall k :: k in free ==> id <= k
  }

  datatype Event = Next(result: int) | Freed(id: nat) | Invalidated(id: nat)

  /** One call on a map of `ids` ids, and the free ids before and after it. */
  predicate Step(ids: nat, before: set<nat>, event: Event, after: set<nat>) {
    match event
    case Next(result) => IsNext(before, result) && after == before - {result}
    case Freed(id) => after == if id < ids then before + {id} else before
    case Invalidated(id) => after == if id < ids then before - {id} else before
  }

  predicate Run(ids: nat, states: seq<set<nat>>, events: seq<Event>) {
    && |states| == |events| + 1
    && (forall id :: id in states[0] ==> id < ids)
    && forall i :: 0 <= i < |events| ==> Step(ids, states[i], events[i], states[i + 1])
  }

  /** Only ids of the map are ever free. */
  lemma {:induction false} RunInRange(ids: nat, states: seq<set<nat>>, events: seq<Event>, n: nat)
    requires Run(ids, states, events) && n < |states|
    ensures forall id :: id in states[n] ==> id < ids
  {
    if n > 0 {
      RunInRange(ids, states, events, n - 1);
      assert Step(ids, states[n - 1], events[n - 1], states[n]);
    }
  }

  /** An id that is not free stays so until it is freed. */
  lemma {:induction false} StaysTaken(ids: nat, states: seq<set<nat>>, events: seq<Event>, id: nat, i: nat, j: nat)
    requires Run(ids, states, events) && i <= j < |states| && id !in states[i]
    requires forall k :: i <= k < j ==> events[k] != Freed(id)
    ensures id !in states[j]
    decreases j
  {
    if i < j {
      StaysTaken(ids, states, events, id, i, j - 1);
      assert Step(ids, states[j - 1], events[j - 1], states[j]);
    }
  }

  /** An id of the map that was freed, and not handed out or invalidated since, is free. */
  lemma {:induction false} FreedIsFree(ids: nat, states: seq<set<nat>>, events: seq<Event>, id: nat, i: nat, j: nat)
    requires Run(ids, states, events) && i < j < |states| && events[i] == Freed(id) && id < ids
    requires forall k :: i < k < j ==> events[k] != Next(id) && events[k] != Invalidated(id)
    ensures id in states[j]
    decreases j
  {
    assert Step(ids, states[j - 1], events[j - 1], states[j]);
    if i < j - 1 {
      FreedIsFree(ids, states, events, id, i, j - 1);
    }
  }

  /** Hand-outs alone, from a complete map on, give the ids in order, and then none. */
  lemma {:induction false} HandOutsCount(ids: nat, states: seq<set<nat>>, events: seq<Event>, n: nat)
    requires Run(ids, states, events) && n <= |events| && forall k :: 0 <= k < |events| ==> events[k].Next?
    requires forall id: nat :: id in states[0] <==> id < ids
    ensures forall id: nat :: id in states[n] <==> n <= id < ids
    ensures forall k :: 0 <= k < n ==> events[k] == Next(if k < ids then k else -1)
  {
    if n > 0 {
      HandOutsCount(ids, states, events, n - 1);
      assert Step(ids, states[n - 1], events[n - 1], states[n]);
      if n - 1 < ids {
        assert n - 1 in states[n - 1];
      }
    }
  }

  /** In any run, an id that is handed out twice was freed in between, and lies in the range of the map. */
  lemma HandedOutOnce(ids: nat, states: seq<set<nat>>, events: seq<Event>, id: nat, i: nat, j: nat)
    requires Run(ids, states, events) && i < j < |events| && events[i] == events[j] == Next(id)
    ensures id < ids && exists k :: i < k < j && events[k] == Freed(id)
  {
    assert Step(ids, states[i], events[i], states[i + 1]) && Step(ids, states[j], events[j], states[j + 1]);
    RunInRange(ids, states, events, i);
    if forall k :: i < k < j ==> events[k] != Freed(id) {
      StaysTaken(ids, states, events, id, i + 1, j);
      assert false;
    }
  }

  // ---------- the map of bits ----------

  class IDMap {
    const IDs: nat
    const words: array<bv32>
    /** The ids that may be handed out. */
    ghost var free: set<nat>

    ghost predicate Valid()
      reads this, words
    {
      && IDs > 0 && words.Length == (IDs + 31) / 32
      && forall id: nat :: id in free <==> Free(words[..], id)
    }

    /** The constructor shifts by the whole word size when no id of the last word is to be removed. What such a shift gives
        differs between processors, so it is a parameter here. */
    constructor (ids: nat, shiftedOut: bv32)
      requires ids > 0
      ensures Valid() && fresh(words) && IDs == ids && words[..] == Initial(ids, shiftedOut)
      ensures (forall id: nat :: id in free <==> id < ids) <==> ids % 32 != 0 || shiftedOut == 1
    {
      IDs := ids;
      words := new bv32[(ids + 31) / 32](_ => 0xffff_ffff);
      new;
      var lastIds := ids % 32;
      var last := (ids + 31) / 32 - 1;
      var shifted := if lastIds == 0 then shiftedOut else Bit(32 - lastIds);
      words[last] := Cleared(words[last], Below(shifted));
      assert words[..] == Initial(ids, shiftedOut);
      InitialExact(ids, shiftedOut);
      free := set id: nat | id < 32 * words.Length && Free(words[..], id);
    }

    method GetNextID() returns (id: int)
      requires Valid()
      modifies this`free, words
      ensures Valid() && Step(IDs, old(free), Next(id), free)
    {
      id := -1;
      for i := 0 to words.Length
        invariant Valid() && free == old(free)
        invariant forall j: nat :: j < 32 * i ==> !Free(words[..], j)
      {
        var freeindex := LeadingZeros(words[i], 0);
        FirstFree(words[..], i);
        if freeindex < 32 {
          id := freeindex + i * 32;
          Take(id);
          return;
        }
      }
      assert forall j: nat :: !Free(words[..], j);
      assert free == {};
    }

    /** Marks an id as used. */
    method Take(id: nat)
      requires Valid() && id / 32 < words.Length
      modifies this`free, words
      ensures Valid() && free == old(free) - {id}
    {
      ClearAll(words[..], id);
      ghost var after := words[..][id / 32 := Cleared(words[id / 32], IdBit(id % 32))];
      words[id / 32] := Cleared(words[id / 32], IdBit(id % 32));
      assert words[..] == after;
      free := free - {id};
    }

    method InvalidateID(id: nat)
      requires Valid()
      modifies this`free, words
      ensures Valid() && Step(IDs, old(free), Invalidated(id), free)
    {
      if id >= IDs {
        return;
      }
      Take(id);
    }

    method FreeID(id: nat)
      requires Valid()
      modifies this`free, words
      ensures Valid() && Step(IDs, old(free), Freed(id), free)
    {
      if id >= IDs {
        return;
      }
      JoinAll(words[..], id);
      ghost var after := words[..][id / 32 := Joined(words[id / 32], IdBit(id % 32))];
      words[id / 32] := Joined(words[id / 32], IdBit(id % 32));
      assert words[..] == after;
      free := free + {id};
    }
  }

  lemma ClearAll(words: seq<bv32>, id: nat)
    requires id / 32 < |words|
    ensures forall j: nat :: Free(words[id / 32 := Cleared(words[id / 32], IdBit(id % 32))], j) <==> j != id && Free(words, j)
  {
    forall j: nat
      ensures Free(words[id / 32 := Cleared(words[id / 32], IdBit(id % 32))], j) <==> j != id && Free(words, j)
    {
      ClearOne(words, id, j);
    }
  }

  lemma JoinAll(words: seq<bv32>, id: nat)
    requires id / 32 < |words|
    ensures forall j: nat :: Free(words[id / 32 := Joined(words[id / 32], IdBit(id % 32))], j) <==> j == id || Free(words, j)
  {
    forall j: nat
      ensures Free(words[id / 32 := Joined(words[id / 32], IdBit(id % 32))], j) <==> j == id || Free(words, j)
    {
      JoinOne(words, id, j);
    }
  }
}
