/** The order of the cache list: it is the order of last use, and that decides which accesses miss. */
module CacheOrder {
  import opened Collections
  import opened LinkedLists
  import opened BlockCache
  import opened CacheRuns

  /** A block of a partition. */
  type Key = (Partition, nat)

  function KeyOf(r: Request): Key
    requires r.part.sectorsPerBlock > 0
  {
    (r.part, BlockOf(r.part, r.sector))
  }

  function Label(s: Slot): Option<Key> {
    if s.part == null then None else Some((s.part as Partition, s.block))
  }

  function Labels(slots: seq<Slot>): (l: seq<Option<Key>>)
    ensures |l| == |slots|
    ensures forall i {:trigger l[i]} :: 0 <= i < |slots| ==> l[i] == Label(slots[i])
  {
    seq(|slots|, i requires 0 <= i < |slots| => Label(slots[i]))
  }

  /** The distinct keys of a trace, most recently used first. */
  function Recency(trace: seq<Key>): seq<Key> {
    if trace == [] then []
    else [trace[|trace| - 1]] + Without(Recency(trace[..|trace| - 1]), trace[|trace| - 1])
  }

  lemma {:induction false} RecencyElements(trace: seq<Key>)
    ensures Distinct(Recency(trace))
    ensures forall k :: k in Recency(trace) <==> k in trace
  {
    if trace != [] {
      var n := |trace| - 1;
      RecencyElements(trace[..n]);
      var rest := Without(Recency(trace[..n]), trace[n]);
      WithoutElements(Recency(trace[..n]), trace[n]);
      InsertAtElements(rest, 0, trace[n]);
      assert Recency(trace) == InsertAt(rest, 0, trace[n]) && trace == trace[..n] + [trace[n]];
      forall k ensures k in Recency(trace) <==> k in trace {
        assert k in trace <==> k in trace[..n] || k == trace[n];
        assert k in Recency(trace) <==> k in rest || k == trace[n];
      }
    }
  }

  /** The first five of a recency list, with unused slots behind. */
  function Top(r: seq<Key>): (l: seq<Option<Key>>)
    ensures |l| == CACHED_BLOCKS
    ensures forall i {:trigger l[i]} :: 0 <= i < CACHED_BLOCKS ==> l[i] == if i < |r| then Some(r[i]) else None
  {
    seq(CACHED_BLOCKS, i requires 0 <= i < CACHED_BLOCKS => if i < |r| then Some(r[i]) else None)
  }

  /** What counts for the order of the list and the marks of its slots: a successful access to a block, which stores a value
      or not, and a flush. */
  datatype Event = Use(key: Key, stores: bool) | Flushed(part: Partition)

  /** What a step adds to a trace. */
  function Touch(s: Step, a: Answer): seq<Event>
    requires s.Do? ==> s.request.part.sectorsPerBlock > 0
  {
    match s
    case Do(r) => if a.Ok? then [Use(KeyOf(r), r.value.Some?)] else []
    case FlushOf(p, _) => [Flushed(p)]
  }

  /** The trace of a run. */
  function Touched(steps: seq<Step>, answers: seq<Answer>, spb: nat): seq<Event>
    requires |steps| == |answers| && spb > 0 && StepsSized(steps, spb)
  {
    if steps == [] then []
    else
      var n := |steps| - 1;
      assert StepsSized(steps[n..], spb);
      Touched(steps[..n], answers[..n], spb) + Touch(steps[n], answers[n])
  }

  /** The keys used, in order. */
  function Keys(trace: seq<Event>): seq<Key> {
    if trace == [] then []
    else
      var n := |trace| - 1;
      Keys(trace[..n]) + if trace[n].Use? then [trace[n].key] else []
  }

  lemma KeysSnoc(trace: seq<Event>, e: Event)
    ensures Keys(trace + [e]) == Keys(trace) + if e.Use? then [e.key] else []
  {
    assert (trace + [e])[..|trace|] == trace;
  }

  /** `initialize` leaves every slot unused. */
  predicate Unused(w: World) {
    |w.slots| == CACHED_BLOCKS && forall i :: 0 <= i < CACHED_BLOCKS ==> w.slots[i].part == null
  }

  /** The labels after a successful access: its block first, the others in their old order, the last one dropped
      if the block was not there. */
  lemma AccessLabels(w: World, r: Request)
    requires |w.slots| == CACHED_BLOCKS && r.part.sectorsPerBlock > 0 && Sized(w.slots, r.part.sectorsPerBlock) && r.fetch.Done?
    ensures var (v, a) := Access(w, r);
            var k := Find(w.slots, r.part, BlockOf(r.part, r.sector));
            if a.Error? then v.slots == w.slots
            else Labels(v.slots) == [Some(KeyOf(r))] + RemoveAt(Labels(w.slots), if k < |w.slots| then k else CACHED_BLOCKS - 1)
  {
  }

  lemma FindLabel(slots: seq<Slot>, recent: seq<Key>, key: Key)
    requires |slots| == CACHED_BLOCKS && Labels(slots) == Top(recent) && Distinct(recent)
    ensures var k := Find(slots, key.0, key.1);
            if key in recent && IndexOf(recent, key) < CACHED_BLOCKS then k == IndexOf(recent, key) else k == |slots|
  {
    var k := Find(slots, key.0, key.1);
    assert forall i :: 0 <= i < |slots| ==> (Labels(slots)[i] == Some(key) <==> slots[i].part == key.0 && slots[i].block == key.1);
    if key in recent && IndexOf(recent, key) < CACHED_BLOCKS {
      assert Labels(slots)[IndexOf(recent, key)] == Some(key);
    }
  }

  lemma TopFront(recent: seq<Key>, key: Key, i: nat)
    requires i < |recent|
    ensures Top([key] + RemoveAt(recent, i))
            == [Some(key)] + RemoveAt(Top(recent), if i < CACHED_BLOCKS then i else CACHED_BLOCKS - 1)
  {
  }

  lemma TopNew(recent: seq<Key>, key: Key)
    ensures Top([key] + recent) == [Some(key)] + RemoveAt(Top(recent), CACHED_BLOCKS - 1)
  {
  }

  /** One more use of a key: the recency list moves it to the front, and its first five follow. */
  lemma TopStep(recent: seq<Key>, key: Key)
    requires Distinct(recent)
    ensures var k := if key in recent && IndexOf(recent, key) < CACHED_BLOCKS then IndexOf(recent, key) else CACHED_BLOCKS - 1;
            Top([key] + Without(recent, key)) == [Some(key)] + RemoveAt(Top(recent), k)
  {
    if key in recent {
      WithoutAt(recent, IndexOf(recent, key));
      TopFront(recent, key, IndexOf(recent, key));
    } else {
      WithoutAbsent(recent, key);
      TopNew(recent, key);
    }
  }

  lemma UsedOrder(w: World, r: Request, keys: seq<Key>)
    requires |w.slots| == CACHED_BLOCKS && r.part.sectorsPerBlock > 0 && Sized(w.slots, r.part.sectorsPerBlock) && r.fetch.Done?
    requires Labels(w.slots) == Top(Recency(keys)) && Access(w, r).1.Ok?
    ensures Labels(Access(w, r).0.slots) == Top(Recency(keys + [KeyOf(r)]))
  {
    var key := KeyOf(r);
    AccessLabels(w, r);
    RecencyElements(keys);
    FindLabel(w.slots, Recency(keys), key);
    TopStep(Recency(keys), key);
    assert (keys + [key])[..|keys|] == keys;
  }

  lemma PerformOrder(w: World, s: Step, trace: seq<Event>, parts: set<Partition>)
    requires |w.slots| == CACHED_BLOCKS && StepSized(w, s) && LegalStep(s, parts)
    requires Labels(w.slots) == Top(Recency(Keys(trace)))
    ensures var (v, a) := Perform(w, s);
            Labels(v.slots) == Top(Recency(Keys(trace + Touch(s, a))))
  {
    var (v, a) := Perform(w, s);
    if s.Do? && a.Error? {
      AccessLabels(w, s.request);
      assert trace + [] == trace;
    } else if s.Do? {
      UsedOrder(w, s.request, Keys(trace));
      KeysSnoc(trace, Use(KeyOf(s.request), s.request.value.Some?));
    } else {
      KeysSnoc(trace, Flushed(s.part));
      assert Labels(v.slots) == Labels(w.slots) && Keys(trace) + [] == Keys(trace);
    }
  }

  /** After every run from an empty cache, the list is the last five distinct blocks in order of last use. */
  lemma {:induction false} RunOrder(w: World, steps: seq<Step>, parts: set<Partition>, spb: nat)
    requires Unused(w) && spb > 0 && Sized(w.slots, spb) && StepsSized(steps, spb) && LegalSteps(steps, parts)
    ensures var (v, answers) := Exec(w, steps, spb);
            Labels(v.slots) == Top(Recency(Keys(Touched(steps, answers, spb))))
  {
    if steps != [] {
      var n := |steps| - 1;
      var (v, before) := Exec(w, steps[..n], spb);
      RunOrder(w, steps[..n], parts, spb);
      assert LegalStep(steps[n], parts) && StepsSized(steps[n..], spb);
      PerformOrder(v, steps[n], Touched(steps[..n], before, spb), parts);
      var answers := Exec(w, steps, spb).1;
      assert answers[..n] == before;
    }
  }

  /** The keys used since the last use of `key`. */
  function Since(trace: seq<Key>, key: Key): set<Key> {
    if trace == [] || trace[|trace| - 1] == key then {}
    else Since(trace[..|trace| - 1], key) + {trace[|trace| - 1]}
  }

  /** The keys in front of `key` in a list. */
  function Ahead(r: seq<Key>, key: Key): set<Key> {
    if r == [] || r[0] == key then {} else {r[0]} + Ahead(r[1..], key)
  }

  lemma {:induction false} AheadCount(r: seq<Key>, key: Key)
    requires Distinct(r) && key in r
    ensures |Ahead(r, key)| == IndexOf(r, key)
    ensures forall k :: k in Ahead(r, key) ==> k in r
  {
    if r[0] != key {
      AheadCount(r[1..], key);
      assert r[0] !in r[1..];
    }
  }

  lemma {:induction false} AheadWithout(r: seq<Key>, x: Key, key: Key)
    requires Distinct(r) && key in r && x != key
    ensures Ahead(Without(r, x), key) == Ahead(r, key) - {x}
  {
    if r[0] == x {
      if x in Ahead(r[1..], key) {
        AheadCount(r[1..], key);
      }
    } else if r[0] != key {
      AheadWithout(r[1..], x, key);
      assert Without(r, x)[1..] == Without(r[1..], x);
    }
  }

  /** A key stands in the recency list behind exactly the keys used since its last use. */
  lemma {:induction false} RecencyRank(trace: seq<Key>, key: Key)
    requires key in trace
    ensures Ahead(Recency(trace), key) == Since(trace, key)
  {
    var n := |trace| - 1;
    if trace[n] != key {
      RecencyRank(trace[..n], key);
      RecencyElements(trace[..n]);
      AheadWithout(Recency(trace[..n]), trace[n], key);
      assert Recency(trace)[1..] == Without(Recency(trace[..n]), trace[n]);
    }
  }

  /** A block is in the cache: it was used, and at most four others were used since. */
  predicate Cached(keys: seq<Key>, key: Key) {
    key in keys && |Since(keys, key)| < CACHED_BLOCKS
  }

  lemma FoundExactly(slots: seq<Slot>, keys: seq<Key>, key: Key)
    requires |slots| == CACHED_BLOCKS && Labels(slots) == Top(Recency(keys))
    ensures Find(slots, key.0, key.1) < |slots| <==> Cached(keys, key)
  {
    RecencyElements(keys);
    FindLabel(slots, Recency(keys), key);
    if key in keys {
      RecencyRank(keys, key);
      AheadCount(Recency(keys), key);
    }
  }

  /** An access to a block used before misses exactly when at least five other blocks were used since; an access
      to a block never used misses. */
  lemma MissExactly(w: World, steps: seq<Step>, r: Request, parts: set<Partition>, spb: nat)
    requires Unused(w) && spb > 0 && Sized(w.slots, spb) && StepsSized(steps, spb) && LegalSteps(steps, parts)
    requires r.part.sectorsPerBlock == spb
    ensures var (v, answers) := Exec(w, steps, spb);
            Find(v.slots, r.part, BlockOf(r.part, r.sector)) == |v.slots| <==> !Cached(Keys(Touched(steps, answers, spb)), KeyOf(r))
  {
    RunOrder(w, steps, parts, spb);
    var (v, answers) := Exec(w, steps, spb);
    FoundExactly(v.slots, Keys(Touched(steps, answers, spb)), KeyOf(r));
  }

  // ---------- which slots are modified ----------

  /** A value was stored in the block since it was last fetched or flushed. */
  predicate Pending(trace: seq<Event>, key: Key) {
    if trace == [] then false
    else
      var before := trace[..|trace| - 1];
      match trace[|trace| - 1]
      case Use(k, stores) =>
        if k == key then stores || (Cached(Keys(before), key) && Pending(before, key)) else Pending(before, key)
      case Flushed(p) => p != key.0 && Pending(before, key)
  }

  /** The marks of the used slots tell which of their blocks have such a value. */
  predicate Marked(slots: seq<Slot>, trace: seq<Event>) {
    forall i :: 0 <= i < |slots| && Label(slots[i]).Some? ==> (slots[i].modified <==> Pending(trace, Label(slots[i]).value))
  }

  /** The slots after a successful access: its own first, and marked if it stores or was marked; the others as they were. */
  lemma AccessSlots(w: World, r: Request)
    requires |w.slots| == CACHED_BLOCKS && r.part.sectorsPerBlock > 0 && Sized(w.slots, r.part.sectorsPerBlock) && r.fetch.Done?
    ensures var (v, a) := Access(w, r);
            var k := Find(w.slots, r.part, BlockOf(r.part, r.sector));
            if a.Error? then v.slots == w.slots
            else
              && |v.slots| == |w.slots| && Label(v.slots[0]) == Some(KeyOf(r))
              && (v.slots[0].modified <==> r.value.Some? || (k < |w.slots| && w.slots[k].modified))
              && v.slots[1..] == RemoveAt(w.slots, if k < |w.slots| then k else CACHED_BLOCKS - 1)
  {
  }

  lemma PendingUse(trace: seq<Event>, used: Key, stores: bool, key: Key)
    ensures Pending(trace + [Use(used, stores)], key) <==>
            if used == key then stores || (Cached(Keys(trace), key) && Pending(trace, key)) else Pending(trace, key)
  {
    assert (trace + [Use(used, stores)])[..|trace|] == trace;
  }

  lemma PendingFlush(trace: seq<Event>, p: Partition, key: Key)
    ensures Pending(trace + [Flushed(p)], key) <==> p != key.0 && Pending(trace, key)
  {
    assert (trace + [Flushed(p)])[..|trace|] == trace;
  }

  /** No two slots have the same label, and only the slot found has that of the block looked for. */
  lemma OtherLabel(slots: seq<Slot>, keys: seq<Key>, key: Key, k: nat, i: nat)
    requires |slots| == CACHED_BLOCKS && Labels(slots) == Top(Recency(keys)) && i < |slots|
    requires k == Find(slots, key.0, key.1) && i != k
    ensures Label(slots[i]) != Some(key)
  {
    RecencyElements(keys);
    assert Labels(slots)[i] == Label(slots[i]) && (k < |slots| ==> Labels(slots)[k] == Label(slots[k]));
  }

  lemma UsedMarks(w: World, r: Request, trace: seq<Event>)
    requires |w.slots| == CACHED_BLOCKS && r.part.sectorsPerBlock > 0 && Sized(w.slots, r.part.sectorsPerBlock) && r.fetch.Done?
    requires Labels(w.slots) == Top(Recency(Keys(trace))) && Marked(w.slots, trace) && Access(w, r).1.Ok?
    ensures Marked(Access(w, r).0.slots, trace + [Use(KeyOf(r), r.value.Some?)])
  {
    AccessSlots(w, r);
    FrontMarks(w.slots, Access(w, r).0.slots, KeyOf(r), r.value.Some?, trace);
  }

  lemma FrontMarks(s: seq<Slot>, t: seq<Slot>, key: Key, stores: bool, trace: seq<Event>)
    requires |s| == |t| == CACHED_BLOCKS && Labels(s) == Top(Recency(Keys(trace))) && Marked(s, trace)
    requires Label(t[0]) == Some(key)
    requires var k := Find(s, key.0, key.1);
             && (t[0].modified <==> stores || (k < |s| && s[k].modified))
             && t[1..] == RemoveAt(s, if k < |s| then k else CACHED_BLOCKS - 1)
    ensures Marked(t, trace + [Use(key, stores)])
  {
    var k := Find(s, key.0, key.1);
    var gone := if k < |s| then k else CACHED_BLOCKS - 1;
    FoundExactly(s, Keys(trace), key);
    forall i | 0 <= i < |t| && Label(t[i]).Some?
      ensures t[i].modified <==> Pending(trace + [Use(key, stores)], Label(t[i]).value)
    {
      PendingUse(trace, key, stores, Label(t[i]).value);
      if i > 0 {
        var j := if i - 1 < gone then i - 1 else i;
        assert t[i] == t[1..][i - 1] == s[j];
        OtherLabel(s, Keys(trace), key, k, j);
      }
    }
  }

  lemma FlushMarks(w: World, p: Partition, outcomes: seq<Outcome>, trace: seq<Event>)
    requires |w.slots| == |outcomes| && Marked(w.slots, trace)
    ensures Marked(Flush(w, p, outcomes).slots, trace + [Flushed(p)])
  {
    var t := Flush(w, p, outcomes).slots;
    forall i | 0 <= i < |t| && Label(t[i]).Some?
      ensures t[i].modified <==> Pending(trace + [Flushed(p)], Label(t[i]).value)
    {
      PendingFlush(trace, p, Label(t[i]).value);
      assert Label(t[i]) == Label(w.slots[i]);
    }
  }

  lemma PerformMarks(w: World, s: Step, trace: seq<Event>, parts: set<Partition>)
    requires |w.slots| == CACHED_BLOCKS && StepSized(w, s) && LegalStep(s, parts)
    requires Labels(w.slots) == Top(Recency(Keys(trace))) && Marked(w.slots, trace)
    ensures var (v, a) := Perform(w, s);
            Marked(v.slots, trace + Touch(s, a))
  {
    var (v, a) := Perform(w, s);
    if s.Do? && a.Error? {
      AccessLabels(w, s.request);
      assert trace + [] == trace;
    } else if s.Do? {
      UsedMarks(w, s.request, trace);
    } else {
      FlushMarks(w, s.part, s.outcomes, trace);
    }
  }

  /** After every run from an empty cache a slot is marked as modified exactly when a value was stored in its block since the
      block was last fetched or flushed. */
  lemma {:induction false} RunMarks(w: World, steps: seq<Step>, parts: set<Partition>, spb: nat)
    requires Unused(w) && spb > 0 && Sized(w.slots, spb) && StepsSized(steps, spb) && LegalSteps(steps, parts)
    ensures var (v, answers) := Exec(w, steps, spb);
            Marked(v.slots, Touched(steps, answers, spb))
  {
    if steps != [] {
      var n := |steps| - 1;
      var (v, before) := Exec(w, steps[..n], spb);
      RunMarks(w, steps[..n], parts, spb);
      RunOrder(w, steps[..n], parts, spb);
      assert LegalStep(steps[n], parts) && StepsSized(steps[n..], spb);
      PerformMarks(v, steps[n], Touched(steps[..n], before, spb), parts);
      var answers := Exec(w, steps, spb).1;
      assert answers[..n] == before;
    }
  }

  /** An access to the block takes the place of one that is still to be written back: the fifth in order of last use. */
  predicate Displaces(trace: seq<Event>, key: Key) {
    var recent := Recency(Keys(trace));
    !Cached(Keys(trace), key) && |recent| >= CACHED_BLOCKS && Pending(trace, recent[CACHED_BLOCKS - 1])
  }

  /** What an access does to the devices: it writes a block back exactly if it displaces one that has to be, and fails exactly
      if that write does. */
  ghost predicate WritesBack(v: World, r: Request, displaces: bool)
    requires |v.slots| == CACHED_BLOCKS && r.part.sectorsPerBlock > 0 && Sized(v.slots, r.part.sectorsPerBlock)
  {
    var (u, a) := Access(v, r);
    var last := v.slots[CACHED_BLOCKS - 1];
    && (a.Error? <==> displaces && r.writeBack.Failed?) && (a.Error? ==> a.error == r.writeBack.error)
    && (displaces ==> last.part != null && u.disk == WriteBack(v.disk, last, r.writeBack))
    && (!displaces ==> u.disk == v.disk)
  }

  lemma AccessWrites(v: World, r: Request, trace: seq<Event>)
    requires |v.slots| == CACHED_BLOCKS && r.part.sectorsPerBlock > 0 && Sized(v.slots, r.part.sectorsPerBlock) && r.fetch.Done?
    requires Labels(v.slots) == Top(Recency(Keys(trace))) && Marked(v.slots, trace)
    ensures WritesBack(v, r, Displaces(trace, KeyOf(r)))
  {
    FoundExactly(v.slots, Keys(trace), KeyOf(r));
    assert Labels(v.slots)[CACHED_BLOCKS - 1] == Label(v.slots[CACHED_BLOCKS - 1]);
  }

  /** After every run from an empty cache an access writes to a device exactly if it misses and the block in the last place has
      a value stored since it was last fetched or flushed. */
  lemma WritesExactly(w: World, steps: seq<Step>, r: Request, parts: set<Partition>, spb: nat)
    requires Unused(w) && spb > 0 && Sized(w.slots, spb) && StepsSized(steps, spb) && LegalSteps(steps, parts)
    requires r.part.sectorsPerBlock == spb && r.fetch.Done?
    ensures var (v, answers) := Exec(w, steps, spb);
            WritesBack(v, r, Displaces(Touched(steps, answers, spb), KeyOf(r)))
  {
    RunOrder(w, steps, parts, spb);
    RunMarks(w, steps, parts, spb);
    var (v, answers) := Exec(w, steps, spb);
    AccessWrites(v, r, Touched(steps, answers, spb));
  }
}
