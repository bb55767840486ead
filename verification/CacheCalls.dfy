/** Runs of whole calls of `readSectors`, `writeSectors` and `flushCache` (source/filesystem/Partition.cc): they are runs of
    the accesses and flushes that they are made of, so what holds of all those runs holds of these. */
module CacheCalls {
  import opened Collections
  import opened Words
  import opened LinkedLists
  import opened BlockCache
  import opened CacheRuns
  import opened CacheOrder

  /** One call: a transfer, with no values where it reads and the values of its buffer where it writes, or a flush. */
  datatype Call =
    | TransferOf(part: Partition, start: nat, values: seq<Option<Sector>>, faults: seq<Fault>)
    | FlushCall(part: Partition, outcomes: seq<Outcome>)

  predicate CallSized(c: Call, spb: nat) {
    match c
    case TransferOf(p, _, values, faults) => p.sectorsPerBlock == spb && |values| == |faults|
    case FlushCall(_, outcomes) => |outcomes| == CACHED_BLOCKS
  }

  predicate CallsSized(calls: seq<Call>, spb: nat) {
    forall i :: 0 <= i < |calls| ==> CallSized(calls[i], spb)
  }

  /** A call on one of the partitions, whose device reads and flush writes succeed, and whose bounds do not wrap around. */
  ghost predicate LegalCall(c: Call, parts: set<Partition>) {
    match c
    case TransferOf(p, start, values, faults) =>
      && p in parts && start + |values| < UNINT4_RANGE
      && forall j :: 0 <= j < |faults| ==> faults[j].fetch.Done?
    case FlushCall(p, outcomes) => LegalStep(FlushOf(p, outcomes), parts)
  }

  /** What a call returns. */
  datatype Reply = Reply(code: int, buffer: seq<Option<Sector>>)

  function PerformCall(w: World, c: Call, spb: nat): (World, Reply)
    requires |w.slots| == CACHED_BLOCKS && spb > 0 && Sized(w.slots, spb) && CallSized(c, spb)
  {
    match c
    case TransferOf(p, start, values, faults) =>
      var (v, code, outs) := Transfer(w, p, start, values, faults);
      (v, Reply(code, outs))
    case FlushCall(p, outcomes) => (Flush(w, p, outcomes), Reply(OK, []))
  }

  // ---------- a call as a run of steps ----------

  function RequestAt(p: Partition, start: nat, values: seq<Option<Sector>>, faults: seq<Fault>, i: nat): Request
    requires i < |values| == |faults|
  {
    Request(p, SectorNumber(start, i), values[i], faults[i].writeBack, faults[i].fetch)
  }

  /** The accesses that a transfer makes from its `i`-th sector on: all, or up to the first that fails. */
  function TransferSteps(w: World, p: Partition, start: nat, values: seq<Option<Sector>>, faults: seq<Fault>, i: nat): seq<Step>
    requires p.sectorsPerBlock > 0 && Sized(w.slots, p.sectorsPerBlock) && |w.slots| > 0 && i <= |values| == |faults|
    decreases |values| - i
  {
    if i == |values| then []
    else
      var r := RequestAt(p, start, values, faults, i);
      var (v, a) := Access(w, r);
      AccessSized(w, r);
      [Do(r)] + if a.Error? then [] else TransferSteps(v, p, start, values, faults, i + 1)
  }

  function CallSteps(w: World, c: Call, spb: nat): seq<Step>
    requires |w.slots| == CACHED_BLOCKS && spb > 0 && Sized(w.slots, spb) && CallSized(c, spb)
  {
    match c
    case TransferOf(p, start, values, faults) =>
      if InBounds(p, start, |values|) then TransferSteps(w, p, start, values, faults, 0) else []
    case FlushCall(p, outcomes) => [FlushOf(p, outcomes)]
  }

  /** A cache of five slots for blocks of `spb` sectors. */
  predicate Ready(w: World, spb: nat) {
    |w.slots| == CACHED_BLOCKS && spb > 0 && Sized(w.slots, spb)
  }

  lemma ExecSnoc(w: World, s: seq<Step>, x: Step, spb: nat)
    requires Ready(w, spb) && StepsSized(s, spb) && StepsSized([x], spb)
    ensures StepsSized(s + [x], spb) && StepSized(Exec(w, s, spb).0, x)
    ensures Exec(w, s + [x], spb).0 == Perform(Exec(w, s, spb).0, x).0
    ensures Exec(w, s + [x], spb).1 == Exec(w, s, spb).1 + [Perform(Exec(w, s, spb).0, x).1]
  {
    var t := s + [x];
    assert [x][0] == x && t[..|s|] == s && t[|s|] == x;
  }

  /** Running two runs one after the other is running them in one. */
  predicate Concat(w: World, s: seq<Step>, t: seq<Step>, spb: nat)
    requires Ready(w, spb) && StepsSized(s, spb) && StepsSized(t, spb)
  {
    && StepsSized(s + t, spb)
    && Exec(w, s + t, spb).0 == Exec(Exec(w, s, spb).0, t, spb).0
    && Exec(w, s + t, spb).1 == Exec(w, s, spb).1 + Exec(Exec(w, s, spb).0, t, spb).1
  }

  lemma ConcatMore(w: World, s: seq<Step>, t: seq<Step>, x: Step, spb: nat)
    requires Ready(w, spb) && StepsSized(s, spb) && StepsSized(t, spb) && StepsSized([x], spb) && Concat(w, s, t, spb)
    ensures StepsSized(t + [x], spb) && Concat(w, s, t + [x], spb)
  {
    var v := Exec(w, s, spb).0;
    ExecSnoc(w, s + t, x, spb);
    ExecSnoc(v, t, x, spb);
    assert s + (t + [x]) == s + t + [x];
    Regroup(Exec(w, s, spb).1, Exec(v, t, spb).1, [Perform(Exec(v, t, spb).0, x).1]);
  }

  lemma {:induction false} ExecConcat(w: World, s: seq<Step>, t: seq<Step>, spb: nat)
    requires Ready(w, spb) && StepsSized(s, spb) && StepsSized(t, spb)
    ensures Concat(w, s, t, spb)
    decreases |t|
  {
    if t == [] {
      assert s + t == s;
    } else {
      var u, x := t[..|t| - 1], t[|t| - 1];
      assert StepsSized([x], spb) && t == u + [x];
      ExecConcat(w, s, u, spb);
      ConcatMore(w, s, u, x, spb);
    }
  }

  /** A run of steps leads from `w` to `v` with these answers. */
  predicate Runs(w: World, steps: seq<Step>, spb: nat, v: World, answers: seq<Answer>) {
    && Ready(w, spb) && StepsSized(steps, spb)
    && Exec(w, steps, spb).0 == v && Exec(w, steps, spb).1 == answers
  }

  lemma RunsThen(w: World, s: seq<Step>, spb: nat, v: World, a: seq<Answer>, t: seq<Step>, u: World, b: seq<Answer>)
    requires Runs(w, s, spb, v, a) && Runs(v, t, spb, u, b)
    ensures Runs(w, s + t, spb, u, a + b)
  {
    ExecConcat(w, s, t, spb);
  }

  lemma RunsNone(w: World, spb: nat)
    requires Ready(w, spb)
    ensures Runs(w, [], spb, w, [])
  {
  }

  lemma RunsOne(w: World, x: Step, spb: nat)
    requires Ready(w, spb) && StepsSized([x], spb)
    ensures StepSized(w, x) && Runs(w, [x], spb, Perform(w, x).0, [Perform(w, x).1])
  {
    ExecSnoc(w, [], x, spb);
    assert [] + [x] == [x];
  }

  /** The answers of a transfer's accesses: what the transfer returns, and then its error, if any. */
  function Answers(code: int, outs: seq<Option<Sector>>): seq<Answer>
  {
    seq(|outs|, i requires 0 <= i < |outs| => Ok(outs[i])) + if code < OK then [Error(code)] else []
  }

  lemma OneMoreAnswer(a: Answer, code: int, outs: seq<Option<Sector>>)
    requires a.Ok?
    ensures [a] + Answers(code, outs) == Answers(code, [a.value] + outs)
  {
  }

  lemma {:induction false} TransferIsRun(w: World, p: Partition, start: nat, values: seq<Option<Sector>>, faults: seq<Fault>, i: nat)
    requires Ready(w, p.sectorsPerBlock) && i <= |values| == |faults|
    ensures var (v, code, outs) := TransferFrom(w, p, start, values, faults, i);
            Runs(w, TransferSteps(w, p, start, values, faults, i), p.sectorsPerBlock, v, Answers(code, outs))
    decreases |values| - i
  {
    var spb := p.sectorsPerBlock;
    if i == |values| {
      RunsNone(w, spb);
    } else {
      var r := RequestAt(p, start, values, faults, i);
      var (v, a) := Access(w, r);
      AccessSized(w, r);
      RunsOne(w, Do(r), spb);
      if a.Ok? {
        TransferIsRun(v, p, start, values, faults, i + 1);
        var rest := TransferSteps(v, p, start, values, faults, i + 1);
        var (u, code, outs) := TransferFrom(v, p, start, values, faults, i + 1);
        RunsThen(w, [Do(r)], spb, v, [a], rest, u, Answers(code, outs));
        OneMoreAnswer(a, code, outs);
      }
    }
  }

  // ---------- runs of calls ----------

  lemma CallReady(w: World, c: Call, spb: nat)
    requires Ready(w, spb) && CallSized(c, spb)
    ensures Ready(PerformCall(w, c, spb).0, spb)
  {
    match c
    case TransferOf(p, start, values, faults) => TransferIsRun(w, p, start, values, faults, 0);
    case FlushCall(p, outcomes) => RunsOne(w, FlushOf(p, outcomes), spb);
  }

  /** The world after a run of calls, and what the calls return. */
  function RunCalls(w: World, calls: seq<Call>, spb: nat): (r: (World, seq<Reply>))
    requires Ready(w, spb) && CallsSized(calls, spb)
    ensures Ready(r.0, spb) && |r.1| == |calls|
  {
    if calls == [] then (w, [])
    else
      var n := |calls| - 1;
      var (v, replies) := RunCalls(w, calls[..n], spb);
      CallReady(v, calls[n], spb);
      var (u, reply) := PerformCall(v, calls[n], spb);
      (u, replies + [reply])
  }

  /** The steps that a run of calls is made of, and their answers. */
  function StepsOf(w: World, calls: seq<Call>, spb: nat): seq<Step>
    requires Ready(w, spb) && CallsSized(calls, spb)
  {
    if calls == [] then []
    else
      var n := |calls| - 1;
      StepsOf(w, calls[..n], spb) + CallSteps(RunCalls(w, calls[..n], spb).0, calls[n], spb)
  }

  function CallAnswers(c: Call, reply: Reply): seq<Answer> {
    if c.FlushCall? then [Ok(None)]
    else if InBounds(c.part, c.start, |c.values|) then Answers(reply.code, reply.buffer)
    else []
  }

  function AnswersOf(w: World, calls: seq<Call>, spb: nat): seq<Answer>
    requires Ready(w, spb) && CallsSized(calls, spb)
  {
    if calls == [] then []
    else
      var n := |calls| - 1;
      AnswersOf(w, calls[..n], spb) + CallAnswers(calls[n], PerformCall(RunCalls(w, calls[..n], spb).0, calls[n], spb).1)
  }

  lemma CallIsRun(w: World, c: Call, spb: nat)
    requires Ready(w, spb) && CallSized(c, spb)
    ensures var (v, reply) := PerformCall(w, c, spb);
            Runs(w, CallSteps(w, c, spb), spb, v, CallAnswers(c, reply))
  {
    match c
    case TransferOf(p, start, values, faults) =>
      if InBounds(p, start, |values|) {
        TransferIsRun(w, p, start, values, faults, 0);
      } else {
        RunsNone(w, spb);
      }
    case FlushCall(p, outcomes) => RunsOne(w, FlushOf(p, outcomes), spb);
  }

  /** Every run of calls is a run of the accesses and flushes they are made of. */
  lemma {:induction false} CallsAreRuns(w: World, calls: seq<Call>, spb: nat)
    requires Ready(w, spb) && CallsSized(calls, spb)
    ensures Runs(w, StepsOf(w, calls, spb), spb, RunCalls(w, calls, spb).0, AnswersOf(w, calls, spb))
  {
    if calls == [] {
      RunsNone(w, spb);
    } else {
      var n := |calls| - 1;
      CallsAreRuns(w, calls[..n], spb);
      var v := RunCalls(w, calls[..n], spb).0;
      CallIsRun(v, calls[n], spb);
      var (u, reply) := PerformCall(v, calls[n], spb);
      RunsThen(w, StepsOf(w, calls[..n], spb), spb, v, AnswersOf(w, calls[..n], spb),
               CallSteps(v, calls[n], spb), u, CallAnswers(calls[n], reply));
    }
  }

  ghost predicate LegalCalls(calls: seq<Call>, parts: set<Partition>) {
    forall i :: 0 <= i < |calls| ==> LegalCall(calls[i], parts)
  }

  lemma {:induction false} TransferLegal(w: World, p: Partition, start: nat, values: seq<Option<Sector>>, faults: seq<Fault>, i: nat,
      parts: set<Partition>)
    requires Ready(w, p.sectorsPerBlock) && i <= |values| == |faults| && p in parts
    requires start + |values| < UNINT4_RANGE && start + |values| <= p.sectors
    requires forall j :: 0 <= j < |faults| ==> faults[j].fetch.Done?
    ensures LegalSteps(TransferSteps(w, p, start, values, faults, i), parts)
    decreases |values| - i
  {
    if i < |values| {
      var r := RequestAt(p, start, values, faults, i);
      AccessSized(w, r);
      assert SectorNumber(start, i) == start + i;
      assert LegalStep(Do(r), parts);
      if Access(w, r).1.Ok? {
        TransferLegal(Access(w, r).0, p, start, values, faults, i + 1, parts);
      }
    }
  }

  lemma {:induction false} CallsLegal(w: World, calls: seq<Call>, parts: set<Partition>, spb: nat)
    requires Ready(w, spb) && CallsSized(calls, spb) && LegalCalls(calls, parts)
    ensures LegalSteps(StepsOf(w, calls, spb), parts)
  {
    if calls != [] {
      var n := |calls| - 1;
      CallsLegal(w, calls[..n], parts, spb);
      var v, c := RunCalls(w, calls[..n], spb).0, calls[n];
      assert LegalCall(c, parts);
      if c.TransferOf? && InBounds(c.part, c.start, |c.values|) {
        TransferLegal(v, c.part, c.start, c.values, c.faults, 0, parts);
      }
    }
  }

  /** A call that wrote the sector: a transfer on its partition with a value for it, which got as far as the sector. How far
      it got is the number of sectors that it answered; a refused transfer answers none. */
  predicate Stores(c: Call, reply: Reply, p: Partition, t: nat) {
    && c.TransferOf? && c.part == p && c.start <= t < c.start + |reply.buffer| && t < c.start + |c.values|
    && c.values[t - c.start].Some?
  }

  /** The value that the last call to write a sector gave it, or else the one it started with. */
  function LastStored(calls: seq<Call>, replies: seq<Reply>, p: Partition, t: nat, start: Sector): Sector
    requires |calls| == |replies|
  {
    if calls == [] then start
    else
      var n := |calls| - 1;
      if Stores(calls[n], replies[n], p, t) then calls[n].values[t - calls[n].start].value
      else LastStored(calls[..n], replies[..n], p, t, start)
  }

  /** From `w` to `v` a call with this reply stored its values, and changed no other sector. */
  ghost predicate CallStored(w: World, v: World, c: Call, reply: Reply, parts: set<Partition>, spb: nat) {
    && Coherent(w, parts, spb) && Coherent(v, parts, spb)
    && forall q, t {:trigger Logical(v, q, t)} :: q in parts && 0 <= t < q.sectors ==>
         Logical(v, q, t) == if Stores(c, reply, q, t) then c.values[t - c.start].value else Logical(w, q, t)
  }

  lemma ServesStored(w: World, p: Partition, start: nat, values: seq<Option<Sector>>, faults: seq<Fault>,
      result: (World, int, seq<Option<Sector>>), parts: set<Partition>, spb: nat)
    requires Serves(w, p, start, values, 0, result, parts, spb)
    ensures CallStored(w, result.0, TransferOf(p, start, values, faults), Reply(result.1, result.2), parts, spb)
  {
  }

  /** One call on the flat store. */
  lemma CallRefines(w: World, c: Call, parts: set<Partition>, spb: nat)
    requires Coherent(w, parts, spb) && CallSized(c, spb) && LegalCall(c, parts)
    ensures var (v, reply) := PerformCall(w, c, spb);
            CallStored(w, v, c, reply, parts, spb)
  {
    match c
    case TransferOf(p, start, values, faults) =>
      if InBounds(p, start, |values|) {
        TransferRefines(w, p, start, values, faults, 0, parts, spb);
        ServesStored(w, p, start, values, faults, TransferFrom(w, p, start, values, faults, 0), parts, spb);
      }
    case FlushCall(p, outcomes) => FlushRefines(w, p, outcomes, parts, spb);
  }

  /** From `w` to `v` each sector has got the value that was last written to it. */
  ghost predicate LastStoredIn(w: World, v: World, calls: seq<Call>, replies: seq<Reply>, parts: set<Partition>, spb: nat) {
    && Coherent(w, parts, spb) && Coherent(v, parts, spb) && |calls| == |replies|
    && forall q, t {:trigger Logical(v, q, t)} :: q in parts && 0 <= t < q.sectors ==>
         Logical(v, q, t) == LastStored(calls, replies, q, t, Logical(w, q, t))
  }

  lemma LastStoredMore(w: World, v: World, u: World, calls: seq<Call>, replies: seq<Reply>, parts: set<Partition>, spb: nat)
    requires calls != [] && |replies| == |calls|
    requires LastStoredIn(w, v, calls[..|calls| - 1], replies[..|calls| - 1], parts, spb)
    requires CallStored(v, u, calls[|calls| - 1], replies[|calls| - 1], parts, spb)
    ensures LastStoredIn(w, u, calls, replies, parts, spb)
  {
    forall q, t | q in parts && 0 <= t < q.sectors
      ensures Logical(u, q, t) == LastStored(calls, replies, q, t, Logical(w, q, t))
    {
      assert Logical(v, q, t) == LastStored(calls[..|calls| - 1], replies[..|calls| - 1], q, t, Logical(w, q, t));
    }
  }

  /** Over every run of calls on any partitions each sector holds the value last written to it. */
  lemma {:induction false} CallsRefine(w: World, calls: seq<Call>, parts: set<Partition>, spb: nat)
    requires Coherent(w, parts, spb) && CallsSized(calls, spb) && LegalCalls(calls, parts)
    ensures var (v, replies) := RunCalls(w, calls, spb);
            LastStoredIn(w, v, calls, replies, parts, spb)
  {
    if calls != [] {
      var n := |calls| - 1;
      CallsRefine(w, calls[..n], parts, spb);
      var (v, before) := RunCalls(w, calls[..n], spb);
      assert LegalCall(calls[n], parts);
      CallRefines(v, calls[n], parts, spb);
      var (u, reply) := PerformCall(v, calls[n], spb);
      assert (before + [reply])[..n] == before;
      LastStoredMore(w, v, u, calls, before + [reply], parts, spb);
    }
  }

  /** A read of `count` sectors returned their contents: all of them, or up to a failed write-back. */
  ghost predicate ReadServed(w: World, p: Partition, start: nat, count: nat, faults: seq<Fault>, reply: Reply, parts: set<Partition>,
      spb: nat)
  {
    && Coherent(w, parts, spb) && p in parts && start + |reply.buffer| <= p.sectors
    && |reply.buffer| <= count && (reply.code == OK <==> |reply.buffer| == count)
    && StoppedBy(reply.code, |reply.buffer|, faults)
    && forall j :: 0 <= j < |reply.buffer| ==> reply.buffer[j] == Some(Logical(w, p, start + j))
  }

  lemma ServesReads(w: World, p: Partition, start: nat, count: nat, faults: seq<Fault>, result: (World, int, seq<Option<Sector>>),
      parts: set<Partition>, spb: nat)
    requires Serves(w, p, start, Reads(count), 0, result, parts, spb) && Stops(result, 0, faults) && start + count <= p.sectors
    ensures ReadServed(w, p, start, count, faults, Reply(result.1, result.2), parts, spb)
  {
  }

  lemma ReadServes(w: World, p: Partition, start: nat, count: nat, faults: seq<Fault>, parts: set<Partition>, spb: nat)
    requires Coherent(w, parts, spb)
    requires |faults| == count && LegalCall(TransferOf(p, start, Reads(count), faults), parts) && InBounds(p, start, count)
    ensures ReadServed(w, p, start, count, faults, PerformCall(w, TransferOf(p, start, Reads(count), faults), spb).1, parts, spb)
  {
    TransferRefines(w, p, start, Reads(count), faults, 0, parts, spb);
    ServesReads(w, p, start, count, faults, TransferFrom(w, p, start, Reads(count), faults, 0), parts, spb);
  }

  lemma ReadStored(w: World, v: World, calls: seq<Call>, replies: seq<Reply>, p: Partition, start: nat, count: nat, faults: seq<Fault>,
      reply: Reply, parts: set<Partition>, spb: nat)
    requires LastStoredIn(w, v, calls, replies, parts, spb) && ReadServed(v, p, start, count, faults, reply, parts, spb)
    ensures forall j :: 0 <= j < |reply.buffer| ==>
              reply.buffer[j] == Some(LastStored(calls, replies, p, start + j, Logical(w, p, start + j)))
  {
  }

  /** A read after any run of calls returns those values, sector by sector, all of them or up to a failed write-back. */
  lemma ReadRefines(w: World, calls: seq<Call>, p: Partition, start: nat, count: nat, faults: seq<Fault>, parts: set<Partition>, spb: nat)
    requires Coherent(w, parts, spb) && CallsSized(calls, spb) && LegalCalls(calls, parts)
    requires |faults| == count && LegalCall(TransferOf(p, start, Reads(count), faults), parts) && InBounds(p, start, count)
    ensures var (v, replies) := RunCalls(w, calls, spb);
            var reply := PerformCall(v, TransferOf(p, start, Reads(count), faults), spb).1;
            && |reply.buffer| <= count && (reply.code == OK <==> |reply.buffer| == count)
            && StoppedBy(reply.code, |reply.buffer|, faults)
            && forall j :: 0 <= j < |reply.buffer| ==>
                 reply.buffer[j] == Some(LastStored(calls, replies, p, start + j, Logical(w, p, start + j)))
  {
    CallsRefine(w, calls, parts, spb);
    var (v, replies) := RunCalls(w, calls, spb);
    ReadServes(v, p, start, count, faults, parts, spb);
    var reply := PerformCall(v, TransferOf(p, start, Reads(count), faults), spb).1;
    ReadStored(w, v, calls, replies, p, start, count, faults, reply, parts, spb);
  }

  /** From `w` to `v` the first `n` sectors of a buffer were stored from sector `start` of the partition on: all of them, or
      those before a failed write-back. No other sector of any partition changed. */
  ghost predicate BufferStored(w: World, v: World, p: Partition, start: nat, buffer: seq<Sector>, n: nat, code: int, faults: seq<Fault>,
      parts: set<Partition>, spb: nat)
  {
    && Coherent(w, parts, spb) && Coherent(v, parts, spb) && p in parts && start + n <= p.sectors
    && n <= |buffer| && (code == OK <==> n == |buffer|) && StoppedBy(code, n, faults)
    && (forall j :: 0 <= j < n ==> Logical(v, p, start + j) == buffer[j])
    && (forall q, t {:trigger Logical(v, q, t)} :: q in parts && 0 <= t < q.sectors && !(q == p && start <= t < start + n) ==>
          Logical(v, q, t) == Logical(w, q, t))
  }

  lemma ServesWrites(w: World, p: Partition, start: nat, buffer: seq<Sector>, faults: seq<Fault>, result: (World, int, seq<Option<Sector>>),
      parts: set<Partition>, spb: nat)
    requires Serves(w, p, start, Writes(buffer), 0, result, parts, spb) && Stops(result, 0, faults) && start + |buffer| <= p.sectors
    ensures BufferStored(w, result.0, p, start, buffer, |result.2|, result.1, faults, parts, spb)
  {
  }

  /** A write of a buffer stores its sectors in order. */
  lemma WriteRefines(w: World, p: Partition, start: nat, buffer: seq<Sector>, faults: seq<Fault>, parts: set<Partition>, spb: nat)
    requires Coherent(w, parts, spb)
    requires |faults| == |buffer| && LegalCall(TransferOf(p, start, Writes(buffer), faults), parts) && InBounds(p, start, |buffer|)
    ensures var result := Transfer(w, p, start, Writes(buffer), faults);
            BufferStored(w, result.0, p, start, buffer, |result.2|, result.1, faults, parts, spb)
  {
    TransferRefines(w, p, start, Writes(buffer), faults, 0, parts, spb);
    ServesWrites(w, p, start, buffer, faults, TransferFrom(w, p, start, Writes(buffer), faults, 0), parts, spb);
  }

  // ---------- order of use ----------

  /** The use that the `j`-th sector of a transfer makes of its block. */
  function UseAt(p: Partition, start: nat, values: seq<Option<Sector>>, j: nat): Event
    requires p.sectorsPerBlock > 0 && j < |values|
  {
    Use((p, BlockOf(p, SectorNumber(start, j))), values[j].Some?)
  }

  /** The uses that a transfer makes for `n` sectors from the `i`-th on. */
  function UsesFrom(p: Partition, start: nat, values: seq<Option<Sector>>, i: nat, n: nat): (u: seq<Event>)
    requires p.sectorsPerBlock > 0 && i + n <= |values|
    ensures |u| == n && forall j {:trigger u[j]} :: 0 <= j < n ==> u[j] == UseAt(p, start, values, i + j)
  {
    seq(n, j requires 0 <= j < n => UseAt(p, start, values, i + j))
  }

  /** A transfer answers no more sectors than it has values for. */
  predicate Replied(c: Call, reply: Reply) {
    c.TransferOf? ==> |reply.buffer| <= |c.values|
  }

  predicate AllReplied(calls: seq<Call>, replies: seq<Reply>) {
    |calls| == |replies| && forall i :: 0 <= i < |calls| ==> Replied(calls[i], replies[i])
  }

  /** The trace of a run of calls: the uses of the sectors that the transfers answered, and the flushes, in order. */
  function Trace(calls: seq<Call>, replies: seq<Reply>, spb: nat): seq<Event>
    requires spb > 0 && CallsSized(calls, spb) && AllReplied(calls, replies)
  {
    if calls == [] then []
    else
      var n := |calls| - 1;
      Trace(calls[..n], replies[..n], spb) + CallTrace(calls[n], replies[n], spb)
  }

  function CallTrace(c: Call, reply: Reply, spb: nat): seq<Event>
    requires spb > 0 && CallSized(c, spb) && Replied(c, reply)
  {
    match c
    case TransferOf(p, start, values, _) => UsesFrom(p, start, values, 0, |reply.buffer|)
    case FlushCall(p, _) => [Flushed(p)]
  }

  /** A run of steps with these answers has this trace. */
  predicate Touches(steps: seq<Step>, answers: seq<Answer>, spb: nat, uses: seq<Event>) {
    |steps| == |answers| && spb > 0 && StepsSized(steps, spb) && Touched(steps, answers, spb) == uses
  }

  lemma TouchesOne(x: Step, a: Answer, spb: nat)
    requires spb > 0 && StepsSized([x], spb)
    ensures x.Do? ==> x.request.part.sectorsPerBlock == spb
    ensures Touches([x], [a], spb, Touch(x, a))
  {
    assert [x][0] == x && [x][..0] == [] && [a][..0] == [];
  }

  lemma TouchesSnoc(s: seq<Step>, a: seq<Answer>, x: Step, b: Answer, spb: nat, uses: seq<Event>)
    requires Touches(s, a, spb, uses) && StepsSized([x], spb)
    ensures x.Do? ==> x.request.part.sectorsPerBlock == spb
    ensures Touches(s + [x], a + [b], spb, uses + Touch(x, b))
  {
    assert [x][0] == x && (s + [x])[..|s|] == s && (a + [b])[..|s|] == a;
  }

  lemma TouchesBehind(s: seq<Step>, a: seq<Answer>, u: seq<Event>, t: seq<Step>, b: seq<Answer>, v: seq<Event>, x: Step, y: Answer, spb: nat)
    requires Touches(s + t, a + b, spb, u + v) && StepsSized([x], spb)
    ensures x.Do? ==> x.request.part.sectorsPerBlock == spb
    ensures Touches(s + (t + [x]), a + (b + [y]), spb, u + (v + Touch(x, y)))
  {
    TouchesSnoc(s + t, a + b, x, y, spb, u + v);
    Regroup(s, t, [x]);
    Regroup(a, b, [y]);
    Regroup(u, v, Touch(x, y));
  }

  /** A run in two parts. */
  lemma {:induction false} TouchesThen(s: seq<Step>, a: seq<Answer>, u: seq<Event>, t: seq<Step>, b: seq<Answer>, v: seq<Event>, spb: nat)
    requires Touches(s, a, spb, u) && Touches(t, b, spb, v)
    ensures Touches(s + t, a + b, spb, u + v)
    decreases |t|
  {
    if t == [] {
      assert s + t == s && a + b == a && u + v == u;
    } else {
      var n := |t| - 1;
      var before := Touched(t[..n], b[..n], spb);
      assert StepsSized([t[n]], spb) && t == t[..n] + [t[n]] && b == b[..n] + [b[n]];
      TouchesThen(s, a, u, t[..n], b[..n], before, spb);
      TouchesBehind(s, a, u, t[..n], b[..n], before, t[n], b[n], spb);
    }
  }

  lemma UsesMore(p: Partition, start: nat, values: seq<Option<Sector>>, i: nat, n: nat)
    requires p.sectorsPerBlock > 0 && i + 1 + n <= |values|
    ensures [UseAt(p, start, values, i)] + UsesFrom(p, start, values, i + 1, n) == UsesFrom(p, start, values, i, n + 1)
  {
  }

  /** These steps of a transfer, from its `i`-th sector on, make the uses of the sectors that they answered. */
  predicate StepsTouch(steps: seq<Step>, result: (World, int, seq<Option<Sector>>), p: Partition, start: nat, values: seq<Option<Sector>>,
      i: nat)
  {
    && p.sectorsPerBlock > 0 && i + |result.2| <= |values|
    && Touches(steps, Answers(result.1, result.2), p.sectorsPerBlock, UsesFrom(p, start, values, i, |result.2|))
  }

  lemma StepsTouchMore(r: Request, v: World, a: Answer, steps: seq<Step>, rest: (World, int, seq<Option<Sector>>), p: Partition,
      start: nat, values: seq<Option<Sector>>, i: nat)
    requires p.sectorsPerBlock > 0 && i < |values| && r.part == p && r.sector == SectorNumber(start, i) && r.value == values[i]
    requires a.Ok? ==> StepsTouch(steps, rest, p, start, values, i + 1)
    ensures StepsTouch([Do(r)] + if a.Error? then [] else steps, if a.Error? then (v, a.error, []) else OneMore(a.value, rest),
                       p, start, values, i)
  {
    var spb := p.sectorsPerBlock;
    assert [Do(r)][0] == Do(r);
    TouchesOne(Do(r), a, spb);
    if a.Ok? {
      TouchesThen([Do(r)], [a], [UseAt(p, start, values, i)], steps, Answers(rest.1, rest.2),
                  UsesFrom(p, start, values, i + 1, |rest.2|), spb);
      OneMoreAnswer(a, rest.1, rest.2);
      UsesMore(p, start, values, i, |rest.2|);
    }
  }

  /** The first step of a transfer, and the rest of it. */
  lemma StepsUnfold(w: World, p: Partition, start: nat, values: seq<Option<Sector>>, faults: seq<Fault>, i: nat)
    returns (v: World, a: Answer)
    requires Ready(w, p.sectorsPerBlock) && i < |values| == |faults|
    ensures Ready(v, p.sectorsPerBlock)
    ensures TransferSteps(w, p, start, values, faults, i)
            == [Do(RequestAt(p, start, values, faults, i))] + if a.Error? then [] else TransferSteps(v, p, start, values, faults, i + 1)
    ensures TransferFrom(w, p, start, values, faults, i)
            == if a.Error? then (v, a.error, []) else OneMore(a.value, TransferFrom(v, p, start, values, faults, i + 1))
  {
    var (u, b) := Access(w, RequestAt(p, start, values, faults, i));
    v, a := u, b;
    TransferUnfolds(w, p, start, values, faults, i, SectorNumber(start, i), v, a);
  }

  lemma {:induction false} TransferTouches(w: World, p: Partition, start: nat, values: seq<Option<Sector>>, faults: seq<Fault>, i: nat)
    requires Ready(w, p.sectorsPerBlock) && i <= |values| == |faults|
    ensures StepsTouch(TransferSteps(w, p, start, values, faults, i), TransferFrom(w, p, start, values, faults, i), p, start, values, i)
    decreases |values| - i
  {
    if i < |values| {
      var v, a := StepsUnfold(w, p, start, values, faults, i);
      TransferTouches(v, p, start, values, faults, i + 1);
      StepsTouchMore(RequestAt(p, start, values, faults, i), v, a, TransferSteps(v, p, start, values, faults, i + 1),
                     TransferFrom(v, p, start, values, faults, i + 1), p, start, values, i);
    }
  }

  lemma CallTouches(w: World, c: Call, spb: nat)
    requires Ready(w, spb) && CallSized(c, spb)
    ensures var reply := PerformCall(w, c, spb).1;
            Replied(c, reply) && Touches(CallSteps(w, c, spb), CallAnswers(c, reply), spb, CallTrace(c, reply, spb))
  {
    match c
    case TransferOf(p, start, values, faults) => TransferTouches(w, p, start, values, faults, 0);
    case FlushCall(p, outcomes) => TouchesOne(FlushOf(p, outcomes), Ok(None), spb);
  }

  lemma RepliedMore(calls: seq<Call>, replies: seq<Reply>, spb: nat)
    requires calls != [] && |replies| == |calls| && spb > 0 && CallsSized(calls, spb)
    requires AllReplied(calls[..|calls| - 1], replies[..|calls| - 1]) && Replied(calls[|calls| - 1], replies[|calls| - 1])
    ensures AllReplied(calls, replies)
  {
    forall i | 0 <= i < |calls|
      ensures Replied(calls[i], replies[i])
    {
      if i < |calls| - 1 {
        assert calls[i] == calls[..|calls| - 1][i] && replies[i] == replies[..|calls| - 1][i];
      }
    }
  }

  /** The trace of the accesses and flushes of a run is the one that its calls and replies tell. */
  lemma {:induction false} CallsTouch(w: World, calls: seq<Call>, spb: nat)
    requires Ready(w, spb) && CallsSized(calls, spb)
    ensures var replies := RunCalls(w, calls, spb).1;
            AllReplied(calls, replies) && Touches(StepsOf(w, calls, spb), AnswersOf(w, calls, spb), spb, Trace(calls, replies, spb))
  {
    if calls != [] {
      var n := |calls| - 1;
      CallsTouch(w, calls[..n], spb);
      var (v, before) := RunCalls(w, calls[..n], spb);
      CallTouches(v, calls[n], spb);
      var reply := PerformCall(v, calls[n], spb).1;
      assert RunCalls(w, calls, spb).1 == before + [reply] && (before + [reply])[..n] == before;
      RepliedMore(calls, before + [reply], spb);
      TouchesThen(StepsOf(w, calls[..n], spb), AnswersOf(w, calls[..n], spb), Trace(calls[..n], before, spb),
                  CallSteps(v, calls[n], spb), CallAnswers(calls[n], reply), CallTrace(calls[n], reply, spb), spb);
    }
  }

  /** What holds of the runs of steps, for a run of calls: the world it leads to, and the trace that calls and replies tell. */
  lemma CallsTrace(w: World, calls: seq<Call>, parts: set<Partition>, spb: nat) returns (trace: seq<Event>)
    requires Ready(w, spb) && CallsSized(calls, spb) && LegalCalls(calls, parts)
    ensures AllReplied(calls, RunCalls(w, calls, spb).1) && trace == Trace(calls, RunCalls(w, calls, spb).1, spb)
    ensures var steps := StepsOf(w, calls, spb);
            && StepsSized(steps, spb) && LegalSteps(steps, parts) && Exec(w, steps, spb).0 == RunCalls(w, calls, spb).0
            && Touched(steps, Exec(w, steps, spb).1, spb) == trace
  {
    CallsAreRuns(w, calls, spb);
    CallsLegal(w, calls, parts, spb);
    CallsTouch(w, calls, spb);
    trace := Trace(calls, RunCalls(w, calls, spb).1, spb);
  }

  /** After every run of calls on an empty cache the list is the last five distinct blocks in order of last use, as the calls
      and their replies tell it. */
  lemma CallsOrder(w: World, calls: seq<Call>, parts: set<Partition>, spb: nat)
    requires Unused(w) && Ready(w, spb) && CallsSized(calls, spb) && LegalCalls(calls, parts)
    ensures var (v, replies) := RunCalls(w, calls, spb);
            AllReplied(calls, replies) && Labels(v.slots) == Top(Recency(Keys(Trace(calls, replies, spb))))
  {
    var _ := CallsTrace(w, calls, parts, spb);
    RunOrder(w, StepsOf(w, calls, spb), parts, spb);
  }

  /** After every run of calls an access misses exactly when its block was never used or five others were used since. */
  lemma CallsMissExactly(w: World, calls: seq<Call>, r: Request, parts: set<Partition>, spb: nat)
    requires Unused(w) && Ready(w, spb) && CallsSized(calls, spb) && LegalCalls(calls, parts) && r.part.sectorsPerBlock == spb
    ensures var (v, replies) := RunCalls(w, calls, spb);
            && AllReplied(calls, replies)
            && (Find(v.slots, r.part, BlockOf(r.part, r.sector)) == |v.slots| <==> !Cached(Keys(Trace(calls, replies, spb)), KeyOf(r)))
  {
    var _ := CallsTrace(w, calls, parts, spb);
    MissExactly(w, StepsOf(w, calls, spb), r, parts, spb);
  }

  /** After every run of calls an access writes a block back exactly if it misses and the block in the last place has a value that
      a call stored since it was last fetched or flushed; and it fails exactly if that write does. */
  lemma CallsWriteExactly(w: World, calls: seq<Call>, r: Request, parts: set<Partition>, spb: nat)
    requires Unused(w) && Ready(w, spb) && CallsSized(calls, spb) && LegalCalls(calls, parts)
    requires r.part.sectorsPerBlock == spb && r.fetch.Done?
    ensures var (v, replies) := RunCalls(w, calls, spb);
            AllReplied(calls, replies) && WritesBack(v, r, Displaces(Trace(calls, replies, spb), KeyOf(r)))
  {
    var _ := CallsTrace(w, calls, parts, spb);
    WritesExactly(w, StepsOf(w, calls, spb), r, parts, spb);
  }

  // ---------- runs that only read ----------

  /** No used slot is marked as modified. */
  predicate Clean(w: World) {
    forall i :: 0 <= i < |w.slots| && w.slots[i].part != null ==> !w.slots[i].modified
  }

  /** A call that stores nothing, and whose device reads succeed. Its write-backs and flush writes may do anything. */
  predicate OnlyReads(c: Call) {
    c.TransferOf? ==> (forall j :: 0 <= j < |c.values| ==> c.values[j].None?) && (forall j :: 0 <= j < |c.faults| ==> c.faults[j].fetch.Done?)
  }

  lemma AccessClean(w: World, r: Request)
    requires |w.slots| > 0 && r.part.sectorsPerBlock > 0 && Sized(w.slots, r.part.sectorsPerBlock) && Clean(w)
    requires r.value.None? && r.fetch.Done?
    ensures var (v, a) := Access(w, r);
            a.Ok? && Clean(v) && v.disk == w.disk
  {
  }

  /** A transfer served everything, and left the slots unmarked and the devices as they were. */
  predicate Harmless(w: World, result: (World, int, seq<Option<Sector>>), n: int) {
    result.1 == OK && |result.2| == n && Clean(result.0) && result.0.disk == w.disk
  }

  lemma StepsUnfoldClean(w: World, p: Partition, start: nat, values: seq<Option<Sector>>, faults: seq<Fault>, i: nat)
    returns (v: World, a: Answer)
    requires Ready(w, p.sectorsPerBlock) && i < |values| == |faults| && Clean(w) && OnlyReads(TransferOf(p, start, values, faults))
    ensures Ready(v, p.sectorsPerBlock) && Clean(v) && v.disk == w.disk && a.Ok?
    ensures TransferFrom(w, p, start, values, faults, i) == OneMore(a.value, TransferFrom(v, p, start, values, faults, i + 1))
  {
    var r := RequestAt(p, start, values, faults, i);
    AccessClean(w, r);
    var (u, b) := Access(w, r);
    v, a := u, b;
    TransferUnfolds(w, p, start, values, faults, i, SectorNumber(start, i), v, a);
  }

  lemma {:induction false} TransferHarmless(w: World, p: Partition, start: nat, values: seq<Option<Sector>>, faults: seq<Fault>, i: nat)
    requires Ready(w, p.sectorsPerBlock) && i <= |values| == |faults| && Clean(w) && OnlyReads(TransferOf(p, start, values, faults))
    ensures Harmless(w, TransferFrom(w, p, start, values, faults, i), |values| - i)
    decreases |values| - i
  {
    if i < |values| {
      var v, a := StepsUnfoldClean(w, p, start, values, faults, i);
      TransferHarmless(v, p, start, values, faults, i + 1);
    }
  }

  lemma {:induction false} FlushClean(w: World, p: Partition, i: nat, outcomes: seq<Outcome>)
    requires i <= |w.slots| == |outcomes| && Clean(w)
    ensures Clean(FlushFrom(w, p, i, outcomes)) && FlushFrom(w, p, i, outcomes).disk == w.disk
    decreases |w.slots| - i
  {
    if i < |w.slots| {
      FlushClean(w, p, i + 1, outcomes);
    }
  }

  lemma CallHarmless(w: World, c: Call, spb: nat)
    requires Ready(w, spb) && CallSized(c, spb) && Clean(w) && OnlyReads(c)
    ensures var (v, reply) := PerformCall(w, c, spb);
            && Clean(v) && v.disk == w.disk
            && (c.TransferOf? && InBounds(c.part, c.start, |c.values|) ==> reply.code == OK && |reply.buffer| == |c.values|)
  {
    match c
    case TransferOf(p, start, values, faults) => TransferHarmless(w, p, start, values, faults, 0);
    case FlushCall(p, outcomes) => FlushClean(w, p, 0, outcomes);
  }

  /** Reading alone never writes to a device, and never fails: a run of calls that store nothing leaves the devices as they
      were, and serves every transfer within bounds, whatever a write-back would do. */
  lemma {:induction false} ReadsWriteNothing(w: World, calls: seq<Call>, spb: nat)
    requires Ready(w, spb) && CallsSized(calls, spb) && Clean(w) && forall i :: 0 <= i < |calls| ==> OnlyReads(calls[i])
    ensures var (v, replies) := RunCalls(w, calls, spb);
            && Clean(v) && v.disk == w.disk
            && forall i :: 0 <= i < |calls| && calls[i].TransferOf? && InBounds(calls[i].part, calls[i].start, |calls[i].values|) ==>
                 replies[i].code == OK && |replies[i].buffer| == |calls[i].values|
  {
    if calls != [] {
      var n := |calls| - 1;
      ReadsWriteNothing(w, calls[..n], spb);
      var (v, before) := RunCalls(w, calls[..n], spb);
      CallHarmless(v, calls[n], spb);
    }
  }
}
