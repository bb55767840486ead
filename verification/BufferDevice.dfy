/** The byte pipe of the kernel (source/hal/BufferDevice.cc): a ring buffer between writers and readers, with a reader
    that finds it empty blocking until the next write. */
module BufferDevice {
  import opened Collections
  import opened Words

  const OK := 0
  const DEVICE_MEMORY_EXHAUSTED := -103
  const MAX_BUFFER_SIZE: nat := 4096

  /** A negative size turns into a huge unsigned one, and is cut to the maximum like any other. */
  function Capacity(bufferSize: int): nat {
    if bufferSize < 0 || bufferSize > MAX_BUFFER_SIZE then MAX_BUFFER_SIZE else bufferSize
  }

  // ---------- windows of a ring ----------

  function Wrap(k: nat, size: nat): nat {
    if k >= size then k - size else k
  }

  /** `n` bytes of a ring, from one place on. */
  function Window(a: seq<byte>, from: nat, n: nat): (w: seq<byte>)
    requires from <= |a| && n <= |a|
    ensures |w| == n && forall i :: 0 <= i < n ==> w[i] == a[Wrap(from + i, |a|)]
  {
    seq(n, i requires 0 <= i < n => a[Wrap(from + i, |a|)])
  }

  lemma WindowPieces(a: seq<byte>, from: nat, n: nat)
    requires from <= |a| && n <= |a|
    ensures Window(a, from, n) == if from + n < |a| then a[from..from + n] else a[from..] + a[..from + n - |a|]
  {
  }

  lemma WindowSplit(a: seq<byte>, from: nat, n: nat, k: nat)
    requires from <= |a| && k <= n <= |a|
    ensures Window(a, from, n)[..k] == Window(a, from, k) && Window(a, from, n)[k..] == Window(a, Wrap(from + k, |a|), n - k)
  {
  }

  /** `b` is `a` with `s` put at a place of the ring. */
  predicate Put(a: seq<byte>, b: seq<byte>, at: nat, s: seq<byte>) {
    && |a| == |b| && at <= |a| && |s| <= |a|
    && (forall i :: 0 <= i < |s| ==> b[Wrap(at + i, |a|)] == s[i])
    && (forall k :: 0 <= k < |a| && |s| <= (if k < at then k + |a| - at else k - at) ==> b[k] == a[k])
  }

  lemma PutKeeps(a: seq<byte>, b: seq<byte>, from: nat, n: nat, s: seq<byte>, i: nat)
    requires from <= |a| && n + |s| <= |a| && Put(a, b, Wrap(from + n, |a|), s) && i < n
    ensures b[Wrap(from + i, |a|)] == a[Wrap(from + i, |a|)]
  {
  }

  lemma PutPlaces(a: seq<byte>, b: seq<byte>, from: nat, n: nat, s: seq<byte>, i: nat)
    requires from <= |a| && n + |s| <= |a| && Put(a, b, Wrap(from + n, |a|), s) && i < |s|
    ensures b[Wrap(from + (n + i), |a|)] == s[i]
  {
    assert Wrap(from + (n + i), |a|) == Wrap(Wrap(from + n, |a|) + i, |a|);
  }

  /** Putting bytes right behind a window makes it longer by them. */
  lemma PutBehind(a: seq<byte>, b: seq<byte>, from: nat, n: nat, s: seq<byte>)
    requires from <= |a| && n + |s| <= |a| && Put(a, b, Wrap(from + n, |a|), s)
    ensures Window(b, from, n + |s|) == Window(a, from, n) + s
  {
    var w, v := Window(b, from, n + |s|), Window(a, from, n) + s;
    forall k | 0 <= k < n + |s|
      ensures w[k] == v[k]
    {
      if k < n {
        PutKeeps(a, b, from, n, s, k);
      } else {
        PutPlaces(a, b, from, n, s, k - n);
      }
    }
  }

  function Overwritten(a: seq<byte>, at: nat, s: seq<byte>): (b: seq<byte>)
    requires at + |s| <= |a|
    ensures |b| == |a|
  {
    a[..at] + s + a[at + |s|..]
  }

  lemma OneCopy(a: seq<byte>, x: seq<byte>)
    requires |x| <= |a|
    ensures Overwritten(a, 0, x) == x + a[|x|..]
  {
  }

  lemma TwoCopies(a: seq<byte>, x: seq<byte>, y: seq<byte>)
    requires |x| + |y| <= |a|
    ensures Overwritten(Overwritten(a, 0, x), |x|, y) == x + y + a[|x| + |y|..]
  {
  }

  /** A copy out of a ring, in one piece or in two around its end. */
  function Copied(b: seq<byte>, a: seq<byte>, from: nat, n: nat): seq<byte>
    requires from <= |a| && n <= |a| && n <= |b|
  {
    if from + n >= |a| then Overwritten(Overwritten(b, 0, a[from..]), |a| - from, a[..from + n - |a|])
    else Overwritten(b, 0, a[from..from + n])
  }

  lemma CopiedIsWindow(b: seq<byte>, a: seq<byte>, from: nat, n: nat)
    requires from <= |a| && n <= |a| && n <= |b|
    ensures Copied(b, a, from, n) == Window(a, from, n) + b[n..]
  {
    WindowPieces(a, from, n);
    if from + n < |a| {
      OneCopy(b, a[from..from + n]);
    } else {
      var x, y := a[from..], a[..from + n - |a|];
      assert |x| == |a| - from && |x| + |y| == n;
      TwoCopies(b, x, y);
    }
  }

  /** A copy in one piece, or in two around the end of the ring. */
  function Placed(a: seq<byte>, at: nat, s: seq<byte>): seq<byte>
    requires at <= |a| && |s| <= |a|
    ensures |Placed(a, at, s)| == |a|
  {
    if at + |s| >= |a| then Overwritten(Overwritten(a, at, s[..|a| - at]), 0, s[|a| - at..]) else Overwritten(a, at, s)
  }

  lemma PlacedIsPut(a: seq<byte>, at: nat, s: seq<byte>)
    requires at <= |a| && |s| <= |a|
    ensures Put(a, Placed(a, at, s), at, s)
  {
    if at + |s| >= |a| {
      PlacedAround(a, at, s);
    } else {
      PlacedStraight(a, at, s);
    }
  }

  lemma PlacedAround(a: seq<byte>, at: nat, s: seq<byte>)
    requires at <= |a| && |s| <= |a| && at + |s| >= |a|
    ensures Put(a, Placed(a, at, s), at, s)
  {
    var k := |a| - at;
    var b := Overwritten(a, at, s[..k]);
    var c := Overwritten(b, 0, s[k..]);
    forall i | 0 <= i < |s|
      ensures c[Wrap(at + i, |a|)] == s[i]
    {
      if i < k {
        assert c[at + i] == b[at + i];
      } else {
        assert c[i - k] == s[k..][i - k];
      }
    }
  }

  lemma PlacedStraight(a: seq<byte>, at: nat, s: seq<byte>)
    requires at + |s| < |a|
    ensures Put(a, Placed(a, at, s), at, s)
  {
  }

  /** A copy right behind a window makes it longer by what is copied. */
  lemma PlacedBehind(a: seq<byte>, from: nat, n: nat, s: seq<byte>)
    requires from <= |a| && n + |s| <= |a|
    ensures var b := Placed(a, Wrap(from + n, |a|), s); |b| == |a| && Window(b, from, n + |s|) == Window(a, from, n) + s
  {
    PlacedIsPut(a, Wrap(from + n, |a|), s);
    PutBehind(a, Placed(a, Wrap(from + n, |a|), s), from, n, s);
  }

  /** Copies bytes into an array. */
  method MemCpy(to: array<byte>, at: nat, s: seq<byte>)
    requires at + |s| <= to.Length
    modifies to
    ensures to[..] == Overwritten(old(to[..]), at, s)
  {
    forall i | 0 <= i < |s| {
      to[at + i] := s[i];
    }
  }

  lemma Moved(delivered: seq<byte>, held: seq<byte>, n: nat)
    requires n <= |held|
    ensures delivered + held == (delivered + held[..n]) + held[n..]
  {
  }

  lemma Appended(delivered: seq<byte>, held: seq<byte>, s: seq<byte>)
    ensures (delivered + held) + s == delivered + (held + s)
  {
  }

  // ---------- the pipe as a sequence of bytes, over whole runs ----------

  datatype Call = Write(bytes: seq<byte>) | Read(length: nat)

  function Least(m: nat, n: nat): nat {
    if m < n then m else n
  }

  /** The part of a write that a pipe with these bytes in it takes, and the part of its bytes that a read is given. */
  function Taken(held: seq<byte>, capacity: nat, bytes: seq<byte>): seq<byte>
    requires |held| <= capacity
  {
    bytes[..Least(|bytes|, capacity - |held|)]
  }

  function Given(held: seq<byte>, length: nat): seq<byte> {
    held[..Least(length, |held|)]
  }

  /** The bytes that are in the pipe after a run of calls. */
  function HeldAfter(capacity: nat, calls: seq<Call>): (held: seq<byte>)
    ensures |held| <= capacity
  {
    if calls == [] then []
    else
      var held := HeldAfter(capacity, calls[..|calls| - 1]);
      match calls[|calls| - 1]
      case Write(bytes) => held + Taken(held, capacity, bytes)
      case Read(length) => held[|Given(held, length)|..]
  }

  /** All that the writes of a run wrote, all that they took of it, and all that the reads were given. */
  function Written(calls: seq<Call>): seq<byte> {
    if calls == [] then []
    else
      var before, last := Written(calls[..|calls| - 1]), calls[|calls| - 1];
      if last.Write? then before + last.bytes else before
  }

  function Accepted(capacity: nat, calls: seq<Call>): seq<byte> {
    if calls == [] then []
    else
      var rest, last := calls[..|calls| - 1], calls[|calls| - 1];
      var before := Accepted(capacity, rest);
      if last.Write? then before + Taken(HeldAfter(capacity, rest), capacity, last.bytes) else before
  }

  function Delivered(capacity: nat, calls: seq<Call>): seq<byte> {
    if calls == [] then []
    else
      var rest, last := calls[..|calls| - 1], calls[|calls| - 1];
      var before := Delivered(capacity, rest);
      if last.Read? then before + Given(HeldAfter(capacity, rest), last.length) else before
  }

  /** Over every run, what the reads were given is a prefix of what the writes took, and the rest is in the pipe. */
  lemma {:induction false} RunFifo(capacity: nat, calls: seq<Call>)
    ensures Accepted(capacity, calls) == Delivered(capacity, calls) + HeldAfter(capacity, calls)
  {
    if calls != [] {
      var rest, last := calls[..|calls| - 1], calls[|calls| - 1];
      var held := HeldAfter(capacity, rest);
      RunFifo(capacity, rest);
      match last {
        case Write(bytes) => Appended(Delivered(capacity, rest), held, Taken(held, capacity, bytes));
        case Read(length) => Moved(Delivered(capacity, rest), held, |Given(held, length)|);
      }
    }
  }

  /** How many bytes were taken in and not yet given out. */
  function Waiting(capacity: nat, calls: seq<Call>): (n: nat)
    ensures n == |HeldAfter(capacity, calls)| <= capacity
  {
    RunFifo(capacity, calls);
    |Accepted(capacity, calls)| - |Delivered(capacity, calls)|
  }

  lemma CallBehind(capacity: nat, calls: seq<Call>, c: Call)
    ensures var held := HeldAfter(capacity, calls);
            && Accepted(capacity, calls + [c]) == Accepted(capacity, calls) + (if c.Write? then Taken(held, capacity, c.bytes) else [])
            && Delivered(capacity, calls + [c]) == Delivered(capacity, calls) + (if c.Read? then Given(held, c.length) else [])
  {
    var all := calls + [c];
    assert all[..|all| - 1] == calls && all[|all| - 1] == c;
  }

  /** After any run a read is given the next bytes that were taken in, as many as it asks for or as there are. */
  lemma ReadGives(capacity: nat, calls: seq<Call>, length: nat)
    ensures var n := if length < Waiting(capacity, calls) then length else Waiting(capacity, calls);
            var before := |Delivered(capacity, calls)|;
            && before + n <= |Accepted(capacity, calls)|
            && Delivered(capacity, calls + [Read(length)]) == Accepted(capacity, calls)[..before + n]
            && Accepted(capacity, calls + [Read(length)]) == Accepted(capacity, calls)
  {
    CallBehind(capacity, calls, Read(length));
    RunFifo(capacity, calls);
  }

  /** After any run a write adds the first of its bytes, all of them or as many as there is room for. */
  lemma WriteTakes(capacity: nat, calls: seq<Call>, bytes: seq<byte>)
    ensures var room := capacity - Waiting(capacity, calls);
            && Accepted(capacity, calls + [Write(bytes)])
               == Accepted(capacity, calls) + (if |bytes| < room then bytes else bytes[..room])
            && Delivered(capacity, calls + [Write(bytes)]) == Delivered(capacity, calls)
  {
    CallBehind(capacity, calls, Write(bytes));
    assert bytes[..|bytes|] == bytes;
  }

  /** Each write finds room for all its bytes. */
  predicate AllFit(capacity: nat, calls: seq<Call>) {
    forall i :: 0 <= i < |calls| && calls[i].Write? ==> |HeldAfter(capacity, calls[..i])| + |calls[i].bytes| <= capacity
  }

  lemma {:induction false} AcceptedLength(capacity: nat, calls: seq<Call>)
    ensures |Accepted(capacity, calls)| <= |Written(calls)|
  {
    if calls != [] {
      AcceptedLength(capacity, calls[..|calls| - 1]);
    }
  }

  lemma AllFitLast(capacity: nat, calls: seq<Call>)
    requires calls != []
    ensures var rest, last := calls[..|calls| - 1], calls[|calls| - 1];
            AllFit(capacity, calls) <==>
            AllFit(capacity, rest) && (last.Write? ==> |HeldAfter(capacity, rest)| + |last.bytes| <= capacity)
  {
    var rest := calls[..|calls| - 1];
    assert forall i :: 0 <= i <= |rest| ==> calls[..i] == rest[..i];
    assert forall i :: 0 <= i < |rest| ==> calls[i] == rest[i];
  }

  /** A run loses nothing that was written exactly when each write finds room for all its bytes. */
  lemma {:induction false} NothingLost(capacity: nat, calls: seq<Call>)
    ensures Accepted(capacity, calls) == Written(calls) <==> AllFit(capacity, calls)
  {
    if calls != [] {
      var rest, last := calls[..|calls| - 1], calls[|calls| - 1];
      NothingLost(capacity, rest);
      AllFitLast(capacity, calls);
      AcceptedLength(capacity, rest);
      if last.Write? {
        LastLost(Accepted(capacity, rest), Written(rest), last.bytes, capacity - |HeldAfter(capacity, rest)|);
      }
    }
  }

  /** Three bytes written to an empty pipe for two: the last is lost. */
  lemma LossWitness()
    ensures Accepted(2, [Write([1, 2, 3])]) == [1, 2]
  {
    var calls := [Write([1, 2, 3])];
    assert calls[..0] == [] && Accepted(2, []) == [];
  }

  lemma LastLost(accepted: seq<byte>, written: seq<byte>, bytes: seq<byte>, room: nat)
    requires |accepted| <= |written|
    ensures accepted + bytes[..Least(|bytes|, room)] == written + bytes <==> accepted == written && |bytes| <= room
  {
    if accepted + bytes[..Least(|bytes|, room)] == written + bytes {
      assert |accepted| + Least(|bytes|, room) == |written| + |bytes|;
      assert accepted == (accepted + bytes[..Least(|bytes|, room)])[..|accepted|] == (written + bytes)[..|written|] == written;
    }
  }

  // ---------- the device ----------

  type Thread = nat

  class BufferDevice {
    const buffer: array<byte>
    const buffersize: nat
    var usedBytes: nat
    var readPointer: nat
    var position: nat
    var blockedThread: Option<Thread>
    /** All bytes that writes took and that reads gave, in order. */
    ghost var accepted: seq<byte>
    ghost var delivered: seq<byte>
    /** The bytes in between, which the buffer holds from the read pointer on. */
    ghost var held: seq<byte>

    constructor (bufferSize: int)
      ensures Valid() && fresh(buffer) && buffersize == Capacity(bufferSize)
      ensures accepted == delivered == held == [] && blockedThread == None
    {
      buffersize := Capacity(bufferSize);
      buffer := new byte[Capacity(bufferSize)](_ => 0);
      usedBytes, readPointer, position := 0, 0, 0;
      blockedThread := None;
      accepted, delivered, held := [], [], [];
    }

    /** What was accepted is what was delivered and then what the buffer holds from the read pointer on; writes go on
        right behind that. */
    ghost predicate Valid()
      reads this, buffer
    {
      InBuffer() && accepted == delivered + held
    }

    ghost predicate InBuffer()
      reads this, buffer
    {
      && buffer.Length == buffersize <= MAX_BUFFER_SIZE && usedBytes <= buffersize
      && (readPointer < buffersize || readPointer == buffersize == 0)
      && position == Wrap(readPointer + usedBytes, buffersize)
      && held == Window(buffer[..], readPointer, usedBytes)
    }

    /** The first half of a read: on an empty buffer the calling thread blocks. A thread already waiting is forgotten. */
    method BeginRead(current: Thread) returns (blocks: bool)
      requires Valid()
      modifies this`blockedThread
      ensures Valid() && blocks == (held == [])
      ensures blockedThread == if blocks then Some(current) else old(blockedThread)
    {
      blocks := usedBytes == 0;
      if blocks {
        blockedThread := Some(current);
      }
    }

    /** The second half: hands out the oldest bytes, as many as are wanted and there. */
    method FinishRead(bytes: array<byte>, length: nat) returns (read: nat)
      requires Valid() && length <= bytes.Length && bytes != buffer
      modifies this`usedBytes, this`readPointer, this`delivered, this`held, bytes
      ensures Valid()
      ensures read == |Given(old(held), length)|
      ensures bytes[..] == Given(old(held), length) + old(bytes[..])[read..]
      ensures held == old(held)[read..] && delivered == old(delivered) + Given(old(held), length)
    {
      if usedBytes == 0 {
        return 0;
      }
      read := length;
      if read > usedBytes {
        read := usedBytes;
      }
      Take(bytes, read);
    }

    /** Hands out `n` bytes. */
    method Take(bytes: array<byte>, n: nat)
      requires Valid() && n <= bytes.Length && bytes != buffer && n <= usedBytes && usedBytes > 0
      modifies this`usedBytes, this`readPointer, this`delivered, this`held, bytes
      ensures Valid()
      ensures bytes[..] == old(held)[..n] + old(bytes[..])[n..]
      ensures held == old(held)[n..] && delivered == old(delivered) + old(held)[..n]
    {
      WindowSplit(buffer[..], readPointer, usedBytes, n);
      CopyOut(bytes, n);
      usedBytes := usedBytes - n;
      Moved(delivered, held, n);
      delivered, held := delivered + held[..n], held[n..];
    }

    /** Copies bytes out, in two pieces around the end of the buffer, and moves the read pointer. */
    method CopyOut(bytes: array<byte>, n: nat)
      requires buffer.Length == buffersize && n <= bytes.Length && bytes != buffer && n <= buffersize && readPointer < buffersize
      modifies this`readPointer, bytes
      ensures bytes[..] == Window(buffer[..], old(readPointer), n) + old(bytes[..])[n..]
      ensures readPointer == Wrap(old(readPointer) + n, buffersize)
    {
      CopiedIsWindow(bytes[..], buffer[..], readPointer, n);
      readPointer := CopyRing(bytes, n);
    }

    method CopyRing(bytes: array<byte>, n: nat) returns (next: nat)
      requires buffer.Length == buffersize && n <= bytes.Length && bytes != buffer && n <= buffersize && readPointer < buffersize
      modifies bytes
      ensures bytes[..] == Copied(old(bytes[..]), buffer[..], readPointer, n)
      ensures next == Wrap(readPointer + n, buffersize)
    {
      ghost var a := buffer[..];
      if readPointer + n >= buffersize {
        var copy1 := buffersize - readPointer;
        assert buffer[readPointer..] == a[readPointer..] && buffer[..n - copy1] == a[..readPointer + n - |a|];
        MemCpy(bytes, 0, buffer[readPointer..]);
        MemCpy(bytes, copy1, buffer[..n - copy1]);
        next := n - copy1;
      } else {
        assert buffer[readPointer..readPointer + n] == a[readPointer..readPointer + n];
        MemCpy(bytes, 0, buffer[readPointer..readPointer + n]);
        next := readPointer + n;
      }
    }

    /** Copies bytes in likewise, and moves the write position. */
    method CopyIn(bytes: array<byte>, n: nat)
      requires buffer.Length == buffersize && n <= bytes.Length && bytes != buffer && 0 < n <= buffersize && position < buffersize
      modifies this`position, buffer
      ensures buffer[..] == Placed(old(buffer[..]), old(position), bytes[..n])
      ensures position == Wrap(old(position) + n, buffersize)
    {
      ghost var s := bytes[..n];
      if position + n >= buffersize {
        var copy1 := buffersize - position;
        assert bytes[..copy1] == s[..copy1] && bytes[copy1..n] == s[copy1..];
        MemCpy(buffer, position, bytes[..copy1]);
        MemCpy(buffer, 0, bytes[copy1..n]);
        position := n - copy1;
      } else {
        MemCpy(buffer, position, bytes[..n]);
        position := position + n;
      }
    }

    /** Takes as many of the bytes as there is room for, and tells only whether that was none. Wakes the waiting thread. */
    method WriteBytes(bytes: array<byte>, length: nat) returns (error: int, unblocked: Option<Thread>)
      requires Valid() && length <= bytes.Length && bytes != buffer && length + usedBytes < UNINT4_RANGE
      modifies this`usedBytes, this`position, this`blockedThread, this`accepted, this`held, buffer
      ensures Valid()
      ensures var taken := Taken(old(held), buffersize, bytes[..length]);
              && held == old(held) + taken && accepted == old(accepted) + taken
              && (if taken == [] then error == DEVICE_MEMORY_EXHAUSTED && unblocked == None && blockedThread == old(blockedThread)
                  else error == OK && unblocked == old(blockedThread) && blockedThread == None)
    {
      var writeBytes := length;
      if writeBytes + usedBytes > buffersize {
        writeBytes := buffersize - usedBytes;
      }
      if writeBytes == 0 {
        return DEVICE_MEMORY_EXHAUSTED, None;
      }
      Accept(bytes, writeBytes);
      unblocked := blockedThread;
      blockedThread := None;
      return OK, unblocked;
    }

    /** Takes `n` bytes. */
    method Accept(bytes: array<byte>, n: nat)
      requires Valid() && n <= bytes.Length && bytes != buffer && 0 < n <= buffersize - usedBytes
      modifies this`usedBytes, this`position, this`accepted, this`held, buffer
      ensures Valid() && held == old(held) + bytes[..n] && accepted == old(accepted) + bytes[..n]
    {
      Appended(delivered, held, bytes[..n]);
      accepted := accepted + bytes[..n];
      Grow(bytes, n);
    }

    method Grow(bytes: array<byte>, n: nat)
      requires InBuffer() && n <= bytes.Length && bytes != buffer && 0 < n <= buffersize - usedBytes
      modifies this`usedBytes, this`position, this`held, buffer
      ensures InBuffer() && held == old(held) + bytes[..n]
    {
      ghost var s := bytes[..n];
      PlacedBehind(buffer[..], readPointer, usedBytes, s);
      held := held + s;
      usedBytes := usedBytes + n;
      CopyIn(bytes, n);
    }
  }
}
