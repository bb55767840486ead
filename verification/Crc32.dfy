/** CRC-32 (source/inc/crc32.c; section 8 of RFC 1952): the table-driven sum of bytes against the sum bit by bit. */
module Crc32 {

  import opened Collections
  import opened Words

  const POLYNOMIAL: bv32 := 0xedb88320
  const BYTE_BITS: nat := 8

  /** One bit of the message, reflected: the register shifts right, and the polynomial comes in when a one drops out. */
  function Step(c: bv32): bv32 {
    if c & 1 == 1 then POLYNOMIAL ^ (c >> 1) else c >> 1
  }

  function Step8(c: bv32): bv32 {
    Step(Step(Step(Step(Step(Step(Step(Step(c))))))))
  }

  /** The literal table, in sixteen rows of sixteen. */
  const CRC_32_TAB: seq<seq<bv32>> := [
    [0x00000000, 0x77073096, 0xee0e612c, 0x990951ba, 0x076dc419, 0x706af48f, 0xe963a535, 0x9e6495a3,
     0x0edb8832, 0x79dcb8a4, 0xe0d5e91e, 0x97d2d988, 0x09b64c2b, 0x7eb17cbd, 0xe7b82d07, 0x90bf1d91],
    [0x1db71064, 0x6ab020f2, 0xf3b97148, 0x84be41de, 0x1adad47d, 0x6ddde4eb, 0xf4d4b551, 0x83d385c7,
     0x136c9856, 0x646ba8c0, 0xfd62f97a, 0x8a65c9ec, 0x14015c4f, 0x63066cd9, 0xfa0f3d63, 0x8d080df5],
    [0x3b6e20c8, 0x4c69105e, 0xd56041e4, 0xa2677172, 0x3c03e4d1, 0x4b04d447, 0xd20d85fd, 0xa50ab56b,
     0x35b5a8fa, 0x42b2986c, 0xdbbbc9d6, 0xacbcf940, 0x32d86ce3, 0x45df5c75, 0xdcd60dcf, 0xabd13d59],
    [0x26d930ac, 0x51de003a, 0xc8d75180, 0xbfd06116, 0x21b4f4b5, 0x56b3c423, 0xcfba9599, 0xb8bda50f,
     0x2802b89e, 0x5f058808, 0xc60cd9b2, 0xb10be924, 0x2f6f7c87, 0x58684c11, 0xc1611dab, 0xb6662d3d],
    [0x76dc4190, 0x01db7106, 0x98d220bc, 0xefd5102a, 0x71b18589, 0x06b6b51f, 0x9fbfe4a5, 0xe8b8d433,
     0x7807c9a2, 0x0f00f934, 0x9609a88e, 0xe10e9818, 0x7f6a0dbb, 0x086d3d2d, 0x91646c97, 0xe6635c01],
    [0x6b6b51f4, 0x1c6c6162, 0x856530d8, 0xf262004e, 0x6c0695ed, 0x1b01a57b, 0x8208f4c1, 0xf50fc457,
     0x65b0d9c6, 0x12b7e950, 0x8bbeb8ea, 0xfcb9887c, 0x62dd1ddf, 0x15da2d49, 0x8cd37cf3, 0xfbd44c65],
    [0x4db26158, 0x3ab551ce, 0xa3bc0074, 0xd4bb30e2, 0x4adfa541, 0x3dd895d7, 0xa4d1c46d, 0xd3d6f4fb,
     0x4369e96a, 0x346ed9fc, 0xad678846, 0xda60b8d0, 0x44042d73, 0x33031de5, 0xaa0a4c5f, 0xdd0d7cc9],
    [0x5005713c, 0x270241aa, 0xbe0b1010, 0xc90c2086, 0x5768b525, 0x206f85b3, 0xb966d409, 0xce61e49f,
     0x5edef90e, 0x29d9c998, 0xb0d09822, 0xc7d7a8b4, 0x59b33d17, 0x2eb40d81, 0xb7bd5c3b, 0xc0ba6cad],
    [0xedb88320, 0x9abfb3b6, 0x03b6e20c, 0x74b1d29a, 0xead54739, 0x9dd277af, 0x04db2615, 0x73dc1683,
     0xe3630b12, 0x94643b84, 0x0d6d6a3e, 0x7a6a5aa8, 0xe40ecf0b, 0x9309ff9d, 0x0a00ae27, 0x7d079eb1],
    [0xf00f9344, 0x8708a3d2, 0x1e01f268, 0x6906c2fe, 0xf762575d, 0x806567cb, 0x196c3671, 0x6e6b06e7,
     0xfed41b76, 0x89d32be0, 0x10da7a5a, 0x67dd4acc, 0xf9b9df6f, 0x8ebeeff9, 0x17b7be43, 0x60b08ed5],
    [0xd6d6a3e8, 0xa1d1937e, 0x38d8c2c4, 0x4fdff252, 0xd1bb67f1, 0xa6bc5767, 0x3fb506dd, 0x48b2364b,
     0xd80d2bda, 0xaf0a1b4c, 0x36034af6, 0x41047a60, 0xdf60efc3, 0xa867df55, 0x316e8eef, 0x4669be79],
    [0xcb61b38c, 0xbc66831a, 0x256fd2a0, 0x5268e236, 0xcc0c7795, 0xbb0b4703, 0x220216b9, 0x5505262f,
     0xc5ba3bbe, 0xb2bd0b28, 0x2bb45a92, 0x5cb36a04, 0xc2d7ffa7, 0xb5d0cf31, 0x2cd99e8b, 0x5bdeae1d],
    [0x9b64c2b0, 0xec63f226, 0x756aa39c, 0x026d930a, 0x9c0906a9, 0xeb0e363f, 0x72076785, 0x05005713,
     0x95bf4a82, 0xe2b87a14, 0x7bb12bae, 0x0cb61b38, 0x92d28e9b, 0xe5d5be0d, 0x7cdcefb7, 0x0bdbdf21],
    [0x86d3d2d4, 0xf1d4e242, 0x68ddb3f8, 0x1fda836e, 0x81be16cd, 0xf6b9265b, 0x6fb077e1, 0x18b74777,
     0x88085ae6, 0xff0f6a70, 0x66063bca, 0x11010b5c, 0x8f659eff, 0xf862ae69, 0x616bffd3, 0x166ccf45],
    [0xa00ae278, 0xd70dd2ee, 0x4e048354, 0x3903b3c2, 0xa7672661, 0xd06016f7, 0x4969474d, 0x3e6e77db,
     0xaed16a4a, 0xd9d65adc, 0x40df0b66, 0x37d83bf0, 0xa9bcae53, 0xdebb9ec5, 0x47b2cf7f, 0x30b5ffe9],
    [0xbdbdf21c, 0xcabac28a, 0x53b39330, 0x24b4a3a6, 0xbad03605, 0xcdd70693, 0x54de5729, 0x23d967bf,
     0xb3667a2e, 0xc4614ab8, 0x5d681b02, 0x2a6f2b94, 0xb40bbe37, 0xc30c8ea1, 0x5a05df1b, 0x2d02ef8d]
  ]

  function TableEntry(i: bv8): bv32 {
    CRC_32_TAB[(i >> 4) as nat][(i & 15) as nat]
  }

  /** A byte below four. */
  predicate TwoBits(b: bv8) {
    b == 0 || b == 1 || b == 2 || b == 3
  }

  lemma TableQuarter0(i: bv8)
    requires i < 64
    ensures TableEntry(i) == Step8(i as bv32)
  {
    var b := (i >> 6, (i >> 4) & 3, (i >> 2) & 3, i & 3);
    assert b.0 == 0 && TwoBits(b.1) && TwoBits(b.2) && TwoBits(b.3);
  }

  lemma TableQuarter1(i: bv8)
    requires 64 <= i < 128
    ensures TableEntry(i) == Step8(i as bv32)
  {
    var b := (i >> 6, (i >> 4) & 3, (i >> 2) & 3, i & 3);
    assert b.0 == 1 && TwoBits(b.1) && TwoBits(b.2) && TwoBits(b.3);
  }

  lemma TableQuarter2(i: bv8)
    requires 128 <= i < 192
    ensures TableEntry(i) == Step8(i as bv32)
  {
    var b := (i >> 6, (i >> 4) & 3, (i >> 2) & 3, i & 3);
    assert b.0 == 2 && TwoBits(b.1) && TwoBits(b.2) && TwoBits(b.3);
  }

  lemma TableQuarter3(i: bv8)
    requires i >= 192
    ensures TableEntry(i) == Step8(i as bv32)
  {
    var b := (i >> 6, (i >> 4) & 3, (i >> 2) & 3, i & 3);
    assert b.0 == 3 && TwoBits(b.1) && TwoBits(b.2) && TwoBits(b.3);
  }

  /** Every literal entry is eight bit steps of its index; the two-bit pieces split the proof into the 256 cases. */
  lemma TableCorrect(i: bv8)
    ensures TableEntry(i) == Step8(i as bv32)
  {
    if i < 64 {
      TableQuarter0(i);
    } else if i < 128 {
      TableQuarter1(i);
    } else if i < 192 {
      TableQuarter2(i);
    } else {
      TableQuarter3(i);
    }
  }

  /** The macro `UPDC32`. */
  function Updc32(octet: bv8, crc: bv32): bv32 {
    Xor(TableEntry((Xor(crc, octet as bv32) & 0xff) as bv8), crc >> 8)
  }

  // ---------- the step is linear ----------

  lemma ShiftXor(a: bv32, b: bv32)
    ensures (a ^ b) >> 1 == (a >> 1) ^ (b >> 1)
    ensures (a ^ b) & 1 == (a & 1) ^ (b & 1)
    ensures a & 1 == 0 || a & 1 == 1
  {
  }

  lemma StepLinear(a: bv32, b: bv32)
    ensures Step(a ^ b) == Step(a) ^ Step(b)
  {
    ShiftXor(a, b);
    ShiftXor(b, a);
    var x, y := a >> 1, b >> 1;
    assert (POLYNOMIAL ^ x) ^ (POLYNOMIAL ^ y) == x ^ y;
    assert (POLYNOMIAL ^ x) ^ y == POLYNOMIAL ^ (x ^ y);
    assert x ^ (POLYNOMIAL ^ y) == POLYNOMIAL ^ (x ^ y);
  }

  lemma StepInjective(a: bv32, b: bv32)
    requires Step(a) == Step(b)
    ensures a == b
  {
  }

  function Bit(b: bool): bv32 {
    if b then 1 else 0
  }

  /** The register takes in one bit. */
  function TakeBit(c: bv32, b: bool): bv32 {
    Step(Xor(c, Bit(b)))
  }

  // Single operations with names of their own, so that proofs can treat them as units.

  function Low(w: bv32): bool {
    w & 1 == 1
  }

  lemma SplitLow(c: bv32, w: bv32)
    ensures Xor(c, w) == Xor(Xor(c, Bit(Low(w))), w & 0xfffffffe)
  {
    LowAndRest(w);
    XorAssoc(c, Bit(Low(w)), w & 0xfffffffe);
  }

  lemma LowAndRest(w: bv32)
    ensures w == Xor(Bit(Low(w)), w & 0xfffffffe)
  {
    if w & 1 == 1 {
      assert w == 1 ^ (w & 0xfffffffe);
    } else {
      assert w == 0 ^ (w & 0xfffffffe);
    }
  }

  lemma StepEven(w: bv32)
    ensures Step(w & 0xfffffffe) == Half(w)
  {
  }

  lemma XorStep(a: bv32, b: bv32)
    ensures Step(Xor(a, b)) == Xor(Step(a), Step(b))
  {
    StepLinear(a, b);
  }

  /** Bits above the lowest only move down in a step. */
  lemma StepUpper(c: bv32, w: bv32)
    ensures Step(Xor(c, w)) == Xor(TakeBit(c, Low(w)), Half(w))
  {
    SplitLow(c, w);
    StepEven(w);
    XorStep(Xor(c, Bit(Low(w))), w & 0xfffffffe);
  }

  // ---------- the sum bit by bit ----------

  /** The register after the bits of a message. */
  function Feed(c: bv32, bits: seq<bool>): bv32
    decreases bits
  {
    if bits == [] then c else Feed(TakeBit(c, bits[0]), bits[1..])
  }

  /** The `n` lowest bits of a word, lowest first. */
  function LowBits(w: bv32, n: nat): (bits: seq<bool>)
    ensures |bits| == n
    decreases n
  {
    if n == 0 then [] else [Low(w)] + LowBits(Half(w), n - 1)
  }

  function ByteBits(b: bv8): (bits: seq<bool>)
    ensures |bits| == BYTE_BITS
  {
    LowBits(b as bv32, BYTE_BITS)
  }

  /** The bits of a message: byte by byte, each lowest bit first. */
  function BitsOf(buf: seq<bv8>): seq<bool> {
    if buf == [] then [] else BitsOf(buf[..|buf| - 1]) + ByteBits(buf[|buf| - 1])
  }

  /** The CRC of RFC 1952: the register starts all ones and ends inverted. */
  function Crc(buf: seq<bv8>): bv32 {
    !Feed(0xffffffff, BitsOf(buf))
  }

  lemma {:induction false} FeedConcat(c: bv32, a: seq<bool>, b: seq<bool>)
    ensures Feed(c, a + b) == Feed(Feed(c, a), b)
    decreases a
  {
    if a == [] {
      assert a + b == b;
    } else {
      FeedConcat(TakeBit(c, a[0]), a[1..], b);
      assert (a + b)[1..] == a[1..] + b;
    }
  }

  function Steps(c: bv32, n: nat): bv32
    decreases n
  {
    if n == 0 then c else Steps(Step(c), n - 1)
  }

  lemma FeedLowBits(c: bv32, w: bv32, n: nat)
    requires n > 0
    ensures Feed(c, LowBits(w, n)) == Feed(TakeBit(c, Low(w)), LowBits(Half(w), n - 1))
  {
    assert LowBits(w, n)[1..] == LowBits(Half(w), n - 1);
  }

  /** Putting a word into the register at once, or its bits one by one, is the same but for the bits not yet used. */
  lemma {:induction false} StepsIsFeed(c: bv32, w: bv32, n: nat)
    ensures Steps(Xor(c, w), n) == Xor(Feed(c, LowBits(w, n)), ShiftDown(w, n))
    decreases n
  {
    if n > 0 {
      StepsIsFeed(TakeBit(c, Low(w)), Half(w), n - 1);
      StepsFeedMore(c, w, n);
    }
  }

  lemma StepsFeedMore(c: bv32, w: bv32, n: nat)
    requires n > 0
    ensures Steps(Xor(c, w), n) == Steps(Xor(TakeBit(c, Low(w)), Half(w)), n - 1)
    ensures Feed(c, LowBits(w, n)) == Feed(TakeBit(c, Low(w)), LowBits(Half(w), n - 1))
    ensures ShiftDown(w, n) == ShiftDown(Half(w), n - 1)
  {
    StepUpper(c, w);
    FeedLowBits(c, w, n);
  }

  lemma Step8IsSteps(c: bv32)
    ensures Step8(c) == Steps(c, 8)
  {
  }

  lemma ByteShiftsOut(w: bv32)
    ensures ShiftDown(w, 8) == w >> 8
  {
  }

  lemma Parts(x: bv32)
    ensures Xor(x & 0xff, x & 0xffffff00) == x
    ensures ((x & 0xff) as bv8) as bv32 == x & 0xff
  {
  }

  lemma Upper8(x: bv32)
    ensures Step8(x & 0xffffff00) == x >> 8
  {
  }

  /** Of a register the low byte is worked through the polynomial by eight steps, the rest moves down. */
  lemma StepsUpper8(x: bv32)
    ensures Steps(x, 8) == Xor(Step8(x & 0xff), x >> 8)
  {
    Parts(x);
    StepsLinear(x & 0xff, x & 0xffffff00, 8);
    Step8IsSteps(x & 0xff);
    Step8IsSteps(x & 0xffffff00);
    Upper8(x);
  }

  lemma OctetIsLow(octet: bv8, crc: bv32)
    ensures Xor(crc, octet as bv32) >> 8 == crc >> 8
  {
  }

  /** One table step is eight bit steps of the register with the byte put in. */
  lemma Updc32IsSteps(octet: bv8, crc: bv32)
    ensures Updc32(octet, crc) == Steps(Xor(crc, octet as bv32), 8)
  {
    var x := Xor(crc, octet as bv32);
    Parts(x);
    TableCorrect((x & 0xff) as bv8);
    OctetIsLow(octet, crc);
    StepsUpper8(x);
  }

  lemma {:induction false} StepsLinear(a: bv32, b: bv32, n: nat)
    ensures Steps(Xor(a, b), n) == Xor(Steps(a, n), Steps(b, n))
    decreases n
  {
    if n > 0 {
      XorStep(a, b);
      StepsLinear(Step(a), Step(b), n - 1);
    }
  }

  /** One table step is the eight bits of the byte, one by one. */
  lemma Updc32IsFeed(octet: bv8, crc: bv32)
    ensures Updc32(octet, crc) == Feed(crc, ByteBits(octet))
  {
    Updc32IsSteps(octet, crc);
    StepsIsFeed(crc, octet as bv32, BYTE_BITS);
    ByteShiftsOut(octet as bv32);
    XorZero(Feed(crc, ByteBits(octet)));
  }

  /** The register after one more byte of a buffer. */
  lemma FeedByte(c: bv32, buf: seq<bv8>, i: nat)
    requires i < |buf|
    ensures Feed(c, BitsOf(buf[..i + 1])) == Updc32(buf[i], Feed(c, BitsOf(buf[..i])))
  {
    var next := buf[..i + 1];
    assert next[..|next| - 1] == buf[..i];
    FeedConcat(c, BitsOf(buf[..i]), ByteBits(buf[i]));
    Updc32IsFeed(buf[i], Feed(c, BitsOf(buf[..i])));
  }

  /** `crc32` with the literal table computes the bit-by-bit CRC. */
  method Crc32(buf: seq<bv8>) returns (crc: bv32)
    ensures crc == Crc(buf)
  {
    var oldcrc32: bv32 := 0xffffffff;
    for i := 0 to |buf|
      invariant oldcrc32 == Feed(0xffffffff, BitsOf(buf[..i]))
    {
      FeedByte(0xffffffff, buf, i);
      oldcrc32 := Updc32(buf[i], oldcrc32);
    }
    assert buf[..|buf|] == buf;
    return !oldcrc32;
  }

  // ---------- the form that computes its table ----------

  lemma StepsSnoc(c: bv32, n: nat)
    ensures Step(Steps(c, n)) == Steps(c, n + 1)
    decreases n
  {
    if n > 0 {
      StepsSnoc(Step(c), n - 1);
    }
  }

  /** `make_crc_table`: the computed table is the literal one. */
  method MakeCrcTable(table: array<bv32>)
    requires table.Length == 256
    modifies table
    ensures forall i: bv8 :: table[i as nat] == TableEntry(i)
  {
    for n := 0 to 256
      invariant forall i: bv8 :: (i as nat) < n ==> table[i as nat] == TableEntry(i)
    {
      table[n] := MakeEntry(n as bv8);
    }
  }

  /** Its inner loop. */
  method MakeEntry(n: bv8) returns (c: bv32)
    ensures c == TableEntry(n)
  {
    c := n as bv32;
    for k := 0 to 8
      invariant c == Steps(n as bv32, k)
    {
      StepsSnoc(n as bv32, k);
      if c & 1 == 1 {
        c := POLYNOMIAL ^ (c >> 1);
      } else {
        c := c >> 1;
      }
    }
    Step8IsSteps(n as bv32);
    TableCorrect(n);
  }

  /** `update_crc`: a running register over a buffer, with a computed table. */
  method UpdateCrc(crc: bv32, buf: seq<bv8>) returns (c: bv32)
    ensures c == Feed(crc, BitsOf(buf))
  {
    var table := new bv32[256];
    MakeCrcTable(table);
    c := crc;
    for n := 0 to |buf|
      invariant c == Feed(crc, BitsOf(buf[..n]))
      invariant forall i: bv8 :: table[i as nat] == TableEntry(i)
    {
      FeedByte(crc, buf, n);
      c := TableStep(table, buf[n], c);
    }
    assert buf[..|buf|] == buf;
  }

  /** `UPDC32` on a computed table. */
  method TableStep(table: array<bv32>, octet: bv8, crc: bv32) returns (c: bv32)
    requires table.Length == 256 && forall i: bv8 :: table[i as nat] == TableEntry(i)
    ensures c == Updc32(octet, crc)
  {
    var i := (Xor(crc, octet as bv32) & 0xff) as bv8;
    c := Xor(table[i as nat], crc >> 8);
  }

  /** The other form of `crc32` computes the same. */
  method Crc32ByUpdate(buf: seq<bv8>) returns (crc: bv32)
    ensures crc == Crc(buf)
  {
    var c := UpdateCrc(0xffffffff, buf);
    InvertByXor(c);
    return c ^ 0xffffffff;
  }

  lemma InvertByXor(c: bv32)
    ensures c ^ 0xffffffff == !c
  {
  }

  // ---------- what the sum detects ----------

  /** A register never forgets: the same bits take different registers to different registers. */
  lemma {:induction false} FeedInjective(c: bv32, d: bv32, bits: seq<bool>)
    requires c != d
    ensures Feed(c, bits) != Feed(d, bits)
    decreases bits
  {
    if bits != [] {
      TakeBitInjective(c, d, bits[0]);
      FeedInjective(TakeBit(c, bits[0]), TakeBit(d, bits[0]), bits[1..]);
    }
  }

  lemma TakeBitInjective(c: bv32, d: bv32, b: bool)
    requires c != d
    ensures TakeBit(c, b) != TakeBit(d, b)
  {
    var x, y := Xor(c, Bit(b)), Xor(d, Bit(b));
    XorCancel(c, d, Bit(b));
    if Step(x) == Step(y) {
      StepInjective(x, y);
    }
  }

  lemma XorCancel(c: bv32, d: bv32, x: bv32)
    requires c != d
    ensures Xor(c, x) != Xor(d, x)
  {
  }

  function Up(d: bv32): bv32 {
    d << 1
  }

  /** The `m` highest bits are zero. */
  predicate TopZeros(d: bv32, m: nat)
    decreases m
  {
    m == 0 || (d & 0x80000000 == 0 && TopZeros(Up(d), m - 1))
  }

  lemma {:induction false} ZeroTop(m: nat)
    ensures TopZeros(0, m)
    decreases m
  {
    if m > 0 {
      assert (0 as bv32) << 1 == 0;
      ZeroTop(m - 1);
    }
  }

  /** If two registers come together over `n` bits each, they differed in the `n` lowest bits at most. */
  lemma {:induction false} DifferenceBound(c: bv32, d: bv32, a: seq<bool>, b: seq<bool>)
    requires |a| == |b| <= 32 && Feed(c, a) == Feed(d, b)
    ensures TopZeros(Xor(c, d), 32 - |a|)
    decreases a
  {
    if a == [] {
      XorSelf(c);
      ZeroTop(32);
    } else {
      DifferenceBound(TakeBit(c, a[0]), TakeBit(d, b[0]), a[1..], b[1..]);
      TakeBitDifference(c, d, a[0], b[0]);
      var e := Xor(Xor(c, d), Bit(a[0] != b[0]));
      StepTop(e, 33 - |a|);
      FlipLow(e, Bit(a[0] != b[0]), 32 - |a|);
      XorTwice(Xor(c, d), Bit(a[0] != b[0]));
    }
  }

  lemma XorTwice(c: bv32, x: bv32)
    ensures Xor(Xor(c, x), x) == c
  {
  }

  lemma TakeBitDifference(c: bv32, d: bv32, a: bool, b: bool)
    ensures Xor(TakeBit(c, a), TakeBit(d, b)) == Step(Xor(Xor(c, d), Bit(a != b)))
  {
    XorStep(Xor(c, Bit(a)), Xor(d, Bit(b)));
    XorSwap(c, Bit(a), d, Bit(b));
    assert Xor(Bit(a), Bit(b)) == Bit(a != b);
  }

  /** If the top of a stepped difference is zero, no polynomial came in, and the difference itself was one bit lower. */
  lemma StepTop(e: bv32, m: nat)
    requires m > 0 && TopZeros(Step(e), m)
    ensures TopZeros(e, m - 1) && e & 1 == 0
  {
    StepHigh(e);
  }

  lemma StepHigh(e: bv32)
    requires Step(e) & 0x80000000 == 0
    ensures e & 1 == 0 && Up(Step(e)) == e
  {
  }

  lemma Up4(d: bv32)
    requires d & 0xf0000000 == 0
    ensures d & 0x80000000 == 0 && Up(d) & 0x80000000 == 0
    ensures Up(Up(d)) & 0x80000000 == 0 && Up(Up(Up(d))) & 0x80000000 == 0
  {
  }

  lemma Top4(d: bv32, m: nat)
    requires d & 0xf0000000 == 0 && TopZeros(Up(Up(Up(Up(d)))), m)
    ensures TopZeros(d, m + 4)
  {
    Up4(d);
    assert TopZeros(Up(Up(Up(d))), m + 1);
    assert TopZeros(Up(Up(d)), m + 2);
    assert TopZeros(Up(d), m + 3);
  }

  lemma OneTop()
    ensures TopZeros(1, 31)
  {
    assert TopZeros(0x40000000, 1);
    assert TopZeros(0x10000000, 3) by { assert TopZeros(0x20000000, 2); }
    Top4(0x1000000, 3);
    Top4(0x100000, 7);
    Top4(0x10000, 11);
    Top4(0x1000, 15);
    Top4(0x100, 19);
    Top4(0x10, 23);
    Top4(1, 27);
  }

  lemma {:induction false} FlipLow(e: bv32, f: bv32, m: nat)
    requires m <= 31 && TopZeros(e, m) && (f == 0 || f == 1)
    ensures TopZeros(Xor(e, f), m)
  {
    OneTop();
    ZeroTop(31);
    TopXor(e, f, m, 31);
  }

  lemma {:induction false} TopXor(e: bv32, f: bv32, m: nat, n: nat)
    requires TopZeros(e, m) && TopZeros(f, n) && m <= n
    ensures TopZeros(Xor(e, f), m)
    decreases m
  {
    if m > 0 {
      XorShiftUp(e, f);
      XorTop(e, f);
      TopXor(Up(e), Up(f), m - 1, n - 1);
    }
  }

  lemma XorShiftUp(e: bv32, f: bv32)
    ensures Up(Xor(e, f)) == Xor(Up(e), Up(f))
  {
  }

  lemma XorTop(e: bv32, f: bv32)
    requires e & 0x80000000 == 0 && f & 0x80000000 == 0
    ensures Xor(e, f) & 0x80000000 == 0
  {
  }

  /** Up to 32 bits are determined by the register they lead to. */
  lemma {:induction false} WindowInjective(c: bv32, a: seq<bool>, b: seq<bool>)
    requires |a| == |b| <= 32 && a != b
    ensures Feed(c, a) != Feed(c, b)
    decreases a
  {
    if a[0] == b[0] {
      assert a == [a[0]] + a[1..] && b == [b[0]] + b[1..];
      WindowInjective(TakeBit(c, a[0]), a[1..], b[1..]);
    } else if Feed(c, a) == Feed(c, b) {
      DifferenceBound(TakeBit(c, a[0]), TakeBit(c, b[0]), a[1..], b[1..]);
      TakeBitDifference(c, c, a[0], b[0]);
      XorSelf(c);
      FirstBitTop();
      assert false;
    }
  }

  lemma FirstBitTop()
    ensures Step(Xor(0, Bit(true))) & 0x80000000 != 0
  {
  }

  /** Two messages that differ in a burst of at most 32 bits, anywhere, have different registers. */
  lemma BurstDetected(c: bv32, before: seq<bool>, a: seq<bool>, b: seq<bool>, after: seq<bool>)
    requires |a| == |b| <= 32 && a != b
    ensures Feed(c, before + a + after) != Feed(c, before + b + after)
  {
    FeedConcat(c, before + a, after);
    FeedConcat(c, before + b, after);
    FeedConcat(c, before, a);
    FeedConcat(c, before, b);
    WindowInjective(Feed(c, before), a, b);
    FeedInjective(Feed(Feed(c, before), a), Feed(Feed(c, before), b), after);
  }

  lemma {:induction false} BitsOfConcat(u: seq<bv8>, v: seq<bv8>)
    ensures BitsOf(u + v) == BitsOf(u) + BitsOf(v)
  {
    if v == [] {
      assert u + v == u;
    } else {
      var n := |v| - 1;
      BitsOfConcat(u, v[..n]);
      BitsOfLast(v);
      assert (u + v)[..|u + v| - 1] == u + v[..n] && (u + v)[|u + v| - 1] == v[n];
      BitsOfLast(u + v);
      Regroup(BitsOf(u), BitsOf(v[..n]), ByteBits(v[n]));
    }
  }

  lemma SameTail(a: bv32, b: bv32, n: nat)
    requires n > 0 && LowBits(a, n) == LowBits(b, n)
    ensures Low(a) == Low(b) && LowBits(Half(a), n - 1) == LowBits(Half(b), n - 1)
  {
    assert LowBits(a, n)[0] == Low(a) && LowBits(b, n)[0] == Low(b);
    assert LowBits(a, n)[1..] == LowBits(Half(a), n - 1) && LowBits(b, n)[1..] == LowBits(Half(b), n - 1);
  }

  lemma SameWord(a: bv32, b: bv32)
    requires Low(a) == Low(b) && Half(a) == Half(b)
    ensures a == b
  {
  }

  lemma {:induction false} LowBitsInjective(a: bv32, b: bv32, n: nat)
    requires LowBits(a, n) == LowBits(b, n) && ShiftDown(a, n) == ShiftDown(b, n)
    ensures a == b
    decreases n
  {
    if n > 0 {
      SameTail(a, b, n);
      LowBitsInjective(Half(a), Half(b), n - 1);
      SameWord(a, b);
    }
  }

  lemma ByteBitsInjective(x: bv8, y: bv8)
    requires ByteBits(x) == ByteBits(y)
    ensures x == y
  {
    ByteShiftsOut(x as bv32);
    ByteShiftsOut(y as bv32);
    assert (x as bv32) >> 8 == 0 && (y as bv32) >> 8 == 0;
    LowBitsInjective(x as bv32, y as bv32, BYTE_BITS);
  }

  lemma BitsOfLast(u: seq<bv8>)
    requires u != []
    ensures BitsOf(u) == BitsOf(u[..|u| - 1]) + ByteBits(u[|u| - 1])
  {
  }

  lemma {:induction false} BitsOfLength(u: seq<bv8>)
    ensures |BitsOf(u)| == 8 * |u|
  {
    if u != [] {
      BitsOfLast(u);
      BitsOfLength(u[..|u| - 1]);
    }
  }

  lemma LastBits(u: seq<bv8>, x: bv8, v: seq<bv8>, y: bv8)
    requires |u| == |v| && BitsOf(u + [x]) == BitsOf(v + [y])
    ensures BitsOf(u) == BitsOf(v) && x == y
  {
    BitsOfSnoc(u, x);
    BitsOfSnoc(v, y);
    BitsOfLength(u);
    BitsOfLength(v);
    SameSplit(BitsOf(u), ByteBits(x), BitsOf(v), ByteBits(y));
    ByteBitsInjective(x, y);
  }

  lemma BitsOfSnoc(u: seq<bv8>, x: bv8)
    ensures BitsOf(u + [x]) == BitsOf(u) + ByteBits(x)
  {
    assert (u + [x])[..|u|] == u;
  }

  lemma {:induction false} BitsOfInjective(u: seq<bv8>, v: seq<bv8>)
    requires |u| == |v| && BitsOf(u) == BitsOf(v)
    ensures u == v
  {
    if u != [] {
      var n := |u| - 1;
      LastAside(u);
      LastAside(v);
      LastBits(u[..n], u[n], v[..n], v[n]);
      BitsOfInjective(u[..n], v[..n]);
    }
  }

  lemma LastAside(u: seq<bv8>)
    requires u != []
    ensures u == u[..|u| - 1] + [u[|u| - 1]]
  {
  }

  lemma SameSplit(a: seq<bool>, b: seq<bool>, c: seq<bool>, d: seq<bool>)
    requires |a| == |c| && a + b == c + d
    ensures a == c && b == d
  {
    assert a == (a + b)[..|a|] && c == (c + d)[..|c|];
    assert b == (a + b)[|a|..] && d == (c + d)[|c|..];
  }

  /** Two messages that differ only inside four consecutive bytes have different sums. */
  lemma WindowDetected(before: seq<bv8>, x: seq<bv8>, y: seq<bv8>, after: seq<bv8>)
    requires |x| == |y| <= 4 && x != y
    ensures Crc(before + x + after) != Crc(before + y + after)
  {
    BitsOfConcat(before + x, after);
    BitsOfConcat(before + y, after);
    BitsOfConcat(before, x);
    BitsOfConcat(before, y);
    BitsOfLength(x);
    BitsOfLength(y);
    if BitsOf(x) == BitsOf(y) {
      BitsOfInjective(x, y);
    }
    BurstDetected(0xffffffff, BitsOf(before), BitsOf(x), BitsOf(y), BitsOf(after));
    InvertInjective(Feed(0xffffffff, BitsOf(before + x + after)), Feed(0xffffffff, BitsOf(before + y + after)));
  }

  lemma InvertInjective(c: bv32, d: bv32)
    requires c != d
    ensures !c != !d
  {
  }

  // ---------- what its two constants are for ----------

  lemma FeedSnoc(c: bv32, m: seq<bv8>, x: bv8)
    ensures Feed(c, BitsOf(m + [x])) == Updc32(x, Feed(c, BitsOf(m)))
  {
    var n := m + [x];
    assert n[..|m|] == m && n[..|m| + 1] == n;
    FeedByte(c, n, |m|);
  }

  /** Nothing sums up to zero. */
  lemma CrcOfNothing()
    ensures Crc([]) == 0
  {
  }

  lemma FirstZeroByte()
    ensures Feed(0xffffffff, BitsOf([0])) == 0x2dfd1072
  {
    FeedSnoc(0xffffffff, [], 0);
    assert [] + [0 as bv8] == [0];
    assert TableEntry(0xff) == 0x2d02ef8d;
  }

  /** A zero byte in front of a message changes its sum. */
  lemma LeadingZeroCounts(m: seq<bv8>)
    ensures Crc([0] + m) != Crc(m)
  {
    BitsOfConcat([0], m);
    FeedConcat(0xffffffff, BitsOf([0]), BitsOf(m));
    FirstZeroByte();
    FeedInjective(0x2dfd1072, 0xffffffff, BitsOf(m));
    InvertInjective(Feed(0x2dfd1072, BitsOf(m)), Feed(0xffffffff, BitsOf(m)));
  }

  function LowByte(w: bv32): bv8 {
    (w & 0xff) as bv8
  }

  /** A word as the four bytes that are sent behind a message, lowest first. */
  function Bytes(w: bv32): seq<bv8> {
    [LowByte(w), LowByte(Down8(w)), LowByte(Down8(Down8(w))), LowByte(Down8(Down8(Down8(w))))]
  }

  lemma Down8Xor(t: bv32, d: bv32)
    ensures Down8(Xor(t, d)) == Xor(Down8(t), Down8(d))
  {
  }

  lemma SentIndex(t: bv32, d: bv32, w: bv32)
    requires w & 0xff == !d & 0xff
    ensures LowByte(Xor(Xor(t, d), LowByte(w) as bv32)) == LowByte(Xor(t, 0xff))
  {
  }

  /** The next byte of an inverted register removes what is left of the register, all but a known part `t`. */
  lemma SentByte(t: bv32, d: bv32, w: bv32)
    requires w & 0xff == !d & 0xff
    ensures Updc32(LowByte(w), Xor(t, d)) == Xor(Updc32(0xff, t), Down8(d))
  {
    SentIndex(t, d, w);
    Down8Xor(t, d);
    XorAssoc(TableEntry(LowByte(Xor(t, 0xff))), Down8(t), Down8(d));
  }

  lemma SentBytes(c: bv32)
    ensures var w := !c;
            && w & 0xff == !c & 0xff && Down8(w) & 0xff == !Down8(c) & 0xff
            && Down8(Down8(w)) & 0xff == !Down8(Down8(c)) & 0xff
            && Down8(Down8(Down8(w))) & 0xff == !Down8(Down8(Down8(c))) & 0xff
    ensures Down8(Down8(Down8(Down8(c)))) == 0
  {
  }

  /** The known parts, one after the other. */
  lemma KnownParts()
    ensures Updc32(0xff, 0) == 0x2d02ef8d && Updc32(0xff, 0x2d02ef8d) == 0xbe2612ff
    ensures Updc32(0xff, 0xbe2612ff) == 0x00be2612 && Updc32(0xff, 0x00be2612) == 0xdebb20e3
  {
  }

  /** The register behind some bytes. */
  function Update(c: bv32, x: seq<bv8>): bv32 {
    if x == [] then c else Updc32(x[|x| - 1], Update(c, x[..|x| - 1]))
  }

  lemma UpdateNext(c: bv32, x: seq<bv8>, i: nat)
    requires i < |x|
    ensures Update(c, x[..i + 1]) == Updc32(x[i], Update(c, x[..i]))
  {
    assert x[..i + 1][..i] == x[..i];
  }

  lemma FeedMore(c: bv32, d: bv32, m: seq<bv8>, x: seq<bv8>, b: bv8)
    requires Feed(c, BitsOf(m + x)) == Update(d, x)
    ensures Feed(c, BitsOf(m + (x + [b]))) == Update(d, x + [b])
  {
    FeedSnoc(c, m + x, b);
    UpdateSnoc(d, x, b);
    Regroup(m, x, [b]);
  }

  lemma UpdateSnoc(c: bv32, x: seq<bv8>, b: bv8)
    ensures Update(c, x + [b]) == Updc32(b, Update(c, x))
  {
    assert (x + [b])[..|x|] == x;
  }

  lemma {:induction false} FeedIsUpdate(c: bv32, m: seq<bv8>, x: seq<bv8>)
    ensures Feed(c, BitsOf(m + x)) == Update(Feed(c, BitsOf(m)), x)
  {
    if x == [] {
      assert m + x == m;
    } else {
      var n := |x| - 1;
      FeedIsUpdate(c, m, x[..n]);
      FeedMore(c, Feed(c, BitsOf(m)), m, x[..n], x[n]);
      LastAside(x);
    }
  }

  /** The `i`-th byte is the lowest one of the inverse of `d`. */
  predicate Sends(x: seq<bv8>, i: nat, w: bv32, d: bv32) {
    i < |x| && x[i] == LowByte(w) && w & 0xff == !d & 0xff
  }

  /** Before such a byte the register is a known part and what is left of the old register; behind it, less is left. */
  lemma SentNext(c: bv32, x: seq<bv8>, i: nat, k: bv32, d: bv32, w: bv32)
    requires Sends(x, i, w, d) && Update(c, x[..i]) == Xor(k, d)
    ensures Update(c, x[..i + 1]) == Xor(Updc32(0xff, k), Down8(d))
  {
    UpdateNext(c, x, i);
    SentByte(k, d, w);
  }

  lemma FourSent(c: bv32, x: seq<bv8>, w: bv32, c1: bv32, w1: bv32, c2: bv32, w2: bv32, c3: bv32, w3: bv32)
    requires |x| == 4 && Sends(x, 0, w, c) && Sends(x, 1, w1, c1) && Sends(x, 2, w2, c2) && Sends(x, 3, w3, c3)
    requires c1 == Down8(c) && c2 == Down8(c1) && c3 == Down8(c2) && Down8(c3) == 0
    ensures Update(c, x) == 0xdebb20e3
  {
    XorCommutes(0, c);
    XorZero(c);
    KnownParts();
    SentNext(c, x, 0, 0, c, w);
    SentNext(c, x, 1, 0x2d02ef8d, c1, w1);
    SentNext(c, x, 2, 0xbe2612ff, c2, w2);
    SentNext(c, x, 3, 0x00be2612, c3, w3);
    XorZero(0xdebb20e3);
    assert x[..4] == x;
  }

  /** The bytes of its inverse lead every register to the same one. */
  lemma InverseSent(c: bv32)
    ensures Update(c, Bytes(!c)) == 0xdebb20e3
  {
    var w := !c;
    SentBytes(c);
    FourSent(c, Bytes(w), w, Down8(c), Down8(w), Down8(Down8(c)), Down8(Down8(w)),
             Down8(Down8(Down8(c))), Down8(Down8(Down8(w))));
  }

  /** A message with its own sum behind it, lowest byte first, always sums up to the same number. */
  lemma Residue(m: seq<bv8>)
    ensures Crc(m + Bytes(Crc(m))) == 0x2144df1c
  {
    var c := Feed(0xffffffff, BitsOf(m));
    FeedIsUpdate(0xffffffff, m, Bytes(!c));
    InverseSent(c);
  }
}
