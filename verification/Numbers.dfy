/** 32-bit words as numbers, their single bits, and what masking with a power of two means for the number. */
module Numbers {
  import opened Words

  // ---------- single bits ----------

  /** `1ul << b` */
  function Bit(b: nat): bv32
    requires b < 32
  {
    if b == 0 then 1 else Bit(b - 1) << 1
  }

  predicate Single(x: bv32) {
    x != 0 && x & (x - 1) == 0
  }

  lemma TopBit()
    ensures Bit(31) == 0x8000_0000
  {
    assert Bit(8) == 0x100;
    assert Bit(16) == 0x1_0000;
    assert Bit(24) == 0x100_0000;
  }

  /** No bit is shifted out below the top. */
  lemma {:induction false} BitNonzero(b: nat)
    requires b < 32
    ensures Bit(b) != 0
    decreases 32 - b
  {
    if b == 31 {
      TopBit();
    } else {
      BitNonzero(b + 1);
    }
  }

  lemma SingleDoubled(x: bv32)
    requires Single(x) && x << 1 != 0
    ensures Single(x << 1) && x < x << 1
  {
  }

  lemma {:induction false} BitSingle(b: nat)
    requires b < 32
    ensures Single(Bit(b))
  {
    BitNonzero(b);
    if b > 0 {
      BitSingle(b - 1);
      SingleDoubled(Bit(b - 1));
    }
  }

  lemma {:induction false} BitsOrdered(a: nat, b: nat)
    requires a < b < 32
    ensures Bit(a) < Bit(b)
    decreases b
  {
    BitSingle(b - 1);
    BitNonzero(b);
    SingleDoubled(Bit(b - 1));
    if a < b - 1 {
      BitsOrdered(a, b - 1);
    }
  }

  lemma SingleApart(x: bv32, y: bv32)
    requires Single(x) && Single(y) && x != y
    ensures x & y == 0
  {
  }

  lemma BitsApart(a: nat, b: nat)
    requires a < 32 && b < 32 && a != b
    ensures Bit(a) & Bit(b) == 0
  {
    BitSingle(a);
    BitSingle(b);
    if a < b {
      BitsOrdered(a, b);
    } else {
      BitsOrdered(b, a);
    }
    SingleApart(Bit(a), Bit(b));
  }

  // ---------- bitwise operations, by name ----------

  function And(x: bv32, y: bv32): bv32 {
    x & y
  }

  function Cleared(w: bv32, m: bv32): bv32 {
    w & !m
  }

  function Joined(w: bv32, m: bv32): bv32 {
    w | m
  }

  function Below(x: bv32): bv32 {
    x - 1
  }

  // ---------- the number that a word spells ----------

  function Odd(x: bv32): nat {
    if x & 1 == 1 then 1 else 0
  }

  lemma HalfInjective(x: bv32, y: bv32)
    requires Half(x) == Half(y) && Odd(x) == Odd(y)
    ensures x == y
  {
  }

  /** The number that the lowest `n` bits spell. */
  function Value(x: bv32, n: nat): nat {
    if n == 0 then 0 else Odd(x) + 2 * Value(Half(x), n - 1)
  }

  function Power(n: nat): (p: nat)
    ensures p > 0
  {
    if n == 0 then 1 else 2 * Power(n - 1)
  }

  lemma {:induction false} ValueBound(x: bv32, n: nat)
    ensures Value(x, n) < Power(n)
    decreases n
  {
    if n > 0 {
      ValueBound(Half(x), n - 1);
    }
  }

  /** No bits from the `n`-th on. */
  predicate Fits(x: bv32, n: nat) {
    if n == 0 then x == 0 else Fits(Half(x), n - 1)
  }

  lemma {:induction false} ValueInjective(x: bv32, y: bv32, n: nat)
    requires Fits(x, n) && Fits(y, n) && Value(x, n) == Value(y, n)
    ensures x == y
    decreases n
  {
    if n > 0 {
      ValueInjective(Half(x), Half(y), n - 1);
      HalfInjective(x, y);
    }
  }

  lemma FitsEight(x: bv32, n: nat)
    requires Fits(Down8(x), n)
    ensures Fits(x, n + 8)
  {
    HalfEight(x);
    var a := Half(Half(Half(Half(x))));
    assert Fits(Half(Half(Half(Half(a)))), n);
    assert Fits(Half(Half(a)), n + 2);
    assert Fits(a, n + 4);
    assert Fits(Half(Half(x)), n + 6);
  }

  lemma HalfEight(x: bv32)
    ensures Half(Half(Half(Half(Half(Half(Half(Half(x)))))))) == Down8(x)
  {
  }

  lemma FitsWord(x: bv32)
    ensures Fits(x, 32)
  {
    EightFour(x);
    FitsEight(Down8(Down8(Down8(x))), 0);
    FitsEight(Down8(Down8(x)), 8);
    FitsEight(Down8(x), 16);
    FitsEight(x, 24);
  }

  lemma EightFour(x: bv32)
    ensures Down8(Down8(Down8(Down8(x)))) == 0
  {
  }

  function Number(x: bv32): (n: nat)
    ensures n < UNINT4_RANGE
  {
    ValueBound(x, 32);
    PowerWord();
    Value(x, 32)
  }

  lemma PowerWord()
    ensures Power(32) == UNINT4_RANGE
  {
    assert Power(8) == 0x100;
    assert Power(16) == 0x1_0000;
    assert Power(24) == 0x100_0000;
  }

  lemma NumberInjective(x: bv32, y: bv32)
    requires Number(x) == Number(y)
    ensures x == y
  {
    FitsWord(x);
    FitsWord(y);
    ValueInjective(x, y, 32);
  }

  // ---------- the word that a number is spelt by ----------

  lemma FitsBelow(x: bv32, n: nat)
    requires Fits(x, n + 8)
    ensures Fits(Down8(x), n)
  {
    HalfEight(x);
    FitsFour(x, n + 4);
    FitsFour(Half(Half(Half(Half(x)))), n);
  }

  lemma FitsFour(x: bv32, n: nat)
    requires Fits(x, n + 4)
    ensures Fits(Half(Half(Half(Half(x)))), n)
  {
    assert Fits(Half(x), n + 3);
    assert Fits(Half(Half(x)), n + 2);
    assert Fits(Half(Half(Half(x))), n + 1);
  }

  lemma TopClear(x: bv32)
    requires Fits(x, 31)
    ensures x < 0x8000_0000
  {
    FitsBelow(x, 23);
    FitsBelow(Down8(x), 15);
    FitsBelow(Down8(Down8(x)), 7);
    var y := Down8(Down8(Down8(x)));
    FitsFour(y, 3);
    assert Fits(Half(Half(Half(Half(Half(y))))), 2);
    assert Fits(Half(Half(Half(Half(Half(Half(y)))))), 1);
    assert Fits(Half(Half(Half(Half(Half(Half(Half(y))))))), 0);
    TopByte(x);
  }

  lemma TopByte(x: bv32)
    requires Half(Half(Half(Half(Half(Half(Half(Down8(Down8(Down8(x)))))))))) == 0
    ensures x < 0x8000_0000
  {
  }

  lemma {:induction false} FitsMore(x: bv32, m: nat, n: nat)
    requires Fits(x, m) && m <= n
    ensures Fits(x, n)
    decreases n
  {
    if m > 0 {
      FitsMore(Half(x), m - 1, n - 1);
    } else {
      ZeroFits(n);
    }
  }

  lemma {:induction false} ZeroFits(n: nat)
    ensures Fits(0, n)
  {
    if n > 0 {
      assert Half(0) == 0;
      ZeroFits(n - 1);
    }
  }

  function Doubled(x: bv32, odd: bool): bv32 {
    if odd then (x << 1) | 1 else x << 1
  }

  lemma HalfDoubled(x: bv32, odd: bool)
    requires x < 0x8000_0000
    ensures Half(Doubled(x, odd)) == x && Odd(Doubled(x, odd)) == if odd then 1 else 0
  {
  }

  function Spelt(n: nat, k: nat): bv32
    decreases k
  {
    if k == 0 then 0 else Doubled(Spelt(n / 2, k - 1), n % 2 == 1)
  }

  lemma {:induction false} SpeltValue(n: nat, k: nat)
    requires n < Power(k) && k <= 32
    ensures Fits(Spelt(n, k), k) && Value(Spelt(n, k), k) == n
    decreases k
  {
    if k > 0 {
      SpeltValue(n / 2, k - 1);
      FitsMore(Spelt(n / 2, k - 1), k - 1, 31);
      TopClear(Spelt(n / 2, k - 1));
      HalfDoubled(Spelt(n / 2, k - 1), n % 2 == 1);
    }
  }

  /** The word that spells a number. */
  function Word(n: nat): (x: bv32)
    requires n < UNINT4_RANGE
    ensures Number(x) == n
  {
    PowerWord();
    SpeltValue(n, 32);
    Spelt(n, 32)
  }

  // ---------- the bits of a number ----------

  /** Bit `k` of a number. */
  predicate BitAt(n: nat, k: nat) {
    n / Power(k) % 2 == 1
  }

  lemma DoubleQuotient(o: nat, v: nat, m: nat)
    requires o <= 1 && m > 0
    ensures (o + 2 * v) / (2 * m) == v / m
  {
    DoubleRemainder(o, v, m);
    var n := o + 2 * v;
    var d := n / (2 * m) - v / m;
    assert n == 2 * m * (n / (2 * m)) + n % (2 * m);
    assert v == m * (v / m) + v % m;
    assert 2 * m * d == 2 * m * (n / (2 * m)) - 2 * m * (v / m);
    assert 2 * m * d == 0;
  }

  lemma {:induction false} ValueBit(x: bv32, k: nat, n: nat)
    requires k < n
    ensures BitAt(Value(x, n), k) <==> Odd(ShiftDown(x, k)) == 1
    decreases k
  {
    if k > 0 {
      ValueBit(Half(x), k - 1, n - 1);
      DoubleQuotient(Odd(x), Value(Half(x), n - 1), Power(k - 1));
    }
  }

  /** Bit `k` of a word; there are 32 of them. */
  predicate On(x: bv32, k: nat) {
    k < 32 && Odd(ShiftDown(x, k)) == 1
  }

  /** It is that bit of the number that the word spells. */
  lemma OnNumber(x: bv32, k: nat)
    requires k < 32
    ensures On(x, k) <==> BitAt(Number(x), k)
  {
    ValueBit(x, k, 32);
  }

  lemma HalfHas(x: bv32, y: bv32)
    requires Single(y) && y << 1 != 0
    ensures And(x, y << 1) != 0 <==> And(Half(x), y) != 0
  {
  }

  lemma OddHas(x: bv32)
    ensures Odd(x) == 1 <==> And(x, 1) != 0
  {
  }

  lemma {:induction false} DownHas(x: bv32, k: nat)
    requires k < 32
    ensures Odd(ShiftDown(x, k)) == 1 <==> And(x, Bit(k)) != 0
    decreases k
  {
    if k == 0 {
      OddHas(x);
    } else {
      DownHas(Half(x), k - 1);
      BitSingle(k - 1);
      BitNonzero(k);
      HalfHas(x, Bit(k - 1));
    }
  }

  /** A bit is what a mask takes out. */
  lemma OnBit(x: bv32, k: nat)
    requires k < 32
    ensures On(x, k) <==> And(x, Bit(k)) != 0
  {
    DownHas(x, k);
  }

  // ---------- exclusive or, and, or, bit by bit ----------

  lemma HalfXor(a: bv32, b: bv32)
    ensures Half(Xor(a, b)) == Xor(Half(a), Half(b)) && (Odd(Xor(a, b)) == 1 <==> Odd(a) != Odd(b))
  {
  }

  lemma {:induction false} DownXor(a: bv32, b: bv32, k: nat)
    ensures Odd(ShiftDown(Xor(a, b), k)) == 1 <==> Odd(ShiftDown(a, k)) != Odd(ShiftDown(b, k))
    decreases k
  {
    HalfXor(a, b);
    if k > 0 {
      DownXor(Half(a), Half(b), k - 1);
    }
  }

  lemma XorOn(a: bv32, b: bv32, k: nat)
    ensures On(Xor(a, b), k) <==> On(a, k) != On(b, k)
  {
    if k < 32 {
      DownXor(a, b, k);
    }
  }

  lemma HalfJoined(a: bv32, b: bv32)
    ensures Half(Joined(a, b)) == Joined(Half(a), Half(b)) && (Odd(Joined(a, b)) == 1 <==> Odd(a) == 1 || Odd(b) == 1)
  {
  }

  lemma {:induction false} DownJoined(a: bv32, b: bv32, k: nat)
    ensures Odd(ShiftDown(Joined(a, b), k)) == 1 <==> Odd(ShiftDown(a, k)) == 1 || Odd(ShiftDown(b, k)) == 1
    decreases k
  {
    HalfJoined(a, b);
    if k > 0 {
      DownJoined(Half(a), Half(b), k - 1);
    }
  }

  lemma JoinedOn(a: bv32, b: bv32, k: nat)
    ensures On(Joined(a, b), k) <==> On(a, k) || On(b, k)
  {
    if k < 32 {
      DownJoined(a, b, k);
    }
  }

  lemma OddAnd(a: bv32, b: bv32)
    ensures Odd(And(a, b)) == 1 <==> Odd(a) == 1 && Odd(b) == 1
  {
  }

  lemma {:induction false} DownAnd(a: bv32, b: bv32, k: nat)
    ensures Odd(ShiftDown(And(a, b), k)) == 1 <==> Odd(ShiftDown(a, k)) == 1 && Odd(ShiftDown(b, k)) == 1
    decreases k
  {
    HalfAnd(a, b);
    OddAnd(a, b);
    if k > 0 {
      DownAnd(Half(a), Half(b), k - 1);
    }
  }

  lemma AndOn(a: bv32, b: bv32, k: nat)
    ensures On(And(a, b), k) <==> On(a, k) && On(b, k)
  {
    if k < 32 {
      DownAnd(a, b, k);
    }
  }

  // ---------- shifts, bit by bit ----------

  lemma {:induction false} DownSum(x: bv32, m: nat, k: nat)
    ensures ShiftDown(ShiftDown(x, m), k) == ShiftDown(x, m + k)
    decreases m
  {
    if m > 0 {
      DownSum(Half(x), m - 1, k);
    }
  }

  lemma {:induction false} DownZero(x: bv32, n: nat, k: nat)
    requires Fits(x, n) && n <= k
    ensures ShiftDown(x, k) == 0
    decreases k
  {
    if n > 0 {
      DownZero(Half(x), n - 1, k - 1);
    } else if k > 0 {
      assert Half(0) == 0;
      DownZero(0, 0, k - 1);
    }
  }

  /** Shifting down by `m` places. */
  lemma DownOn(x: bv32, m: nat, k: nat)
    ensures k < 32 ==> (On(ShiftDown(x, m), k) <==> On(x, m + k))
  {
    if k < 32 {
      DownSum(x, m, k);
      if m + k < 32 {
        } else {
        FitsWord(x);
        DownZero(x, 32, m + k);
      }
    }
  }

  function Twice(x: bv32): bv32 {
    x << 1
  }

  lemma HalfTwice(x: bv32)
    ensures Half(Twice(x)) == And(x, 0x7fff_ffff) && Odd(Twice(x)) == 0
  {
  }

  lemma {:induction false} MaskOdd(m: bv32, n: nat, k: nat)
    requires IsMask(m, n) && k < n
    ensures Odd(ShiftDown(m, k)) == 1
    decreases k
  {
    if k > 0 {
      MaskOdd(Half(m), n - 1, k - 1);
    }
  }

  lemma TwiceOn(x: bv32, k: nat)
    requires k < 32
    ensures On(Twice(x), k) <==> k > 0 && On(x, k - 1)
  {
    HalfTwice(x);
    if k > 0 {
      DownAnd(x, 0x7fff_ffff, k - 1);
      BelowIsMask(31);
      TopBit();
      MaskOdd(0x7fff_ffff, 31, k - 1);
    }
  }

  function ShiftUp(x: bv32, m: nat): bv32 {
    if m == 0 then x else Twice(ShiftUp(x, m - 1))
  }

  lemma UpFour(x: bv32, m: nat)
    ensures ShiftUp(x, m + 4) == Twice(Twice(Twice(Twice(ShiftUp(x, m)))))
  {
    assert ShiftUp(x, m + 1) == Twice(ShiftUp(x, m));
    assert ShiftUp(x, m + 2) == Twice(ShiftUp(x, m + 1));
    assert ShiftUp(x, m + 3) == Twice(ShiftUp(x, m + 2));
  }

  /** Shifting up by `m` places. */
  lemma {:induction false} UpOn(x: bv32, m: nat, k: nat)
    requires k < 32
    ensures On(ShiftUp(x, m), k) <==> k >= m && On(x, k - m)
    decreases m
  {
    if m > 0 {
      TwiceOn(ShiftUp(x, m - 1), k);
      if k > 0 {
        UpOn(x, m - 1, k - 1);
      }
    }
  }

  // ---------- adding a small number ----------

  function Next(x: bv32): bv32 {
    x + 1
  }

  lemma HalfNext(x: bv32)
    requires x != 0xffff_ffff
    ensures Odd(Next(x)) == 1 - Odd(x) && Half(Next(x)) == if Odd(x) == 1 then Next(Half(x)) else Half(x)
    ensures Half(x) != 0xffff_ffff
  {
  }

  /** The successor, which wraps around. */
  function Successor(v: nat, m: nat): nat {
    if v + 1 == m then 0 else v + 1
  }

  lemma DoubledSuccessor(o: nat, v: nat, m: nat)
    requires o <= 1 && v < m
    ensures Successor(o + 2 * v, 2 * m) == (1 - o) + 2 * if o == 1 then Successor(v, m) else v
  {
  }

  /** In the `n` lowest bits `y` is one more than `x`: the ones that end `x` become zeros, and the zero before them a one. */
  predicate Increments(x: bv32, y: bv32, n: nat) {
    n == 0 || (Odd(y) == 1 - Odd(x) && if Odd(x) == 1 then Increments(Half(x), Half(y), n - 1) else Half(y) == Half(x))
  }

  lemma {:induction false} NextIncrements(x: bv32, n: nat)
    requires x != 0xffff_ffff
    ensures Increments(x, Next(x), n)
    decreases n
  {
    if n > 0 {
      HalfNext(x);
      NextIncrements(Half(x), n - 1);
    }
  }

  lemma {:induction false} IncrementValue(x: bv32, y: bv32, n: nat)
    requires Increments(x, y, n)
    ensures Value(y, n) == Successor(Value(x, n), Power(n))
    decreases n
  {
    if n > 0 {
      ValueBound(Half(x), n - 1);
      DoubledSuccessor(Odd(x), Value(Half(x), n - 1), Power(n - 1));
      if Odd(x) == 1 {
        IncrementValue(Half(x), Half(y), n - 1);
      }
    }
  }

  lemma {:induction false} MaskValue(m: bv32, k: nat)
    requires IsMask(m, k)
    ensures Value(m, k) == Power(k) - 1
    decreases k
  {
    if k > 0 {
      MaskValue(Half(m), k - 1);
    }
  }

  lemma AllOnes()
    ensures Number(0xffff_ffff) == UNINT4_RANGE - 1
  {
    BelowIsMask(31);
    TopBit();
    assert Half(0xffff_ffff) == Below(0x8000_0000) && Odd(0xffff_ffff) == 1;
    assert IsMask(0xffff_ffff, 32);
    MaskValue(0xffff_ffff, 32);
    PowerWord();
  }

  lemma OnesNext()
    ensures Number(0xffff_ffff) == UNINT4_RANGE - 1 && Number(Next(0xffff_ffff)) == 0
  {
    AllOnes();
    ValueOfZero(32);
  }

  lemma NumberNext(x: bv32)
    ensures Number(Next(x)) == Successor(Number(x), UNINT4_RANGE)
  {
    if x == 0xffff_ffff {
      OnesNext();
    } else {
      PowerWord();
      NextIncrements(x, 32);
      IncrementValue(x, Next(x), 32);
    }
  }

  function Plus(x: bv32, m: nat): bv32 {
    if m == 0 then x else Next(Plus(x, m - 1))
  }

  lemma PlusFour(x: bv32, m: nat)
    ensures Plus(x, m + 4) == Plus(x, m) + 4
  {
    assert Plus(x, m + 1) == Next(Plus(x, m));
    assert Plus(x, m + 2) == Next(Plus(x, m + 1));
    assert Plus(x, m + 3) == Next(Plus(x, m + 2));
    FourNext(Plus(x, m));
  }

  lemma FourNext(x: bv32)
    ensures Next(Next(Next(Next(x)))) == x + 4
  {
  }

  /** Adding to a word wraps around. */
  lemma {:induction false} NumberPlus(x: bv32, m: nat)
    ensures Number(Plus(x, m)) == (Number(x) + m) % UNINT4_RANGE
  {
    if m > 0 {
      NumberPlus(x, m - 1);
      NumberNext(Plus(x, m - 1));
    }
  }

  // ---------- masks ----------

  /** A quotient and a remainder determine each other. */
  lemma Remainder(n: nat, q: nat, k: nat, m: nat)
    requires k < m && n == q * m + k
    ensures n % m == k
  {
    var d: int := n / m - q;
    var r: int := n % m;
    assert (q + d) * m == q * m + d * m;
    assert d * m == k - r;
    assert d >= 1 ==> d * m >= 1 * m;
    assert d <= -1 ==> d * m <= -1 * m;
  }

  lemma DoubleRemainder(o: nat, v: nat, m: nat)
    requires o <= 1 && m > 0
    ensures (o + 2 * v) % (2 * m) == o + 2 * (v % m)
  {
    var q, r := v / m, v % m;
    assert v == q * m + r;
    assert o + 2 * v == q * (2 * m) + (o + 2 * r);
    Remainder(o + 2 * v, q, o + 2 * r, 2 * m);
  }

  /** The lowest `k` bits and no others. */
  predicate IsMask(m: bv32, k: nat) {
    if k == 0 then m == 0 else Odd(m) == 1 && IsMask(Half(m), k - 1)
  }

  lemma SingleSmall(x: bv32)
    requires Single(x)
    ensures x <= 0x8000_0000
  {
  }

  lemma BelowDoubled(x: bv32)
    requires x != 0 && x <= 0x8000_0000
    ensures Half(Below(x << 1)) == Below(x) && Odd(Below(x << 1)) == 1
  {
  }

  lemma {:induction false} BelowIsMask(k: nat)
    requires k < 32
    ensures IsMask(Below(Bit(k)), k)
  {
    if k > 0 {
      BelowIsMask(k - 1);
      BitSingle(k - 1);
      SingleSmall(Bit(k - 1));
      BelowDoubled(Bit(k - 1));
    }
  }

  lemma HalfAnd(x: bv32, m: bv32)
    ensures Half(And(x, m)) == And(Half(x), Half(m))
  {
  }

  lemma HalfCleared(x: bv32, m: bv32)
    ensures Half(Cleared(x, m)) == Cleared(Half(x), Half(m))
  {
  }

  lemma OddMasked(x: bv32, m: bv32)
    ensures Odd(m) == 1 ==> Odd(And(x, m)) == Odd(x)
    ensures Odd(x) == Odd(And(x, m)) + Odd(Cleared(x, m))
  {
  }

  lemma AndZero(x: bv32)
    ensures And(x, 0) == 0
  {
  }

  lemma {:induction false} ValueOfZero(n: nat)
    ensures Value(0, n) == 0
  {
    if n > 0 {
      ValueOfZero(n - 1);
      assert Half(0) == 0 && Odd(0) == 0;
    }
  }

  lemma {:induction false} MaskedValue(x: bv32, m: bv32, k: nat, n: nat)
    requires IsMask(m, k) && k <= n
    ensures Value(And(x, m), n) == Value(x, n) % Power(k)
    decreases n
  {
    if k == 0 {
      AndZero(x);
      ValueOfZero(n);
    } else {
      MaskedValue(Half(x), Half(m), k - 1, n - 1);
      HalfAnd(x, m);
      OddMasked(x, m);
      DoubleRemainder(Odd(x), Value(Half(x), n - 1), Power(k - 1));
    }
  }

  lemma {:induction false} ClearedValue(x: bv32, m: bv32, n: nat)
    ensures Value(Cleared(x, m), n) + Value(And(x, m), n) == Value(x, n)
    decreases n
  {
    if n > 0 {
      ClearedValue(Half(x), Half(m), n - 1);
      HalfAnd(x, m);
      HalfCleared(x, m);
      OddMasked(x, m);
    }
  }

  lemma DoubleOf(x: bv32)
    requires x != 0 && x <= 0x4000_0000
    ensures Half(x << 1) == x && Odd(x << 1) == 0
  {
  }

  /** A single bit spells a power of two. */
  lemma {:induction false} BitValue(k: nat, n: nat)
    requires k < 32 && k < n
    ensures Value(Bit(k), n) == Power(k)
    decreases k
  {
    if k == 0 {
      assert Half(1) == 0 && Odd(1) == 1;
      ValueOfZero(n - 1);
    } else {
      BitValue(k - 1, n - 1);
      BitSingle(k - 1);
      BitNonzero(k);
      SingleHalved(Bit(k - 1));
      DoubleOf(Bit(k - 1));
    }
  }

  lemma SingleHalved(x: bv32)
    requires Single(x) && x << 1 != 0
    ensures x <= 0x4000_0000
  {
  }

  /** Masking with a power of two less one takes the remainder, and masking with the other bits takes it away. */
  lemma MaskIsRemainder(x: bv32, k: nat)
    requires k < 32
    ensures Number(Bit(k)) == Power(k)
    ensures Number(And(x, Below(Bit(k)))) == Number(x) % Power(k)
    ensures Number(Cleared(x, Below(Bit(k)))) == Number(x) - Number(x) % Power(k)
  {
    BitValue(k, 32);
    BelowIsMask(k);
    MaskedValue(x, Below(Bit(k)), k, 32);
    ClearedValue(x, Below(Bit(k)), 32);
  }
}
