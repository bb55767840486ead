/** The generator behind `rand` (library/src/random.c): a linear shift register of four 32-bit words. */
module Random {

  import opened Words
  import opened Numbers

  datatype State = State(x: bv32, y: bv32, z: bv32, w: bv32)

  const ZERO := State(0, 0, 0, 0)

  function Up11(x: bv32): bv32 {
    x << 11
  }

  function Down16(x: bv32): bv32 {
    x >> 16
  }

  function Left(x: bv32): bv32 {
    Xor(x, Up11(x))
  }

  function Right(t: bv32): bv32 {
    Xor(t, Down8(t))
  }

  function Down19(w: bv32): bv32 {
    w >> 19
  }

  function Stir(w: bv32): bv32 {
    Xor(w, Down19(w))
  }

  function Step(s: State): State {
    State(s.y, s.z, s.w, Xor(Stir(s.w), Right(Left(s.x))))
  }

  // ---------- the step bit by bit ----------

  lemma ElevenTwice(x: bv32)
    ensures Up11(x) == Twice(Twice(Twice(Twice(Twice(Twice(Twice(Twice(Twice(Twice(Twice(x)))))))))))
  {
  }

  lemma UpAsTwice(x: bv32)
    ensures Up11(x) == ShiftUp(x, 11)
  {
    ElevenTwice(x);
    UpFour(x, 0);
    UpFour(x, 4);
    var y := ShiftUp(x, 8);
    assert ShiftUp(x, 9) == Twice(y);
    assert ShiftUp(x, 10) == Twice(Twice(y));
    assert ShiftUp(x, 11) == Twice(Twice(Twice(y)));
  }

  lemma NineteenDown(x: bv32)
    ensures Down19(x) == Half(Half(Half(Down16(x)))) && Down16(x) == Down8(Down8(x))
  {
  }

  lemma DownAsHalves(x: bv32)
    ensures Down8(x) == ShiftDown(x, 8) && Down19(x) == ShiftDown(x, 19)
  {
    HalfEight(x);
    HalfEight(Down8(x));
    EightDown(x);
    EightDown(Down8(x));
    NineteenDown(x);
    DownSum(x, 8, 8);
    DownSum(x, 16, 3);
    assert ShiftDown(Down16(x), 3) == Half(Half(Half(Down16(x))));
  }

  lemma EightDown(x: bv32)
    ensures ShiftDown(x, 8) == Half(Half(Half(Half(Half(Half(Half(Half(x))))))))
  {
    assert ShiftDown(x, 8) == ShiftDown(Half(Half(Half(Half(x)))), 4);
  }

  /** Bit `k` of the temporary word: that of the oldest word, and the one eleven places below it. */
  predicate Mixed(x: bv32, k: nat) {
    k < 32 && On(x, k) != (k >= 11 && On(x, k - 11))
  }

  lemma LeftOn(x: bv32, k: nat)
    ensures On(Left(x), k) <==> Mixed(x, k)
  {
    if k < 32 {
      XorOn(x, Up11(x), k);
      UpAsTwice(x);
      UpOn(x, 11, k);
    }
  }

  lemma StirOn(w: bv32, k: nat)
    requires k < 32
    ensures On(Stir(w), k) <==> On(w, k) != On(w, k + 19)
  {
    XorOn(w, Down19(w), k);
    DownAsHalves(w);
    DownOn(w, 19, k);
  }

  lemma RightOn(t: bv32, k: nat)
    requires k < 32
    ensures On(Right(t), k) <==> On(t, k) != On(t, k + 8)
  {
    XorOn(t, Down8(t), k);
    DownAsHalves(t);
    DownOn(t, 8, k);
  }

  /** The recurrence: a bit of the next number is made of the bits `k` and `k + 19` of the last number, and of the bits `k` and
      `k + 8` of the temporary word; the other words move up. */
  lemma StepBits(s: State, k: nat)
    requires k < 32
    ensures Step(s).x == s.y && Step(s).y == s.z && Step(s).z == s.w
    ensures On(Step(s).w, k) <==> (On(s.w, k) != On(s.w, k + 19)) != (Mixed(s.x, k) != Mixed(s.x, k + 8))
  {
    XorOn(Stir(s.w), Right(Left(s.x)), k);
    StirOn(s.w, k);
    RightOn(Left(s.x), k);
    LeftOn(s.x, k);
    LeftOn(s.x, k + 8);
  }

  // ---------- the step backwards ----------

  function Unleft(l: bv32): bv32 {
    Xor(l, Xor(Up11(l), Up11(Up11(l))))
  }

  function Unright(r: bv32): bv32 {
    Right(Xor(r, Down16(r)))
  }

  function Unstep(s: State): State {
    State(Unleft(Unright(Xor(Stir(s.z), s.w))), s.x, s.y, s.z)
  }

  lemma Up11Linear(a: bv32, b: bv32)
    ensures Up11(Xor(a, b)) == Xor(Up11(a), Up11(b))
  {
  }

  lemma Down8Linear(a: bv32, b: bv32)
    ensures Down8(Xor(a, b)) == Xor(Down8(a), Down8(b))
  {
  }

  lemma Down16Linear(a: bv32, b: bv32)
    ensures Down16(Xor(a, b)) == Xor(Down16(a), Down16(b))
  {
  }

  /** Three shifts by 11 or two by 16 leave nothing. */
  lemma ShiftedOut(a: bv32)
    ensures Up11(Up11(Up11(a))) == 0 && Down16(Down16(a)) == 0 && Down8(Down8(a)) == Down16(a)
  {
  }

  lemma LeftInverse(x: bv32)
    ensures Unleft(Left(x)) == x && Left(Unleft(x)) == x
  {
    var u, v := Up11(x), Up11(Up11(x));
    Up11Linear(x, u);
    Up11Linear(u, v);
    Up11Linear(x, Xor(u, v));
    ShiftedOut(x);
    XorZero(v);
    XorMiddle(u, v, 0);
    XorZero(u);
    XorMiddle(x, u, 0);
    XorMiddle(x, Xor(u, v), 0);
    XorZero(Xor(u, v));
    XorZero(x);
  }

  lemma RightTwice(t: bv32)
    ensures Right(Right(t)) == Xor(t, Down16(t))
  {
    Down8Linear(t, Down8(t));
    ShiftedOut(t);
    XorMiddle(t, Down8(t), Down16(t));
  }

  lemma Sixteen(t: bv32)
    ensures var u := Xor(t, Down16(t)); Xor(u, Down16(u)) == t
  {
    Down16Linear(t, Down16(t));
    ShiftedOut(t);
    XorMiddle(t, Down16(t), 0);
    XorZero(t);
  }

  lemma RightLinear(a: bv32, b: bv32)
    ensures Right(Xor(a, b)) == Xor(Right(a), Right(b))
  {
    Down8Linear(a, b);
    XorSwap(a, b, Down8(a), Down8(b));
  }

  lemma RightDown(t: bv32)
    ensures Right(Down16(t)) == Down16(Right(t))
  {
  }

  lemma RightInverse(t: bv32)
    ensures Unright(Right(t)) == t && Right(Unright(t)) == t
  {
    RightTwice(Xor(t, Down16(t)));
    Sixteen(t);
    var u := Right(t);
    RightLinear(u, Down16(u));
    RightDown(u);
    RightTwice(t);
  }

  lemma XorCancels(a: bv32, b: bv32)
    ensures Xor(a, Xor(a, b)) == b
  {
    XorAssoc(a, a, b);
    XorSelf(a);
    XorCommutes(0, b);
    XorZero(b);
  }

  /** The step is a bijection on the states. */
  lemma StepInverse(s: State)
    ensures Unstep(Step(s)) == s && Step(Unstep(s)) == s
  {
    LeftInverse(s.x);
    RightInverse(Left(s.x));
    XorCancels(Stir(s.w), Right(Left(s.x)));
    XorCancels(Stir(s.z), s.w);
    RightInverse(Xor(Stir(s.z), s.w));
    LeftInverse(Unright(Xor(Stir(s.z), s.w)));
  }

  lemma StepZero()
    ensures Step(ZERO) == ZERO
  {
  }

  /** No state but zero leads to zero. */
  lemma StepNonzero(s: State)
    requires s != ZERO
    ensures Step(s) != ZERO
  {
    StepZero();
    StepInverse(s);
    StepInverse(ZERO);
  }

  // ---------- whole runs ----------

  function After(s: State, n: nat): State {
    if n == 0 then s else Step(After(s, n - 1))
  }

  lemma {:induction false} NeverZero(s: State, n: nat)
    requires s != ZERO
    ensures After(s, n) != ZERO
  {
    if n > 0 {
      NeverZero(s, n - 1);
      StepNonzero(After(s, n - 1));
    }
  }

  lemma {:induction false} AfterSum(s: State, m: nat, n: nat)
    ensures After(s, m + n) == After(After(s, m), n)
  {
    if n > 0 {
      AfterSum(s, m, n - 1);
    }
  }

  /** A state that comes back after some steps was already reached as many steps after the start. */
  lemma {:induction false} BackToStart(s: State, i: nat, j: nat)
    requires i < j && After(s, i) == After(s, j)
    ensures After(s, j - i) == s
    decreases i
  {
    if i > 0 {
      StepInverse(After(s, i - 1));
      StepInverse(After(s, j - 1));
      BackToStart(s, i - 1, j - 1);
    }
  }

  // ---------- counting states ----------

  const STATES: nat := UNINT4_RANGE * UNINT4_RANGE * UNINT4_RANGE * UNINT4_RANGE

  lemma PairInjective(a: nat, b: nat, c: nat, d: nat)
    requires b < UNINT4_RANGE && d < UNINT4_RANGE && a * UNINT4_RANGE + b == c * UNINT4_RANGE + d
    ensures a == c && b == d
  {
  }

  function Code(s: State): (n: nat)
    ensures n < STATES
  {
    ((Number(s.x) * UNINT4_RANGE + Number(s.y)) * UNINT4_RANGE + Number(s.z)) * UNINT4_RANGE + Number(s.w)
  }

  lemma CodeInjective(s: State, t: State)
    requires Code(s) == Code(t)
    ensures s == t
  {
    PairInjective((Number(s.x) * UNINT4_RANGE + Number(s.y)) * UNINT4_RANGE + Number(s.z), Number(s.w),
                  (Number(t.x) * UNINT4_RANGE + Number(t.y)) * UNINT4_RANGE + Number(t.z), Number(t.w));
    PairInjective(Number(s.x) * UNINT4_RANGE + Number(s.y), Number(s.z), Number(t.x) * UNINT4_RANGE + Number(t.y), Number(t.z));
    PairInjective(Number(s.x), Number(s.y), Number(t.x), Number(t.y));
    NumberInjective(s.x, t.x);
    NumberInjective(s.y, t.y);
    NumberInjective(s.z, t.z);
    NumberInjective(s.w, t.w);
  }

  predicate Repeated(f: seq<nat>, i: nat, j: nat) {
    i < j < |f| && f[i] == f[j]
  }

  /** Among more than `n` numbers below `n`, two are the same. */
  lemma {:induction false} Pigeonhole(f: seq<nat>, n: nat)
    requires |f| > n && forall k :: 0 <= k < |f| ==> f[k] < n
    ensures exists i: nat, j: nat :: Repeated(f, i, j)
    decreases n
  {
    if k :| 0 <= k < |f| && f[k] == n - 1 {
      if l :| 0 <= l < |f| && l != k && f[l] == n - 1 {
        assert Repeated(f, if k < l then k else l, if k < l then l else k);
      } else {
        var g := f[..k] + f[k + 1..];
        Pigeonhole(g, n - 1);
        var i: nat, j: nat :| Repeated(g, i, j);
        assert Repeated(f, if i < k then i else i + 1, if j < k then j else j + 1);
      }
    } else {
      assert f[0] < n;
      Pigeonhole(f, n - 1);
    }
  }

  /** The first `n` states, as numbers. */
  function Codes(s: State, n: nat): (f: seq<nat>)
    ensures |f| == n && forall i :: 0 <= i < n ==> f[i] == Code(After(s, i)) < STATES
  {
    seq(n, i requires 0 <= i < n => Code(After(s, i)))
  }

  lemma SameCode(s: State, i: nat, j: nat)
    requires i < j && Code(After(s, i)) == Code(After(s, j))
    ensures After(s, j - i) == s
  {
    CodeInjective(After(s, i), After(s, j));
    BackToStart(s, i, j);
  }

  /** Every state comes back after at most as many steps as there are states. */
  lemma Period(s: State) returns (p: nat)
    ensures 0 < p <= STATES && After(s, p) == s
  {
    var f := Codes(s, STATES + 1);
    Pigeonhole(f, STATES);
    var i: nat, j: nat :| Repeated(f, i, j);
    SameCode(s, i, j);
    p := j - i;
  }

  /** From every seed the states, and so the numbers, repeat from the very first one on. */
  lemma PurelyPeriodic(s: State)
    ensures exists p: nat :: 0 < p <= STATES && Repeats(s, p)
  {
    var p := Period(s);
    forall n: nat
      ensures After(s, p + n) == After(s, n)
    {
      AfterSum(s, p, n);
    }
    assert Repeats(s, p);
  }

  ghost predicate Repeats(s: State, p: nat) {
    forall n: nat :: After(s, p + n) == After(s, n)
  }

  // ---------- the generator ----------

  function SeedY(seed: bv32): bv32 {
    Joined(Xor(seed, 123451), 0xa2)
  }

  function SeedZ(seed: bv32, x: bv32, y: bv32): bv32 {
    Xor(Xor(seed, x), y) + 17
  }

  function SeedW(seed: bv32, x: bv32, y: bv32, z: bv32): bv32 {
    Xor(Xor(seed, And(Joined(x, y), z)), 0x781112a3)
  }

  lemma SeventeenMore(y: bv32)
    ensures y + 17 == Plus(y, 17)
  {
    PlusFour(y, 0);
    PlusFour(y, 4);
    PlusFour(y, 8);
    PlusFour(y, 12);
    SeventeenNext(y);
  }

  lemma SeventeenNext(y: bv32)
    ensures y + 17 == Next(((((y + 4) + 4) + 4) + 4))
  {
  }

  lemma OwnXor(seed: bv32, y: bv32)
    ensures Xor(Xor(seed, seed), y) == y
  {
    XorSelf(seed);
    XorCommutes(0, y);
    XorZero(y);
  }

  lemma XorXorOn(a: bv32, b: bv32, c: bv32, k: nat)
    ensures On(Xor(Xor(a, b), c), k) <==> (On(a, k) != On(b, k)) != On(c, k)
  {
    XorOn(Xor(a, b), c, k);
    XorOn(a, b, k);
  }

  lemma AndJoinedOn(x: bv32, y: bv32, z: bv32, k: nat)
    ensures On(And(Joined(x, y), z), k) <==> (On(x, k) || On(y, k)) && On(z, k)
  {
    AndOn(Joined(x, y), z, k);
    JoinedOn(x, y, k);
  }

  lemma JoinedXorOn(x: bv32, c: bv32, d: bv32, k: nat)
    ensures On(Joined(Xor(x, c), d), k) <==> On(x, k) != On(c, k) || On(d, k)
  {
    JoinedOn(Xor(x, c), d, k);
    XorOn(x, c, k);
  }

  /** The second word of a seeded state, bit by bit. */
  lemma SecondSeed(seed: bv32, k: nat)
    ensures On(SeedY(seed), k) <==> On(seed, k) != On(123451, k) || On(0xa2, k)
  {
    JoinedXorOn(seed, 123451, 0xa2, k);
  }

  /** The third word: as the first one is the seed itself, it is the second plus 17. */
  lemma ThirdSeed(seed: bv32, y: bv32)
    ensures Number(SeedZ(seed, seed, y)) == (Number(y) + 17) % UNINT4_RANGE
  {
    OwnXor(seed, y);
    SeventeenMore(y);
    NumberPlus(y, 17);
  }

  /** The fourth word, bit by bit. */
  lemma FourthSeed(seed: bv32, y: bv32, z: bv32, k: nat)
    ensures On(SeedW(seed, seed, y, z), k) <==>
            (On(seed, k) != ((On(seed, k) || On(y, k)) && On(z, k))) != On(0x781112a3, k)
  {
    XorXorOn(seed, And(Joined(seed, y), z), 0x781112a3, k);
    AndJoinedOn(seed, y, z, k);
  }

  lemma SeedNonzero(seed: bv32)
    ensures SeedY(seed) != 0
  {
  }

  class Generator {
    var x: bv32
    var y: bv32
    var z: bv32
    var w: bv32

    function Current(): State
      reads this
    {
      State(x, y, z, w)
    }

    /** Every seed gives a state that is not zero. */
    method SRand(seed: bv32)
      modifies this
      ensures x == seed && y == SeedY(seed) && z == SeedZ(seed, x, y) && w == SeedW(seed, x, y, z)
      ensures Current() != ZERO
    {
      x := seed;
      y := SeedY(seed);
      z := SeedZ(seed, x, y);
      w := SeedW(seed, x, y, z);
      SeedNonzero(seed);
    }

    /** One step; it keeps the state away from zero. */
    method XorShift128() returns (r: bv32)
      modifies this
      ensures Current() == Step(old(Current())) && r == Current().w
      ensures old(Current()) != ZERO ==> Current() != ZERO
    {
      if Current() != ZERO {
        StepNonzero(Current());
      }
      var t := Xor(x, Up11(x));
      XorAssoc(Stir(w), t, Down8(t));
      x := y;
      y := z;
      z := w;
      w := Xor(Xor(Stir(w), t), Down8(t));
      return w;
    }
  }
}
