/** The 64-bit division of the kernel (source/inc/libgccmath.cc): shift the denominator up to the top bit, then shift it
    down again and subtract. Every intermediate value has the type of the 64-bit C variable that holds it, so the
    verifier also shows that nothing wraps. */
module UDivMod {

  newtype unint8 = x: int | 0 <= x < 0x1_0000_0000_0000_0000

  const TOP_BIT: unint8 := 0x8000_0000_0000_0000

  /** What is stored through the remainder pointer. */
  datatype Remainder = Untouched | Written(value: unint8)

  predicate PowerOfTwo(n: int) {
    n == 1 || (n > 1 && n % 2 == 0 && PowerOfTwo(n / 2))
  }

  /** The shifted denominator is the original one times the bit of the quotient it stands for. */
  predicate Scaled(den: int, original: int, qbit: int) {
    PowerOfTwo(qbit) && den == original * qbit
  }

  lemma ScaledUp(den: int, original: int, qbit: int)
    requires Scaled(den, original, qbit) && original > 0
    ensures Scaled(2 * den, original, 2 * qbit) && qbit <= den
  {
    assert 2 * qbit % 2 == 0 && 2 * qbit / 2 == qbit;
    assert original * qbit >= 1 * qbit;
    assert original * (2 * qbit) == 2 * (original * qbit);
  }

  lemma ScaledDown(den: int, original: int, qbit: int)
    requires Scaled(den, original, qbit) && qbit > 1
    ensures Scaled(den / 2, original, qbit / 2) && den % 2 == 0
  {
    var half := qbit / 2;
    assert qbit == 2 * half;
    assert original * qbit == 2 * (original * half);
  }

  lemma Grows(n: int, m: int)
    requires n >= 0 && m >= 1
    ensures n * m >= n && (n > 0 ==> n * m >= m)
  {
    if n > 0 {
      assert n * m == (n - 1) * m + m;
      assert n * m == n * (m - 1) + n;
    }
  }

  /** What is left of the numerator and what the quotient has taken make up the numerator. */
  predicate Parts(numerator: int, num: int, quot: int, original: int) {
    numerator == num + quot * original
  }

  lemma PartsTaken(numerator: int, num: int, quot: int, original: int, den: int, qbit: int)
    requires Parts(numerator, num, quot, original) && Scaled(den, original, qbit) && den <= num && original > 0 && quot >= 0
    ensures Parts(numerator, num - den, quot + qbit, original)
    ensures quot + qbit <= numerator
  {
    assert (quot + qbit) * original == quot * original + original * qbit;
    Grows(quot + qbit, original);
  }

  lemma PartsAreQuotient(numerator: int, num: int, quot: int, original: int)
    requires Parts(numerator, num, quot, original) && 0 <= num < original
    ensures quot == numerator / original && num == numerator % original
  {
    var d := numerator / original - quot;
    assert numerator == (quot + d) * original + numerator % original;
    assert (quot + d) * original == quot * original + d * original;
    assert (-d) * original == -(d * original);
    if d > 0 {
      Grows(d, original);
    } else if d < 0 {
      Grows(-d, original);
    }
  }

  method UDivModDI4(num: unint8, den: unint8) returns (quot: unint8, rem: Remainder)
    ensures den == 0 ==> quot == 0 && rem == Untouched
    ensures den != 0 ==> quot as int == num as int / den as int
    ensures den != 0 ==> rem.Written? && rem.value as int == num as int % den as int
  {
    quot := 0;
    if den == 0 {
      return 0, Untouched;
    }

    var num', den', qbit: unint8 := num, den, 1;
    while den' < TOP_BIT
      invariant Scaled(den' as int, den as int, qbit as int)
      decreases TOP_BIT as int - den' as int
    {
      ScaledUp(den' as int, den as int, qbit as int);
      den' := den' * 2;
      qbit := qbit * 2;
    }

    while qbit != 0
      invariant Parts(num as int, num' as int, quot as int, den as int)
      invariant qbit != 0 ==> Scaled(den' as int, den as int, qbit as int) && (num' as int) < 2 * den' as int
      invariant qbit == 0 ==> num' < den
      decreases qbit
    {
      if den' <= num' {
        PartsTaken(num as int, num' as int, quot as int, den as int, den' as int, qbit as int);
        num' := num' - den';
        quot := quot + qbit;
      }
      if qbit > 1 {
        ScaledDown(den' as int, den as int, qbit as int);
      }
      den' := den' / 2;
      qbit := qbit / 2;
    }
    PartsAreQuotient(num as int, num' as int, quot as int, den as int);
    rem := Written(num');
  }

  method UDivDI3(num: unint8, den: unint8) returns (quot: unint8)
    ensures quot as int == if den == 0 then 0 else num as int / den as int
  {
    var rem;
    quot, rem := UDivModDI4(num, den);
  }
}
