/** The generator that turns a hash into signature bits: Park and Miller's, in Schrage's form, on int32 state. */
module BloomRandom {
  newtype int32 = x: int | -0x8000_0000 <= x < 0x8000_0000
  newtype uint32 = x: int | 0 <= x < 0x1_0000_0000

  /** The modulus 2^31 - 1. */
  const MODULUS := 0x7fff_ffff

  /** C's division, which truncates toward zero. */
  function TruncDiv(a: int, b: int): int
    requires b > 0
  {
    if a >= 0 then a / b else -(-a / b)
  }

  /** C's remainder, which takes the sign of the dividend. */
  function TruncMod(a: int, b: int): int
    requires b > 0
  {
    a - b * TruncDiv(a, b)
  }

  /** The conversion of a uint32 to an int32: two's complement. */
  function ToInt32(x: uint32): int32 {
    if x < 0x8000_0000 then x as int32 else (x as int - 0x1_0000_0000) as int32
  }

  /** What the generator promises: multiplication by 7^5 modulo 2^31 - 1. */
  function Times16807(state: int): (r: int)
    ensures 0 <= r < MODULUS
  {
    (16807 * state) % MODULUS
  }

  /** The state that mySrand leaves behind. */
  function Seeded(seed: uint32): (r: int32)
    ensures -0x7fff_fffc <= r <= 0x7fff_fffe
  {
    (TruncMod(ToInt32(seed) as int, 0x7fff_fffe) + 1) as int32
  }

  /** The seeds from which the state is zero, now and for ever. */
  predicate Stuck(seed: uint32) {
    seed == 0xffff_ffff || seed == 0x8000_0001
  }

  class Generator {
    var next: int32

    /** Static storage starts at zero. */
    constructor ()
      ensures next == 0
    {
      next := 0;
    }

    /** myRand: no intermediate value leaves int32, whatever the state, and the new state is the exact product. */
    method Rand() returns (r: int32)
      modifies this
      ensures next as int == Times16807(old(next) as int)
      ensures r == next - 1
    {
      SchrageExact(next as int);
      var hi: int32 := TruncDiv(next as int, 127773) as int32;
      var lo: int32 := TruncMod(next as int, 127773) as int32;
      var x: int32 := 16807 * lo - 2836 * hi;
      if x < 0 {
        x := x + 0x7fff_ffff;
      }
      next := x;
      r := x - 1;
    }

    /** mySrand: nothing is left of the former state. */
    method Srand(seed: uint32)
      modifies this
      ensures next == Seeded(seed)
    {
      next := ToInt32(seed);
      next := (TruncMod(next as int, 0x7fff_fffe) + 1) as int32;
    }
  }

  lemma Remainder(n: int, q: int, r: int)
    requires n == q * MODULUS + r && 0 <= r < MODULUS
    ensures n % MODULUS == r
  {
  }

  lemma Quotient(n: int) returns (q: int)
    ensures n == q * MODULUS + n % MODULUS
  {
    q := n / MODULUS;
  }

  /** The bounds that keep Schrage's products within 31 bits. */
  lemma SchrageBounds(n: int)
    requires -0x8000_0000 <= n < 0x8000_0000
    ensures var hi, lo := TruncDiv(n, 127773), TruncMod(n, 127773);
      && n == 127773 * hi + lo
      && (if n >= 0 then 0 <= hi <= 16807 && 0 <= lo < 127773 else -16807 <= hi <= 0 && -127773 < lo <= 0)
  {
  }

  /** Schrage's decomposition: the difference of the two products is congruent to 16807 n. */
  lemma SchrageExact(n: int)
    requires -0x8000_0000 <= n < 0x8000_0000
    ensures var hi, lo := TruncDiv(n, 127773), TruncMod(n, 127773); var x := 16807 * lo - 2836 * hi;
      && -16807 <= hi <= 16807 && -127773 < lo < 127773
      && -MODULUS < x < MODULUS
      && (if x < 0 then x + MODULUS else x) == Times16807(n)
  {
    SchrageBounds(n);
    var hi, lo := TruncDiv(n, 127773), TruncMod(n, 127773);
    var x := 16807 * lo - 2836 * hi;
    if x < 0 {
      Remainder(16807 * n, hi - 1, x + MODULUS);
    } else {
      Remainder(16807 * n, hi, x);
    }
  }

  /** The inverse step: 16807 * 1407677000 = 11017 * (2^31 - 1) + 1. */
  function Inverse(state: int): (r: int)
    ensures 0 <= r < MODULUS
  {
    (1407677000 * state) % MODULUS
  }

  /** The generator permutes [1, 2^31 - 2]: it stays there, and each state has exactly one predecessor. */
  lemma Permutation(n: int)
    requires 1 <= n <= MODULUS - 1
    ensures 1 <= Times16807(n) <= MODULUS - 1 && Inverse(Times16807(n)) == n
    ensures 1 <= Inverse(n) <= MODULUS - 1 && Times16807(Inverse(n)) == n
  {
    var x, y := Times16807(n), Inverse(n);
    var q := Quotient(16807 * n);
    Remainder(1407677000 * x, 11017 * n - 1407677000 * q, n);
    var p := Quotient(1407677000 * n);
    Remainder(16807 * y, 11017 * n - 16807 * p, n);
  }

  /** The state after `count` further calls of myRand. */
  function After(state: int, count: nat): int {
    if count == 0 then state else Times16807(After(state, count - 1))
  }

  /**
   * Seeding, exactly: two of the 2^32 seeds leave the state at zero; after any other the first call lands in 
   * [1, 2^31 - 2].
   */
  lemma FirstDraw(seed: uint32)
    ensures Seeded(seed) == 0 <==> Stuck(seed)
    ensures !Stuck(seed) ==> 1 <= Times16807(Seeded(seed) as int) <= MODULUS - 1
  {
    SeededZero(seed);
    var n := Seeded(seed) as int;
    if n < 0 {
      Permutation(-n);
      var q := Quotient(16807 * -n);
      Remainder(16807 * n, -q - 1, MODULUS - Times16807(-n));
    } else if n > 0 {
      Permutation(n);
    }
  }

  /** The seed plus one as far as it goes, with C's remainder at the two ends of int32. */
  lemma SeededIs(seed: uint32)
    ensures Seeded(seed) as int ==
      if seed < 0x7fff_fffe then seed as int + 1
      else if seed <= 0x7fff_ffff then seed as int - 0x7fff_fffd
      else if seed <= 0x8000_0002 then seed as int - 0x8000_0001
      else seed as int - 0xffff_ffff
  {
  }

  function Power(base: nat, n: nat): nat {
    if n == 0 then 1 else base * Power(base, n - 1)
  }

  lemma ScaledRemainder(x: int)
    ensures (16807 * (x % MODULUS)) % MODULUS == (16807 * x) % MODULUS
  {
    var q := Quotient(x);
    var p := Quotient(16807 * (x % MODULUS));
    Remainder(16807 * x, 16807 * q + p, (16807 * (x % MODULUS)) % MODULUS);
  }

  /** In closed form: after n calls the state is 16807^n times the first one, modulo 2^31 - 1. */
  lemma {:induction false} AfterPower(state: int, count: nat)
    requires count > 0
    ensures After(state, count) == (Power(16807, count) * state) % MODULUS
  {
    if count > 1 {
      AfterPower(state, count - 1);
      ScaledRemainder(Power(16807, count - 1) * state);
      assert 16807 * (Power(16807, count - 1) * state) == Power(16807, count) * state;
    } else {
      assert After(state, 0) == state && Power(16807, 1) == 16807 * Power(16807, 0);
    }
  }

  lemma SeededZero(seed: uint32)
    ensures Seeded(seed) == 0 <==> Stuck(seed)
  {
  }

  /** Every later state: zero for ever from a stuck seed, otherwise within [1, 2^31 - 2]. */
  lemma {:induction false} EveryDraw(seed: uint32, count: nat)
    requires count > 0
    ensures Stuck(seed) ==> After(Seeded(seed) as int, count) == 0
    ensures !Stuck(seed) ==> 1 <= After(Seeded(seed) as int, count) <= MODULUS - 1
  {
    FirstDraw(seed);
    if count > 1 {
      EveryDraw(seed, count - 1);
      if !Stuck(seed) {
        Permutation(After(Seeded(seed) as int, count - 1));
      }
    }
  }
}
