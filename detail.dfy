/** The compile-time helper of the tagged pointer: a floor base-2 logarithm,
    computed by halving a number and counting the steps.  It is what fixes the
    number of state bits from the element type's alignment. */
module Detail {

  /** One past the largest value of a 64-bit unsigned word (`uint64_t`, `uintptr_t`). */
  const WordLimit: nat := 0x1_0000_0000_0000_0000

  /** A value of a 64-bit unsigned word. */
  type Word = w: nat | w < 0x1_0000_0000_0000_0000

  /** 2 raised to the power n, i.e. `1 << n` without any width limit. */
  function Pow2(n: nat): (r: nat)
    ensures r >= 1
  {
    if n == 0 then 1 else 2 * Pow2(n - 1)
  }

  lemma {:induction false} Pow2Add(a: nat, b: nat)
    ensures Pow2(a + b) == Pow2(a) * Pow2(b)
  {
    if a > 0 {
      Pow2Add(a - 1, b);
      assert Pow2(a + b) == 2 * Pow2(a - 1 + b);
    }
  }

  lemma {:induction false} Pow2Monotone(a: nat, b: nat)
    requires a <= b
    ensures Pow2(a) <= Pow2(b)
  {
    if a < b {
      Pow2Monotone(a, b - 1);
    }
  }

  /** The word width in terms of Pow2: 2^64 is the word limit. */
  lemma Pow2Word()
    ensures Pow2(16) == 0x1_0000
    ensures Pow2(31) == 0x8000_0000
    ensures Pow2(32) == 0x1_0000_0000
    ensures Pow2(64) == WordLimit
  {
    assert Pow2(8) == 0x100;
    Pow2Add(8, 8);
    Pow2Add(16, 16);
    assert Pow2(32) == 2 * Pow2(31);
    Pow2Add(32, 32);
  }

  /** The reference definition of the floor base-2 logarithm, with the
      degenerate inputs 0 and 1 both mapped to 0. */
  function FloorLog2(n: nat): (r: nat)
    ensures r <= n
  {
    if n <= 1 then 0 else 1 + FloorLog2(n / 2)
  }

  /** For a positive input, FloorLog2 is the floor of the logarithm:
      the largest power of two not above n. */
  lemma {:induction false} FloorLog2Bounds(n: nat)
    requires n >= 1
    ensures Pow2(FloorLog2(n)) <= n < Pow2(FloorLog2(n) + 1)
  {
    if n >= 2 {
      FloorLog2Bounds(n / 2);
    }
  }

  /** Conversely, a j with 2^j <= n < 2^(j+1) is the value of FloorLog2(n). */
  lemma {:induction false} FloorLog2Unique(n: nat, j: nat)
    requires Pow2(j) <= n < Pow2(j + 1)
    ensures FloorLog2(n) == j
  {
    if j > 0 {
      assert Pow2(j - 1) <= n / 2 < Pow2(j);
      FloorLog2Unique(n / 2, j - 1);
    }
  }

  lemma FloorLog2OfPow2(j: nat)
    ensures FloorLog2(Pow2(j)) == j
  {
  }

  /** The values the log2 test suites expect. */
  lemma FloorLog2TestValues()
    ensures FloorLog2(0) == 0 && FloorLog2(1) == 0
    ensures FloorLog2(2) == 1 && FloorLog2(4) == 2 && FloorLog2(8) == 3
    ensures FloorLog2(16) == 4 && FloorLog2(32) == 5 && FloorLog2(64) == 6
    ensures FloorLog2(128) == 7 && FloorLog2(256) == 8 && FloorLog2(512) == 9
    ensures FloorLog2(1024) == 10
    ensures FloorLog2(13) == 3 && FloorLog2(17) == 4 && FloorLog2(35) == 5
  {
  }

  /** `detail::log2`: halves `number` until it is at most 1, counting the halvings. */
  method Log2(number: Word) returns (acc: Word)
    ensures acc == FloorLog2(number)
    ensures number <= 1 ==> acc == 0
    ensures number >= 1 ==> Pow2(acc) <= number < Pow2(acc + 1)
    ensures acc < 64
  {
    var n: Word := number;
    acc := 0;
    while n > 1
      invariant n <= number
      invariant acc + FloorLog2(n) == FloorLog2(number)
      decreases n
    {
      n := n / 2;
      acc := acc + 1;
    }
    FloorLog2Word(number);
  }

  /** On a 64-bit word the logarithm is below 64. */
  lemma FloorLog2Word(number: Word)
    ensures number >= 1 ==> Pow2(FloorLog2(number)) <= number < Pow2(FloorLog2(number) + 1)
    ensures FloorLog2(number) < 64
  {
    if number >= 1 {
      FloorLog2Bounds(number);
      Pow2Word();
      if FloorLog2(number) >= 64 {
        Pow2Monotone(64, FloorLog2(number));
      }
    }
  }
}
