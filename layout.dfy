/** The bit budget of `state_ptr<T>` and the encoding of its two bit-fields.
    Everything here depends on the element type only through its alignment:
    `state_bits` low bits of every aligned pointer are zero and carry the state,
    the remaining `ptr_bits` bits carry the pointer shifted right. */
module Layout {
  import opened Detail

  /** Width of a pointer (`8 * sizeof(T*)`), equal to the width of `uintptr_t`. */
  const WordBits: nat := 64

  /** An alignment the compiler can report for an element type whose `state_ptr`
      is well formed.  At least 2, because with alignment 1 the state field
      `m_state : 0` would be a named bit-field of width zero.  Below 2^32, because
      `1u << state_bits` is evaluated in a 32-bit `unsigned int`. */
  type Alignment = a: nat | 2 <= a < 0x1_0000_0000 witness 2

  /** The one error condition: a state above the threshold. */
  datatype Error = OutOfRangeState

  /** The result of a state check. */
  datatype Outcome = Pass | Fail(error: Error)

  /** `state_bits = log2(alignof(T))`: the largest k with 2^k not above the alignment. */
  function StateBits(align: Alignment): (k: nat)
    ensures 1 <= k <= 31
    ensures Pow2(k) <= align < Pow2(k + 1)
  {
    FloorLog2Bounds(align);
    FloorLog2BelowAlignLimit(align);
    FloorLog2(align)
  }

  lemma FloorLog2BelowAlignLimit(align: Alignment)
    ensures 1 <= FloorLog2(align) <= 31
  {
    FloorLog2Bounds(align);
    Pow2Word();
    if FloorLog2(align) > 31 {
      Pow2Monotone(32, FloorLog2(align));
    }
  }

  /** `ptr_bits = 8 * sizeof(T*) - state_bits`: the bits left for the pointer field,
      whose range together with the state field's covers exactly one word. */
  function PtrBits(align: Alignment): (b: nat)
    ensures 33 <= b <= 63
    ensures Pow2(StateBits(align)) * Pow2(b) == WordLimit
  {
    Pow2Add(StateBits(align), WordBits - StateBits(align));
    Pow2Word();
    WordBits - StateBits(align)
  }

  /** `threshold = (1u << state_bits) - 1u`: the largest state the state field holds.
      It is below the alignment and more than half of it, and the 32-bit unsigned
      computation does not wrap. */
  function Threshold(align: Alignment): (t: nat)
    ensures t < align <= 2 * t + 1
    ensures t < 0x1_0000_0000
  {
    Pow2(StateBits(align)) - 1
  }

  /** The two fields split the word, and the threshold is the all-ones state field. */
  lemma LayoutPartition(align: Alignment)
    ensures StateBits(align) + PtrBits(align) == WordBits
    ensures Threshold(align) + 1 == Pow2(StateBits(align))
    ensures Pow2(StateBits(align)) * Pow2(PtrBits(align)) == WordLimit
  {
    Pow2Add(StateBits(align), PtrBits(align));
    Pow2Word();
  }

  /** An element type aligned to 8 bytes (`int64_t`). */
  lemma Int64Layout()
    ensures StateBits(8) == 3 && PtrBits(8) == 61 && Threshold(8) == 7
  {
  }

  /** Storing a value into a bit-field `width` bits wide keeps its low bits. */
  function Truncate(x: nat, width: nat): (r: nat)
    ensures r < Pow2(width)
    ensures r == x <==> x < Pow2(width)
  {
    ModBelow(x, Pow2(width));
    x % Pow2(width)
  }

  lemma ModBelow(x: nat, d: nat)
    requires d > 0
    ensures x % d < d
    ensures x < d ==> x % d == x
  {
  }

  /** `is_valid_state`: a state is valid exactly when the state field can hold it unchanged. */
  function IsValidState(align: Alignment, state: Word): (r: bool)
    ensures r <==> state < Pow2(StateBits(align))
    ensures r <==> Truncate(state, StateBits(align)) == state
  {
    state <= Threshold(align)
  }

  /** The threshold itself is accepted and the next value is not. */
  lemma ValidStateBoundary(align: Alignment)
    ensures Threshold(align) < WordLimit
    ensures IsValidState(align, Threshold(align))
    ensures Threshold(align) + 1 < WordLimit && !IsValidState(align, Threshold(align) + 1)
  {
  }

  lemma {:induction false} DivBelow(p: nat, d: nat, m: nat)
    requires d > 0 && p < d * m
    ensures 0 <= p / d < m
  {
  }

  /** `m_ptr{reinterpret_cast<uintptr_t>(ptr) >> state_bits}`: the pointer shifted right,
      stored in the `ptr_bits`-wide field.  Nothing is lost by the store. */
  function StoredPtr(align: Alignment, ptr: Word): (m: nat)
    ensures m == ptr / Pow2(StateBits(align))
    ensures m < Pow2(PtrBits(align))
  {
    ShiftRightFits(align, ptr);
    Truncate(ptr / Pow2(StateBits(align)), PtrBits(align))
  }

  lemma ShiftRightFits(align: Alignment, ptr: Word)
    ensures 0 <= ptr / Pow2(StateBits(align)) < Pow2(PtrBits(align))
  {
    LayoutPartition(align);
    DivBelow(ptr, Pow2(StateBits(align)), Pow2(PtrBits(align)));
  }

  /** `m_state{state}` / `m_state = state`: the state stored in the `state_bits`-wide field.
      The store is lossless exactly for valid states. */
  function StoredState(align: Alignment, state: Word): (m: Word)
    ensures m <= Threshold(align)
    ensures m == state <==> IsValidState(align, state)
  {
    Pow2Word();
    Pow2Monotone(StateBits(align), 31);
    Truncate(state, StateBits(align))
  }

  lemma {:induction false} MulDiv(a: nat, d: nat)
    requires d > 0
    ensures (a * d) / d == a && (a * d) % d == 0
  {
    var q, r := (a * d) / d, (a * d) % d;
    assert a * d == q * d + r;
    if q > a {
      MulBelow(a, q, d);
    } else if q < a {
      if q + 1 < a {
        MulBelow(q + 1, a, d);
      }
    }
  }

  lemma MulBelow(a: nat, b: nat, d: nat)
    requires a < b && d > 0
    ensures a * d < d * b
  {
  }

  /** `get_ptr`: `m_ptr << state_bits` on a 64-bit word.  For a field that fits its
      width the shift never wraps, yields an aligned pointer, and determines the field. */
  function DecodedPtr(align: Alignment, field: nat): (p: Word)
    requires field < Pow2(PtrBits(align))
    ensures p == field * Pow2(StateBits(align))
    ensures p % Pow2(StateBits(align)) == 0
    ensures p / Pow2(StateBits(align)) == field
  {
    ShiftLeftFits(align, field);
    MulDiv(field, Pow2(StateBits(align)));
    ModBelow(field * Pow2(StateBits(align)), WordLimit);
    (field * Pow2(StateBits(align))) % WordLimit
  }

  lemma ShiftLeftFits(align: Alignment, field: nat)
    requires field < Pow2(PtrBits(align))
    ensures field * Pow2(StateBits(align)) < WordLimit
  {
    LayoutPartition(align);
    MulBelow(field, Pow2(PtrBits(align)), Pow2(StateBits(align)));
  }

  /** Storing a pointer and reading it back clears its low `state_bits` bits;
      on an aligned pointer this is the identity. */
  lemma PtrRoundTrip(align: Alignment, ptr: Word)
    ensures DecodedPtr(align, StoredPtr(align, ptr)) == ptr - ptr % Pow2(StateBits(align))
    ensures ptr % Pow2(StateBits(align)) == 0 ==> DecodedPtr(align, StoredPtr(align, ptr)) == ptr
  {
    ShiftRightFits(align, ptr);
    DivMul(ptr, Pow2(StateBits(align)));
  }

  lemma DivMul(p: nat, d: nat)
    requires d > 0
    ensures (p / d) * d == p - p % d
  {
  }

  /** The check both constructors run, AS WRITTEN: `assert_invariant` / `check_invariant`
      tests the state field after the state was stored into it. */
  function ConstructorCheckAsWritten(align: Alignment, state: Word): (r: Outcome)
    ensures r == Pass
  {
    if IsValidState(align, StoredState(align, state)) then Pass else Fail(OutOfRangeState)
  }

  /** With 8-byte alignment, state 8 (one past the threshold) passes the check as
      written and is stored as 0. */
  lemma ConstructorCheckAsWrittenLosesState()
    ensures ConstructorCheckAsWritten(8, 8) == Pass
    ensures StoredState(8, 8) == 0 != 8
  {
  }

  /** The check the constructors are meant to run: it tests the state argument before
      it is stored.  It passes exactly when the store keeps the state unchanged. */
  function ConstructorCheck(align: Alignment, state: Word): (r: Outcome)
    ensures r == Pass <==> StoredState(align, state) == state
    ensures r == Pass <==> state <= Threshold(align)
  {
    if IsValidState(align, state) then Pass else Fail(OutOfRangeState)
  }
}
