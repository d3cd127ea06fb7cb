/** `putl::state_ptr<T>`: a pointer and a small state packed into one 64-bit word,
    as two bit-fields `m_ptr : ptr_bits` and `m_state : state_bits`.  The element
    type enters only through its alignment, a constant of each object. */
module Putl {
  import opened Detail
  import opened Layout

  class StatePtr {
    /** `alignof(T)`: fixes `state_bits`, `ptr_bits` and `threshold`. */
    const align: Alignment
    /** The pointer shifted right by `state_bits`. */
    var mPtr: nat
    /** The state. */
    var mState: nat

    /** Each field fits its bit-field width, and the state is within the threshold
        (what `assert_invariant` / `check_invariant` assert).  Then the state needs
        no more than `state_bits` bits, and the pointer field shifted back fits the word. */
    ghost predicate Valid()
      reads this
      ensures Valid() ==> mState < Pow2(StateBits(align))
      ensures Valid() ==> mPtr * Pow2(StateBits(align)) < WordLimit
    {
      if mPtr < Pow2(PtrBits(align)) then
        ShiftLeftFits(align, mPtr);
        mState <= Threshold(align)
      else
        false
    }

    /** `state_ptr(nullptr, state)`: the null pointer with a valid state. */
    constructor Null(align: Alignment, state: Word)
      requires ConstructorCheck(align, state) == Pass
      ensures Valid() && this.align == align
      ensures GetPtr() == 0 && GetState() == state
      ensures !ToBool() && IsNull()
    {
      this.align := align;
      mPtr := 0;
      mState := StoredState(align, state);
    }

    /** `state_ptr(ptr, state)`: the pointer with its low `state_bits` bits cleared
        (the pointer itself when it is aligned) and a valid state. */
    constructor (align: Alignment, ptr: Word, state: Word)
      requires ConstructorCheck(align, state) == Pass
      ensures Valid() && this.align == align
      ensures GetPtr() == ptr - ptr % Pow2(StateBits(align))
      ensures ptr % Pow2(StateBits(align)) == 0 ==> GetPtr() == ptr && (ToBool() <==> ptr != 0)
      ensures GetState() == state
    {
      this.align := align;
      mPtr := StoredPtr(align, ptr);
      mState := StoredState(align, state);
      new;
      PtrRoundTrip(align, ptr);
    }

    /** `get_state`: a state within the threshold. */
    function GetState(): (s: Word)
      reads this
      requires Valid()
      ensures s <= Threshold(align)
    {
      ValidStateBoundary(align);
      mState
    }

    /** `get_ptr` (both the mutable and the const form): an aligned 64-bit pointer
        from which the pointer field is recovered by shifting right. */
    function GetPtr(): (p: Word)
      reads this
      requires Valid()
      ensures p % Pow2(StateBits(align)) == 0
      ensures p / Pow2(StateBits(align)) == mPtr
    {
      DecodedPtr(align, mPtr)
    }

    /** `operator bool`: true exactly when the pointer field is non-zero, whatever the state. */
    function ToBool(): (b: bool)
      reads this
      requires Valid()
      ensures b <==> mPtr != 0
    {
      GetPtr() != 0
    }

    /** `operator==(state_ptr, nullptr)`: the negation of the boolean conversion. */
    function IsNull(): (b: bool)
      reads this
      requires Valid()
      ensures b <==> mPtr == 0
      ensures b <==> !ToBool()
    {
      GetPtr() == 0
    }

    /** `set_state`: checks the new state first; a valid state replaces the state field
        and leaves the pointer alone, an invalid one is refused before anything is written. */
    method SetState(newState: Word) returns (r: Outcome)
      requires Valid()
      modifies this`mState
      ensures Valid()
      ensures r == Pass <==> IsValidState(align, newState)
      ensures r != Pass ==> mState == old(mState)
      ensures r == Pass ==> GetState() == newState
      ensures GetPtr() == old(GetPtr()) && ToBool() == old(ToBool())
    {
      if !IsValidState(align, newState) {
        return Fail(OutOfRangeState);
      }
      mState := newState;
      r := Pass;
    }
  }

  /** `operator==` as the tests require it: pointer and state both match. */
  function Equal(a: StatePtr, b: StatePtr): (r: bool)
    reads a, b
    requires a.Valid() && b.Valid() && a.align == b.align
    ensures r <==> a.GetPtr() == b.GetPtr() && a.GetState() == b.GetState()
  {
    a.mPtr == b.mPtr && a.mState == b.mState
  }

  /** `operator!=`: the negation of `operator==`. */
  function NotEqual(a: StatePtr, b: StatePtr): (r: bool)
    reads a, b
    requires a.Valid() && b.Valid() && a.align == b.align
    ensures r <==> a.GetPtr() != b.GetPtr() || a.GetState() != b.GetState()
  {
    !Equal(b, a)
  }

  lemma EqualReflexive(a: StatePtr)
    requires a.Valid()
    ensures Equal(a, a) && !NotEqual(a, a)
  {
  }

  lemma EqualSymmetric(a: StatePtr, b: StatePtr)
    requires a.Valid() && b.Valid() && a.align == b.align
    ensures Equal(a, b) == Equal(b, a)
    ensures NotEqual(a, b) == !Equal(a, b)
  {
  }

  lemma EqualTransitive(a: StatePtr, b: StatePtr, c: StatePtr)
    requires a.Valid() && b.Valid() && c.Valid() && a.align == b.align == c.align
    requires Equal(a, b) && Equal(b, c)
    ensures Equal(a, c)
  {
  }

  /** `operator==` AS WRITTEN: it compares the pointer fields only. */
  function EqualAsWritten(a: StatePtr, b: StatePtr): (r: bool)
    reads a, b
    requires a.Valid() && b.Valid() && a.align == b.align
    ensures r <==> a.GetPtr() == b.GetPtr()
  {
    b.mPtr == a.mPtr
  }

  /** Two tagged pointers to the same pointee that differ in state compare equal as
      written, and unequal as tested. */
  lemma EqualAsWrittenIgnoresState(a: StatePtr, b: StatePtr)
    requires a.Valid() && b.Valid() && a.align == b.align
    requires a.GetPtr() == b.GetPtr() && a.GetState() != b.GetState()
    ensures EqualAsWritten(a, b) && !Equal(a, b)
  {
  }

  /** `std::hash<state_ptr<T>>`: the word hash (`std::hash<uintptr_t>`, given as
      `hasher`) of the pointer field. */
  function Hash(p: StatePtr, hasher: Word -> Word): (h: Word)
    reads p
    requires p.Valid()
    ensures h == hasher(p.GetPtr() / Pow2(StateBits(p.align)))
  {
    LayoutPartition(p.align);
    Pow2Monotone(PtrBits(p.align), WordBits);
    Pow2Word();
    hasher(p.mPtr)
  }

  /** Equal tagged pointers hash equally, under either equality. */
  lemma HashRespectsEquality(a: StatePtr, b: StatePtr, hasher: Word -> Word)
    requires a.Valid() && b.Valid() && a.align == b.align
    requires Equal(a, b) || EqualAsWritten(a, b)
    ensures Hash(a, hasher) == Hash(b, hasher)
  {
  }

  /** The `SetState` test: a `Foo` (one `int`, so 4-byte aligned) at an aligned
      address with state 1 reads back its address and state 1; after `set_state(2)`
      it reads back the same address and state 2. */
  method SetStateTest(address: Word) returns (p0: Word, s0: Word, r: Outcome, p1: Word, s1: Word)
    requires address % 4 == 0
    ensures p0 == address && s0 == 1
    ensures r == Pass
    ensures p1 == address && s1 == 2
  {
    FloorLog2OfPow2(2);
    var p := new StatePtr(4, address, 1);
    p0 := p.GetPtr();
    s0 := p.GetState();
    r := p.SetState(2);
    p1 := p.GetPtr();
    s1 := p.GetState();
  }

  /** The `SetStateOutOfBounds` test: on a 4-byte aligned `Foo` with state 0,
      `set_state(1337)` fails with `OutOfRangeState` and leaves pointer and state as they were. */
  method SetStateOutOfBoundsTest(address: Word) returns (r: Outcome, p1: Word, s1: Word)
    requires address % 4 == 0
    ensures r == Fail(OutOfRangeState)
    ensures p1 == address && s1 == 0
  {
    FloorLog2OfPow2(2);
    var p := new StatePtr(4, address, 0);
    r := p.SetState(1337);
    p1 := p.GetPtr();
    s1 := p.GetState();
  }
}
