# state_ptr in Dafny

A model of `putl::state_ptr<T>`, a tagged pointer. It packs a pointer to a `T` and a small unsigned state into one 64-bit word, as two bit-fields:

- `m_ptr : ptr_bits` holds the pointer shifted right by `state_bits`;
- `m_state : state_bits` holds the state.

`state_bits` is the floor base-2 logarithm of `alignof(T)`, and `detail::log2` computes it at compile time.

The project has three modules:

- `Detail` (`detail.dfy`) holds `detail::log2`. The method `Log2` has the same halving loop, and it is proved equal to a recursive reference definition `FloorLog2`. Lemmas say that `FloorLog2` is the floor logarithm (bounds, uniqueness, `log2(2^j) == j`, the values the tests expect).
- `Layout` (`layout.dfy`) holds the per-type constants `state_bits`, `ptr_bits` and `threshold`, all as functions of the alignment. It also holds the state check, and what storing into and reading from the two bit-fields does to a value (`Truncate` is storing a value into a bit-field of a given width).
- `Putl` (`state_ptr.dfy`) holds the class `StatePtr`. Its fields are `mPtr` and `mState`. It has both constructors, `GetPtr`, `GetState`, `SetState`, `operator bool` (`ToBool`) and `== nullptr` (`IsNull`). Next to the class are the comparison operators and the hash.

The element type enters only through its alignment, which is a constant `align` of each object. The pointer is a natural number below 2^64. The alignment is restricted to `2 <= align < 2^32`. With alignment 1 the state field would be `m_state : 0`, a named bit-field of width zero, which is ill-formed. Below 2^32, `state_bits` is at most 31, and `1u << state_bits` is exact in the 32-bit `unsigned int` it is evaluated in.

The older header `state_ptr.hpp` holds the same logic, and the same members model both versions. The correspondence is:

| older header | member |
|---|---|
| `log2` at lines 19-26 | `Detail.Log2` |
| constants at lines 39-41 | `Layout.StateBits`, `Layout.PtrBits`, `Layout.Threshold` |
| constructor at lines 43-51 | `Putl.StatePtr.constructor` |
| `check_invariant` at lines 53-55 | `Putl.StatePtr.Valid` and the constructors' check |
| `set_state` at lines 57-61 | `Putl.StatePtr.SetState` |
| `get_state` and `get_ptr` at lines 63-75 | `Putl.StatePtr.GetState`, `Putl.StatePtr.GetPtr` |
| `operator bool` at lines 85-87 | `Putl.StatePtr.ToBool` |
| `==` and `!=` at lines 107-115 | `Putl.EqualAsWritten` (the `==` as written); `Putl.NotEqual` is the corrected `!=` |
| hash at lines 146-155 | `Putl.Hash` |

This header has no null constructor.

How the code stores and compares:

- The pointer and the state are two bit-fields of one word, not one word with the state OR-ed into its low bits. The constructor shifts the pointer right by `state_bits` into `m_ptr`, and `get_ptr` shifts it back. The round trip is exact for aligned pointers. For an unaligned pointer, the low bits are cleared.
- The hash is the word hash of `m_ptr` alone. Equal pointers still hash equally.
- Equality compares `m_ptr` only. See the second finding.

Three choices about failure:

- **A failing constructor** is a precondition: each constructor requires `ConstructorCheck(align, state) == Pass`. The tests (testsrc/state_ptr_tests.cpp:55-58) expect a constructor to abort on a bad state. As written, its assertion cannot fire (first finding). The model gives the constructors the intended check as a precondition.
- **A failing `set_state`** returns `Fail(OutOfRangeState)` and leaves the object unchanged. The assertion in the source comes before the write.
- **Equality in the rest of the model** is the corrected `Equal`. It compares pointer and state, as the tests require.

## Model

| member | source | states |
|---|---|---|
| `Detail.Log2` | include/putl/state_ptr.hpp:18-25 | The halving loop returns `FloorLog2(number)`: 0 for inputs 0 and 1, and otherwise the `acc` with `2^acc <= number < 2^(acc+1)`. The result is always below 64. |
| `Detail.FloorLog2Bounds` | state_ptr.hpp:19-26 | For every `n >= 1`, `2^log2(n) <= n < 2^(log2(n)+1)`. |
| `Detail.FloorLog2Unique` | include/putl/state_ptr.hpp:18-25 | Any `j` with `2^j <= n < 2^(j+1)` equals `log2(n)`, so the logarithm is exactly the floor. |
| `Detail.FloorLog2OfPow2` | testsrc/log2_tests.cpp:17-28 | `log2(2^j) == j` for every `j`. |
| `Detail.FloorLog2TestValues` | testsrc/log2_tests.cpp:9-34 | `log2` of 0 and 1 is 0, of the powers 2..1024 is their exponent, and of 13, 17 and 35 it is 3, 4 and 5. |
| `Layout.StateBits` | include/putl/state_ptr.hpp:39 | `state_bits` is the floor logarithm of the alignment, `2^k <= align < 2^(k+1)`, and it is between 1 and 31. |
| `Layout.PtrBits` | include/putl/state_ptr.hpp:42 | `ptr_bits` is between 33 and 63, and the state field's range times the pointer field's range is exactly 2^64. |
| `Layout.Threshold` | include/putl/state_ptr.hpp:46 | `threshold < align <= 2 * threshold + 1`, and `(1u << state_bits) - 1u` does not wrap in 32 bits. |
| `Layout.LayoutPartition` | include/putl/state_ptr.hpp:39-46 | `state_bits + ptr_bits == 64`, `threshold + 1 == 2^state_bits`, and the two field ranges multiply to 2^64. |
| `Layout.Int64Layout` | state_ptr.hpp:39-41 | For an 8-aligned element, `state_bits`, `ptr_bits` and `threshold` are 3, 61 and 7. |
| `Layout.Truncate` | include/putl/state_ptr.hpp:114-115 | A value stored into a bit-field of width `w` ends up below 2^w. It is unchanged exactly when it was already below 2^w. |
| `Putl.StatePtr.Valid` | include/putl/state_ptr.hpp:149-152 | The invariant that `assert_invariant` checks: a valid object's state fits in `state_bits` bits, and its pointer field shifted back fits in the 64-bit word. |
| `Layout.IsValidState` | include/putl/state_ptr.hpp:122-125 | A state is valid iff it is below `2^state_bits`, iff the state field holds it unchanged. |
| `Layout.ValidStateBoundary` | include/putl/state_ptr.hpp:149-152 | `threshold` itself is a valid state and `threshold + 1` is not. |
| `Layout.StoredPtr` | include/putl/state_ptr.hpp:143 | `ptr >> state_bits` always fits in `ptr_bits` bits, so storing it into `m_ptr` truncates nothing. |
| `Layout.StoredState` | include/putl/state_ptr.hpp:144 | The stored state is at most `threshold`. It equals the given state iff that state is valid. |
| `Layout.DecodedPtr` | include/putl/state_ptr.hpp:166-176 | `m_ptr << state_bits` never wraps a 64-bit word. The result is aligned, and shifting it back yields the field. |
| `Layout.PtrRoundTrip` | state_ptr.hpp:47-75 | A pointer stored and read back has its low `state_bits` bits cleared. An aligned pointer comes back unchanged. |
| `Layout.ConstructorCheckAsWritten` | include/putl/state_ptr.hpp:139-152 | The constructors' check, as written (after the store), passes for every state. |
| `Layout.ConstructorCheckAsWrittenLosesState` | state_ptr.hpp:43-55 | With alignment 8, state 8 passes that check and is stored as 0. |
| `Layout.ConstructorCheck` | testsrc/state_ptr_tests.cpp:55-58 | The intended check passes iff storing the state loses nothing. Otherwise it fails with `OutOfRangeState`. |
| `Putl.StatePtr.constructor` | include/putl/state_ptr.hpp:138-147 | For a valid state, the object satisfies the invariant. `get_ptr()` is the pointer with its low bits cleared, or the pointer itself when it is aligned, and `get_state()` is the state. |
| `Putl.StatePtr.Null` | include/putl/state_ptr.hpp:127-136 | For a valid state, `get_ptr() == 0`, `get_state()` is the state, and `operator bool` is false. |
| `Putl.StatePtr.GetState` | include/putl/state_ptr.hpp:161-164 | The state of a valid object is at most `threshold`. |
| `Putl.StatePtr.GetPtr` | state_ptr.hpp:67-75 | The pointer is aligned, and shifting it right gives back `m_ptr`. |
| `Putl.StatePtr.ToBool` | include/putl/state_ptr.hpp:188-191 | `operator bool` is true iff the pointer field is non-zero. It never depends on the state. |
| `Putl.StatePtr.IsNull` | include/putl/state_ptr.hpp:208-211 | `p == nullptr` iff the pointer field is zero, iff `operator bool` is false. |
| `Putl.StatePtr.SetState` | include/putl/state_ptr.hpp:154-159 | A valid state becomes the state, and an invalid one fails with `OutOfRangeState` before `m_state` is written. `get_ptr()`, `operator bool` and the invariant are kept. |
| `Putl.Equal` | testsrc/state_ptr_tests.cpp:104-115 | Two tagged pointers are equal iff both their pointers and their states are equal. |
| `Putl.NotEqual` | include/putl/state_ptr.hpp:202-205 | `!=` holds iff pointer or state differ, i.e. it is the negation of `==`. |
| `Putl.EqualReflexive` | testsrc/state_ptr_tests.cpp:82-86 | Every tagged pointer equals itself. |
| `Putl.EqualSymmetric` | testsrc/state_ptr_tests.cpp:88-102 | `==` is symmetric, and `!=` is its negation. |
| `Putl.EqualTransitive` | testsrc/state_ptr_tests.cpp:104-115 | `==` is transitive. |
| `Putl.EqualAsWritten` | include/putl/state_ptr.hpp:197-200 | The equality as written holds iff the pointers are equal, whatever the states. |
| `Putl.EqualAsWrittenIgnoresState` | state_ptr.hpp:107-115 | Tagged pointers with equal pointers and different states are equal as written and unequal as tested. |
| `Putl.Hash` | include/putl/state_ptr.hpp:258-267 | The hash is the word hash of the pointer shifted right, and it does not depend on the state. |
| `Putl.HashRespectsEquality` | state_ptr.hpp:146-155 | Tagged pointers that are equal, under either equality, hash equally. |
| `Putl.SetStateTest` | testsrc/state_ptr_tests.cpp:35-43 | For a 4-aligned `Foo` at an aligned address and state 1, `get_ptr()` is the address and `get_state()` is 1. After `set_state(2)` succeeds, `get_ptr()` is still the address and `get_state()` is 2. |
| `Putl.SetStateOutOfBoundsTest` | testsrc/state_ptr_tests.cpp:60-64 | For a 4-aligned `Foo` with state 0, `set_state(1337)` fails with `OutOfRangeState`, and the pointer and the state 0 are kept. |

## Left out

- `operator*` and `operator->` read memory through the pointer. Pointers here are plain numbers, so dereferencing is not modelled. The example program at test.cpp:16-23 steps a tagged pointer through a vector with `++r`, which the class does not define, and that loop is not modelled either.
- The relational operators `<`, `<=`, `>`, `>=` are not modelled. As written, `<=` and `>` are defined through each other without end, `<` is a non-strict test, and `<=` is declared twice. No order is modelled in their place.
- The `nullptr`-first comparisons (`nullptr == p`, `nullptr != p`) are not modelled. `nullptr == p` calls itself without end (include/putl/state_ptr.hpp:219-221). `nullptr != p` returns `nullptr == p` (:224-226), so it never returns either, and if it did it would give the `==` result. `p == nullptr` is modelled as `IsNull`, and `p != nullptr` is its negation.
- `state_mask` and `ptr_mask` are not used by the bit-field layout.
- The physical layout of the bit-fields in the word, `sizeof` equality, `alignof` and `reinterpret_cast` are compiler concerns. The alignment is a parameter and the pointer a number below 2^64.
- The older header computes `threshold` as `(1 << state_bits) - 1` in a signed `int` (state_ptr.hpp:41). That is undefined for `state_bits == 31`, that is, for alignments from 2^31 up. There the model follows the main header's unsigned `1u << state_bits` (include/putl/state_ptr.hpp:46).
- Alignment 1 is excluded by the `Alignment` type. It would make `m_state : 0` (include/putl/state_ptr.hpp:115) a named zero-width bit-field, which does not compile. Alignments of 2^32 or more are excluded too, because `1u << state_bits` would overflow the 32-bit shift.
- Access control is not modelled. The `std::hash` specialisation reads the private `m_ptr` without being declared a friend (include/putl/state_ptr.hpp:264, state_ptr.hpp:152). `Putl.Hash` reads the field directly.
- The death tests (testsrc/state_ptr_tests.cpp:55-64) expect the message "state value is out of bounds for this state_ptr". No assertion in either header carries that text. Messages are not modelled; only the failure itself is.
- The unused `Deleter` parameter of the older header is not modelled, and neither is an enumeration state type. The tests use one, but neither header implements it.
- `std::hash<uintptr_t>` is a parameter `hasher` of `Putl.Hash`.
- The tests (testsrc/state_ptr_tests.cpp:55-58) expect a constructor to abort on a bad state. As written, its assertion cannot fire (first finding). The model gives the constructors the intended check as a precondition rather than a failure value. Behaviour with assertions disabled is not modelled.
- The copy constructor and copy assignment are bit-for-bit copies and are not modelled. Copying the two fields preserves every property above.
- Concurrency: `set_state` is a plain non-atomic write, and no concurrent access is modelled.

## Findings

| source | as written | input that shows it | evidently intended | confidence | as-written member | corrected member |
|---|---|---|---|---|---|---|
| include/putl/state_ptr.hpp:139-152 | Both constructors store `state` into the `state_bits`-wide field `m_state` and then assert on the field. The stored value is already truncated, so the assertion can never fail (same in state_ptr.hpp:43-55). | `alignof(T) == 8`, state 8: the check passes and `get_state()` returns 0. The test at testsrc/state_ptr_tests.cpp:55-58 expects an abort. | Check the state argument before it is stored. | medium, not executed | `Layout.ConstructorCheckAsWritten` | `Layout.ConstructorCheck` |
| include/putl/state_ptr.hpp:197-200 | `operator==` compares `m_ptr` only (same in state_ptr.hpp:107-110). `operator!=` (include/putl/state_ptr.hpp:202-205, state_ptr.hpp:112-115) negates it and inherits the defect, so `EXPECT_NE(p11, p12)` at testsrc/state_ptr_tests.cpp:112 fails through it. `Putl.NotEqual` negates the corrected `Equal`. | `state_ptr{&foo1, 1}` and `state_ptr{&foo1, 2}` compare equal. The test at testsrc/state_ptr_tests.cpp:104-115 expects them unequal. | Equal iff pointer and state both match. | high, not executed | `Putl.EqualAsWritten` | `Putl.Equal` |
