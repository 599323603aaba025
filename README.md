# MiniCRT byte primitives in Dafny

This project models the memory and string primitives of MiniCRT, a
freestanding substitute for the C runtime. The memory primitives are
`memset`, `memcpy`, `memmove` and `memcmp`. The string primitives are
`strlen`, `strnlen`, `strcpy` and `strcmp`. Each primitive is a Dafny
method whose loop follows the C loop, and each is proved against a
specification.

Memory is one flat address space: the caller's `mem: array<byte>`. A C
pointer is a natural-number offset into it, and `byte` is an integer in
`0..255` (an `unsigned char`). The overlap test in `memmove` and the
backward copy therefore work on real aliasing, with both ranges in one array.

- `bytes.dfy` (module `Bytes`): the `byte` and `int32` types, the C
  conversion `(unsigned char) c`, and `LexLess`. `LexLess` is the
  lexicographic order on byte sequences that both comparators are measured
  against.
- `crt_memory.dfy` (module `CrtMemory`): `Memset`, `Memcpy`, `Memmove` and
  `Memcmp`. The two copy methods are proved against `Moved`, which copies
  through a temporary buffer. `Memcmp` is proved against the recursive
  function `MemCmp`, whose lemmas give its meaning.
- `crt_string.dfy` (module `CrtString`): `Strlen`, `Strnlen`, `Strcpy` and
  `Strcmp`. They are proved against the recursive functions `StrLen`,
  `StrNLen` and `StrCmp`, and the lemmas state what those functions mean.
- `scenarios.dfy` (module `Scenarios`): the repository's test cases, the
  0xAA fill of its commented-out memory test and an overlapping `memmove` shift, applied
  to concrete buffers. Each outcome is a proved postcondition. The module also has the copy-then-compare
  client of `tests/simple_test.cpp`.

The headers promise only the sign of a comparison result
(include/minicrt/memory.h:64, include/minicrt/string.h:60). The code returns
the exact difference of the two stopping bytes (src/crt/crt_memory.cpp:71,
src/crt/crt_string.cpp:92). The model follows the code: `MemCmp` and
`StrCmp` return that difference, and `StrCmpAntisymmetric` and
`MemCmpAntisymmetric` state the exact negation when the operands are swapped.

## Model

| member | source | states |
|---|---|---|
| `Bytes.ToUnsignedChar` | src/crt/crt_memory.cpp:14 | the byte `memset` writes is congruent to `c` modulo 256, negative `c` included |
| `CrtMemory.Memset` | src/crt/crt_memory.cpp:12-20 | returns `dest`; every byte of `[dest, dest+count)` becomes `(unsigned char) c`; every other byte is unchanged, so `count == 0` changes nothing |
| `CrtMemory.Memcpy` | src/crt/crt_memory.cpp:25-33 | for non-overlapping ranges (the header's demand, include/minicrt/memory.h:32-33), returns `dest`; byte `dest+i` gets the old byte `src+i`; nothing else changes, the source included; the result equals the copy through a temporary |
| `CrtMemory.Memmove` | src/crt/crt_memory.cpp:38-60 | for any two in-bounds ranges, overlapping or not, returns `dest`; byte `dest+i` gets the old byte `src+i` and nothing outside the destination changes; in the backward branch the loop's frame invariant leaves every byte below the write cursor, the unread source prefix among them, at its original value, so no source byte is overwritten before it is read |
| `CrtMemory.MovedAt` | src/crt/crt_memory.cpp:38-60 | the reference copy through a temporary puts the old source bytes in the destination and leaves every other byte alone |
| `CrtMemory.MemCmp` | src/crt/crt_memory.cpp:65-77 | the comparison result lies in `[-255, 255]` |
| `CrtMemory.MemCmpFirstDifference` | src/crt/crt_memory.cpp:69-71 | at the least index `k` where the ranges differ, the result is `lhs[k] - rhs[k]` as unsigned bytes |
| `CrtMemory.MemCmpZeroIff` | src/crt/crt_memory.cpp:65-77 | the result is 0 if and only if the two ranges are equal, `count == 0` included |
| `CrtMemory.MemCmpSign` | src/crt/crt_memory.cpp:69-71 | the result is negative exactly when `lhs` is lexicographically before `rhs`, and positive exactly when it is after |
| `CrtMemory.MemCmpAntisymmetric` | src/crt/crt_memory.cpp:71 | swapping the operands negates the result |
| `CrtMemory.Memcmp` | src/crt/crt_memory.cpp:65-77 | the scanning loop with its early return computes `MemCmp` of the two ranges |
| `CrtString.StrLen` | src/crt/crt_string.cpp:16-31 | the length is the index of the first zero byte: that byte is zero and all bytes before it are not |
| `CrtString.StrLenUnique` | src/crt/crt_string.cpp:26-27 | any zero-free prefix followed by a zero is the string's length; bytes after the first zero do not matter |
| `CrtString.Content` | src/crt/crt_string.cpp:16-31 | a string's characters hold no zero, and followed by a zero they are the buffer's first `strlen + 1` bytes |
| `CrtString.Strlen` | src/crt/crt_string.cpp:16-31 | the cursor loop returns `StrLen` of the string at `str` |
| `CrtString.StrNLen` | src/crt/crt_string.cpp:43-53 | the result is at most `max_len`, no byte before it is zero, and a result below `max_len` is the index of a zero byte; only `max_len` readable bytes or a terminator are needed |
| `CrtString.StrNLenIsMin` | src/crt/crt_string.cpp:47-50 | on a terminated string the bounded length is the smaller of `strlen` and `max_len` |
| `CrtString.Strnlen` | src/crt/crt_string.cpp:43-53 | the counting loop with its early `break` returns `StrNLen`, and it reads no byte at index `max_len` or beyond |
| `CrtString.Strcpy` | src/crt/crt_string.cpp:65-73 | with room for `strlen(src) + 1` bytes at `dest` (include/minicrt/string.h:44-45) and disjoint strings, returns `dest`; bytes `dest..dest+n` get the source bytes, terminator included; every other byte, the source string included, is unchanged |
| `CrtString.StrCopyAgrees` | tests/test_string.cpp:31-34 | a buffer that agrees with a string up to and including its terminator has the same length and compares equal to it, in both orders |
| `CrtString.StrCmp` | src/crt/crt_string.cpp:84-93 | the comparison result lies in `[-255, 255]` |
| `CrtString.StrCmpAtStop` | src/crt/crt_string.cpp:86-92 | at the first index where the left string ends or the strings differ, the result is the difference of the two bytes as unsigned values |
| `CrtString.StrCmpZeroIff` | src/crt/crt_string.cpp:84-93 | the result is 0 if and only if the strings have equal contents, which means equal bytes up to and including both terminators |
| `CrtString.StrCmpReflexive` | tests/test_string.cpp:44 | every string compares equal to itself |
| `CrtString.StrCmpAntisymmetric` | src/crt/crt_string.cpp:92 | swapping the operands negates the result |
| `CrtString.StrCmpSign` | src/crt/crt_string.cpp:84-93 | the result is negative exactly when the left contents come lexicographically first (a proper prefix included), and positive exactly when they come after |
| `CrtString.Strcmp` | src/crt/crt_string.cpp:84-93 | the lock-step loop returns `StrCmp` of the two strings |
| `Scenarios.CopyThenCompare` | tests/simple_test.cpp:14-25 | after `strcpy`, `strcmp` of the copy and the original is 0 and the two lengths are equal to the original length |
| `Scenarios.StrlenExamples` | tests/test_string.cpp:11-14 | `strlen` gives 0 for "", 5 for "Hello", 5 for "Hello\0World", and 2 for the bytes H, i, 0, X |
| `Scenarios.StrnlenExamples` | tests/test_string.cpp:21-23 | `strnlen("Hello", m)` gives 0, 3 and 5 for m = 0, 3 and 10 |
| `Scenarios.StrcmpEqualExample` | tests/test_string.cpp:44 | `strcmp("Hello", "Hello")` is 0 |
| `Scenarios.StrcmpLessExample` | tests/test_string.cpp:45 | `strcmp("Hello", "World")` is negative |
| `Scenarios.StrcmpGreaterExample` | tests/test_string.cpp:46 | `strcmp("Hello", "Hallo")` is positive |
| `Scenarios.StrcpyExample` | tests/test_string.cpp:27-35 | "Hello, World!" copied into a 20-byte buffer compares equal to the original and has length 13 |
| `Scenarios.MemsetExample` | tests/no_std_lib_test.cpp:208-214 | the 0xAA fill of the commented-out memory test: two 10-byte buffers filled with 0xAA hold only 0xAA and compare equal under `memcmp` |
| `Scenarios.MemmoveShiftExample` | src/crt/crt_memory.cpp:47-52 | an overlapping shift: moving the first 8 bytes of "ABCDEFGHIJ" up by two gives "ABABCDEFGH" |

## Left out

- Process lifecycle (src/crt/crt_entry.cpp). `exit` is inline assembly for a raw OS exit system call and never returns. `_start` and `CustomMainCRTStartup` are loader entry points that call an external `main`. `minicrt_init` and `minicrt_cleanup` have empty bodies, and nothing reads or writes the global `errno`. None of these has behaviour that can be stated about values.
- include/minicrt/crt.h holds only macros, typedefs and platform detection. `size_t` is modelled as an unbounded `nat`.
- CrtString.Strlen: outside `_WIN64`, `size_t` is a 32-bit `unsigned int` (include/minicrt/crt.h:29-33), while the x86-64 target has 64-bit pointers, so the source returns `(size_t)(s - str)`, the length modulo 2^32, for strings of 4 GiB or more (src/crt/crt_string.cpp:30); the model returns the exact length.
- Pointer arithmetic in the `memmove` overlap test (src/crt/crt_memory.cpp:43) cannot overflow, because addresses are in-bounds offsets into one array. Objects at unrelated addresses are modelled by placing them in the one `mem` array.
- Null pointers, unterminated strings, destinations that are too small, and overlapping arguments to `memcpy` are undefined behaviour in the source. They appear as preconditions and are not modelled as behaviour.
- CrtString.Strcpy requires the source string and its copy not to overlap. The header (include/minicrt/string.h:44-45) asks only for capacity; the no-overlap rule is ISO C's rule for `strcpy`. With overlap and `dest` above `src`, the loop at src/crt/crt_string.cpp:69 overwrites the terminator before reading it. With overlap and `dest` below `src`, the source copies correctly, but the model excludes that case too, by the same rule.
- `char` signedness: `strcmp` compares `char` values for equality, which does not depend on signedness, and it widens the stopping bytes through `unsigned char`. Modelling every byte as unsigned is therefore exact.
- Returned pointers are modelled as the returned offset (`r == dest`). Pointer identity beyond that is not modelled.
- The test harnesses' output routines (console and system-call writes) and the gtest drivers are not part of this model. Their assertions appear only as the examples in `Scenarios`.
