# Bump allocator and helpers of a header-only C support library, in Dafny

This project models the logic of a small header-only C library: the bump
(arena) allocator of `bump_alloc.h`, the two string helpers of `str_util.h`,
and the pieces of real logic in `global.h` (the bit-flag macros, the
byte-to-binary expansion, and the pointer table of the call-site trace log).
The model follows the code as written. Where the code departs from what its
comments and a conventional arena allocator evidently intend, both the behaviour as written
and the corrected behaviour are modelled (see "## Findings").

Files and modules:

- `ctypes.dfy`, module `CTypes`: the fixed-width types (`u8` as `bv8`, `u32`
  and `s32` as integer ranges), unsigned 32-bit addition modulo 2^32, and
  `Option` for a pointer that may be NULL.
- `bump_alloc.dfy`, module `BumpAlloc`: the class `BumpAllocator` with the
  fields `data` (an optional array, NULL while uninitialised), `size` and
  `pos`, and the four operations `Init`, `Alloc`, `Reset`, `Free`. The cursor
  arithmetic of `bump_alloc` is the function `AllocStep`; the intended arena
  contract is the function `IntendedAlloc`.
- `str_util.dfy`, module `StrUtil`: C strings as character buffers holding a
  NUL; `FindLastOf` is the scanning loop of `str_util_find_last_of`, `Trunc`
  is `str_util_trunc` on the caller's buffer.
- `global.dfy`, module `Global`: `Flag`, `HasFlag`, `RemoveFlag` on `bv32`,
  `ByteToBinary` on a byte, and the class `TraceTable` holding the trace
  log's entries table and pointer table, with the initialisation loop and the
  "move lines around" step.

Error handling: `ERR_CHECK` aborts in a debug build and is compiled out
otherwise (global.h:313-317, 512-513). Its conditions are the `requires`
clauses of the methods. The out-of-memory path of `bump_alloc` returns NULL
when `ERR` is compiled out; the model returns `None` and leaves the state
unchanged. The check `alloc != NULL` is implicit: a Dafny method is always
called on an object.

A conventional arena allocator accepts a request that exactly fills the
buffer and returns the region at the old cursor. The code uses a strict
check on a wrapping 32-bit sum, returns the address at the new cursor, and
resets without checking `data`. The model follows the code.

## Model

| member | source | states |
|---|---|---|
| CTypes.Add32 | bump_alloc.h:50 | u32 addition is the mathematical sum when it fits and the sum minus 2^32 when it overflows |
| BumpAlloc.AllocStep | bump_alloc.h:50-57 | a successful step leaves the cursor below `size`; without wrap-around it succeeds iff `pos + n < size` and moves the cursor to `pos + n`; with wrap-around it succeeds iff the wrapped sum is below `size` and moves the cursor to it |
| BumpAlloc.ZeroSizeKeepsCursor | bump_alloc.h:50-54 | a zero-byte request succeeds and returns the unchanged cursor |
| BumpAlloc.ExactFitRefused | bump_alloc.h:50 | a request with `pos + n == size` is refused |
| BumpAlloc.ReturnedRegionBounds | bump_alloc.h:50-54 | when the sum does not wrap, the returned offset is `pos + n`, so the caller's `n` bytes stay inside the buffer iff `pos + 2n <= size` |
| BumpAlloc.ReturnedRegionOverruns | bump_alloc.h:53-54 | size 10, request 6 from cursor 0: offset 6 is returned and the region runs to 12 |
| BumpAlloc.ReturnedRegionsOverlap | bump_alloc.h:50-54 | for any requests of `m` then `k` bytes with `1 <= k < m` that fit, both succeed and the second address lies strictly inside the first region (4 then 1 give [4,8) and [5,6)) |
| BumpAlloc.WrappedSumMovesCursorBack | bump_alloc.h:50-53 | from cursor 5 of 10, a request of 2^32-3 bytes passes the check and moves the cursor back to 2 |
| BumpAlloc.CursorMovesBackOnlyByWrap | bump_alloc.h:50-53 | after a successful step the cursor is below the old one exactly when the 32-bit sum wrapped around |
| BumpAlloc.AsWrittenScenario | bump_alloc.h:50-57 | on 16 bytes: 4 gives offset 4, then 8 gives 12, then 5 and the exact fit 4 fail; 16 from a fresh cursor fails |
| BumpAlloc.BumpAllocator.constructor | bump_alloc.h:13-19 | a zero-initialised `bump_alloc_t`: no buffer, size and cursor 0 |
| BumpAlloc.BumpAllocator.Init | bump_alloc.h:26-37 | requires no buffer and a non-zero size; afterwards a fresh buffer of exactly `n` bytes, `size == n`, `pos == 0`, and the invariant `pos < size` |
| BumpAlloc.BumpAllocator.Alloc | bump_alloc.h:43-58 | requires a buffer; the result is `AllocStep` of the old cursor; on success the cursor is the returned offset, on failure NULL and nothing changes; buffer and size never change; the invariant is kept |
| BumpAlloc.BumpAllocator.Reset | bump_alloc.h:66-72 | the cursor becomes 0, buffer and size are untouched, no buffer is required |
| BumpAlloc.BumpAllocator.Free | bump_alloc.h:80-91 | requires a buffer; afterwards no buffer, size 0, cursor 0, so `Alloc` is again excluded until `Init` |
| BumpAlloc.IntendedAlloc | bump_alloc.h:39-41 | corrected step: succeeds iff `cursor + n <= capacity` with no wrap-around, the region starts at the old cursor and ends at the new one, inside the buffer |
| BumpAlloc.CorrectedAllocStep | bump_alloc.h:50-54 | the check `n <= size - pos` in u32 arithmetic never wraps and decides and places every request exactly as the intended contract does |
| BumpAlloc.AsWrittenVersusIntended | bump_alloc.h:50-54 | without wrap-around, the code accepts exactly the requests that would fit with one byte to spare, and returns the end of the intended region |
| BumpAlloc.IntendedRunBackToBack | bump_alloc.h:39-41 | corrected allocator: requests whose sizes sum to at most the room left all succeed, the k-th starts at the cursor plus the sizes before it, stays inside the buffer, and regions do not overlap |
| BumpAlloc.IntendedScenario | bump_alloc.h:39-58 | corrected allocator on 16 bytes: offsets 0, 4, 12, the 5-byte request refused, the exact fit accepted, the whole buffer at offset 0 |
| StrUtil.StrLen | str_util.h:55 | strlen is the index of the first NUL of the buffer |
| StrUtil.MemcmpZeroIffMatch | str_util.h:40-44 | on NUL-terminated strings, the memcmp of `strlen(identifier)` bytes at `i` is zero iff `identifier` lies entirely within `str` at `i` |
| StrUtil.FindLastOf | str_util.h:37-50 | the result is NULL iff no start position matches; otherwise it is a matching index below the length with no later match; empty `str` gives NULL; empty `identifier` on a non-empty `str` gives the last index |
| StrUtil.Truncated | str_util.h:53-70 | when the string is longer than abs(pos), the result has `len - abs(pos)` characters and is a suffix (pos > 0) or a prefix (pos <= 0); otherwise it is the string itself |
| StrUtil.TruncFront | str_util.h:59-61 | for `0 < pos < len`, the string at offset `pos` is the original with its first `pos` characters dropped |
| StrUtil.TruncBack | str_util.h:63-66 | for `pos <= 0` and `len > -pos`, writing NUL at `len + pos` leaves the first `len + pos` characters as the string |
| StrUtil.Trunc | str_util.h:53-70 | the returned pointer is `str + pos` when cutting the front and `str` otherwise; the string it designates is `Truncated` of the old one; only the byte at `len + pos` may change, and only when cutting the back |
| Global.Flag | global.h:104-112 | FLAG(a) equals 2^a for 0 <= a < 31 |
| Global.FlagIsPow2 | global.h:112 | `1 << a` as an unsigned value is 2^a, by induction on `a` |
| Global.HasFlag | global.h:114-118 | HAS_FLAG(a, b) is non-zero iff a and b have a set bit in common |
| Global.SharedBit | global.h:114-118 | `a & b != 0` iff some bit below 32 is set in both |
| Global.RemoveFlag | global.h:120-121 | each bit of the result is set iff it is set in `a` and clear in `b`; no bit of `b` survives |
| Global.RemoveFlagIdempotent | global.h:120-121 | removing the same flags twice equals removing them once |
| Global.ByteToBinary | global.h:280-289 | exactly 8 characters, each '0' or '1', character k is '1' iff bit 7-k is set |
| Global.MacroMasks | global.h:281-289 | the masks 0x80 down to 0x01 in the macro test bits 7 down to 0 |
| Global.ByteToBinaryRoundTrip | global.h:280-289 | the byte is recovered from its 8 digits |
| Global.BinaryToByteRoundTrip | global.h:280-289 | every string of 8 binary digits is the expansion of the byte it denotes |
| Global.ShiftedAsWritten | global.h:389-394 | same length; element 0 and element 1 both become the old last element; element i becomes old element i-1 for i >= 2 |
| Global.ShiftedAsWrittenValues | global.h:389-394 | the values after the shift are exactly the old values at indices 1 and up |
| Global.ShiftedAsWrittenNotPermutation | global.h:389-394 | for pairwise distinct pointers the old element 0 disappears and the result is not a permutation |
| Global.Rotated | global.h:389-394 | corrected step: the last element moves to the front, every other element moves up one, and the result is a permutation |
| Global.TraceTable.constructor | global.h:369-373 | the globals of TRACE_REGISTER(): a table of `maxLines` lines of 256 characters and a pointer table of NULLs |
| Global.TraceTable.Init | global.h:381-382 | afterwards pointer i designates entry i for every i, so every pointer designates a line |
| Global.TraceTable.Shift | global.h:388-394 | the pointer table becomes `ShiftedAsWritten` of the old one; pointers into the entries table stay so; the entries table is untouched |
| Global.TraceTable.Rotate | global.h:388-394 | corrected step: the pointer table becomes `Rotated` of the old one; the entries table is untouched |

## Findings

| source | as written | input that shows it | evidently intended | confidence | as-written member | corrected member |
|---|---|---|---|---|---|---|
| bump_alloc.h:50 | `pos + size < size` refuses a request that exactly fills the buffer | size 16, cursor 12, request 4 is refused; a fresh 16-byte allocator refuses 16 | `pos + size <= size`: the whole buffer can be handed out | high, not executed | BumpAlloc.ExactFitRefused | BumpAlloc.IntendedAlloc |
| bump_alloc.h:53-54 | the address is taken after the cursor advances, so the region starts at the new cursor | size 10, request 6: address 6, bytes up to 12; requests 4 then 1 overlap at [5,6) | return the address at the old cursor, then advance | high, not executed | BumpAlloc.ReturnedRegionsOverlap | BumpAlloc.IntendedRunBackToBack |
| bump_alloc.h:50 | the u32 sum wraps before the comparison | cursor 5 of 10, request 2^32-3: accepted, cursor back to 2 | compare without wrap-around (e.g. `size <= alloc->size - alloc->pos`) | medium, not executed | BumpAlloc.WrappedSumMovesCursorBack | BumpAlloc.CorrectedAllocStep |
| global.h:389-394 | element 0 is overwritten with the last pointer before the downward copy, so index 1 receives the last pointer too and the old pointer 0 is lost | pointers [0, 1, 2] become [2, 2, 1] | save the last pointer, shift, then store it at index 0: [2, 0, 1] | high, not executed | Global.ShiftedAsWrittenNotPermutation | Global.TraceTable.Rotate |

The class `BumpAllocator` and the method `TraceTable.Shift` model the code as
written. The corrected members stand beside them. `BumpAlloc.AsWrittenUsage`
is a client of the class that walks the 16-byte scenario through the as-written
methods.

## Left out

- Print and style macros of global.h and global_print.h: formatted terminal output, no logic.
- io_util.h: Windows console calls.
- Trace log file I/O in `__global_trace_func` and `TRACE_INIT()` (`fopen`, `sprintf` into the line, `rewind`, `ftell`, `freopen`, `fputs`): only the pointer table is modelled. The `TRACE()` call at the start of each allocator function only logs and is left out.
- `MALLOC`, `FREE` and the other libc wrappers: `MALLOC` in `bump_init` is a fresh array of `size` bytes. A NULL result of `malloc` in a build without `GLOBAL_DEBUG` is not modelled. Freeing the buffer is modelled as dropping the reference.
- Process termination by `abort()` in `ERR`/`ERR_CHECK`: the checked conditions are preconditions.
- `F32_NAN`/`P_NAN` (floating point), `P_C_VERSION` and compile-time plumbing.
- The duplicated flag macros in global_types.h and `BYTE_TO_BINARY` in global_print.h: textual copies of the global.h ones, modelled once.
- StrUtil.Trunc: `pos == INT_MIN` is excluded, since `abs(INT_MIN)` overflows. A string longer than `INT_MAX` is not modelled either (`strlen` is stored in an `int`).
- StrUtil.FindLastOf: `memcmp` may read past the NUL of `str`; the model takes the comparison as "identifier lies within str", which the lemma `MemcmpZeroIffMatch` justifies for reads that stay inside the buffer.
- Global.RemoveFlag: the macro assigns to its argument in place; the model returns the new value of that lvalue.
- Global.Flag: `FLAG(a)` for `a >= 31` overflows a C `int` and is excluded.
- The contents of the allocator's buffer: no operation of the allocator reads or writes them.
