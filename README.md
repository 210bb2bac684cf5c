# Buddy allocator over one page, in Dafny

This project models `buddy.c`, a buddy-system block allocator that works
inside one 4 KiB page (`PAGE_LEVEL` 12, `MIN_LEVEL` 3). Every block is
`2^level` bytes, starts at a multiple of its size and carries a header
`{taken, level}` at its start. The allocator's core is:

- address arithmetic: `get_next` (the block just after a block) and
  `get_buddy` (the block's buddy, its address with bit `level` flipped);
- `split`, which halves a block in place and stamps a header in the upper
  half, and `merge`, which raises the level in the lower buddy's header;
- `level`, which maps a payload length to the smallest admissible block
  level, or -1 when a whole page is too small;
- `new_block`, which stamps the page-level header on a fresh page, and the
  self-test `buddy_test`.

Files:

- `bits.dfy` (module `Bits`): XOR, OR and AND on naturals, defined bit by
  bit, with the facts the allocator needs. XOR with `2^k` flips bit `k`. OR
  with `2^k` sets it. AND with the 64-bit mask `ONES << k` clears the `k`
  low bits. `Aligned`, `Bit` and `RoundDown` are recursive definitions.
  `ArithmeticMeaning` ties them to `%` and `/`.
- `buddy.dfy` (module `Buddy`): the constants, `GetNext`, `GetBuddy`,
  `Primary` (merge's address computation), and the class `Page`. A `Page`
  holds an array of 4096 header entries, one per offset. `Page.Split` and
  `Page.Merge` update that array in place.
- `level.dfy` (module `LevelCalc`): `Level` on unbounded naturals, its
  characterisation as a clamped `ceil(log2)`, and `LevelAsWritten`. The
  latter is the 64-bit computation as compiled, kept for the finding below.
- `buddy_test.dfy` (module `BuddyTest`): `buddy_test` as a verified
  scenario. It also has the split/merge round trips stated for every block.

Addresses are offsets within the page. The page is page-aligned
(`buddy.c:37`), so an address and its offset agree in every bit below
`PAGE_LEVEL`. `get_buddy`, `split` and `merge` only look at those bits.
Headers are written only at block starts. Block starts are multiples of
`2^MIN_LEVEL`, and a header (4 bytes) fits in `2^MIN_LEVEL` bytes. So
headers at distinct block starts never overlap, and the entry at a block
start is exactly the header a read there sees. The code reads headers only
at block starts. The entries at other offsets carry no meaning: a real read
at such an offset would see bytes of a neighbouring header, which the
entries do not model.

The functions `get_next` and `get_buddy` read the level from the block's
header. The model passes that level as an argument, and the scenario passes
`page.heads[block].level`.

## Model

| member | source | states |
|---|---|---|
| Bits.XorPow2 | buddy.c:47 | XOR with 2^k subtracts 2^k when bit k is set and adds it when the bit is clear |
| Bits.XorInvolution | buddy.c:47 | XOR with a fixed operand undoes itself |
| Bits.OrPow2 | buddy.c:53 | OR with 2^k adds 2^k exactly when bit k was clear, and otherwise changes nothing |
| Bits.AndHighMask | buddy.c:59-60 | for a value below 2^w, AND with the w-bit mask 2^w - 2^k (ONES shifted left by k) clears the k low bits |
| Bits.RoundDownBounds | buddy.c:60 | the value with its k low bits cleared is a multiple of 2^k, at most the value, and within 2^k of it |
| Bits.ArithmeticMeaning | buddy.c:37 | `Aligned(a, k)` means a % 2^k == 0, `Bit(a, k)` means (a / 2^k) % 2 == 1, and `RoundDown(a, k)` is a - a % 2^k |
| Bits.Pow2Of64 | buddy.c:17 | 2^64 is the number of values of the 64-bit word ONES fills |
| Buddy.WordRangeIsPow2 | buddy.c:17 | the 64-bit word range used by merge's mask and by the size_t sum in level() is 2^WordBits |
| Buddy.PageLenIsPow2 | buddy.c:16 | PAGE_LEN is 2^PAGE_LEVEL |
| Buddy.HeadFitsMinBlock | buddy.c:24-26 | the header fits in the smallest block |
| Buddy.GetNext | buddy.c:42-44 | the next offset lies past the block, and the next block of an aligned block is aligned |
| Buddy.NextIsNextAligned | buddy.c:42-44 | the next block of an aligned block is the next aligned offset of that level, with no aligned offset in between |
| Buddy.GetBuddy | buddy.c:46-48 | the buddy is the offset 2^level below the block when bit `level` is set, else 2^level above it; the buddy of an aligned block is aligned |
| Buddy.BuddyInvolution | buddy.c:46-48 | the buddy of the buddy is the block itself |
| Buddy.Primary | buddy.c:58-60 | merge's masked address is aligned at level + 1 and is the start of the enclosing block of the next level up |
| Buddy.PrimaryUnique | buddy.c:58-60 | that enclosing block is unique: any aligned block of level + 1 holding the offset is merge's address |
| Buddy.Halves | buddy.c:50-56 | the two halves of an aligned block are aligned one level down, each is the other's buddy, the upper half is the lower half's next block, and the block after the upper half is the block after the whole |
| Buddy.PrimaryOfUpper | buddy.c:58-63 | merging the upper buddy of a pair finds its buddy, the lower one, which is also its own merge target |
| Buddy.PrimaryOfLower | buddy.c:58-63 | merging the lower buddy of a pair finds the block itself; its buddy lies inside the page and merges into it as well |
| Buddy.PrimaryOfPair | buddy.c:58-63 | from either buddy of an aligned pair, merge finds the same block, the lower-addressed one |
| Buddy.Page.constructor | buddy.c:28-40 | a fresh zero-filled page has the free page-level header at offset 0, and every other block start reads as a zero header |
| Buddy.Page.Split | buddy.c:50-56 | split returns block + 2^(L-1). Both halves hold a free header at level L-1, and no other header changes. The halves are aligned and each other's buddies. The upper half is the lower half's next block, and its own next block is the old block's next |
| Buddy.Page.Merge | buddy.c:58-63 | merge returns the lower buddy: the buddy when bit L of the block is set, else the block. It adds one to the level in that header, whatever level it held. The taken flag and every other header, including the upper buddy's stale one, are unchanged. When the lower buddy is at the block's level L, the new level is L + 1, at most PAGE_LEVEL |
| LevelCalc.BitWidthBounds | buddy.c:69 | n has BitWidth(n) significant bits: 2^(BitWidth(n)-1) <= n < 2^BitWidth(n) |
| LevelCalc.CeilLog2ByBitWidth | buddy.c:67-70 | the bit width of total - 1 is ceil(log2(total)) for every total >= 1 |
| LevelCalc.CeilLog2Unique | buddy.c:67 | ceil(log2(total)) is unique |
| LevelCalc.ClampLevel | buddy.c:71-74 | the clamp answers -1 exactly above PAGE_LEVEL; otherwise it answers a level in MIN_LEVEL..PAGE_LEVEL that is at least the width, and equal to it above MIN_LEVEL |
| LevelCalc.ClampedCeilLog2 | buddy.c:65-75 | the clamped ceil(log2(total)) is -1 exactly when total exceeds the page; otherwise its block holds total bytes, and one level less would not unless the result is MIN_LEVEL |
| LevelCalc.ClampedLevelBounds | buddy.c:70-74 | the same bounds for the clamp of any l that is ceil(log2(total)) |
| LevelCalc.Level | buddy.c:65-75 | -1 exactly when payload plus header exceed the page. Otherwise a level in MIN_LEVEL..PAGE_LEVEL whose block holds payload plus header, and the least such level when above MIN_LEVEL |
| LevelCalc.LevelIsClampedCeilLog2 | buddy.c:65-75 | level is -1 when ceil(log2(n + H)) exceeds PAGE_LEVEL, and max(MIN_LEVEL, ceil(log2(n + H))) otherwise |
| LevelCalc.LevelMonotone | buddy.c:65-75 | a smaller payload fits whenever a larger one does, and never gets a larger level |
| LevelCalc.LevelAsWritten | buddy.c:65-75 | level() with 64-bit wrap-around: the bit scan of zero (undefined) happens exactly when payload plus header is 2^64 + 1; any defined answer is -1 or a level in MIN_LEVEL..PAGE_LEVEL |
| LevelCalc.LevelAsWrittenAgrees | buddy.c:65-75 | without wrap-around, the 64-bit computation agrees with Level |
| LevelCalc.LevelWrapsAround | buddy.c:66 | a payload of 2^64 - 2 bytes gets MIN_LEVEL from the 64-bit computation although it exceeds an 8-byte block; Level answers -1 |
| BuddyTest.LevelBoundaries | buddy.c:109-113 | level(0), level(H), level(200-H), level(256-H) and level(257-H) are 3, 3, 8, 8 and 9 |
| BuddyTest.SplitMergeRoundTrip | buddy.c:82-107 | splitting a free aligned block and merging either half returns the block's offset and restores its header; only the upper half's header is left behind |
| BuddyTest.SplitDownMergeUp | buddy.c:82-107 | splitting the lower half down to MIN_LEVEL and merging back up restores the block's header, and touches no header outside the block |
| BuddyTest.ScenarioOffsets | buddy.c:85-98 | the self-test's offsets: the halves of the page at 0 and 2048, the quarters at 0 and 1024, their buddies and next blocks |
| BuddyTest.ScenarioFirstSplit | buddy.c:82-88 | the first split of the fresh page, with each of the test's assertions about levels, offsets, buddies and next blocks |
| BuddyTest.ScenarioSecondSplit | buddy.c:90-98 | the second split of the lower half, with each of the test's assertions |
| BuddyTest.ScenarioMerges | buddy.c:100-107 | the two merges back, with each of the test's assertions, end with the free page-level block at offset 0 |
| BuddyTest.Scenario | buddy.c:77-114 | the self-test's sequence of two splits and two merges on a fresh page, then the level() cases, ends with the free page-level block at offset 0 |
| BuddyTest.FreshPageRoundTrip | buddy.c:77-107 | on a fresh page, splitting all the way down and merging back gives the free page-level block at offset 0 |

## Left out

- `mmap` and its `MAP_FAILED` path (buddy.c:29-34) are an OS call. The constructor is the zero-filled page that a successful call returns.
- The page-alignment assertion (buddy.c:37) is taken as given. All addresses are offsets within the page.
- Header byte layout: the page is modelled as one header entry per offset, not as bytes. Entries are exact only at block starts (multiples of 2^MIN_LEVEL), where the code reads and writes headers. A level-0 zero header stands for untouched zero memory. What a read at any other offset would see is not modelled.
- Buddy.GetBuddy: at PAGE_LEVEL the C code flips address bit 12, which lies outside the page. The offset model gives offset 4096 there. Neither value is used: a page-level block has no buddy inside the page, so the allocator never asks for one.
- `__builtin_clzl` and the 64-bit `long` are modelled by `BitWidth` on naturals. `LevelAsWritten` reduces sums modulo 2^64 to show the wrap-around.
- LevelCalc.Level does not model the 64-bit wrap-around of `alloc_len + sizeof(head_t)` (buddy.c:66). It is the corrected level() of the finding below.
- The `short` level field is an unbounded `int`. This matches `short` while merge is called on a block whose lower buddy is at the same level, as the allocator keeps buddies: Merge's contract then gives a level of at most PAGE_LEVEL. Merging the same upper buddy again and again keeps raising the lower header's level. Past 32767 the C `short` would wrap, but the model keeps counting.
- Buddy.Page.Split requires MIN_LEVEL < level <= PAGE_LEVEL and an aligned block, although the code checks neither. These are the allocator's invariants: without them the upper half may fall outside the page, or headers may overlap. Split does not require the block to be free, because the code overwrites `taken` with false whatever it was.
- Buddy.Page.Merge requires MIN_LEVEL <= level < PAGE_LEVEL and an aligned block, which the code does not check. It does not require the buddy to be free or at the same level, because the code never checks either. It adds one to whatever level the lower buddy's header holds, and that header is the buddy's own when the block is the upper one.
- No free list, allocation policy or locking exists in buddy.c, so none is modelled.
- `level` has no special case for a total of 1: the comment at buddy.c:68 says `total_len - 1 > 0` is guaranteed. With a 4-byte header the total is at least 4, so the bit scan is defined whenever the sum does not wrap, and the model has no such case either.
- LevelCalc.LevelAsWritten models the signed overflow of `(long) total_len - 1` at total_len == 2^63 (undefined in C) as two's-complement wrap-around.

## Findings

| source | as written | input that shows it | evidently intended | confidence | as-written member | corrected member |
|---|---|---|---|---|---|---|
| buddy.c:66 | `alloc_len + sizeof(head_t)` is a size_t sum and wraps modulo 2^64 | alloc_len = 2^64 - 2: the total wraps to 2, and level() answers MIN_LEVEL (an 8-byte block) | -1, since the request exceeds the page | medium; not executed | LevelCalc.LevelWrapsAround | LevelCalc.Level |
