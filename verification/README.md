# NOVA library core in Dafny

This project models the sequential core of the NOVA operating system's C++ libraries and two of its applications,
and proves properties about that model:

- **karm-base slices and strings.** Clamped sub-slicing. The in-place `copy`, `move`, `reverse`, `fill` and
  `zeroFill` on mutable slices, which are windows of a Dafny `array`. The in-place quicksort `sort`. The binary
  `search`. The separator iterators. `strLen`, the heap-owning `_String` with its NUL terminator and its
  copy/move semantics, and the ASCII case-insensitive `eqCi`.
- **Boot hand-off payload (`Handover`).** The record table and the queries over it: `findTag`, `fileByName`,
  `sum`, `find` and `usableRange`. Also `cstrEq`, `tagName`, `shouldMerge` and `valid`.
- **karm-io.** The in-memory readers and writers (`Sink`, `Zero`, `Repeat`, `Empty`, `Limit`, `BufReader`,
  `BufWriter`, `BufferWriter`, `BitReader`, `StringWriter`) and the generic helpers built on them (`pread`,
  `pwrite`, `getByte`, `putByte`, `tell`, `size`, `skip` and the three `copy` loops).
- **Integer value types.** RGBA colours and integer alpha blending (`karm-gfx`). The terminal `Style` and its
  ANSI formatter (`karm-cli`). The layout alignment flags (`karm-layout`). Integer vectors and edges
  (`karm-math`).
- **Application state.** The spreadsheet's geometry (prefix-sum row/column offsets, hit testing by binary
  search, range normalisation) and the settings app's history navigation.

One Dafny module stands for one source file:

| module | file |
|---|---|
| Base | base.dfy: the `Opt`/`Res` results, `Ordr`, `min`/`max`/`clamp` and the fixed-width integer limits shared by the others |
| Slices | slice.dfy |
| Strings | string.dfy |
| Handover | handover.dfy |
| IoImpls, IoFuncs | io_impls.dfy, io_funcs.dfy |
| Spreadsheet, Settings | spreadsheet.dfy, settings.dfy |
| Colors, CliStyle, Alignment, Vecs, Edges | color.dfy, style.dfy, align.dfy, vec.dfy, edge.dfy |

How the source's forms are modelled:

- Code that mutates in place stays imperative. This covers the slice algorithms, the reader and writer
  objects, `_String`, `Sheet::recompute`, the `Style` builders and the split iterators.
- Each such method is proved against a pure function of the old state. Examples are `Overwrite`, `BufRead`,
  `BufWrite`, `TakeBits`, `SplitFrom` and `EmitFrom`. The properties are then proved about those functions.
- The generic `Readable`/`Writable`/`Seekable` parameters of `funcs.h` become a state value plus a step
  function `(S, n) -> (S, Res<bytes>)`.
- Widths are explicit. `usize` arithmetic wraps modulo 2^64, `u8`/`u16` casts keep the low bits, and C++
  integer division truncates toward zero (`Base.TDiv`).

## Model

| member | source | states |
|---|---|---|
| Slices.Sub | src/libs/karm-base/slice.h:112-118 | the result starts at `start` and has length `clamp(end, start, len) - start`; element `i` is `s[start + i]` |
| Slices.Next | src/libs/karm-base/slice.h:120-123 | `next(s, start)` is everything from `start` on, i.e. `sub(s, start, len)` |
| Slices.MutSub | src/libs/karm-base/slice.h:125-131 | the mutable window begins `start` elements in, over the same array, with the clamped length |
| Slices.MutNext | src/libs/karm-base/slice.h:141-144 | the mutable window from `start` to the end of the slice |
| Slices.MutSubContents | src/libs/karm-base/slice.h:112-131 | a mutable sub-slice views exactly the elements the read-only `sub` selects |
| Slices.IsEmpty | src/libs/karm-base/slice.h:314-316 | true exactly for the empty slice |
| Slices.First | src/libs/karm-base/slice.h:338-344 | on a non-empty slice, the element at index 0 |
| Slices.Last | src/libs/karm-base/slice.h:346-352 | on a non-empty slice, the element at index `len - 1` |
| Slices.FirstLastReversed | src/libs/karm-base/slice.h:338-352 | `first` of the reversed slice is `last` of the slice, and the other way round |
| Slices.FirstLastOfSub | src/libs/karm-base/slice.h:338-352 | `first` and `last` of a non-empty `sub(s, i, j)` are `s[i]` and `s[j - 1]` |
| Slices.Move | src/libs/karm-base/slice.h:362-371 | returns `min(len src, len dest)`; within one array the result is the forward loop `ForwardCopy`, and whenever the windows are apart or the destination does not start after the source, the destination window holds that many source elements and the rest of the array is unchanged |
| Slices.ForwardCopyAt | src/libs/karm-base/slice.h:362-371 | element `k` after the forward loop: untouched outside the window; inside, the source run, or, when the destination starts after an overlapping source, the first `dest - src` source elements repeated |
| Slices.ForwardCopyNoOverlap | src/libs/karm-base/slice.h:362-371 | when the destination does not start inside the source run, the forward loop moves the source run unchanged |
| Slices.ForwardCopyRepeats | src/libs/karm-base/slice.h:362-371 | moving `[0, 2)` of `[1, 2, 3]` onto `[1, 3)` gives `[1, 1, 1]` |
| Slices.Copy | src/libs/karm-base/slice.h:373-383 | writes and counts exactly `min(len src, len dest)` elements; every other array element is unchanged |
| Slices.Reverse | src/libs/karm-base/slice.h:385-390 | the window becomes the reversal of its old contents; nothing outside it changes |
| Slices.ReversedInvolutive | src/libs/karm-base/slice.h:385-390 | reversing twice gives back the original |
| Slices.Fill | src/libs/karm-base/slice.h:392-399 | every element of the window becomes `value`; returns the length; nothing outside changes |
| Slices.ZeroFill | src/libs/karm-base/slice.h:401-404 | `fill` with the default value 0 |
| Slices.Sort | src/libs/karm-base/slice.h:406-436 | the window ends sorted and is a permutation of its old contents; elements outside it are untouched |
| Slices.SortWindow | src/libs/karm-base/slice.h:406-436 | the recursion: each window `a[lo..hi]` ends sorted and is a permutation of its old contents, and nothing outside it changes |
| Slices.Partition | src/libs/karm-base/slice.h:411-429 | the partition loop permutes the window and leaves `right < left ≤ right + 2`, with elements ≤ pivot before `left` and ≥ pivot after `right` |
| Slices.ScanUp | src/libs/karm-base/slice.h:416-418 | the first inner loop stops at an element not below the pivot, without leaving the window |
| Slices.ScanDown | src/libs/karm-base/slice.h:420-422 | the second inner loop stops at an element not above the pivot, without leaving the window |
| Slices.Swap | src/libs/karm-base/slice.h:424-428 | exchanges the two elements, changes nothing else and keeps the window a permutation of the original |
| Slices.QuicksortStep | src/libs/karm-base/slice.h:431-435 | partitioning and then sorting `[lo, right]` and `[left, hi)` sorts and permutes the whole window |
| Slices.Search | src/libs/karm-base/slice.h:438-471 | `NONE` on an empty slice or when the first element compares Gt or the last Lt; a returned index compares Eq; on a monotone probe, `NONE` exactly when no element compares Eq |
| Slices.NextSep | src/libs/karm-base/slice.h:223-226 | the scan stops at the first separator at or after `i`, or at the end |
| Slices.PrevSep | src/libs/karm-base/slice.h:270-273 | the backward scan stops just past the last separator before `i`, or at 0 |
| Slices.SplitPiecesSepFree | src/libs/karm-base/slice.h:216-238 | no piece `iterSplit` yields contains the separator |
| Slices.SplitJoin | src/libs/karm-base/slice.h:216-238 | the pieces, joined with one separator between neighbours and followed by the separator when the input ends with one, give back the input |
| Slices.LevelSplitMatchesSplit | src/libs/karm-base/slice.h:240-261 | `iterLevelSplit` yields as many values as `iterSplit`; each is a prefix of the input ending with the matching piece |
| Slices.SplitRevPiecesSepFree | src/libs/karm-base/slice.h:263-285 | no piece `iterSplitRev` yields contains the separator |
| Slices.SplitRevJoin | src/libs/karm-base/slice.h:263-285 | the reverse pieces, read right to left and joined with separators, preceded by the separator when the input starts with one, give back the input |
| Slices.SplitIter.constructor | src/libs/karm-base/slice.h:216-218 | a fresh iterator has all the forward pieces still to come |
| Slices.SplitIter.Next | src/libs/karm-base/slice.h:218-237 | yields the next piece and drops it from the remaining ones; `NONE` once none remain |
| Slices.LevelSplitIter.constructor | src/libs/karm-base/slice.h:240-242 | a fresh iterator has all the level-split prefixes still to come |
| Slices.LevelSplitIter.Next | src/libs/karm-base/slice.h:242-260 | yields the next prefix and drops it; `NONE` once none remain |
| Slices.SplitRevIter.constructor | src/libs/karm-base/slice.h:263-265 | a fresh iterator has all the pieces, right to left, still to come |
| Slices.SplitRevIter.Next | src/libs/karm-base/slice.h:265-284 | yields the next piece from the right and drops it; `NONE` once none remain |
| Strings.StrLen | src/libs/karm-base/string.h:9-15 | returns the index of the first NUL unit |
| Strings.Alloc | src/libs/karm-base/string.h:67-72 | a fresh buffer of `len + 1` units holding `buf[0..len)` followed by a NUL |
| Strings.OwnedString.Units | src/libs/karm-base/string.h:110-112 | exactly `len` units, the first `len` units of the buffer when there is one |
| Strings.OwnedString.Empty | src/libs/karm-base/string.h:59-60 | the default string is empty and NUL-terminated |
| Strings.OwnedString.Adopt | src/libs/karm-base/string.h:62-65 | takes the given buffer and length as they are |
| Strings.OwnedString.FromUnits | src/libs/karm-base/string.h:67-72 | a fresh terminated buffer with `len() == len` and the first `len` units of the input |
| Strings.OwnedString.FromCStr | src/libs/karm-base/string.h:74-76 | a fresh copy of the units before the C string's NUL |
| Strings.OwnedString.Copy | src/libs/karm-base/string.h:81-83 | equal length and content in a fresh buffer |
| Strings.OwnedString.Move | src/libs/karm-base/string.h:85-88 | takes the source buffer and length and leaves the source null with length 0 |
| Strings.OwnedString.CopyAssign | src/libs/karm-base/string.h:96-99 | the target gets a fresh buffer with the source's length and content |
| Strings.OwnedString.MoveAssign | src/libs/karm-base/string.h:101-106 | swaps buffer and length between target and source |
| Strings.ToLower | src/libs/karm-base/string.h:166 | ASCII `tolower`: upper-case letters move down by 32, everything else is unchanged |
| Strings.SameIgnoringCaseEquivalence | src/libs/karm-base/string.h:145-172 | case-insensitive equality is reflexive, symmetric and transitive |
| Strings.EqCi | src/libs/karm-base/string.h:145-172 | false when lengths differ; otherwise, with every unit taken as one ASCII rune, true iff every pair of units is equal or equal after ASCII `tolower` |
| Handover.TagName | src/specs/handover/spec.h:46-55 | `"UNKNOWN"` exactly for the values that are not declared tags |
| Handover.TagNameInjective | src/specs/handover/spec.h:24-55 | different declared tags have different names |
| Handover.ShouldMerge | src/specs/handover/spec.h:57-68 | true exactly for FREE, LOADER, KERNEL and RESERVED |
| Handover.Record.End | src/specs/handover/spec.h:103-105 | `start + size`, wrapping modulo 2^64 |
| Handover.EmptyIffEndIsStart | src/specs/handover/spec.h:103-109 | `empty()` (`size == 0`) holds exactly when `end()` is the start, wrap-around included |
| Handover.FileNameOfFileFields | src/specs/handover/spec.h:84-100 | `file.name`, read from the union as the low 32 bits of `more`, gives back the `name` stored beside `meta` |
| Handover.Payload.StringAt | src/specs/handover/spec.h:124-130 | offset 0 is the empty string; any other offset gives the string stored at `data + offset`; any stored string is NUL-terminated |
| Handover.CStrEq | src/specs/handover/spec.h:12-18 | true iff both strings have identical units up to and including their NUL |
| Handover.FindTag | src/specs/handover/spec.h:136-144 | the first record with the tag, or none when no record has it |
| Handover.FileByName | src/specs/handover/spec.h:146-154 | the first FILE record whose name string (at offset `file.name`) equals `name`, or none |
| Handover.SizeSumAppend | src/specs/handover/spec.h:172-180 | the per-tag size sum over a concatenation is the sum of the two sums |
| Handover.SizeSumNone | src/specs/handover/spec.h:172-180 | records of other tags contribute nothing |
| Handover.Sum | src/specs/handover/spec.h:172-180 | the `usize` total of the sizes of the records with the tag: the exact sum modulo 2^64 |
| Handover.Find | src/specs/handover/spec.h:182-190 | the first FREE record with `size >= sz`, or the default empty record when none fits |
| Handover.UsableStep | src/specs/handover/spec.h:197-204 | records that are not FREE leave the running range unchanged |
| Handover.UsableRange | src/specs/handover/spec.h:192-211 | returns the folded start and `end - start` in `usize` |
| Handover.UsableFoldNoFree | src/specs/handover/spec.h:192-211 | with no FREE records the range is `{0, 0}` |
| Handover.UsableFoldBounds | src/specs/handover/spec.h:192-211 | when some FREE record exists and none starts at 0, the range starts at the smallest FREE start; its end is at least every FREE end and is one of them (or 0) |
| Handover.UsableFoldForgetsZeroStart | src/specs/handover/spec.h:198-200 | a start of 0 means "unset": a FREE record at 0 is overwritten by a later one |
| Handover.Valid | src/specs/handover/spec.h:252-262 | true iff both the passed magic and the payload's magic are COOLBOOT |
| IoImpls.SinkWrite | src/libs/karm-io/impls.h:12-16 | `Sink` reports every byte as written |
| IoImpls.EmptyRead | src/libs/karm-io/impls.h:34-38 | `Empty` reads nothing |
| IoImpls.ZeroRead | src/libs/karm-io/impls.h:18-22 | `Zero` produces as many zero bytes as asked for |
| IoImpls.Zero | src/libs/karm-io/impls.h:18-22 | zero-fills the whole destination and returns its length |
| IoImpls.Repeat.Step | src/libs/karm-io/impls.h:24-32 | `Repeat` produces as many copies of its byte as asked for |
| IoImpls.Repeat.Read | src/libs/karm-io/impls.h:29-31 | fills the whole destination with the stored byte and returns its length |
| IoImpls.StatelessFit | src/libs/karm-io/impls.h:12-38 | `Sink`, `Zero`, `Repeat` and `Empty` never produce or consume more than asked |
| IoImpls.LimitRead | src/libs/karm-io/impls.h:51-56 | asks the inner reader for `min(n, limit - read)` bytes and adds what it got to the count |
| IoImpls.LimitStaysWithin | src/libs/karm-io/impls.h:51-56 | starting from a count within the limit, a read never goes past the limit |
| IoImpls.LimitUninitialised | src/libs/karm-io/impls.h:46-52 | with an uninitialised count above the limit, `limit - read` wraps and the limit stops limiting |
| IoImpls.Limit.constructor | src/libs/karm-io/impls.h:46-49 | stores reader and limit; the count is whatever was in memory |
| IoImpls.Limit.Read | src/libs/karm-io/impls.h:51-56 | one step of `LimitRead` on the object's state |
| IoImpls.BufRead | src/libs/karm-io/impls.h:107-112 | yields `buf[pos .. clamp(n, pos, len)]`, where `n` is the destination length, and advances `pos` by that count |
| IoImpls.BufSeek | src/libs/karm-io/impls.h:114-118 | the new position is the sought one clamped into `[0, len buf]`, and it is returned |
| IoImpls.BufReadStalls | src/libs/karm-io/impls.h:107-112 | on the buffer `[1, 2]`, a second one-byte read returns nothing as written and `[2]` as intended |
| IoImpls.BufReadIntended | src/libs/karm-io/impls.h:107-112 | the intended read yields `buf[pos .. min(pos + n, len buf)]` and advances by that count |
| IoImpls.BufReadIntendedStreams | src/libs/karm-io/impls.h:107-112 | two intended reads of `n` and `m` bytes yield what one read of `n + m` yields and leave the same cursor |
| IoImpls.BufReader.constructor | src/libs/karm-io/impls.h:105 | starts at position 0 |
| IoImpls.BufReader.Read | src/libs/karm-io/impls.h:107-112 | copies `BufRead`'s bytes to the front of the destination, advances by their count and keeps `pos ≤ len buf` |
| IoImpls.BufReader.Seek | src/libs/karm-io/impls.h:114-118 | `BufSeek` on the object's state |
| IoImpls.BufWrite | src/libs/karm-io/impls.h:135-140 | writes `min(n, len buf - pos)` bytes at `pos` and advances by that count; other bytes of the buffer are unchanged |
| IoImpls.BufWriter.constructor | src/libs/karm-io/impls.h:127 | starts at position 0 |
| IoImpls.BufWriter.Seek | src/libs/karm-io/impls.h:129-133 | the position stays within `[0, len buf]` and is returned |
| IoImpls.BufWriter.Write | src/libs/karm-io/impls.h:135-140 | `BufWrite` on the array window; no byte outside the written range changes |
| IoImpls.BufferWrite | src/libs/karm-io/impls.h:148-155 | appends every input byte in order and returns their count |
| IoImpls.BufferWriter.constructor | src/libs/karm-io/impls.h:146 | starts empty |
| IoImpls.BufferWriter.Write | src/libs/karm-io/impls.h:148-155 | the buffer becomes the old buffer followed by the bytes |
| IoImpls.BufferWriter.Bytes | src/libs/karm-io/impls.h:157-159 | exactly the buffered bytes, the sequence `write` extends and `flush` empties |
| IoImpls.BufferWriter.Flush | src/libs/karm-io/impls.h:161-165 | returns the buffered length and empties the buffer |
| IoImpls.TakeBit | src/libs/karm-io/impls.h:176-187 | returns the low bit and shifts it out; once all 8 bits are used it fetches a byte and returns its low bit, keeping the other 7; a failed fetch returns the reader's error |
| IoImpls.TakeBitAtEnd | src/libs/karm-io/impls.h:177-182 | an empty read leaves the zero byte in place, so the bits read are 0 |
| IoImpls.TakeBits | src/libs/karm-io/impls.h:189-196 | the result of `k` bits is below 2^k; which bit lands where, across byte fetches, is stated by `TakeBitsSplit` and `TakeBitsFetchedByte` |
| IoImpls.TakeBitsSplit | src/libs/karm-io/impls.h:189-196 | reading `j + k` bits is reading `j` then `k`: the first `j` bits are the low bits of the result and the next `k` follow from bit `j` on, across any byte fetch; an error in the second part is the whole result |
| IoImpls.TakeBitsFetchedByte | src/libs/karm-io/impls.h:176-196 | with no bit buffered, reading 8 bits fetches one byte and returns it whole, least significant bit first, leaving nothing buffered |
| IoImpls.TakeBitsErrorSticks | src/libs/karm-io/impls.h:189-196 | once a bit read fails, reading more bits returns the same error |
| IoImpls.TakeBitsWithinByte | src/libs/karm-io/impls.h:176-196 | reading `k` buffered bits returns them least-significant first, bit `i` at position `i` |
| IoImpls.BitReader.constructor | src/libs/karm-io/impls.h:173-174 | no bits buffered |
| IoImpls.BitReader.ReadBit | src/libs/karm-io/impls.h:176-187 | `TakeBit` on the object's state |
| IoImpls.BitReader.ReadBits | src/libs/karm-io/impls.h:189-196 | `TakeBits` on the object's state |
| IoImpls.StringWriter.constructor | src/libs/karm-io/impls.h:203 | starts empty |
| IoImpls.StringWriter.WriteUnit | src/libs/karm-io/impls.h:230-233 | appends the units and returns their count |
| IoImpls.StringWriter.Take | src/libs/karm-io/impls.h:239-244 | returns a terminated string of the buffered units and leaves the writer empty |
| IoFuncs.PreadBufReader | src/libs/karm-io/funcs.h:15-18 | `pread` (seek, then read) on a `BufReader` reads from the given offset |
| IoFuncs.PwriteBufWriter | src/libs/karm-io/funcs.h:41-44 | `pwrite` (seek, then write) on a `BufWriter` writes at the given offset |
| IoFuncs.GetByte | src/libs/karm-io/funcs.h:20-24 | transfers exactly one byte; an empty read returns the uninitialised byte |
| IoFuncs.GetByteBufReader | src/libs/karm-io/funcs.h:20-24 | on a `BufReader` at position 0, returns the first byte; past 0, the as-written read is empty and the byte is the uninitialised one; the intended reader returns the byte at the position |
| IoFuncs.PutByteBufferWriter | src/libs/karm-io/funcs.h:46-48 | `putByte` (a one-byte write) on a `BufferWriter` appends the byte and returns 1 |
| IoFuncs.TellBufCursor | src/libs/karm-io/funcs.h:52-54 | `tell` (a seek of 0 from the current position) on a buffer cursor returns the position and leaves it unchanged |
| IoFuncs.SizeBufCursor | src/libs/karm-io/funcs.h:56-61 | `size` (tell, seek to the end, seek back) on a buffer cursor returns the end offset and restores the position held before |
| IoFuncs.SkipBufCursor | src/libs/karm-io/funcs.h:63-65 | `skip` on a seeker (a seek of `n` from the current position) on a buffer cursor moves forward by `n` but no further than the end |
| IoFuncs.FillLoop | src/libs/karm-io/funcs.h:74-80 | the bytes already read stay a prefix of the bytes read in the end |
| IoFuncs.Fill | src/libs/karm-io/funcs.h:74-80 | the loop computes `FillLoop` |
| IoFuncs.FillExact | src/libs/karm-io/funcs.h:74-80 | on success, returns exactly the destination length with that many bytes read |
| IoFuncs.FillFromEmptyNeverEnds | src/libs/karm-io/funcs.h:76-78 | on a reader that returns 0 bytes, the loop never ends |
| IoFuncs.CopyLoop | src/libs/karm-io/funcs.h:82-98 | on success the result counts exactly the bytes read, and the bytes read before stay a prefix |
| IoFuncs.Copy | src/libs/karm-io/funcs.h:82-98 | the loop computes `CopyLoop` |
| IoFuncs.CopyIntoBufferWriter | src/libs/karm-io/funcs.h:82-98 | into a `BufferWriter`, everything read is appended and counted |
| IoFuncs.CopySizedLoop | src/libs/karm-io/funcs.h:100-118 | on success the result counts exactly the bytes read, and the bytes read before stay a prefix |
| IoFuncs.CopySized | src/libs/karm-io/funcs.h:100-118 | the loop computes `CopySizedLoop` |
| IoFuncs.CopySizedAtMost | src/libs/karm-io/funcs.h:100-118 | never reports more than `size` bytes |
| IoFuncs.CopySizedEnds | src/libs/karm-io/funcs.h:103-116 | the sized copy ends within `size + 1` rounds |
| IoFuncs.SkipRead | src/libs/karm-io/funcs.h:67-70 | `skip` on a reader is the sized copy into a `Sink` |
| IoFuncs.SkipZero | src/libs/karm-io/funcs.h:67-70 | skipping `n` bytes of `Zero` reports exactly `n` |
| Spreadsheet.Pos.Cmp | src/apps/spreadsheet-app/app.h:23-25 | the row decides and the column breaks ties; Eq exactly for equal positions |
| Spreadsheet.PosCmpFlip | src/apps/spreadsheet-app/app.h:23-25 | swapping the operands flips the order |
| Spreadsheet.LayOut | src/apps/spreadsheet-app/app.h:93-105 | keeps every size and sets each start to the sum of the sizes before it |
| Spreadsheet.Sheet.Recompute | src/apps/spreadsheet-app/app.h:93-105 | `rows[i].y` becomes the sum of the heights of `rows[0..i)`, and likewise `cols[i].x` with widths; nothing else changes |
| Spreadsheet.SpacedCovers | src/apps/spreadsheet-app/app.h:116-132 | after a recompute, some line contains `p` iff `0 ≤ p < total size` |
| Spreadsheet.ProbeMonotone | src/apps/spreadsheet-app/app.h:116-132 | after a recompute, the hit-test probe is monotone along the lines, as binary search needs |
| Spreadsheet.LineAt | src/apps/spreadsheet-app/app.h:116-132 | the returned line contains `p` or starts at it; when the lines are `Spaced` (laid out by a recompute, every size > 0, total size below 2^31) it returns the line containing `p` exactly when one exists, and `NONE` below 0 or past the last line |
| Spreadsheet.Sheet.RowAt | src/apps/spreadsheet-app/app.h:116-123 | `LineAt` on the rows |
| Spreadsheet.Sheet.ColAt | src/apps/spreadsheet-app/app.h:125-132 | `LineAt` on the columns |
| Spreadsheet.Sheet.CellAt | src/apps/spreadsheet-app/app.h:107-114 | some cell exactly when both `rowAt(y)` and `colAt(x)` find a line; the cell pairs them |
| Spreadsheet.Sheet.constructor | src/apps/spreadsheet-app/app.h:82-91 | 23 rows of height 24 and 23 columns of width 96, nothing frozen |
| Spreadsheet.UniformSizeSum | src/apps/spreadsheet-app/app.h:89-90 | the first `k` of `n` equal lines sum to `k` times their size |
| Spreadsheet.Range.Normalised | src/apps/spreadsheet-app/app.h:155-158 | has `start ≤ end` in both row and column and covers the same cells |
| Spreadsheet.NormalisedIdempotent | src/apps/spreadsheet-app/app.h:155-158 | normalising twice is normalising once |
| Spreadsheet.Range.Rows | src/apps/spreadsheet-app/app.h:160-163 | `abs(end.row - start.row) + 1` in `usize` |
| Spreadsheet.Range.Cols | src/apps/spreadsheet-app/app.h:165-168 | `abs(end.col - start.col) + 1` in `usize` |
| Spreadsheet.Range.Cmp | src/apps/spreadsheet-app/app.h:170-172 | a differing start decides, an equal start leaves it to the end; Eq exactly for equal ranges |
| Spreadsheet.CellRange | src/apps/spreadsheet-app/app.h:149-150 | `Range(pos)` starts and ends at `pos` |
| Spreadsheet.CellRangeSize | src/apps/spreadsheet-app/app.h:149-168 | a single-cell range has one row and one column and covers exactly `pos` |
| Spreadsheet.Book.constructor | src/apps/spreadsheet-app/app.h:175-182 | three default sheets named "Sheet 1" to "Sheet 3" |
| Spreadsheet.State.constructor | src/apps/spreadsheet-app/app.h:184-191 | active sheet 0, no selection, an unnamed book of sheets "Sheet 1" to "Sheet 3"; the first one laid out, the other two with their default lines at offset 0 |
| Settings.State.Page | src/apps/settings-app/app.h:27-29 | the page at `historyIndex`, a page of the history |
| Settings.State.CanGoForward | src/apps/settings-app/app.h:35-37 | iff `historyIndex < len - 1`, computed in `usize` (an empty history wraps) |
| Settings.Initial | src/apps/settings-app/app.h:21-25 | history `[HOME]`, index 0, sidebar closed |
| Settings.NavigationWithinHistory | src/apps/settings-app/app.h:31-37 | with a valid index, `canGoBack` and `canGoForward` hold exactly when the previous or next index is in the history |
| Settings.InitialCannotNavigate | src/apps/settings-app/app.h:21-37 | the initial state shows HOME and can go neither back nor forward |
| Settings.EmptyHistoryGoesForward | src/apps/settings-app/app.h:35-37 | the wrap-around: an empty history claims it can go forward |
| Colors.FromHex | src/libs/karm-gfx/color.h:12-19 | red from bits 16–23, green from 8–15, blue from 0–7, alpha 255 |
| Colors.FromHexRoundTrip | src/libs/karm-gfx/color.h:12-19 | packing an opaque colour as `0xRRGGBB` and unpacking it gives it back, whatever the top byte |
| Colors.FromRgb | src/libs/karm-gfx/color.h:21-23 | the given channels with alpha 255 |
| Colors.FromRgba | src/libs/karm-gfx/color.h:25-27 | the given channels and alpha |
| Colors.ToVec4u | src/libs/karm-gfx/color.h:77-84 | every component is within 0..255 |
| Colors.FromVec4u | src/libs/karm-gfx/color.h:33 | each channel is the low 8 bits of its component |
| Colors.Vec4uRoundTrip | src/libs/karm-gfx/color.h:33 | colour to `Vec4u` and back is the identity; the other way round only for components below 256 |
| Colors.BlendOpaqueForeground | src/libs/karm-gfx/color.h:36-37 | `blendOver` returns an opaque foreground unchanged |
| Colors.BlendTransparentForeground | src/libs/karm-gfx/color.h:38-39 | `blendOver` with a transparent foreground returns the background |
| Colors.OpaqueChannelBetween | src/libs/karm-gfx/color.h:42-44 | over an opaque background each channel quotient lies between the two input channels |
| Colors.BlendOverOpaqueBackground | src/libs/karm-gfx/color.h:40-46 | `blendOver` over an opaque background: alpha 255, and each channel is `(bg·255·(255−a) + 255·a·fg) / 65025`, between the two inputs |
| Colors.CoverageBounds | src/libs/karm-gfx/color.h:48 | `d = 255·(bg.alpha + a) − bg.alpha·a` is positive, fits in `u16`, and is at least `255·bg.alpha` and `255·a` |
| Colors.NumeratorBound | src/libs/karm-gfx/color.h:51-53 | each channel numerator is at most `255·d`, so the quotient fits in a byte |
| Colors.BlendAlphaGrows | src/libs/karm-gfx/color.h:54 | the result alpha `d / 255` is at least both input alphas and fits in a byte |
| Colors.BlendTranslucentShape | src/libs/karm-gfx/color.h:47-56 | the general case computes the channels as numerator over `d` and alpha as `d / 255` |
| Colors.BlendOverTranslucentBackground | src/libs/karm-gfx/color.h:47-56 | `blendOver` in the general case: `0 < d < 2^16`, alpha `d / 255` not below either input alpha, channels exactly numerator over `d` |
| CliStyle.ColorTables | src/libs/karm-cli/style.h:39-50 | `COLORS` is `DARK_COLORS` followed by `LIGHT_COLORS`; the dark colours are 0..7 and the light ones 60..67 |
| CliStyle.Random | src/libs/karm-cli/style.h:29-35 | odd seeds give `(seed>>1)%8` in 0..7, even seeds that plus 60 in 60..67 |
| CliStyle.RandomInColors | src/libs/karm-cli/style.h:29-50 | `random` always gives one of `COLORS`, never the undefined colour |
| CliStyle.ResetStyle | src/libs/karm-cli/style.h:115-119 | the default style with only `_reset` set |
| CliStyle.StyleBuilder.constructor | src/libs/karm-cli/style.h:54-64 | the default style: colours undefined, every flag false |
| CliStyle.StyleBuilder.WithFg | src/libs/karm-cli/style.h:66-68 | the default style with the given foreground |
| CliStyle.StyleBuilder.WithColors | src/libs/karm-cli/style.h:70-72 | the default style with the given foreground and background |
| CliStyle.StyleBuilder.Fg | src/libs/karm-cli/style.h:74-77 | sets only the foreground and returns a copy of the new style |
| CliStyle.StyleBuilder.Bg | src/libs/karm-cli/style.h:79-82 | sets only the background and returns a copy |
| CliStyle.StyleBuilder.Bold | src/libs/karm-cli/style.h:84-87 | sets only `_bold` and returns a copy |
| CliStyle.StyleBuilder.Underline | src/libs/karm-cli/style.h:89-92 | sets only `_underline` and returns a copy |
| CliStyle.StyleBuilder.Blink | src/libs/karm-cli/style.h:94-97 | sets only `_blink` and returns a copy |
| CliStyle.StyleBuilder.Reverse | src/libs/karm-cli/style.h:99-102 | sets only `_reverse` and returns a copy |
| CliStyle.StyleBuilder.Invisible | src/libs/karm-cli/style.h:104-107 | sets only `_invisible` and returns a copy |
| CliStyle.StyleBuilder.Reset | src/libs/karm-cli/style.h:109-112 | sets only `_reset` and returns a copy |
| CliStyle.Decimal | src/libs/karm-cli/style.h:148 | `{}` renders a number as a non-empty string of decimal digits |
| CliStyle.DecimalRoundTrip | src/libs/karm-cli/style.h:148 | the digits read back give the number |
| CliStyle.CodesFromMembers | src/libs/karm-cli/style.h:143-173 | the codes are exactly the pieces of the fields that are set |
| CliStyle.CodesFromNone | src/libs/karm-cli/style.h:143-173 | no fields set, no codes |
| CliStyle.CodesExamples | src/libs/karm-cli/style.h:139-175 | the default style emits nothing; `reset()` emits exactly `ESC[0m` |
| CliStyle.CodesOfBoldAndReset | src/libs/karm-cli/style.h:143-157 | `ESC[1m` appears iff bold is set; a reset comes first |
| CliStyle.SgrInjective | src/libs/karm-cli/style.h:143-173 | different numbers give different escape sequences |
| CliStyle.SgrShape | src/libs/karm-cli/style.h:148 | an escape sequence is `ESC [`, the decimal number, then `m` |
| CliStyle.ColorCodeRanges | src/libs/karm-cli/style.h:147-153 | a defined foreground gives a code in 30..37 or 90..97, a background one in 40..47 or 100..107 |
| CliStyle.FormatFromEmits | src/libs/karm-cli/style.h:139-175 | the formatter's sequence of conditional writes is writing the style's codes in order |
| CliStyle.Step | src/libs/karm-cli/style.h:143-173 | one conditional write of the formatter: on success the formatter continues from the next field, on failure its result is the error |
| CliStyle.FormatStyle | src/libs/karm-cli/style.h:139-181 | with the ANSI backend, writes the codes of the set fields in order (reset, fg, bg, 1, 4, 5, 7, 8) and returns the total; otherwise writes nothing and returns 0 |
| CliStyle.FormatStyled | src/libs/karm-cli/style.h:197-205 | with the ANSI backend, writes the style codes, then the inner value, then `ESC[0m`, stopping at the first error; otherwise writes only the inner value |
| CliStyle.EmitAppend | src/libs/karm-cli/style.h:139-175 | into a string, emitting appends the concatenated pieces and counts their length |
| CliStyle.StyledIntoString | src/libs/karm-cli/style.h:197-201 | into a string, a styled value is its codes, the value and `ESC[0m`, and the count is their total length |
| Alignment.BaseFlagsAreBits | src/libs/karm-layout/align.h:11-22 | the twelve base flags are the bits 0 to 11, pairwise disjoint |
| Alignment.CompositesAreUnions | src/libs/karm-layout/align.h:24-29 | STRETCH, VFILL, HFILL, CENTER, FILL and CLAMP are the unions of their parts; NONE has no flag |
| Alignment.ApplyNone | src/libs/karm-layout/align.h:37-38 | `apply` (`Alignment.Apply`) with NONE returns `outer` |
| Alignment.PlaceEffect | src/libs/karm-layout/align.h:46-56 | START puts x at outer's start and END at outer's end minus the width (END wins); TOP and BOTTOM likewise for y; sizes unchanged |
| Alignment.ResizeEffect | src/libs/karm-layout/align.h:58-68 | clamps then stretches width and height; the position is unchanged |
| Alignment.CentreEffect | src/libs/karm-layout/align.h:70-74 | HCENTER and VCENTER centre on outer, with truncating `/ 2` |
| Alignment.ApplyHorizontal | src/libs/karm-layout/align.h:35-77 | after `apply` (`Alignment.Apply`), the final width and x follow the fixed flag order: cover/fit, edges, clamp, stretch, centre |
| Alignment.ApplyVertical | src/libs/karm-layout/align.h:35-77 | after `apply` (`Alignment.Apply`), the same for height and y |
| Alignment.CentreOverridesEdges | src/libs/karm-layout/align.h:46-74 | HCENTER overrides START and END |
| Alignment.EdgesPlace | src/libs/karm-layout/align.h:46-53 | without HCENTER, END aligns the right edge and START alone aligns the left edge |
| Alignment.HFillSpans | src/libs/karm-layout/align.h:26-65 | HFILL without END and HCENTER spans the outer width from its start |
| Alignment.ClampBoundsWidth | src/libs/karm-layout/align.h:58-59 | HCLAMP without HSTRETCH keeps the width within `[0, outer width]` |
| Alignment.Size | src/libs/karm-layout/align.h:79-95 | under MIN, COVER gives zero and otherwise `inner`; under PREFERRED, COVER gives `outer`; under MAX, COVER or HSTRETCH takes outer's x and COVER or VSTRETCH outer's y |
| Alignment.SizeIdempotent | src/libs/karm-layout/align.h:79-95 | applying `size` twice is applying it once |
| Alignment.StretchTakesOuter | src/libs/karm-layout/align.h:88-92 | STRETCH under MAX gives `outer` |
| Vecs.Vec2.Least | src/libs/karm-math/vec.h:33-35 | `min()` is the smaller of x and y |
| Vecs.Vec2.Greatest | src/libs/karm-math/vec.h:37-39 | `max()` is the larger of x and y |
| Vecs.Vec2.Min | src/libs/karm-math/vec.h:41-43 | componentwise minimum |
| Vecs.Vec2.Max | src/libs/karm-math/vec.h:45-47 | componentwise maximum |
| Vecs.MinMaxSplit2 | src/libs/karm-math/vec.h:41-47 | min plus max is the sum, and both are symmetric |
| Vecs.DotCrossSymmetry2 | src/libs/karm-math/vec.h:49-55 | `dot` (`Vec2.Dot`) is symmetric, `cross` (`Vec2.Cross`) antisymmetric, and `a × a = 0` |
| Vecs.Vec2.LenSq | src/libs/karm-math/vec.h:61-63 | `x·x + y·y`, never negative and zero only for the zero vector |
| Vecs.Vec2.At | src/libs/karm-math/vec.h:89-91 | index 0 is x and index 1 is y |
| Vecs.AddSubInverse2 | src/libs/karm-math/vec.h:109-135 | the componentwise operators `Vec2.Add`, `Vec2.Sub`, `Vec2.Neg`: `-` undoes `+`, `v - v` is zero, `-(-v) == v`, and `a - b == a + (-b)` |
| Vecs.ScalarInverse2 | src/libs/karm-math/vec.h:93-107 | `Vec2.SubScalar` undoes `Vec2.AddScalar`, and `Vec2.DivScalar` undoes `Vec2.MulScalar` by a non-zero scalar |
| Vecs.MulDivInverse2 | src/libs/karm-math/vec.h:122-131 | `Vec2.Div` undoes `Vec2.Mul` by a vector with no zero component |
| Vecs.Vec2.Cmp | src/libs/karm-math/vec.h:142-144 | x decides and y breaks ties; Eq exactly for equal vectors |
| Vecs.Splat2 | src/libs/karm-math/vec.h:30-31 | `Vec2(value)` has both components `value` |
| Vecs.ScalarSub2 | src/libs/karm-math/vec.h:156-159 | as written, `s - v` is `(v.x - s, v.y - s)` |
| Vecs.ScalarAdd2 | src/libs/karm-math/vec.h:151-154 | `s + v` is componentwise `s + v.x`, `s + v.y` |
| Vecs.ScalarMul2 | src/libs/karm-math/vec.h:161-164 | `s * v` is componentwise `s * v.x`, `s * v.y` |
| Vecs.ScalarDiv2 | src/libs/karm-math/vec.h:166-169 | as written, `s / v` is `(v.x / s, v.y / s)`, truncating |
| Vecs.ScalarSub2Intended | src/libs/karm-math/vec.h:156-159 | the intended `s - v`: each component is `s` minus the component |
| Vecs.ScalarSub2Swapped | src/libs/karm-math/vec.h:156-159 | `1 - Vec2(0, 0)` is `(-1, -1)` as written and `(1, 1)` as intended |
| Vecs.ScalarSub2IntendedIsNegation | src/libs/karm-math/vec.h:156-159 | the intended result is the negation of the written one; they agree only when `v == Vec2(s)` |
| Vecs.ScalarDiv2Intended | src/libs/karm-math/vec.h:166-169 | the intended `s / v` is `Vec2(s)` divided by `v` componentwise |
| Vecs.ScalarDiv2Swapped | src/libs/karm-math/vec.h:166-169 | `2 / Vec2(1, 1)` is `(0, 0)` as written and `(2, 2)` as intended |
| Vecs.ScalarDiv2IntendedUndoesMul | src/libs/karm-math/vec.h:166-169 | the intended division undoes the componentwise product: `(c·x·y) / (x, y) == (c·y, c·x)` |
| Vecs.Vec3.Xy | src/libs/karm-math/vec.h:191-194 | the `xy` view is `(x, y)` |
| Vecs.Vec3.Yz | src/libs/karm-math/vec.h:196-199 | the `yz` view is `(y, z)` |
| Vecs.Vec3.Xz | src/libs/karm-math/vec.h:212-214 | as written, `xz()` is `xy` |
| Vecs.Vec3.XzIntended | src/libs/karm-math/vec.h:212-214 | the intended `xz()` is `(x, z)` |
| Vecs.XzDropsZ | src/libs/karm-math/vec.h:212-214 | `Vec3(0, 1, 2).xz()` is `(0, 1)` as written and `(0, 2)` as intended |
| Vecs.XzIntendedRebuilds | src/libs/karm-math/vec.h:212-214 | the intended `xz` and `y` rebuild the vector; the written one agrees only when `y == z` |
| Vecs.Vec3.Least | src/libs/karm-math/vec.h:216-218 | the smallest component |
| Vecs.Vec3.Greatest | src/libs/karm-math/vec.h:220-222 | the largest component |
| Vecs.Vec3.Min | src/libs/karm-math/vec.h:224-230 | componentwise minimum |
| Vecs.Vec3.Max | src/libs/karm-math/vec.h:232-238 | componentwise maximum |
| Vecs.Vec3.LenSq | src/libs/karm-math/vec.h:244-246 | never negative and zero only for the zero vector |
| Vecs.Vec3.At | src/libs/karm-math/vec.h:261-263 | indices 0, 1, 2 are x, y, z |
| Vecs.Vec3.Cmp | src/libs/karm-math/vec.h:318-320 | lexicographic on x, y, z; Eq exactly for equal vectors |
| Vecs.DotSymmetric3 | src/libs/karm-math/vec.h:240-242 | `dot` (`Vec3.Dot`) is symmetric |
| Vecs.AddSubInverse3 | src/libs/karm-math/vec.h:281-307 | `Vec3.Add`, `Vec3.Sub`, `Vec3.Neg`: `-` undoes `+`, `v - v` is zero, and negation is an involution |
| Vecs.ScalarInverse3 | src/libs/karm-math/vec.h:265-279 | `Vec3.SubScalar` undoes `Vec3.AddScalar`, and `Vec3.DivScalar` undoes `Vec3.MulScalar` by a non-zero scalar |
| Vecs.MulDivInverse3 | src/libs/karm-math/vec.h:294-303 | `Vec3.Div` undoes `Vec3.Mul` by a vector with no zero component |
| Vecs.ScalarSub3 | src/libs/karm-math/vec.h:332-335 | `s - v` is `(-v) + s`, componentwise `lhs - rhs` |
| Vecs.ScalarAdd3 | src/libs/karm-math/vec.h:327-330 | `s + v` is `v + s` |
| Vecs.ScalarMul3 | src/libs/karm-math/vec.h:337-340 | `s * v` is `v * s` |
| Vecs.ScalarDiv3 | src/libs/karm-math/vec.h:342-345 | `s / v` divides `Vec3(s)` by `v` componentwise |
| Vecs.Vec4.Xyz | src/libs/karm-math/vec.h:368-371 | the `xyz` view |
| Vecs.Vec4.Xy | src/libs/karm-math/vec.h:373-376 | the `xy` view |
| Vecs.Vec4.Zw | src/libs/karm-math/vec.h:373-376 | the `zw` view |
| Vecs.Vec4Views | src/libs/karm-math/vec.h:364-378 | the views of a `Vec4` reassemble it |
| Vecs.Vec4.At | src/libs/karm-math/vec.h:432-434 | indices 0 to 3 are x, y, z, w |
| Vecs.Vec4.Cmp | src/libs/karm-math/vec.h:494-496 | lexicographic on x, y, z, w (Lt and Gt both characterised); Eq exactly for equal vectors |
| Vecs.DotSymmetric4 | src/libs/karm-math/vec.h:415-417 | `dot` (`Vec4.Dot`) is symmetric |
| Vecs.AddSubInverse4 | src/libs/karm-math/vec.h:452-478 | `Vec4.Add`, `Vec4.Sub`, `Vec4.Neg`: `-` undoes `+`, `v - v` is zero, and negation is an involution |
| Vecs.ScalarInverse4 | src/libs/karm-math/vec.h:436-450 | `Vec4.SubScalar` undoes `Vec4.AddScalar`, and `Vec4.DivScalar` undoes `Vec4.MulScalar` by a non-zero scalar |
| Vecs.MulDivInverse4 | src/libs/karm-math/vec.h:465-474 | `Vec4.Div` undoes `Vec4.Mul` by a vector with no zero component |
| Vecs.ScalarSub4 | src/libs/karm-math/vec.h:504-507 | `s - v` is `(-v) + s` |
| Vecs.ScalarAdd4 | src/libs/karm-math/vec.h:499-502 | `s + v` is `v + s` |
| Vecs.ScalarMul4 | src/libs/karm-math/vec.h:509-512 | `s * v` is `v * s` |
| Vecs.ScalarDiv4 | src/libs/karm-math/vec.h:514-517 | `s / v` divides `Vec4(s)` by `v` componentwise |
| Edges.FromCoords | src/libs/karm-math/edge.h:26-27 | `start == (x1, y1)` and `end == (x2, y2)`, aliased by `sx, sy, ex, ey` |
| Edges.Edge.At | src/libs/karm-math/edge.h:58-60 | indices 0 and 1 are the start, 2 and 3 the end |
| Edges.Edge.Dir | src/libs/karm-math/edge.h:42-44 | start plus the direction is the end |
| Edges.Edge.InvDir | src/libs/karm-math/edge.h:46-48 | end plus the inverse direction is the start |
| Edges.InvDirIsNegatedDir | src/libs/karm-math/edge.h:42-72 | `invDir() == -dir()`, and it is the direction of the swapped edge |
| Edges.Edge.LenSq | src/libs/karm-math/edge.h:54-56 | never negative, and zero exactly when start and end coincide |
| Edges.Edge.Swap | src/libs/karm-math/edge.h:70-72 | exchanges the endpoints |
| Edges.SwapInvariants | src/libs/karm-math/edge.h:54-80 | `swap().swap()` is the edge; swapping keeps `lenSq` and `degenerated()` (`Edges.Edge.Degenerated`) |
| Edges.DegeneratedIffEmpty | src/libs/karm-math/edge.h:54-80 | `degenerated()` (`Edges.Edge.Degenerated`) holds iff `lenSq() == 0` iff the direction is zero |

## Left out

- The microkernel's syscall surface: the source only declares its signatures.
- `WriterSlice` and `makeSlice` (impls.h:59-97): their `tell`/`size` run on a generic writer this model does not
  give them.
- `_StringWriter::write` (a panic), `writeStr` and `writeRune`: they need rune decoding and UTF-8 encoding.
  `str()` is the field itself.
- `readAllUtf8` (funcs.h:26-37): it is the unsized copy into a `StringWriter`.
- Floating-point members: `len`, `dist`, `norm`, `angle`, `rotate`, `angleWith`, `epsilonEq` and `hasNan` of the
  vectors; `parallel`, `len` and `bound` of `Edge`; `lerpWith`, `withOpacity`, `luminance` and the colour-space
  conversions of `Color`.
- `cast<U>()` and the `Fmt` formatters of vectors and edges. The `Vec4` formatter passes three values to four
  placeholders (vec.h:552).
- `Vec4::min()`/`max()` and `Vec4::min(other)`/`max(other)` (vec.h:389-413). Inside the class they name the
  member functions themselves, so they do not form a valid call and there is no behaviour to model.
- `Seek::apply`, `clamp`, `Ordr::operator|`, `Rect::cover`/`fit` and the `Flow` object are not part of this
  model. `Seek::apply` is taken as the offset relative to the begin/current/end, reduced modulo 2^64. `clamp(x, lo,
  hi)` needs `lo ≤ hi`. `|` keeps the first non-Eq result. `cover` and `fit` are parameters.
- `Flow` is a record of getter and setter functions. The lemmas about `apply` assume the setter laws in
  `Alignment.Lawful`: a setter changes only its own coordinate.
- `Alignment.Apply`: the `HCLAMP`/`VCLAMP` cases require a non-negative outer extent, the precondition `clamp`
  places on its bounds.
- `Layout::Hint` is taken as its three values MIN, PREFERRED and MAX.
- The copy loops of funcs.h may never end. `IoFuncs.Fill`, `IoFuncs.Copy` and `IoFuncs.CopySized` take a `fuel`
  bound on their rounds and return `None` when it runs out, so a run longer than the fuel is not captured.
- `copy(reader, writer, size)` declares its buffer as `Array<Bytes, 4096>`. It is modelled as the 4096-byte
  buffer it is evidently meant to be.
- `IoImpls.BitReader.ReadBits`: the result is an unbounded natural. The width of `T` and the overflow of
  `<< i` past it are not modelled.
- `IoFuncs.GetByte` and `IoImpls.Limit.constructor`: uninitialised memory is a parameter (`garbage`).
- `Slices.Sort`: modelled on integer elements under their natural order, not on an arbitrary `cmp`.
- `Slices.ZeroFill`: modelled on byte slices, where `{}` is 0. The generic `zeroFill` of any element type
  fills with that type's value-initialised element, which this model does not have for arbitrary `T`.
- `Slices.Copy`: the source is a value (`seq`), so a source sharing memory with the destination is not
  captured by its contract. `Slices.Move` runs the same forward loop over array windows, and its
  `ForwardCopy` contract covers that case.
- The generic `iter`, `iterRev`, `mutIter`, `mutIterRev` and `iterLevelSplitRev` iterators, `bytes`,
  `mutBytes`, `sizeOf`, `at`, `begin`/`end` and slice `cmp`: they are accessors or reinterpreting casts.
- `Spreadsheet.Sheet`: the `cells` map and the `Value`/`Style`/`Border` types hold no logic here and are left
  out. The default `Range()` leaves its positions uninitialised and is not modelled.
- `Spreadsheet.LineAt`: its exact answer is promised only for `Spaced` lines: laid out by a recompute, every
  size > 0 and the total size below 2^31. For other lines it only promises that the returned line contains `p`
  or starts at it.
- `isize`/`i32` overflow of vector components and sizes is not modelled: those are unbounded integers here.
  The spreadsheet's `i32` running offsets are the exception: they wrap through `ToI32`.
- Destructors and freeing of `_String` buffers; the variadic `style(args...)` and `styled(...)` helpers.
- `Fmt::format(writer, "\x1b[{}m", n)` is taken as one write of the rendered escape sequence.
- `CliStyle.FormatStyled`: C++ leaves unspecified the order in which the three operands of `+` are evaluated.
  The model writes them left to right.
- `Strings.EqCi`: every unit is taken as one ASCII rune. Rune decoding through `E::decodeUnit` is not modelled,
  nor its early `false` when a unit fails to decode (with `a = b = [0xC3]` in UTF-8 the source returns false and
  the model true). Multi-unit encodings and `tolower` on non-ASCII runes are not modelled either.
- Handover `Request` constructors, `agentName` and `range<R>()`: one-line constructors and accessors.

## Findings

| source | as written | input that shows it | evidently intended | confidence | as-written member | corrected member |
|---|---|---|---|---|---|---|
| src/libs/karm-io/impls.h:108 | `sub(_buf, _pos, sizeOf(bytes))` passes the destination length as the `end` index | buffer `[1, 2]`, two one-byte reads: the second returns nothing | `sub(_buf, _pos, _pos + sizeOf(bytes))`, so consecutive reads stream the buffer | not executed | IoImpls.BufReadStalls | IoImpls.BufReadIntendedStreams |
| src/libs/karm-math/vec.h:212-214 | `xz()` returns `{x, y}` | `Vec3(0, 1, 2).xz()` is `(0, 1)` | `{x, z}` | not executed | Vecs.XzDropsZ | Vecs.XzIntendedRebuilds |
| src/libs/karm-math/vec.h:156-159 | scalar-left `s - v` for `Vec2` returns `v - s` | `1 - Vec2(0, 0)` is `(-1, -1)` | `{s - v.x, s - v.y}`, as the `Vec3` and `Vec4` overloads compute | not executed | Vecs.ScalarSub2Swapped | Vecs.ScalarSub2IntendedIsNegation |
| src/libs/karm-math/vec.h:166-169 | scalar-left `s / v` for `Vec2` returns `v / s` | `2 / Vec2(1, 1)` is `(0, 0)` | `{s / v.x, s / v.y}`, as the `Vec3` and `Vec4` overloads compute | not executed | Vecs.ScalarDiv2Swapped | Vecs.ScalarDiv2IntendedUndoesMul |

The readers and vectors themselves (`IoImpls.BufReader`, `Vecs.Vec3.Xz`, `Vecs.ScalarSub2`, `Vecs.ScalarDiv2`) keep the behaviour as
written, since that is what callers of the library get. The corrected definitions (`IoImpls.BufReadIntended`,
`Vecs.Vec3.XzIntended`, `Vecs.ScalarSub2Intended` and `Vecs.ScalarDiv2Intended`) carry the intended properties proved beside them.
