# Hibernation image loader and touch-boost policy, in Dafny

This project models two pieces of a platform repository and proves properties
of the models.

The first is the image loader of the userspace resume tool
(`s2diskus/load.c`). It brings a hibernation image back from the swap
partition and has five layers:

- **Extent walker.** `load_extents_page` and `find_next_image_page` follow an
  on-disk chain of extent-table pages and yield swap offsets one page at a
  time.
- **Page reader.** `read_page` and `load_and_decrypt_page` read the page at
  the cursor and pass it through the stream cipher when the image is
  encrypted.
- **Block loader.** `load_buffer` fills the work buffer. For an uncompressed
  image it reads page by page. For a compressed image it reads one
  size-prefixed block and hands it to the codec. In both cases the bytes
  produced go to the MD5 context when checksumming is on.
- **Page writer.** `load_image` writes the buffer one page at a time to the
  snapshot device and reports progress.
- **Driver.** `read_or_verify` reads the header and switches the codec,
  cipher and checksum layers on. It then runs the load and judges the result
  by the ISA-L tag and the MD5 digest.

The second piece is the touch/vsync boost policy of the Intel power HAL
(`power.cpp`). `power_hint` is a small state machine that decides when to
pulse the interactive governor's touch boost.
`app_launch_boost_intel_pstate` saves and restores `min_perf_pct` around an
app launch.

## How the model is built

**Swap device and cipher.** The swap device is a map from the offsets a seek
reaches to the bytes a read returns there. A read of fewer than `page_size`
bytes is a short read. The stream cipher is an uninterpreted function: it
takes a cipher state and a page, and gives the plain page and the next state.

**Codec and other library calls.** The codec is an uninterpreted partial
function. Its output is bounded by the capacity it is given. MD5, the GCM
tag, key recovery and the header parser are fields of a `Platform` value,
and so is `lzo_init`.

**Build variants.** The `#if` variants of compression, encryption and
`CONFIG_VERITY` are a runtime `Build` value. The configuration that
`s2diskus/config.h` selects is `Restore.Shipped`, with all three layers off.

**Reference definitions.** Every loop is modelled as written and then
related to a simpler reference definition:

- The extent walker is compared with the list of all page offsets of a
  well-formed chain (`Extents.ChainPages`).
- `load_buffer`'s loops are compared with `SwapReader.ReadPages`, which reads
  `k` pages in a row.
- `load_image`'s output is compared with the page stream.

**Power HAL.** The state is an immutable record. The clock and the hint's
`data` pointer are inputs, and each `sysfs_write` is an emitted `Write`
event. The saved `min_perf_pct` is the 4-byte static buffer of
`power.cpp:164`. A read copies at most four bytes over its front with no
terminator, and the value written back is the buffer's text up to its first
NUL. A shorter read therefore keeps the tail of an earlier longer one.

**Block prefix and image size.** A compressed block starts with a length
field of `sizeof(size_t)` bytes (`s2diskus/load.c:326`). The model assumes an
x86-64 (LP64) build and uses an 8-byte little-endian prefix. The block loop
compares against `block->size + sizeof(size_t)` as a `size_t`, so that sum is
taken modulo 2^64: a prefix of 2^64 - 8 or more wraps to a bound of at most 7,
and the loop then reads no page after the first. The uncompressed branch stops once `total_size`
reaches 0 (`s2diskus/load.c:371`). The compressed branch never looks at
`total_size`, so a compressed load can read past the declared image size, and
the model does the same.

**When the load succeeds.** The module `CleanLoad` proves the success
direction of `load_image` for uncompressed images. Its hypothesis has three
parts: `total_size` covers the pages to write, the image reads to its end,
and the device takes every page in full.

## Model

| member | source | states |
|---|---|---|
| SwapDevice.ReadPage | s2diskus/load.c:76-90 | Offset 0 is a successful no-op that reads nothing. Any other offset gives -EIO unless the device holds a full page there, which is then the page read. |
| Extents.LinkSlot | s2diskus/load.c:149 | The link slot index `n = page_size / 16 - 1` is at least 1, and the `n + 1` slots of 16 bytes fill the page exactly. |
| Extents.TableRoundTrip | s2diskus/load.c:148-150 | A table page read as an array of 16-byte extents of two little-endian `loff_t` values gives back the extents it was written from. |
| Extents.Relink | s2diskus/load.c:149-155 | After taking in a table, `next_extents` is the old link slot's start and the link slot is zeroed. The other slots are kept, and the cursor is at slot 0 with `cur_offset = extents[0].start`. |
| Extents.LoadExtentsPage | s2diskus/load.c:144-161 | A failed read returns -EIO and leaves the cursor untouched, exactly when `next_extents` is non-zero and unreadable. Otherwise the cursor restarts at the first extent of the table read. At the end of the chain (link 0) the stale table is taken in again. |
| Extents.FindNextImagePage | s2diskus/load.c:234-255 | The cursor stays in the extent while `cur_offset + page_size < end`. Otherwise it enters the next slot only if `start < end`, and otherwise it reloads the next table. Only a failed reload clears `cur_offset`, and `cur_extent` never passes the zeroed link slot. |
| Extents.VisitFollowsAhead | s2diskus/load.c:234-255 | From any position inside a well-formed chain, `k` steps of the walker yield exactly the next `k` page offsets still ahead in extent and table order. |
| Extents.WalkCoversChain | s2diskus/load.c:144-255 | Loading the first table of a well-formed chain succeeds. The walker then yields every page offset of every extent of every table, in order. |
| Extents.EndOfChainRestarts | s2diskus/load.c:148-155 | Past the last page of the last table the walker does not stop. It restarts at the first extent of the stale table. |
| SwapReader.InitSwapReader | s2diskus/load.c:189-229 | Offset 0 gives -EINVAL. Otherwise the call succeeds exactly when the first table page is readable. On success `total_size` is the image size, the checksum input is empty and the cursor is the one the first table gives. |
| SwapReader.LoadAndDecryptPage | s2diskus/load.c:261-301 | `cur_offset == 0` gives -EINVAL and an unreadable page gives -EIO, each leaving the reader unchanged. A success yields the page read, decrypted when the image is encrypted, takes exactly one page off `total_size` and advances the cursor and the cipher exactly once. |
| SwapReader.ReadPagesIgnoresBuffers | s2diskus/load.c:261-301 | The pages read depend only on the position (cursor, size left, cipher state), not on the work buffer or the checksum input. |
| SwapReader.ReadPagesSplit | s2diskus/load.c:261-301 | Reading `a + b` pages in a row is reading `a` pages and then `b` more from where the first read stopped. |
| SwapReader.ReadPagesTotal | s2diskus/load.c:261-301 | Each page read takes exactly one `page_size` off `total_size`, so after `k` pages the size left is the start value less `k * page_size`. |
| SwapReader.ReadPagesFollowWalk | s2diskus/load.c:261-301 | `k` pages are read exactly when the walker yields `k` offsets that all hold a full page. The pages are then the device's pages at those offsets, run through the cipher in order. |
| PageFill.FillCountClosedForm | s2diskus/load.c:369-377 | The uncompressed loop reads no page once the image is exhausted. Otherwise it reads as many pages as fit in the buffer, but no more than the rest of the image needs. |
| PageFill.FillLoopReadsFillCount | s2diskus/load.c:369-377 | The uncompressed loop as written is the read of exactly that many pages in a row, stopping early only when a page fails. |
| BufferLoader.LoadPages | s2diskus/load.c:366-381 | The uncompressed branch returns a multiple of `page_size` no larger than the buffer, or 0 when a page fails. The first bytes of the buffer are the pages read, the rest is untouched, and exactly those bytes are added to the checksum input. |
| BufferLoader.BlockTarget | s2diskus/load.c:326 | The loop bound `block->size + sizeof(size_t)` is the sum modulo 2^64: the sum itself below 2^64, the sum less 2^64 once it wraps. |
| BufferLoader.BlockPagesCover | s2diskus/load.c:319-332 | The block loop leaves the least number `k >= 1` of pages read with `k * page_size` covering the 64-bit loop bound. Without a wrap that is the least `k` with `k * page_size >= size + sizeof(size_t)`; with a wrap it is the first page alone. |
| BufferLoader.WrappedPrefixReadsOnePage | s2diskus/load.c:319-332 | A first page whose prefix is eight 0xFF bytes declares 2^64 - 1 bytes, the bound wraps to 7, and the block is that one page. |
| BufferLoader.BlockLoopReadsBlock | s2diskus/load.c:326-332 | After `done` pages the block loop reads exactly the remaining pages of the block, or stops at the first failure. |
| BufferLoader.BlockLoopReadsBlockPages | s2diskus/load.c:315-332 | The first page and the block loop together read exactly the block's pages, as the size prefix in the first page and the wrapping 64-bit bound decide. |
| BufferLoader.BlockFitsBuffer | s2diskus/load.c:326 | When the declared size plus prefix fits in a compressed buffer of whole pages, the pages the block loop reads fit too. |
| BufferLoader.Unpack | s2diskus/load.c:333-363 | A short block leaves the buffer alone and returns 0, and so does a rejected block. Otherwise the payload behind the prefix is decoded into the start of the buffer, its length is returned and the rest of the buffer is untouched. Without a wrap the pages read hold the whole declared payload; with a wrap they are one page. |
| BufferLoader.LoadBlock | s2diskus/load.c:315-363 | A failed first page returns 0 with the reader unchanged. Otherwise the result is the codec's outcome on the block's pages, read as the declared size asks. |
| BufferLoader.LoadBuffer | s2diskus/load.c:308-384 | The result is at most the buffer size, and a whole number of pages without a codec. Exactly the produced bytes are added to the checksum input when checksumming is on. |
| LoadImage.Steps | s2diskus/load.c:414-443 | The do-while takes `max(nr_pages, 1)` page steps. With `nr_pages == 0` the body still runs once, since the test comes after it. |
| LoadImage.ProgressStep | s2diskus/load.c:409-411 | The progress interval is `nr_pages / 100`, or 1 when that is 0. |
| LoadImage.WriteLoop | s2diskus/load.c:414-443 | From the top of the loop, the load ends with 0 or -EIO. It ends with 0 exactly when all `max(nr_pages, 1)` steps were done. Verify-only mode records nothing. Otherwise one page is appended per step done, after the pages already written. |
| LoadImage.LoopFirstStep | s2diskus/load.c:415-431 | The buffer is refilled only when `buf_size <= 0`. A refill that yields nothing ends the load with -EIO before any write, with the reader as the refill left it. A short or failed write also ends it with -EIO, with nothing more written. Otherwise the first page recorded is the one at the head of the buffer, refilled if it was empty. |
| LoadImage.WritePage | s2diskus/load.c:423-443 | A short or failed write of the page at `pos` ends the load with -EIO and nothing more written. Verify-only mode writes nothing. Otherwise that page is the next one written, and each later step appends exactly one page. |
| LoadImage.LoopReports | s2diskus/load.c:435-442 | The progress values reported are exactly `0, 1, …`, one for every page index that is a multiple of the interval, up to the last page done. |
| LoadImage.LoopAccepted | s2diskus/load.c:423-431 | Every page recorded as written was accepted in full by the write call with its index. |
| LoadImage.Load | s2diskus/load.c:392-448 | The load returns 0 exactly after `max(nr_pages, 1)` steps and -EIO otherwise. It writes one page per step done, or nothing in verify-only mode, and every page written was accepted in full. |
| LoadImage.LoadWritesStream | s2diskus/load.c:392-448 | Without a codec, the pages written are, in order, the first pages the reader delivers. |
| CleanLoad.RefillSucceeds | s2diskus/load.c:415-421 | On such a run every refill returns a positive size. It brings in the next pages of the image, and the pages already handed on stay as they were. |
| CleanLoad.LoadSucceeds | s2diskus/load.c:391-443 | Without a codec the load returns 0 after all `max(nr_pages, 1)` steps when three things hold: `total_size` covers those pages, the image reads to its end, and the device takes every page in full. It then writes exactly the image's first `max(nr_pages, 1)` pages, in order. |
| Restore.HeaderOf | s2diskus/load.c:669-671 | An unreadable header page ends the call. Offset 0 leaves the caller's header as it was. |
| Restore.Admit | s2diskus/load.c:683-725 | A compressed image without a codec gives -EINVAL, and one whose LZO initialisation fails gives -EFAULT. An encrypted image without a cipher gives -EINVAL, and a libgcrypt failure returns libgcrypt's own value. Every refusal is non-zero, and an admitted image switches on exactly the layers its flags name. |
| Restore.Conclude | s2diskus/load.c:734-759 | The corrected verdict: 0 exactly when the load succeeded, the ISA-L tag matches in an ISA-L build, and the digest matches when checksumming is on. A failed load keeps its own error, and a tag or digest mismatch gives -EINVAL. |
| Restore.ConcludeAsWritten | s2diskus/load.c:735-758 | In an ISA-L build the result depends only on the tag and digest compares, whatever the load returned. Other builds agree with `Conclude`. |
| Restore.AsWrittenAgreesAfterSuccessfulLoad | s2diskus/load.c:735-758 | After a successful load the verdict as written and the corrected verdict agree. |
| Restore.TagCompareMasksLoadFailure | s2diskus/load.c:737 | A load that failed with -EIO but whose tag matches is reported as success as written, and as -EIO when corrected. |
| Restore.Finish | s2diskus/load.c:729-760 | After an initialised reader, the call succeeds exactly when the load succeeded and the tag and digest, where checked, match. A failed load gives -EIO, and a digest mismatch gives -EINVAL. The reader is freed in every case. |
| Restore.FinishAgreesWithSource | s2diskus/load.c:735-758 | `Finish` returns the verdict the code computes as written in every build but ISA-L, and after every successful load. |
| Restore.FinishWrites | s2diskus/load.c:729-734 | Test mode writes nothing. Every page written was accepted in full. Without a codec the pages written are the reader's first pages, in order. |
| Restore.Session | s2diskus/load.c:727-762 | The allocation flags are bookkeeping: the reader counts as set up exactly when the map offset is non-zero, and the freed flag is set alongside it. A failed initialisation returns its own non-zero error with nothing written. A successful one hands the reader to `Finish`. |
| Restore.ReadOrVerify | s2diskus/load.c:661-813 | An unreadable header gives -EIO. A refused image returns the refusal before any reader exists. A success always went through an allocated, freed reader. |
| Restore.ReadOrVerifySucceeds | s2diskus/load.c:661-813 | The whole call returns 0 exactly when all of these hold: the header was read, the image passed the flag checks, the reader was set up, every page was loaded and written, and the tag and digest, where checked, match. |
| Restore.ReadOrVerifyWrites | s2diskus/load.c:661-813 | Test mode hands nothing to the snapshot device. Otherwise each page was accepted in full by the write call, and without a codec the pages are the image's pages in order. |
| Restore.ShippedBuildVerdicts | s2diskus/load.c:683-725 | The shipped configuration refuses compressed and encrypted images with -EINVAL before the reader exists, and otherwise returns only 0, -EIO or -EINVAL. |
| PowerHint.Touch | power.cpp:234-266 | A touch within 20 ms counts one more consecutive touch. One after more than 100 ms resets every flag and counter, and one in between changes neither. Touch boost is disabled only by a fast touch after more than 4, the scroll timer is set only while touch boost is disabled and after more than 15, and a pulse is emitted exactly when touch boost is still enabled. |
| PowerHint.VsyncTick | power.cpp:267-289 | With touch boost disabled and more than 30 ms since the last touch, the handler switches to vsync boost with a budget of 4. A pulse is emitted exactly when vsync boost is on, `data` is non-null and budget is left. Each pulse uses one unit of budget, and vsync boost ends when the budget reaches 0. |
| PowerHint.ReadInto | power.cpp:112-134 | `sysfs_read` into the 4-byte `old_min_perf_pct` copies at most four bytes of the node over the front of the buffer, with no terminator, and leaves the bytes behind them. |
| PowerHint.CString | power.cpp:100 | `sysfs_write` sends the bytes of the buffer before its first NUL. |
| PowerHint.LaunchPState | power.cpp:162-182 | Switching on reads the node into the saved 4-byte buffer and writes the boosted value, only when not boosted and the read succeeds. Switching off writes the text of that buffer back, only when boosted. |
| PowerHint.PowerHint | power.cpp:224-303 | Interaction and vsync hints change nothing without the interactive governor. With it, an interaction hint runs the touch handler on the time since the last touch and records the new touch time. A vsync hint runs the vsync handler on the time since the last touch. A launch hint needs `APP_LAUNCH_BOOST` to be built in. It then writes the interactive governor's boost node if that governor is active, and otherwise runs the P-state launch boost if that driver is active. In every other case it does nothing. Low-power and unknown hints change nothing. Every pulse written is the touch pulse. |
| PowerHint.InitialInv | power.cpp:228-231 | The zero-initialised start-up state satisfies the flag and budget invariant. |
| PowerHint.RunKeepsInv | power.cpp:224-303 | Every sequence of hints keeps the flags at 0 or 1, the vsync budget within 0..4 and positive while vsync boost is on, and the scroll timer set only while touch boost is disabled. |
| PowerHint.RunSeparatesConcerns | power.cpp:224-303 | Hints other than launch leave the launch state alone. Hints other than interaction and vsync leave the touch state alone. |
| PowerHint.VsyncPulsesBounded | power.cpp:281-288 | Once touch boost is back on, a run of vsync hints pulses at most as many times as the vsync budget left. |
| PowerHint.LaunchIdempotent | power.cpp:167-181 | A second identical launch hint, after the first took effect, writes nothing and changes nothing. |
| PowerHint.LaunchRestores | power.cpp:162-182 | Boosting and then restoring writes the boosted value and then the text of the saved buffer, and ends unboosted. That text is the value read when the read was under four bytes, held no NUL, and landed in front of a NUL, as in a zeroed buffer. |
| PowerHint.ShorterReadKeepsStaleTail | power.cpp:164-178 | After a boost that read "100\n", a later boost that reads "35\n" restores "35\n\n": the shorter read leaves the stale tail in the buffer. |

## Left out

- I/O is modelled as values: `lseek`/`read` through the swap map, `write` to the snapshot device through an arbitrary function of the page and its index, and sysfs reads and writes as inputs and `Write` events.
- Clocks and floating point are left out. The `clock_gettime` difference in `power_hint` is a `real` input, and its double rounding is not modelled. The throughput and compression-ratio logging (`s2diskus/load.c:763-802`) and the splash and `mprintf` output are left out.
- The progress values `n / m` (`LoadImage.Report`) are modelled in every build. Only a `CONFIG_SPLASH` build prints them (`s2diskus/load.c:435-441`). Other builds compute the same `n % m` test and print nothing.
- `posix_fadvise` hints (`s2diskus/load.c:156-159`, `s2diskus/load.c:245-248`) are left out: they are advisory, and their errors are only logged.
- Key recovery (`decrypt_key`, both `restore_key` variants) is left out. It is foreign library plumbing, so its outcome is a `Platform` value. The uninitialised `error` that the non-RSA `restore_key` returns (`s2diskus/load.c:614`, `s2diskus/load.c:627`) is therefore not modelled.
- The codec, cipher, MD5 and GCM internals are uninterpreted functions.
- The binary layout of `struct image_header_info` and `struct buf_block` is not part of this model. The header is parsed by an uninterpreted function, and the block prefix is `sizeof(size_t)`: 8 bytes on x86-64 (LP64), which the model assumes. `s2diskus/config.h` sets only `CONFIG_ARCH_X86`, which also covers 32-bit builds where the prefix is 4 bytes. Those builds are not modelled.
- LoadAndDecryptPage: a `gcry_cipher_decrypt` failure (`s2diskus/load.c:277-278`) is not modelled. The cipher is a total function.
- LoadBlock: the over-read past `compress_buf_size` is not modelled, because the read buffer is an unbounded sequence. `BufferLoader.BlockFitsBuffer` states when the block fits.
- LoadBlock: the codecs are given the payload as a byte sequence, and the length the source hands them is not modelled. LZ4 takes `block->size` as an `int` (`s2diskus/load.c:358`) and ISA-L as a 32-bit `avail_in` (`s2diskus/load.c:346`), so a declared size of 2^31 or more is truncated there.
- LoadBlock: when the 64-bit loop bound wraps, the source still hands the codec the full declared size and so reads past the one page read. The model hands it the bytes behind the prefix on that page (`BufferLoader.Payload`). The page counter `size` is unbounded: it could only wrap after 2^64 bytes were read.
- LoadBlock: every codec, LZO included, is given the work buffer size as its output bound. `lzo1x_decompress` is given no bound at all.
- LoadWritesStream: page order is proved for uncompressed images only. For compressed images the pages written are page-sized slices of each decoded block, including stale bytes past a short block, and that is not stated as a lemma.
- WritePage: the declaration of `page_size` is not part of this model. The short-write test `ret < page_size` is taken as a signed comparison, so a failed write (`ret < 0`) counts as short.
- Touch: `consecutive_touch_int` is an unbounded integer. Its 32-bit overflow after 2^31 fast touches is not modelled.
- ReadOrVerify: each call starts from fresh flags. The static `verify_checksum`, `do_decompress` and `do_decrypt` keep their values across calls in the source, and that is not modelled.
- `gcry_cipher_close` on the exit path and the freeing of memory are not modelled, beyond the allocated and freed flags.
- After a failed read or a failed decode the model leaves the work buffer unchanged. A failed uncompressed fill has already written whole pages of that fill there, and possibly part of one more (`s2diskus/load.c:369-375`). A failing codec may have written part of its output. No caller reads the buffer after `load_buffer` returns 0.
- The `Igzip` codec stands for the `CONFIG_COMPRESS == COMPRESS_IGZIP` branches of `s2diskus/load.c`. `s2diskus/config.h:98-100` defines `COMPRESS_LZO`, `COMPRESS_ISAL` and `COMPRESS_LZ4` but not `COMPRESS_IGZIP`, so that branch assumes a definition from elsewhere. Where it comes from is not part of this model.
- LoadSucceeds: success is proved for uncompressed images only. With a codec the pages written are slices of the decoded blocks, and whether a load succeeds depends on the codec.
- Finish: the verdict is the corrected `Restore.Conclude`, not the tag compare of `s2diskus/load.c:737` as written (see Findings). `Restore.FinishAgreesWithSource` states where the two agree: every build but ISA-L, and every successful load.
- ReadOrVerify: its result comes from `Finish`, so it also carries the corrected verdict of `s2diskus/load.c:737` rather than the code as written.
- ReadOrVerifySucceeds: the if-and-only-if is about the corrected verdict. The code as written also returns 0 in an ISA-L build whose load failed after the whole stream was decrypted (`Restore.TagCompareMasksLoadFailure`).
- LaunchPState: a read of four or more bytes fills `old_min_perf_pct` with no NUL (`power.cpp:164`, `power.cpp:170`). `strlen` then reads past the array when the value is written back (`power.cpp:100`, `power.cpp:178`). The model writes the four bytes, so `LaunchRestores` names the read value only for shorter reads.
- `get_pstate_boost_pct`, `power_init` probing and `power_set_interactive` are left out. Their results are the `Hal` fields.
- The other files of the repository (the resume driver, image saver, early-app launcher, watchdog, device power monitors, cpuset controller and binder client) are left out: they are I/O shims outside this model.

## Findings

| source | as written | input that shows it | evidently intended | confidence | as-written member | corrected member |
|---|---|---|---|---|---|---|
| s2diskus/load.c:737 | In an ISA-L build, `error = memcmp(key_data.tag, header->tag, TAG_SIZE)` overwrites the value `load_image` returned. | An ISA-L build in which `load_image` decrypted every page and then got a short write of the last page (-EIO). The tag over the full stream matches, so the call returns 0. | Compare the tag only when `load_image` succeeded, and otherwise keep its error. | not executed | Restore.ConcludeAsWritten (shown by Restore.TagCompareMasksLoadFailure) | Restore.Conclude (used by Restore.Finish and Restore.ReadOrVerify) |
