# ltar ustar scanner — a Dafny model

This project models the core of the tar reader in `src/ltar_archive.c`: the
part that walks a ustar archive (the ustar Interchange Format of the `pax`
utility, POSIX.1-2008) header by header and builds the list of entries.

- `parseoct` decodes an octal field. It skips the leading non-digits and then
  accumulates the following run of octal digits, looking at no more than `n`
  bytes.
- `is_end_of_archive` recognises the all-zero block that ends an archive.
- `verify_checksum` adds the unsigned header bytes, counting the eight
  checksum bytes as spaces, and compares the sum with the octal value stored
  in the checksum field.
- `ltar_entries` repeats one step until it stops:
  - It reads a 512-byte block. A short read is an error.
  - It stops at an all-zero block.
  - It rejects a block whose checksum fails.
  - It decodes size, mode, type and name, plus the link name for hard and
    symbolic links.
  - It records the header offset, rounds the size up to whole blocks and
    seeks past the content.
- `ltar_close` closes the stream once, and the `closed` flag makes
  `ltar_entries` refuse a closed archive.

There are three modules, one per layer.

- `UstarOctal` (`ustar_octal.dfy`):
  - `ParseOct` is the two-loop method, proved against the specification
    function `ParseOctal`.
  - The lemmas say which digits `ParseOctal` picks and that it reads back a
    zero-padded octal field.
  - `ParseOctalInt32` models the C `int` accumulator (see Findings).
- `UstarHeader` (`ustar_header.dfy`):
  - `IsEndOfArchive` and `VerifyChecksum` are the loop methods, specified by
    `AllZero` and `ChecksumOk`.
  - It also holds the checksum lemmas and the content padding `PaddedSize`.
  - `Entry` is the decoded header. `ReadHeader` is the decoding step of the
    loop, specified by `DecodeHeader`.
- `LtarArchive` (`ltar_archive.dfy`):
  - `Stream` stands for the `FILE`: a fixed byte sequence with a cursor.
    `Read` returns up to `count` bytes from the cursor, fewer near the end
    and none past it. `Seek` moves the cursor forward, possibly past the end.
    `Close` marks the stream closed.
  - `Archive` holds the stream, the path and the `closed` flag, with the
    invariant that the stream is open exactly while `closed` is false.
    `Archive.Entries` is the `for(;;)` loop of `ltar_entries`, and
    `Archive.ReadTurn` is its body up to the seek.
  - `Archive.Entries` is proved equal to the recursive function `Scan`.
    `Scan` is built from `ScanFrom`, which reads the block at an offset, and
    `ScanBlock`, one turn of the loop with that block. Its result is either
    the ordered list of entries or one error. The lemmas about `ScanFrom`
    state what every scan gives.

A scan starts at the stream's current cursor, but `position`, and so
`headerStart`, counts from 0 at each call, as in the source. `Scan(data,
path, start)` therefore takes the start cursor as a parameter, and offsets
in its entries are relative to it. The Lua entries table is a sequence.
`fileIndex` stays equal to its length plus one.

Errors are values of `ScanError`:
- `ArchiveClosed` is "archive is closed".
- `ShortRead(path, got)` is the short-read message with the archive path and
  the number of bytes read.
- `ChecksumFailure` is "Checksum failure".

## Model

| member | source | states |
|---|---|---|
| UstarOctal.ParseOct | src/ltar_archive.c:11-25 | the two loops return `ParseOctal` of the `n`-byte window `p[0..n)`, so the result depends on those bytes only |
| UstarOctal.ParseOctalFirstRun | src/ltar_archive.c:13-24 | the result is the value of the first maximal run of octal digits in the window, the one preceded only by non-digits and followed by a non-digit or the window's end |
| UstarOctal.ParseOctalNoDigits | src/ltar_archive.c:13-24 | a window without an octal digit gives 0 |
| UstarOctal.DropNonDigitsIsSuffix | src/ltar_archive.c:14-17 | the first loop leaves a suffix of the window that is empty or starts with an octal digit |
| UstarOctal.DropNonDigitsSkipsNonDigits | src/ltar_archive.c:14-17 | every byte the first loop skips is a non-digit |
| UstarOctal.DigitPrefixIsMaximal | src/ltar_archive.c:18-23 | the second loop consumes the longest run of digits, stopping at a non-digit or the window's end |
| UstarOctal.DigitPrefixOfRun | src/ltar_archive.c:18-23 | a run of digits ended by a non-digit or the window's end is exactly what the second loop consumes |
| UstarOctal.AccumulateValue | src/ltar_archive.c:18-23 | `i = i*8 + digit` over a digit run computes the base-8 value of the digits read so far followed by that run |
| UstarOctal.OctalValueBound | src/ltar_archive.c:18-23 | `k` octal digits denote a number below 8^k |
| UstarOctal.ParseOctalRoundTrip | src/ltar_archive.c:11-25 | leading non-digits, then `v` written as `n` zero-padded digits, then a NUL/space terminator or the window's end, parse back to `v` |
| UstarOctal.ParseOctalSpacePadded | src/ltar_archive.c:14-17 | leading spaces are skipped: "  755" then NUL gives 493 |
| UstarOctal.WrapInt32 | src/ltar_archive.c:13 | a 32-bit `int` holds the value in [-2^31, 2^31-1] congruent to the true value modulo 2^32 (its two's-complement reduction), so values in range are unchanged |
| UstarOctal.ParseOctalInt32Wraps | src/ltar_archive.c:13-23 | with the `int` accumulator, the result is the true value reduced to 32 bits, and it is exact whenever the value is at most 2^31-1 |
| UstarOctal.SizeFieldOverflow | src/ltar_archive.c:106 | the size field "20000000000" denotes 2^31, and the `int` accumulator turns it into -2^31 |
| UstarOctal.AccumulateSevens | src/ltar_archive.c:18-23 | after accumulator `acc`, a run of `k` sevens yields (acc + 1) * 8^k - 1 |
| UstarOctal.AccumulateZeros | src/ltar_archive.c:18-23 | after accumulator `acc`, a run of `k` zeros yields acc * 8^k |
| UstarOctal.NegativeSizeFieldValue | src/ltar_archive.c:13-25 | the size field "37777777000" then NUL denotes 2^32 - 512 |
| UstarOctal.SizeFieldWrapsNegative | src/ltar_archive.c:13-25 | that field denotes 2^32 - 512, and the `int` accumulator turns it into -512 |
| UstarHeader.SizeFieldRereadsHeader | src/ltar_archive.c:106-137 | stored in the 64-bit `size_t` `filesize`, that -512 is 2^64 - 512; rounding up to 512 leaves it unchanged, and the advance 512 + padded size is 0 modulo 2^64 |
| UstarHeader.IsEndOfArchive | src/ltar_archive.c:28-35 | true iff all 512 bytes are zero, so one non-zero byte anywhere makes it false |
| UstarHeader.VerifyChecksum | src/ltar_archive.c:37-48 | true iff the header sum equals `parseoct` of the eight checksum bytes |
| UstarHeader.SumPrefixSplit | src/ltar_archive.c:40-46 | the running sum after `k` bytes is the plain sum of the bytes seen, with every checksum byte counted as 0x20 |
| UstarHeader.HeaderSumOutsideField | src/ltar_archive.c:40-46 | the header sum is the sum of bytes 0..147 and 156..511 plus 8 * 0x20 |
| UstarHeader.HeaderSumIgnoresChecksumField | src/ltar_archive.c:41-45 | two blocks that agree outside bytes 148..155 have the same header sum |
| UstarHeader.SumPrefixBound | src/ltar_archive.c:40-46 | the sum of `k` bytes is at most 255*k, so the header sum fits the six-digit checksum field |
| UstarHeader.SumPrefixUpdate | src/ltar_archive.c:41-43 | changing one byte outside the checksum field changes the sum by exactly the difference |
| UstarHeader.ChecksumDetectsByteChange | src/ltar_archive.c:37-48 | a header that passes fails once any one byte outside the checksum field changes |
| UstarHeader.WithChecksumPasses | src/ltar_archive.c:37-48 | a block whose checksum field holds its header sum as six octal digits, NUL and space passes, keeps every other byte, and is not an end block |
| UstarHeader.PaddedSize | src/ltar_archive.c:132-135 | the padded size is a multiple of 512, at least the size and less than 512 above it |
| UstarHeader.PaddedSizeIsLeast | src/ltar_archive.c:132-135 | no multiple of 512 that holds the size is smaller than the padded size |
| UstarHeader.PaddedSizeExamples | src/ltar_archive.c:132-135 | 0 pads to 0, 1 to 512, 512 to 512, 513 to 1024 and 1000 to 1024 |
| UstarHeader.CStringIsTerminated | src/ltar_archive.c:117-121 | a copied name is the run of non-zero bytes at its offset, ending at a zero byte or the end of the block |
| UstarHeader.DecodeHeaderFields | src/ltar_archive.c:106-126 | size is `parseoct` at 124 (width 12), mode is `parseoct` at 100 (width 8), type is byte 156, the link name is present iff the type is '1' or '2', and `headerStart` is `position` with `readPosition` 0 |
| UstarHeader.ReadHeader | src/ltar_archive.c:106-126 | the loop body's field decoding yields `DecodeHeader` of the block |
| LtarArchive.Chunk | src/ltar_archive.c:92 | a read of `count` bytes at the cursor returns `min(count, remaining)` bytes, nothing past the end; they are the bytes starting at the cursor, for a full read and a short one alike |
| LtarArchive.Stream.Read | src/ltar_archive.c:92 | `fread` returns the chunk at the cursor and advances the cursor by its length |
| LtarArchive.Stream.Seek | src/ltar_archive.c:137 | `fseek(SEEK_CUR)` moves the cursor forward by the offset, possibly past the end |
| LtarArchive.Stream.Close | src/ltar_archive.c:148 | `fclose` closes an open stream |
| LtarArchive.Archive.constructor | src/ltar_archive.c:64-66 | a new archive holds the opened stream and the path, is not closed, and satisfies the invariant |
| LtarArchive.Archive.ReadTurn | src/ltar_archive.c:92-135 | one turn of the loop. When it stops the scan, the cursor is just past what was read. A failure means the block at the cursor is short or fails its checksum (it is not a header), and `ScanFrom` fails with that error. An end means the block is a full all-zero block and `ScanFrom` ends there with no entries. Otherwise the block is a full 512 bytes, the entry is `DecodeHeader` of it at `position`, the padded size is `PaddedSize` of its size (a multiple of 512), the cursor is just past the block, and in `ScanFrom` that entry comes first with the rest following from `position + 512 + padded size` |
| LtarArchive.Archive.Entries | src/ltar_archive.c:72-140 | on a closed archive, fails with `ArchiveClosed` and leaves the cursor alone; otherwise returns `Scan` from the current cursor and leaves the cursor where `Scan` says; the closed flag is unchanged |
| LtarArchive.Archive.Close | src/ltar_archive.c:142-152 | afterwards the archive is closed with its stream closed; a second close changes nothing |
| LtarArchive.ScanStops | src/ltar_archive.c:92-104 | a short block gives `ShortRead` with the byte count, an all-zero block ends with success, and a bad checksum gives `ChecksumFailure`, each with the cursor after the block read |
| LtarArchive.ScanStep | src/ltar_archive.c:106-137 | for a full, non-zero, checksum-valid block at `position`, the scan is its decoded entry followed by the scan from `position + 512 + padded size` |
| LtarArchive.ScanContinues | src/ltar_archive.c:102-137 | the scan from an accepted header is that header's entry followed by the scan from the next header |
| LtarArchive.ScanErrorKinds | src/ltar_archive.c:92-104 | a scan fails only with a short read below 512 bytes that carries the archive path, or with a checksum failure |
| LtarArchive.ScanOffsetsChain | src/ltar_archive.c:123-136 | the first entry's `headerStart` is the start `position`, and each later one is the previous plus 512 plus the previous entry's padded size |
| LtarArchive.ChainedOnGrid | src/ltar_archive.c:132-136 | in such a chain, entry `i` lies at least 512*i past the start, on a multiple of 512 |
| LtarArchive.ChainedIncrease | src/ltar_archive.c:136 | in such a chain, header offsets increase strictly |
| LtarArchive.ScanOffsetsOnGrid | src/ltar_archive.c:123-136 | every `headerStart` of a successful scan is the start plus a multiple of 512 |
| LtarArchive.ScanOffsetsIncrease | src/ltar_archive.c:123-136 | the `headerStart`s of a successful scan increase strictly, so entries are in archive order |
| LtarArchive.ScanEntriesDecoded | src/ltar_archive.c:99-126 | each entry is the decoding of a full, non-zero, checksum-valid block found at its own `headerStart` |
| LtarArchive.ScanEndsAtZeroBlock | src/ltar_archive.c:91-101 | a successful scan ends at a full all-zero block right after the last entry's padded content, and the cursor is left just after it |
| LtarArchive.EmptyArchive | src/ltar_archive.c:99-101 | an archive starting with an all-zero block has no entries, and the cursor ends at 512 |
| LtarArchive.TruncatedArchive | src/ltar_archive.c:92-97 | a stream shorter than 512 bytes fails with a short read that reports its length |
| LtarArchive.SingleEntryArchive | src/ltar_archive.c:91-139 | one valid header, its padded content and an all-zero block scan to exactly that header's entry at offset 0 |
| LtarArchive.SecondHeaderAfterThousandBytes | src/ltar_archive.c:132-136 | after a first entry of 1000 bytes, the second header is at 1536 |

## Left out

- `create_tar_meta`, the userdata, the metatables, `lua_seti` and the `__gc`/`__close` wiring are host-object plumbing. The entries table is a sequence of `Entry` values.
- The user value that links an entry back to its archive is not modelled, because an `Entry` here is a plain value.
- `ltar_open` is left out: its `fopen`, and the "failed to open tar file" error, are I/O. `Archive.constructor` stands for the state after a successful open.
- `fread`, `fseek` and `fclose` are replaced by `Stream` over a fixed byte sequence. Read errors other than running out of data are not modelled.
- Messages are not built with `sprintf` into the 130-byte buffer, so its overflow on long paths is not modelled. Errors are `ScanError` constructors carrying the path and byte count.
- `strdup`/`free` ownership is not modelled. `Archive.Close` does not model freeing `path`.
- UstarHeader.CString: the copy of the name and link name stops at the block's end. The source's `strdup` stops only at a NUL, which may lie beyond the 512-byte buffer when the block holds none.
- UstarOctal.ParseOct: the main model uses unbounded naturals. The C `int` accumulator is modelled apart, in `ParseOctalInt32`. `size_t` wrap-around of `position` and of the padded size is not modelled.
- UstarOctal.ParseOct: as in the source, the byte after the window is read before the count is tested. The method therefore requires one readable byte past the window, which holds at all three call sites.
- The values of `TAR_HARDLINK` and `TAR_SYMLINK` come from `ltar.h`/`ltar_archive.h`, which are not part of this model. The ustar type flags '1' and '2' are used.

## Findings

| source | as written | input that shows it | evidently intended | confidence | as-written member | corrected member |
|---|---|---|---|---|---|---|
| src/ltar_archive.c:13-23 | `parseoct` accumulates into an `int`. A size field of 2^31 or more overflows it (undefined behaviour in C, a two's-complement wrap to -2^31 on common compilers). The `size_t` `filesize` at line 106 then holds 2^64-2^31 on LP64 targets, and `fseek` at line 137 receives it back as a `long` of -2^31: it asks to seek 2 GiB backwards. For a header in the first 2 GiB of the file that seek fails and the cursor stays at the start of the content, so the next read takes content as the next header; further in, the scan goes back 2 GiB instead of past the content. | size field "20000000000" then NUL (a 2 GiB file): the result is -2147483648, not 2147483648 | the value the up-to-11-digit octal field denotes | high, not executed | UstarOctal.SizeFieldOverflow | UstarOctal.ParseOctalRoundTrip |
| src/ltar_archive.c:106-137 | The same overflow can keep the scan from ever ending. A size field that the `int` accumulator wraps to -512 becomes 2^64-512 in `filesize`. That is already a multiple of 512, so lines 132-135 leave it as it is, and line 136 moves `position` by 512 + (2^64-512), which is 0 modulo 2^64. Line 137 seeks back exactly 512 bytes. The next `fread` reads the same checksum-valid header again, and the loop appends it forever. | size field "37777777000" then NUL (2^32-512 bytes) in a valid header | the next header 512 + padded size bytes further on, so the scan moves forward and ends | high, not executed | UstarHeader.SizeFieldRereadsHeader | LtarArchive.ScanOffsetsIncrease |
