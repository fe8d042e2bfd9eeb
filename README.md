# io: a model of a `/dev/mem` peek/poke tool

`io.c` is a small command-line tool. It reads, writes, dumps or copies
physical memory by mapping `/dev/mem`. It can also resolve a device virtual
address through a two-level 32-bit IOMMU table and dump the page it lands
on. This project models its logic in Dafny and proves what that logic
promises:

- **Page window** (`PageWindow`). `mem_read` and `main` turn a request
  (address, length) into a page-aligned window (`real_addr`, `offset`,
  `real_len`) and refuse a window whose end wraps past 2^64 - 1. The page
  size is 2^k, with k a parameter. `mem_read` copies the requested bytes out
  of the window into the caller's buffer.
- **Buffer operations** (`Access`). `write_memory` fills a byte buffer in
  place with a 1-, 2- or 4-byte value. `memread_memory` walks a buffer in
  words of that width, 16 bytes to a row, each row labelled with its
  physical address. Rows are modelled as data, not as `printf` output.
- **IOMMU walk** (`Iommu`). `iommu32_memread` reads the directory entry, the
  page-table entry and the page entry, with the mask and shift arithmetic
  between the reads. Its outcomes are "clear", a failed read, an unresolved
  (zero) page, or a resolved address that is then dumped.
- **Request checks** (`Request`). `main`'s checks on the parsed command
  line are a pure validator. It returns a validated request or the message
  `main` exits with.
- **The run** (`Program`). `main` maps the window, refuses the page at
  `0xfffff000` (the top 4 KiB page of a 32-bit address space, not of the
  64-bit one), and carries out the request on the mapping.

Conventions:

- 64-bit `unsigned long` values are `nat` below 2^64 (`U64`). Where C wraps
  around, the model writes out `% 2^64`.
- `real_addr = req_addr & ~(P - 1)` clears the k low bits one at a time
  (`ClearLowBits`). It is proved equal to `req_addr - req_addr % P`.
- A byte is a number below 256 (`Byte`). Multi-byte words are
  little-endian (`LeValue`, `LeBytes`). The source reads and stores words through `uint16_t *` and
  `uint32_t *`, so the host byte order matters; the model assumes
  little-endian.
- IOMMU table entries and the device virtual address are `bv32`.
- Physical memory is a function from address to byte. Whatever the OS
  answers is a parameter: `Os` for the `open`/`mmap`/`close` results on
  `/dev/mem`, `FileFacts` and `FileIo` for the user's file.

Two behaviours of the code are kept exactly as written:

- The page mask in the walk is `0xFFFCF000`, exactly as written. It also
  clears bits 16-17 of the page entry.
- The "Filename AND value given" test compares `optind > argc`, which cannot
  hold where it is made. It is modelled as written and never fires. A value
  after `-f` is rejected as "Too many arguments" instead.

## Model

| member | source | states |
|---|---|---|
| `PageWindow.ClearLowBitsRoundsDown` | io.c:65 | clearing the k low bits of an address gives the address minus its remainder modulo the page size |
| `PageWindow.RoundsDownToPage` | io.c:65-66 | the rounded-down base is a multiple of the page size, at most the address, and the address lies less than one page above it |
| `PageWindow.WindowGeometry` | io.c:65-68 | the window base is a multiple of the page size and at most the request; the offset is request minus base and below the page size; the window length is request length plus offset; base plus length is request end |
| `PageWindow.WrapsIff` | io.c:70-73 | the 64-bit wrap test `real_addr + real_len < real_addr` holds exactly when the true sum passes 2^64 - 1, that is, when request address plus length passes it |
| `PageWindow.ReturnCode` | io.c:62-91 | `mem_read` returns 0 exactly when it copied and `close` succeeded, and `-EINVAL` exactly for a zero address, a missing buffer or a zero length |
| `PageWindow.MemRead` | io.c:56-92 | returns the code of the path taken; on a copy the buffer's first `req_len` bytes are physical memory from the requested address and the rest of the buffer is unchanged; on every other path the buffer is unchanged |
| `Bytes.LeRoundTrip` | io.c:196-212 | decoding the w bytes a store of v writes gives v modulo 2^(8w) |
| `Bytes.LeBytesOfValue` | io.c:171-177 | encoding the value read from w bytes gives back those bytes |
| `Bytes.WordsLength` | io.c:165-183 | a buffer holds `len / w` whole words |
| `Bytes.WordsOfRepeat` | io.c:195-213 | the words of a repeated w-byte pattern are the pattern's value, once per repetition |
| `Access.FillBytes` | io.c:190-216 | after a fill, byte i inside the range is byte `(i - off) % w` of the value's little-endian encoding; a byte outside the range is unchanged |
| `Access.FillReadsBack` | io.c:190-216 | after a fill, every w-byte word of the range holds the value modulo 2^(8w) |
| `Access.WriteMemory` | io.c:190-216 | for a width of 1, 2 or 4, the buffer becomes the fill of the value over `[off, off + len)` after exactly `len / iosize` stores; for any other width nothing is stored |
| `Access.RowsCount` | io.c:165-186 | the dump has ceil(len / 16) rows |
| `Access.RowsAddress` | io.c:166-184 | row r is labelled `phys + 16 r` in 64-bit arithmetic |
| `Access.RowsWidth` | io.c:168-183 | a row holds at most `16 / iosize` values |
| `Access.RowsFlatten` | io.c:165-186 | when len is a multiple of the width, the rows' values, concatenated, are the buffer's words in order |
| `Access.ReadRow` | io.c:167-183 | the inner loop reads `min(len, 16)` bytes as words, advances the pointer by that much and leaves a multiple of the width |
| `Access.MemreadMemory` | io.c:160-187 | the rows produced are the row split of the buffer's `len` bytes from the start address |
| `Access.WriteThenRead` | io.c:190-216 | dumping a filled range shows the value modulo 2^(8w) in every position |
| `Iommu.DirectoryOffset` | io.c:114-115 | `(va & (0x3FF << 22)) >> 20` is bits 31-22 of va times 4: a multiple of 4 below 4096 |
| `Iommu.TableOffset` | io.c:124-125 | `(va & (0x3FF << 12)) >> 10` is bits 21-12 of va times 4: a multiple of 4 below 4096 |
| `Iommu.TableEntryAddressIsIndex` | io.c:114-117 | the second read is at the directory entry plus 4 times bits 31-22 of va |
| `Iommu.PageEntryAddressIsIndex` | io.c:123-128 | the third read is at the page-table entry masked to bits 31-12, plus 4 times bits 21-12 of va |
| `Iommu.ResolvedAddress` | io.c:130-132 | the page plus the in-page offset equals page or offset: no carry, because the page has no low bits |
| `Iommu.ResolvedAddressSplits` | io.c:130-132 | the resolved address's low 12 bits are va's and its bits 31-12 are the page field |
| `Iommu.Walk` | io.c:106-139 | the walk fails at its first read exactly when that read fails, and reports "clear" exactly when the first entry is all ones |
| `Iommu.WalkTable` | io.c:114-126 | past the directory entry the walk is never "clear" and never fails at the first stage |
| `Iommu.WalkPage` | io.c:128-139 | the last step fails only at the page-entry stage |
| `Iommu.WalkStages` | io.c:106-139 | the walk fails exactly when the last address it consulted could not be read, at the stage of that read (first, second or third); it reaches a translation exactly when all three reads succeed |
| `Iommu.WalkTranslation` | io.c:114-139 | a walk past its three reads read the directory entry, then the page-table entry at its indexed slot, then the page entry at its indexed slot; the page field is the page entry masked with `0xFFFCF000`; the walk is unresolved exactly when that is zero |
| `Iommu.WalkResolvesInPage` | io.c:130-132 | a resolved address keeps va's page offset and the page field |
| `Iommu.Consulted` | io.c:106-128 | the walk reads one to three addresses, the first being the table base |
| `Iommu.ClearReadsOnlyBase` | io.c:109-112 | an all-ones directory entry ends the walk as "clear" after one read |
| `Iommu.WalkReadsOnlyConsulted` | io.c:106-139 | two memories that agree on the addresses the walk reads give the same walk and the same reads |
| `Iommu.ZeroBaseFails` | io.c:106-107 | a walk from table base 0 fails at its first read, because `mem_read` refuses address 0 |
| `Access.CountdownMissesZero` | io.c:165-182 | a length that is not a multiple of the width never counts down to zero |
| `Iommu.ReadTableEntry` | io.c:99-106 | a 4-byte `mem_read` into a zeroed 8-byte word succeeds exactly when `mem_read` copies and closes, and then yields the 4 bytes read little-endian as the entry |
| `Iommu.WalkEntries` | io.c:106-112 | the three reads through `mem_read` produce the walk over the memory's entry reader |
| `Iommu.WalkTableEntries` | io.c:114-126 | the reads from the page-table entry on produce the walk's table stage |
| `Iommu.WalkPageEntry` | io.c:128-132 | the read of the page entry produces the walk's last step |
| `Iommu.DumpPage` | io.c:141-156 | the dump is refused when the device does not open or map; it overruns when len is not a multiple of the width; otherwise it shows the rows of the `len` bytes at the resolved address and returns what `close` returns |
| `Iommu.Iommu32MemRead` | io.c:94-157 | returns -1 on a failed read or a zero page, 0 with no dump when clear, and otherwise the dump of the resolved address |
| `Request.IommuReadComesFirst` | io.c:291-293 | with `-r` and `-i` the IOMMU read is chosen before any other check, and only then |
| `Request.ValueForcesWrite` | io.c:295-296 | a value without `-f` makes an accepted request a write of that value, even under `-r` |
| `Request.WriteNeedsValue` | io.c:301-304 | a write without `-f` and without a value is refused with "No value given for WRITE" |
| `Request.ValueCheck` | io.c:311-315 | the value is refused exactly when bits 8-31 (width 1) or 16-31 (width 2) are set; a 4-byte value is never refused |
| `Request.ValueCheckIsFit` | io.c:311-315 | for a value below 2^32, the check passes exactly when the value fits in the access width |
| `Request.HighBitsIgnored` | io.c:311-315 | for every value and width, the check gives the same answer as for the value's low 32 bits: bits from 32 up are never looked at |
| `Request.HighBitsEscapeCheck` | io.c:311-315 | an instance: 2^32 passes the check for widths 1 and 2, and a byte store of it stores 0 |
| `Request.DefaultLength` | io.c:341-355 | an accepted request without `-l` takes its length from the file's size when a file is written from, and a missing or zero size becomes one access |
| `Request.AcceptedIsValid` | io.c:354-366 | an accepted memory request keeps the address, has a non-zero length, and has address and length aligned to a width of 1, 2 or 4 |
| `Request.MisalignedRejected` | io.c:357-366 | an address or length not a multiple of a 2- or 4-byte width is refused, whether the length comes from `-l` or from the file's size |
| `Request.ReadAccepted` | io.c:291-366 | a read to the screen with no extra argument and an aligned address and length is accepted, a missing length becoming one access |
| `Request.WriteAccepted` | io.c:291-366 | one positional value that passes the width check, at an aligned address and length, is accepted as a write of that value, with or without `-r` |
| `Request.FileReadAccepted` | io.c:291-366 | a read into a file that opens, with a `-l` length and aligned address and length, is accepted |
| `Request.FileWriteAccepted` | io.c:291-366 | a write from a file that opens (and whose size can be found when `-l` is missing) is accepted when address and length are aligned; the length is `-l`, else the file's size, else one access |
| `Request.FilenameAndValueNeverReported` | io.c:297-325 | "Filename AND value given" is never reported; a value after `-f` gives "Too many arguments" unless a file read lacks a length first |
| `Program.MainWindow` | io.c:387-415 | an accepted window is the request's page window: not the top page, not wrapping, the request ending below 2^64, offset plus length equal to window length; each refusal arises exactly under its own check, in the order top page, wrap, `open`, `mmap`, and a request passing all four is accepted |
| `Program.TopPageRefused` | io.c:387-391 | a request whose window starts at `0xfffff000` is refused and changes nothing |
| `Program.TopPageOnlyRefusedByMain` | io.c:387-391 | the same top-page request goes through `mem_read` whenever the device opens and maps |
| `Program.WrappingRequestRefused` | io.c:392-397 | a request whose end passes 2^64 - 1 is refused by the wrap check, never as the top page |
| `Program.ReadsLeaveMemory` | io.c:431-458 | reading, to the screen or into a file, leaves the window's memory as it was |
| `Program.ShownBytes` | io.c:392-393 | the bytes shown start at the requested address, not at the window's base |
| `Program.RowAddresses` | io.c:166-184 | within the address space, row r is labelled exactly `phys + 16 r` |
| `Program.ShownWordsAreMemory` | io.c:457-458 | a shown read lists the words of the requested bytes, in ceil(len / 16) rows labelled from the requested address up |
| `Program.WriteStoresValue` | io.c:459-460 | a value write leaves every word of the range holding the value cut to the width, and every other byte of the window as it was |
| `Program.Map` | io.c:409-411 | the mapping holds the window's bytes of physical memory |
| `Program.CopyIn` | io.c:445 | the file's bytes land at the offset; the rest of the mapping is unchanged |
| `Program.Transfer` | io.c:387-460 | the outcome and the window's final bytes are those of `Run` for the request |

## Left out

- Argument parsing (`getopt`, `strtoul`, the usage text) and its errors are
  left out. `Args` holds the parsed numbers.
- The verbose messages, the y/N confirmation prompt and the `printf` hex
  formatting are left out. The dump is modelled as rows of numbers.
- The `open`, `mmap`, `munmap`, `close`, `lseek`, `read` and `write` calls
  are not modelled; the model takes their results from `Os`, `FileFacts` and
  `FileIo`. Nothing claims that the mapping or the descriptor is released.
  The source leaks `mfd` when `mmap` fails.
- Physical memory that is not mapped or that changes under the program is
  out of scope, since there is no concurrency.
- The walk's virtual address is `bv32`. The source's masks are `int` shifts
  that sign-extend, and for a virtual address of 2^32 or more they keep its
  high bits. That case is not modelled. `Request.Validate` still passes a
  64-bit address to the IOMMU read, and nothing composes the two steps.
- `PageWindow.ReadEntry` defines the entry as the little-endian number of
  the 4 bytes; its own contract does not restate that value, because
  relating a `bv32` to a `nat` costs more than the verifier allows here.
- `Iommu.DumpPage`: for a length that is not a multiple of the width,
  `memread_memory` runs past the mapping and never returns. The model
  reports `Overrun` and says nothing about the return value.
- `PageWindow.Os`: the operating system's answers depend only on each
  call's arguments. The three `mem_read` calls of the walk and the dump's
  `open` share one `openOk(true)` and one `closeOk`, so after a successful
  first read the model cannot express a later `open` or `close` failing;
  in particular the dump's `open` then always succeeds.
- `Access.ReadRow`: the inner loop of `memread_memory` is a separate method.
  Its variables are the same as in the source.
- Signed overflow in C and the truncation of `strtoul` and `lseek` results
  into `int req_len` are left out. Lengths are below 2^31.
- `Program.Transfer`: a `read()` returning more bytes than requested is
  excluded by its precondition `ReadFits`, since the OS never does that.
