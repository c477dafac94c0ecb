# Verified model of the Android UEFI boot loader and fastboot application

This project models the parts of `android_bootable_uefi` that carry real state or arithmetic
and proves what they are meant to do, for every input and every run:

* **Flashing** (`Flash.dfy`, `Sparse.dfy`, `Overrun.dfy`): the cursor that moves through one
  partition, and the interpreter of the Android sparse image format. Meaning of an image under any
  firmware, confinement to the partition, locality of failures, a reference encoder, and exactly
  when and how far the interpreter reads past the file.
* **Erasing** (`Erase.dfy`): zero-filling in strides, and the head / secure-erase / tail split.
* **Memory map** (`E820.dfy`): conversion and coalescing of the EFI memory map.
* **Bitmaps** (`Bmp.dfy`, `Bitmap.dfy`): the pointer walk of the bitmap decoder against its closed
  form, and a reference encoder whose pictures it decodes.
* **Allocation** (`Emalloc.dfy`) and **tokenising** (`CommandLine.dfy`) from the UEFI utilities.
* **Boot image** (`BootImage.dfy`, `Handover.dfy`, `Memory.dfy`, `Placement.dfy`, `Packed.dfy`): the
  page-rounded layout, the order of checking, patching and copying on the way to the kernel, what is
  in memory when the kernel is entered, and a reference packer whose images are started.
* **Fastboot protocol** (`Fastboot.dfy`, `Protocol.dfy`, `Commands.dfy`, `Session.dfy`): the
  callback-driven device, the protocol it keeps to over every run, what it answers to each command,
  what `flash:` and `boot` act on, and whole sessions from the wire to the disk.
* **Boot decision** (`BootLogic.dfy`, `BootRuns.dfy`, `BootCases.dfy`): one boot as a step over the
  persistent variables, what sequences of boots do, and what is launched in each situation.
* **GPT cache** (`Gpt.dfy`): the cached partition index, and that listing and lookup show what is
  on the disks.

`Machine.dfy` holds fixed-width arithmetic and little-endian fields. Products, quotients and
remainders by a variable are written there by repeated addition or subtraction, which keeps every
proof linear; `TimesIsProduct`, `QuotIsQuotient` and `RemIsRemainder` tie them to `*`, `/` and `%`.

Code that changes state in place is modelled by classes and by methods over arrays. Each such
method is proved equal to a function on plain values, and the properties are lemmas about those
functions. Firmware is a set of oracles: it may refuse any call, and a disk write that fails may
leave anything in its own range. The word size is that of IA32 unless a member says otherwise.

## Where the code falls short of what it is for

The model keeps the code as it is; each point has a lemma that says exactly when it matters.

* A fill or don't-care chunk of 4 GiB or more moves the cursor by its 32-bit product only
  (`Sparse.FlashSparseMeaning`); a 40-byte image does it (`Sparse.WrapWitness`), one that expands to
  less than 4 GiB cannot (`Sparse.SmallNeverWraps`).
* `flash_fill` stores 32-bit words but counts them in `sizeof(UINTN)`, so on x86_64 part of every
  non-empty fill is whatever the pool buffer held (`Sparse.FillMeansPattern`).
* `flash_sparse` compares chunk sizes with the size of the whole file although it starts after the
  file header. What it flashes depends on bytes behind the file unless every header it reaches and
  every body it uses lies inside, or its last header is cut off so that no completion would be
  accepted (`Overrun.ReadsOnlyFileIff`); of a bare 28-byte header any 16 bytes behind it can get
  flashed (`Overrun.OverrunWitness`). It never gets further than the size of the file header and one
  fill pattern (`Overrun.OverrunBound`).
* The size guard of `erase_blocks` also passes for ranges that contain no whole erase group; an erase
  command with its end below its start is then sent (`Erase.EmptyMiddleIsStillErased`), for instance
  for a group's worth of blocks from block 1 on (`Erase.EmptyMiddleWitness`).
* The number of E820 entries goes into one byte: the kernel can read the whole map if and only if it
  has fewer than 256 entries (`Handover.KernelReadsMapIff`); one of 256 is announced as empty
  (`E820.AnnouncedEmptyWitness`).
* `emalloc` shrinks the request when a descriptor starts below 1 MB, and on IA32 its alignment mask
  clears the upper half of an address (`Emalloc.TriedRightlyIff`). On a map it serves every request
  if and only if all conventional memory above 1 MB starts between 1 MB and 2 GB
  (`Emalloc.EveryRequestServedIff`).
* The pages for the kernel are counted by `init_size` while `ksize` bytes are copied; what is loaded
  survives until the jump if and only if the kernel fits those pages and the memory map the boot
  parameters (`Placement.IntactIff`).
* A command line that is given pages at address 0 is dropped without an error, and the kernel gets
  the two fields its image came with (`Handover.SetupCommandLine`, `Handover.ParamsTell`).
* With the cold reset after watchdog enabled, a boot that follows the forced cold reset without a
  battery or with a wake source loses the saved reset source; from then on no watchdog reset is ever
  counted again (`BootRuns.RememberedIff`, `BootRuns.LostForever`, `BootRuns.LostWitness`).
* A payload that arrives before DATA has gone out, a failing allocation for a download, and a boot
  that fails after its OKAY each break the fastboot exchange for good, and nothing else does
  (`Protocol.EveryRunConformsIff`); an early payload leaves two receives posted
  (`Protocol.EarlyPayloadWitness`).
* After a refused or broken download, or a boot that came back, `flash:` and `boot` no longer act on
  the last payload (`Protocol.ActsOnLastPayloadIff`): a download that is too large leaves the old
  buffer with the refused size (`Protocol.RefusedDownloadWitness`).
* Looking up the empty label can find an unnamed partition that the listing skips
  (`Gpt.LookupAgreesWithListing`).

## Model

| member | source | states |
|---|---|---|
| Machine.PutRoundTrip | fastboot/sparse_format.h:22-37 | a value that fits an n-byte little-endian field is read back from it |
| Flash.Flasher.FlashSkip | fastboot/flash.c:46-58 | moves the cursor if the range, by a 64-bit sum, lies in the partition, and otherwise changes nothing |
| Flash.Flasher.FlashWrite | fastboot/flash.c:60-78 | writes the data at the cursor and advances it even if the device fails; outside the partition nothing changes |
| Flash.FillPool | fastboot/flash.c:80-91 | the store loop puts the pattern into as many bytes as four times the number of words, and leaves the rest of the buffer |
| Flash.Flasher.FlashFill | fastboot/flash.c:80-96 | pool failure leaves the disk alone; otherwise the filled buffer is written at the cursor |
| Flash.Flasher.FlashChunk | fastboot/sparse.c:65-86 | each chunk type asks for its one operation, with the product of the header fields taken in 32 bits |
| Flash.Flasher.FlashSparse | fastboot/sparse.c:88-121 | the chunk loop does the chunks' operations in order, up to the first malformed or failing one |
| Flash.Flasher.Flash | fastboot/flash.c:98-115 | an error of the lookup is returned and nothing changes; otherwise the cursor starts at the partition and the image kind decides what is done; a raw image that is reported flashed lies at the first byte of the first block, and every other byte is as it was |
| Flash.SparseIff | fastboot/sparse.c:38-63 | the header test recognises exactly the images that start with the magic bytes, a version up to 1 and large enough header sizes |
| Flash.RawMeaning | fastboot/flash.c:108-115 | flashing any other image: success means its bytes are in the partition from its start on, every other byte is as it was, and the cursor is behind it; reliable firmware and room make it succeed |
| Sparse.ExecMovesOver | fastboot/flash.c:46-96 | any sequence of operations, however it fails, changes only bytes the cursor moved over and keeps the cursor in the partition |
| Sparse.FlashConfined | fastboot/flash.c:98-115 | flashing any image, malformed or not, under any firmware, changes no byte outside the partition |
| Sparse.FailureIsLocal | fastboot/sparse.c:101-119 | a failing run stops at one chunk: the disk shows the effect of all chunks before it plus at most that chunk's own range |
| Sparse.FillMeansPattern | fastboot/flash.c:90-91 | the buffer is the repeated pattern whatever the pool held if and only if it is empty or words are 32 bits wide and divide its size |
| Sparse.PerformMeaning | fastboot/flash.c:49-96 | under any firmware, an accepted operation that succeeds lays its cells over the old bytes and moves the cursor by their number; with reliable firmware and room it succeeds |
| Sparse.ExecMeaning | fastboot/flash.c:49-96 | the same of a sequence of operations and the concatenation of their cells |
| Sparse.FailureMeaning | fastboot/sparse.c:101-119 | a run that fails at chunk k leaves the partition with the meaning of the chunks before it, plus at most that chunk's own range |
| Sparse.ChunkOpMeaning | fastboot/sparse.c:65-86 | a well-formed chunk is accepted; its operation stands for the cells the format gives it unless its product needs more than 32 bits |
| Sparse.ProgramMeaning | fastboot/sparse.c:101-119 | over all chunks: nothing is refused, and the operations stand for the expansion if and only if no product wraps |
| Sparse.FlashSparseMeaning | fastboot/sparse.c:88-121 | under any firmware, when flashing a well-formed image reports success the cursor is at the end of the expansion if and only if no chunk reaches 4 GiB, and then every byte is the RAW byte, the FILL byte or the old byte |
| Sparse.FlashSparseSucceeds | fastboot/sparse.c:88-121 | flashing a well-formed image that fits the partition with reliable firmware reports success |
| Sparse.SmallNeverWraps | fastboot/sparse.c:74-76 | an expansion below 4 GiB contains no wrapping chunk |
| Sparse.EncodeRoundTrip | fastboot/sparse_format.h:25-57 | an encoded list of chunks is recognised as a sparse image whose meaning is exactly what the list stands for |
| Sparse.WrapWitness | fastboot/sparse.c:74-75 | a well-formed image of 40 bytes that stands for 4 GiB asks to skip nothing |
| Overrun.ReadsOnlyFileIff | fastboot/sparse.c:96-118 | what is flashed is the same whatever lies behind the file in memory if and only if the walk over the chunk headers stays inside the file |
| Overrun.FirstOp | fastboot/sparse.c:65-118 | in terms of the twelve header bytes, a chunk is refused exactly if its size is out of bounds, its type unknown, or it is raw and its size not that of its blocks |
| Overrun.OverrunBound | fastboot/sparse.c:96-118 | nothing further behind the file than the size of the file header and one fill pattern has any influence |
| Overrun.OverrunAtMostHeader | fastboot/sparse.c:105-118 | no chunk that is not refused ends further behind the file than the size of the file header |
| Overrun.OverrunWitness | fastboot/sparse.c:96-118 | for any 16 bytes there is a memory behind one bare 28-byte file header from which they are flashed |
| Sparse.SparseEqualsRawWrite | fastboot/sparse.c:88-121 | flashing an encoded image leaves the same disk and cursor as writing the expanded image raw |
| Erase.MiddleIsAligned | fastboot/flash.c:276-299 | past the size guard both boundaries of the secure-erase range are group-aligned, it lies inside the range, and its end never drops below its start minus one |
| Erase.MiddleEmptyIff | fastboot/flash.c:276-299 | the secure-erase range is empty if and only if no whole aligned group fits |
| Erase.EmptyMiddleIsStillErased | fastboot/flash.c:276-299 | past the size guard an erase command is always sent, with its end below its start if and only if no whole group fits |
| Erase.EmptyMiddleWitness | fastboot/flash.c:276-299 | for a group's worth of blocks from block 1 on, the erase command runs from the group to the block before it |
| Erase.ZeroOpsCover | fastboot/flash.c:195-205 | zero-filling writes every block of the range exactly once and none outside |
| Erase.StridesFitBuffer | fastboot/flash.c:181-201 | every write is between one and N_BLOCK blocks long and stays in the range |
| Erase.EraseTilesExactly | fastboot/flash.c:252-302 | head, middle and tail together touch each block of the range exactly once and no other, counting the whole groups the erase command acts on |
| Erase.EraseMeaning | fastboot/flash.c:252-318 | under any firmware blocks outside keep their contents; on success every block inside is zeroed or secure-erased |
| Erase.EraseKinds | fastboot/flash.c:252-302 | a successful erase leaves a block secure-erased if its whole erase group lies in the range, and zeroed otherwise |
| Erase.EraseSucceeds | fastboot/flash.c:182-318 | on reliable firmware an erase succeeds |
| Erase.Eraser.FillZero | fastboot/flash.c:182-212 | performs the strides in order up to the first failure, with 64-bit arithmetic that does not wrap |
| Erase.Eraser.EraseBlocks | fastboot/flash.c:252-302 | performs head, tail and middle in that order up to the first failure, or fills everything when secure erase is unavailable or the range too small |
| Erase.Eraser.EraseByLabel | fastboot/flash.c:304-318 | erases the blocks of the partition found; an error of the lookup is returned and nothing changes |
| E820.SetupE820Map | common/bootimg/bootimg.c:341-404 | fills the front of the entry array with the coalesced regions and leaves the rest |
| E820.TypeTable | common/bootimg/bootimg.c:358-390 | which EFI types are usable memory, reserved, tables, or left out |
| E820.CoalesceMeaning | common/bootimg/bootimg.c:392-400 | for every address and type as many output entries cover the address as input regions do, and each type keeps its number of bytes |
| E820.ConversionCoversSame | common/bootimg/bootimg.c:341-404 | an output entry of a type covers an address if and only if a descriptor whose EFI type maps to it does |
| E820.CoalesceGrows | common/bootimg/bootimg.c:353-401 | the converted map only grows as descriptors are added, so room for the final map is room for every intermediate one |
| E820.CoalesceOrdered | common/bootimg/bootimg.c:392-400 | sorted, disjoint regions give a sorted, disjoint map |
| E820.CoalesceSorted | common/bootimg/bootimg.c:392-400 | regions sorted by their start, overlapping or not, give a map sorted by its starts |
| E820.CoalesceDisjoint | common/bootimg/bootimg.c:392-400 | disjoint regions in any order give a disjoint map |
| E820.CoalesceNormal | common/bootimg/bootimg.c:392-400 | no two consecutive entries have the same type and touch |
| E820.CoalesceIdempotent | common/bootimg/bootimg.c:392-400 | coalescing a coalesced map changes nothing |
| E820.TableRoundTrip | common/bootimg/bootimg.c:392-400 | a table of 20-byte entries in memory is read back as the map it was written from |
| E820.EntryBytes | common/bootimg/bootimg.c:392-400 | an entry in memory is address, size and the number of its type |
| E820.AnnouncedIff | common/bootimg/bootimg.c:403 | reading as many entries as the one-byte count says gives the whole map if and only if it has fewer than 256 entries |
| E820.AnnouncedEmptyWitness | common/bootimg/bootimg.c:403 | a map of 256 entries is announced as empty |
| Bmp.ConvertRow | common/uefi_utils.c:199-267 | one row of samples is decoded into its pixels, reserved bytes and all other pixels stay, and the image pointer ends after the row's bytes |
| Bmp.PaddingIsStride | common/uefi_utils.c:269-275 | padding the pointer after a row lands on the closed-form start of the next row |
| Bmp.RowsGrow | common/uefi_utils.c:199-200 | decoding one more row keeps the rows decoded before it and touches only its own pixels |
| Bmp.RowInside | common/uefi_utils.c:112-122 | after the checks every row of the image lies inside the file and inside the buffer |
| Bmp.ConvertRows | common/uefi_utils.c:198-276 | every row is decoded from its closed-form position, bottom row of the buffer first |
| Bmp.ConvertBmpToGopBlt | common/uefi_utils.c:64-279 | rejects what the header checks reject, in their order; on success every pixel is the palette entry or BGR triple of its sample and pixels past the image stay; the reported sizes are those of the image |
| Bmp.LetThroughIff | common/uefi_utils.c:85-168 | the checks let through exactly the uncompressed files with the common header that are as long as they say and as their rows take, with a palette of the right size or none, and small enough for the buffer |
| Bitmap.CheckPasses | common/uefi_utils.c:85-168 | the checks let every encoded picture through |
| Bitmap.DecodesPicture | common/uefi_utils.c:198-276 | decoding an encoded picture of depth 1, 4, 8 or 24 puts blue, green and red of pixel (x, y) at position (h - 1 - y) * w + x |
| Bmp.ClosedForms | common/uefi_utils.c:112-200 | the row offset and pixel index are row times stride and (height - 1 - row) times width |
| Bmp.PositionExists | common/uefi_utils.c:199-201 | every buffer position belongs to a sample |
| Bmp.PositionUnique | common/uefi_utils.c:199-201 | no buffer position belongs to two samples |
| Emalloc.Allocate | common/uefi_utils.c:1040-1097 | returns the first candidate the firmware grants, in map order, or out of resources if there is none |
| Emalloc.BytesFitIffPagesFit | common/uefi_utils.c:1081 | between page boundaries the byte test equals the page test |
| Emalloc.AlignUpLeast | common/uefi_utils.c:1079 | the aligned address is the least multiple of the alignment at or above the start |
| Emalloc.PlainTriedRightly | common/uefi_utils.c:1062-1088 | in a descriptor from 1 MB up whose aligned start is below 4 GB the candidate is the lowest aligned block with room, and there is none if and only if none fits |
| Emalloc.TriedRightlyIff | common/uefi_utils.c:1062-1088 | those descriptors are exactly the ones treated rightly for every size |
| Emalloc.FirstFitSoundComplete | common/uefi_utils.c:1040-1097 | a returned address starts an aligned block above 1 MB inside one conventional descriptor; without one, the firmware refused the lowest block wherever a block would have fitted |
| Emalloc.EveryRequestServedIff | common/uefi_utils.c:1040-1097 | on a map, every request of whatever size and alignment is served under whatever the firmware grants if and only if all conventional memory above 1 MB is described from 1 MB to 2 GB |
| CommandLine.SplitCmdline | common/uefi_utils.c:953-973 | the strings at the returned positions are the first min(max_token, n) words of the line, and only spaces have been overwritten |
| CommandLine.SplitJoin | common/uefi_utils.c:953-973 | splitting words joined by any runs of spaces gives the words back |
| BootImage.PartsTile | common/bootimg/bootimg.c:117-147 | header, kernel, ramdisk, second stage and signature start on page boundaries, hold their contents, and follow each other without gap or overlap |
| BootImage.LayoutIff | common/bootimg/bootimg.c:148-204 | the computed ramdisk offset, signature offset and image size are those of the drawn layout if and only if the image is smaller than 4 GiB |
| BootImage.SignedAsComputed | common/bootimg/bootimg.c:175-189 | the ranges passed to the signature check are everything before the signature part, and the signature |
| BootImage.PayloadAfterPatchesIff | common/bootimg/bootimg.c:456-459 | the two patched sectors lie before the payload if and only if the sector count is between 1 and 254 |
| BootImage.PatchKeeps | common/bootimg/bootimg.c:191-222 | patches within the first two sectors change neither the header nor the payload nor the ramdisk |
| Handover.BuildCommandLine | common/bootimg/bootimg.c:260-290 | the command line is the text of the header's first field, continued by the second when it is full, followed by a space and the appended string; it fails only when an allocation it needs does |
| Handover.SetupCommandLine | common/bootimg/bootimg.c:246-308 | the command line and its NUL are placed in memory and its address and length patched into the image, or nothing is done if its address is 0 |
| Handover.SetupRamdisk | common/bootimg/bootimg.c:191-222 | the ramdisk copied to memory is that of the image as it was passed in, and only its two header fields change |
| Handover.SetupEfiMemoryMap | common/bootimg/bootimg.c:406-436 | the boot parameters in memory get the EFI information, the converted map and its count |
| Handover.HandoverKernel | common/bootimg/bootimg.c:438-542 | payload of the image as it was passed in, boot parameters and descriptor table are copied to memory in this order |
| Placement.FitsIsIntact | common/bootimg/bootimg.c:468-515 | with disjoint pages, if kernel and memory map fit theirs, all that was loaded is in memory when the kernel is entered |
| Placement.IntactIff | common/bootimg/bootimg.c:461-515 | for parts of given sizes, whatever they hold and wherever they are placed, all that was loaded survives if and only if the kernel fits the pages allocated for it and the memory map those of the boot parameters |
| Handover.ParamsTell | common/bootimg/bootimg.c:419-515 | the boot parameters hold the addresses and sizes of command line, ramdisk and kernel, loader type, screen information, EFI information, memory map and its count; every other byte of the first two sectors is the image's, and the rest is zero |
| Handover.KernelReadsMapIff | common/bootimg/bootimg.c:403 | a kernel reading the announced number of entries has the converted map if and only if it has fewer than 256 entries |
| Handover.StartBuffer | common/bootimg/bootimg.c:710-771 | the kernel is entered exactly if the magic numbers are there, the signature check accepts the image and memory can be had for all parts; memory is then what the copies made it; and if kernel and map fit, payload and ramdisk there are byte for byte what was accepted and the boot parameters tell the kernel about everything; of a rejected image neither a byte nor the memory is touched |
| Packed.UnpackRoundTrip | common/bootimg/bootimg.c:67-204 | of an image made by the reference packer, with every size at its place in the header, the loader sees exactly the payload, ramdisk, signed part, signature and command line that were packed |
| Packed.StartPacked | common/bootimg/bootimg.c:710-771 | a packed image is started exactly if its setup code and the firmware agree to it; its kernel, ramdisk and command line are then in memory, and the boot parameters hold what the boot protocol says at its literal places |
| Packed.StartPartition | common/bootimg/bootimg.c:544-591 | the same from a partition that holds a packed image, whatever lies behind it |
| Placement.GdtEntries | common/bootimg/bootimg.c:318-336 | the descriptor table holds flat code and data segments and a task segment |
| Fastboot.Device.PublishVar | fastboot/fastboot.c:92-112 | puts the variable at the head of the list unless name or value is too long or no memory is left |
| Fastboot.Device.GetVar | fastboot/fastboot.c:114-127 | finds the first variable of that name |
| Fastboot.Device.WorkerGetvarAll | fastboot/fastboot.c:235-246 | sends one INFO and advances the cursor, or the final OKAY |
| Fastboot.Device.DoDownload | fastboot/fastboot.c:274-305 | refuses sizes over the limit; otherwise sends DATA and posts a receive of that size |
| Fastboot.Device.ProcessTx | fastboot/fastboot.c:307-320 | a completed reply continues a listing or posts the next command receive |
| Fastboot.Device.ProcessRx | fastboot/fastboot.c:322-363 | a filled receive ends a download or is dispatched to the first matching prefix, with a failure reply when nothing else answers |
| Protocol.ConformingCounts | fastboot/fastboot.c:307-369 | in a conforming exchange every command but the one in service has exactly one terminal reply, and at most one receive is outstanding |
| Protocol.StepInvIff | fastboot/fastboot.c:307-369 | one callback keeps the exchange conforming if the payload came after DATA, the download buffer was allocated, and boot did not fail after its OKAY; otherwise it breaks the protocol at once |
| Protocol.EveryRunConformsIff | fastboot/fastboot.c:307-369 | a run, halted or not, conforms to the protocol if and only if it is orderly; then commands and terminal replies match up and at most one receive is posted |
| Protocol.EarlyPayloadWitness | fastboot/fastboot.c:307-338 | a payload sent before DATA has gone out ends with two command receives posted |
| Protocol.ActsOnLastPayloadIff | fastboot/fastboot.c:274-338 | after any run, flash and boot act on exactly the last payload received in full if and only if since then no download command came and no boot came back |
| Protocol.RefusedDownloadWitness | fastboot/fastboot.c:278-284 | a download refused as too large leaves the buffer of the one before with the refused size |
| Commands.UnknownCommand | fastboot/fastboot.c:344-358 | a text that starts with no registered command is answered FAIL |
| Commands.RebootCommand | fastboot/fastboot.c:264-267 | a reboot leaves no answer behind, unless it fails |
| Commands.BootCommand | fastboot/fastboot.c:216-233 | a boot is answered OKAY when it leaves fastboot and FAIL when it comes back, having freed its image |
| Commands.GetvarCommand | fastboot/fastboot.c:248-262 | a published variable is answered with its latest value, and an unknown one with nothing |
| Commands.DownloadCommand | fastboot/fastboot.c:274-305 | a download above 500 MiB is refused, one without memory fails after DATA, and any other is answered DATA and a receive of its size |
| Commands.SizeSpellings | common/posix/stdlib.c:46-74 | sizes are read with digits of either case, an optional 0x, and an end at the first other character |
| Session.DownloadThenFlash | fastboot/fastboot.c:181-363 | downloading any payload and flashing it is an orderly run that ends with the answer to flashing exactly that payload |
| Session.RawSession | fastboot/fastboot.c:181-363 | a host that downloads an image that is not sparse and flashes it is answered OKAY only if the partition then starts with the bytes of the image and all else is as it was, and is answered OKAY if it fits and the firmware is reliable |
| Session.SparseSession | fastboot/fastboot.c:181-363 | a host that downloads an encoded sparse image of less than 4 GiB and flashes it is answered OKAY only if the partition then holds what the chunks stand for, and is answered OKAY if the image fits and the firmware is reliable |
| Session.EraseSession | fastboot/fastboot.c:199-215 | an erase is answered OKAY on reliable firmware, and only if every block of the partition is then secure-erased with its whole group or zeroed; it never touches another |
| Protocol.PrefixReachesHandler | fastboot/fastboot.c:344-354 | every registered prefix, followed by any argument, reaches its own handler with that argument |
| Protocol.PayloadReply | fastboot/fastboot.c:329-338 | a payload is answered OKAY if and only if it has the announced length; one of another length is thrown away |
| Protocol.SizeRoundTrip | common/posix/stdlib.c:46-74 | a size written as eight hexadecimal digits is parsed back |
| Protocol.GetvarAll | fastboot/fastboot.c:235-262 | getvar:all sends one INFO per variable in list order, each after the one before has gone out, and then one OKAY |
| Protocol.LatestPublishWins | fastboot/fastboot.c:92-127 | the list answers like a map in which the latest accepted publish of a name wins |
| BootLogic.TargetRoundTrip | efilinux/intel_partitions.c:57-193 | with distinct names in the table, a stored target name reads back as the target |
| BootLogic.AndroidTableValid | efilinux/intel_partitions.c:57-70 | the loader's table, with or without factory modes, has distinct names and names every target of the fallback ladder |
| BootCases.AndroidNames | efilinux/intel_partitions.c:57-70 | the names by which the loader's table knows its targets |
| BootCases.WatchdogSources | efilinux/bootlogic.c:219-226 | every known reset source but a plain, forced, system or firmware update reset is a watchdog's |
| BootCases.FallbackOrder | efilinux/bootlogic.c:188-208 | the order in which images are tried from each target on |
| BootLogic.Loader.GetTargetName | efilinux/intel_partitions.c:72-79 | the first table entry of a target gives its name |
| BootLogic.Loader.GetTargetFromVar | efilinux/uefi_boot.c:110-122 | a missing variable or unknown name reads as the unknown target |
| BootLogic.Loader.SetLast | efilinux/uefi_boot.c:149-166 | a target with a name replaces the last target and deletes the one-shot request; any other changes nothing |
| BootLogic.Loader.GetResetSource | efilinux/uefi_boot.c:82-108 | reads the saved source after a forced cold reset and the hardware's otherwise, once per boot, and deletes the saved one |
| BootLogic.Loader.DoBootWatchdog | efilinux/bootlogic.c:219-266 | forces a cold reset or counts the watchdog reset, falling back on the third |
| BootLogic.Loader.DoTargetFromReset | efilinux/bootlogic.c:268-287 | tries watchdog, boot control block, firmware update and one-shot request in that order |
| BootLogic.Loader.DoTargetFromInputs | efilinux/bootlogic.c:289-322 | decides by battery, then wake source, then reset source |
| BootLogic.Loader.DoLaunchOrFallback | efilinux/bootlogic.c:370-403 | saves and tries targets down the fallback order until one starts |
| BootLogic.Loader.StartBootLogic | efilinux/bootlogic.c:405-445 | one whole boot as a step over the persistent variables |
| BootRuns.LaunchesFirstStarting | efilinux/bootlogic.c:381-402 | what is launched is the first target of the fallback chain whose image starts; past the end of the chain the loader gives up |
| BootRuns.BootRecordsLaunch | efilinux/bootlogic.c:381-402 | every launch is recorded as the last target and consumes the one-shot request; with a low battery the full system is never launched |
| BootRuns.OffPowersOffIff | efilinux/bootlogic.c:108-132 | a boot from power-off switches off again exactly when nobody asked for fastboot or recovery and the charger is missing on a charging wake-up or a low battery, or a battery was put into a board that cannot charge from there |
| BootRuns.OffLaunchesSystemIff | efilinux/bootlogic.c:108-132 | a system that can start is launched from power-off exactly when nothing else was asked for, the wake-up is not for charging and the battery is not low |
| BootRuns.OffKeepsCounter | efilinux/bootlogic.c:108-112 | only a forced shutdown with the power button clears the watchdog counter |
| BootRuns.OneShotServed | efilinux/bootlogic.c:268-287 | a stored one-shot request is launched, and consumed, by the next reset the system or the user asked for |
| BootCases.RecoveryAtReset | efilinux/bootlogic.c:268-287 | a recovery request in the boot control block is launched at the next reset that is not a watchdog's, whatever else was asked for |
| BootCases.SystemLaunched | efilinux/bootlogic.c:289-322 | a firmware update, an unexplained reset, an unreadable wake source, or a wake-up that asks for nothing else launches the system |
| BootCases.LowBatteryCharges | efilinux/bootlogic.c:166-186 | where the system was asked for, a low battery charges instead, or switches off without a charger |
| BootCases.ComboFromOff | efilinux/bootlogic.c:108-132 | from power-off the fastboot key combination launches fastboot |
| BootCases.RecoveryFromOff | efilinux/bootlogic.c:108-132 | from power-off a recovery request is launched unless the combination is held |
| BootCases.ChargingFromOff | efilinux/bootlogic.c:79-106 | from power-off a plugged charger, or a dead battery being charged, launches charging if nothing else was asked for |
| BootCases.SystemFallsBack | efilinux/bootlogic.c:370-403 | of an asked system that does not start, the first later image of the fallback order that does is launched |
| BootCases.NoBattery | efilinux/bootlogic.c:294-295 | without a battery the device switches off |
| BootCases.NoIndicators | efilinux/bootlogic.c:370-403 | nothing is launched when the indicators fail |
| BootCases.FirstWatchdog | efilinux/uefi_osnib.c:61-65 | the first watchdog reset is counted as one, whether the counter is missing, cleared, or reads as an error |
| BootRuns.ActStep | efilinux/bootlogic.c:253-265 | a boot that acts on a watchdog reset counts it and launches the next rung |
| BootRuns.SeenStep | efilinux/bootlogic.c:237-251 | with the cold reset enabled the boot that first sees a watchdog reset saves its source, keeps the counter, and resets |
| BootRuns.IncidentStep | efilinux/bootlogic.c:219-266 | one watchdog incident climbs exactly one counted reset in either configuration |
| BootRuns.LadderRun | efilinux/bootlogic.c:188-266 | whatever else differs between boots, launches that all end in watchdog resets go through the rungs in order, three counted resets each, and start over past the last |
| BootRuns.NinthResetReachesDnx | efilinux/bootlogic.c:188-266 | from a fresh boot the launches are two of BOOT, three of RECOVERY, three of FASTBOOT, and DNX on the ninth reset |
| BootRuns.NewIncidentStep | efilinux/bootlogic.c:237-250 | a boot forces a cold reset if and only if it sees a new watchdog reset, and then saves its source |
| BootRuns.PendingStep | efilinux/bootlogic.c:238-263 | the flag is taken back and the counter moves if and only if a remembered incident is acted on |
| BootRuns.RememberedIff | efilinux/uefi_boot.c:91-107 | a pending cold reset still knows its watchdog after a boot if and only if that boot had a battery and no wake source |
| BootRuns.OneColdResetPerIncident | efilinux/bootlogic.c:235-265 | over any undisturbed run there is one forced cold reset per incident and the counter moves once per incident acted on |
| BootRuns.LostForever | efilinux/uefi_boot.c:91-107 | once the saved source is lost no later boot counts a watchdog reset or forces a cold reset |
| BootRuns.LostWitness | efilinux/uefi_boot.c:91-107 | a watchdog reset, a press of the power button, a watchdog reset: the last one is not counted |
| Gpt.Cache.Fill | common/gpt/gpt.c:167-223 | on success the cache answers for all disks with a GPT and the entry count is their sum; on failure there is no cache |
| Gpt.Cache.Free | common/gpt/gpt.c:225-237 | drops the cache and the count with it |
| Gpt.Cache.List | common/gpt/gpt.c:269-303 | lists each used and named entry of each disk with a GPT, in handle and entry order, and nothing else, in a buffer of exactly as many slots as there are entries |
| Gpt.Cache.GetByLabel | common/gpt/gpt.c:239-267 | finds the used entry of that name that comes first in handle and entry order, with the handle of its disk, or NOT_FOUND if and only if no disk with a GPT has one |
| Gpt.FoundIsFirst | common/gpt/gpt.c:202-264 | searching what was cached from any handles finds the first entry of the name on them |
| Gpt.ListedIsListing | common/gpt/gpt.c:202-301 | listing what was cached from any handles shows each of their used and named entries once, in order |
| Gpt.LookupAgreesWithListing | common/gpt/gpt.c:239-303 | the lookup gives the first listed partition of the name, or nothing if none is listed, if and only if the label is not empty or no used partition is unnamed |

## Left out

- Firmware services, USB transport, disk and eMMC commands, and the signature check itself: oracles that may succeed or fail; only what the code makes of their answers is modelled.
- Flash.Flasher.Flash: the partition that was found lies on the disk; writing to one that does not is left to the device.
- Flash.Flasher.FlashWrite: the test for a partition that was never selected; a flasher always has one here.
- E820.SetupE820Map: descriptors end below 2^64, as x86 physical addresses do, so that no sum in the merge test wraps; the array has room for the result, and Placement.IntactIff says when the boot parameters do.
- Bmp.ConvertBmpToGopBlt: assumes that the bits of a row fit 32 bits and that a palettised image carries a palette; outside that the source reads past its own tables.
- Emalloc.Allocate: the masking of an aligned address is modelled by its arithmetic meaning for powers of two, not as a bit operation.
- Emalloc.EveryRequestServedIff: descriptors are not empty, and none that starts below 1 MB reaches across the device memory below 4 GB.
- CommandLine.SplitCmdline: positions stand for the pointers into the line.
- Handover.StartBuffer: assumes 1 to 254 setup sectors, a kernel at least as long as its setup code, and an image below 4 GiB; the image itself lies in the pool, apart from all pages that are loaded, and the watchdog decision the loader takes from the command line is left out.
- Handover.BuildCommandLine: the second header field is assumed to contain a NUL when it is used; without one the source measures whatever follows in memory.
- Handover.HandoverKernel: the IA32 build, which leaves the upper halves of the EFI addresses to the image; which pixels and sizes the screen information holds is a parameter.
- Descriptor table loading, exit of boot services and the jump itself: one success or failure.
- Protocol.EveryRunConformsIff: the USB configuration happens once, queueing never fails, and replies are compared as values rather than as formatted 64-byte packets; re-enumeration in the middle of an exchange is not modelled.
- Fastboot.Device.DoDownload: queueing a reply or a receive never fails, so there is no error state.
- Fastboot.Device.ProcessRx: the same.
- BootRuns.LadderRun: variable writes succeed, and the battery level does not change within one boot.
- Warm dump, splash screen, capsule status, RTC alarm, the previous-target variable and other variables that no decision reads.
- Gpt.Cache.List: names are strings shorter than their field, and the entry size is 128 bytes.
- Wide-string number parsing, GUID byte order, path and string helpers, argument parsing, file access and logging: they would only add easy members.
