# A verified model of the PSRAM app platform

This Dafny project models the parts of the firmware and its host tools where several views of one truth have to stay
in agreement, and proves that they do, or says exactly when they do not.

* **Block pool** (`Words`, `PoolSpec`, `PoolLemmas`, `PoolRealloc`, `PoolLaws`, `PoolRuns`, `ReallocLaws`, `PoolGuard`,
  `PsramPool`, `PoolTasks`, `TaskLaws`). Pool memory is one byte array. Headers of 16 bytes lie inside it and are linked through it; the bitmap is
  an array of 32-bit words. `PsramPool` holds the imperative code on those arrays. Each of its methods is proved against a function
  on pool states (`PoolSpec`, `PoolRealloc`), and the laws are about those functions: the heap invariant over every run,
  when allocation succeeds, which outcome a realloc has and what it preserves, what free undoes. `PoolGuard` has the clients under which the header
  check of free tells live pointers from stale ones. `PoolTasks` lets any number of tasks interleave
  between mutex sections and between any two bytes of a `memcpy`, and `TaskLaws` says when each step succeeds and that a
  realloc nobody interrupts is the atomic one.
* **App loader** (`Reloc`, `LoaderSpec`, `EspappFile`, `AppLoader`) on top of that pool: header validation, the in-place relocator,
  the streaming load with its cleanup path, unload, and the result codes in terms of the bytes of the file. **Build tool** (`Builder`): padding, relocation entries, the body,
  and the way from there to the relocated image in memory.
* **A/V recorder** (`Recorder`, `RecorderLaws`, `RecorderHistory`, `RecorderDevice`): two capture tasks, two bounded
  queues and the writer as a state machine over their steps, the laws of all its runs, and the imperative atomic sections
  on the state record, the queues, the file and the heap, each proved to be one of those steps. **ESPAV container**
  (`Espav`): the chunk writer and the converter's reader.
* **MP3 window** (`Mp3Window`), **button events** (`Buttons`) and the **over-the-air installer** (`Ota`), the last at
  every instant at which the power may fail.

Naturals stand for machine words. Wrap-around, truncation, sign extension and the masks are written out (`Words` defines
and, or, not and shift on naturals and proves what the masks used here compute).

## What does not hold

Where the code does not do what it seems meant to do, the model follows the code. Each entry names the lemma or contract
that says exactly when the code meets the property, and a failing case where that statement does not show one itself.

* `src/psram_pool.h:51` promises that a double free is detected. The header check accepts exactly the live ones among all
  block pointers if and only if no other block carries the ALLOCATED magic at its byte 8 (`PoolGuard.GuardIsExactIff`;
  init does not clear the memory, so this is also a condition on what it gets). Only a client write that completes the
  magic there ends it (`PoolGuard.ApplyGenuineIff`). While it lasts, freeing a stale pointer changes nothing if and only
  if its block has not been handed out again (`PoolGuard.StaleFreeIff`; the new owner's blocks are freed in
  `PoolGuard.SecondFreeTakesNewOwner`).
* The ABI check of the loader never rejects anything: the header's version is a byte, the kernel's is 0x100
  (`Reloc.AbiNeverRejects`).
* The 2 MB limit bounds the real section sizes exactly when their 32-bit sum does not wrap (`Reloc.SizeLimitIff`; failing
  header in `Reloc.SizeLimitFails`).
* The header's CRC is taken over 60 bytes of a structure of 72: it depends on every field but the entry offset, the total
  size and itself (`EspappFile.CrcCovers`), and the signature covers the body alone.
* The build tool puts the linker's size symbols into the header and pads the sections for themselves. The loader finds the
  sections where the tool put them exactly when every symbol that is present agrees (`Builder.SectionsFoundIff`).
* The extent is granted for sections and BSS, but the relocation table is streamed into it too, and the length of the
  stream is a 32-bit sum. Nothing is written outside the extent exactly when that length, `StreamLen(h)`, is at most
  `4096 * BlocksFor(TotalRam(h)) - 16`; every byte of the table that the relocator walks has been streamed, into the
  extent, exactly when the unwrapped `BodyLen(h)` is at most that, so when the table fits in BSS or in what rounding up
  to blocks leaves over (`LoaderSpec.BodyStaysInside`). `LoaderSpec.BodyRunsOver` has a header whose stream runs into
  the next block, `LoaderSpec.StreamWraps` one whose stream stays inside because 2^29 table entries wrap to no bytes.
* BSS is cleared before relocation, and the relocation table starts where BSS starts. The relocator sees the file's
  table exactly when the bytes cleared were zero already, in particular without BSS (`LoaderSpec.TableSurvivesIff`).
  When BSS covers the table, the only effect of relocation is that the load address overwrites the first word of the
  code (`LoaderSpec.BssErasesTable`).
* An addend survives the build tool's 16-bit field exactly when it lies in -32768..32767 (`Builder.AddendRoundTrip`).
* The converter compares the four bytes it reads with a five-byte name, so it rejects every file
  (`Espav.ReaderRejectsEveryFile`). The round trip is therefore stated for what follows the 32-byte header.
* Items can be stranded in the queues when the writer ends, even if both capture tasks have ended by the time its guard
  fails (failing run in `RecorderLaws.StrandedFrame`). With all tasks over, every buffer has been freed exactly when nothing
  was sent after the writer's last look at each queue (`RecorderLaws.AllFreedIff`), that is, when no send of the schedule
  was accepted after the look (`RecorderHistory.StrandedIsAccepted`); so it is when both tasks ended before that look
  (`RecorderLaws.DrainedAfterCapture`).
* Before playback the MP3 decoder is given the first chunk of the file to read the format from; then the file is opened
  again, while the chunk stays in the window and the decoder keeps what the probe made it consume. When all reads succeed
  the decoder has consumed what the probe used, the chunk and the file in the end, and that is exactly the file if and
  only if the probe read nothing (`Mp3Window.Window.Play`).
* The force-quit gesture is noted exactly when a poll finds the press at least 2000 ms old and the poll before it found it
  less than 800 ms old (`Buttons.ForceQuitIff`); any poll in between spends the LONG event first. With polls at most
  1200 ms apart it never becomes pending (`Buttons.Driver.NoForceQuit`); a press held for 2500 ms without it, and one of
  2000 ms with it, are in `Buttons.HeldWithoutForceQuit` and `Buttons.HeldWithForceQuit`.
* `src/apps/appstore/README.md:72-76` promises that the installed binary survives a power loss during the download and
  that the user is never locked out. The first holds. For the second, the binary is missing at some instant exactly when
  its update is accepted and the remove works (`Ota.Card.Install`; a run in `Ota.BinaryMissing`). Its verified successor
  then lies complete in `/cache`, unless the name is downloaded again while the binary is missing. When opening for
  writing truncates and the verifier refuses the empty file, a binary that was there at the start is at some instant
  neither there nor complete in `/cache` if and only if a newer entry for its name begins its turn without the binary
  and its download file can be opened (`Ota.Card.Update`; a run in which both copies are lost in
  `Ota.DuplicateLosesBoth`).

## Model

| member | source | states |
|---|---|---|
| PsramPool.Kernel.Init | src/psram_pool.c:100-150 | Init succeeds exactly for 1..MAX blocks with all three resources granted, and then leaves an empty valid pool; a second call changes nothing; a failed one leaves no pool |
| PsramPool.Pool.BitmapGet | src/psram_pool.c:52-54 | Word idx>>5, bit idx&31 is bit idx of the abstract bitmap |
| PsramPool.Pool.BitmapSet | src/psram_pool.c:56-58 | Exactly bit idx of the abstract bitmap becomes set |
| PsramPool.Pool.BitmapClear | src/psram_pool.c:60-62 | Exactly bit idx of the abstract bitmap becomes clear |
| PsramPool.Pool.FindContiguousFree | src/psram_pool.c:66-94 | For every power-of-two alignment, the least aligned start of nblocks clear bits; NOT_FOUND exactly when there is none, although the scan skips ahead |
| PsramPool.RoundUpSpec | src/psram_pool.c:72-74 | (x+a-1) & ~(a-1) in 32-bit arithmetic is the least multiple of a from x on |
| PsramPool.StepTaken | src/psram_pool.c:81-91 | After a taken block no aligned start up to the next aligned index can fit |
| PsramPool.Pool.AllocAligned | src/psram_pool.c:152-195 | The arrays, counter and list become those of the abstract Alloc, and the pool stays valid |
| PsramPool.Pool.Free | src/psram_pool.c:205-252 | The arrays, counter and list become those of the abstract Free, whatever pointer is passed, unless it is stale and still carries the magic |
| PsramPool.Pool.FindLink | src/psram_pool.c:241-244 | Walking the links in memory reaches the header of the k-th live extent and stops at its predecessor |
| PsramPool.Pool.TryExpand | src/psram_pool.c:269-292 | The locked section grows the extent in place exactly when the blocks behind it are free and in range, and otherwise changes nothing |
| PsramPool.Pool.MoveTo | src/psram_pool.c:294-300 | Allocate, copy all old user bytes, free; the copy's source and target never overlap |
| PsramPool.Pool.Realloc | src/psram_pool.c:254-301 | The arrays, counter and list become those of the abstract Realloc, whose every outcome ReallocLaws gives |
| PsramPool.Pool.FreeSize | src/psram_pool.c:303-306 | 4096 times the number of clear bits, although the code subtracts a counter |
| PsramPool.Pool.MaxFreeBlock | src/psram_pool.c:308-325 | 4096 times the length of the longest run of clear bits |
| PoolSpec.BlocksForCovers | src/psram_pool.c:160-161 | The blocks computed cover header and request, tightly, exactly when the 32-bit sum does not wrap |
| PoolLemmas.AllocKeepsInv | src/psram_pool.c:152-195 | Alloc keeps the heap invariant |
| PoolLemmas.FreeKeepsInv | src/psram_pool.c:205-252 | Free keeps the heap invariant |
| PoolLemmas.ExpandKeepsInv | src/psram_pool.c:279-286 | Growing in place keeps the heap invariant |
| PoolLemmas.UserWriteKeepsInv | src/psram_pool.c:191-194 | Any write inside the user bytes of a live extent keeps the heap invariant: headers are framed off |
| PoolLaws.LiveUnique | src/psram_pool.c:181-187 | The live extents are determined by memory: the header list meets each once, ends, and meets nothing else |
| PoolLaws.UsedIsPopCount | src/psram_pool.c:176-179 | used_blocks is the number of set bits and the sum of num_blocks over the list |
| PoolLaws.AllocSucceedsIff | src/psram_pool.c:152-195 | Non-NULL exactly when 16 + size fits in the longest free run |
| PoolLaws.AllocIsFirstFit | src/psram_pool.c:167-187 | The extent handed out was free, is large enough with less than one block to spare, and no earlier start would do |
| PoolLaws.FreeUndoesAlloc | src/psram_pool.c:205-252 | Freeing what was just allocated, after any writes to it, restores bitmap, counter, list and every byte outside it |
| PoolLaws.DoubleFreeIsNoOp | src/psram_pool.c:225-233 | A second free of one pointer directly after the first is refused and changes nothing |
| PoolRealloc.MoveContract | src/psram_pool.c:294-300 | A moved realloc yields a fresh extent apart from the old one with all the old bytes; a failed one changes nothing |
| PoolRealloc.ReallocContract | src/psram_pool.c:254-301 | In the no-op, in-place and moved cases the result is large enough and starts with the old bytes, every other allocation keeps its bytes and header (list link apart), and NULL leaves everything as it was |
| PoolRuns.FreshIsInv | src/psram_pool.c:142-145 | The initial pool satisfies the heap invariant |
| PoolRuns.RunKeepsInv | src/psram_pool.c:152-301 | The heap invariant holds after every run of alloc, free, realloc and client writes |
| PoolRuns.RunKeepsUntouched | src/psram_pool.c:152-301 | Over any run, an allocation no operation names keeps its place, header and bytes |
| ReallocLaws.AllocResult | src/psram_pool.c:152-195 | NULL for size 0 and for what does not fit the longest free run, with nothing changed; otherwise a fresh extent on free blocks, with less than a block to spare, every other allocation kept |
| ReallocLaws.FreeResult | src/psram_pool.c:235-248 | Free of a live pointer: it is live no longer, exactly its bits become clear, the counter drops by its length, every other allocation is kept |
| ReallocLaws.ReallocOfNull | src/psram_pool.c:255 | realloc(NULL, n) is non-NULL exactly when n > 0 and header plus n fit the longest free run, and then names a fresh extent of at least n bytes |
| ReallocLaws.ReallocToNothing | src/psram_pool.c:256 | realloc(p, 0) of a live p returns NULL and gives exactly its extent back |
| ReallocLaws.ReallocDecides | src/psram_pool.c:258-301 | For every other size exactly one of: nothing changes; growth in place, if and only if the missing blocks behind are free; a move to free blocks; NULL, if and only if no free run is long enough either |
| ReallocLaws.RunAllocs | src/psram_pool.c:152-195 | In a run, an allocation is granted exactly when it is not empty and fits the longest free run |
| ReallocLaws.RunFrees | src/psram_pool.c:205-252 | In a run, a free gives back exactly the extent of a live pointer and changes nothing for any other pointer |
| ReallocLaws.RunWrites | src/psram_pool.c:191-194 | In a run, a client write is read back at its place, and no other byte changes |
| PoolGuard.GuardIsExactIff | src/psram_pool.c:210-233 | Among all block pointers the check of free accepts exactly the live ones if and only if only live allocations carry the ALLOCATED magic where an allocation can start |
| PoolGuard.ApplyGenuineIff | src/psram_pool.c:152-301 | Alloc, free and every kind of realloc, memcpy included, keep that condition; a client write does so exactly when it does not complete the magic inside an allocation |
| PoolGuard.HonestRunGuarded | src/psram_pool.c:205-233 | Clients that free any block pointer, live or stale, and forge no header have legal runs only, and at their end the check is still exact |
| PoolGuard.StaleFreeIff | src/psram_pool.c:225-233 | After any run of such clients, freeing a block pointer changes nothing if and only if no allocation starts there by then |
| PoolGuard.SecondFreeTakesNewOwner | src/psram_pool.c:225-245 | After alloc, free and an alloc of the same size the pointer is the same, and its old owner's second free frees the new owner's blocks |
| PoolTasks.RawIsExpandAt | src/psram_pool.c:265-286 | extra_blocks, computed before the lock, is still right under it: the raw section is the abstract expansion |
| PoolTasks.StartIsSafe | src/psram_pool.c:142-145 | Idle tasks on a fresh pool satisfy the system invariant |
| PoolTasks.StepKeepsInv | src/psram_pool.c:254-301 | Every step of every task keeps the heap invariant, exclusive ownership, and what each task in the middle of a realloc relies on |
| PoolTasks.ScheduleKeepsInv | src/psram_pool.c:152-301 | The system invariant holds after every interleaving |
| PoolTasks.EveryScheduleSafe | src/psram_pool.c:254-301 | Between the call of a realloc and any later state of any interleaving: if it has returned a pointer, the caller owns there an allocation of at least the new size that starts with all the bytes the old one held at the call; if it has returned NULL, the caller still owns the old pointer with its length and bytes |
| TaskLaws.AllocNewFailsIff | src/psram_pool.c:294-300 | In any state of any interleaving, the allocation inside a realloc fails, so that it returns NULL, exactly when header plus request exceed the longest free run of that moment |
| TaskLaws.TakeAllocGivesIff | src/psram_pool.c:152-195 | An interleaved alloc hands out a new pointer exactly when the request is not empty and fits |
| TaskLaws.TakeFreeGivesBack | src/psram_pool.c:205-252 | An interleaved free gives exactly the owner's extent back |
| TaskLaws.TakeWriteWrites | src/psram_pool.c:191-194 | An interleaved client write changes the byte it names in the caller's own allocation, and nothing else |
| TaskLaws.ExpandRefusedIff | src/psram_pool.c:269-292 | The expansion is refused exactly when a block it needs behind the extent is taken or out of range; otherwise the extent has exactly the blocks the request needs |
| TaskLaws.AloneIsRealloc | src/psram_pool.c:254-301 | A realloc run to its end with no other task in between leaves exactly the state and list of the atomic Realloc, and returns its pointer |
| TaskLaws.AloneIsEverySchedule | src/psram_pool.c:254-301 | Every schedule that runs only that task from call to return is this run |
| Reloc.SizeLimitIff | src/app_loader.c:53-60 | For accepted headers: the real sizes respect 2 MB exactly when their sum does not wrap |
| Reloc.SizeLimitFails | src/app_loader.c:53-60 | A 4 GB header that is accepted |
| Reloc.AbiNeverRejects | src/app_loader.c:46-51 | No header is ever turned away for its ABI version |
| Reloc.CallWordIs | src/app_loader.c:174-182 | The masks and shift of a CALL patch as arithmetic: top byte kept, low 24 bits the floor of the signed distance over 4 |
| Reloc.CallPatchExact | src/app_loader.c:174-182 | In any image of at most 2 MB a CALL to a section keeps its opcode byte and encodes floor(pc_rel/4) of the mathematical distance, without wrap, for every 16-bit addend |
| Reloc.PatchedWord | src/app_loader.c:137-191 | The word every accepted entry leaves, as arithmetic: for each target its place (base, code, read-only data, data sizes, kernel entry) plus the signed addend modulo 2^32; for a CALL the top byte of the old word and 24 bits of the signed distance over 4 |
| Reloc.PatchKeepsTable | src/app_loader.c:123-136 | A patch below the table changes no entry of the table |
| Reloc.InPlaceIsList | src/app_loader.c:134-197 | Patching from the table in memory equals applying the list the table held at the start |
| Reloc.OkIffAllGood | src/app_loader.c:139-197 | The call returns OK exactly when every type is 0..3 and every target a section or an in-range kernel index |
| Reloc.ListIsClosedForm | src/app_loader.c:134-197 | With disjoint sites each site holds the patch of its original word and every other byte is as before |
| Reloc.RelocatedUnique | src/app_loader.c:134-197 | That closed form determines the image |
| Reloc.OrderIrrelevant | src/app_loader.c:134-197 | Permuting a table with disjoint sites does not change the result |
| Reloc.TranslationCorrect | src/app_loader.c:128-191 | The image relocated at two bases: equal outside the sites, differing by exactly the distance of the bases at absolute section entries, identical at CALLs to sections and at absolute kernel entries, and at CALLs to the kernel, for bases a multiple of 4 apart, encoding that many words less |
| EspappFile.HeaderRoundTrip | src/espapp_format.h:8-22 | Every field the loader uses is read back from where the packed structure has it, whatever the other fields and the rest of the file are |
| EspappFile.EveryFileBegins | src/espapp_format.h:8-22 | Every file of at least 72 bytes begins with such a header |
| EspappFile.CrcCovers | src/app_loader.c:38-39 | The bytes under the CRC are the same for two headers exactly when they agree in all fields but entry offset, total size and CRC |
| EspappFile.HeaderVerdict | src/app_loader.c:32-76 | OK if and only if magic, CRC, wrapped size sum, entry and all four alignments hold, and each error code in exactly its case |
| EspappFile.LoadVerdict | src/app_loader.c:236-313 | With an accepted header whose sizes add up: each result of the load in exactly its case, on the file's bytes, the longest free run and malloc's answer; an app is loaded only if its signature verifies |
| EspappFile.NoHeaderVerdict | src/app_loader.c:216-228 | No file, a short file and a refused header give exactly their own codes |
| LoaderSpec.TableSurvivesIff | src/app_loader.c:295-300 | The relocator reads the file's table exactly when the BSS memset hit zeros only |
| LoaderSpec.BssErasesTable | src/app_loader.c:295-300 | A BSS that covers the table turns relocation into one store of the load address over the first code word |
| LoaderSpec.StagedOk | src/app_loader.c:295-301 | On the staged image relocation succeeds exactly when every entry read is good |
| LoaderSpec.LoadedImage | src/app_loader.c:256-301 | When the table survives and the sites are disjoint, the image in memory is the file's body, BSS cleared, with every entry applied for this load address |
| LoaderSpec.BodyStaysInside | src/app_loader.c:236-272 | Nothing is streamed outside the extent exactly when the 32-bit stream length fits its user bytes; the table the relocator walks has all been streamed into the extent exactly when the unwrapped length fits: always if the table fits in BSS, never if it exceeds BSS by a block or more |
| LoaderSpec.BodyRunsOver | src/app_loader.c:236-272 | An accepted header whose relocation table is streamed into the next block |
| LoaderSpec.StreamWraps | src/app_loader.c:252-253 | An accepted header with 2^29 relocation entries of which not one byte is streamed |
| LoaderSpec.UnloadRestores | src/app_loader.c:360-362 | Freeing a loaded image restores bitmap, counter, list and every byte outside its blocks |
| AppLoader.ResolveTarget | src/app_loader.c:139-164 | Known targets are exactly the sections and in-range kernel indices, with their addresses |
| AppLoader.PatchEntry | src/app_loader.c:166-196 | One entry applied in place in pool memory, or refused with the image untouched |
| AppLoader.ApplyRelocations | src/app_loader.c:118-201 | The loop over the table in memory computes the in-place specification; nothing outside the image changes |
| AppLoader.StreamBody | src/app_loader.c:252-272 | The 4 KB loop ends; it succeeds exactly when the file is long enough, and hash and memory have then been fed the same body bytes in order |
| AppLoader.Load | src/app_loader.c:207-325 | The result code branch by branch; every failure restores bitmap, counter and list exactly; success leaves the relocated image at the head of an otherwise unchanged pool and a context pointing at it, with the entry offset at byte 60 of the file, and only if the 64 bytes behind the body verify against its hash |
| AppLoader.Unload | src/app_loader.c:345-371 | At any later time, whatever the app wrote into its own memory, its extent is given back and every other allocation kept; if nothing else changed since the load, bitmap, counter and list are exactly as before it |
| Builder.AlignUpSpec | tools/build_espapp.py:166-167 | For a power of two align_up is the least multiple from the value on |
| Builder.PadLength | tools/build_espapp.py:170-174 | Padding appends zeros up to exactly the length align_up computes |
| Builder.ConvertRelocations | tools/build_espapp.py:177-211 | The loop emits eight bytes for each record of ELF type 1, 20 or 21, in order, and nothing else: its offset, type 0 for ELF type 1 and 1 otherwise, target 0, and an addend that is exact in 16 bits and congruent beyond |
| Builder.TableRoundTrip | tools/build_espapp.py:208-211 | Reading the table behind any prefix gives the packed entries back |
| Builder.AddendRoundTrip | tools/build_espapp.py:191 | Masking and sign extension give the addend back exactly in -32768..32767, otherwise a congruent one |
| Builder.BodyParses | tools/build_espapp.py:242-265 | With matching size symbols the loader's offsets recover the padded sections, and the table is the encoding of the kept records |
| Builder.BuiltAppLoads | tools/build_espapp.py:242-265 | From ELF sections to memory: a built body whose table survives stands as the padded sections in which each record of type 1 with a 16-bit addend holds base + addend, each of type 20 or 21 keeps its opcode and encodes floor((addend - offset - 3) / 4), and no other byte differs; none is rejected |
| Builder.SectionsFoundIff | tools/build_espapp.py:248-251 | The loader's offsets meet the sections exactly when each size symbol present agrees with its padded section |
| Builder.PointersMeetSections | src/app_loader.c:128-164 | In the loaded image a patched pointer to section 0, 1, 2 or 3 points at the first byte of the padded code, read-only data, data, or the zeros of BSS; target 16 + i gives kernel entry i |
| Espav.WriteChunk | apps/camera/svc_av_recorder.c:118-134 | A chunk is written whole, each field at its place in the packed structure, exactly when there is room; otherwise the bytes that fit are left behind |
| Espav.ReadChunks | tools/espav_converter.py:37-48 | The loop's two lists are the video and the audio chunks of the file, in order |
| Espav.ReaderRejectsEveryFile | tools/espav_converter.py:18-20 | No file passes the magic check |
| Espav.RoundTrip | apps/camera/svc_av_recorder.c:118-134 | Reading the concatenation of any chunks gives them back |
| Espav.ParseOfCut | tools/espav_converter.py:37-43 | What is read from a file cut at any byte |
| Espav.CutIsPrefix | tools/espav_converter.py:37-43 | It is a prefix of the chunks written, at most the last one's data shortened |
| Recorder.StepKeepsInv | apps/camera/svc_av_recorder.c:140-288 | Every step of every task keeps queue bounds 4 and 16, exclusive place of every buffer, order, counters, and the file's agreement with what was handled |
| RecorderLaws.RunKeepsInv | apps/camera/svc_av_recorder.c:140-288 | So does every interleaving |
| RecorderLaws.BuffersFreedOnce | apps/camera/svc_av_recorder.c:159-168 | Every buffer ever allocated is in use or freed, never both, and freed at most once |
| RecorderLaws.Conservation | apps/camera/svc_av_recorder.c:149-170 | captured = dropped + queued + in hand + handled, item by item and in number |
| RecorderLaws.RecordedInOrder | apps/camera/svc_av_recorder.c:245-276 | With successful writes the file reads back as exactly the handled items of each stream, a prefix of what was sent, in order of capture, timestamps never going back before the clock wraps, counters equal to the lengths |
| RecorderLaws.FailedWriteKeepsEarlierChunks | apps/camera/svc_av_recorder.c:125-131 | Whatever follows a failed write, every chunk recorded before it is read back |
| RecorderLaws.StrandedIsSentAfterTheLook | apps/camera/svc_av_recorder.c:245-246 | At the writer's end each queue holds exactly what was sent after the writer last looked at it |
| RecorderLaws.AllFreedIff | apps/camera/svc_av_recorder.c:245-276 | With all tasks over, every buffer has been freed exactly when nothing was sent after those looks |
| RecorderLaws.StrandedFrame | apps/camera/svc_av_recorder.c:245-246 | A run in which both capture tasks have ended when the guard fails and a frame is stranded all the same |
| RecorderLaws.EndedOnlyWhenAsked | apps/camera/svc_av_recorder.c:146-231 | Over every run from the start: the video task is over only if stop was requested, the audio task only if it was or its microphone or buffer was refused |
| RecorderHistory.StrandedIsAccepted | apps/camera/svc_av_recorder.c:245-246 | What each queue holds at the end is exactly what the schedule's accepted sends put there after the writer's look at it; every buffer is freed exactly when there were none |
| RecorderHistory.CapturedIsLedger | apps/camera/svc_av_recorder.c:149-165 | Over every run the captured items of a stream are exactly the granted captures of the schedule, in order, with their times and data |
| RecorderHistory.WholeRecording | apps/camera/svc_av_recorder.c:140-288 | A run without failed writes, drops or stranded items leaves a file that reads back as every capture with its time and data |
| RecorderLaws.DrainedAfterCapture | apps/camera/svc_av_recorder.c:245-276 | If both capture tasks end before the writer's last look, every item sent has been handled and every buffer freed when it is done |
| RecorderLaws.NeverStuck | apps/camera/svc_av_recorder.c:140-288 | Until all three tasks are over some step is possible |
| RecorderLaws.StopEndsTheRun | apps/camera/svc_av_recorder.c:146-245 | After a stop request every run is bounded by a number computed from the state |
| RecorderDevice.Device.CopySample | apps/camera/svc_av_recorder.c:152-160 | A sample gets a fresh buffer of its own, its data and the time since the start modulo 2^32; without memory the task goes round again and nothing else changes |
| RecorderDevice.Device.SkipPass | apps/camera/svc_av_recorder.c:146-174 | A pass with nothing to record: the task is at its loop check again, and queues, histories, file and heap are unchanged |
| RecorderDevice.Device.SendItem | apps/camera/svc_av_recorder.c:162-165 | The item goes to the end of a queue that holds fewer than 4 or 16; otherwise its buffer, proved to be still allocated, is freed |
| RecorderDevice.Device.LoopCheck | apps/camera/svc_av_recorder.c:209-231 | A capture task goes on exactly while no stop is requested; when the audio task ends it frees its read buffer, which is still allocated |
| RecorderDevice.Device.Receive | apps/camera/svc_av_recorder.c:250-263 | The oldest item leaves the queue for the writer |
| RecorderDevice.Device.WriteItem | apps/camera/svc_av_recorder.c:252-256 | The chunk is written whole and counted exactly when the card has room; otherwise a part of it is left in the file |
| RecorderDevice.Device.FreeItem | apps/camera/svc_av_recorder.c:257 | What the writer received is freed, written or not, and was still allocated |
| RecorderDevice.Device.WriterTask | apps/camera/svc_av_recorder.c:242-288 | Once capture is over the writer's loop ends with no buffer left, every item ever sent handled, and, unless a write failed, a file that reads back as everything sent |
| Mp3Window.Window.Compact | apps/audio/app_audio.c:153-160 | In-place compaction moves exactly the unconsumed bytes to the front |
| Mp3Window.Window.Refill | apps/audio/app_audio.c:161-167 | A window below 1024 bytes takes exactly what the read delivers, the next bytes of the file; the loop ends exactly on an empty window with a read that failed or gave nothing |
| Mp3Window.Window.Decode | apps/audio/app_audio.c:169-173 | The decoder is offered exactly the unconsumed rest of what was fed |
| Mp3Window.Window.Open | apps/audio/app_audio.c:119-127 | The probe read fills the window from the start of the file, and the decoder consumes a prefix of it that stays in the window |
| Mp3Window.Window.Play | apps/audio/app_audio.c:119-179 | Through any passes, what left the window ++ the window equals the probe chunk ++ the file prefix read since reopening, offset <= len <= 2048; the decoder has consumed what the probe used and then what left the window; at the end of the file the window is empty; a decoder that always uses something reaches the end in a bounded number of passes |
| Buttons.TraceGrammar | src/svc_input.c:62-107 | For every sample sequence the trace is a prefix of (PRESS LONG? RELEASE)* |
| Buttons.SentIs | src/svc_input.c:62-94 | Which event each sample sends, in terms of the samples alone |
| Buttons.LongIff | src/svc_input.c:89-93 | A LONG event has been sent, and the flag set, exactly when a later sample of the press was still down at 800 ms or more |
| Buttons.HoldExact | src/svc_input.c:80-91 | hold_ms is exact exactly for presses shorter than 2^32 ms, however often the clock wraps |
| Buttons.LongComesEarly | src/svc_input.c:89-105 | With polls at most gap ms apart LONG carries at least 800 and less than 800 + gap ms |
| Buttons.ForceQuitIff | src/svc_input.c:87-105 | The force-quit gesture is noted exactly when the press is at least 2000 ms old and no poll of it fell in its 800th to 1999th millisecond |
| Buttons.Driver.NoForceQuit | src/svc_input.c:103-105 | Whatever has been polled and consumed, with polls at most 1200 ms apart no force quit is pending |
| Buttons.HeldWithoutForceQuit | src/svc_input.c:103-105 | Back held for 2500 ms with polls at 800 and 2000 ms: a LONG event and no force quit |
| Buttons.HeldWithForceQuit | src/svc_input.c:103-105 | Back held for 2000 ms without a poll in between: a force quit |
| Buttons.Driver.Touch | src/svc_input.c:62-107 | The three branches on the fields of one button, the event and the pending gesture; no other button changes |
| Buttons.Driver.Poll | src/svc_input.c:56-109 | After every poll each button's state and events are those of its own samples alone; the events of one poll come in button order; the gesture left pending, in terms of which samples send LONG and for how long |
| Ota.PathsApart | src/apps/appstore/app_settings.c:222-248 | No two apps share a path and no download path is a binary's path |
| Ota.Compare | src/apps/appstore/app_settings.c:192-205 | An app is flagged exactly when its remote build exceeds that of the first local entry of its name, or -1 |
| Ota.NewerIff | src/apps/appstore/app_settings.c:192-205 | Newer means a build above that of the first local entry of the name, or above -1 when there is none |
| Ota.Card.Download | src/apps/appstore/app_settings.c:150-234 | The download succeeds exactly when the stream ends well and every piece is written whole; the file holds every piece up to the first that is not, and of that one what was written; only the download path changes, at every instant |
| Ota.Card.Fetch | src/apps/appstore/app_settings.c:213-243 | The download is accepted exactly when it went through and verifies; a refused or broken one is gone from the cache when the remove works |
| Ota.Card.Install | src/apps/appstore/app_settings.c:219-252 | At every instant the binary is old, absent or verified; it is absent at some instant exactly when the download was accepted and the remove works |
| Ota.Card.Update | src/apps/appstore/app_settings.c:192-252 | At every instant of a whole update: every binary has its old content or belongs to a newer remote app and is absent or verified, no other file changes, how each turn of the loop ends, and which binaries are at some instant neither there nor verified in the cache: only, and for worlds that truncate exactly, those for which a newer entry of their name opens its download while they are missing |
| Ota.BinaryMissing | src/apps/appstore/app_settings.c:250-251 | An update that goes well and has an instant without the binary |
| Ota.DuplicateLosesBoth | src/apps/appstore/app_settings.c:209-252 | A name listed twice whose first rename fails: binary and verified download are both lost |

## Left out

- PsramPool.Pool.AllocAligned: requires that 16 + size + 4095 does not wrap 32 bits; `PoolSpec.BlocksForCovers` says what goes wrong otherwise. The same holds for `PsramPool.Pool.Realloc`.
- PsramPool.Pool.Free: asks that a pointer which passes every check is live, which `PoolGuard.HonestRunGuarded` shows of every block pointer while no client forges a header; what the code does with a forged one, or with an unaligned pointer whose bytes happen to look like a header, is outside the model.
- AppLoader.Load: assumes of accepted files section sizes that add up without wrap, a body with its table that fits the blocks allocated for the sections (the code's total omits the table), and patch sites inside the sections (the code does not check them).
- AppLoader.ApplyRelocations: assumes patch sites inside the sections, which the code does not check.
- AppLoader.StreamBody: assumes that the streamed length fits in the memory behind the target; `LoaderSpec.BodyStaysInside` says when the loader's grant has that room.
- Reloc.TranslationCorrect: relates CALLs to the kernel only for bases a multiple of 4 apart, as all load addresses in one pool are.
- Buttons.TraceGrammar: concerns the events generated; the 32-entry event queue that may drop some, and their dispatch, are not modelled.
- Ota.Card.Update: when opening does not truncate, or the verifier accepts the empty file, opening a repeated download need not lose the binary at once; for such worlds the condition is shown to be necessary, not sufficient.
- RecorderDevice.Device.WriterTask: stated for capture tasks that have ended; while they run, the loop's turns interleave with theirs and `RecorderLaws` speaks about them. The contents of the audio read buffer are not modelled.
- A frame whose buffer cannot be allocated is not counted as captured: the code drops it before there is anything to own.
- Recorder start and stop: the 500 ms delay before the queues are deleted, failing task creation, and reading the queues after deletion are matters of timing.
- Calls on a pool that was never initialized, which return at once; the model has no pool object then.
- Mutexes: each critical section is one step; a mutex that cannot be taken is not modelled.
- psram_pool_dump_stats, which takes its non-recursive mutex twice, and all logging.
- SHA-256, CRC32, Ed25519 and the verifier of downloaded files are parameters; nothing is claimed about signatures beyond which bytes they are asked about.
- The alignment passed by the loader: src/app_loader.c:14 gives the block size a second value, but both clamp to one block.
- The header printer and its size constants (64 and 60 bytes against 72 in src/espapp_format.h:8-22), ELF parsing, and jumping into app code.
- JSON parsing in the installer: the local and the remote app lists are inputs. Paths are compared as strings.
- Termination of MP3 playback with a decoder that uses nothing of what it is offered: the loop can then spin until the play flag clears. The decoder is assumed to consume between 0 and the bytes offered.
- The WAV streamer (a pending-chunk buffer) and the power locks (a small multiset of acquired locks).
- Storage monitor, lifecycle, display, clock, camera, gallery, launcher and battery services: hardware, screens or plumbing.
