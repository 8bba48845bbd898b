# A verified model of libtux

libtux is an embeddable Linux personality: it loads ELF programs into a 4 GiB sandbox and
serves their system calls. This project models four of its parts in Dafny and proves what
they promise, over every input, every answer of the host, and every run or interleaving.

**Building a process image.** `Align` is the mask rounding of 64-bit words, kept as bitwise
operations and defined for every alignment. `AddressSpace` is the mapping layer: the
bookkeeping of libmmap beside the pages of the host. `Elf` and `Loader` are the program
loader: its loop over the headers refines an image in which the last covering segment
decides each byte, and it succeeds exactly when a stated set of checks holds and the host
agrees. `Stack` writes the initial stack; an independent reader for section 3.4.1 of the
System V AMD64 psABI gets back what was meant exactly under a stated condition. `Process` puts the parts together:
program, interpreter, brk reserve and stack lie in order and apart inside the sandbox.

**Memory calls.** `SysMem` is `brk`, which counts bytes over a page-grained mapper, and `mmap`.

**File ownership.** `Files` is the reference-counted descriptor table, the working directory
that borrows or owns a host file, and the standard streams that all processes share: a
counting invariant over all runs. `FdInterleave` splits open into its critical sections and
proves the weaker invariant that survives any interleaving of threads. `FchdirRace` adds an
fchdir to them.

**Thread protocols.** `Futex` is the pool of futex cells with its two critical sections per
wait, `ThreadExit` the clear-and-wake exit protocol. `Dirents` packs directory records into a
buffer and walks them again.

Code that updates state in place is modelled by classes and methods (`AddrSpace`, `TuxProc`,
`Tux`, `FutexPool`, the loader and stack methods, `GetDents`). Each is proved against a
function or relation on values, and the theorems about runs are about those. What libmmap and
the host answer is always an input. `Died`, `Crash`, `Crashed`, `Aborted`, `Assertion`,
`Killed` and `NullName` stand for an assertion of the program that fires. `Strayed`, `Stray`,
`Astray` and `Overflow` stand for a copy or a store that leaves the memory meant for it: the
model stops before it and says nothing about what it does. `Wrappers` and
`Bytes` hold the option type, byte strings, little-endian words and C strings.

`dafny verify dfyconfig.toml` checks the whole project.

## Main results

- `Loader.Load`: for every file, the loader loop refines a last-segment-wins image, and exactly
  when it succeeds and exactly when one of its copies strays; `Elf.ContainedIffNoWrap` says when
  its checks suffice.
- `Process.ProcSetup`: exactly when a process starts, and the layout it then has;
  `Process.PhdrCorrect`: AT_PHDR as read from the stack addresses the program's headers.
- `Stack.StartReadsIff`: exactly when the initial stack reads back.
- `AddressSpace.RunKeepsAgreement`, `SysMem.BrkRun`, `SysMem.ImagesSurviveBrk`,
  `SysMem.StartSurvivesBrk`: the mapping layer, the break, the images and the initial stack over
  every run.
- `Files.Conservation`, `Files.CwdAlive`, `Files.OrphanRun`: reference counts, working
  directories, and exactly when every open file can still be closed, over every run.
- `FdInterleave.OpenCloseSafety`, `FdInterleave.LeakFreeIff`: safety in every interleaving of
  opens and closes, and exactly when nothing leaks; `FchdirRace.FreedInRaceIff`: exactly when an
  fchdir is left with a freed file.
- `Futex.PoolRun`, `Futex.EnterFailsIff`: the cell pool over every interleaving.
- `ThreadExit.NoLostExitIff`, `ThreadExit.NoEarlyJoinIff`, `ThreadExit.JoinerFinishes`: exactly
  when no exit is lost and no join early, and that joiners then finish.
- `Dirents.GetDents`, `Dirents.WalkPacked`: packed records walk back to the entries.

## What turns out false, and exactly when

- Some headers that pass the loader's checks do not fit their mapping: a header that passes fits
  exactly when neither vaddr + memsz nor rounding it up wraps (`Elf.ContainedIffNoWrap`). If the
  alignment is a power of two, exactly when vaddr + memsz does not wrap
  (`Elf.ChecksSufficeIff`). Both families have members (`Elf.WrappedEndPasses`,
  `Elf.WrappedSumPasses`), and one has its bytes 8 GiB away from its range
  (`Elf.WrappedEndFarOff`).
- So the loader can copy to outside the range it mapped, and also from outside the file. It does
  so exactly under the condition of `Loader.Load` (`LoadStrays`, and for one header
  `Loader.StraysIff`), and never for headers as the ELF format asks for them
  (`Loader.SaneNeverStrays`).
- A page may be recorded and yet inaccessible, such as the brk reserve; recorded and accessible
  pages are the same exactly when no page is recorded as inaccessible
  (`AddressSpace.RecordedIffAccessible`).
- The words of a start with more than 471 arguments reach into the block of their strings. The
  stack then reads back exactly when the words happen to equal the bytes they overwrite
  (`Stack.StartReadsIff`); with 472 arguments that is when the first eight are empty
  (`Stack.UnharmedAt472`). From 984 on the words, or the pointers kept beside them, run past
  their arrays (`Stack.StackSetup`).
- Growth of the break can map one page above the reserve (`SysMem.ReserveOverrun`), exactly
  under the condition of `SysMem.PastReserveIff`.
- An open that finds the table full, or no memory for its record, leaves a host file open that
  nobody can close any more; no other call does (`Files.OrphanIff`), and such a file stays open
  for good (`Files.NeverClosed`).
- Between threads an assignment to a slot that another open has filled in the meantime leaks a
  file as well. These three steps are the only ones (`FdInterleave.LeakIff`,
  `FdInterleave.LeakFreeIff`); two opens of one process that choose their
  slot before either assigns always end in one of them (`FdInterleave.RacingOpensLeak`).
- `chdir` to a directory that cannot be opened returns 0 and loses the working directory
  (`Files.Tux.SysChdir`); `mmap` returns address 0 as a success when libmmap finds no place
  (`SysMem.SysMmap`).
- A close can free the file under an fchdir that has looked it up and not yet counted it, exactly
  when it gives up the last hold (`FchdirRace.FreedInRaceIff`,
  `FchdirRace.CloseFreesUnderFchdir`).
- An exit can be lost exactly when the parent's late tid store puts a nonzero byte into the joined
  word (`ThreadExit.NoLostExitIff`); for aligned addresses, when it hits that word
  (`ThreadExit.AlignedApart`). The word is then nonzero after the exit, from every initial
  state (`ThreadExit.OverwrittenExit`), and if it is aligned and inside the space, any joiner
  can go to sleep on it after the exit (`ThreadExit.LostExitWhenShared`). A store that overlaps the
  word can also zero it while the thread runs, under the condition of
  `ThreadExit.NoEarlyJoinIff`.
- `getdents64` returns more bytes than were asked for exactly when the count falls inside a
  record (`Dirents.OverrunIff`), and writes past the count exactly when a record begins less
  than one struct before it (`Dirents.StructOverrunIff`).
- The fix-up of a zero load base at src/elfload.c:154 cannot be reached: with base zero the
  range assertion of the mapping layer fires first (`Loader.LoadHeader`).

## Model

| member | source | states |
|---|---|---|
| Align.TruncpNear | src/align.h:8-13 | rounding down with any nonzero alignment stays within one alignment below its argument |
| Align.CeilpSoundIffNoWrap | src/align.h:15-20 | rounding up with any nonzero alignment gives a value not below its argument if and only if adding the mask does not wrap, and then less than one alignment above |
| Align.RoundsToPages | src/align.h:8-20 | every alignment that is a multiple of the page size, zero included, rounds to page boundaries |
| Align.PowerOfTwoRounding | src/align.h:8-20 | for powers of two the masks are the usual rounding, and a wrapping round-up gives zero |
| Align.CeilpIsLeast | src/align.h:15-20 | rounding up by a power of two gives the least multiple that is not below the argument |
| AddressSpace.AddrSpace.constructor | src/pal/vm.c:18-47 | a new space records nothing, agrees with the reserved host pages and splits none |
| AddressSpace.AddrSpace.CbUnmap | src/pal/vm.c:86-93 | exactly the recorded addresses of the displaced range become inaccessible zero pages |
| AddressSpace.AddrSpace.MapAt | src/pal/vm.c:95-110 | out of range asserts; refusal by libmmap changes nothing; refusal by the host leaves the rounded range vacated; success leaves it recorded, protected and zero; nothing else changes |
| AddressSpace.AddrSpace.MapAny | src/pal/vm.c:71-84 | returns the free place that libmmap found, freshly mapped; 0 when there is none; all ones when the host refuses; both failures change nothing |
| AddressSpace.AddrSpace.Mprotect | src/pal/vm.c:112-122 | changes the host's protection of whole pages and leaves the records as they are |
| AddressSpace.AddrSpace.Munmap | src/pal/vm.c:124-130 | vacates the rounded range if libmmap agrees, but refuses a range that ends at the top of the space; a refusal changes nothing |
| AddressSpace.StepShape | src/pal/vm.c:61-130 | every call of the layer changes at most one page-aligned range inside the space, leaving it fresh, vacated or as it was |
| AddressSpace.UnmapUndoesMap | src/pal/vm.c:95-130 | a granted mapping lies between base + 81920 + page and base + 4 GiB - 81920, recorded, protected as asked and zero; unmapping it is refused exactly at the very top, and otherwise leaves it unrecorded and inaccessible, with everything else as before both |
| AddressSpace.StepKeepsAgreement | src/pal/vm.c:61-130 | every call keeps records and host pages in agreement and splits no page |
| AddressSpace.RunKeepsAgreement | src/pal/vm.c:61-130 | over every run of mapat, mapany and munmap, with refusals at any point, a recorded page has its recorded protection on the host and an unrecorded one is inaccessible, no page is split, and nothing outside the space is touched |
| AddressSpace.RecordedIffAccessible | src/pal/vm.c:86-110 | recorded pages are exactly the accessible ones if and only if no page is recorded as inaccessible |
| AddressSpace.RunKeepsAccess | src/pal/vm.c:61-130 | over every run without requests for inaccessible pages, recorded pages are exactly the accessible ones |
| Elf.EhdrRoundTrip | src/elfload.h:70-87 | the file header's fields are read from where the format puts them |
| Elf.PhdrRoundTrip | src/elfload.h:89-98 | a program header is read back from any place in a file |
| Elf.TableRoundTrip | src/elfload.c:95-112 | a table encoded from any headers, where the file header says, is read back whole and in order |
| Elf.PflagsMasks | src/elfload.c:29-35 | the protection of a segment is what the masks 4, 2 and 1 select from its flags |
| Elf.PassesGuarantees | src/elfload.c:118-147 | any header that passes has a nonzero alignment and a non-empty range of whole pages that starts at or below vaddr and is moved without wrapping |
| Elf.ContainedIffNoWrap | src/elfload.c:118-147 | any header that passes the checks has its whole segment inside its page-aligned, non-empty range if and only if neither vaddr + memsz nor rounding it up wraps |
| Elf.ChecksSufficeIff | src/elfload.c:118-147 | with alignment zero or a power of two, if and only if vaddr + memsz does not wrap |
| Elf.PassesIff | src/elfload.c:118-147 | for headers that do not wrap, in ordinary arithmetic, exactly which pass: alignment a multiple of the page, no more file than memory bytes, and between the shift and 1 GiB above it |
| Elf.WrappedEndPasses | src/elfload.c:118-147 | a header whose rounding wraps passes all checks with a mapping smaller than its file bytes |
| Elf.WrappedSumPasses | src/elfload.c:118-147 | so does one with 4 KiB alignment whose vaddr + memsz wraps |
| Elf.WrappedEndFarOff | src/elfload.c:118-151 | a header that passes with its bytes more than 4 GiB above its mapping |
| Elf.LastSegmentWins | src/elfload.c:110-160 | the last loadable header whose rounded range covers an address decides its record, protection and byte: the file byte within filesz, otherwise zero |
| Elf.UncoveredUnchanged | src/elfload.c:110-160 | an address that no loadable header covers keeps what it was |
| Elf.SegmentHeld | src/elfload.c:48-70 | in the image, memory holds each segment that no later one reaches into: its file bytes at bias + vaddr, zeroes in the rest of its range, and the protection of its three flag bits |
| Elf.LowestAndHighest | src/elfload.c:126-159 | with a loadable header the running first and last are tight bounds of all rounded ranges, and zero without one |
| Loader.BufRead | src/buf.h:27-34 | leaves the buffer exactly for an offset beyond its end or a wrapping offset plus count; otherwise copies the whole count if it lies in the buffer, and else what is left |
| Loader.LoadSegment | src/elfload.c:48-70 | exactly when it asserts, strays and succeeds; on success the range holds the segment; nothing outside the range changes |
| Loader.Placement | src/elfload.c:106-147 | for both kinds of program there is one bias at which each segment that passes lands, page aligned and within 1 GiB above the base: subtracting and adding the base cancels |
| Loader.LoadHeader | src/elfload.c:111-159 | one loadable header is laid over memory at the bias exactly when it is accepted and granted; exactly when it strays; the range assertion fires exactly for base zero and a header that passes |
| Loader.LoadHeaders | src/elfload.c:110-160 | the loop succeeds exactly when every loadable header is accepted and granted, and then memory is the image of all headers; it strays exactly when one strays after all before it were loaded |
| Loader.Load | src/elfload.c:72-172 | for every file: success exactly when the file is accepted and the host consents, and straying exactly under a stated condition; on success the file has the ELF magic, class, version and type, memory is the image and holds each segment that no later one reaches into, type 2 is placed from the start of the space and type 3 from the base, first and last are tight bounds, the entry is e_entry placed likewise; only the first GiB above the base is ever touched |
| Loader.AcceptsIff | src/elfload.c:20-27 | for headers with power-of-two alignments that do not wrap, exactly which files are accepted, by their bytes |
| Loader.LoadsGivenHeaders | src/elfload.c:95-168 | for a file encoded from a given file header and given program headers: a successful load holds the segments of exactly those headers, at the place their type asks for, and enters at the given entry |
| Loader.StraysIff | src/elfload.c:62-151 | for a header that passes with its bytes in the file, the copy leaves its range if and only if the end has wrapped to below the end of the bytes |
| Loader.SaneNeverStrays | src/elfload.c:72-172 | a file whose table and bytes are where the headers say, with segments that do not wrap and alignments zero or powers of two, never strays |
| Stack.WriteStrings | src/proc.c:145-157 | no room exactly when the cut, terminated strings it tries take 4096 bytes or more, no pointer left exactly beyond 1024; otherwise they stand one behind the other and the pointers point at them; nothing outside the block changes |
| Stack.WriteStart | src/proc.c:159-195 | the words stand one block below the strings, and the strings where the words do not reach |
| Stack.StackSetup | src/proc.c:138-198 | fails exactly for strings that do not fit, overflows exactly for more than 983 arguments that do, asserts exactly without arguments; otherwise sp is 16-byte aligned, and the start reads back if and only if the words leave the strings unharmed, which they do up to 471 arguments; whoever reads it then finds for each argument its first 1024 characters or all of them, no environment, and the auxiliary vector in order |
| Stack.ReadsUnique | src/proc.c:159-197 | reading a stack by the psABI rules has at most one outcome |
| Stack.WordsReadBack | src/proc.c:159-195 | the written words over standing strings read back as the process's start |
| Stack.StartReadsIff | src/proc.c:145-197 | for any number of arguments the start reads back if and only if the words that reach the block of strings equal the bytes there; otherwise no reading of the stack gives the arguments; up to 471 it always reads back |
| Stack.ReadsArguments | src/proc.c:146-157 | any reading of a start that reads back gives for each argument its first 1024 characters or all of them, and no environment |
| Stack.UnharmedAt472 | src/proc.c:165-195 | with 472 arguments the words leave the strings unharmed if and only if the first eight arguments are empty |
| Stack.StartKept | src/proc.c:208-226 | the start stays written in every memory that agrees on the two blocks |
| Stack.AuxValues | src/proc.c:176-195 | by the numbers of the ELF format, looking up headers, interpreter base, page size, entry, name and random bytes gives what the loader recorded |
| Stack.AuxConstants | src/proc.c:177-194 | and the ten other keys give 0 or 1000 |
| Process.LoadedRange | src/elfload.c:126-163 | an accepted program with loadable segments takes a page-aligned range within 1 GiB above its base |
| Process.LoadElf | src/elfload.c:176-232 | for every program and interpreter, exactly when they are placed and exactly when a copy strays; when placed, layout, both images and a zeroed stack are there; nothing outside the space is touched; crashes only without loadable segments |
| Process.Furnish | src/proc.c:208-228 | the same for the second half of setup, after the images are in place |
| Process.ProcSetup | src/proc.c:200-229 | for all files and arguments, exactly when a process starts and exactly when setup goes astray; when it starts, program, interpreter, 512 MiB reserve with a page to spare and 2 MiB stack are in order, disjoint and inside the space, the images hold, the reserve is inaccessible, the stack is read-write and reads back if and only if its strings are unharmed, and the interpreter is entered if there is one; an assertion fires only without arguments or loadable segments |
| Process.SaneNeverAstray | src/elfload.c:176-232 | sane files never lead the loading astray |
| Process.PhdrCorrect | src/proc.c:179-181 | the memory at the AT_PHDR value read from the stack equals the file's program header table |
| SysMem.Grow | src/syscalls/sys_mem.c:28-41 | growth maps from the rounded old break as many bytes as the break grows by; a refusal keeps the break |
| SysMem.SysBrk | src/syscalls/sys_mem.c:6-42 | zero returns the break; below the region gives the empty region; at 512 MiB or more asserts; anything else up to the break moves it there, and above maps what is missing and moves it there, or is refused and keeps it |
| SysMem.BrkAnswers | src/syscalls/sys_mem.c:11-41 | the same case by case for every step from a state of the invariant |
| SysMem.StepKeepsBrk | src/syscalls/sys_mem.c:11-41 | every call keeps all pages below the break mapped read-write and touches only the reserve and one page above; it asserts exactly for requests at or above the limit |
| SysMem.GrowthPreserves | src/syscalls/sys_mem.c:28-41 | no call changes a byte below the rounded old break, and what growth adds above it is zero |
| SysMem.BrkRun | src/syscalls/sys_mem.c:6-42 | over every run, with shrinks and refusals: each byte below the break is read-write, at most one page past the reserve is ever touched, and bytes that stay below the break keep their values |
| SysMem.OvershootIff | src/syscalls/sys_mem.c:31-36 | growth maps an unneeded page if and only if old break and increment both end inside a page and their remainders fit into one |
| SysMem.PastReserveIff | src/syscalls/sys_mem.c:31-36 | a granted growth maps the page above the reserve exactly when rounded old break and rounded increment together exceed it, and otherwise stays inside |
| SysMem.ReserveOverrun | src/syscalls/sys_mem.c:31-36 | a growth by 4094 bytes from 4095 below the limit does map that page |
| SysMem.SetupEstablishesBrk | src/proc.c:219-226 | a process that was just set up satisfies the invariant of the break |
| SysMem.ImagesSurviveBrk | src/syscalls/sys_mem.c:6-42 | the images that setup placed survive every run of brk calls |
| SysMem.StartSurvivesBrk | src/syscalls/sys_mem.c:6-42 | no run of brk calls touches the stack, so that the initial stack reads back as it did |
| SysMem.SysMmap | src/syscalls/sys_mem.c:44-79 | both forms of an anonymous mapping with every result: what is mapped, what is lost when the host refuses, what stays unchanged, and success at address 0 when there is no place |
| Files.FirstFree | src/fd.c:17-29 | the lowest empty slot, or -1 if and only if every slot is taken |
| Files.StepKeepsInv | src/fd.c:8-100 | open, close, chdir, fchdir and the start of a process keep the counting invariant and the ownership of working directories |
| Files.RunKeepsInv | src/tux.c:18-44 | both invariants hold over every run from the engine's start |
| Files.LeaksIffFull | src/syscalls/sys_file.c:117-122 | a call leaves an unfreed record without holder if and only if it is an open into a full table |
| Files.OrphanIff | src/file.c:21-40 | a call leaves an open host file that no held record and no working directory names if and only if it is an open past its checks into a full table, or one that finds no memory for the record |
| Files.OrphanStays | src/file.c:115-149 | a host file that nobody names stays open and unnamed, whatever is called |
| Files.OrphanRun | src/syscalls/sys_file.c:103-127 | over every run, every open host file is named if and only if no call so far was such an open |
| Files.NeverClosed | src/fd.c:57-67 | an open host file that nobody names is open for the rest of every run |
| Files.Conservation | src/fd.c:8-67 | over every run a file is freed exactly when its host file was closed, once; otherwise its count is its slots plus working directories plus the engine's hold, or the wrapped word if it was never held; no host file is closed twice |
| Files.FreedExactlyWithLastHolder | src/fd.c:57-67 | without full-table opens, over every run, a file is freed if and only if nobody holds it |
| Files.CwdAlive | src/syscalls/sys_cwd.c:22-65 | over every run a working directory is absent or open, and belongs to the held file or to the working directory alone |
| Files.FchdirThenClose | src/syscalls/sys_cwd.c:39-65 | closing the descriptor given to fchdir leaves the working directory open |
| Files.OpenThenClose | src/syscalls/sys_file.c:103-142 | closing what an open returned succeeds, restores every table, and leaves the new file freed and its host file closed once |
| Files.Tux.constructor | src/tux.c:18-44 | three fresh records, each with the engine's own reference, satisfy the invariant |
| Files.Tux.FdRelease | src/fd.c:57-67 | the count drops by one, wrapping from zero; at zero the host file is closed and the record freed |
| Files.Tux.FdAssign | src/fd.c:8-15 | increments the count and sets the slot, and nothing else |
| Files.Tux.FdAlloc | src/fd.c:17-29 | the loop returns the lowest empty slot, or -1 |
| Files.Tux.FdRemove | src/fd.c:37-46 | releases and empties a slot in use, and reports whether there was one |
| Files.Tux.FdClear | src/fd.c:83-90 | empties the whole table of one process, keeps the invariant, and leaves its working directory and all other processes alone |
| Files.Tux.SpawnProc | src/proc.c:72-102 | adds a process whose slots 0, 1 and 2 hold the engine's input, output and error, each counted once more, as long as one of 64 address spaces is left |
| Files.Tux.SysOpenat | src/syscalls/sys_file.c:103-127 | exactly when it returns -9, -14, -2 and -24; otherwise the lowest empty slot, which then holds a new file with a count of one on the host file just opened, while all other slots, processes and files stay |
| Files.Tux.SysClose | src/syscalls/sys_file.c:135-142 | 0 exactly for a slot in use, which is emptied: the count of its file drops by one, and at zero its host file is closed; otherwise -9 and nothing changes |
| Files.Tux.SysChdir | src/syscalls/sys_cwd.c:22-37 | -14 without a path; otherwise 0, the directory just opened is the new one, or none if it could not be opened, and the old one is released or closed |
| Files.Tux.SysFchdir | src/syscalls/sys_cwd.c:39-65 | -9 without a file, -20 without a directory; otherwise 0, the file in the slot is the new working directory and counted once more, and the old one is released or closed |
| FdInterleave.NextSafe | src/fd.c:8-74 | every critical section, also an assignment over a slot filled in the meantime, keeps the interleaving invariant |
| FdInterleave.InterleavingSafe | src/syscalls/sys_file.c:113-126 | the interleaving invariant holds in every interleaving of any threads of any processes |
| FdInterleave.OpenCloseSafety | src/syscalls/sys_file.c:113-126 | in every interleaving the count of a held file is its holders plus its overwritten slots, so never below its holders; freed means closed exactly once; a file being opened is not freed; no host file is closed twice |
| FdInterleave.SlotAlive | src/fd.c:48-67 | in every interleaving no slot names a freed file or a closed host file |
| FdInterleave.StepsMakeOpen | src/syscalls/sys_file.c:113-126 | without other threads in between, the separate steps make up the sequential open |
| FdInterleave.LeakIff | src/fd.c:8-29 | from a state in which every open host file can still be closed, a step leaves one that cannot if and only if it chooses in a full table, assigns to a filled slot, or opens without memory for the record |
| FdInterleave.LeakFreeIff | src/syscalls/sys_file.c:113-126 | in every interleaving every open host file can still be closed if and only if that was so at the start and no step chose in a full table, assigned to a filled slot, or opened without memory for the record |
| FdInterleave.FreedIffUnheld | src/fd.c:57-67 | in every interleaving without such leaks a record that no thread is opening is freed, and its host file closed once, if and only if nobody holds it |
| FdInterleave.OverwrittenForever | src/fd.c:8-15 | a file that lost its slot to another open has no holder, and is never freed and never closed |
| FdInterleave.RacingOpensLeak | src/syscalls/sys_file.c:117-126 | from every initial state, two opens that choose before either assigns leave the first file open with a count and no holder |
| FchdirRace.StepsMakeFchdir | src/syscalls/sys_cwd.c:42-63 | without other threads in between, the separate steps make up the sequential fchdir |
| FchdirRace.FreedInRaceIff | src/syscalls/sys_cwd.c:42-60 | while opens and closes of other threads go on, the file that an fchdir has looked up is freed before it is counted if and only if some step since gave up its last hold; otherwise it is open with a true count |
| FchdirRace.CloseFreesUnderFchdir | src/syscalls/sys_cwd.c:42-60 | whenever the slot is the only hold, another thread's close does so |
| FchdirRace.AlwaysMayBegin | src/syscalls/sys_cwd.c:39-49 | all states of sequential calls followed by interleaved opens and closes are covered |
| Futex.Find | src/host/posix/futex.c:8-18 | an active cell for the address, or none if and only if no active cell has it |
| Futex.FutexPool.FutexFind | src/host/posix/futex.c:8-18 | the loop returns the first active cell for the address |
| Futex.FutexPool.FutexNew | src/host/posix/futex.c:20-33 | takes the first free cell for the address with one waiter, or fails on an empty list |
| Futex.FutexPool.EnterWait | src/host/posix/futex.c:48-63 | a cell active for the address gets one waiter more; else the first free cell becomes the first active one, for the address and one waiter; else nothing changes |
| Futex.FutexPool.LeaveWait | src/host/posix/futex.c:71-79 | one waiter less; with the last one the cell leaves the active list for the front of the free one |
| Futex.NextKeepsInv | src/host/posix/futex.c:48-79 | each entering and each leaving section keeps the pool invariant |
| Futex.PoolRun | src/host/posix/futex.c:41-82 | over every interleaving, from any initial pool: active and free cells partition it, active addresses differ, waiters counts the threads between their sections, and a waiting thread's cell stays active with its address |
| Futex.EnterFailsIff | src/host/posix/futex.c:52-62 | entering fails if and only if every cell is active for some other address |
| Futex.QuietPoolIsFree | src/host/posix/futex.c:71-79 | when nobody waits, every cell is free again |
| ThreadExit.NoLostExit | src/syscalls/sys_proc.c:7-18 | in every interleaving, once a thread that clears the joined word has exited, the word is zero and no joiner sleeps on it, if the parent's late store puts no nonzero byte into the word |
| ThreadExit.NoLostExitIff | src/syscalls/sys_thread.c:103-141 | that is so in every state of every run if and only if the parent's late store, at any address, puts no nonzero byte of the thread's number into the joined word |
| ThreadExit.SleepsOnlyOnGoodWords | src/syscalls/sys_thread.c:41-46 | in every run a joiner sleeps only on an aligned word inside the space |
| ThreadExit.ClearsTheRightWord | src/syscalls/sys_thread.c:115-117 | in every run the child clears the word that set_tid_address said last, or else the one that spawn was told to have cleared |
| ThreadExit.ClearTidIsSeen | src/syscalls/sys_proc.c:7-18 | a thread created to clear the joined word is seen to have exited: the word is zero and no joiner sleeps |
| ThreadExit.TidIsRead | src/syscalls/sys_thread.c:118-120 | a thread created with its number in the joined word has it there when it runs |
| ThreadExit.NoEarlyJoinIff | src/syscalls/sys_thread.c:118-140 | and the word is not zero while it runs, in every run, if and only if the parent's late store does not turn the number into zero |
| ThreadExit.JoinsAfterClearing | src/syscalls/sys_proc.c:12-15 | so a joiner finishes only by finding a zero after the thread has cleared the word |
| ThreadExit.AlignedApart | src/syscalls/sys_thread.c:103-141 | for aligned addresses: if and only if it goes to another word |
| ThreadExit.JoinerFinishes | src/syscalls/sys_proc.c:7-18 | after the exit, over the rest of any run, each joiner is at most two steps of its own from the end, each own step brings it one nearer and nothing sets it back: after two it is done |
| ThreadExit.OverwrittenExit | src/syscalls/sys_thread.c:128-141 | if the parent's late store does put one there, then from every initial state some interleaving ends with the thread exited and the word nonzero |
| ThreadExit.LostExitWhenShared | src/syscalls/sys_thread.c:128-141 | if it does, and the word is aligned and in the space, then from every initial state with a joiner some interleaving leaves the joiner asleep after the exit |
| Dirents.RecLenFacts | src/host/posix/dir.c:25-28 | a record's length is a multiple of 8, holds header, name and a terminator, wastes less than 8 bytes and is at most one struct |
| Dirents.RecordReads | src/types.h:20-26 | each field and the name are read back from a record, whatever follows it |
| Dirents.WalkPacked | src/host/posix/dir.c:16-31 | walking packed records by their stored lengths recovers all entries in order, names cut to 255 characters, and ends exactly at the end |
| Dirents.WalkedEntries | src/host/posix/dir.c:16-31 | each entry that is walked has the number and the type of the entry packed, and its first 255 characters or all of them |
| Dirents.GetDents | src/host/posix/dir.c:9-35 | leaves the buffer exactly when one struct from the beginning of the last record does; otherwise the buffer holds the packed records of as many entries as are started before the count is reached, and walking it recovers them; the length is a multiple of 8; nothing is written from there on, which is below the count plus one struct |
| Dirents.OverrunIff | src/host/posix/dir.c:16-34 | more bytes than asked for are returned if and only if the count falls strictly inside a record |
| Dirents.StructOverrunIff | src/host/posix/dir.c:16-31 | bytes past the count are written if and only if some record begins before the count and less than one struct before it |

## Left out

- Host wrappers, the kernel, clocks and error translation: host answers are inputs, and no claim is made about host error codes.
- Assembly runtimes, contexts and registers; syscall dispatch and tracing.
- read, write, stat, rename and the other calls that look a file up and forward to the host; ioctl, prctl, signal and clock stubs; clone flag filtering.
- libmmap, libboxmap and cwalk are not part of this model. libmmap is a contract: whole pages, a fixed mapping replaces and zeroes, the callback sees every displaced range, failure changes nothing. A platform reserves 256 GiB, hence at most 64 address spaces.
- The page size is a power of two that divides 80 KiB, and the same for platform and engine; spaces are 4 GiB aligned. The record of an address is its protection only; it is kept per address, and `AddressSpace.RunKeepsAgreement` shows that no page is split.
- File-backed mappings: mappings are anonymous.
- The replacement mapping inside cbunmap is taken to succeed: its failure ends the program by assertion.
- AddressSpace.AddrSpace.Mprotect: not a step of the agreement invariant, because it does not update the bookkeeping.
- AddressSpace.AddrSpace.MapAt: a request that the range assertion lets through although it wraps or is not page aligned is not modelled: what happens is up to libmmap.
- AddressSpace.AddrSpace.Munmap: the same requests are left out.
- SysMem.SysMmap: lengths within a page of 2^64 and fixed ranges that wrap into the space are left out, and so are file-backed calls.
- What a straying copy or store does: it leaves the memory meant for it, and the model stops.
- Code sanitizing and the perf output file are compile-time or start-up options, modelled off. Finding and reading the interpreter file is I/O: its bytes are an input.
- Pthread details: each critical section is one atomic step, and so the unlock of a freed record's mutex at the end of fdrelease does not appear.
- FdInterleave.OpenCloseSafety: chdir and fchdir are not among the interleaved steps, because fdget hands out a file without taking a reference; one fchdir at a time, up to where it counts its reference, is in FchdirRace.
- Files.Tux.SpawnProc: processes are never freed, as in the source; loading the program has its own module.
- Futex.PoolRun: the posix host's wait neither compares nor sleeps, and its wake is not implemented; the pool is what is modelled. Waiter counts are unbounded integers.
- ThreadExit.NoLostExit: the futex is the kernel's atomic compare-and-sleep, other threads do not write the joined word, and a tid store is one step even where it is not aligned.
- Dirents.GetDents: a failing fdopendir is left out, and the comparison of errno with zero is taken never to report an error. The directory's entries are an input; their names hold no NUL.
