# Verified models of plooshInit

plooshInit boots a jailbroken iOS userland.  This project models the parts of it that carry algorithms and
proves what they promise.  Every operation that the C code performs in place is a method on arrays or
object fields, proved against a function; the theorems are lemmas about those functions.

- **The dyld rewriter** (`src/fakedyld/patch_dyld`).  A mask matcher visits every `br`/`blr Xn` of a
  function, copies shellcode over a run of zero words in the text section, and overwrites the jump with
  a branch to the copy.  `Machine` is a small-step machine for the A64 instructions involved (ARM DDI
  0487, section C6.2); `Shellcode` runs the two templates on it; `Rewrite` and `Patcher` are the patch
  as a function and in place; `PatchRun` is the invariant of a whole run; `PatchMeaning` says what a
  rewritten image does, and `PatchRoom` when the room and the cache suffice for it.
- **Instruction immediates and address translation** (`plooshfinder`).  `Arm64` and `Xref` relate the
  encoders and decoders of B, BL, ADRP and ADD; `Formats` holds the translations between file pointers
  and virtual addresses of Mach-O, ELF and PE images, and their round trips.
- **The freestanding C library** (`src/fakedyld/lib`).  `Search` (memmem, strstr), `MemOps` (memcpy,
  memmove, memset), `Strtoull`, `Printf` and `Vsnprintf` (integer, character and string conversions into
  a bounded buffer), `Directives` (what directives and digits mean), `Conversions` and `AlternateForm`
  (the text that C17 asks of a directive, and when the output is that text), and `RoundTrip` (the parser
  reads back what the printer wrote).
- **The spawn hook** (`src/systemhook`).  `EnvBuf` is the NULL-terminated environment array, `Paths` the
  colon-separated lists, `SpawnHook` the environment part of `spawn_hook_common`, `SpawnOutcome` what a
  process finds in its environment, and `ResolvePath` the PATH search over an exec and stat oracle.

`Bits` and `Wrappers` hold arithmetic on machine words and the option type.  Machine words are integers
in their range; every wrap-around, truncation and sign extension of the C code is written out.

`dafny verify dfyconfig.toml` checks the project.

## Where the code differs from its intent

The models follow the code.  These differences show in the theorems:

- The cached shellcode location is reused for every `br`, whatever its register, and also after a `blr`
  copy (shellcode.c:50-52): `SharedCacheExact` and `CacheExact` give the exact condition under which
  this is harmless, `SharedShellcodeLost` the failing case, `TwoBranchesLost` an image.
- The `blr` shellcode calls with x29 and x30 on the stack (shellcode.c:20), so that a callee does not find
  its stack-passed arguments where it looks for them: `StackArguments`, `FirstStackArgument`.
- The `blr` shellcode saves x29 and x30 and sets x1 before it reads the target register, the `br`
  shellcode sets x1: `BlrRegisterExact` and `BrRegisterExact`.
- `macho_va_to_ptr` returns the file offset of the segment for its first address, whatever the section
  there says (macho.c:242-244): `MachORoundTrip` gives the condition, `MachORoundTripLost` an image.
- `macho_va_to_ptr` translates a zero-fill section by its file offset 0 (macho.c:250): `SectionTranslates`;
  it dereferences null for an address between the sections of a segment (macho.c:246-248):
  `NoSectionForVa`, as `macho_ptr_to_va` does for any pointer outside them: `NoSectionForPtr`.
- `pf_follow_branch` takes the condition of a B.cond for the low bits of its displacement
  (plooshfinder.c:117-129): `CondBranchExact`.
- `pf_follow_xref` accepts an ADD with a shifted immediate but does not shift it (plooshfinder.c:138-144):
  `XrefExact`.
- `isupper` accepts every character from `Z` upwards only (isupper.c): `LettersExact`, `UpperCaseMisread`.
- After `0x` without digits strtoull gives the start of the text as the end, where C17 section 7.22.1.4 has
  it behind the 0 (stroull.c:63-93): `StrtoullHex`.
- A sign that no longer fits the 32-byte digit buffer is dropped (printf.c:264-274): `PrintThenParse` gives
  the condition, `SignIsLost` an input.
- The digit buffer also cuts `%b` to 32 digits (printf.c:291-298): `ConversionDigitsExact`.
- Digits, sign and zeros beyond the digit buffer are lost, and a left-justified number gets no zeros for
  its precision (printf.c:227-240): `IntegerRound` gives the condition.
- A negative precision counts as 0 (printf.c:641): `NegativePrecision`.
- The flag `#` drops digits of a number that is as long as its field, or one shorter with the flag 0
  (printf.c:243-249): `PrefixExact` and `OctalExact` give the condition, `HashDropsDigits` an input.
- A strip removes one entry of the library list, so that a second one with the hook in it survives
  (common.c:437-440): `StripTokens` gives the condition, `HookSurvives` an environment.
- The loop that rebuilds the search list in a strip walks the list of libraries instead (common.c:473), so
  the search list becomes the libraries without the libroot directory: `LoopText`, `SearchText`.  Without
  a list of libraries, or if its text does not fit the buffer, that loop is undefined.
- A strip does not remove JB_TWEAKLOADER_PATH, and removes the safe-mode variables that caused it
  (common.c:490-494): `StripSettles` gives the condition, `TweakLoaderUnsettled` and `SafeModeUnsettled`
  an environment each.

## Assumptions of the models

- A run of the platform patch starts with nothing cached, a word-aligned image of at most 128 MiB (the
  reach of a branch), a platform below 2^16, and eight words of the image after the text section, which
  the mask matcher may read.  The zero runs that it chooses lie outside the function that it patches;
  `SeparateStart` gives a condition on the image that guarantees this.
- Code is fetched from the image and data memory is separate from it: the stack does not overlap the
  code.  Data memory consists of aligned doublewords, and sp is 16-byte aligned at a call, so
  that the frame record is one pair of them.
- The lookup of the `__text` section by name, the resolution of a veneer, the results of `access`,
  `stat`, `getenv` and of the exec handler, the configuration of the binary and the values of the
  `JB_` globals are parameters.  The values are non-NULL.
- The error numbers and PATH_MAX are Darwin's; their headers are not part of this model.

## Model

| member | source | states |
|---|---|---|
| PatchMeaning.BlrPreserved | src/fakedyld/patch_dyld/patches/platform/shellcode.c:19-48 | A rewritten `blr Xn`, n not 1, 29 or 30: from any state with a 16-byte aligned sp the patched image reaches the entry of the original callee with x1 = (x1 == 10 ? 10 : platform), all other register arguments as in the original call, and x29 and the return address pushed (so that stack-passed arguments lie 16 bytes further from sp); and from every state in which the callee returns with sp and that record as it was given them, two more steps lead to site+4 with sp, x29 and x30 as the original call leaves them |
| PatchMeaning.StackArguments | src/fakedyld/patch_dyld/patches/platform/shellcode.c:19-25 | At the entry of the callee every stack-passed argument keeps its value but lies 16 bytes further from sp, and the first two doublewords at sp are x29 and the return address instead |
| PatchMeaning.FirstStackArgument | src/fakedyld/patch_dyld/patches/platform/shellcode.c:19-25 | The callee finds the first stack-passed argument in its place if and only if it equals the x29 of the caller |
| PatchMeaning.BlrRegisterExact | src/fakedyld/patch_dyld/patches/platform/shellcode.c:19-28 | The `blr` shellcode reads the target register after pushing the frame and adjusting x1, so it keeps the target from every state if and only if n is not 1, 29 or 30 |
| PatchMeaning.BrPreserved | src/fakedyld/patch_dyld/patches/platform/shellcode.c:12-17 | A rewritten `br Xn`, n not 1, in a run where no `br` finds another jump cached: the patched image reaches the state the original instruction leads to, with x1 adjusted and only the flags overwritten besides |
| PatchMeaning.BrRegisterExact | src/fakedyld/patch_dyld/patches/platform/shellcode.c:12-17 | The `br` shellcode keeps the target from every state if and only if n is not 1 |
| PatchMeaning.RewrittenSite | src/fakedyld/patch_dyld/patches/platform/patch.c:14-27 | Every site that a whole run rewrites branches, with the right link bit, to a complete shellcode copy that carries the jump word of that site (for a `br`, in a run where no `br` finds another jump cached) |
| PatchMeaning.SharedCacheExact | src/fakedyld/patch_dyld/patches/platform/shellcode.c:50-52 | When all jumps of the region are rewritten, every site leads to shellcode with its own jump if and only if no `br` finds a different jump cached (the cached location is reused for `br` whatever its register) |
| PatchMeaning.SharedShellcodeLost | src/fakedyld/patch_dyld/patches/platform/shellcode.c:50-52 | The failing case: a `br` that finds a different jump cached does not lead to its own shellcode |
| PatchRoom.TwoBranchesLost | src/fakedyld/patch_dyld/patches/platform/shellcode.c:50-73 | An image on which that happens: two `br` of different registers and room for one copy; both are rewritten, and the second one does not lead to its own shellcode |
| PatchRoom.CacheExact | src/fakedyld/patch_dyld/patches/platform/shellcode.c:50-73 | Whatever room there is: a site that a run rewrites leads to shellcode with its own jump if and only if the cache serves it at its visit, that is, unless it is a `br` and another jump is cached then |
| PatchRoom.RoomForAll | src/fakedyld/patch_dyld/patches/platform/shellcode.c:50-67 | A zero run of the text section, outside the region, of 8 words for each `blr`, 4 for the `br` copy if one is needed, guarantees that a run rewrites every jump |
| PatchRoom.SharedCacheWithRoom | src/fakedyld/patch_dyld/patches/platform/shellcode.c:50-73 | With that room every site leads to shellcode with its own jump if and only if the input has no `br` behind a different cached jump |
| PatchMeaning.PatchedFrame | src/fakedyld/patch_dyld/patches/platform/shellcode.c:50-73 | Frame of a whole run: words change only at jumps of the region or inside copies over zero words outside the region; copies never overlap; a jump is left alone only if no room for its shellcode remains; success is reported if and only if a word of the region changed |
| PatchMeaning.RunHistory | src/fakedyld/patch_dyld/patches/platform/patch.c:29-51 | A run from its start ends in an image explained by a history of copies and rewritten sites |
| PatchMeaning.SeparateStart | src/fakedyld/patch_dyld/plooshfinder/src/plooshfinder.c:160-185 | The condition that the chosen zero runs lie outside the region holds whenever no run of four zero words of the text section meets it |
| PatchMeaning.BranchIsNoJump | src/fakedyld/patch_dyld/patches/platform/patch.c:33-40 | A branch that the patch writes is never itself taken for a register-indirect jump |
| PatchMeaning.CopyIsNoVeneer | src/fakedyld/patch_dyld/plooshfinder/src/plooshfinder.c:86-94 | Neither shellcode template begins like a veneer |
| PatchMeaning.FollowPatched | src/fakedyld/patch_dyld/plooshfinder/src/plooshfinder.c:113-131 | `pf_follow_branch` on a rewritten site returns the start of its shellcode copy, whatever the veneer resolution does |
| PatchRun.ScanKeeps | src/fakedyld/patch_dyld/plooshfinder/src/plooshfinder32.c:10-31 | The run invariant (copies intact and disjoint, sites redirected, all else unchanged, cache and templates consistent) is kept up to every word of the scan |
| PatchRun.VisitKeeps | src/fakedyld/patch_dyld/patches/platform/patch.c:14-27 | One visited word keeps the run invariant, through every path of `copy_shc` and `inject_shc` |
| PatchRun.RoomIsFree | src/fakedyld/patch_dyld/plooshfinder/src/plooshfinder.c:160-185 | A zero run found during the run was zero at the start and touches no earlier copy or site |
| PatchRun.NonzeroCopy | src/fakedyld/patch_dyld/patches/platform/shellcode.c:69-71 | Every word of a copy is nonzero, so that no later search can choose it |
| PatchRun.SeparateIsClear | src/fakedyld/patch_dyld/plooshfinder/src/plooshfinder.c:160-185 | A region that no zero run meets stays clear of every run chosen later |
| Rewrite.FirstZeroRunFits | src/fakedyld/patch_dyld/plooshfinder/src/plooshfinder.c:153-185 | The search yields the first zero run of the range, or none if there is none |
| Rewrite.FilledIs | src/fakedyld/patch_dyld/patches/platform/shellcode.c:36-48 | Filling in the platform and the jump makes the template the shellcode for that jump, also when an earlier copy has filled it already |
| Rewrite.SetPlatformValue | src/fakedyld/patch_dyld/patches/platform/shellcode.c:40 | Or-ing the shifted platform into the move yields `movz x1, platform`, once or repeatedly |
| Patcher.PlatformPatcher.PatchPlatformCheck | src/fakedyld/patch_dyld/patches/platform/patch.c:29-51 | The search over the region with its callback computes the scan function on image, templates, cache and success flag |
| Patcher.PlatformPatcher.InjectShc | src/fakedyld/patch_dyld/patches/platform/patch.c:14-27 | Computes the injection function: the new image, cache, templates and flag, or failure |
| Patcher.PlatformPatcher.CopyShc | src/fakedyld/patch_dyld/patches/platform/shellcode.c:30-74 | Computes the copy function, including reuse of the cached location, the missing section and the missing room |
| Patcher.PlatformPatcher.FindZeroBuf | src/fakedyld/patch_dyld/plooshfinder/src/plooshfinder.c:160-185 | The scan that its first hit disables yields the first zero run |
| Patcher.PlatformPatcher.FillTemplate | src/fakedyld/patch_dyld/patches/platform/shellcode.c:36-48 | Updates the selected template in place as the filling function says |
| Patcher.PlatformPatcher.CopyWords | src/fakedyld/patch_dyld/patches/platform/shellcode.c:69-71 | The copying loop overwrites just the words of the code |
| Patcher.PlatformPatcher.MatchesAt | src/fakedyld/patch_dyld/plooshfinder/src/plooshfinder32.c:19-26 | True if and only if all words match under their masks |
| Patcher.PlatformPatcher.Visit | src/fakedyld/patch_dyld/plooshfinder/src/plooshfinder32.c:14-30 | One round of the matcher: the callback runs if and only if the word is a register-indirect jump |
| Patcher.ZeroRunMatches | src/fakedyld/patch_dyld/plooshfinder/src/plooshfinder.c:166-169 | Matching zeros under full masks finds exactly the zero runs |
| Shellcode.BrRuns | src/fakedyld/patch_dyld/patches/platform/shellcode.c:12-17 | Steps of the `br` shellcode from the redirected site to the register value |
| Shellcode.BlrCalls | src/fakedyld/patch_dyld/patches/platform/shellcode.c:19-25 | Steps of the `blr` shellcode from the redirected site to the callee entry |
| Shellcode.BlrReturns | src/fakedyld/patch_dyld/patches/platform/shellcode.c:26-28 | Steps from the return of the callee to the word after the site |
| Shellcode.CheckRuns | src/fakedyld/patch_dyld/patches/platform/shellcode.c:13-15 | Compare, skip and move leave x1 at 10 or set it to the platform |
| Shellcode.DecodeFrame | src/fakedyld/patch_dyld/patches/platform/shellcode.c:20-26 | The frame words are the pre-indexed push, `mov fp, sp` and the post-indexed pop |
| Shellcode.DecodeMov | src/fakedyld/patch_dyld/patches/platform/shellcode.c:15 | The filled move is `movz x1, platform` |
| Shellcode.DecodeJump | src/fakedyld/patch_dyld/patches/platform/patch.c:33-40 | The jump words decode as `br Xn` and `blr Xn` |
| Arm64.JumpWords | src/fakedyld/patch_dyld/patches/platform/patch.c:33-40 | The two masks select exactly `br Xn` or `blr Xn`, and exactly `br Xn` |
| Arm64.BranchReadsBack | src/fakedyld/patch_dyld/plooshfinder/src/asm/arm64.c:3-17 | For all addresses and both link bits an encoded branch reads back as the sign-extended low 26 bits of the word displacement |
| Arm64.BranchRoundTrip | src/fakedyld/patch_dyld/plooshfinder/src/asm/arm64.c:3-17 | Decoding an encoded branch gives the word-aligned target if and only if the displacement lies in [-2^27, 2^27) |
| Arm64.BranchWords | src/fakedyld/patch_dyld/plooshfinder/src/plooshfinder.c:113-127 | The words that are followed are exactly B.cond (bits 31 to 24 are 0x54, bit 4 is 0), B and BL (bits 30 to 26 are 5) |
| Arm64.CondBranchExact | src/fakedyld/patch_dyld/plooshfinder/src/plooshfinder.c:117-129 | A B.cond is read as the sign-extended low 19 bits of the word, condition included: the right displacement if and only if 31 times its field plus the condition is 0 modulo 2^19 |
| Arm64.AdrpOffsetRange | src/fakedyld/patch_dyld/plooshfinder/src/plooshfinder.c:74-84 | For every word the offset is a multiple of 4096 in [-2^32, 2^32) |
| Arm64.AdrpRoundTrip | src/fakedyld/patch_dyld/plooshfinder/src/plooshfinder.c:74-84 | Reading an encoded ADRP gives back every signed 21-bit page displacement |
| Arm64.AddWordFields | src/fakedyld/patch_dyld/plooshfinder/src/plooshfinder.c:138-144 | An encoded ADD (immediate) passes the mask and its 12-bit immediate is read back |
| Xref.FollowXrefInverts | src/fakedyld/patch_dyld/plooshfinder/src/plooshfinder.c:133-151 | For every instruction address in a file-backed section and every target within page range, following the encoded ADRP and ADD pair gives the translation of the target |
| Xref.XrefExact | src/fakedyld/patch_dyld/plooshfinder/src/plooshfinder.c:143-148 | The computed address is the architectural one if and only if the ADD does not shift a non-zero immediate by 12 (the mask accepts the shift, the code does not apply it) |
| Xref.XrefFaults | src/fakedyld/patch_dyld/plooshfinder/src/plooshfinder.c:133-150 | A pair that lies in no section of a well-formed image makes the code dereference null |
| Xref.XrefRejects | src/fakedyld/patch_dyld/plooshfinder/src/plooshfinder.c:135-141 | Two words that are not an ADRP (bit 31 set, bits 28 to 24 are 16) and a 64-bit ADD immediate (bits 31 to 23 are 0x122) give null |
| Formats.MachOTranslates | src/fakedyld/patch_dyld/plooshfinder/src/formats/macho.c:234-330 | Both translations of every address of every file-backed section of a well-formed image (zero-fill sections may be present), with the `vmaddr == addr` shortcut |
| Formats.MachORoundTripAt | src/fakedyld/patch_dyld/plooshfinder/src/formats/macho.c:234-330 | At one address of a file-backed section the translations undo each other if and only if the shortcut, where taken, agrees with the section offset |
| Formats.MachORoundTrip | src/fakedyld/patch_dyld/plooshfinder/src/formats/macho.c:169-330 | The round trips hold on all file-backed sections if and only if every non-empty one that starts its segment in memory also starts it in the file |
| Formats.MachORoundTripLost | src/fakedyld/patch_dyld/plooshfinder/src/formats/macho.c:234-251 | A well-formed image on which the round trip fails: its section starts the segment in memory but not in the file |
| Formats.SegmentStartTranslates | src/fakedyld/patch_dyld/plooshfinder/src/formats/macho.c:242-243 | The first address of every non-empty segment of a well-formed image is translated by the file offset of the segment, whether a section lies there or not |
| Formats.SectionTranslates | src/fakedyld/patch_dyld/plooshfinder/src/formats/macho.c:246-250 | Every other address of a section is translated by the file offset of the section, also by the 0 of a zero-fill section |
| Formats.NoSegmentForVa | src/fakedyld/patch_dyld/plooshfinder/src/formats/macho.c:239-241 | An address in no segment of a well-formed image has no pointer |
| Formats.NoSectionForVa | src/fakedyld/patch_dyld/plooshfinder/src/formats/macho.c:246-250 | An address in a segment that is neither its first nor in one of its sections makes the code dereference null |
| Formats.NoSectionForPtr | src/fakedyld/patch_dyld/plooshfinder/src/formats/macho.c:302-330 | A pointer into no segment of the file, or into no section of its segment, makes the code dereference null |
| Formats.NotMachO | src/fakedyld/patch_dyld/plooshfinder/src/formats/macho.c:234-237 | What is not a Mach-O image has neither pointers nor addresses |
| Formats.SegmentFound | src/fakedyld/patch_dyld/plooshfinder/src/formats/macho.c:169-195 | In a well-formed image both segment lookups find the one segment that qualifies |
| Formats.SectionFound | src/fakedyld/patch_dyld/plooshfinder/src/formats/macho.c:197-214 | Both section lookups find the one section that qualifies, if it is file-backed |
| Formats.FindSegmentForVa | src/fakedyld/patch_dyld/plooshfinder/src/formats/macho.c:169-195 | The loop finds the first segment that contains the address, or none |
| Formats.FindSectionForVa | src/fakedyld/patch_dyld/plooshfinder/src/formats/macho.c:197-214 | The loop finds the first section that contains the address, or none |
| Formats.FindSegmentForPtr | src/fakedyld/patch_dyld/plooshfinder/src/formats/macho.c:253-280 | The loop finds the first segment that contains the pointer, or none |
| Formats.FindSectionForPtr | src/fakedyld/patch_dyld/plooshfinder/src/formats/macho.c:282-300 | The loop finds the first section that contains the pointer, or none |
| Formats.ElfTranslateVa | src/fakedyld/patch_dyld/plooshfinder/src/formats/elf.c:51-73 | The loop translates by the first loaded header that contains the address |
| Formats.ElfTranslatePtr | src/fakedyld/patch_dyld/plooshfinder/src/formats/elf.c:75-101 | The loop translates by the first loaded header that contains the pointer |
| Formats.ElfRoundTrip | src/fakedyld/patch_dyld/plooshfinder/src/formats/elf.c:51-101 | On the file range of every loaded header the translations undo each other in both directions |
| Formats.ElfMisses | src/fakedyld/patch_dyld/plooshfinder/src/formats/elf.c:51-101 | An address, or pointer, of no loaded header gives 0 |
| Formats.PeTranslateVa | src/fakedyld/patch_dyld/plooshfinder/src/formats/pe.c:103-123 | The loop translates by the first section that contains the address |
| Formats.PeTranslatePtr | src/fakedyld/patch_dyld/plooshfinder/src/formats/pe.c:125-146 | The loop translates by the first section that contains the pointer |
| Formats.PeVaTranslates | src/fakedyld/patch_dyld/plooshfinder/src/formats/pe.c:103-123 | Every address in the memory of a section of a well-formed image is translated to the byte as far behind the start of its raw data |
| Formats.PePtrTranslates | src/fakedyld/patch_dyld/plooshfinder/src/formats/pe.c:125-146 | Every pointer into the raw data of a section is translated to the address as far behind the start of the section |
| Formats.PeMisses | src/fakedyld/patch_dyld/plooshfinder/src/formats/pe.c:103-146 | An address, or pointer, of no section gives 0 |
| Formats.PeRoundTrip | src/fakedyld/patch_dyld/plooshfinder/src/formats/pe.c:103-146 | On the overlap of virtual and raw size of every section the translations undo each other in both directions |
| Formats.AnyRoundTrip | src/fakedyld/patch_dyld/plooshfinder/src/formats/multi.c:10-40 | For all three formats an address and a pointer that the tables relate translate into each other |
| Formats.UnknownHasNone | src/fakedyld/patch_dyld/plooshfinder/src/formats/multi.c:10-40 | A binary of no known format has neither pointers nor addresses |
| Search.Memmem | src/fakedyld/lib/memmem.c:59-84 | Returns the first occurrence or none, on both paths |
| Search.BoyerMooreHorspool | src/fakedyld/lib/memmem.c:4-57 | Returns the first occurrence or none; the remaining length never underflows and the loop ends |
| Search.ShiftIsSafe | src/fakedyld/lib/memmem.c:52-53 | A shift by the table passes over no occurrence |
| Search.ShiftTable | src/fakedyld/lib/memmem.c:22-31 | Every shift is at least 1, at most the length, and never past an earlier copy of its byte |
| Search.MatchesBackwards | src/fakedyld/lib/memmem.c:39-41 | The backward comparison decides occurrence |
| Search.Backtrack | src/fakedyld/lib/memmem.c:72-83 | The single loop that backs up on a mismatch finds the first occurrence or none |
| Search.Strstr | src/fakedyld/lib/strstr.c:3-31 | Returns the first occurrence of the one C string in the other: the same reference search as `memmem` |
| Search.MemmemIsStrstr | src/fakedyld/lib/strstr.c:3-31 | On texts without NUL the two searches have the same result |
| Search.MatchHere | src/fakedyld/lib/strstr.c:19-27 | The inner loop decides whether the substring follows |
| Search.FindIsFirst | src/fakedyld/lib/memmem.c:59-84 | The reference search is the least position with an occurrence, and none if there is no occurrence |
| MemOps.Memcpy | src/fakedyld/lib/memcpy.c:3-20 | For all, also overlapping, ranges the destination holds the old source bytes and every other byte is unchanged |
| MemOps.Memmove | src/fakedyld/lib/memcpy.c:22-25 | The same for `memmove` |
| MemOps.Memset | src/fakedyld/lib/memset.c:6-65 | Every byte of the range becomes c mod 256 and no other byte changes, for every length and alignment |
| MemOps.FillBytes | src/fakedyld/lib/memset.c:15-64 | Head stores, tail stores and the aligned word loop leave no gap |
| MemOps.FillWordBytes | src/fakedyld/lib/memset.c:55-56 | The fill word has the byte in all four places |
| Strtoull.Strtoull | src/fakedyld/lib/stroull.c:40-94 | The imperative parser computes the parsing function: value and end index, in every base |
| Strtoull.Accumulate | src/fakedyld/lib/stroull.c:67-85 | The digit loop with cutoff and cutlim computes the folding function |
| Strtoull.CutoffExact | src/fakedyld/lib/stroull.c:67-84 | The cutoff test fires if and only if the next value exceeds 64 bits |
| Strtoull.ConvertExact | src/fakedyld/lib/stroull.c:69-85 | Over any digits that something stops, the loop computes their value or saturates, and ends behind them |
| Strtoull.StrtoullExact | src/fakedyld/lib/stroull.c:51-93 | White space (the characters 9 to 13 and 32), sign and decimal digits below the base, in any explicit base but 16: the mathematical value, negated modulo 2^64 after a minus, or ULLONG_MAX if it does not fit; the end is the first non-digit, or the start without digits (C17 section 7.22.1.4) |
| Strtoull.StrtoullDetects | src/fakedyld/lib/stroull.c:59-93 | The same in the bases 0 and 16 for a text without `0x`: base 0 reads a leading 0 as octal, else decimal |
| Strtoull.StrtoullHex | src/fakedyld/lib/stroull.c:59-93 | The same in the bases 0 and 16 behind `0x` or `0X`, except that without digits the end is the start of the text |
| Strtoull.LettersExact | src/fakedyld/lib/isupper.c:1-3 | A character is read as C17 section 7.22.1.4 says if and only if it is none of the capital letters up to Y (X in base 2) and no lower-case digit of the base |
| Strtoull.StopsExact | src/fakedyld/lib/stroull.c:72-78 | A character ends the number if and only if it is no decimal digit of the base, none of the capital letters up to Y (X in base 2), and not Z in base 36 |
| Strtoull.LetterDigits | src/fakedyld/lib/stroull.c:72-76 | The digit that every letter is read as: -22 to 2 for A to Y, 35 for Z, 42 to 67 for lower case |
| Strtoull.UpperCaseMisread | src/fakedyld/lib/stroull.c:72-73 | A text for which the value is wrong because of `isupper` |
| Vsnprintf.Vsnprintf | src/fakedyld/lib/printf.c:577-857 | For every supported format and argument list and every size: the return value is the length of the complete output; the buffer holds as much of it as fits and a NUL; no byte behind that changes; lengths from 2^31 on wrap around as an `int` (C17 section 7.21.6.5) |
| Vsnprintf.Format | src/fakedyld/lib/printf.c:587-850 | The format loop writes the complete output, cut off at the size |
| Vsnprintf.OutOne | src/fakedyld/lib/printf.c:683-849 | Each conversion writes the text of its specification |
| Vsnprintf.OutString | src/fakedyld/lib/printf.c:796-820 | A string conversion writes the clipped and padded string |
| Vsnprintf.OutCharacter | src/fakedyld/lib/printf.c:776-794 | A character conversion writes the padded character |
| Vsnprintf.OutInteger | src/fakedyld/lib/printf.c:683-756 | An integer conversion writes sign, magnitude and padding by its base and argument type |
| Vsnprintf.Ntoa | src/fakedyld/lib/printf.c:280-327 | Digit loop and formatting together write the specified text |
| Vsnprintf.NtoaFormat | src/fakedyld/lib/printf.c:227-277 | Padding, `#` and sign inside the digit buffer, never past its 32 bytes |
| Vsnprintf.FillDigits | src/fakedyld/lib/printf.c:291-298 | The digit loop fills in the digits, least significant first, and stays in the buffer |
| Vsnprintf.OutRev | src/fakedyld/lib/printf.c:199-223 | Writes the digit buffer in reverse with its padding |
| Vsnprintf.ReadDirective | src/fakedyld/lib/printf.c:601-680 | Reads flags, width, precision and length as the parsing function says |
| Printf.RoundRenders | src/fakedyld/lib/printf.c:587-850 | The complete output is the text of the first round, a character or a directive, and then the output of the rest |
| Vsnprintf.WrittenThen | src/fakedyld/lib/printf.c:133-138 | Two bounded writes in sequence are one bounded write of the concatenation |
| Directives.DirectiveParses | src/fakedyld/lib/printf.c:601-680 | Every directive written by the syntax of C17 section 7.21.6.1 is read back: its flags, width and precision as the value of their digits modulo 2^32 or from the arguments (a negative width left-justifies, a negative precision counts as 0), its length modifier, its end and the arguments used |
| Directives.NumberParses | src/fakedyld/lib/printf.c:187-195 | The number reader computes the value of the digits modulo 2^32 |
| Directives.FlagsParse | src/fakedyld/lib/printf.c:601-612 | The flag loop collects exactly the flags written, in any order and number |
| Directives.DigitsExact | src/fakedyld/lib/printf.c:291-298 | In every base the digits denote the number if and only if the digit buffer has room for all of them |
| Directives.ConversionDigitsExact | src/fakedyld/lib/printf.c:280-327 | In the base of each conversion character, of 64-bit numbers only `%b` can lose digits, and does if and only if the number is 2^32 or more |
| Conversions.DirectiveReads | src/fakedyld/lib/printf.c:601-680 | The options of a directive as they are written: flag characters, width, precision, the size of the type that the length names, and an argument for each `*` |
| Conversions.IntegerRound | src/fakedyld/lib/printf.c:682-756 | An integer directive anywhere in a format takes one argument of the size and signedness of its type, and its output is the text of C17 section 7.21.6.1 in the base of its character (10 for d, i, u; 16 for x, X; 8 for o; 2 for b), capital for X, if and only if that fits (`Fitting`: digits and sign in 32 characters, no precision zeros in a left-justified field) |
| Conversions.NtoaExact | src/fakedyld/lib/printf.c:227-327 | The same for `_ntoa` with any base, sign, precision, width and flags but `#` |
| Conversions.UsualFits | src/fakedyld/lib/printf.c:227-327 | Every directive of at most 31 columns and digits fits, but for binary numbers of more than 32 digits and a precision in a left-justified field |
| Conversions.CharacterRound | src/fakedyld/lib/printf.c:776-794 | A character directive takes one argument and puts its low byte in the field |
| Conversions.StringRound | src/fakedyld/lib/printf.c:796-820 | A string directive puts the string, cut off at the precision, in the field |
| Conversions.PointerRound | src/fakedyld/lib/printf.c:822-838 | A pointer directive puts the 64 bits as capital hexadecimal digits in a field of 16 that zeros fill, if and only if that fits |
| Conversions.OtherRound | src/fakedyld/lib/printf.c:840-849 | Any other character behind the parts of a directive, `%` among them, stands for itself and takes no argument |
| Conversions.Unsupported | src/fakedyld/lib/printf.c:757-775 | Floating-point conversions and directives that the format cuts off are outside |
| Conversions.PlainRenders | src/fakedyld/lib/printf.c:587-594 | Text without directives is copied, and what follows it is unchanged by it |
| Conversions.TextThenHex | src/fakedyld/main/fakedyld.c:89-90 | A text and `%llx`, as in `JB_PINFO_FLAGS=0x%llx`, gives the text and the shortest lower-case hexadecimal numeral of the argument |
| Conversions.NegativePrecision | src/fakedyld/lib/printf.c:639-642 | An input on which a negative precision shows: `%.*d` with -1 and 0 prints nothing, where C17 section 7.21.6.1 asks for 0 |
| AlternateForm.PrefixExact | src/fakedyld/lib/printf.c:242-262 | With `#`, a hexadecimal or binary number other than 0 is printed with its prefix as it is asked for if and only if both fit the buffer and no digit is dropped for the prefix (`PrefixFits`) |
| AlternateForm.OctalExact | src/fakedyld/lib/printf.c:242-262 | With `#`, an octal number other than 0 is printed with a leading 0 as it is asked for if and only if the precision has not put one there and no digit is dropped (`OctalFits`) |
| AlternateForm.HashDropsDigits | src/fakedyld/lib/printf.c:243-249 | An input on which digits are dropped: `%#3x` with 0x123 does not print 0x123 |
| Directives.OutRevJustifies | src/fakedyld/lib/printf.c:199-223 | A number is justified in its field, by blanks on the right side or the left, unless zeros are to fill it |
| Directives.PadTextJustifies | src/fakedyld/lib/printf.c:776-820 | Strings and characters are justified in their field |
| RoundTrip.PrintThenParse | src/fakedyld/lib/printf.c:682-755 | For every decimal 64-bit directive with any flags, width and precision, parsing the output gives back the bits of the argument if and only if the sign is not lost in the digit buffer; where it is lost the magnitude comes back |
| RoundTrip.SignIsLost | src/fakedyld/lib/printf.c:264-274 | An input on which that happens: `%.32lld` prints -1 as 32 digits that read back as 1 |
| RoundTrip.FillsExact | src/fakedyld/lib/printf.c:227-274 | The sign finds no room in the digit buffer if and only if the field is not left-justified and has a precision of 32 or more or a zero-padded width of 33 or more |
| RoundTrip.DecimalReads | src/fakedyld/lib/printf.c:280-327 | Parsing the output of a decimal conversion gives the magnitude, negated if the sign was printed |
| RoundTrip.DecimalShape | src/fakedyld/lib/printf.c:199-327 | Every decimal output is blanks, an optional sign character, digits that denote the magnitude, blanks |
| RoundTrip.DigitsDenote | src/fakedyld/lib/printf.c:291-298 | The digits, in reading order, denote the value |
| EnvBuf.EnvBuffer.SetEnv | src/systemhook/envbuf.c:75-105 | In place or in a grown array: the new contents are those of the set function, NULL-terminated, also from a NULL array |
| EnvBuf.EnvBuffer.UnsetEnv | src/systemhook/envbuf.c:107-123 | Shifts and shrinks: the new contents are those of the unset function, NULL-terminated |
| EnvBuf.FindEnv | src/systemhook/envbuf.c:42-61 | The index of the first entry of the name, or -1 |
| EnvBuf.GetEnv | src/systemhook/envbuf.c:63-73 | The value of the first entry of the name, or NULL |
| EnvBuf.Length | src/systemhook/envbuf.c:4-14 | The number of entries and the terminator; 1 for NULL |
| EnvBuf.MutCopy | src/systemhook/envbuf.c:16-29 | A fresh array with the same entries; NULL for NULL |
| EnvBuf.SetLaw | src/systemhook/envbuf.c:75-105 | Set then get returns the value; all other entries, and their order, are unchanged |
| EnvBuf.UnsetLaw | src/systemhook/envbuf.c:107-123 | Unset removes the first entry of the name and keeps all others in order |
| EnvBuf.EntryPlaces | src/systemhook/envbuf.c:75-123 | The first entry of a name is replaced in its place and removed from it; a new entry goes behind all others |
| EnvBuf.UnsetThenGet | src/systemhook/envbuf.c:107-123 | After an unset the name is absent if and only if it had at most one entry |
| EnvBuf.SetOthers | src/systemhook/envbuf.c:75-105 | For names without `=` a set leaves the entries and the value of every other name |
| EnvBuf.UnsetOthers | src/systemhook/envbuf.c:107-123 | The same for an unset |
| EnvBuf.RunKeepsUnique | src/systemhook/envbuf.c:75-123 | At most one entry per name is kept by every sequence of operations |
| EnvBuf.RunRefinesMap | src/systemhook/envbuf.c:63-123 | Under that invariant the buffer is a map: after any sequence of operations each variable is what its last operation made it |
| SpawnHook.SpawnEnvironment | src/systemhook/common.c:298-499 | The environment that the spawned process gets is that of the specification, in all three branches, with both rebuilding loops of a strip; the array of the caller is unchanged, and handed on in the pass-through branch |
| SpawnOutcome.AllowedInjects | src/systemhook/common.c:340-435 | With no reason against it (the configuration allows it, the first entries of _SafeMode and _MSSafeMode are not "1", no driver, the hook exists) the process gets, entry by entry, both lists with their library in front unless listed, the four variables, and all else as it was; an environment with all six is passed on as it is |
| SpawnOutcome.SafeModeStrips | src/systemhook/common.c:349-364 | Where the configuration allows the hook and the first entry of _SafeMode or of _MSSafeMode is "1", the process gets the stripped environment, entry by entry: the libraries taken out of both lists, one entry of five variables removed, all else as it was |
| SpawnOutcome.ForbiddenStrips | src/systemhook/common.c:340-382 | Where the configuration, a driver or the missing hook forbids it, the process gets the stripped environment if any of the six is there, and otherwise its own |
| SpawnOutcome.CountMeans | src/systemhook/common.c:298-336 | The count is six if and only if both lists have their library and all four variables are there, and 0 if and only if nothing of that is |
| SpawnHook.InjectFixpoint | src/systemhook/common.c:401-435 | Whenever the hook injects, running it again on the environment it produced finds all six variables, passes through and changes nothing |
| SpawnHook.InjectTokens | src/systemhook/common.c:411-419 | The new library list is the old one, with the hook in front if it was missing |
| SpawnHook.Injected | src/systemhook/common.c:410-435 | After an injection the count is six, and both lists begin with their library or had it already |
| SpawnHook.InjectKeepsOthers | src/systemhook/common.c:410-435 | Every variable outside the six has the same entries and value |
| SpawnHook.InjectThenStrip | src/systemhook/common.c:410-463 | Stripping after injecting restores the library tokens of an environment without the hook, or the absence of the variable |
| SpawnHook.StripTokens | src/systemhook/common.c:436-463 | A strip leaves exactly the other libraries, in order, or the second entry of the list if the first is the hook alone; the hook is gone if and only if it is not that such a second entry lists it |
| SpawnHook.HookSurvives | src/systemhook/common.c:437-440 | An environment with two entries that are the hook alone: the hook is still there after a strip |
| SpawnHook.StripSearches | src/systemhook/common.c:464-488 | The libroot directory is listed after a strip if and only if the second loop has run and its text lists it |
| SpawnHook.LoopTextLists | src/systemhook/common.c:473-485 | Where the second loop is defined its text does not list the libroot directory |
| SpawnHook.SearchText | src/systemhook/common.c:470-485 | The second loop: the list of libraries, as written, without the libroot directory, in a buffer of the size of the search list |
| SpawnHook.StripSettles | src/systemhook/common.c:401-495 | A stripped environment is left alone by the next run if and only if something other than safe mode forbids injection, JB_TWEAKLOADER_PATH was not set, and the second loop was not run where it is undefined and left the libroot directory behind |
| SpawnHook.SafeModeUnsettled | src/systemhook/common.c:490-491 | An environment that does not settle: only the safe-mode variable forbade the injection, and the strip removes it |
| SpawnHook.TweakLoaderUnsettled | src/systemhook/common.c:490-494 | An environment that does not settle: JB_TWEAKLOADER_PATH stays set |
| SpawnHook.StripClears | src/systemhook/common.c:490-494 | A strip removes one entry of each of the five cleared names |
| SpawnHook.StripKeepsOthers | src/systemhook/common.c:436-495 | Every other variable is unchanged by a strip, JB_TWEAKLOADER_PATH among them |
| SpawnHook.Inspect | src/systemhook/common.c:298-336 | Finds both lists, whether they hold their library, and the count |
| SpawnHook.Decide | src/systemhook/common.c:340-382 | Decides whether to inject, and whether safe mode is the reason |
| SpawnHook.UnhookVariable | src/systemhook/common.c:437-463 | Removes the list that is just the hook, rebuilds any other in a buffer of its own size |
| SpawnHook.DeployedIsSane | src/systemhook/common.c:298-336 | The names and paths in use are distinct, free of `=`, and single tokens, as the theorems ask |
| Paths.Contains | src/systemhook/common.c:182-193 | The enumeration sees the library if and only if it is a token |
| Paths.Rebuild | src/systemhook/common.c:442-461 | The rebuilt list, written token by token into a buffer in which it fits, holds the other tokens joined by colons |
| Paths.RebuiltFits | src/systemhook/common.c:442-461 | A rebuilt list fits `strlen(existing)+1` bytes |
| Paths.RebuiltTokens | src/systemhook/common.c:182-193 | Reading back a rebuilt list gives the other tokens, in order |
| Paths.DropSplits | src/systemhook/common.c:447-458 | What is dropped from a list is decided token by token |
| Paths.DropAlone | src/systemhook/common.c:447-458 | A single token is dropped if and only if it is the library |
| Paths.TokensSplit | src/systemhook/common.c:182-193 | A colon separates the tokens before it from those after it |
| Paths.Strtok | src/systemhook/common.c:182-193 | One step of the enumeration delivers the next token |
| Paths.PrependInBuffer | src/systemhook/common.c:411-419 | The list with the library in front fits its buffer exactly |
| ResolvePath.Resolver | src/systemhook/common.c:81-180 | The imperative search computes the functional search for every handler and stat oracle; every path it builds fits the buffer |
| ResolvePath.ResolveWithoutFinal | src/systemhook/common.c:117-177 | If no candidate ends the search, by the error numbers (7, 8, 12 and 26 always do; 2, 20, 62 and 63 never; of a file that exists every other result but 13), all are tried in list order, and the result is 13 (EACCES) if and only if a file that exists gave 13, otherwise 2 (ENOENT) |
| ResolvePath.ResolveFirstFinal | src/systemhook/common.c:144-172 | The first such ending result, success included, is the result of the search, and no candidate behind it is tried |
| ResolvePath.ResolveTooLong | src/systemhook/common.c:135-138 | A candidate path of 1024 characters or more, not counting its NUL, ends the search with 63 (ENAMETOOLONG) before it is tried |
| ResolvePath.ResolveDirect | src/systemhook/common.c:81-116 | A name with a slash is tried once whatever the list, and the empty name gives 2 (ENOENT) untried |
| ResolvePath.ComponentsExact | src/systemhook/common.c:117-127 | The components are the colon-free texts that colons join to the list, empty ones included |
| ResolvePath.Strsep | src/systemhook/common.c:117 | Delivers the next component and the place after its colon |
| ResolvePath.BuildPath | src/systemhook/common.c:139-142 | Directory, slash, file and NUL are written inside the path buffer |

## Left out

- Floating-point conversions of printf (`_ftoa`, `_etoa`): approximate arithmetic. A format that uses them, or that ends inside a directive, is not supported.
- The null, character and function sinks of printf, a null buffer, and `sprintf_`, whose unlimited size gives no bound: only writing into a sized buffer is modelled.
- String arguments of 2^32 bytes and more, for which the `unsigned` length in printf wraps around.
- AlternateForm.PrefixExact: the prefix 0b of binary numbers is an extension that C17 does not have; the claim asks for it as for 0x.
- PatchMeaning.FollowPatched: the address that a veneer leads to is a parameter, because no shellcode copy is a veneer.
- Strtoull.StrtoullExact: leaves out letter digits, as do `StrtoullDetects` and `StrtoullHex`; `LettersExact` says which letters are misread.
- MemOps.Memcpy: lengths from 2^31 on, for which the `int` position overflows.
- Patcher.PlatformPatcher.PatchPlatformCheck: the generic matcher with several patches and arbitrary callbacks is specialised to its two uses, the jump search and the search for zero words.
- Search.BoyerMooreHorspool: null pointers; the empty needle is included.
- SpawnHook.SearchText: where the loop that rebuilds DYLD_LIBRARY_PATH is undefined (no list of libraries, or its text does not fit the buffer) the text that it leaves behind is the parameter `undef`.
- SpawnHook.SpawnEnvironment: models the environment only. The path replacement for blacklisted loaders, the Jetsam limits, the binary configuration table, a null path, allocation failure and the call of the original function are not modelled.
- EnvBuf.MutCopy: strings are values, so `strdup`, `free` and the aliasing of strings are not captured; arrays are replaced and updated in place. `realloc` is modelled as a new array.
- ResolvePath.Resolver: `alloca` never fails, and the handler and stat answer as functions of the number of the attempt and its path.
- Parsing of the Mach-O, ELF and PE headers: the command and section tables are sequences.
- The fileset variants, symbol lookups, `pf_find_next` and `pf_find_prev`, `strtoul` (a copy of `strtoull`), the other dyld patches, and `patch_platform_check_new`: duplicates or straight-line code.
- Mounts, APFS, XPC, spawning, launchd messaging, bootstrap, snapshots, IOKit, drawing and hooking libraries: input and output or foreign calls.
