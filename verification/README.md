# UMKO, verified

UMKO is a user-mode loader for relocatable ELF objects: it lays out the sections of each object,
copies them into one image, binds symbols across objects through a process-wide table, patches
instructions and data for their addresses, protects the read-only part of the image, and picks an
entry point. This project models that pipeline for AArch64, its x86-64 relocation function, and the
small printf that the AArch64 example programs carry, and proves what they are for.

`dafny verify dfyconfig.toml` checks everything.

## How it is built

Words are integers with explicit 32- and 64-bit wrap-around (`Bits`); masks, shifts and
complements are the bitwise operations of the code, and the bridge to arithmetic is proved.
Every member of the source that changes memory or fields is a method on an object
(`Memory.Image`, `Layout.ModuleLayout`, `Loader.Module`, `Symbols.SysEnv`, `Host.Env`,
`Digits.Sink`), proved equal to a function of the old state; the theorems are about those functions.

| Module | Content |
|---|---|
| `Bits`, `Memory` | bit operations, fields, sign extension; little-endian cells in a byte image |
| `Insn`, `Reloc` | instruction classes, immediate encoder, the relocation functions and their dispatch |
| `Decode`, `Resolve`, `Formulas`, `Chains` | what patched A64 words compute (Arm Architecture Reference Manual, section C6.2), when that is the formula of the ELF relocation table (IHI 0056B, section 4.6), type by type, and instruction sequences that build one address |
| `Pass`, `Linking` | whole relocation passes over an image: correctness, order, position, code run from the final bytes |
| `Replay` | passes over places that may overlap, bit by bit, and when a second pass changes nothing |
| `X86`, `X86Pass` | the x86-64 relocation function and whole passes of it |
| `Elf`, `Layout`, `LayoutSafety`, `LayoutExact`, `LayoutHeaders`, `Loading` | section layout, exactly when it is safe, what it is in the headers' own terms, and the image it leads to |
| `Symbols`, `Loader`, `Host` | symbol table, one module's load, and runs of registrations and loads |
| `Moving` | one object loaded at two bases |
| `Example` | a one-call program carried through every step |
| `Digits`, `Reading`, `Printf`, `Formats` | integer printing, reading it back, the format interpreter, and what formats print in their own characters |

Three results about one module compose: `LayoutSafety.LayoutSafe` makes the sections disjoint,
`Loading.LayoutIsRoomy` and `Loading.ImageExact` turn that into the contents of the image, and
`Linking.LinkCorrect` gives the meaning of the patched places (`Loader.FinalContents` that of all other bytes); `Loader.Module.LoadModule` ties the code
to all three, and `Host.EntryResolved` carries the result through a whole run; `Example.CallReachesHost`
shows its assumptions met by a program. The status of an entry is a function of its type, place and
value alone (`Pass.Fixup.Outcome`), so it is the same in every order and on every replay.

Where the code does not do what one would hope, the exact condition is proved (if and only if), and a
lemma gives an input that fails:

* The layout the 32-bit code computes has its sections aligned, disjoint and inside the image exactly
  when every offset of the exact layout and its page boundary are below 2^32
  (`LayoutExact.SafeExactly`, for all headers), which is also exactly when it agrees with unbounded
  arithmetic (`LayoutSafety.WrapExact`); `LayoutSafety.WrapOverlaps` is an overlap.
* Replaying a pass changes nothing exactly when, at each bit, a last writer that is new in the second
  pass (because the encoder refuses other words there) gives the bit the value it has
  (`Replay.ReplayExact`); a pass can create or destroy the word the encoder refuses
  (`Replay.ReplayNeedsApart`). That condition is computed along both passes. It holds when the encoder
  refuses the same entries in both (`Replay.ReplaySameRefusals`), and, by a condition on the entries
  alone that is sufficient and not necessary, when no place of an instruction overlaps another place
  (`Replay.Replay`): two branch entries on one place, say, are harmless too. On x86-64 a second pass never
  changes anything (`X86Pass.Replay`).
* Branches and literal loads do not check alignment: they reach S+A exactly when the relocation
  returned 0 and the distance is a multiple of 4 (`Formulas.BranchReaches`, `Example.MisalignedCall`).
* x86-64 `PC32` and `PLT32` always succeed on a zero cell, and reach their target exactly when the
  distance fits 32 signed bits (`X86.RelativeExact`, `X86.RelativeMisses`).
* With both padding flags, a printed integer is followed by zeros and reads back as another
  number, unless there is nothing to fill or it is zero (`Reading.RoundTrip`, `Reading.RoundTripFails`).
* The 64-byte digit buffer holds a binary number exactly when it is not negative
  (`Digits.BufferSuffices`, `Digits.BinaryOverruns`).
* `my_printf` writes the whole text exactly when the format has no literal newline
  (`Printf.MyPrintf`, `Printf.NewlineLost`).

## Model

| member | source | states |
|---|---|---|
| Insn.ImmMask | arch/aarch64/reloc.cpp:143-199 | the code's table gives every immediate type the position and width that the architecture gives its field |
| Decode.ImmFields | arch/aarch64/insn.h:293-362 | the fields the encoder writes are those the decoders read, at literal bit positions, for every type a relocation writes |
| Insn.EncodeReads | arch/aarch64/reloc.cpp:206-237 | for every immediate type and every word but the fault marker, the field read back from the encoded word, split ADR field included, is the immediate truncated to its width |
| Insn.EncodeKeeps | arch/aarch64/reloc.cpp:232-236 | encoding leaves every bit outside the immediate field alone, for any mask clear of that field |
| Insn.EncodeIsSetField | arch/aarch64/reloc.cpp:143-199 | the mask-and-or update by shift-and-mask table is an arithmetic field assignment at the position and width of the immediate type |
| Insn.EncodeAdr | arch/aarch64/reloc.cpp:216-224 | the ADR update writes the low two bits of the immediate at bit 29 and the next nineteen at bit 5, and nothing else |
| Insn.EncodeTwice | arch/aarch64/reloc.cpp:206-237 | encoding the same immediate twice is encoding it once, fault marker included |
| Reloc.PageMask | arch/aarch64/reloc.cpp:76-77 | clearing the low twelve bits of an address gives the start of its 4 KiB page |
| Reloc.ImmMaskTrick | arch/aarch64/reloc.cpp:291-293 | the shifted difference of powers of two is exactly the mask of len ones |
| Reloc.OverflowTestExact | arch/aarch64/reloc.cpp:299-310 | the mask, shift and unsigned comparison report overflow if and only if the shifted value is outside [-2^(len-1), 2^(len-1)) |
| Reloc.MovwImmRange | arch/aarch64/reloc.cpp:249-275 | the 16-bit test on the possibly inverted immediate accepts a group exactly when the value lies in the range of the group, signed or unsigned |
| Reloc.RelocData | arch/aarch64/reloc.cpp:84-141 | writes the value truncated to the cell, whether or not it fits, changes no other byte, and returns -ERANGE exactly when it does not fit |
| Reloc.RelocInsnMovw | arch/aarch64/reloc.cpp:239-278 | writes the patched wide move before the range is known and returns the exact range verdict |
| Reloc.RelocInsnImm | arch/aarch64/reloc.cpp:280-313 | writes the low bits of the shifted value into the immediate field and returns -ERANGE exactly when the shifted value does not fit as a signed number |
| Reloc.RelocInsnAdrp | arch/aarch64/reloc.cpp:315-335 | always the page relocation, since no place is forbidden to ADRP |
| Reloc.DoRelocateAdd | arch/aarch64/reloc.cpp:337-538 | for every type: the image becomes the patch its table entry describes, with the status of that type's overflow policy; unchecked types always return 0; unknown types return nonzero, and they and NONE change nothing |
| Decode.TargetsNotFault | arch/aarch64/reloc.cpp:212-213 | an instruction of a class that a relocation is for is never the word the encoder refuses |
| Decode.OpcodeChoosesClass | arch/aarch64/reloc.cpp:255-267 | rewriting the opcode of a MOVZ or MOVN makes it MOVZ if and only if the value is not negative, and MOVN otherwise, in the same 16-bit group |
| Decode.EncodeKeepsClass | arch/aarch64/insn.h:293-362 | encoding an immediate keeps the instruction in the class its relocation is for |
| Decode.PatchKeepsRest | arch/aarch64/reloc.cpp:239-313 | the frame of a whole relocation, on any word: every mask clear of the immediate, and for signed groups of bits 29 and 30, sees the same bits before and after |
| Decode.PatchKeepsClass | arch/aarch64/reloc.cpp:239-313 | a whole relocation keeps its instruction in class and away from the fault marker, changes no bit outside the immediate and a signed group's opcode, and makes a signed wide move MOVZ exactly for values that are not negative |
| Resolve.WordOffset | arch/aarch64/reloc.cpp:280-313 | a scaled PC-relative field sign-extends back to the target (rounded towards the place's alignment) if and only if the word distance fits the field, all modulo 2^64 |
| Resolve.PageOffset | arch/aarch64/reloc.cpp:315-321 | a 21-bit page field added to the page of the place gives the page of S+A if and only if the page distance fits |
| Resolve.BranchExact | arch/aarch64/reloc.cpp:508-523 | a patched B, BL, CBZ, CBNZ, B.cond, TBZ, TBNZ or literal load goes to S+A less (S+A-P) modulo 4, if and only if the distance fits; when that is S+A itself is `Formulas.BranchReaches` |
| Resolve.WideExact | arch/aarch64/reloc.cpp:376-454 | a patched MOVZ, MOVN or MOVK carries its group of the value (signed groups: evaluates to the value's upper part) if and only if the group is unchecked or the value fits |
| Resolve.ResolvedExactly | arch/aarch64/reloc.cpp:337-538 | for every relocation type, the patched cell decodes to its ELF formula if and only if the type takes any value or the value fits |
| Resolve.StatusExact | arch/aarch64/reloc.cpp:531-537 | a checked relocation returns 0 if and only if the cell it left decodes to its formula |
| Resolve.SuccessResolves | arch/aarch64/reloc.cpp:337-538 | every relocation that returned 0 decodes to its formula; only the unchecked page relocation needs its range as an assumption |
| Formulas.FormulaIsResolved | arch/aarch64/reloc.cpp:337-538 | the engine's table of operations, shifts, lengths and groups has, for every type, the meaning of the standard's relocation table written out independently |
| Formulas.StatusRange | arch/aarch64/reloc.cpp:344-537 | a checked relocation returns 0 if and only if its value lies in the range written out for its type; ABS32 and ABS16 must be unsigned, as the code chose |
| Formulas.SuccessMeetsFormula | arch/aarch64/reloc.cpp:337-538 | every relocation that returned 0 meets its formula, the unchecked page relocation within its page range |
| Formulas.WrittenAnyway | arch/aarch64/reloc.cpp:84-313 | for every type, whatever is returned: the value cut to its cell or field is written, at literal positions, so failed relocations change memory too |
| Formulas.BranchReaches | arch/aarch64/reloc.cpp:457-523 | a patched branch, conditional branch, test branch, call or literal load goes to S+A itself if and only if its relocation returned 0 and S+A-P is a multiple of 4 |
| Example.MisalignedCall | arch/aarch64/reloc.cpp:518-523 | at every place, a call whose relocation returns 0 and which goes elsewhere than S+A |
| Chains.AdrpAddExact | arch/aarch64/reloc.cpp:467-482 | ADRP then ADD, at any two places, evaluate to S+A modulo 2^64 if and only if the ADRP relocation returned 0 |
| Chains.AdrpLoadStore | arch/aarch64/reloc.cpp:467-507 | ADRP then a load or store of 1 to 16 bytes accesses S+A rounded down to the access size if and only if the ADRP relocation returned 0, and S+A itself if and only if that is also aligned |
| Chains.MovwChain | arch/aarch64/reloc.cpp:376-454 | a MOVZ or MOVN in range followed by MOVKs in any order and number, covering the groups between them, leaves the 64-bit value whatever the register held; absolute and place-relative groups alike |
| Pass.WholePass | module/module.cpp:307-323 | after all entries on disjoint places, in the final image each checked entry returned 0 if and only if it decodes to its formula, each unchecked one decodes, and no other byte changed |
| Pass.RunLinks | module/module.cpp:307-323 | the loop over entries leaves each place as that entry alone would from the original bytes |
| Pass.LinkedUnique | module/module.cpp:307-323 | that description determines the final image completely, from the set of entries alone |
| Pass.OrderIndependence | module/module.cpp:307-323 | any permutation of entries on disjoint places leaves the same image |
| Replay.PatchTwice | arch/aarch64/reloc.cpp:239-313 | one relocation applied twice is applied once, for every type, value and cell |
| Replay.ApartCell | module/module.cpp:307-323 | an entry whose place overlaps no other ends as one patch of its original cell, whatever the other entries do |
| Replay.BitsOfRun | module/module.cpp:307-323 | for any entries, overlapping or repeated: every bit of the final image is what the last entry to write it gives it, refused immediates not counted, or what it was |
| Replay.ReplayExact | arch/aarch64/reloc.cpp:206-313 | for any entries and image, a second pass changes nothing if and only if each last writer of a bit that is new in it gives the bit what the first pass left |
| Replay.ReplaySameRefusals | arch/aarch64/reloc.cpp:212-213 | in particular, it changes nothing if the encoder refuses the same entries in both passes, or none |
| Replay.Replay | module/module.cpp:307-323 | where no place of an instruction overlaps another place, data places overlapping and entries repeated at will, a second pass changes nothing, failed entries and fault markers included |
| Replay.ReplayNeedsApart | arch/aarch64/reloc.cpp:212-213 | at every base, two overlapping entries, one on an instruction, and four bytes for which a second pass does change the image |
| Pass.MovedCell | arch/aarch64/reloc.cpp:67-78 | moving place and value by the same multiple of 4096 changes neither cell nor status of a place-relative, page or low-12 relocation |
| Pass.PositionIndependence | module/module.cpp:306-318 | a pass at a base and with values moved alike gives the same statuses for those types and the same byte everywhere except at absolute data and absolute MOVW places |
| Moving.ObjectMoves | module/module.cpp:401-419 | an object whose entries refer to its own loaded sections, loaded at two bases whole pages apart after any two histories: the same entries with values moved alike, the same statuses outside absolute places, and the same image bytes there |
| Linking.LinkCorrect | module/module.cpp:307-323 | after a pass over any entries, each one whose place overlaps no other meets the standard's formula in the final image if it returned 0, a checked one only then, one that takes any value always; in range or not it holds its value cut to size; every byte outside the places is unchanged |
| Linking.FinalWord | module/module.cpp:307-323 | in the final image the instruction at a place that overlaps no other is the patch of the original one |
| Linking.FinalFrame | module/module.cpp:307-323 | and keeps all its bits outside the immediate and a signed group's opcode |
| Linking.AdrpAddInImage | module/module.cpp:307-323 | an ADRP and an ADD executed from the final image of a pass yield S+A if and only if the ADRP entry returned 0 |
| Linking.AdrpLoadStoreInImage | module/module.cpp:307-323 | an ADRP and a load or store executed from the final image access S+A rounded down to the access size if and only if the ADRP entry returned 0 |
| Linking.MovwInImage | module/module.cpp:307-323 | a covering chain of wide moves executed from the final image leaves the value |
| X86.DoRelocateAdd | arch/x86_64/reloc.cpp:7-59 | for every type: refuses nonzero cells without change, otherwise stores the truncated value, before the overflow is known, and returns the exact verdict; NONE returns 0, unknown types do not, and both change nothing |
| X86.WordTests | arch/x86_64/reloc.cpp:20-29 | comparing the value with the word read back is a range test: zero-extended for 32, sign-extended for 32S |
| X86.AbsoluteExact | arch/x86_64/reloc.cpp:12-43 | from a zero cell, 64, 32, 32S and PC64 return 0 if and only if the stored cell decodes to the target value |
| X86.StoredAnyway | arch/x86_64/reloc.cpp:12-43 | a zero cell receives S+A or S+A-P cut to its size, whatever is returned |
| X86.RelativeExact | arch/x86_64/reloc.cpp:31-37 | PC32 and PLT32 always return 0 from a zero cell, reach the target modulo 2^32, and reach it exactly if and only if the distance is in [-2^31, 2^31) |
| X86.RelativeMisses | arch/x86_64/reloc.cpp:31-37 | on every zero cell, a PC32 entry that returns 0 and does not decode to its target |
| X86Pass.LinkCorrect | module/module.cpp:307-323 | a pass of x86-64 entries over disjoint places, each by the cell it finds: a nonzero cell is kept and refused; from a zero cell, each 64-bit or absolute entry returned 0 if and only if it decodes to S+A in the final image, and each PC32 or PLT32 entry returned 0 and decodes to S+A if and only if it is near; no other byte changed |
| X86Pass.Replay | arch/x86_64/reloc.cpp:9-52 | a second pass changes nothing, for any entries, overlapping or repeated, on any cells |
| X86.ReplayRefused | arch/x86_64/reloc.cpp:9-52 | a second application never changes the image, and is refused exactly when the first left a nonzero cell or had failed |
| Layout.RowIsClass | module/module.cpp:103-136 | a row of the mask table claims, among the sections not yet placed, exactly those of its class; the fifth row claims none |
| Layout.ModuleLayout.GetOffset | module/module.cpp:18-40 | the offset is the least multiple of the alignment from the running total on if and only if that is below 2^32; the total moves past the section |
| Layout.ModuleLayout.PlaceRow | module/module.cpp:124-141 | one row places its class's members one after another and leaves everything else |
| Layout.ModuleLayout.LayoutSections | module/module.cpp:101-161 | the five passes compute the class-by-class layout, in wrapping arithmetic, with all four boundaries |
| LayoutSafety.OnePass | module/module.cpp:101-161 | the five passes are one pass of bump allocation over the loaded sections stably partitioned by class, with one page round-up before the writable class |
| LayoutSafety.WrapExact | module/module.cpp:18-40 | the 32-bit layout equals the unbounded one if and only if every placed offset and the page boundary are below 2^32 |
| LayoutSafety.TotalFits | module/module.cpp:123-160 | sizes plus alignment paddings plus 4095 below 2^32 suffice for that |
| LayoutSafety.LayoutSafe | module/module.cpp:123-160 | placed sections are aligned, pairwise disjoint and inside the total; boundaries are ordered and page-aligned; text, read-only and read-only-after-init sections lie below the protected boundary and writable ones above; the total is bounded by sizes and paddings; others stay unplaced |
| LayoutSafety.WrapOverlaps | module/module.cpp:18-40 | two executable sections without file bytes that the wrapping arithmetic places on top of each other |
| LayoutExact.NoWrap | module/module.cpp:124-141 | no placement of a safe order wraps: it would land on 0, on the first section that is not empty, or start the total over so that a later one does |
| LayoutExact.SafeExactly | module/module.cpp:101-161 | for every list of headers, empty sections included, the sections the code places are aligned, pairwise disjoint and inside the image if and only if all exact offsets and the exact boundary are below 2^32 |
| LayoutHeaders.AlignedAsAsked | module/module.cpp:34-40 | every loaded section's offset is a multiple of its header's alignment |
| LayoutHeaders.LaidInOrder | module/module.cpp:101-141 | executable sections lie first, then read-only ones, then those written only during initialisation, then the others, each group in header order, said from the flags alone |
| LayoutHeaders.LaidTightly | module/module.cpp:34-40 | every loaded section lies less than its header's alignment past the end of one that precedes it, past 0, or past the page boundary |
| LayoutHeaders.SizesTight | module/module.cpp:142-160 | text, read-only part and image end where their last section ends, and the boundary is the first page boundary from the end of the read-only-after-init part on |
| Loading.ImageExact | module/module.cpp:174-203 | in the copied image every loaded section's range is its file bytes, or zeros for NOBITS, and every byte outside is zero: no copy disturbs another |
| Loading.LayoutIsRoomy | module/module.cpp:164-206 | a layout within 32 bits gives every loaded section its own room in the mapping |
| Symbols.SysEnv.AddSymbol | include/module.h:29-38 | the first binding of a name stays |
| Symbols.SysEnv.GetSymbol | include/module.h:39-47 | the bound address, or a failure for a name without one |
| Symbols.SysEnv.GetEntry | include/module.h:48-59 | the binding of _start, else of APP_Root, else 0 |
| Symbols.UpdateSymbolAddr | module/module.cpp:208-267 | the loop over a symbol table, its leftover address variable included, computes the scan whose table, values and constructor the lemmas below describe |
| Symbols.ScanBinds | module/module.cpp:237-249 | scanning a symbol table makes exactly its in-range global definitions available, in table order, behind all earlier bindings |
| Symbols.TableAfter | module/module.cpp:237-249 | from the symbols' own fields: an old binding stays, else the first global symbol of the name in an existing ordinary section gives value plus section address, else the name is unbound |
| Symbols.ConstructAfter | module/module.cpp:243-248 | the constructor's address is that of the last global definition named Construct, else what it was |
| Symbols.ImportAfter | module/module.cpp:250-259 | a global undefined symbol takes the binding its name has at its turn, or keeps its value |
| Symbols.ScanLeaves | module/module.cpp:225-266 | no symbol changes before its turn |
| Symbols.ScanGrows | module/module.cpp:225-266 | scanning further rebinds no name and touches no symbol already scanned |
| Symbols.ScanValue | module/module.cpp:225-259 | final values: section address, section address plus offset, the earliest binding for a bound import, unchanged for an unbound one |
| Loader.AllInOrder | module/module.cpp:327-359 | the entries applied are those of the two nested loops in their order: RELA sections whose target has ALLOC, entries whose symbol exists, each at its section's offset with S+A modulo 2^64 |
| Loader.AppliedExactly | module/module.cpp:335-356 | a fixup is applied if and only if it is such an entry |
| Loader.AddressHolds | module/module.cpp:193-201 | a loaded section's address is where its bytes lie in the final image, and other sections keep theirs |
| Loader.FinalContents | module/module.cpp:401-419 | for any entries, an unpatched byte of the loaded image is the byte of its section, or zero for NOBITS, and every byte between sections is zero: relocation never touches the padding |
| Loader.ApplyRelocateAdd | module/module.cpp:285-325 | the entries are applied in order with S+A modulo 2^64, entries without a symbol skipped, failed ones not stopping the loop |
| Loader.Module.MoveModule | module/module.cpp:164-206 | a zeroed image with every loaded section copied to its offset, and its address moved there |
| Loader.Module.RelocateSymbol | module/module.cpp:327-359 | runs the entries of exactly the RELA sections whose target was loaded |
| Loader.Module.ModProtect | module/module.cpp:361-371 | the protected range consists of whole pages, covers every executable, read-only and read-only-after-init section of the image, and touches no other writable one |
| Loader.Module.LoadModule | module/module.cpp:401-419 | the steps in their order produce the layout, the addresses, the symbol table, the constructor's address, the relocated image and the protected range |
| Host.EarliestWins | include/module.h:29-47 | over any run of registrations and loads the table binds exactly the offered names, each to its earliest offer |
| Host.NeverRebound | include/module.h:29-38 | a bound name keeps its address for the rest of the run |
| Host.ImportValue | module/module.cpp:250-259 | an import bound when its turn comes, by an earlier action or its own module, has the address that the whole run ends up with for that name |
| Host.SymbolMeans | module/module.cpp:225-259 | in a run, section symbols and definitions carry their image address and bound imports the run's one binding |
| Host.EntryLinked | module/module.cpp:327-359 | the same for one load against any table: every applied entry whose place overlaps no other |
| Host.EntryResolved | module/module.cpp:401-419 | end to end, for every entry with a symbol whose place overlaps no other: in the loaded image an entry that returned 0 meets the standard's formula, a checked one returned 0 only then, one that takes any value always meets it, and its S is what the symbol means in the whole run |
| Example.CallReachesHost | module/module.cpp:401-419 | for every page-aligned base and every word-aligned host function in range, the one-call object loads, its relocation returns 0 and the call in the final image goes to the function |
| Host.EarliestIsFinal | module/module.cpp:237-244 | a definition without an earlier offer of its name is what the run binds, at its section's image address |
| Host.EntryProtected | include/module.h:48-59 | if the earliest _start, else APP_Root, is defined inside a loaded executable section, the entry point lies in that module's text and protected range |
| Host.Env.RegisterFunc | main/umko.cpp:28-31 | the name is bound, to the address given unless it was bound before; nothing else changes |
| Host.Env.LoadAll | main/umko.cpp:84-90 | the loop leaves each module's image as its load against the table of its turn demands, undisturbed by later loads, with the final table and entry point, 0 if neither name is bound |
| Host.TablesAreRun | main/umko.cpp:84-88 | the loop after any registrations is a run of the state machine |
| Digits.DigitCount | examples/aarch64/mylibc.c:171-177 | a number has at most n digits if and only if it is below base^n |
| Digits.BufferSuffices | examples/aarch64/mylibc.c:152-177 | digits, sign and NUL of every 64-bit number fit the 64-byte buffer in bases 10 and 16, and in base 2 exactly for numbers that are not negative |
| Digits.BinaryOverruns | examples/aarch64/mylibc.c:246-250 | minus one in binary does not fit |
| Digits.FillBackwards | examples/aarch64/mylibc.c:168-177 | the backwards loop stays inside the buffer and leaves exactly the digits, most significant first, before the NUL |
| Digits.Prints | examples/aarch64/mylibc.c:115-147 | emits the string filled on the chosen side to the width, counting every character, and the same count without an output |
| Digits.SimpleOutputI | examples/aarch64/mylibc.c:149-190 | emits and counts the rendering of an integer for every width, flags, sign and base |
| Reading.Shape | examples/aarch64/mylibc.c:179-189 | where sign, zeros, blanks and digits stand for every width and pair of flags |
| Reading.RenderedLength | examples/aarch64/mylibc.c:115-190 | exactly max(width, digits + sign) characters |
| Reading.RenderedSpelled | examples/aarch64/mylibc.c:171-177 | nothing but blanks, a sign and digits is printed, with upper-case letters exactly where they are asked for |
| Reading.ReadsBack | examples/aarch64/mylibc.c:149-190 | reading the text gives the integer (or its unsigned 64-bit pattern), times base^filling when both flags are set |
| Reading.RoundTrip | examples/aarch64/mylibc.c:149-190 | the round trip is exact if and only if not both flags are set, or nothing is filled, or the integer is zero |
| Reading.RoundTripFails | examples/aarch64/mylibc.c:131-144 | an integer that both flags turn into another |
| Printf.SimpleVsprintf | examples/aarch64/mylibc.c:192-514 | for every format and matching arguments the loop emits the rendering of the parsed format and a NUL; its length is the returned count plus the number of literal newlines; the count is the same without an output |
| Formats.LetterTable | examples/aarch64/mylibc.c:239-503 | base, sign, case and C type of every conversion, by its letters |
| Formats.Reads | examples/aarch64/mylibc.c:221-239 | a directive written with flags, width or star, and letters is read as those, at any place of a format |
| Formats.LiteralsPrinted | examples/aarch64/mylibc.c:503-508 | other characters are printed as they are, each newline behind a carriage return, which is what the count leaves out |
| Formats.ReturnsOnly | examples/aarch64/mylibc.c:505-508 | text without newlines is printed unchanged, and dropping the carriage returns gives any text without them back |
| Formats.PercentPrinted | examples/aarch64/mylibc.c:219-220 | a doubled percent sign prints one |
| Formats.StringPrinted | examples/aarch64/mylibc.c:283-289 | %s takes its string, and a star its width, and prints it padded in its field; a null pointer as "(null)" |
| Formats.CharacterPrinted | examples/aarch64/mylibc.c:276-281 | %c takes one integer and prints the character of its low byte in its field, none for NUL |
| Formats.NumberPrinted | examples/aarch64/mylibc.c:239-503 | an integer conversion takes one integer, and a star its width, and prints that integer, converted to its C type, in its base, sign, width, flags and case |
| Formats.UnknownPrinted | examples/aarch64/mylibc.c:500-501 | an unknown letter prints nothing and takes nothing but a star's width |
| Formats.Synonyms | examples/aarch64/mylibc.c:258-262 | %p prints as %lx does, and the ll forms as the l forms |
| Formats.TwoNumbers | examples/aarch64/mylibc.c:239-244 | %d%d of m and n prints m, then n |
| Printf.MyPrintf | examples/aarch64/mylibc.c:516-527 | what is written out is the rendering without as many characters at its end as the format has literal newlines: all of it if and only if there are none |
| Printf.NewlineLost | examples/aarch64/mylibc.c:516-527 | a format of one newline, rendered as carriage return and newline, of which only the carriage return is written |
| Printf.Directed | examples/aarch64/mylibc.c:214-503 | one directive: flags, width, letters and arguments consumed as the parser says, its text emitted and counted |
| Printf.ParseWriteAll | examples/aarch64/mylibc.c:213-503 | parsing undoes writing: every list of literals and directives, written out in the format language, parses back to itself |
| Printf.WidthBack | examples/aarch64/mylibc.c:233-237 | the decimal width loop reads back every number written in decimal, which never starts with the zero of a flag |
| Printf.LettersAreWritable | examples/aarch64/mylibc.c:239-503 | the conversions a format can ask for, besides unknown letters, stale union reads and truncation, are exactly the writable ones |
| Printf.ArgumentReadsBack | examples/aarch64/mylibc.c:239-503 | what an integer conversion prints reads back as its argument, converted to its C type for signed decimals |

## Left out

- Opening, mapping and parsing ELF files, page mapping and protection calls: sections, symbols and relocation entries are datatypes, the base and the file addresses are parameters, and these steps are assumed to succeed; the error codes `load_module` and `main` ignore are not modelled. ELFIO is not part of this model.
- Assumptions on a loadable object: one symbol table, section sizes below 2^32 whose file bytes are all there, a page-aligned base with base plus total below 2^64, a layout within 32 bits (the exact condition of `LayoutSafety.WrapExact`), and relocation offsets inside their target section.
- Numeric relocation codes: relocation types are a datatype, since their numbers come from ELFIO; the P32 aliases behave like the LP64 cases they share a body with.
- The branch that turns ADRP into ADR: `is_forbidden_offset_for_adrp` is constantly false.
- Running init_array, `Construct` and the entry point: only their addresses are chosen.
- Values of SHN_ABS, SHN_COMMON, weak and local undefined symbols: the code writes whatever the address variable last held. The scan models that write, and nothing is claimed about the value.
- Host.EntryResolved: states the result for the AArch64 relocation function; the x86-64 one is carried through whole passes but not through the loader.
- Resolve.ResolvedExactly: speaks of instructions of the class a relocation is for, and of 64-bit wide moves and additions; other words are patched the same way, but nothing is claimed about what they compute.
- Printf.SimpleVsprintf: excludes the unsigned h and hh directives, which read union bytes nobody wrote, and formats that end inside a directive, past whose end the code walks; a lone final percent sign is included. Arguments are a typed sequence in place of the varargs mechanism, strings and formats hold no NUL, widths are below 2^31, binary arguments are not negative and signed 64-bit ones exceed the minimum.
- Printf.MyPrintf: asks that the rendering and its NUL fit the 1024-byte buffer, which the code does not check.
- Digits.SimpleOutputI: the output is a growing string, so the capacity of the caller's buffer is not modelled, and the returned count is unbounded.
- Logging, usage text, argument parsing, the system-call wrappers, and the declared but undefined functions of arch/aarch64/insn.h.
