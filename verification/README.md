# Verified model of the hooking, dumping and disassembly core

This project models the parts of the repository whose correctness is hard to see by
reading, and proves what they promise.

* **Inline-hook relocators** (Thumb, ARM, x86). Each is a small binary translator: it
  measures whole instructions at a function entry, sizes a buffer in one pass, emits
  relocated code (Thumb and ARM also a literal pool that grows down from the back) in a
  second pass, and overwrites the entry with a jump. The passes are modelled in place on
  arrays (`ThumbRelocate`, `X86Relocate`, `ArmRelocate`), the whole Thumb call with its
  re-hook path as a class (`ThumbHook`). Three small machines (`ThumbMachine`,
  `ArmMachine` with `ArmMedia`, and the one in `X86Meaning`) run the original window and
  the relocated one, and the main theorems say that both leave for the same place with
  the same registers, flags and visible memory (`ThumbMeaning`, `ArmMeaning`,
  `X86Window`).
* **DEX class-data codec and dump layout.** LEB128, `ReadClassData` and
  `EncodeClassData`, the catch-handler walker, and the 4-aligned bump allocator of
  `DumpClass`, with the theorem that every recorded offset resolves in the assembled
  file (`Leb128`, `ClassData`, `CodeItem`, `DexDump`, `DexImage`).
* **Capstone driver.** `cs_disasm` with its growing array and its owned memory blocks
  against the single-stepping `cs_disasm_iter` (`Disassembler`), and the searches over
  register lists stored as differences (`RegisterLists`).
* **Unicorn hook registry.** Shared, mutable callback lists refined to a log of
  additions and deletions (`HookLog`, `HookRegistry`).

How the machines are set up: code is mapped read-only and plain data loads see it; every
instruction that the relocator neither recognises nor emits gets its meaning from a
parameter that never sees the program counter (in a Thumb IT block from a second one, as
16-bit instructions leave the flags alone there). `hidden` is the set of bytes in which the
two processes may differ (their code, and dead bytes below the stack pointer where a
gadget saves a register or a far jump keeps its target). A copied instruction is
required not to depend on hidden bytes (`Oblivious`); nothing else is asked of it. When
the original calls a routine, the two processes hold different return addresses. The
`ReturnResumes` lemmas go on from there: once the routine has returned in both, with
states that agree but for LR (on x86, for the stack slot of the return address), the
relocated code again reaches what the original reaches, and so on for any number of
calls; copied instructions must then not use LR. `SettingExists` and `LayoutExists`
build such a pair of processes for every window; `ThumbSample`, `ArmSample` and
`X86Sample` give for each machine a window with a call (the Thumb one with an IT block
as well) in which every condition of the theorems holds, before the call and after it,
so none of this is empty.

What the code does not do as intended is stated with its exact condition:

* Thumb: `blx` to an immediate is relocated without aligning the program counter, so it
  is right exactly when word-aligned; a wide unconditional branch is emitted as the
  halfword 0x000e (`movs r6, r1`), because the macro argument is not parenthesised, and
  is right exactly when it leads to the next instruction and the move changes nothing;
  `ldr.w pc` jumps to its literal instead of through it; a `cbz` further than 72
  halfwords from its pool lands in front of it; every other reader of the program
  counter (16-bit `b`, narrow and wide `adr`, literal loads of bytes, halfwords and
  doublewords, `tbb` and `tbh`, `mov rd, pc`, `add pc, rm`, `bx pc`) is copied, each
  with its exact condition.
* Thumb, IT blocks: `it` is copied and nothing is known of the block behind it. A block
  whose instructions are all copied, and which ends in the window, stays right. A load
  or addition that is rewritten before the last place of its block is never right,
  because its gadget takes more places than one (calls and branches may not stand
  there); in the last place it is right exactly when its condition holds, or it is a
  load whose second half, which is executed in any case, does no harm. A call in the
  last place is right exactly when its condition holds (and a `blx` is word-aligned). A
  copied reader of the program counter is right in a block exactly when it is not
  executed or is right outside of one. A block that the window cuts is never right: the
  closing jump takes one of its places, or its ARM half is executed as Thumb code.
* ARM: the scratch load is unconditional and uses the transferred register, so a
  relocated transfer is right exactly when it has a guard, or is a load whose condition
  holds, or its register already held the address of the literal (or, after a call, is
  the LR that is no longer compared); a load or store of the program counter always
  jumps to its literal, even when its condition fails, so it is right exactly when it is
  an executed load and the loaded word is the address of the literal itself; extensions
  and reversals (`uxtb`, `sxth`, `rev`, ...) are taken for transfers, and when they are
  executed never right; saturations and bit-field moves, taken for transfers too, are
  right exactly when the rewritten field does not matter; branches (`blx` to an
  immediate included), sums with the program counter and stores of it to another base
  are copied and, when executed, right only in place; the sizing test compares a nibble
  with itself, so every register form reserves the larger size; asking for the old
  target of a hooked entry returns before the new one is installed.
* x86: in 64-bit code `push imm32` sign-extends, so a far target in [2^31, 2^32) is
  missed; near conditional branches, loops and branches with a prefix are copied and
  right only in place (with a 16-bit instruction pointer, in place modulo 2^16).
* DEX: the padding of the mapping is computed but not written, so the extra section
  begins at the recorded origin exactly when the mapping ends on a four-byte boundary
  and no class is skipped.
* Capstone: the skip-data callback is shown the whole buffer by `cs_disasm` and what is
  left by `cs_disasm_iter`; the two find the same instructions exactly when it answers
  alike at every broken position.

## Model

| member | source | states |
|---|---|---|
| ThumbEncoding.ClassifierWidth | app/src/main/jni/MSHook/Thumb.h:66-101 | every classifier consumes the width that the width test assigns, so both passes visit the same boundaries |
| ThumbRelocate.MeasureWindow | app/src/main/jni/MSHook/Thumb.cpp:40-47 | the width loop stops at the first instruction boundary at or past the patch, and the window is whole instructions |
| ThumbRelocate.SizeBuffer | app/src/main/jni/MSHook/Thumb.cpp:60-83 | the sizing pass computes the exact length and padding that the emission needs, and an even end |
| ThumbRelocate.EmitOne | app/src/main/jni/MSHook/Thumb.cpp:103-362 | one turn of the emission writes its code at the front and its pool at the back of the free space, and nothing else |
| ThumbRelocate.BuildTrampoline | app/src/main/jni/MSHook/Thumb.cpp:60-369 | both passes together fill the buffer exactly; refused windows build nothing |
| ThumbRelocate.NeedBound | app/src/main/jni/MSHook/Thumb.cpp:60-80 | n halfwords of window need at most 17 n halfwords of code and pool, whatever the instructions |
| ThumbGadgets.LabelNamesPoolWord | app/src/main/jni/MSHook/Thumb.h:18-19 | every literal-load label names its own pool word and fits its field, whatever the parity of the start |
| ThumbGadgets.CallLabel | app/src/main/jni/MSHook/Thumb.cpp:233 | the other label formula of the call gadget gives the same field |
| ThumbGadgets.LdrRuns | app/src/main/jni/MSHook/Thumb.cpp:104-122 | the gadget of a literal load loads the original literal and changes nothing else |
| ThumbGadgets.BlRuns | app/src/main/jni/MSHook/Thumb.cpp:199-242 | the gadget of a call reaches the original routine with LR behind the gadget and r7 and SP restored |
| ThumbGadgets.CbzRuns | app/src/main/jni/MSHook/Thumb.cpp:243-294 | the gadget of a compare-and-branch reaches the target or the next gadget with registers and flags restored |
| ThumbSetting.LaidNext | app/src/main/jni/MSHook/Thumb.cpp:101-362 | in the finished buffer every gadget and pool word lies where its emission step put it |
| ThumbMeaning.BranchReach | app/src/main/jni/MSHook/Thumb.cpp:139 | in every window a conditional branch reaches its pool entry |
| ThumbMeaning.LaidClosing | app/src/main/jni/MSHook/Thumb.cpp:364-369 | after the last instruction exactly six halfwords are free, word-aligned, and hold the closing jump |
| ThumbMeaning.SimulateOne | app/src/main/jni/MSHook/Thumb.cpp:101-362 | each displaced instruction, from agreeing states, is matched by its gadget: same fall-through, same exit, or same call |
| ThumbMeaning.SimulateUnder | app/src/main/jni/MSHook/Thumb.cpp:355-361 | a copied instruction of an IT block, executed or skipped, does what the original does and leaves the same state of the block |
| ThumbMeaning.RelocatedRun | app/src/main/jni/MSHook/Thumb.cpp:101-369 | from every boundary the relocated run reaches what the original run reaches |
| ThumbMeaning.ReturnResumes | app/src/main/jni/MSHook/Thumb.cpp:199-242 | after a call, when the routine returns in both processes with states that agree but for LR, the relocated run again reaches what the original reaches |
| ThumbMeaning.RelocationPreservesMeaning | app/src/main/jni/MSHook/Thumb.cpp:12-376 | calling the trampoline does what the displaced prologue did: same registers, flags, visible memory and next address, LR mapped |
| ThumbLimits.BlxRightIffAligned | app/src/main/jni/MSHook/Thumb.cpp:222-242 | a relocated blx to an immediate is right if and only if the instruction was word-aligned |
| ThumbLimits.WideAlwaysRightIff | app/src/main/jni/MSHook/Thumb.cpp:190 | a wide unconditional branch is relocated to 0x000e, movs r6, r1: right if and only if it leads to the next instruction, r6 equals r1 and the flags already say so |
| ThumbLimits.LoadOfPcRightIff | app/src/main/jni/MSHook/Thumb.cpp:295-326 | a relocated ldr.w pc is right if and only if the literal leads where its own address leads |
| ThumbLimits.CbzFieldRightIff | app/src/main/jni/MSHook/Thumb.h:45-46 | the emitted cbz field holds its displacement if and only if that is at most 126 |
| ThumbLimits.CbzRightIff | app/src/main/jni/MSHook/Thumb.cpp:243-294 | an untaken cbz is right; a taken one goes to its target if and only if at most 72 halfwords are still to come, and otherwise lands at a stated place with its scratch register pushed |
| ThumbLimits.TwoCbzReach | app/src/main/jni/MSHook/Thumb.cpp:40-45 | with at most two cbz or cbnz in a measured window each of them reaches |
| ThumbLimits.ThreeCbzTooFar | app/src/main/jni/MSHook/Thumb.cpp:271 | a measured window with three of them in which the first does not reach |
| ThumbLimits.CopiedBranchRightIff | app/src/main/jni/MSHook/Thumb.h:70-96 | a copied 16-bit branch is right if and only if the copy lies where the original lay |
| ThumbLimits.CopiedAdrRightIff | app/src/main/jni/MSHook/Thumb.h:70-96 | a copied adr, narrow or wide, is right if and only if both read the same aligned program counter |
| ThumbLimits.CopiedMovPcRightIff | app/src/main/jni/MSHook/Thumb.cpp:359-361 | a copied mov from pc is right if and only if the copy lies where the original lay |
| ThumbLimits.CopiedShortLoadRightIff | app/src/main/jni/MSHook/Thumb.cpp:355-358 | a copied literal load of a byte or halfword is right if and only if both places hold the same value |
| ThumbLimits.CopiedDoubleLoadRightIff | app/src/main/jni/MSHook/Thumb.cpp:355-358 | a copied literal load of two words is right if and only if both words are the same at both places |
| ThumbLimits.CopiedTableBranchRightIff | app/src/main/jni/MSHook/Thumb.cpp:355-358 | a copied table branch is right if and only if the two table entries lead to the same address |
| ThumbLimits.CopiedAddToPcRightIff | app/src/main/jni/MSHook/Thumb.cpp:359-361 | a copied add to pc is right if and only if the copy lies where the original lay |
| ThumbLimits.CopiedBxPcRightIff | app/src/main/jni/MSHook/Thumb.cpp:359-361 | a copied bx pc is right if and only if the copy lies where the original lay, or both are stuck |
| ThumbBlocks.InsideBlockNeverRight | app/src/main/jni/MSHook/Thumb.cpp:104-354 | a rewritten load or addition before the last place of its IT block is never right: the state of the block behind its gadget differs |
| ThumbBlocks.LastOfBlockRightIff | app/src/main/jni/MSHook/Thumb.cpp:104-354 | in the last place it is right if and only if its condition holds, or it is a load and the word at its register is the register's own value or is not compared |
| ThumbBlocks.CallInBlockRightIff | app/src/main/jni/MSHook/Thumb.cpp:199-242 | a call in the last place of its IT block is right if and only if its condition holds and it is a bl, or a blx that is word-aligned |
| ThumbBlocks.LoadOfPcInBlockRightIff | app/src/main/jni/MSHook/Thumb.cpp:295-326 | an ldr.w pc in the last place of its IT block is right, executed, if and only if it is outside of a block, and skipped, if and only if the word behind its gadget is the address of the next gadget |
| ThumbBlocks.CopiedInBlockRightIff | app/src/main/jni/MSHook/Thumb.cpp:355-361 | a copied reader of the program counter that may stand in an IT block is right there if and only if it is not executed or its copy is right outside of a block |
| ThumbBlocks.WideAlwaysInBlock | app/src/main/jni/MSHook/Thumb.cpp:190 | a wide unconditional branch in the last place of its IT block becomes a halfword that must not stand there, whether or not its condition holds |
| ThumbBlocks.CutBlockNeverRight | app/src/main/jni/MSHook/Thumb.cpp:364-369 | a block still open at the end of the window never goes on as the original does: the closing jump ends it, or is not executed and its ARM half is met as Thumb code |
| ThumbSample.SampleIsQuiet | app/src/main/jni/MSHook/Thumb.cpp:101-369 | a window with a literal load, an IT block and a call, at any addresses that lie apart, meets every condition of the theorems, before the call and after it |
| ThumbHook.WindowOf | app/src/main/jni/MSHook/Thumb.cpp:40-47 | the width loop ends within one halfword of the patch, at the first boundary past it |
| ThumbHook.Symbol.Hook | app/src/main/jni/MSHook/Thumb.cpp:12-400 | one call, with every error path, does to the entry and answers what the specification HookOnce says |
| ThumbHook.Symbol.Patch | app/src/main/jni/MSHook/Thumb.cpp:386-400 | the patch writes the padding, the long jump and the nops over exactly the window |
| ThumbHook.HookChain | app/src/main/jni/MSHook/Thumb.cpp:24-38 | in every sequence of hooks whose first succeeds, the entry leads to the last replacement, reply k is replacement k-1, and one trampoline is built |
| ThumbHook.RehookChain | app/src/main/jni/MSHook/Thumb.cpp:24-38 | re-hooking answers with the previous target and never builds a trampoline |
| ThumbHook.EntryLeadsToTarget | app/src/main/jni/MSHook/Thumb.cpp:386-400 | running a hooked entry reaches its target with nothing changed, at either alignment |
| ThumbHook.HooksKeepRest | app/src/main/jni/MSHook/Thumb.cpp:12-400 | no sequence of hooks, whatever fails in between, changes the function behind the instructions that the first one displaces |
| ArmRelocate.SizesFit | app/src/main/jni/MSHook/ARM.cpp:28-37 | the emission never exceeds the sizing, and falls short exactly for an unguarded register form |
| ArmRelocate.SizeBuffer | app/src/main/jni/MSHook/ARM.cpp:28-37 | the sizing loop computes the length of the trampoline |
| ArmRelocate.OnlyBaseChanges | app/src/main/jni/MSHook/ARM.cpp:60-88 | the rewritten word differs from the original in its base register alone |
| ArmRelocate.EmitOne | app/src/main/jni/MSHook/ARM.cpp:57-101 | one turn of the emission writes its code at the front and its literal at the back, and nothing else |
| ArmRelocate.BuildTrampoline | app/src/main/jni/MSHook/ARM.cpp:55-106 | the emission writes the specified trampoline within the sized buffer |
| ArmRelocate.Hook | app/src/main/jni/MSHook/ARM.cpp:4-130 | one call with every error path; the replacement is installed exactly when no result is asked, or the entry was not hooked and both system calls succeed |
| ArmMachine.DoCopy | app/src/main/jni/MSHook/ARM.cpp:80-93 | the rewritten word transfers the same register at the same offset from its new base |
| ArmMeaning.TransferRuns | app/src/main/jni/MSHook/ARM.cpp:80-99 | running the gadget of a pc-relative transfer gives the state computed from the original literal |
| ArmMeaning.TransferRightIff | app/src/main/jni/MSHook/ARM.cpp:80-99 | a relocated load or store, unless guarded and indexed by the stack pointer, leaves the original state if and only if it is guarded, or loads under a condition that holds, or its register held the literal's address or is no longer compared |
| ArmMeaning.MediaRightIff | app/src/main/jni/MSHook/ARM.h:74-76 | a media word taken for a transfer is right if and only if its rewritten field is harmless when it is executed, and its register is guarded or held the literal's address when it is not |
| ArmMeaning.RelocatedRun | app/src/main/jni/MSHook/ARM.cpp:55-106 | from either word on, the relocated run reaches what the original run reaches |
| ArmMeaning.ReturnResumes | app/src/main/jni/MSHook/ARM.cpp:100-106 | after a call, when the routine returns in both processes with states that agree but for LR, the relocated words again reach what the originals reach |
| ArmMeaning.RelocationPreservesMeaning | app/src/main/jni/MSHook/ARM.cpp:55-114 | calling the trampoline does what the two displaced words did, LR mapped |
| ArmLimits.TransferOfPcRightIff | app/src/main/jni/MSHook/ARM.cpp:80-93 | every relocated word without guard whose register is pc jumps to its literal, executed or not; it is right if and only if it is an executed load of a word and loads that address |
| ArmLimits.CopiedBranchRightIff | app/src/main/jni/MSHook/ARM.cpp:100-101 | a copied b, bl or blx to an immediate is right if and only if it is not taken or lies where the original lay |
| ArmLimits.CopiedPcSumRightIff | app/src/main/jni/MSHook/ARM.cpp:100-101 | a copied adr, mov from pc or add with pc is right if and only if it is not executed or lies where the original lay |
| ArmLimits.CopiedStoreOfPcRightIff | app/src/main/jni/MSHook/ARM.cpp:100-101 | a copied store of pc to visible data is right if and only if it is not executed or lies where the original lay |
| ArmLimits.ExtensionRightIff | app/src/main/jni/MSHook/ARM.h:74-76 | a relocated extension or reversal is right if and only if its condition fails and its register is guarded or held the literal's address |
| ArmLimits.ExtractRightIff | app/src/main/jni/MSHook/ARM.h:74-76 | an executed bit-field extraction is right if and only if its value fits the narrower field that the rewritten word extracts |
| ArmLimits.SaturateRightIff | app/src/main/jni/MSHook/ARM.h:74-76 | an executed saturation is right if and only if its operand is within the bound of the rewritten word |
| ArmMeaning.EntryLeadsToReplacement | app/src/main/jni/MSHook/ARM.cpp:123-128 | the patched entry leads to the replacement with nothing changed |
| ArmSample.SampleIsQuiet | app/src/main/jni/MSHook/ARM.cpp:55-106 | a call and a literal load, at any addresses that lie apart, meet every condition of the theorems, before the call and after it |
| X86Relocate.GadgetFits | app/src/main/jni/MSHook/x86.cpp:62-111 | no gadget exceeds its reservation, and in 32-bit code each fills it |
| X86Relocate.EmissionFits | app/src/main/jni/MSHook/x86.cpp:129-188 | for every window the emitted bytes fit the reserved ones, with equality in 32-bit code |
| X86Relocate.SizeBuffer | app/src/main/jni/MSHook/x86.cpp:62-111 | the sizing loop reserves the specified number of bytes |
| X86Relocate.Relocate | app/src/main/jni/MSHook/x86.cpp:129-188 | the emission loop writes the specified bytes inside the sized buffer |
| X86Relocate.WriteJump | app/src/main/jni/MSHook/x86.h:140-149 | exactly as many bytes are written as were announced for that source and target |
| X86Relocate.PatchEntry | app/src/main/jni/MSHook/x86.cpp:205-212 | the entry patch is the jump and nops over exactly the window |
| X86Meaning.NearDisplacement | app/src/main/jni/MSHook/x86.h:45-48 | a 32-bit displacement that passes the test reaches its target modulo the address width |
| X86Meaning.PushRuns | app/src/main/jni/MSHook/x86.h:85-101 | the push sequence pushes one pointer and touches nothing else |
| X86Meaning.PushedValueRightIff | app/src/main/jni/MSHook/x86.h:90-101 | the pushed pointer is the target if and only if it is not in [2^31, 2^32) of 64-bit code |
| X86Meaning.JumpRightIff | app/src/main/jni/MSHook/x86.h:140-149 | a written jump leads to its target if and only if that is near or push does not spoil it |
| X86Gadgets.JumpGadget | app/src/main/jni/MSHook/x86.cpp:164-167 | a relocated jump and the original go to the same address if and only if the written jump can reach it |
| X86Gadgets.BranchGadget | app/src/main/jni/MSHook/x86.cpp:168-177 | untaken, both go on with nothing changed; taken, they agree if and only if the jump can reach |
| X86Gadgets.CallGadget | app/src/main/jni/MSHook/x86.cpp:158-162 | both call the same routine if and only if the jump can reach it, and the relocated return address leads to the next relocated instruction |
| X86Gadgets.CallNextGadget | app/src/main/jni/MSHook/x86.cpp:155-156 | a call to the next instruction pushes the original return address if and only if push does not spoil it |
| X86Gadgets.CopiedBranchRightIff | app/src/main/jni/MSHook/x86.cpp:103-111 | a copied near conditional branch, loop or branch with a prefix: untaken, it goes on; taken, it is right if and only if it lies where the original lay, modulo 2^16 for a 16-bit instruction pointer |
| X86Window.SimulateOne | app/src/main/jni/MSHook/x86.cpp:132-185 | each displaced instruction, from agreeing states, is matched by its gadget |
| X86Window.RelocatedRun | app/src/main/jni/MSHook/x86.cpp:129-188 | for every window the relocated run reaches what the original run reaches, with resumable return addresses |
| X86Window.ReturnResumes | app/src/main/jni/MSHook/x86.cpp:155-163 | after a call, when the routine returns in both processes with states that agree but for the slot of the return address, the relocated window again reaches what the original reaches |
| X86Window.RelocationPreservesMeaning | app/src/main/jni/MSHook/x86.cpp:129-195 | calling the trampoline does what the displaced prologue did in its place |
| X86Sample.SampleIsQuiet | app/src/main/jni/MSHook/x86.cpp:129-195 | a call and a copied instruction, in 32-bit and 64-bit code, meet every condition of the theorems, before the call and after it |
| Leb128.ReadUnsignedLeb128 | app/src/main/jni/android/dex.h:301-329 | the reader stops where the encoding ends and returns its value in 32 bits, longer ones cut at five bytes |
| Leb128.ReadSignedLeb128 | app/src/main/jni/android/dex.h:351-387 | the signed reader returns the sign-extended value |
| Leb128.UnsignedReads | app/src/main/jni/android/dex.h:296-329 | every well-formed unsigned encoding, canonical or padded, reads back its value and length |
| Leb128.SignedReads | app/src/main/jni/android/dex.h:346-387 | every well-formed signed encoding of a 32-bit number reads back its value and length |
| Leb128.UnsignedLeb128Size | app/src/main/jni/android/dex.h:334-344 | the size function returns the length of what the writer writes |
| Leb128.WriteLeb128 | app/src/main/jni/DexHunter/DexHunter.cpp:260-272 | the writer stores the canonical encoding and touches nothing else |
| Leb128.EncodeIsUleb | app/src/main/jni/DexHunter/DexHunter.cpp:260-272 | the encoding of every 32-bit value is well formed and reads back that value |
| ClassData.ReadClassData | app/src/main/jni/DexHunter/DexHunter.cpp:173-258 | the reader returns the parsed item and the position behind it |
| ClassData.EncodeClassData | app/src/main/jni/DexHunter/DexHunter.cpp:274-357 | the encoder writes exactly the precomputed number of bytes, the specified item |
| ClassData.NumbersRoundTrip | app/src/main/jni/android/dex.h:301-344 | any sequence of 32-bit values survives encoding and reading |
| ClassData.ItemRoundTrip | app/src/main/jni/DexHunter/DexHunter.cpp:173-357 | reading an encoded item, anywhere in a file, returns the same class data and stops right behind it |
| CodeItem.CodeItemEnd | app/src/main/jni/DexHunter/DexHunter.cpp:359-377 | the walker computes the end that the specification defines, for every readable input |
| CodeItem.WalkerStopsAtEnd | app/src/main/jni/DexHunter/DexHunter.cpp:359-377 | on every well-formed handler list, with or without catch-alls, the walker stops one past its last byte |
| CodeItem.CodeItemLength | app/src/main/jni/DexHunter/DexHunter.cpp:543-551 | the length computation follows the try count and the walker |
| CodeItem.LengthIsExact | app/src/main/jni/DexHunter/DexHunter.cpp:541-551 | the computed length of every well-formed code item is its exact length |
| DexDump.AppendAligned | app/src/main/jni/DexHunter/DexHunter.cpp:555-560 | each appended item keeps its bytes, and the section stays 4-aligned |
| DexDump.Dumper.WriteItem | app/src/main/jni/DexHunter/DexHunter.cpp:555-560 | writing and padding keeps the running offset equal to origin plus section size |
| DexDump.Dumper.PatchEntry | app/src/main/jni/DexHunter/DexHunter.cpp:495-561 | a method's flags and code offset are rewritten as specified, the code item is measured and copied from memory, and it reports exactly whether anything changed |
| DexDump.Dumper.PatchTable | app/src/main/jni/DexHunter/DexHunter.cpp:493-563 | the loop over a method table computes the specified table and section, and reports a change exactly when there is one |
| DexDump.Dumper.DumpClass | app/src/main/jni/DexHunter/DexHunter.cpp:463-670 | one class reads its class data from memory and writes its record and items as specified; skipped classes write nothing |
| DexDump.Dumper.DumpClasses | app/src/main/jni/DexHunter/DexHunter.cpp:437-670 | the loop over all classes computes the specified records and section |
| DexImage.TableIsPlaced | app/src/main/jni/DexHunter/DexHunter.cpp:493-635 | every relocated code item lies word-aligned where its entry says, in order and without overlap |
| DexImage.ClassIsPlaced | app/src/main/jni/DexHunter/DexHunter.cpp:463-670 | the items of both tables and of the class lie one behind the other |
| DexImage.RecordOf | app/src/main/jni/DexHunter/DexHunter.cpp:437-670 | with no class skipped, record i belongs to class i and its items survive to the end |
| DexImage.ExtraBeginsAtOriginIff | app/src/main/jni/DexHunter/DexHunter.cpp:448-491 | the extra section begins at the recorded origin if and only if the mapping ends on a four-byte boundary and no class is skipped |
| DexImage.CopiesItem | app/src/main/jni/DexHunter/DexHunter.cpp:541-555 | the bytes copied for a method are exactly the code item that lies before its instructions in memory |
| DexImage.ItemsDisjoint | app/src/main/jni/DexHunter/DexHunter.cpp:437-670 | all items of all classes, code and class data, lie at their recorded places one behind the other, so no two overlap |
| DexImage.DumpResolves | app/src/main/jni/DexHunter/DexHunter.cpp:437-726 | in the assembled file every recorded class offset reads back the patched class data, and every relocated code offset names exactly the code item of that method |
| Disassembler.Engine.Step | app/src/main/jni/capstone/cs.c:716-799 | one step returns the instruction and moves the cursors past it, or fails and leaves them |
| Disassembler.Engine.Collect | app/src/main/jni/capstone/cs.c:533-665 | capacity is always entries plus cache minus fill and the cursor is the next entry; the result is what stepping finds |
| Disassembler.Engine.Disasm | app/src/main/jni/capstone/cs.c:467-665 | success returns exactly the instructions of stepping until failure or the count, with the callback shown the whole buffer; failure to allocate returns nothing and frees everything |
| Disassembler.SameInsnsIff | app/src/main/jni/capstone/cs.c:566-578 | the batch and the stepping entry point find the same instructions if and only if the skip-data callback answers alike at every broken position |
| Disassembler.Engine.FreeAll | app/src/main/jni/capstone/cs.c:675-685 | freeing a result frees each of its blocks once |
| Disassembler.Engine.DisasmAndFree | app/src/main/jni/capstone/cs.c:467-685 | disassembling and freeing leaves no block behind |
| Disassembler.SlicesTile | app/src/main/jni/capstone/cs.c:302-313 | the consumed slices tile a prefix of the input in order, and each entry keeps the last sixteen bytes of its slice at its address |
| Disassembler.ShortInsnsTile | app/src/main/jni/capstone/cs.c:302-313 | when nothing is longer than sixteen bytes, the kept bytes put end to end are a prefix of the input |
| RegisterLists.ValuesAreSums | app/src/main/jni/capstone/MCRegisterInfo.c:53-84 | a list decodes to the 16-bit prefix sums before its first zero |
| RegisterLists.DiffListIterator.Next | app/src/main/jni/capstone/MCRegisterInfo.c:64-79 | one step drops the head of the pending registers and says whether any is left |
| RegisterLists.ContainsExactly | app/src/main/jni/capstone/MCRegisterInfo.c:134-143 | a bit set packed from a set of registers contains exactly those |
| RegisterLists.RegisterInfo.GetSubReg | app/src/main/jni/capstone/MCRegisterInfo.c:108-124 | the loop computes the specified search |
| RegisterLists.RegisterInfo.SubRegIsFirst | app/src/main/jni/capstone/MCRegisterInfo.c:108-124 | the search returns the first sub-register listed under the index, and 0 when none is |
| RegisterLists.RegisterInfo.GetMatchingSuperReg | app/src/main/jni/capstone/MCRegisterInfo.c:86-106 | the loop ends and returns the first super-register in the class whose sub-register at the index is the given one, or 0 |
| RegisterLists.RegisterInfo.ZeroMeansNone | app/src/main/jni/capstone/MCRegisterInfo.c:86-106 | for a class without register 0, zero means exactly that nothing matches |
| HookLog.ActiveAreSurvivors | app/src/main/java/unicorn/Unicorn.java:572-739 | the callbacks of an event are exactly those added and not deleted since, in order of registration |
| HookLog.MaskReachesItsEvents | app/src/main/java/unicorn/Unicorn.java:668-686 | a callback added for a mask joins each event of the mask once and no other list, in any order of the hash table |
| HookRegistry.HookList.RemoveAll | app/src/main/java/unicorn/Unicorn.java:732-737 | removal through the iterator leaves exactly the callbacks that do not equal the argument |
| HookRegistry.Unicorn.constructor | app/src/main/java/unicorn/Unicorn.java:334-348 | the eight lists are distinct and all in the list of lists |
| HookRegistry.Unicorn.HookAdd | app/src/main/java/unicorn/Unicorn.java:572-577 | adding appends to one event's list only, and registers natively exactly when the handle was zero |
| HookRegistry.Unicorn.HookAddMem | app/src/main/java/unicorn/Unicorn.java:654-657 | a memory callback joins the read list and the write list |
| HookRegistry.Unicorn.HookAddEventMem | app/src/main/java/unicorn/Unicorn.java:668-686 | every bit of the mask adds once; an exception keeps what came before it |
| HookRegistry.Unicorn.HookDel | app/src/main/java/unicorn/Unicorn.java:730-739 | deletion removes the callback from every list, shared or not |
| HookRegistry.Unicorn.Invoke | app/src/main/java/unicorn/Unicorn.java:101-109 | the callbacks that run are the active ones of the event, in order |
| HookRegistry.Unicorn.InvokeEventMem | app/src/main/java/unicorn/Unicorn.java:164-177 | all active callbacks run and the result is the conjunction of their answers |
| HookRegistry.Unicorn.InvokeIn | app/src/main/java/unicorn/Unicorn.java:232-242 | all active callbacks run and the last answer is the result |
| HookRegistry.Unicorn.RegisteredOnceBeforeUse | app/src/main/java/unicorn/Unicorn.java:572-679 | whatever can run was registered natively before; a memory-event bit never twice, and with nonzero handles nothing twice |

## Left out

- ThumbMeaning.RelocationPreservesMeaning: asks for the forms that the relocator handles, and of an IT block that it ends in the window and holds copied instructions only; the excluded ones have their exact conditions in `ThumbLimits` and `ThumbBlocks`, except coprocessor and vector loads from the program counter and forms that the architecture calls UNPREDICTABLE, which are not executed.
- ArmMeaning.RelocationPreservesMeaning: transfers with writeback, an index that is the program counter or a byte transfer of it, which the architecture leaves unpredictable, are not executed; neither are copied words that read the program counter and are not branches to an immediate, sums with it or stores of it (`bx pc`, other data processing, block and coprocessor transfers), or media words that are UNPREDICTABLE.
- ArmMeaning.TransferRightIff: asks that a guarded word is not indexed by the stack pointer, which its guard moves; `TransferRuns` says what such a word leaves, and no shorter condition is given.
- ArmMeaning.MediaRightIff: for bit-field insertions and paired saturations the condition is that the two words compute the same value; parallel sums and multiplications with all ones in that field are UNPREDICTABLE.
- X86Window.RelocationPreservesMeaning: leaves out RIP-relative operands, copied branches (which have their exact condition in `X86Gadgets`), and copied instructions that save the instruction pointer in another way: far calls, `syscall`, `xbegin`, and the stores of the floating-point state. Software interrupts are taken to do the same wherever they lie.
- X86Gadgets.CopiedBranchRightIff: calls with a 16-bit operand size in 32-bit code, which push two bytes, and `xbegin` are not modelled; 64-bit code ignores that size, as Intel processors do.
- Branches into the displaced window: the theorems give the same next address, which inside the window then meets the patched entry.
- Writes to code pages: code is read-only in all three machines, and cache flushes are not modelled.
- `mmap` and `mprotect`: their outcomes are inputs, and the buffer is word-aligned.
- `hde64_disasm`: an x86 prologue is given as the instructions the decoder delimits.
- 64-bit RIP-relative operands: their sizes and bytes are modelled, not what the rewritten load means.
- The x86 re-hook test at x86.cpp:52-60, which returns the old target before installing the new one.
- Thumb and ARM debug logging, hex dumps and the symbol lookup around the hook calls.
- The in-place bytecode fixes of `DumpClass`: the saved data section is an arbitrary sequence of bytes of the same length.
- The live virtual machine behind `DumpClass`: the methods of its classes and its failures are inputs, the memory it reads is mapped, and `malloc` in the codec always succeeds.
- Files of 2^32 bytes and more, whose offsets wrap, and code items of 2^31 bytes and more, whose length overflows an int.
- The text of mnemonics and operands, which the decoder parameter supplies.
- Overflow of the capacity arithmetic of `cs_disasm` in 32 bits.
- Decoding itself: `cs_disasm` uses an abstract decoder that consumes at least one byte and no more than there are.
- Address ranges of single Unicorn callbacks, of which only the first of an event reaches the native side, and changing the lists while a callback runs.
- The eight pairs of list and handle fields of `Unicorn.java`: they are two sequences indexed by the event, since the overloads differ in nothing else.
- The static table of engines in `Unicorn.java`, and callbacks of different engines.
- MathExtras.h, `insn_find`, kpcap, the injector, the routing table and the structure bindings: side computations and plumbing.

