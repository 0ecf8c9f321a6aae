# Verified models of NeuroVerse OS components

This project models eight components of the NeuroVerse OS host scaffold in Dafny and proves what they are for.
`dafny verify dfyconfig.toml` verifies all of it. Code that changes state is modelled as classes and methods
with the same fields, loops and branches, each proved against a specification function; the theorems are about
those functions, over all inputs and all runs.

**The JIT compiler** (`Ir`, `X86`, `Compiler`, `Emitter`, `Engine`). A stack IR is lowered to x86-64 bytes. The
IR has an evaluator; the machine has a decoder written from the ModR/M and REX formats, a fetch-decode-execute
step on bytes, data memory apart from the machine stack, and wrapping 64-bit arithmetic. The main result is
semantic preservation from IR to bytes, in any surroundings, with the exact condition under which the compiled
function returns to its caller.

**The capability space and its operations** (`Capabilities`, `CapSpace`, `CapOps`, `CapRuns`, `CapLaws`). A trie of heap
nodes, sixteen nibbles deep with eager pruning, answers as a finite map; its nodes are exactly the prefixes of
the bound handles. Above it, grants, duplicates, moves and revokes obey rules stated over whole runs on any
number of spaces: when a grant succeeds and what it binds, where every capability comes from, and that no handle is
issued twice.

**SHA-3 and SHAKE** (`Fips202`, `Keccak`, `LaneBits`, `KeccakBits`, `Sponge`, `Sha3`, `Sha3Bits`). `Fips202` is the
standard's own definition on strings of single bits, without lanes, bytes or tables. The table-driven permutation is
proved equal to the step mappings on lanes and these, bit by bit, to the standard's; the buffered streaming hashers
are proved equal to a block fold and its squeezes. Together: the bits of every digest are those of FIPS 202, for all
messages that the code pads as the standard does.

**Manifests** (`Encoding`, `Hashing`, `Package`, `Boot`, `BootText`). The length-prefixed encodings have
decoders that accept exactly the canonical bytes, and no encoding begins another; signing covers trust root and
manifest unambiguously, down to what the hash absorbs; the text printer and parser undo each other under an exact
condition.

**Virtual memory areas** (`VmaTrees`), **the deadline queue** (`DeadlineQueues`) and **the RAM file system**
(`RamFsSpec`, `RamFs`) are classes proved against a map over addresses, a stable list in pop order, and a list
of files in order of last access.

**The IPC endpoint** (`EndpointSpec`, `Endpoints`) **and the scheduler** (`Scheduler`, `Fates`) are state machines
whose steps are the locked sections and atomic actions of the code; their theorems hold over every interleaving.

`Wrappers`, `Bytes`, `Arithmetic` and `Sequences` hold what the others share.

## Where the code and what is said of it disagree

The models follow the code. Where a lemma states the matter exactly, it is named.

- The operand comments of Store at `src/jit/x86_64.cpp:139-140` are swapped; the bytes agree with the header
  (address on top, value next).
- Ret takes whatever is on top of the machine stack, so a function returns to its caller only at depth one
  (`ReturnsToCallerIff`, `RetAtDepthTwo`).
- A failed module emission leaves the functions before the failing one in the buffer, not an empty buffer
  (`FailureLeavesNoBytesIff`, `FailureKeepsFirst`).
- Revocation lasts until the 16-bit epoch comes round (`RevokedUntilWrap`).
- SHA-3 and SHAKE padding differs from FIPS 202 when the message ends one byte short of a block: 0x80 replaces
  the suffix byte instead of joining it (`PaddingConformsIff`). So the code's padding is not injective, and most
  messages share their digest with a longer one (`CodePaddedEqualIff`, `TwinDigests`, `TwinsShareDigest`).
  Manifests whose lengths fit 32 bits are safe from this: no canonical encoding begins another, so different ones
  are hashed from different padded inputs (`PaddedEncodingsDiffer`, `PaddedPreimagesDiffer`).
- A SHAKE squeeze that starts inside a block and runs past it reads outside its scratch block (`InBoundsIff`),
  and one byte followed by a whole block gets there (`SqueezeOutOfBounds`); staying inside is the precondition of
  `SqueezeBytes`.
- Canonical encodings are ambiguous from lengths of 2^32 on (`WrappedLengthsCollide`).
- Only the Exclusive flag is looked at when an existing file is opened, not Exclusive together with Create.
- The comments of the RAM file system say that every read bumps the access stamp and that a truncated file is
  the next to be evicted; reading a node does not stamp it, and opening with Truncate makes the file the most
  recently used. Opening a new file evicts nothing, since it is empty.
- A write past the end of a file takes bytes off the counter that were never added (`PastEndAccountedIff`).
- A write can evict the very file it is writing to and go on using it (`SurvivesIff`, `OldestCannotGrow`); not
  doing so is the precondition of `WriteCharging`.
- The endpoint's close is described as making every later try_recv return nothing; queued messages can still be
  received, as the same comment goes on to say and the code does.
- The ready count of the deadline queue is described as a rough lower bound; the code counts exactly.
- A cancel is described as in effect once it returns, short of interrupting what runs. It can be lost when the
  handle is posted again while it runs (`RepostLosesCancel`); `FlagHoldsIff` says exactly when it stands, and
  `MayResumeIff` when a cancelled handle can be resumed all the same.

## Model

| member | source | states |
|---|---|---|
| `Compiler.CompilerCorrect` | src/jit/x86_64.cpp:95-163 | for every Call-free function, whatever bytes precede and follow it: running the emitted bytes from a stack topped by the return address stops, and stops as the IR evaluation does (value in rax, data memory, words left above the return address) |
| `Compiler.ReturnsToCallerIff` | src/jit/x86_64.cpp:143-162 | for code that never pops an empty evaluation stack: control is back at the return address with the caller's stack intact if and only if no bad address is touched and the static depth is one at the first Ret, or zero when there is none; after a Ret, rax and memory are the IR's |
| `Compiler.RetAtDepthTwo` | src/jit/x86_64.cpp:143-146 | a function that returns with two words on the evaluation stack jumps to the second word instead of returning |
| `Compiler.ExecCompiled` | src/jit/x86_64.cpp:95-163 | the simulation over whole functions, from any evaluation stack held above any base stack |
| `Compiler.FunctionDisassembles` | src/jit/x86_64.cpp:155-163 | a left-to-right decoder recovers from a function's bytes exactly the instruction list that was emitted |
| `Compiler.SignedProduct` | src/jit/x86_64.cpp:69-75 | the low 64 bits of the signed product, which imul leaves, are the wrapped unsigned product |
| `X86.DecodeEncode` | src/jit/x86_64.cpp:37-93 | every emitted instruction form, with every register and immediate, decodes to itself and its own length in front of any bytes |
| `X86.DisassembleEncodeAll` | src/jit/x86_64.cpp:19-93 | the encodings of an instruction list decode to that list and nothing else |
| `X86.ReadAfterWrite` | include/neuro/jit/engine.hpp:55-56 | a word stored at an address, byte by byte and wrapping, is the word loaded from it, and bytes outside it keep their values |
| `Ir.ShapePredicts` | include/neuro/jit/engine.hpp:50-59 | the static stack shape of straight-line code predicts how evaluation ends and with how many words left, unless a bad address is touched |
| `Bytes.LittleEndianRoundTrip` | src/jit/x86_64.cpp:23-29 | the eight-byte immediate reads back as the word it was written from |
| `X86.ArithmeticBytes` | src/jit/x86_64.cpp:55-75 | the three register forms are the bytes of the manual's tables |
| `X86.StoreForm` | src/jit/x86_64.cpp:77-82 | so is the store |
| `X86.LoadForm` | src/jit/x86_64.cpp:84-89 | and the load |
| `X86.ImmediateBytes` | src/jit/x86_64.cpp:37-45 | prefix, opcode, and the immediate with its least significant byte first |
| `X86.StackBytes` | src/jit/x86_64.cpp:47-53 | push, pop, ret, and push of a signed byte |
| `X86.AccessIff` | include/neuro/jit/engine.hpp:55-56 | a load or a store succeeds if and only if the eight addresses, wrapping, are mapped, whatever the word |
| `X86.LoadedByte` | include/neuro/jit/engine.hpp:55-56 | the word loaded has the byte at a + k as its byte k, least significant first |
| `Ir.ArithmeticAnswers` | include/neuro/jit/engine.hpp:50-53 | adding, subtracting or multiplying two constants returns the wrapped result, with the constant pushed last on the left |
| `Ir.StoreThenLoad` | include/neuro/jit/engine.hpp:55-57 | a word stored and loaded again is returned, if its eight addresses are mapped; otherwise evaluation stops with a bad address |
| `Bytes.LittleEndianAt` | src/jit/x86_64.cpp:23-29 | byte i of an immediate is w / 256^i mod 256 |
| `Bytes.BigEndianAt` | src/pkg/store.cpp:99-105 | byte i of an n-byte length is w / 256^(n - 1 - i) mod 256 |
| `Emitter.CodeBuffer.EmitByte` | src/jit/x86_64.cpp:19-21 | appends one byte |
| `Emitter.CodeBuffer.EmitU64Le` | src/jit/x86_64.cpp:23-29 | the shifting loop appends the two's-complement bytes of the value, low byte first |
| `Emitter.CodeBuffer.EmitMovRegImm64` | src/jit/x86_64.cpp:37-45 | appends the encoding of mov reg, imm64 |
| `Emitter.CodeBuffer.EmitPushReg` | src/jit/x86_64.cpp:47-49 | appends the encoding of push reg |
| `Emitter.CodeBuffer.EmitPopReg` | src/jit/x86_64.cpp:51-53 | appends the encoding of pop reg |
| `Emitter.CodeBuffer.EmitAddRaxRbx` | src/jit/x86_64.cpp:55-60 | the literal bytes are the encoding of add rax, rbx |
| `Emitter.CodeBuffer.EmitSubRaxRbx` | src/jit/x86_64.cpp:62-67 | the literal bytes are the encoding of sub rax, rbx |
| `Emitter.CodeBuffer.EmitImulRaxRbx` | src/jit/x86_64.cpp:69-75 | the literal bytes are the encoding of imul rax, rbx |
| `Emitter.CodeBuffer.EmitStoreRaxRbx` | src/jit/x86_64.cpp:77-82 | the literal bytes are the encoding of mov [rax], rbx |
| `Emitter.CodeBuffer.EmitLoadRax` | src/jit/x86_64.cpp:84-89 | the literal bytes are the encoding of mov rax, [rax] |
| `Emitter.CodeBuffer.EmitRet` | src/jit/x86_64.cpp:91-93 | appends the encoding of ret |
| `Emitter.CodeBuffer.EmitConst` | src/jit/x86_64.cpp:97-114 | both Const forms: push imm8 when the value fits, else mov and push |
| `Emitter.CodeBuffer.EmitInstr` | src/jit/x86_64.cpp:95-153 | appends the encodings of the lowered instruction; fails, leaving the buffer as it was, exactly on Call |
| `Emitter.CodeBuffer.EmitFunction` | src/jit/x86_64.cpp:155-163 | appends the encodings of the whole compiled function exactly when it is Call-free; otherwise those of the instructions before the first Call |
| `Engine.EmitModuleX86_64` | src/jit/engine.cpp:78-89 | the buffer grows by the complete encodings of the longest Call-free prefix of functions; success exactly when all are Call-free and bytes came out, which from an empty buffer means a non-empty Call-free module |
| `Engine.Codegen` | src/jit/engine.cpp:100-115 | the result carries the requested target, and the prefix's bytes for x86_64 whether or not emission succeeded |
| `Engine.ModuleDisassembles` | src/jit/engine.cpp:78-89 | the output never holds part of a function: it decodes to whole compiled functions |
| `Engine.ModuleRunsFirst` | src/jit/engine.cpp:91-96 | running a module's bytes from offset 0 is running its first function, whatever follows |
| `Engine.FailureLeavesNoBytesIff` | src/jit/engine.cpp:81-86 | a failed emission leaves no bytes, as its comment says, if and only if there is no function or the first one contains a Call |
| `Engine.FailureKeepsFirst` | src/jit/engine.cpp:81-86 | a module of two functions whose emission fails and leaves the first one's bytes |
| `Capabilities.AttenuateDerives` | include/neuro/core/capability.hpp:64-69 | attenuation keeps object, epoch and generation and never adds a right |
| `CapSpace.CapabilitySpace.Lookup` | include/neuro/sec/cap_space.hpp:67-77 | the 16-level walk answers as the finite map does, for every 64-bit handle; a node reached at depth 16 always has a value |
| `CapSpace.CapabilitySpace.HandleInUse` | include/neuro/sec/cap_space.hpp:182-190 | true exactly when the handle is bound |
| `CapSpace.CapabilitySpace.Contains` | include/neuro/sec/cap_space.hpp:83-85 | true exactly when the handle is bound |
| `CapSpace.CapabilitySpace.MintHandle` | include/neuro/sec/cap_space.hpp:173-180 | finds the first non-zero unbound counter value, wrapping, or none after 2^64 - 1 candidates |
| `CapSpace.CapabilitySpace.InsertAt` | include/neuro/sec/cap_space.hpp:192-207 | binds an unbound handle and no other; refuses a bound one |
| `CapSpace.CapabilitySpace.Insert` | include/neuro/sec/cap_space.hpp:56-64 | binds the minted handle, which was unbound and non-zero, or changes no binding |
| `CapSpace.CapabilitySpace.Erase` | include/neuro/sec/cap_space.hpp:89-116 | returns and removes exactly that binding; pruning changes no other lookup and restores the shape invariant |
| `CapSpace.CapabilitySpace.PrunePath` | include/neuro/sec/cap_space.hpp:105-114 | the upward loop removes exactly the nodes left empty |
| `CapSpace.CapabilitySpace.PruneAt` | include/neuro/sec/cap_space.hpp:106-114 | one turn of the pruning loop: the node at this depth goes if it is empty, and then only its parent may be empty |
| `CapSpace.CapabilitySpace.NodeAtDepth` | include/neuro/sec/cap_space.hpp:209-220 | the walk from the root finds the node at a prefix of the path, or nothing when it has been pruned |
| `CapSpace.CapabilitySpace.NodesArePrefixes` | include/neuro/sec/cap_space.hpp:103-114 | in every valid state the nodes below the root are exactly the non-empty nibble prefixes of the bound handles, the node counter is one more than their number, and the size is the number of bindings |
| `CapSpace.CapabilitySpace.constructor` | include/neuro/sec/cap_space.hpp:46-49 | starts empty, without a root, with a node count of one |
| `CapSpace.PathInjective` | include/neuro/sec/cap_space.hpp:163-167 | different handles have different nibble paths |
| `CapSpace.PathSurjective` | include/neuro/sec/cap_space.hpp:163-167 | every path of 16 nibbles is some handle's |
| `CapSpace.MintedUnique` | include/neuro/sec/cap_space.hpp:173-180 | the handle search has one possible result |
| `CapSpace.MintedFresh` | include/neuro/sec/cap_space.hpp:173-180 | a minted handle was unbound |
| `CapSpace.MintedAdvances` | include/neuro/sec/cap_space.hpp:173-180 | the search leaves the counter just past the handle it finds |
| `CapSpace.MintSucceedsIff` | include/neuro/sec/cap_space.hpp:169-180 | the search succeeds if and only if some non-zero handle is free other than the one just behind the counter |
| `CapSpace.MintFailsOnlyWhenFull` | include/neuro/sec/cap_space.hpp:169-180 | the search fails only if at least 2^64 - 2 handles are bound |
| `CapOps.CapEpoch.Revoke` | include/neuro/sec/epoch.hpp:34-39 | increments modulo 2^16 and returns the new value |
| `CapOps.MintInto` | include/neuro/sec/cap_ops.hpp:38-47 | inserts the capability minted at the current epoch |
| `CapOps.Resolve` | include/neuro/sec/cap_ops.hpp:50-60 | the bound capability, if the epoch agrees and the required rights are there |
| `CapOps.NarrowedDerives` | include/neuro/sec/cap_ops.hpp:64-69 | a narrowed capability derives from the original |
| `CapOps.Grant` | include/neuro/sec/cap_ops.hpp:75-97 | on two spaces or one: the resolved, narrowed capability is bound in the destination and the source handle goes if taking; a refusal changes no binding |
| `CapOps.Duplicate` | include/neuro/sec/cap_ops.hpp:101-119 | the same without the Grant right, the epoch and the taking |
| `CapOps.Move` | include/neuro/sec/cap_ops.hpp:125-132 | a taking grant |
| `CapRuns.HeldCapabilitiesDescend` | include/neuro/sec/cap_ops.hpp:38-139 | over any run on any number of spaces and epochs, every held capability has the object, epoch and generation of the mint it descends from and at most its rights |
| `CapRuns.RunKeepsSound` | include/neuro/sec/cap_ops.hpp:38-139 | the run invariant: origins of held capabilities and the count of revokes behind every epoch value |
| `CapRuns.ResolvesIffEpochsAgree` | include/neuro/sec/epoch.hpp:41-45 | a held capability resolves if and only if it has every required right and the revokes of the epoch agree, modulo 2^16, with those at its mint |
| `CapRuns.RevokedUntilWrap` | include/neuro/sec/epoch.hpp:27-39 | what resolved before n revokes resolves after them if and only if 2^16 divides n |
| `CapLaws.GrantSucceedsIff` | include/neuro/sec/cap_ops.hpp:75-97 | in every run, a grant succeeds if and only if the handle is bound, its capability has the Grant right (bit 3) and all rights asked for, the revokes of the epoch agree, modulo 2^16, with those at its mint, and the destination has room; it binds the capability unchanged, or with exactly the rights asked for, under a fresh handle, and drops the source binding when taking; otherwise no binding changes |
| `CapLaws.DuplicateSucceedsIff` | include/neuro/sec/cap_ops.hpp:101-119 | the same for duplicates, which ask for no Grant right and no epoch and drop nothing |
| `CapLaws.MintSucceeds` | include/neuro/sec/cap_ops.hpp:38-47 | minting succeeds if and only if there is room, and binds the given fields, object and generation cut to 48 bits |
| `CapLaws.ReissuedIff` | include/neuro/sec/cap_space.hpp:169-180 | between two issues from one space the counter goes up, whatever is erased or granted in between, and the second handle is the first again if and only if it went up by a multiple of 2^64 |
| `CapLaws.HandlesIncrease` | include/neuro/sec/cap_space.hpp:169-180 | in every run, the handles of a space strictly increase while its counter has not wrapped: none is issued twice |
| `CapRuns.StepCountsHeld` | include/neuro/sec/cap_ops.hpp:71-119 | a taking grant conserves the number of held capabilities, any other success adds one, and a failure changes no binding in any space |
| `Keccak.KeccakF1600` | include/neuro/pkg/sha3.hpp:43-127 | the table-driven code computes the permutation built from the step mappings of section 3.2 of FIPS 202, with the rho walk and the round constants of the LFSR and no tables |
| `LaneBits.RotlBit` | include/neuro/pkg/sha3.hpp:39-41 | bit (z + n) mod 64 of a lane rotated by n is bit z of the lane, for every n and z |
| `LaneBits.NonlinearBit` | include/neuro/pkg/sha3.hpp:112-121 | chi adds to each bit the conjunction of the complemented next bit and the one after |
| `LaneBits.ParityBit` | include/neuro/pkg/sha3.hpp:86-90 | the column parity of five lanes is the parity of their bits |
| `KeccakBits.PermutationIsFips` | include/neuro/pkg/sha3.hpp:43-127 | the permutation of lanes is, bit by bit, KECCAK-p[1600, 24] as FIPS 202 defines it on state strings |
| `KeccakBits.ThetaString` | include/neuro/pkg/sha3.hpp:85-102 | theta on lanes is theta on bits |
| `KeccakBits.RhoString` | include/neuro/pkg/sha3.hpp:104-110 | rho on lanes is algorithm 2 on bits |
| `KeccakBits.ChiString` | include/neuro/pkg/sha3.hpp:112-121 | chi on lanes is chi on bits |
| `KeccakBits.ConstantString` | include/neuro/pkg/sha3.hpp:45-58 | the bits of the round constants are those of algorithms 5 and 6 |
| `Keccak.TablesArePi` | include/neuro/pkg/sha3.hpp:69-82 | each (source, target) pair of the tables is a step of pi |
| `Keccak.OffsetTable` | include/neuro/pkg/sha3.hpp:61-67 | the offset table holds the rotations of the walk of algorithm 2 |
| `Keccak.RegisterIs` | include/neuro/pkg/sha3.hpp:45-58 | the round constants are the bits of the linear feedback register of algorithm 5 |
| `Sponge.XorBytesMeaning` | include/neuro/pkg/sha3.hpp:130-142 | XORing a block into the lanes adds each byte to its place in the state string and changes no other |
| `Sponge.StateOfBytes` | include/neuro/pkg/sha3.hpp:144-152 | the bytes of the state determine it |
| `Sha3Bits.StateByteBit` | include/neuro/pkg/sha3.hpp:144-152 | bit b of byte i of the state is bit 8i + b of the state string, as section B.1 has it |
| `Sha3Bits.AbsorbBlockString` | include/neuro/pkg/sha3.hpp:130-142 | absorbing a block is adding its bits to the state string and permuting |
| `Sponge.AbsorbMore` | include/neuro/pkg/sha3.hpp:184-211 | absorbing continues from the tail of what came before, for every split of a message |
| `Sponge.TailLength` | include/neuro/pkg/sha3.hpp:201-210 | the tail is the message length modulo the rate long |
| `Sponge.FipsPaddedIsStandard` | include/neuro/pkg/sha3.hpp:257-262 | the byte-level padding is the bit string message, suffix, pad10*1 of sections 5.1, 6.1, 6.2 and B.1 of FIPS 202 |
| `Sponge.PaddingConformsIff` | include/neuro/pkg/sha3.hpp:257-262 | the code's padding is that one if and only if the message length is not rate - 1 modulo the rate |
| `Sponge.CodePaddedEqualIff` | include/neuro/pkg/sha3.hpp:257-262 | the code pads two messages alike if and only if they are equal or one is the other followed by the suffix byte and zeros up to one byte short of a block |
| `Sponge.StreamIsSponge` | include/neuro/pkg/sha3.hpp:320-332 | byte q * rate + r of the output is byte r of the state permuted q times |
| `Sponge.StreamConcat` | include/neuro/pkg/sha3.hpp:317-333 | consecutive stretches of the output join up |
| `Sha3.AbsorbInto` | include/neuro/pkg/sha3.hpp:130-142 | the byte loop and the permutation are one sponge step |
| `Sha3.SqueezeInto` | include/neuro/pkg/sha3.hpp:144-152 | copies out the first bytes of the state string |
| `Sha3.Hasher.Reset` | include/neuro/pkg/sha3.hpp:178-182 | a reset hasher is as good as new, although its squeeze position keeps its old value |
| `Sha3.Hasher.Absorb` | include/neuro/pkg/sha3.hpp:184-211 | appends the input to what was absorbed, whatever the buffer held; a finalised hasher ignores it |
| `Sha3.Hasher.Final` | include/neuro/pkg/sha3.hpp:255-272 | the digest of everything absorbed, and the same again on later calls |
| `Sha3.Hasher.SqueezeBytes` | include/neuro/pkg/sha3.hpp:304-334 | the next stretch of the output stream, when the squeeze starts on a block boundary or fits the current block |
| `Sha3.InBoundsIff` | include/neuro/pkg/sha3.hpp:320-327 | the copies of a squeeze stay inside the scratch block if and only if it starts on a block boundary or ends within the block |
| `Sha3.PositionAfterSqueeze` | include/neuro/pkg/sha3.hpp:304-334 | a SHAKE hasher that has squeezed n bytes in one call stands at n modulo the rate, so from there a squeeze of k bytes stays in bounds if and only if n is a multiple of the rate or k fits the rest of the block |
| `Sha3.SqueezeOutOfBounds` | include/neuro/pkg/sha3.hpp:320-327 | a hasher that has squeezed one byte stands where squeezing a whole block reads outside the scratch block, at every rate above one |
| `Sha3.PiecesAreOneStream` | include/neuro/pkg/sha3.hpp:304-334 | any series of squeezes concatenates to one squeeze of the total length |
| `Sha3.DigestIsStandard` | include/neuro/pkg/sha3.hpp:255-272 | for every message whose length is not rate - 1 modulo the rate, the digest is the sponge of FIPS 202 on the padded bit string |
| `Sha3Bits.DigestIsFips` | include/neuro/pkg/sha3.hpp:255-272 | for every message whose length is not rate - 1 modulo the rate, the bits of the digest are those of SPONGE[KECCAK-p[1600, 24], pad10*1, r] on the message bits and the suffix |
| `Sha3Bits.FunctionsAreFips` | include/neuro/pkg/sha3.hpp:275-278 | so for SHA3-224, SHA3-256, SHA3-384, SHA3-512, SHAKE128 and SHAKE256 of section 6, on all such messages and for every output length |
| `Sha3.TwinDigests` | include/neuro/pkg/sha3.hpp:255-272 | every message that ends two or more bytes short of a block has the digest of a longer message |
| `Sha3.OneShot` | include/neuro/pkg/sha3.hpp:240-245 | the digest of the input |
| `Sha3.ShakeOneShot` | include/neuro/pkg/sha3.hpp:291-296 | the first n bytes of output for the input, for any n |
| `Sha3.ChunkedDigest` | include/neuro/pkg/sha3.hpp:373-381 | every cutting of a message into chunks gives its one-shot digest |
| `Hashing.TwinsShareDigest` | include/neuro/pkg/sha3.hpp:257-262 | the same for SHA3-512 on byte strings: the suffix byte 6 and zeros appended to a message leave its digest as it was |
| `Hashing.EqualSumsIff` | include/neuro/pkg/sha3.hpp:240-245 | two byte strings have one digest if and only if their padded inputs are equal or collide in the sponge |
| `Hashing.SamePaddedInputIff` | include/neuro/pkg/sha3.hpp:257-262 | and equal padded inputs if and only if they are equal or one is the other with a suffix byte and zeros after it |
| `Hashing.HashesAreFips` | include/neuro/pkg/sha3.hpp:349-368 | SHA3-512 and SHA3-256 of byte strings are those of FIPS 202 where the padding conforms |
| `Encoding.AppendBe32` | src/pkg/store.cpp:99-105 | the four pushes append the big-endian bytes of the size modulo 2^32 |
| `Encoding.AppendText` | src/pkg/store.cpp:112-118 | appends the length and the characters |
| `Encoding.AppendBe64` | include/neuro/boot/protocol.hpp:177-181 | the shifting loop appends the big-endian bytes |
| `Encoding.ReadTextIff` | src/pkg/store.cpp:112-118 | the string reader returns s and rest exactly on the encoding of s, shorter than 2^32, followed by rest |
| `Encoding.ReadCountedIff` | src/pkg/store.cpp:126-132 | the same for counted lists of anything that has such a reader |
| `Package.Canonicalise` | src/pkg/store.cpp:122-134 | produces the canonical bytes |
| `Package.DecodeIff` | src/pkg/store.cpp:122-134 | the decoder accepts a byte string as m if and only if it is the canonical encoding of m and every length fits 32 bits |
| `Package.ReadManifestIff` | src/pkg/store.cpp:122-134 | the reader returns m and rest exactly on the canonical bytes of a fitting m followed by rest |
| `Package.CanonicalPrefixFree` | src/pkg/store.cpp:90-93 | no canonical encoding of a fitting manifest begins the encoding of one with other contents |
| `Package.PaddedEncodingsDiffer` | src/pkg/store.cpp:136-139 | fitting manifests with different contents are hashed from different padded inputs, although the code's padding is not injective |
| `Package.CanonicalInjective` | src/pkg/store.cpp:90-93 | equal canonical bytes mean equal manifests, up to the recorded root, when lengths fit 32 bits |
| `Package.WrappedLengthsCollide` | src/pkg/store.cpp:112-118 | at length 2^32 two different manifests have the same canonical bytes |
| `Package.ContentRoot` | src/pkg/store.cpp:136-139 | SHA3-512 of the canonical bytes |
| `Package.Verify` | src/pkg/store.cpp:141-164 | reports the first entry missing from the store, else a root mismatch, else nothing |
| `Package.VerifiedMeansSignedOrCollision` | src/pkg/store.cpp:152-161 | a manifest whose root matches another's has its contents, or the sponge gives one output for their two different padded inputs |
| `Boot.Canonicalise` | include/neuro/boot/protocol.hpp:162-213 | produces the canonical bytes, capabilities as their raw 16 bytes |
| `Boot.DecodeIff` | include/neuro/boot/protocol.hpp:162-213 | the decoder accepts a byte string as m if and only if it is the canonical encoding of m and every length fits 32 bits |
| `Boot.ReadManifestIff` | include/neuro/boot/protocol.hpp:162-213 | the reader returns m and rest exactly on the canonical bytes of a fitting m followed by rest |
| `Boot.CanonicalPrefixFree` | include/neuro/boot/protocol.hpp:159-161 | no canonical encoding of a fitting manifest begins another |
| `Boot.CanonicalInjective` | include/neuro/boot/protocol.hpp:159-161 | equal canonical bytes mean equal manifests |
| `Boot.ReadSegmentIff` | include/neuro/boot/protocol.hpp:186-201 | the segment reader inverts the segment encoding and accepts nothing else |
| `Boot.ReadCapabilityIff` | include/neuro/boot/protocol.hpp:203-211 | the 16 raw bytes determine the four bit-fields and back |
| `Boot.CapabilityWords` | include/neuro/boot/protocol.hpp:203-211 | the 16 bytes are two words, low byte first: object id and rights times 2^48, epoch and generation times 2^16 |
| `Boot.Sign` | src/boot/protocol.cpp:50-61 | SHA3-512 of the trust root followed by the canonical bytes |
| `Boot.PreimageInjective` | src/boot/protocol.cpp:50-61 | the signed bytes determine both the trust root and the manifest |
| `Boot.PreimagePrefixFree` | src/boot/protocol.cpp:50-61 | the signed bytes of one root and manifest never begin those of another |
| `Boot.PaddedPreimagesDiffer` | src/boot/protocol.cpp:50-61 | different fitting manifests or roots are signed from different padded inputs |
| `Boot.VerifySignature` | src/boot/protocol.cpp:63-68 | accepts exactly the signature made for this manifest and root |
| `Boot.AcceptedMeansSignedOrCollision` | include/neuro/boot/protocol.hpp:215-218 | a signature is accepted for no other manifest or root, unless the sponge gives one output for their two different padded inputs |
| `Boot.SignatureIsFips` | src/boot/protocol.cpp:50-61 | the signature is the SHA3-512 of FIPS 202 of root and canonical bytes, where the padding conforms |
| `Boot.TrustRootFromPassphrase` | src/boot/protocol.cpp:70-72 | SHA3-256 of the bytes of the passphrase |
| `Boot.EqualRootsIff` | src/boot/protocol.cpp:70-72 | two passphrases give one trust root if and only if they are equal, or one is the other's padding twin, or the sponge gives one output for their two different padded inputs |
| `Boot.TrustRootIsFips` | src/boot/protocol.cpp:70-72 | the trust root is the SHA3-256 of FIPS 202, for passphrases that do not end one byte short of a block |
| `Boot.LoadSignedManifest` | src/boot/protocol.cpp:74-79 | returns the manifest exactly when its signature matches under the host root |
| `BootText.ToText` | include/neuro/boot/protocol.hpp:59-82 | prints the line format |
| `BootText.ParseText` | include/neuro/boot/protocol.hpp:87-137 | the index-driven loop is the line-by-line parser, down to what has been filled in when a number throws |
| `BootText.TakeLine` | include/neuro/boot/protocol.hpp:93-134 | one line: its key decides what it sets |
| `BootText.ReadFields` | include/neuro/boot/protocol.hpp:109-128 | the six fields of a segment line |
| `BootText.Next` | include/neuro/boot/protocol.hpp:112-116 | the field up to the next space, and the position after that space |
| `BootText.CleanRoundTripIff` | include/neuro/boot/protocol.hpp:59-137 | parsing the printed text of any manifest gives it back without its capabilities if and only if no text holds a newline, version and build id have no leading blank and segment names no space |
| `BootText.OtherLinesSkipped` | include/neuro/boot/protocol.hpp:93-134 | a line without a colon, or with any other key, changes nothing wherever it stands |
| `BootText.StoullOfDigits` | include/neuro/boot/protocol.hpp:124-127 | a run of digits reads as its value, or throws when that does not fit 64 bits |
| `BootText.StoullThrows` | include/neuro/boot/protocol.hpp:124-127 | a text that starts with no digit, sign or space throws |
| `BootText.TextRoundTripIff` | include/neuro/boot/protocol.hpp:59-137 | parsing the printed text succeeds and gives m back if and only if the version is not empty, there are no capabilities, no newline in a text, no leading blank in version or build id and no space in a segment name |
| `BootText.PrintThenParse` | include/neuro/boot/protocol.hpp:59-137 | the same for the two functions run one after the other |
| `BootText.ParseYieldsPrintable` | include/neuro/boot/protocol.hpp:87-137 | whatever the input, the parser only produces manifests that the text form can carry |
| `BootText.StoullOfDecimal` | include/neuro/boot/protocol.hpp:124-127 | every 64-bit value printed in decimal reads back |
| `VmaTrees.VmaTree.Insert` | include/neuro/mem/vma_tree.hpp:41-52 | succeeds exactly for a non-empty interval that overlaps no entry, and then puts it in its place; else nothing changes |
| `VmaTrees.VmaTree.Erase` | include/neuro/mem/vma_tree.hpp:55-62 | removes exactly the entry that starts there |
| `VmaTrees.VmaTree.Split` | include/neuro/mem/vma_tree.hpp:70-92 | cuts the entry around the address in two, exactly when the address is strictly inside one |
| `VmaTrees.VmaTree.CoalesceEqual` | include/neuro/mem/vma_tree.hpp:97-113 | ends with no mergeable neighbours, the address map and the total unchanged; the result is the drop in entries |
| `VmaTrees.VmaTree.Find` | include/neuro/mem/vma_tree.hpp:116-125 | bisection returns what the linear scan returns |
| `VmaTrees.VmaTree.UpperBound` | include/neuro/mem/vma_tree.hpp:118-120 | the position after the last entry that starts at or before the address |
| `VmaTrees.VmaTree.LowerBound` | include/neuro/mem/vma_tree.hpp:56-58 | the position of the first entry that starts at or after the address |
| `VmaTrees.VmaTree.TotalSize` | include/neuro/mem/vma_tree.hpp:137-141 | the wrapping 64-bit sum is the number of mapped addresses: it never wraps |
| `VmaTrees.InsertedScan` | include/neuro/mem/vma_tree.hpp:41-52 | inserting adds exactly the addresses of the interval |
| `VmaTrees.OverlapMeansMapped` | include/neuro/mem/vma_tree.hpp:144-146 | the overlap test refuses exactly the intervals that contain a mapped address |
| `VmaTrees.ErasedScan` | include/neuro/mem/vma_tree.hpp:55-62 | erasing unmaps the addresses of the erased entry and no others |
| `VmaTrees.SplitKeeps` | include/neuro/mem/vma_tree.hpp:70-92 | splitting changes neither the mapping of any address nor the total |
| `VmaTrees.MergeIsUnsplit` | include/neuro/mem/vma_tree.hpp:102-106 | merging is undone by splitting at the seam |
| `VmaTrees.CoalescedUnique` | include/neuro/mem/vma_tree.hpp:97-113 | the coalesced form is canonical: two disjoint sorted lists without mergeable neighbours and with one address map are equal |
| `VmaTrees.TotalCounts` | include/neuro/mem/vma_tree.hpp:137-141 | the total size is the number of mapped addresses |
| `VmaTrees.SortedUnique` | include/neuro/mem/vma_tree.hpp:47-50 | with disjoint intervals the sort has one possible result |
| `DeadlineQueues.DeadlineQueue.Push` | include/neuro/sched/deadline.hpp:45-49 | adds the entry; in the reference queue it goes after every entry due no later |
| `DeadlineQueues.DeadlineQueue.Pop` | include/neuro/sched/deadline.hpp:53-62 | removes and returns an entry that none comes before; in the reference queue, the head |
| `DeadlineQueues.DeadlineQueue.TryPop` | include/neuro/sched/deadline.hpp:66-70 | returns nothing exactly when no queued entry is due |
| `DeadlineQueues.DeadlineQueue.NextDeadline` | include/neuro/sched/deadline.hpp:73-76 | the least deadline queued |
| `DeadlineQueues.DeadlineQueue.ReadyCount` | include/neuro/sched/deadline.hpp:86-95 | exactly the length of the prefix of the pop order that is due |
| `DeadlineQueues.DeadlineQueue.SiftUp` | include/neuro/sched/deadline.hpp:100-108 | restores the heap when only the link above one element may be wrong, keeping the elements |
| `DeadlineQueues.DeadlineQueue.SiftDown` | include/neuro/sched/deadline.hpp:110-124 | restores the heap when only the links below one element may be wrong, keeping the elements |
| `DeadlineQueues.RootFirst` | include/neuro/sched/deadline.hpp:37-42 | nothing in a heap comes before its root |
| `DeadlineQueues.QueuedIsStableSort` | include/neuro/sched/deadline.hpp:32-43 | the pop order after pushing jobs is a permutation by deadline, equal deadlines in order of arrival |
| `DeadlineQueues.PushAllThenDrain` | include/neuro/sched/deadline.hpp:45-62 | pushing jobs and popping until empty yields that stable sort |
| `RamFs.RamVNode.Read` | src/fs/ramfs.cpp:16-31 | the bytes from the offset; an error exactly past the end |
| `RamFs.RamVNode.Write` | src/fs/ramfs.cpp:33-47 | the bytes in place, growing the file; an error and no change exactly past the end |
| `RamFs.RamVNode.Truncate` | src/fs/ramfs.cpp:49-53 | shortens, never extends |
| `RamFs.RamFS.Lookup` | src/fs/ramfs.cpp:83-92 | finds the node and makes it the most recently used file |
| `RamFs.RamFS.Open` | src/fs/ramfs.cpp:94-127 | all branches of opening, in terms of the list of files by last access |
| `RamFs.RamFS.WriteCharging` | src/fs/ramfs.cpp:129-165 | reservation, write, rollback or charge, in terms of that list |
| `RamFs.RamFS.EvictOldest` | src/fs/ramfs.cpp:183-195 | erases the least recently used file, whatever order the hash map is walked in |
| `RamFs.RamFS.FindOldest` | src/fs/ramfs.cpp:185-190 | any walk over the map finds a node with the least stamp |
| `RamFs.RamFS.ReserveBytes` | src/fs/ramfs.cpp:197-204 | evicts from the front of that list until the request fits; fails when none are left |
| `RamFs.RamFS.Clear` | src/fs/ramfs.cpp:177-181 | empties files and counter |
| `RamFsSpec.SplicedAt` | src/fs/ramfs.cpp:43-46 | after a write the written range holds the new bytes and every other byte is as it was |
| `RamFsSpec.LookupEffect` | src/fs/ramfs.cpp:83-92 | finding a file makes it the most recently used one and changes no contents |
| `RamFsSpec.OpenEffect` | src/fs/ramfs.cpp:94-127 | opening succeeds on an existing file unless Exclusive, and on a missing one with Create; the file becomes the most recently used, a truncated or new file is empty, every other file keeps its contents, and a refusal changes nothing and says InvalidArgument for an existing file, NotFound for a missing one |
| `RamFsSpec.VictimsShortest` | src/fs/ramfs.cpp:197-204 | the victims are the shortest prefix in order of last access whose loss makes the request fit; all files when it exceeds the capacity |
| `RamFsSpec.ReserveIs` | src/fs/ramfs.cpp:197-204 | a reservation drops exactly those and fails if and only if the request alone exceeds the capacity |
| `RamFsSpec.SurvivesIff` | src/fs/ramfs.cpp:144-156 | the file being written survives its own reservation if and only if it, the files used after it and the growth fit together, or the growth cannot fit at all |
| `RamFsSpec.OldestCannotGrow` | src/fs/ramfs.cpp:144-156 | growing the oldest file of a full cache evicts that very file |
| `RamFsSpec.WriteFailsIff` | src/fs/ramfs.cpp:150-154 | inside the file a write fails if and only if its growth exceeds the capacity, and then every file is gone |
| `RamFsSpec.WriteSucceeds` | src/fs/ramfs.cpp:156-164 | otherwise the shortest sufficient prefix is gone, the file has the bytes and is the most recently used, and all others are as they were |
| `RamFsSpec.PastEndAccountedIff` | src/fs/ramfs.cpp:150-161 | after a write past the end the counter is still right if and only if the growth is zero, or exceeds the capacity, or the files left after making room for it hold no bytes; the error is OutOfMemory exactly when the growth cannot be reserved, else InvalidArgument |
| `RamFsSpec.PastEndLosesBytes` | src/fs/ramfs.cpp:156-161 | one such write loses track of two bytes |
| `RamFsSpec.RunsStayGood` | src/fs/ramfs.cpp:83-181 | over every run of orderly operations the counter is the sum of the file sizes and stays within a non-zero capacity |
| `Endpoints.Endpoint.SendNowait` | include/neuro/ipc/endpoint.hpp:169-186 | hands the message to the longest-parked receiver, else queues it, else, once closed, drops it |
| `Endpoints.Endpoint.AwaitReady` | include/neuro/ipc/endpoint.hpp:80-86 | takes the head of the queue, or reports that the operation must suspend |
| `Endpoints.Endpoint.AwaitSuspend` | include/neuro/ipc/endpoint.hpp:92-106 | takes a message that raced in, gives up on a closed endpoint, or parks |
| `Endpoints.Endpoint.TryRecv` | include/neuro/ipc/endpoint.hpp:119-125 | takes the head off the queue and returns it, closed or not; returns nothing exactly when the queue is empty |
| `Endpoints.Endpoint.Close` | include/neuro/ipc/endpoint.hpp:151-160 | closes, and wakes every parked receiver in park order with nothing; queued messages stay |
| `EndpointSpec.ExactlyOnceInOrder` | include/neuro/ipc/endpoint.hpp:80-186 | over every interleaving: the messages sent before the first close are those delivered, in order, then the queue, and those sent after it are dropped; what the try_recv calls returned is exactly their part of the deliveries, in order; the endpoint is closed if and only if a close was among the events; receivers wake in park order; nobody is parked while a message is queued or after close; each receive operation gets at most one message, and ends with none only on a closed endpoint |
| `EndpointSpec.TriesAreDeliveries` | include/neuro/ipc/endpoint.hpp:119-125 | what try_recv callers are handed over a run is what is delivered to them |
| `EndpointSpec.CloseDivides` | include/neuro/ipc/endpoint.hpp:151-186 | a close is for good: sends before it are accepted, sends after it dropped |
| `EndpointSpec.RunsKeep` | include/neuro/ipc/endpoint.hpp:80-186 | the invariant behind it, over every interleaving |
| `EndpointSpec.StepKeeps` | include/neuro/ipc/endpoint.hpp:80-186 | every locked section keeps it |
| `Scheduler.WorkerConserves` | include/neuro/sched/scheduler.hpp:189-219 | in every reachable state, what was pushed to a worker is, in order, what it disposed of, its hand and its queue, and in number its queue, hand and completed count; a worker exits with an empty queue |
| `Scheduler.CancelledInTime` | include/neuro/sched/scheduler.hpp:84-100 | a handle cancelled before any worker has checked it, and posted at most once, is never resumed, however often other handles are posted |
| `Scheduler.SharedEvenly` | include/neuro/sched/scheduler.hpp:72-76 | after k posts, k at most 2^64, worker i of n has received k / n of them, and one more if i is below k mod n |
| `Scheduler.AssignedEvenly` | include/neuro/sched/scheduler.hpp:74-74 | the arithmetic of the round-robin counter behind it |
| `Scheduler.RunsKeep` | include/neuro/sched/scheduler.hpp:72-219 | the invariant over every interleaving of posts, cancels, stops and worker actions |
| `Scheduler.StepKeeps` | include/neuro/sched/scheduler.hpp:72-219 | every atomic action keeps it |
| `Fates.FlagHoldsIff` | include/neuro/sched/scheduler.hpp:84-100 | a raised cancel flag stands until the next check of its handle, whatever runs until then, if and only if no worker is between a check of that handle and the cleanup after it |
| `Fates.CancelHoldsIff` | include/neuro/sched/scheduler.hpp:84-88 | so for a cancel made in any state |
| `Fates.MayResumeIff` | include/neuro/sched/scheduler.hpp:205-217 | a cancelled handle that some worker has yet to check can come to its next check without its flag, to be resumed there, if and only if a worker is between an earlier check of that handle and the cleanup after it |
| `Fates.UnflaggedIsResumed` | include/neuro/sched/scheduler.hpp:205-217 | at a check without a flag the worker resumes the handle |
| `Fates.CheckSealsFate` | include/neuro/sched/scheduler.hpp:205-217 | whatever happens afterwards, the worker that checks a handle destroys it if its flag stands at the check and resumes it otherwise |
| `Fates.HeldFlagDestroys` | include/neuro/sched/scheduler.hpp:78-83 | a flag that nobody is about to clear is seen: the next check of its handle has the handle destroyed |
| `Fates.DestroyedWasCancelled` | include/neuro/sched/scheduler.hpp:205-213 | in every reachable state, every raised flag and every destroyed handle goes back to a cancel of that handle in the run |
| `Fates.DrainedExactlyOnce` | include/neuro/sched/scheduler.hpp:174-219 | once all workers have exited, every post has been resumed or destroyed exactly once, by one worker, and what was never cancelled has been resumed |
| `Fates.StoppedWorkerDrains` | include/neuro/sched/scheduler.hpp:174-219 | a worker told to stop, with no post under way, is never blocked and exits after exactly the number of its own actions that its queue and position give, at most eight for each queued handle and eight more, however the others interleave |
| `Fates.RepostLosesCancel` | include/neuro/sched/scheduler.hpp:205-217 | a run from the start in which a handle posts itself again while it runs, is cancelled while it waits in the queue, and is resumed a second time |

## Left out

- Emitter.CodeBuffer.EmitConst: F64 constants are left out, since their cast from floating point is not modelled.
- Engine.Codegen: the textual disassembly field of the result is left out.
- `execute` with its page mapping and function-pointer call: execution is the x86 step function.
- X86: the machine stack is a list of words apart from data memory, so code that reads its own stack through a
  data address is outside the model; flags are not modelled, as no emitted instruction reads them.
- Collision resistance of the SHA-3 sponge: statements about signatures and roots say "or one output for two
  different padded inputs".
- File input: `put_file` and `sha3_512_file` are left out but for the chunk loop of the latter.
- Sha3.Hasher.SqueezeBytes: requires what `InBoundsIff` shows to be exactly the squeezes that stay in bounds.
- Package.CanonicalInjective: requires lengths below 2^32, as `DecodeIff` shows to be exactly right; so do the
  lemmas built on it, and their like in `Boot`.
- Bytes of the SHA-3 state are bit-vectors, other byte strings are numbers below 256; `Hashing` converts.
- Keccak: a shift by a variable number of places is modelled as that many shifts by one place.
- Error message texts are left out; error kinds are kept.
- BootText: stoull's two exceptions are one outcome, as nothing distinguishes them; the manifest as filled so far
  is kept.
- VmaTrees: `std::sort`, `std::lower_bound` and `std::upper_bound` are verified methods with the library's
  contracts; vectors are sequence fields.
- DeadlineQueues.DeadlineQueue.Push: its place in the reference queue is only claimed to be the pop order until
  2^64 pushes, when the sequence number wraps; the heap claims hold beyond.
- The clock is a parameter of the deadline queue's methods.
- RamFs.RamFS.WriteCharging: requires that the reservation does not evict the target, where the code would use a
  destroyed node.
- RamFs: node ids, file handles, the recursive locking and direct writes through a node pointer obtained from
  lookup, which bypass the budget; the access stamp and the byte counter do not wrap.
- RamFsSpec.RunsStayGood: its runs leave out writes past the end of a file, where `PastEndAccountedIff` shows the
  count to fail, and take for granted that the bytes held fit the address space.
- CapSpace: `size_t` and node counters do not wrap; concurrent revokes, which can lose an increment, are taken one
  after the other.
- Endpoints: `recv_blocking` and its polling, `EndpointPair`, callbacks that re-enter the endpoint while it closes,
  and memory orderings; each locked section is one step.
- Scheduler: the condition variable is a step that is enabled when its predicate holds; posts that begin after
  the destructor has are not steps; the worker loop is a state machine on values, since its actions interleave
  with other threads', and not a method with a loop.
- Scheduler.CancelledInTime: requires that the handle itself is posted at most once; `Fates.FlagHoldsIff` gives the
  exact condition for any handle, and `Fates.RepostLosesCancel` a run in which a cancel is lost.
- Scheduler.SharedEvenly: holds up to 2^64 posts, when the counter wraps.
- Sockets, logging, the UI scene, the optimizer, the driver bus, the remaining file systems, arenas, pools and
  page tables: plumbing, or sound and easier.
