# Models of the Ethereum virtual machine and of Contiki-NG's core algorithms

This project models the self-contained algorithms of the repository in Dafny and proves
what they are for. `dafny verify dfyconfig.toml` checks all of it.

* **256-bit arithmetic** (`uint256.c`): `Bits.dfy`, `Shifting.dfy`, `Uint128.dfy`, `Uint256.dfy`,
  `Mul256.dfy`, `DivMod.dfy`, `Radix.dfy`. A number is an object of two limbs, or of two such
  halves, updated through pointers that may alias; every operation is tied to one integer, `Value()`.
* **Heap allocator** (`heapmem.c`): `HeapModel.dfy`, `HeapWalk.dfy`, `Heap.dfy`, `HeapRuns.dfy`.
  The arena is one array of 4-byte words; chunk headers (prev, next, size, flags) lie in it, and the
  free list is threaded through them. The invariant says that the chunks tile the used space and that
  the list, doubly linked, holds precisely the unallocated ones.
* **Keccak** (`keccak256.c`, `sha3.c`): `Keccak.dfy` has the step mappings of section 3.2 of FIPS 202,
  `KeccakBits.dfy` what each of them does to every bit and where the round constants come from,
  `Sponge.dfy` the sponge of its section 4 on byte strings (with `LaneBytes.dfy` for the byte order);
  `Keccak256.dfy` and `Sha3.dfy` are the two permutations, `KeccakHash.dfy` and `Sha3Hash.dfy` the two
  incremental hashes. Both permutations are proved equal to the same 24 rounds, so they agree on every state.
* **Stack machine** (`eth_vm.c`): `EvmModel.dfy` gives each stack instruction two meanings, as coded and as
  appendix H.2 of the Ethereum Yellow Paper has it, and says when they agree; `EvmMachine.dfy` is the decoder
  and interpreter, refined against the former; `EvmAnswers.dfy` says by byte codes what each instruction leaves.
* **Contiki-NG**: neighbour tables (`NbrModel.dfy`, `NbrTable.dfy`, `NbrRuns.dfy`), the byte ring as an interleaved step
  system (`RingBuf.dfy`), SLIP framing (`Slip.dfy`, RFC 1055), the Trickle timer (`Trickle.dfy`, RFC 6206),
  CCM* (`CcmStar.dfy`, RFC 3610).

Where the code does not do what its documentation or the standard says, the code is modelled and the
exact condition is proved:

* `mul256` puts the carry of its third column at bit 192, where its weight is 2^128
  (`Mul256`, `Mul256CorrectIff`, `Mul256Wrong`).
* PUSH9 .. PUSH32 store the second and third limb in each other's place (`PushedAgrees`, `PushNineWrong`);
  SHL, SHR and BYTE look at 32 bits of their first operand (`ResultAgrees`, `ShiftsWrong`).
* `tostring256` takes a length of 0 as no limit, and a length equal to the number of digits as enough,
  although it then writes the terminator behind the given length (`StaysInsideIff`, `ZeroInOneCharacter`).
* `shiftr128` in place by exactly 64 gives 0 (`ShiftR128`); its callers never do that.
* `trickle_timer_config` rejects the redundancy constant 0, which its header documents as
  "no suppression", so the suppression test reduces to c < k (`Config`, `FireTimer`); an inconsistency also
  restarts a timer that was stopped (`Inconsistency`).
* `nbr_table_update_lladdr` with removal of a duplicate leaves the slot claimed without listing it, so that
  slot is never given out again (`LeaksIff`, `LeakedForever`, `DuplicateLeaks`).
* `stack_push` compares SP with the stack's size before it adds one, so the push at SP 95 goes to the word behind
  the array (`StackPush`); `slip_poll_handler` compares the length before it stores a byte, so a packet that does not
  fit is stored one byte too far (`ScanOverlong`, `PolledIs`, `OverlongTail`).
* `sha3_final` for a digest longer than the rate, mdlen above 66, gives out the state beyond the rate (`Sha3Final`).
* `get_t` of the Trickle timer never draws the last time of an odd interval, which its comment includes (`DrawnIff`).
* The byte index of the CCM* loops wraps for messages above 240 and associated data above 254 bytes
  (`MessageLoopEndsIff`, `DataLoopEndsIff`).

Clocks, random numbers, addresses of buffers and the block cipher are parameters. Objects that the C code
reaches through pointers are Dafny objects or arrays; a structure that C copies by value is a value.

## Model

| member | source | states |
|---|---|---|
| Uint128.ShiftL128 | contiki-ng/Ethereum-vm-256/uint256.c:72-90 | the value shifted left, modulo 2^128, for every 32-bit shift amount and also in place |
| Uint128.ShiftR128 | contiki-ng/Ethereum-vm-256/uint256.c:117-137 | the value shifted right for every 32-bit shift amount; the one in-place case that loses the result (a shift by exactly 64) is stated as what it gives, zero |
| Uint128.Bits128 | contiki-ng/Ethereum-vm-256/uint256.c:164-181 | the bit length of the value: the k with 2^(k-1) <= n < 2^k, 0 for 0 |
| Uint128.Add128 | contiki-ng/Ethereum-vm-256/uint256.c:236-241 | addition modulo 2^128, the carry found from the wrapped low limb, with any aliasing of operands and target |
| Uint128.Minus128 | contiki-ng/Ethereum-vm-256/uint256.c:256-261 | subtraction modulo 2^128, under any aliasing |
| Uint128.Bitwise128 | contiki-ng/Ethereum-vm-256/uint256.c:276-305 | or, xor and and of the 128-bit values, bit by bit |
| Uint256.Gt256 | contiki-ng/Ethereum-vm-256/uint256.c:221-226 | true exactly when the first value is greater |
| Uint256.ShiftL256 | contiki-ng/Ethereum-vm-256/uint256.c:92-115 | the value shifted left modulo 2^256, for every amount, across all five branches, also in place |
| Uint256.ShiftR256 | contiki-ng/Ethereum-vm-256/uint256.c:139-162 | the value shifted right, for every amount and also in place; the in-place defect of the 128-bit shift is never reached |
| Uint256.Bits256 | contiki-ng/Ethereum-vm-256/uint256.c:183-202 | the bit length of the 256-bit value |
| Uint256.Add256 | contiki-ng/Ethereum-vm-256/uint256.c:243-254 | addition modulo 2^256, with target allowed to be an operand |
| Uint256.Minus256 | contiki-ng/Ethereum-vm-256/uint256.c:263-274 | subtraction modulo 2^256, with target allowed to be an operand |
| Uint256.Bitwise256 | contiki-ng/Ethereum-vm-256/uint256.c:281-306 | the bitwise operator on the 256-bit values, from the operator on the halves |
| Bits.BitwiseMeans | contiki-ng/Ethereum-vm-256/uint256.c:276-311 | bit i of the and, the or and the exclusive or of two numbers, in the bits of the two |
| Uint256.Not256 | contiki-ng/Ethereum-vm-256/uint256.c:313-317 | the complement 2^256 - 1 - n |
| Multiply.Mul128 | contiki-ng/Ethereum-vm-256/uint256.c:319-359 | the product modulo 2^128, for all operands and any aliasing |
| Multiply.Mul256 | contiki-ng/Ethereum-vm-256/uint256.c:361-453 | for all operands, the true product plus c * (2^192 - 2^128), modulo 2^256, with c the carry of the third column |
| Multiply.Product256 | contiki-ng/Ethereum-vm-256/uint256.c:436-453 | the columns placed as the code places them add up to that number: the partial products are expanded against the full product |
| Multiply.Mul256CorrectIff | contiki-ng/Ethereum-vm-256/uint256.c:436-453 | mul256 is multiplication modulo 2^256 exactly when the third column's carry is zero |
| Multiply.Mul256OfSmall | contiki-ng/Ethereum-vm-256/uint256.c:361-453 | so it is exact for operands below 2^64 |
| Multiply.Mul256Wrong | contiki-ng/Ethereum-vm-256/uint256.c:441-445 | and wrong for (2^128 - 1) squared |
| Division.StepKeeps | contiki-ng/Ethereum-vm-256/uint256.c:507-514 | one turn of the loop keeps div * r + mod = l, the scaled divisor, the power of two and mod < 2 * copyd; or256 is addition there because the quotient's low bits are still zero |
| Division.InitialScale | contiki-ng/Ethereum-vm-256/uint256.c:501-506 | the invariant holds when the loop is entered, whether or not the first candidate was too large |
| Division.DivMod256 | contiki-ng/Ethereum-vm-256/uint256.c:487-518 | for every l and every r > 0: terminates with the quotient and remainder of the entry values, also when a result is written over an operand |
| Radix.ReverseString | contiki-ng/Ethereum-vm-256/uint256.c:520-528 | reverses the first length characters and nothing else |
| Radix.PrintDigits | contiki-ng/Ethereum-vm-256/uint256.c:567-575 | emits exactly the digits, least significant first; stops early exactly when outLength is not zero and too small, with the first outLength of them stored and nothing behind |
| Radix.ToString256 | contiki-ng/Ethereum-vm-256/uint256.c:555-579 | returns true exactly for a base in 2..16 and a length that suffices, and then writes the number's digit string and its terminator; on refusal the low digits are in the length given; nothing is touched behind what it writes |
| Radix.StaysInsideIff | contiki-ng/Ethereum-vm-256/uint256.c:570-577 | the writes stay in the length given exactly when the base is bad, or the length is neither 0 nor the number of digits |
| Radix.ZeroInOneCharacter | contiki-ng/Ethereum-vm-256/uint256.c:576 | zero in one character: the terminator is the second |
| Radix.PrintedParses | contiki-ng/Ethereum-vm-256/uint256.c:567-577 | that string has no leading zero and reads back as the number |
| Radix.CanonicalIsPrinted | contiki-ng/Ethereum-vm-256/uint256.c:567-577 | every digit string without leading zeros is the one printed for the number it denotes |
| HeapMem.Heap.FreeChunk | contiki-ng/os/lib/heapmem.c:170-187 | the last chunk shrinks the used space, any other becomes the head of the list; the list stays doubly linked and only headers change |
| HeapMem.Heap.AllocateChunk | contiki-ng/os/lib/heapmem.c:191-208 | the chunk leaves the list, the rest keeps its order and its links, and only headers change |
| HeapModel.UnlinkKeeps | contiki-ng/os/lib/heapmem.c:191-208 | unlinking any member, first, middle or last, leaves a correct doubly linked list of the others |
| HeapMem.Heap.SplitChunk | contiki-ng/os/lib/heapmem.c:215-231 | keeps the first offset words of the block, and returns the rest to the heap when a header fits |
| HeapMem.Heap.CoalesceChunks | contiki-ng/os/lib/heapmem.c:235-246 | swallows all free right neighbours: afterwards the chunk ends at a used chunk or at the end of the used space, its content still leads its block, every other block is the same |
| HeapMem.Heap.DefragChunks | contiki-ng/os/lib/heapmem.c:250-264 | leaves every live block alone; every chunk visited and still listed has no free chunk behind it, and either the whole list was visited or at least sixteen fewer members remain |
| HeapMem.Heap.FindBest | contiki-ng/os/lib/heapmem.c:277-299 | the smallest chunk that suffices among the first sixteen of the list, or none exactly when none suffices |
| HeapMem.Heap.GetFreeChunk | contiki-ng/os/lib/heapmem.c:268-307 | the smallest sufficient chunk among those examined after defragmentation, taken with every live block unchanged, or none exactly when none suffices; defragmentation leaves no two neighbouring free chunks if the list was short enough to be visited |
| HeapMem.BestOfSixteen | contiki-ng/os/lib/heapmem.c:277-299 | what best fit means in bytes: at most the first sixteen chunks of the list compete, and the smallest that holds the bytes asked for wins |
| HeapMem.Align | contiki-ng/os/lib/heapmem.c:104-105 | the least number of words that holds the bytes |
| HeapMem.Heap.HeapAlloc | contiki-ng/os/lib/heapmem.c:323-353 | a fresh block of at least the bytes asked for, the best fit among the chunks examined, or new space exactly when none of them suffices; every other live block unchanged; fails only when the arena cannot grow either |
| HeapMem.Heap.HeapFree | contiki-ng/os/lib/heapmem.c:367-384 | that block is no longer live and every other one is unchanged |
| HeapMem.Heap.HeapRealloc | contiki-ng/os/lib/heapmem.c:403-483 | on every path the first min(old, new) words survive and no other block changes, and a block given holds at least the bytes asked for; on failure the old block keeps its words, and there was no room |
| HeapMem.Heap.HeapStats | contiki-ng/os/lib/heapmem.c:488-508 | allocated + available + overhead is the arena's size, the allocated figure is the sum of the live blocks although the walk coalesces, and afterwards no two neighbouring chunks are both free |
| HeapModel.LiveBlocksDisjoint | contiki-ng/os/lib/heapmem.c:154-307 | live blocks never overlap |
| HeapModel.CoalesceStep | contiki-ng/os/lib/heapmem.c:235-246 | absorbing a free right neighbour keeps the tiling, the list and all blocks |
| HeapModel.SplitStep | contiki-ng/os/lib/heapmem.c:215-231 | splitting a live chunk keeps the tiling, the list and all other blocks |
| HeapModel.FreeState | contiki-ng/os/lib/heapmem.c:170-187 | freeing keeps the tiling and the list in agreement in both its cases |
| HeapWalk.TilingIffWalk | contiki-ng/os/lib/heapmem.c:488-508 | the chunks tile the used space exactly when walking from its start meets precisely them and ends at its end |
| HeapWalk.CoalescedLiveWords | contiki-ng/os/lib/heapmem.c:494-505 | coalescing during the statistics walk does not change the words counted as live |
| HeapRuns.Client.Run | contiki-ng/os/lib/heapmem.c:323-508 | every sequence of alloc, free, realloc, store and stats is a run of an abstract store of disjoint blocks, each of at least the bytes asked for, where realloc keeps every word that starts below them; and keeps the heap's invariant |
| HeapRuns.UnnamedBlockSurvives | contiki-ng/os/lib/heapmem.c:323-508 | over any stretch of any run, a block that no operation names keeps its words |
| Keccak256Permutation.RoundConstantsAgree | contiki-ng/Ethereum-vm-256/keccak256.c:41-71 | the packed bytes unpack to the 24 round constants of FIPS 202 |
| Keccak256Permutation.PiCycleBack | contiki-ng/Ethereum-vm-256/keccak256.c:45 | the table walks the 24-cycle of pi: its entries are all lanes but 0, each followed by its source |
| Keccak256Permutation.KeccakTheta | contiki-ng/Ethereum-vm-256/keccak256.c:86-102 | in place, the theta mapping of section 3.2.1 |
| Keccak256Permutation.KeccakRho | contiki-ng/Ethereum-vm-256/keccak256.c:139-143 | in place, the rho mapping of section 3.2.2 |
| Keccak256Permutation.KeccakPi | contiki-ng/Ethereum-vm-256/keccak256.c:106-115 | moving lanes around one cycle in place is the pi mapping of section 3.2.3 |
| Keccak256Permutation.KeccakChi | contiki-ng/Ethereum-vm-256/keccak256.c:123-132 | in place with two saved lanes, the chi mapping of section 3.2.4, whose bits ChiBit gives |
| Keccak256Permutation.Sha3Permutation | contiki-ng/Ethereum-vm-256/keccak256.c:135-152 | for every state, the 24 rounds of Keccak-p[1600], each step of which is pinned per bit |
| Sha3Permutation.TablesAgree | contiki-ng/Ethereum-vm-256/sha3.c:16-23 | each step of the fused walk rotates by the rho offset of the lane that pi brings there |
| Sha3Permutation.RhoPi | contiki-ng/Ethereum-vm-256/sha3.c:55-62 | the fused walk with one saved lane is rho followed by pi |
| Sha3Permutation.KeccakF | contiki-ng/Ethereum-vm-256/sha3.c:3-91 | for every state, the same 24 rounds, pinned per bit: the two implementations agree on all inputs |
| KeccakBits.ThetaBit | contiki-ng/Ethereum-vm-256/keccak256.c:86-102 | per bit: A[x, y, z] plus the parities of columns x - 1 at z and x + 1 at z - 1 |
| KeccakBits.RhoBit | contiki-ng/Ethereum-vm-256/keccak256.c:139-143 | per bit: A[x, y, z - offset] |
| KeccakBits.PiBit | contiki-ng/Ethereum-vm-256/keccak256.c:106-115 | per bit: A[x + 3y, x, z] |
| KeccakBits.ChiBit | contiki-ng/Ethereum-vm-256/keccak256.c:123-132 | per bit: A[x, y, z], flipped exactly when bit z of lane x + 1 is 0 and that of lane x + 2 is 1 |
| KeccakBits.IotaBit | contiki-ng/Ethereum-vm-256/keccak256.c:149-150 | per bit: the round constant is added to lane (0, 0) and to no other |
| LaneBits.RotBit | contiki-ng/Ethereum-vm-256/keccak256.c:30 | rotation by n moves bit z - n to place z, the top bits round to the bottom |
| KeccakConstants.RoundConstantBits | contiki-ng/Ethereum-vm-256/keccak256.c:41-71 | bit 2^j - 1 of round constant i is rc(j + 7i) of the shift register of algorithm 5, and every other bit is 0 |
| KeccakAnswer.RoundOnLanes | contiki-ng/Ethereum-vm-256/keccak256.c:135-152 | round 2 of the code on the 25 lanes 1 .. 25: that round of the specification, and the first row in numbers |
| LaneBytes.LittleEndian | contiki-ng/Ethereum-vm-256/sha3.c:32-39 | the first of eight bytes is the least significant of the lane |
| Sponge.LanesOfBytesOf | contiki-ng/Ethereum-vm-256/sha3.c:32-39 | lanes stored as little-endian bytes read back as themselves |
| Sponge.BytesOfLanesOf | contiki-ng/Ethereum-vm-256/sha3.c:76-91 | and bytes read as lanes store back as themselves |
| Sponge.AbsorbMore | contiki-ng/Ethereum-vm-256/keccak256.c:181-216 | absorbing m + p is absorbing m and then p behind what m left over |
| Sponge.LanesAddedIsXorInto | contiki-ng/Ethereum-vm-256/keccak256.c:161-168 | XORing 17 lanes into the state is XORing the block's 136 bytes into it |
| Sponge.XorIntoPadding | contiki-ng/Ethereum-vm-256/sha3.c:134-135 | XORing the suffix byte and 0x80 in place adds the padding, also when one byte takes both |
| Sponge.FirstOutput | contiki-ng/Ethereum-vm-256/sha3.c:168-182 | the first squeezed block is the state itself |
| Sponge.DigestIsPrefix | contiki-ng/Ethereum-vm-256/keccak256.c:240-242 | the squeezed digest of a padded message is the start of the state, as long as it is no longer than a block |
| Sponge.OutputConcat | contiki-ng/Ethereum-vm-256/sha3.c:168-182 | n bytes and then k bytes of output are the n + k bytes |
| Keccak256Hash.Context.ProcessBlock | contiki-ng/Ethereum-vm-256/keccak256.c:161-168 | adds the block to the state as bytes and permutes |
| Keccak256Hash.Context.KeccakUpdate | contiki-ng/Ethereum-vm-256/keccak256.c:181-216 | from a context that has been given m, one that has been given m + msg: full blocks permuted, the tail waiting, whatever the length and the alignment |
| Keccak256Hash.Context.KeccakFinal | contiki-ng/Ethereum-vm-256/keccak256.c:226-244 | the first 32 bytes of the sponge over m padded with 0x01 .. 0x80 at rate 136 |
| Keccak256Hash.DigestOfPieces | contiki-ng/Ethereum-vm-256/keccak256.c:181-244 | every way of cutting a message into pieces, at any addresses, gives the digest of the whole |
| Sha3Hash.Context.KeccakF | contiki-ng/Ethereum-vm-256/sha3.c:3-91 | the permutation through the byte view of the union |
| Sha3Hash.Context.Sha3Update | contiki-ng/Ethereum-vm-256/sha3.c:110-126 | from a context that has been given m, one that has been given m + data, bytes being added straight into the state |
| Sha3Hash.Context.Finish | contiki-ng/Ethereum-vm-256/sha3.c:134-136 | padding and the last permutation, shared by sha3_final and shake_xof, give the padded sponge state |
| Sha3Hash.Context.Sha3Final | contiki-ng/Ethereum-vm-256/sha3.c:130-143 | the first mdlen bytes of the state after padding with suffix 0x06 at rate 200 - 2 * mdlen: the sponge's output whenever mdlen is at most the rate |
| Sha3Hash.Context.ShakeXof | contiki-ng/Ethereum-vm-256/sha3.c:160-166 | switches to squeezing the sponge with suffix 0x1F |
| Sha3Hash.Context.ShakeOut | contiki-ng/Ethereum-vm-256/sha3.c:168-182 | the next len bytes of the output stream, wherever the previous call stopped |
| Sha3Hash.Sha3 | contiki-ng/Ethereum-vm-256/sha3.c:147-156 | one call for the whole message, with the sponge's output for every mdlen up to 66 |
| Sha3Hash.Lockstep | contiki-ng/Ethereum-vm-256/sha3.c:110-126 | fed the same pieces, the two implementations hold the same stream after every piece: same permuted state, pending bytes added here and waiting there |
| EvmModel.PushedAgrees | contiki-ng/Ethereum-vm-256/eth_vm.c:245-256 | PUSHn pushes the big-endian value exactly when n <= 8 or the two middle limbs are equal |
| EvmModel.PushNineWrong | contiki-ng/Ethereum-vm-256/eth_vm.c:249-252 | PUSH9 of 2^64 pushes 2^128 |
| EvmModel.ShiftsWrong | contiki-ng/Ethereum-vm-256/eth_vm.c:707-749 | SHL and SHR by 2^32 leave 1 as it is, and BYTE 2^29 gives a byte, where the paper has 0 |
| EvmModel.ResultAgrees | contiki-ng/Ethereum-vm-256/eth_vm.c:389-749 | a two-operand instruction computes the paper's result exactly when its operands are plain, which only SHL, SHR and BYTE restrict; what that result is, the codes of EvmAnswers say |
| EvmModel.CodedByte | contiki-ng/Ethereum-vm-256/eth_vm.c:707-718 | BYTE's 32-bit shift amount selects byte i mod 2^29 |
| EvmModel.ExecAgrees | contiki-ng/Ethereum-vm-256/eth_vm.c:156-1228 | each instruction changes the stack as the paper says exactly when its immediate or its operands are plain |
| EvmModel.BelowUntouched | contiki-ng/Ethereum-vm-256/eth_vm.c:156-1228 | with its operands there, an instruction leaves what lies below them alone |
| EvmModel.RunAgrees | contiki-ng/Ethereum-vm-256/eth_vm.c:156-1228 | a straight-line run that is plain at every step ends as the paper says |
| EvmModel.PlainRunAgrees | contiki-ng/Ethereum-vm-256/eth_vm.c:156-1228 | so does every program without PUSH9 .. PUSH32, SHL, SHR and BYTE, whatever it computes with |
| EvmMachine.Machine.StackPush | contiki-ng/Ethereum-vm-256/eth_vm.c:1305-1314 | one word more on the stack, refused only past the array: at SP 95 the test lets the word through to the one behind STACK, and no other push changes that |
| EvmMachine.Machine.StackPop | contiki-ng/Ethereum-vm-256/eth_vm.c:1316-1320 | the top word, by value, and the stack without it, down to slot 0 and SP = -1 |
| EvmMachine.Machine.ReadLimb | contiki-ng/Ethereum-vm-256/eth_vm.c:186-189 | the loop assembles the big-endian value of the bytes behind PC and advances PC over them |
| EvmMachine.Machine.PushBytes | contiki-ng/Ethereum-vm-256/eth_vm.c:156-387 | all four families: refuses without effect exactly when SP + n reaches the stack's size, else pushes the word as coded, advances PC by n and charges |
| EvmMachine.Machine.Duplicate | contiki-ng/Ethereum-vm-256/eth_vm.c:1162-1193 | DUPn, doing nothing when it reaches below slot 0 or the stack is past its array |
| EvmMachine.Machine.Exchange | contiki-ng/Ethereum-vm-256/eth_vm.c:1195-1228 | SWAPn, doing nothing when it reaches below slot 0 |
| EvmMachine.Machine.UnaryInstruction | contiki-ng/Ethereum-vm-256/eth_vm.c:642-705 | ISZERO and NOT on the stack, with their gas |
| EvmMachine.Machine.BinaryInstruction | contiki-ng/Ethereum-vm-256/eth_vm.c:389-749 | the eleven two-operand instructions on the stack, with their gas, SUB's being none: the top is the first operand |
| EvmMachine.SelectByte | contiki-ng/Ethereum-vm-256/eth_vm.c:707-718 | BYTE through shiftr256 and a mask |
| EvmMachine.Machine.DecodeInstruction | contiki-ng/Ethereum-vm-256/eth_vm.c:108-1296 | every modelled byte code has the effect of its instruction on slots, PC and gas |
| EvmMachine.Machine.ExecuteContract | contiki-ng/Ethereum-vm-256/eth_vm.c:65-106 | running the code of a straight-line program leaves the stack that its instructions, one after another, give, up to its end or to the first instruction that finds the gas limit exceeded, and charges their gas; the contract's last byte is never executed |
| EvmAnswers.SubtractsBelow | contiki-ng/Ethereum-vm-256/eth_vm.c:414-423 | what SUB leaves, increased by the item below the top, is the top |
| EvmAnswers.ByteOfWord | contiki-ng/Ethereum-vm-256/eth_vm.c:707-718 | BYTE i of a word is byte i from its most significant end |
| EvmAnswers.PushCode | contiki-ng/Ethereum-vm-256/eth_vm.c:156-387 | after any program, 5F + n and n bytes push their big-endian value, for 2 gas, when its middle limbs are equal |
| EvmAnswers.DupCode | contiki-ng/Ethereum-vm-256/eth_vm.c:1162-1193 | after any program, 7F + n copies the n-th item from the top, for no gas |
| EvmAnswers.SwapCode | contiki-ng/Ethereum-vm-256/eth_vm.c:1195-1228 | after any program, 8F + n exchanges the top with the n-th item below it, for no gas |
| EvmAnswers.ArithmeticCodes | contiki-ng/Ethereum-vm-256/eth_vm.c:389-640 | after any program, 01, 10, 11 and 14 replace the two items on top by their sum modulo 2^256, and by whether the top is less, greater, equal, for 3 gas |
| EvmAnswers.SubCode | contiki-ng/Ethereum-vm-256/eth_vm.c:414-423 | after any program, 03 leaves what the item below the top is to be increased by to give the top, for no gas |
| EvmAnswers.UnaryCodes | contiki-ng/Ethereum-vm-256/eth_vm.c:642-1019 | after any program, 15, 19 and 50 leave whether the top is zero, its complement, and the stack below it, for 3, 3 and 2 gas |
| EvmAnswers.KnownArithmetic | contiki-ng/Ethereum-vm-256/eth_vm.c:389-640 | 60 03 60 05 and 03, 01, 10, 11 or 14 leave 2, 8, 0, 1 or 0 |
| EvmAnswers.KnownBitwise | contiki-ng/Ethereum-vm-256/eth_vm.c:659-695 | 60 05 60 06 and 16, 17 or 18 leave 4, 7 or 3 |
| EvmAnswers.KnownShifts | contiki-ng/Ethereum-vm-256/eth_vm.c:707-749 | 3 shifted left by 4 is 48, 48 shifted right by 4 is 3, byte 31 of 7 is 7 |
| EvmModel.OpCodeDecodes | contiki-ng/Ethereum-vm-256/evm.h:108-247 | every modelled instruction is decoded from its byte code, and none of them from STOP's |
| EvmAnswers.Executed | contiki-ng/Ethereum-vm-256/eth_vm.c:65-106 | a fresh machine runs such codes to the stack they leave, and charges their gas |
| NbrModel.BitsOfWith | contiki-ng/os/net/nbr-table.c:163-179 | setting a table's bit sets that bit and no other |
| NbrModel.BitsOfWithout | contiki-ng/os/net/nbr-table.c:163-179 | clearing a table's bit clears that bit and no other |
| NbrModel.CountsUsers | contiki-ng/os/net/nbr-table.c:248-256 | the shifting loop counts the tables that use the neighbour |
| NbrModel.FindIs | contiki-ng/os/net/nbr-table.c:130-147 | because listed addresses differ, the search finds the one slot that has the address |
| NbrModel.VictimUnique | contiki-ng/os/net/nbr-table.c:235-268 | the eviction policy leaves no choice |
| NbrModel.CallbacksOnce | contiki-ng/os/net/nbr-table.c:182-193 | each table that has a callback and uses the neighbour is called once, in order, and no other |
| NbrModel.RemovedLookup | contiki-ng/os/net/nbr-table.c:182-198 | a removed neighbour is gone from every table's map and no other entry changes |
| NbrModel.EnteredLookup | contiki-ng/os/net/nbr-table.c:364-372 | a slot entered for a new address is in no table's map yet |
| NbrModel.AllocatedLookup | contiki-ng/os/net/nbr-table.c:201-279 | allocating and entering takes at most the evicted neighbour out of the maps |
| NbrModel.RenamedLookup | contiki-ng/os/net/nbr-table.c:458-464 | copying a new address into a key renames that entry in every table's map |
| NbrTable.Neighbors.IndexFromLladdr | contiki-ng/os/net/nbr-table.c:130-147 | the slot listed for the address, or -1 exactly when none is |
| NbrTable.Neighbors.RemoveKey | contiki-ng/os/net/nbr-table.c:182-198 | empties the slot's used map, takes it off the list and makes exactly the callbacks due |
| NbrTable.Neighbors.FindVictim | contiki-ng/os/net/nbr-table.c:242-267 | the unlocked neighbour that is least by number of users and then by age, or none exactly when all are locked |
| NbrTable.Neighbors.Allocate | contiki-ng/os/net/nbr-table.c:201-279 | the first free slot; else the victim, with its callbacks; else nothing, exactly when all are locked |
| NbrTable.Neighbors.AddLladdr | contiki-ng/os/net/nbr-table.c:343-385 | in the maps of all tables: the new address gets a zeroed item in its table, at most the evicted neighbour disappears, everything else stays; fails exactly when the address is new, no slot is free and all are locked; the whole new state, with the order of the list, and the callbacks |
| NbrTable.Neighbors.GetFromLladdr | contiki-ng/os/net/nbr-table.c:388-393 | the item that the table's map has for the address |
| NbrTable.Neighbors.Remove | contiki-ng/os/net/nbr-table.c:396-402 | takes one entry out of one table's map and drops that table's lock, also for a slot that is not listed; refuses a null item |
| NbrTable.Neighbors.Lock | contiki-ng/os/net/nbr-table.c:405-413 | sets that lock bit and no other |
| NbrTable.Neighbors.Unlock | contiki-ng/os/net/nbr-table.c:416-424 | clears that lock bit and no other |
| NbrTable.Neighbors.UpdateLladdr | contiki-ng/os/net/nbr-table.c:435-465 | renames the entry in every table's map unless the new address is taken; then fails, dropping the old entry on request; the whole new state and the callbacks in each case |
| NbrRuns.StepInv | contiki-ng/os/net/nbr-table.c:181-465 | every operation keeps listed addresses distinct, used slots listed and listed slots claimed |
| NbrRuns.ListIsByAge | contiki-ng/os/net/nbr-table.c:364-365 | in every state of every run the list is in the order in which its members were entered, whatever was removed, renamed or evicted since |
| NbrRuns.EvictsOldest | contiki-ng/os/net/nbr-table.c:234-277 | whoever is evicted in a run is unlocked, has the fewest users among the unlocked, and of those with as few was entered first |
| NbrRuns.LeaksIff | contiki-ng/os/net/nbr-table.c:447-457 | a slot is lost, claimed but not listed, exactly when a listed address is to become another listed one and removal is asked for; no operation brings it back |
| NbrRuns.LeakedForever | contiki-ng/os/net/nbr-table.c:447-457 | over any stretch of any run a lost slot stays lost and is never given out |
| NbrRuns.DuplicateLeaks | contiki-ng/os/net/nbr-table.c:453-456 | two neighbours, one renamed to the other: a slot is lost and none is free |
| NbrRuns.RunAll | contiki-ng/os/net/nbr-table.c:181-465 | every sequence of operations on fresh tables is such a run |
| RingBuf.MaskIsMod | contiki-ng/os/lib/ringbuf.c:64 | masking with size - 1 is reduction modulo the size, also of a negative difference |
| RingBuf.RefusesIffFull | contiki-ng/os/lib/ringbuf.c:64-66 | a put refuses exactly when size - 1 bytes are in the ring, in every reachable state |
| RingBuf.NothingIffEmpty | contiki-ng/os/lib/ringbuf.c:94-109 | a get returns -1 exactly when the ring was empty when it read put_ptr |
| RingBuf.WriteMissesHeld | contiki-ng/os/lib/ringbuf.c:74 | a put never writes the slot of a byte still to be got |
| RingBuf.StepKeepsInv | contiki-ng/os/lib/ringbuf.c:53-122 | every single access to shared memory by either side keeps the invariant |
| RingBuf.FirstInFirstOut | contiki-ng/os/lib/ringbuf.c:53-122 | for every interleaving of the accesses and every power-of-two size up to 128: bytes come out as they went in, none lost or repeated, at most size - 1 held |
| RingBuf.PutAloneIs | contiki-ng/os/lib/ringbuf.c:52-77 | a put whose accesses are not interrupted takes effect exactly when there is room |
| RingBuf.GetAloneIs | contiki-ng/os/lib/ringbuf.c:79-110 | a get whose accesses are not interrupted takes the oldest byte, if there is one |
| RingBuf.Ringbuf.RingbufPut | contiki-ng/os/lib/ringbuf.c:52-77 | is that put, and returns whether it took effect |
| RingBuf.Ringbuf.RingbufGet | contiki-ng/os/lib/ringbuf.c:79-110 | is that get, and returns the byte or -1 |
| RingBuf.Ringbuf.RingbufElements | contiki-ng/os/lib/ringbuf.c:118-122 | the number of bytes held |
| Slip.SlipWrite | contiki-ng/os/dev/slip.c:94-115 | C0, the payload with C0 as DB DC and DB as DB DD, C0 |
| Slip.EscapeBytes | contiki-ng/os/dev/slip.c:37-41 | the bytes on the line for each byte of the payload, in numbers |
| Slip.FrameBytes | contiki-ng/os/dev/slip.c:94-115 | C0 DB goes over the line as C0 DB DC DB DD C0 |
| Slip.DecodeBytes | contiki-ng/os/dev/slip.c:140-160 | behind DB, DC stands for C0 and DD for DB, and any other byte is left out |
| Slip.DecodeEscaped | contiki-ng/os/dev/slip.c:137-205 | the decoding loop's output for an escaped payload is the payload |
| Slip.ScanFits | contiki-ng/os/dev/slip.c:140-160 | the test of the length never acts on a packet that fits |
| Slip.ScanOverlong | contiki-ng/os/dev/slip.c:140-160 | a packet that does not fit is written one byte too far, and then dropped unless only its last byte was too many |
| Slip.PolledIs | contiki-ng/os/dev/slip.c:131-206 | over both loops: one of them writes behind blen bytes exactly when the packet decodes to more |
| Slip.OverlongPutOut | contiki-ng/os/dev/slip.c:137-160 | an over-long packet that does not wrap puts out nothing, or blen + 1 bytes |
| Slip.OverlongWrapped | contiki-ng/os/dev/slip.c:161-206 | one that is given up before the buffer's end is taken up again behind it, and its rest is put out |
| Slip.OverlongTail | contiki-ng/os/dev/slip.c:161-206 | with room for one byte, 1 2 3 9 wrapped before its last byte is put out as 9 |
| Slip.FrameReceived | contiki-ng/os/dev/slip.c:270-331 | from any idle state, at any offset, a frame is buffered exactly when it is not empty and its escaped length is at most RX_BUFSIZE - 2; otherwise it is dropped and the receiver is idle again |
| Slip.BufferedPolls | contiki-ng/os/dev/slip.c:125-241 | polling a buffered frame gives its payload and leaves the receiver idle |
| Slip.BytesReceived | contiki-ng/os/dev/slip.c:125-331 | from any idle state with room, C0 DB DC DB DD C0 is received, the poll puts out C0 DB, and the receiver is idle again |
| Slip.Driver.SlipInputByte | contiki-ng/os/dev/slip.c:270-331 | one byte's effect on state and buffer, and 1 exactly when it ends a packet that is not empty |
| Slip.Driver.DecodeRange | contiki-ng/os/dev/slip.c:140-160 | the decoding loop, its test of the length included, continues a decoding that wraps around the buffer's end, and writes behind blen bytes exactly when it gets that far before the test |
| Slip.Driver.SlipPollHandler | contiki-ng/os/dev/slip.c:125-241 | for every packet: puts out what the one or two loops leave, which is the decoded packet if that fits; writes outbuf[blen] exactly when it does not fit; drops the packet and takes up the next END-terminated one if there is one |
| Slip.Link | contiki-ng/os/dev/slip.c:94-331 | frames sent one after another, each polled before the next: exactly those that fit arrive, unchanged and in order, whatever was dropped between them |
| Trickle.MaxImax | contiki-ng/os/lib/trickle-timer.c:97-153 | the generic loop gives the leading zeros of i_min - 1, less one, on 16- and 32-bit clocks |
| Trickle.MaxImaxIsLargest | contiki-ng/os/lib/trickle-timer.c:97-153 | which is the largest number of doublings that stays within 2^(W-1) |
| Trickle.PairTest | contiki-ng/os/lib/trickle-timer.c:355 | the test before it holds exactly when i_min << i_max exceeds 2^(W-1) |
| Trickle.AfterIs | contiki-ng/os/lib/trickle-timer.c:208-218 | n doublings give min(2^n * I, Imax) |
| Trickle.ReachesLargest | contiki-ng/os/lib/trickle-timer.c:208-218 | Imax is reached within i_max doublings from any interval not below Imin, and kept |
| Trickle.TrickleTimer.Config | contiki-ng/os/lib/trickle-timer.c:329-374 | accepts exactly the sane arguments, and lowers i_max exactly as far as the clock requires |
| Trickle.TrickleTimer.GetT | contiki-ng/os/lib/trickle-timer.c:157-166 | a time in [I/2, I), the one drawn by the random number |
| Trickle.DrawnIff | contiki-ng/os/lib/trickle-timer.c:157-166 | every time in [I/2, I) is drawn, by exactly one number below I/2, except that an odd interval's last one is never drawn |
| Trickle.StartedIff | contiki-ng/os/lib/trickle-timer.c:392-393 | the first interval is given by some random number exactly when it is in [Imin, Imax] |
| Trickle.TrickleTimer.Set | contiki-ng/os/lib/trickle-timer.c:376-408 | starts with Imin <= I <= Imax, the interval and the time in it being those drawn |
| Trickle.TrickleTimer.Inconsistency | contiki-ng/os/lib/trickle-timer.c:316-327 | does nothing at Imin, else starts again at Imin, a stopped timer included |
| Trickle.TrickleTimer.Double | contiki-ng/os/lib/trickle-timer.c:191-255 | the interval becomes min(2I, Imax), starts where the last one ended, and the timer fires after exactly the ticks to a time in its second half, or at once exactly if that counts as past |
| Trickle.TrickleTimer.FireTimer | contiki-ng/os/lib/trickle-timer.c:259-283 | allows sending exactly when c < k, and waits exactly until the interval's end, or not at all exactly if that counts as past |
| Trickle.AheadIs | contiki-ng/os/lib/trickle-timer.c:174-184 | the wait computed on the wrapping clock is the true distance for times up to half its range ahead, and 0 for those up to half its range past |
| Trickle.TrickleTimer.Life | contiki-ng/os/lib/trickle-timer.c:191-408 | over every sequence of starts, expiries, consistencies, inconsistencies and stops, I is in [Imin, Imax] while the timer runs, and moves only as RFC 6206 has it |
| Trickle.TrickleTimer.Quiet | contiki-ng/os/lib/trickle-timer.c:191-255 | after n intervals without inconsistency I = min(2^n * I0, Imax) |
| CcmStar.CryptTwice | contiki-ng/os/lib/ccm-star.c:130-141 | the counter mode undoes itself |
| CcmStar.FlagsAgree | contiki-ng/os/lib/ccm-star.c:46 | the flags byte is that of RFC 3610 for MICs of 2 to 16 bytes |
| CcmStar.LaidOutUnique | contiki-ng/os/lib/ccm-star.c:49-60 | only one block has given flags, nonce and 16-bit number, and it is the one that set_iv makes |
| CcmStar.KeyByteIs | contiki-ng/os/lib/ccm-star.c:130-141 | key stream byte i is byte i mod 16 of the encrypted block number 1 + i / 16 |
| CcmStar.TagIs | contiki-ng/os/lib/ccm-star.c:82-127 | the tag is the CBC-MAC from B_0, masked with the encrypted A_0 |
| CcmStar.StreamAnswer | contiki-ng/os/lib/ccm-star.c:130-141 | 18 zero bytes under the cipher that changes nothing become A_1 and the start of A_2, byte for byte |
| CcmStar.TagAnswer | contiki-ng/os/lib/ccm-star.c:82-127 | five zero bytes and the associated byte 7 under that cipher have the tag 78 01 07 00 .. 00 05, for every nonce |
| CcmStar.ChainIsCbcMac | contiki-ng/os/lib/ccm-star.c:103-121 | adding a short last block as it is equals padding it with zeros |
| CcmStar.Chained | contiki-ng/os/lib/ccm-star.c:92-122 | the chain over length, associated data and message is the CBC-MAC of section 2.2 |
| CcmStar.CtrStep | contiki-ng/os/lib/ccm-star.c:64-79 | XORs one block of the message with the encryption of the block whose byte 0 is 1, bytes 1..13 the nonce and bytes 14 and 15 the counter, big-endian; nothing else changes |
| CcmStar.Ctr | contiki-ng/os/lib/ccm-star.c:130-141 | XORs the whole message with S_1 S_2 .., section 2.3, whatever blocks are laid out as A_1 A_2 .. |
| CcmStar.Mic | contiki-ng/os/lib/ccm-star.c:82-127 | the authentication tag of sections 2.2 and 2.3, from whatever blocks are laid out as B_0, with the flags, the nonce and the message's length, and A_0 |
| CcmStar.Aead | contiki-ng/os/lib/ccm-star.c:150-171 | both directions: the message XORed with the key stream, and the tag of the plain text |
| CcmStar.ThereAndBack | contiki-ng/os/lib/ccm-star.c:150-171 | forward and then backward restores every message and computes the same MIC |
| CcmStar.MessageLoopEndsIff | contiki-ng/os/lib/ccm-star.c:135-140 | with a byte as index the loops over the message end exactly for at most 240 bytes |
| CcmStar.DataLoopEndsIff | contiki-ng/os/lib/ccm-star.c:103-110 | and the loop over the associated data exactly for at most 254 |

## Left out

- Division.DivMod256: a zero divisor is excluded; the code's loop does not end for it.
- `divmod128`, `tostring128` and the big-endian readers of `uint256.c`: the same algorithms at half the width, and byte order.
- HeapMem.Heap.HeapAlloc: sizes are unbounded, so the wrap-around of `size_t` in ALIGN and in the footprint, and of the `int` size difference in realloc, are not modelled.
- HeapMem.Heap.HeapFree: the pointer must be NULL or a live block, as the code demands; a double free is not modelled.
- HeapMem.Heap: contents are 4-byte words, so a block's bytes are compared in groups of four; the debug fields of a chunk are not modelled.
- Keccak256Hash.Context.KeccakFinal: the result is always stored; a null result pointer is not modelled.
- Keccak256Hash.Context.KeccakUpdate: the message does not overlap the context; lanes are little-endian, as on the targets.
- Sha3Hash.Context.KeccakF: the byte-order conversion of big-endian hosts appears as the byte and lane views of the state.
- EvmMachine.Machine.DecodeInstruction: an instruction that pops needs its operands in slots 0 and up, as the code does not test for an empty stack and would read before the array; the word behind the stack is modelled as the one that pushes change, without the storage opcodes that share it.
- EvmMachine.Machine.ExecuteContract: jumps are not modelled, so the run theorem is about straight-line code that keeps its stack in the array; neither are memory, storage, message and hardware opcodes, MUL, EXP, the signed and the division opcodes.
- EvmModel.RunAgrees: goes one way, because two differences within a run can cancel or be dropped; the single instruction has both directions.
- NbrTable.Neighbors.Allocate: the optional policy hook and callbacks that call back into the tables are not modelled; calls are recorded.
- NbrTable.Neighbors.IndexFromLladdr: the linked list of keys is a sequence of slot numbers.
- RingBuf.FirstInFirstOut: accesses to the index bytes are atomic and in program order, as the code's comments ask; more than one producer or consumer is not modelled.
- Slip.Driver.SlipPollHandler: outbuf needs the byte behind blen for a packet that does not fit, since the code writes it.
- Slip.FrameReceived: a second frame that arrives before the first is polled is covered only by the exact effect of each byte and of each poll, not by a framing theorem; statistics and the process are not modelled.
- Trickle.MaxImax: the generic loop only; the two unrolled flavours do the same steps, and a 64-bit clock, for which the loop's first mask is too short, is not modelled.
- Trickle.TrickleTimer.Config: the clock has error checking, and i_max + 1 is below its width; a null timer is not modelled, and reconfiguring a running timer may leave its interval outside the new bounds.
- Trickle.TrickleTimer.Double: with drift compensation, as is the default; the ctimer is the callback and the delay it was set to.
- Trickle.TrickleTimer.GetT: the random number may be of any size; how many different ones a platform's generator gives is not modelled.
- CcmStar.Aead: messages of at most 240 and associated data of at most 254 bytes, beyond which the code does not end; setting the key is choosing the cipher.
- `random.c`, AES, clocks and interrupts are parameters; plain lists, `memb` beyond its allocation, timers, queue buffers, sensors, radio and host tools are left out as easy or as input and output.
