# Mermai: a verified model

This project models the node of the Mermai blockchain and proves properties of the model with Dafny 4.11:
the bytecode virtual machine and its assembler, the wire formats, Merkle trees and light clients, the
validator registry and proposal check, quorum finality and rewards, transaction and block validation, the
ledger of unspent outputs and its database transaction, the node that ties chain and database together, the
transaction pool, the MRM-20 token and threshold signatures. `dafny verify dfyconfig.toml` checks everything.

The model keeps the shape of the source. What the source computes is given as a function or predicate, the
code itself is a method or a class whose methods are proved against it, and what the source promises is proved
as lemmas about the functions, most of them over every input or every run. For each main operation one lemma
says exactly when it succeeds and what it then leaves, in terms of its inputs alone and without the function
that specifies it; those lemmas are what ties the functions to the source.

## How the model reads the source

- `std::string` and `std::vector<uint8_t>` are both byte sequences (`Bytes.Text`); 32- and 64-bit integers are
  bounded, and every place where the source can wrap around, saturate or truncate says so.
- SHA-256 and signatures are arbitrary functions in a record (`Types.Crypto`). Nothing assumes that hashing is
  injective: results that rest on it end in "or these hashed inputs collide", with the inputs drawn from the
  byte strings that the computation in question really hashes (`Types.CollisionIn`).
- The clock is a parameter. An accept step reads it at three moments; the reading at the end is not before the
  one at the start. Within one of these phases one reading stands for all.
- SQLite tables are maps. SQLite is taken to honour transactions, unique keys and checks and not to fail
  otherwise. Texts bound with length -1 are stored up to their first zero byte, and amounts of 2^63 and more
  fail the positivity check, as they would in the database.
- Floating-point validator weights are left arbitrary: the proposer of a slot, the positivity of a weight and
  the stake left after a slash are functions of the engine.
- The virtual machine takes its opcode bytes from mermai_explorer/app.js:19-28. include/mermai/mermai_vm.hpp
  is not part of this model, so the gas charges are parameters. DIV and MOD by a divisor whose low 64 bits are
  zero, although it is not zero, divide by zero in the source; the model's run then ends as `Crashed`.
- The gas check (src/vm/mermai_vm.cpp:376-381) adds in 64 bits, so at gas limits within one charge of 2^64 the
  sum can wrap around and pass. Halting is therefore stated for limits that leave that room (`RoomForGas`) and
  positive charges; `Halting.LargestLimitSpins`, `Halting.RoomExactly` and `FreshCalls.RoomInCall` show what
  happens without it. Nothing else about gas needs the room, `Vm.GasBound` included.
- Module Halting speaks of the machine in any state, with anything on its stack; module FreshCalls of calls as
  the repository makes them (src/rpc/mermai_rpc.cpp:412-415, 454-459), with an empty stack, cleared memory, no
  storage and no gas used.
- Lengths and counts are serialized in 32 bits. Results that two serialized texts are equal only if what they
  stand for is hold for fields and lists below 4 GiB, and their rows say so.
- `mermai_merkle_proof` carries no index, and its texts are read through `strtol`, which ignores case, stops at
  what is no digit and joins both sides without a boundary. Soundness of proofs is therefore stated for every
  text a prover can send, in terms of the bytes it decodes to.
- The record of first proposals is static in the source; in the model it is an object that every engine of a
  process shares.
- README.md:36 of the repository speaks of RFC 6962. The code duplicates the last node of an odd level and
  does not tell leaves from inner nodes by a prefix, unlike section 2.1 of RFC 6962; the model follows the code,
  and `MerkleShape.RepeatedLastLeaf` shows one consequence.
- The transaction root of a block and the root that inclusion proofs are checked against use different
  combiners; `BlockRoot.RootsDiffer` says when they agree.

## Layout

| files | contents |
|---|---|
| Bytes, Decimals, Types, Folds, MapSums, Runs, HashChain | byte strings and integers, decimal texts, records, folds, sums over maps, iterated step functions, hash chains |
| Words, Vm, Instructions, Programs | the 256-bit word operations, the machine as a step function, the law of each instruction, what short programs compute |
| Halting, FreshCalls, Interpreter, Assembler, Mnemonics | which code halts from any state and which in a call, the machine as an object, the assembler, programs written out |
| Codec, BlockCodec, Serializer, Network, Layouts | wire formats as functions and their inverses, the same as writers and readers, chain payloads and frames, all of them as lists of fields |
| MerkleShape, Padding, Merkle, Inclusion, BlockRoot, Roots, LightClient | trees over any combiner, which lists share a root, the proof tree, what a proof proves, the block root, roots spelled out, the header store |
| Consensus, Proposals, Quorum, Tallies, Rewards | registry and proposal check, which proposals are accepted and histories of them, finality, which votes count, rewards |
| Chain, Admission, Blockchains | transaction and block checks and the chain, what exactly passes them, the chain object |
| Ledger, Outputs, SpendOnce, Replay, Ownership, Database | applying a block, which rows it leaves and where rows come from, spending once, applying once, who may spend, the database object |
| NodeRuns, Traces, Adoption, Replayed, Nodes | runs of a node, the rows and blocks they lead to, how chains of peers are taken over, a replayed transaction, the handlers of block messages |
| Mempools, Tokens, TokenLaws, Multisig | the pool, the token, who gains and loses by its calls, threshold signatures |

## Model

| member | source | states |
|---|---|---|
| Words.Add | src/vm/mermai_vm.cpp:282-296 | the carry loop computes the sum modulo 2^256 |
| Words.Sub | src/vm/mermai_vm.cpp:298-317 | the borrow loop computes the difference modulo 2^256 |
| Words.SubUndoesAdd | src/vm/mermai_vm.cpp:282-317 | on 32-byte words, subtracting what was added gives the word back, and adding what was subtracted does too |
| Words.Mul | src/vm/mermai_vm.cpp:319-334 | the product modulo 2^64 of the full operands, although only their low halves are multiplied |
| Words.DivMod | src/vm/mermai_vm.cpp:103-124 | quotient and remainder of the low 64 bits; zero for a zero divisor; undefined exactly when only the low 64 bits of the divisor vanish |
| Words.LexLessIsNumeric | src/vm/mermai_vm.cpp:136-149 | on words of one length the byte-wise order is the order of the numbers |
| Interpreter.Compare | src/vm/mermai_vm.cpp:136-149 | LT, GT and EQ answer the numeric comparison |
| Interpreter.Compute | src/vm/mermai_vm.cpp:84-149 | every two-operand instruction leaves the number that the arithmetic of the step function says, which the laws of modules Instructions and Programs fix, or is undefined where that is |
| Interpreter.Machine.Step | src/vm/mermai_vm.cpp:33-259 | one turn of the loop, from gas check to opcode switch, is the step function, whose every instruction has its law in module Instructions |
| Interpreter.Machine.Execute | src/vm/mermai_vm.cpp:29-260 | from any state, after any number of turns, the loop stands where the iterated step function does, with its answer if the run has ended and still running if not; runs without end are covered; what runs compute is stated in modules Instructions and Programs |
| Instructions.WordPushed | src/vm/mermai_vm.cpp:59-67 | a PUSH32 that stands in the code with its operand puts that word on top, moves on 33 bytes and charges; ZeroPushed and BytePushed say the same of PUSH0 and PUSH1 |
| Instructions.Popped | src/vm/mermai_vm.cpp:69-73 | POP drops the top of the stack |
| Instructions.Copied | src/vm/mermai_vm.cpp:125-128 | DUP1 repeats the top of the stack |
| Instructions.Swapped | src/vm/mermai_vm.cpp:130-134 | SWAP1 exchanges the upper two words and nothing else |
| Instructions.Added | src/vm/mermai_vm.cpp:75-82 | ADD leaves the sum of the upper two words, less 2^256 where it reaches that |
| Instructions.Lessened | src/vm/mermai_vm.cpp:93-100 | SUB takes the top of the stack from the word below it, plus 2^256 where it is larger |
| Instructions.Multiplied | src/vm/mermai_vm.cpp:84-91 | MUL leaves the product modulo 2^64 |
| Instructions.Divided | src/vm/mermai_vm.cpp:102-123 | DIV leaves the rounded quotient of the low 64 bits, the top being the divisor; Reduced says the same of MOD and DividedByZero that a zero divisor gives zero |
| Instructions.LessCompared | src/vm/mermai_vm.cpp:136-149 | LT leaves one where the word below the top is the smaller number, else zero; GreaterCompared and EqualCompared do so for GT and EQ |
| Instructions.MemoryWritten | src/vm/mermai_vm.cpp:157-163 | MSTORE writes the second word at the address the top names, and no other byte changes |
| Instructions.MemoryRead | src/vm/mermai_vm.cpp:151-155 | MLOAD replaces an address by the 32 bytes there |
| Instructions.StorageWritten | src/vm/mermai_vm.cpp:178-184 | SSTORE stores the second word under the key on top, charges, and changes no other key |
| Instructions.StorageRead | src/vm/mermai_vm.cpp:165-176 | SLOAD replaces a key by the number its value denotes, in its last 32 bytes, or zero |
| Instructions.JumpedTo | src/vm/mermai_vm.cpp:186-190 | JMP goes on at the address that the last byte of the top names |
| Instructions.JumpedIf | src/vm/mermai_vm.cpp:192-200 | JMPI takes target and condition off and jumps where the condition is not zero |
| Instructions.ValuePushed | src/vm/mermai_vm.cpp:210-215 | CALLVALUE pushes the value of the call |
| Instructions.TimePushed | src/vm/mermai_vm.cpp:217-223 | TIMESTAMP pushes the clock of that turn |
| Instructions.GasPushed | src/vm/mermai_vm.cpp:225-231 | GASLIMIT pushes what is left of the gas |
| Instructions.CallerPushed | src/vm/mermai_vm.cpp:202-208 | CALLER pushes the first 32 bytes of the name, zeros behind a shorter one |
| Instructions.Stopped | src/vm/mermai_vm.cpp:233-247 | STOP and RETURN end the run with the answer true and the stack as it is |
| Instructions.RevertRefuses | src/vm/mermai_vm.cpp:238-242 | no run that comes to REVERT answers true, however long it is watched; it answers false and keeps its stack and storage |
| Instructions.TurnExactly | src/vm/mermai_vm.cpp:33-257 | a turn with gas goes on exactly if the instruction is known and complete, has its operands, and stays within memory and code; it crashes exactly at a divisor that is not zero in its low 64 bits only; else the run answers false |
| Programs.DifferenceCalled | src/vm/mermai_vm.cpp:29-260 | for all words x and y, a call of PUSH32 x, PUSH32 y, SUB with enough gas answers true and leaves x - y modulo 2^256 alone on the stack, memory and storage empty |
| Programs.DifferenceRestored | src/vm/mermai_vm.cpp:75-100 | PUSH32 x, PUSH32 y, SUB, PUSH32 y, ADD leaves x on whatever stack there was |
| Programs.SwappedDifference | src/vm/mermai_vm.cpp:93-134 | with SWAP1 before SUB it is y - x |
| Programs.Division | src/vm/mermai_vm.cpp:102-123 | DIV and MOD of pushed 64-bit numbers leave the q and the r < y with x == q * y + r |
| Programs.Comparison | src/vm/mermai_vm.cpp:136-149 | LT, GT and EQ of pushed words answer the comparison in the order pushed |
| Programs.Branch | src/vm/mermai_vm.cpp:136-200 | PUSH32 x, PUSH32 y, LT, PUSH1 a, JMPI goes on at a exactly if x < y |
| Programs.MemoryRestored | src/vm/mermai_vm.cpp:151-163 | what is stored in memory is loaded back from the same offset, and every other byte stays |
| Programs.StorageRestored | src/vm/mermai_vm.cpp:165-184 | what is stored under a key is loaded back, and every other key stays |
| Vm.DispatchCharges | src/vm/mermai_vm.cpp:43-259 | an instruction that completes has charged exactly its price, one that fails nothing, and only DIV and MOD can crash |
| Vm.GasBound | src/vm/mermai_vm.cpp:33-37 | in any run and at any limit, gas stays below the limit plus one maximal charge, or at what it was |
| Halting.HaltsWithoutFreePush | src/vm/mermai_vm.cpp:29-260 | with positive charges and a gas limit that leaves room for one of them below 2^64, code without DUP1, CALLER, CALLVALUE, TIMESTAMP and GASLIMIT halts from every state, by remaining gas, stack height and distance to the end |
| Halting.HaltsWithoutJump | src/vm/mermai_vm.cpp:29-260 | code without jumps halts from every state, whatever it pushes and whatever gas costs |
| Halting.FreePushSpins | src/vm/mermai_vm.cpp:69-73 | each free push makes code that never halts with JMP, and with JMPI wherever what it pushes is not zero; DUP1 does so from states with a word on the stack, the others from an empty stack too |
| Halting.HaltingExactly | src/vm/mermai_vm.cpp:29-260 | over arbitrary states, preloaded stacks included: all code over a set of instructions halts, in every context with positive charges and room for gas, iff the set has no free push or no jump |
| Halting.LargestLimitSpins | src/vm/mermai_vm.cpp:376-381 | at the gas limit 2^64 - 1 the check never fails: PUSH1 with JMP, which pays for every push, never halts, whatever the charges |
| Halting.RoomExactly | src/vm/mermai_vm.cpp:376-381 | over arbitrary states, gas already used included: where a push costs most and its price divides 2^64, all code without a free push halts iff limit plus price stays below 2^64 |
| FreshCalls.CallsHaltExactly | src/rpc/mermai_rpc.cpp:454-459 | over calls, which begin with an empty stack: all code over a set of instructions halts, in every context with positive charges and room for gas, iff the set has no jump, or no environment instruction and not DUP1 together with PUSH1, with PUSH32, or with both PUSH0 and EQ |
| FreshCalls.EnvironmentSpins | src/rpc/mermai_rpc.cpp:454-459 | a call with CALLER, CALLVALUE, TIMESTAMP or GASLIMIT and JMP can run for ever under every positive gas limit, and with JMPI wherever what is pushed is not zero |
| FreshCalls.CopierSpins | src/rpc/mermai_rpc.cpp:454-459 | so can one with PUSH1 or PUSH32, DUP1 and either jump, under every limit above the price of one push |
| FreshCalls.EqualizerSpins | src/rpc/mermai_rpc.cpp:454-459 | so can one with PUSH0, DUP1, EQ and either jump |
| FreshCalls.UnstartedHalts | src/rpc/mermai_rpc.cpp:454-459 | a call of code that begins with neither a push nor an environment instruction is over after one turn, whatever gas costs |
| FreshCalls.ColorlessHalts | src/rpc/mermai_rpc.cpp:454-459 | with positive charges and room for gas, a call of code without environment instructions, PUSH1, PUSH32 and EQ halts: all it can compute is zero, and every jump leads to address zero, where a push charges |
| FreshCalls.RoomInCall | src/vm/mermai_vm.cpp:376-381 | over calls, where a push costs most and its price divides 2^64: with room for gas all code without a free push halts; where limit plus price exceeds 2^64, or the limit is 2^64 - 1, some does not |
| Assembler.CompileFromAsm | src/vm/mermai_vm.cpp:387-410 | the tokenizing loop returns the bytes of the parsed instruction list, or nothing where a token is unknown |
| Assembler.AssemblyRefines | src/vm/mermai_vm.cpp:29-260 | assembling preserves meaning: from any state before the bytes of a list the machine ends with the success flag, stack, storage and gas that interpreting the list gives |
| Assembler.CompiledTextRefines | src/vm/mermai_vm.cpp:387-410 | the same from the source text of an accepted program |
| Assembler.OnBoundary | src/vm/mermai_vm.cpp:39-43 | after any number of turns the program counter stands where the instruction of that number begins |
| Mnemonics.SourceRead | src/vm/mermai_vm.cpp:387-410 | a program written out token by token is read back as that program, for every list of instructions |
| Mnemonics.BinaryIsAssembled | src/vm/mermai_vm.cpp:392-404 | every mnemonic becomes its own opcode byte, PUSH1 followed by its operand |
| Mnemonics.CompileWritten | src/vm/mermai_vm.cpp:387-410 | so compiling what was written out gives the bytes of the program |
| Mnemonics.CompiledDifference | src/vm/mermai_vm.cpp:387-410 | and a call of what "PUSH1:x PUSH1:y SUB" compiles to leaves x - y modulo 2^256 |
| Codec.TxRoundTrip | src/core/mermai_blockchain.cpp:94-140 | decoding undoes encoding for every transaction within the limits |
| Codec.TxCanonical | src/core/mermai_blockchain.cpp:114-140 | whatever decodes is the encoding of what it decodes to |
| Codec.TxInjective | src/core/mermai_blockchain.cpp:94-112 | different transactions of fields below 4 GiB have different serializations |
| Codec.TxSelfDelimiting | src/core/mermai_blockchain.cpp:94-112 | a serialized transaction of fields below 4 GiB can be split off what follows it in one way only |
| BlockCodec.BlockRoundTrip | src/core/mermai_blockchain.cpp:302-343 | decoding undoes encoding for every block within the limits, embedded transactions included |
| BlockCodec.BlockCanonical | src/core/mermai_blockchain.cpp:322-343 | whatever decodes to a block is that block's encoding |
| BlockCodec.BlockInjective | src/core/mermai_blockchain.cpp:302-320 | different blocks of fields below 4 GiB have different serializations |
| BlockCodec.VoteRoundTrip | src/core/mermai_blockchain.cpp:270-291 | a serialized vote decodes to itself whatever follows it |
| BlockCodec.VotePrefix | src/core/mermai_blockchain.cpp:281-291 | what decodes to a vote begins with that vote's encoding; trailing data is not checked |
| Layouts.TxLaid | src/core/mermai_blockchain.cpp:94-112 | the bytes of a transaction field by field: id, fee, time, the count and fields of its inputs, the count and fields of its outputs; texts after their length in four bytes, numbers most significant byte first, as a list of fields independent of the codec |
| Layouts.BlockLaid | src/core/mermai_blockchain.cpp:302-320 | the same for a block: version, height, hashes, time, nonce, proof-of-stake fields, and each transaction as one text |
| Layouts.VoteLaid | src/core/mermai_blockchain.cpp:270-279 | the same for a vote |
| Serializer.SerializeTransaction | src/core/mermai_blockchain.cpp:94-112 | the appending writer produces the encoding |
| Serializer.SerializeBlock | src/core/mermai_blockchain.cpp:302-320 | the appending writer produces the encoding |
| Serializer.DeserializeTransaction | src/core/mermai_blockchain.cpp:114-140 | the offset-driven reader computes the decoder, failures included |
| Serializer.DeserializeBlock | src/core/mermai_blockchain.cpp:322-343 | the offset-driven reader computes the decoder, failures included |
| Network.EncodeChainPayload | src/network/mermai_network.cpp:84-94 | the loop produces the count of all pointers followed by the blocks behind the non-null ones |
| Network.DecodeChainPayload | src/network/mermai_network.cpp:96-128 | the reader computes the payload decoder, which answers every failure with an empty list |
| Network.ChainRoundTrip | src/network/mermai_network.cpp:84-128 | 1 to 4096 non-null blocks within the limits come back as they were |
| Network.ChainCanonical | src/network/mermai_network.cpp:96-128 | a payload that decodes to anything is the encoding of it, and holds at most 4096 blocks |
| Network.NullLosesChain | src/network/mermai_network.cpp:84-94 | one null pointer among the blocks loses the whole payload |
| Network.ReplyReachesExactly | src/network/mermai_network.cpp:412-427 | the answer to GET_BLOCKS delivers a chain to the peer iff it has 1 to 4096 blocks within the limits and its payload is at most 4 MiB |
| Network.FrameRoundTrip | src/network/mermai_network.cpp:156-202 | a sent frame is received as sent and the rest of the stream is left |
| Network.FrameCanonical | src/network/mermai_network.cpp:156-202 | a received frame is what its sender serialized |
| Layouts.FrameLaid | src/network/mermai_network.cpp:189-202 | a frame is the kind in one byte and the payload after its length |
| Layouts.ChainLaid | src/network/mermai_network.cpp:84-94 | a chain payload is the count and each block as one text |
| Merkle.Tree.Build | src/core/mermai_merkle.cpp:51-72 | the nested loops build the levels of the tree over the leaves, an empty list standing for the digest of nothing |
| Merkle.Tree.GetRoot | src/core/mermai_merkle.cpp:74-77 | the top of the levels is the root of the leaves |
| Merkle.Tree.GenerateProof | src/core/mermai_merkle.cpp:89-117 | the walk up the levels yields the path of the leaf, and the empty proof out of range |
| Merkle.VerifyProof | src/core/mermai_merkle.cpp:119-133 | the loop answers whether the proof leads from the leaf to the expected root |
| MerkleShape.PathLeadsToRoot | src/core/mermai_merkle.cpp:51-133 | completeness: the path of every leaf leads to the root, odd levels included, for any combiner |
| Roots.RootOfSides | src/core/mermai_merkle.cpp:51-77 | the root of more than 2^d and up to 2^(d+1) leaves combines the root of the first 2^d with that of the others, paired with itself once for each level it lacks; for any combiner |
| Roots.ProofRoots | src/core/mermai_merkle.cpp:37-77 | over one, two and three digests the root is x, the hash of x and y joined, and the hash of that joined with the hash of z twice, left before right |
| Inclusion.ProofExactly | src/core/mermai_merkle.cpp:21-133 | of the proofs in the directions of index i, made of any texts, those are accepted that hash the same bytes as the generated proof, and any other accepted one shows a collision among the inputs hashed |
| Inclusion.ProofSound | src/core/mermai_merkle.cpp:37-133 | soundness: for a leaf text that decodes to as many bytes as leaf i, an accepted proof in the directions of i has the bytes of leaf i and of every sibling, or two inputs hashed on the way collide |
| Inclusion.ProofUnique | src/core/mermai_merkle.cpp:89-133 | among digest texts the accepted proof is the generated one, or inputs collide |
| Inclusion.MemberSound | src/core/mermai_merkle.cpp:119-133 | without any index: a 32-byte leaf with an accepted proof of as many steps as the tree is deep has the bytes of some leaf, or inputs collide |
| Inclusion.InnerNodeAccepted | src/core/mermai_merkle.cpp:119-133 | the number of steps is needed: every inner node has an accepted proof, shorter by its height |
| Inclusion.ShiftedAccepted | src/core/mermai_merkle.cpp:37-44 | the length of the leaf is needed: in a tree of two or more leaves, for every index and every number of bytes up to all that are hashed with the leaf, there is an accepted proof for a leaf of that many bytes |
| Inclusion.SameBytesAccepted | src/core/mermai_merkle.cpp:21-44 | beyond digest texts, in a tree of two or more leaves any text with the bytes of a leaf is accepted in its place |
| MerkleShape.RootDetermines | src/core/mermai_merkle.cpp:51-77 | a root and a leaf count determine the leaves unless the combiner collides on a hashed pair |
| MerkleShape.RepeatedLastLeaf | src/core/mermai_merkle.cpp:60-68 | the count is needed: repeating the last leaf of an odd list of more than one leaf keeps the root |
| MerkleShape.RootsAgree | src/core/mermai_merkle.cpp:51-77 | two lists without repetition and with one root are equal, or the shallower one is a level of the deeper tree |
| Padding.RootsAgreeExactly | src/core/mermai_merkle.cpp:60-68 | at equal depth and without a clash of hashed pairs, two lists share a root iff they agree once every odd level is written out |
| BlockRoot.CalculateTreeHash | src/db/mermai_db.cpp:693-709 | the while loop computes the root over the transaction hashes |
| Roots.BlockRoots | src/db/mermai_db.cpp:693-731 | for none to three transactions the block root spelled out: 64 zeros, or the hashes of the joined texts of their digests |
| BlockRoot.TreeHashCommits | src/db/mermai_db.cpp:693-731 | the root of a block determines its transactions, number and order included, among lists without a repeated id and of fields below 4 GiB, or two hashed inputs collide |
| BlockRoot.RootsDiffer | src/db/mermai_db.cpp:719-721 | block root and proof root coincide for one transaction; for more, equality is a collision |
| LightClient.Client.SyncHeader | src/core/mermai_light_client.cpp:22-55 | a header is appended and indexed exactly when it extends the tip and its signature, if it has key and signature, is valid for its text of height, hashes, time and address; the index stays in step |
| LightClient.Client.SyncHeaderFromBlock | src/core/mermai_light_client.cpp:57-68 | the same for the header taken from a block |
| LightClient.HeaderPayloadExactly | src/core/mermai_light_client.cpp:24-26 | with previous hash and root free of colons, as hexadecimal texts are, two headers sign one text iff they agree in height, these hashes, time and address; the header's own hash is not covered |
| LightClient.SealedHeaderExactly | src/core/mermai_light_client.cpp:57-68 | the header of a sealed block passes iff the seal is valid for two different texts, the serialized block and the header text; for all versions whose top byte is not a decimal digit, the default among them |
| LightClient.IndexExact | src/core/mermai_light_client.cpp:51-52 | up to 2^32 headers each is found under its height |
| LightClient.Client.VerifyTransactionInclusion | src/core/mermai_light_client.cpp:70-80 | true exactly when a header of that height is indexed and the proof leads to its root |
| LightClient.Client.ProvesInclusion | src/core/mermai_light_client.cpp:70-80 | the generated proof of any leaf is accepted for any synced header that carries the tree's root |
| LightClient.Client.ProvesBlockTransaction | src/core/mermai_light_client.cpp:57-80 | for a header taken from a block that carries the root of its transactions, the generated proof of a transaction is accepted if it is the only one, and else refused or hashed inputs collide |
| Consensus.Validators.RegisterValidator | src/consensus/mermai_consensus.cpp:35-61 | registers exactly a new, named, staked validator whose key parses; addresses stay unique |
| Consensus.Validators.UnregisterValidator | src/consensus/mermai_consensus.cpp:63-74 | takes exactly the named validator out, order kept |
| Consensus.Validators.RestoreValidator | src/consensus/mermai_consensus.cpp:76-83 | restores exactly a new validator with stake and lock time; addresses stay unique |
| Consensus.WithoutTakesOne | src/core/mermai_blockchain.cpp:578-584 | where addresses are unique, removing all entries of an address removes one |
| Consensus.Validators.SlashValidator | src/consensus/mermai_consensus.cpp:159-171 | changes the stake of the first validator with the address and nothing else |
| Consensus.Validators.ValidateProposalOf | src/consensus/mermai_consensus.cpp:326-368 | answer, shared record of proposals and slash are those of the proposal function, which Proposals.AcceptedExactly and Proposals.SlashesExactly fix |
| Consensus.AcceptedAgain | src/consensus/mermai_consensus.cpp:326-368 | an accepted proposal changes no stake and is accepted again with no further effect |
| Proposals.AcceptedExactly | src/consensus/mermai_consensus.cpp:326-368 | a block is accepted iff it names the expected proposer, who is registered, states its amount and its age at the slot, has weight and, if it has a key, names that key with a valid signature of the block without it, and no other block is recorded for the slot; it is then the recorded one, and no stake changes |
| Proposals.OneBlockPerSlot | src/consensus/mermai_consensus.cpp:338-353 | over any history of calls without a reset, through any engines and with validators joining, leaving and being slashed in between, two accepted proposals for one height and slot, of fields below 4 GiB, are one block or collide |
| Proposals.SlashesExactly | src/consensus/mermai_consensus.cpp:345-349 | a call cuts the stake of the expected proposer iff it is a double proposal in its name, and then answers no and records nothing; no other call changes a stake |
| Proposals.RecordedExactly | src/consensus/mermai_consensus.cpp:338-353 | after any history since a reset the record knows exactly the slots for which a block named its expected proposer |
| Proposals.SlashedExactly | src/consensus/mermai_consensus.cpp:345-349 | after any such history a call slashes iff another block was the first to name the proposer for its slot |
| Proposals.SlashBackedExactly | src/consensus/mermai_consensus.cpp:338-366 | that first block was accepted, so that the slash follows two blocks of the proposer, iff it was authorized |
| Proposals.UnauthorizedClaimSlashes | src/consensus/mermai_consensus.cpp:338-366 | otherwise the proposer pays for a block it did not seal: a refused block is recorded, and its own block, accepted without it, is slashed |
| Quorum.ThresholdExact | src/consensus/mermai_consensus.cpp:282-285 | the 64-bit products decide two thirds correctly for every stake exactly when three times the total fits in 64 bits |
| Quorum.Collector.AddVoteTo | src/consensus/mermai_consensus.cpp:252-288 | answer, votes, totals and finalized set are those of the vote function |
| Quorum.VotePayloadExactly | src/core/mermai_blockchain.cpp:223-225 | two votes sign one text iff they agree in height, time and the joined text of address and block hash |
| Quorum.VotePayloadBinds | src/core/mermai_blockchain.cpp:223-225 | what a validator signs determines block hash, height and time of its vote |
| Quorum.VotePayloadConfused | src/core/mermai_blockchain.cpp:223-225 | the address is needed for that: a colon in it moves the boundary, and two votes for different hashes sign one text |
| Quorum.AddVoteSound | src/consensus/mermai_consensus.cpp:252-288 | for a fixed validator set of different addresses whose tripled stake fits in 64 bits: every vote, counted or not, keeps the totals equal to the stake of the distinct voters |
| Quorum.CollectSound | src/consensus/mermai_consensus.cpp:252-288 | for such a set, after any votes a hash is finalized iff its distinct voters hold two thirds of the stake |
| Tallies.CountsExactly | src/consensus/mermai_consensus.cpp:253-270 | a vote counts iff its signature by its key is valid for its text, and the first validator of that address has stake, and this key or none |
| Tallies.AnswersExactly | src/consensus/mermai_consensus.cpp:252-288 | the answer to a vote is whether it counts, and votes for other hashes stay as they are |
| Tallies.VotersExactly | src/consensus/mermai_consensus.cpp:252-288 | no vote that counts is lost: after any votes the voters of a hash are exactly those who cast one for it |
| Tallies.FinalExactly | src/consensus/mermai_consensus.cpp:252-288 | for a fixed set whose tripled stake fits 64 bits, a hash is final iff those who cast a vote that counts hold two thirds of the stake |
| Quorum.FinalizedIntersect | src/consensus/mermai_consensus.cpp:252-293 | accountable safety, for such a set: any two hashes finalized by two nodes, each from the votes it happened to see, share voters holding a third of the stake, each with an eligible vote for both; where the hashes differ, each of them has signed two different texts |
| Rewards.GetBaseReward | src/consensus/mermai_consensus.cpp:404-414 | the halving loop computes the reward of the height |
| Rewards.RewardExactly | src/consensus/mermai_consensus.cpp:404-414 | the reward at a height is 50000000 over two to the power of the whole periods of 210000 before it, rounded down |
| Rewards.EmissionCap | src/consensus/mermai_consensus.cpp:404-414 | however long the chain, all block rewards together stay within two initial periods |
| Rewards.DistributeFees | src/consensus/mermai_consensus.cpp:416-434 | the proposer gets the sum of the fees, saturating at 2^64 - 1, or no entry where it is zero |
| Chain.VerifyTransaction | src/core/mermai_blockchain.cpp:157-190 | the checks on a transaction, the overflow guard included, amount to the stated predicate |
| Chain.CheckTransactions | src/core/mermai_blockchain.cpp:447-451 | true exactly when all transactions verify and no id repeats |
| Admission.VerifiesExactly | src/core/mermai_blockchain.cpp:157-190 | a transaction verifies iff it has an id, 1 to 1000 inputs, 1 to 1000 outputs, a time at most 120 seconds ahead, no two inputs that name one output, in every input a key and its valid signature of the text without signatures, and outputs that are named, positive and add up to 64 bits |
| Admission.SignedTextExactly | src/core/mermai_blockchain.cpp:77-81 | two transactions of fields below 4 GiB sign one text iff they differ in signatures only |
| Chain.BodyStaysOk | src/core/mermai_blockchain.cpp:435-454 | a body that passed keeps passing as the clock advances |
| Admission.AddsExactly | src/core/mermai_blockchain.cpp:435-460 | a block is added iff it follows the tip in height, hash and time, is at most 120 seconds ahead, states a proposer with stake, is proposable where an engine is attached, and carries at most 10000 verifying transactions of different ids under their root; the chain is then the old one and the block |
| Admission.ReplacesExactly | src/core/mermai_blockchain.cpp:462-498 | a candidate replaces the chain iff it is longer and each of its blocks is in order, follows the one before and, where an engine is attached, is proposable against the record and the candidate before it; the chain is then the candidate |
| Chain.AddLinks | src/core/mermai_blockchain.cpp:435-460 | adding a block keeps heights, hash links and timestamps in order |
| Chain.ReplaceLinks | src/core/mermai_blockchain.cpp:462-498 | an adopted candidate is well linked from genesis on |
| Chain.AlwaysLinked | src/core/mermai_blockchain.cpp:428-498 | every chain reachable by any run of offers, candidates and validator changes is well linked |
| Chain.SignatureCovers | src/core/mermai_blockchain.cpp:77-81 | what an input signs determines the transaction, of fields below 4 GiB, but for the signatures |
| Consensus.SealCovers | src/core/mermai_blockchain.cpp:345-349 | what a block's seal signs determines the block, of fields below 4 GiB, but for the seal |
| Chain.TipCommits | src/core/mermai_blockchain.cpp:302-320 | two well-linked chains of at most 2^32 blocks, of fields below 4 GiB, with one tip hash are equal block by block, or two of their serialized blocks collide |
| Chain.ReachableTipsCommit | src/core/mermai_blockchain.cpp:397-408 | the same for any two chains reachable by any runs |
| HashChain.WholeAgree | src/core/mermai_blockchain.cpp:397-408 | hash chains of one length and one last block are equal, over any faithful serialization and without a clash of hashes |
| Blockchains.Blockchain.CanAddBlock | src/core/mermai_blockchain.cpp:435-454 | the checks in their order, with the effect of the proposal check on the consensus state |
| Blockchains.Blockchain.AddBlock | src/core/mermai_blockchain.cpp:456-460 | appends the block exactly when it can be added |
| Blockchains.Blockchain.ReplaceChainIfLonger | src/core/mermai_blockchain.cpp:462-498 | adopts a strictly longer candidate all of whose blocks pass, and otherwise keeps the chain |
| Blockchains.Blockchain.IsChainValid | src/core/mermai_blockchain.cpp:518-532 | true exactly when every link and stake check holds |
| Blockchains.ReachableHolds | src/core/mermai_blockchain.cpp:518-532 | every reachable chain passes that check |
| Ledger.SpendTakes | src/db/mermai_db.cpp:221-223 | spending inputs takes exactly the value that validation counted, even where two inputs name one stored row |
| Ledger.SaveGives | src/db/mermai_db.cpp:226-228 | saving outputs adds exactly their sum |
| Ledger.TxConserves | src/db/mermai_db.cpp:213-228 | a transaction takes its fee out of circulation, or, without inputs, brings its outputs in |
| Ledger.BlockConserves | src/db/mermai_db.cpp:210-234 | a block changes the unspent value by what its input-less transactions issue less the fees of the others |
| Outputs.AppliesExactly | src/db/mermai_db.cpp:213-300 | a transaction applies iff it has no inputs or verifies, names rows of the addresses of its keys and spends exactly outputs and fee, its inputs name different stored rows, and its outputs are storable under different places that are free once those rows are gone |
| Outputs.RowsExactly | src/db/mermai_db.cpp:213-228 | afterwards the row at output i, counted in 32 bits, holds exactly the stored address and the amount of output i, and every other row is as it was, or gone because an input named it |
| Outputs.TracedThrough | src/db/mermai_db.cpp:213-231 | over any transactions applied in turn every row is an initial one or an output of one of them at its place, and initial and created rows alike stay until a valid signature by a key of their address names them |
| Ledger.RowsFiled | src/db/mermai_db.cpp:114-126 | rows are written for the transactions of the block, tied to it, and for no others |
| Ledger.PoolForgets | src/db/mermai_db.cpp:229 | exactly the transactions of the block leave the stored pool |
| SpendOnce.BlockPlays | src/db/mermai_db.cpp:210-234 | the moves read off the transactions of an applied block are a legal history and lead to the keys that are left |
| SpendOnce.NetIsMembership | src/db/mermai_db.cpp:238-276 | in a legal history an output is unspent as often as it was created less spent |
| SpendOnce.NetStaysBinary | src/db/mermai_db.cpp:238-276 | at every moment that count is 0 or 1 |
| SpendOnce.NoDoubleSpend | src/db/mermai_db.cpp:267-276 | between two spends of one output lies a creation of it |
| Replay.AppliedAtMost | src/db/mermai_db.cpp:210-234 | in a legal history a transaction is applied at most as often as any output it spends came into being |
| Ownership.OnlyOwnersSpend | src/db/mermai_db.cpp:278-300 | after a block an output is as it was, or a transaction of the block names it with a valid signature by a key of its address |
| Database.Store.ValidateTransactionInputs | src/db/mermai_db.cpp:278-300 | the two running totals with their overflow guards amount to the stated predicate |
| Database.Store.SaveUnspentOutput | src/db/mermai_db.cpp:238-249 | inserts exactly where the row is new and within the column checks |
| Database.Store.SpendUnspentOutput | src/db/mermai_db.cpp:267-276 | deletes exactly one row or fails |
| Database.Store.ApplyTransactions | src/db/mermai_db.cpp:213-231 | the loop over the transactions computes the fold of the transaction step, which Outputs.AppliesExactly and Outputs.RowsExactly fix |
| Database.Store.SaveBlock | src/db/mermai_db.cpp:101-127 | replaces rows by height and by hash and ties the transaction rows to the block |
| Database.Store.ApplyBlockOf | src/db/mermai_db.cpp:210-234 | a block is applied in full or leaves every table as it was; which rows it leaves is stated in Outputs.RowsExactly |
| NodeRuns.SecondCheckPasses | src/core/mermai_blockchain.cpp:456-460 | a block that passed the check passes it again later with no further effect |
| NodeRuns.AcceptIsAtomic | src/mermai_main.cpp:212 | after the database commits, adding the block cannot fail: an accept step succeeds exactly when the first check and the application do, and otherwise leaves chain and tables alone |
| NodeRuns.LockstepExtends | src/db/mermai_db.cpp:106-113 | storing the next block keeps the table in step with the chain, or two serialized blocks of the chain collide |
| NodeRuns.StoredBlockReadsBack | src/db/mermai_db.cpp:144-157 | a stored row reads back as the block of its height |
| NodeRuns.RunsAreSound | src/network/mermai_network.cpp:428-466 | over every run of accept steps and peer chains: the chain is well linked and extends the initial one, the table is in step with it or blocks collide, unspent value plus fees is the initial value, the unspent outputs are what a legal history leaves, and initial outputs leave only by their owners' signatures |
| Traces.RunsTrace | src/network/mermai_network.cpp:428-466 | the same over every run of a node: every unspent output after it is an initial one or carries address and amount of the output at its index of a transaction in the added blocks, and only owners spend either |
| Adoption.SyncAdopts | src/network/mermai_network.cpp:435-452 | for chains below 2^32 blocks: a candidate that is not longer changes nothing; one that is longer and begins differently costs the peer; any other is taken over from the first new block to the first that is refused, and the answer is whether none is |
| Adoption.SyncCompletes | src/network/mermai_network.cpp:446-449 | where every new block is taken in turn the chain becomes the candidate, for fields below 4 GiB |
| Adoption.RunsBacked | src/network/mermai_network.cpp:428-466 | with an engine attached, over every run: every added block named the expected proposer, stated its amount and age, and was signed by its key if it had one, by the registry of the moment it joined |
| NodeRuns.RunsSpendOnce | src/db/mermai_db.cpp:210-276 | over every run creations less spends of an output are its membership in the unspent outputs, and 0 or 1 at every moment |
| NodeRuns.RunsApplyAtMost | src/db/mermai_db.cpp:210-234 | over every run, a transaction stands in the added blocks at most as often as any output it spends came into being; once, where none is created again |
| Replayed.AppliedTwice | src/network/mermai_network.cpp:458-466 | that bound is reached: whoever has signed a transfer and one back, there is a run of three accepted blocks in which the first transfer stands twice, its input having been created again under the spent id |
| NodeRuns.GenesisIsGood | src/core/mermai_blockchain.cpp:428-433 | a new node with genesis alone and no stored blocks is a start for both |
| Nodes.Handler.AcceptBlock | src/network/mermai_network.cpp:462-463 | the accept step, with and without a database |
| Nodes.AcceptBareExactly | src/network/mermai_network.cpp:462-463 | without a database a block is appended iff it passes the first check |
| Nodes.Handler.HandleBlock | src/network/mermai_network.cpp:458-469 | a block message is decoded and accepted, or costs the peer |
| Nodes.ComparePrefix | src/network/mermai_network.cpp:438-445 | the loop compares the blocks that the 32-bit height counts, by serialization |
| Nodes.Handler.SyncBlocks | src/network/mermai_network.cpp:435-452 | a chain longer than the 32-bit count of the local one and with its prefix is accepted block by block up to the first refusal; where it starts and ends is stated in Adoption.SyncAdopts |
| Nodes.Handler.HandleBlocks | src/network/mermai_network.cpp:428-457 | a chain message is decoded and synchronized as Adoption.SyncAdopts says, adopted as a whole where there is no database as Admission.ReplacesExactly says, or costs the peer |
| Mempools.Mempool.AddTransaction | src/core/mermai_mempool.cpp:16-53 | answer and pool are those of the admission function; the index of claimed outputs stays the union of the pooled inputs, pooled transactions stay free of conflicts, and the pool stays within capacity |
| Mempools.AdmitsExactly | src/core/mermai_mempool.cpp:16-53 | a transaction is admitted iff its id is new, no pooled one spends what it spends, and there is room or one pays less; it joins the others, of which exactly the one with the least fee, and least id among those, has gone where there was no room |
| Mempools.Mempool.RemoveTransaction | src/core/mermai_mempool.cpp:55-65 | removes exactly the entry and keeps all of that |
| Mempools.FindLowest | src/core/mermai_mempool.cpp:34-35 | the lowest fee, and among equal ones the smallest id |
| Mempools.HighestFeesStay | src/core/mermai_mempool.cpp:16-53 | any stream of offers with different ids and outputs leaves a pool that is full or holds them all, and nothing left out pays more than anything pooled |
| Mempools.Mempool.GetTransactions | src/core/mermai_mempool.cpp:79-93 | the best-paying different entries, highest fee first, as many as the limit allows |
| Mempools.Mempool.IsUtxoSpent | src/core/mermai_mempool.cpp:100-103 | true exactly when a pooled transaction spends the output |
| Tokens.TokenContract.constructor | src/vm/mermai_token.cpp:5-16 | the initial token |
| Tokens.TokenContract.TransferTokens | src/vm/mermai_token.cpp:30-38 | the transfer call, inserted zero entries included; who gains and who loses is stated in TokenLaws.TransfersExactly |
| Tokens.TokenContract.ApproveSpender | src/vm/mermai_token.cpp:40-45 | the approve call |
| Tokens.TokenContract.TransferTokensFrom | src/vm/mermai_token.cpp:47-62 | the delegated transfer call, inserted zero entries included |
| Tokens.TokenContract.MintTokens | src/vm/mermai_token.cpp:64-70 | the mint call with 64-bit wrap-around |
| Tokens.TokenContract.BurnTokens | src/vm/mermai_token.cpp:72-78 | the burn call |
| TokenLaws.CreatesExactly | src/vm/mermai_token.cpp:5-16 | of a new token the owner, if named, holds the supply and nobody else anything |
| TokenLaws.TransfersExactly | src/vm/mermai_token.cpp:30-38 | a transfer succeeds iff both are named and the caller holds the amount; the caller then has so much less and the recipient more, wrapping at 2^64, nobody else anything different, and one event says so; a refused call changes nothing anybody can ask for |
| TokenLaws.HandedInFull | src/vm/mermai_token.cpp:34-35 | where balances add up to 64 bits the recipient gains all that the other loses |
| TokenLaws.ApprovesExactly | src/vm/mermai_token.cpp:40-45 | an approval sets the allowance of one spender and nothing else |
| TokenLaws.DrawsExactly | src/vm/mermai_token.cpp:47-62 | a delegated transfer succeeds iff all are named and balance and allowance suffice; it hands the amount over and takes it off that allowance and no other |
| TokenLaws.MintsExactly | src/vm/mermai_token.cpp:64-70 | minting succeeds iff the caller is the owner and the recipient is named, and adds to that balance and the supply alone |
| TokenLaws.BurnsExactly | src/vm/mermai_token.cpp:72-78 | burning succeeds iff the caller holds the amount, and takes it off that balance and the supply alone |
| TokenLaws.FallsOnlyBy | src/vm/mermai_token.cpp:30-78 | over any run without an overflowing mint from balances that add up to the supply, a balance falls only by a transfer or burn of its holder or a draw within what the holder allows, and by that amount |
| TokenLaws.DrawsNeedApproval | src/vm/mermai_token.cpp:40-62 | over any run from no allowances, a draw of more than nothing follows an approval by the holder for that spender |
| Tokens.MoveHeld | src/vm/mermai_token.cpp:34-35 | where balances add up to 64 bits a transfer cannot overflow and keeps the sum |
| Tokens.MintSolventExactly | src/vm/mermai_token.cpp:64-70 | minting keeps balances and supply equal unless exactly the supply wraps around |
| Tokens.CreateSolventExactly | src/vm/mermai_token.cpp:11-16 | a new token starts that way unless its supply goes to nobody |
| Tokens.RunsSolvent | src/vm/mermai_token.cpp:30-78 | over every run without an overflowing mint the balances add up to the supply |
| Tokens.LogRebuilds | src/vm/mermai_token.cpp:5-78 | after any such run without a clearing, the event log alone rebuilds the supply and every balance |
| Tokens.AllowanceIsLastApproval | src/vm/mermai_token.cpp:40-62 | an allowance is the last approval less what was drawn since, so no more than that is drawn |
| Multisig.VerifyMultisig | src/core/mermai_multisig.cpp:67-110 | the loop with its set of seen keys and 32-bit counter counts each endorsing member key once |
| Multisig.VerifyExactly | src/core/mermai_multisig.cpp:67-110 | for an account, every answer is whether its distinct endorsing keys reach the threshold iff the account has fewer than 2^32 different keys or threshold zero |
| Multisig.WrappedCounterRefuses | src/core/mermai_multisig.cpp:71-109 | beyond that, 2^32 different keys signing once each wrap the counter to zero and are refused |
| Multisig.VerifyIsApproval | src/core/mermai_multisig.cpp:67-110 | for accounts of fewer than 2^32 different keys the answer is whether the distinct endorsing keys reach the threshold |
| Multisig.VerifiesExactly | src/core/mermai_multisig.cpp:67-110 | in terms of signatures alone: true iff so many different keys of the account have an entry with a valid signature of the text |
| Multisig.EndorsersAre | src/core/mermai_multisig.cpp:78-107 | an endorsing key is an account key with at least one valid signature |
| Multisig.OrderIrrelevant | src/core/mermai_multisig.cpp:78-109 | the order of the entries does not matter |
| Multisig.MoreEntriesStillVerify | src/core/mermai_multisig.cpp:78-109 | for accounts of fewer than 2^32 different keys, adding entries never turns acceptance into rejection |
| Multisig.PayloadBinds | src/core/mermai_multisig.cpp:51-53 | what is signed determines the transaction, of fields below 4 GiB, and the address of the account |
| Multisig.ChecksAddressExactly | src/core/mermai_multisig.cpp:67-110 | the signed address is not compared with the account: whatever verifies for an account names its address iff the account has fewer different keys than its threshold, so that nothing verifies |
| Multisig.ForeignVerifies | src/core/mermai_multisig.cpp:67-110 | what was signed for one account verifies for another with its keys and no higher threshold |
| Multisig.ComparedBinds | src/core/mermai_multisig.cpp:51-53 | where callers compare the address first, one signed payload is accepted for one transaction of one account, or two address payloads agree in the first 20 digest bytes |
| Multisig.CalculateAddress | src/core/mermai_multisig.cpp:24-38 | the loop hashes the payload of threshold and keys |
| Multisig.AddressCommits | src/core/mermai_multisig.cpp:24-38 | an address stands for one threshold and key list, or two payloads agree in the first 20 digest bytes |
| Multisig.AddSignature | src/core/mermai_multisig.cpp:55-65 | appends an entry exactly for a key that has none |

## Left out

- Interpreter.Machine.Execute: stops after the number of turns its caller names, because a loop without end is not a method of the model; the number is arbitrary, and the source's loop goes on.
- Halting.RoomExactly: is exact for charges of which the push is the largest and divides 2^64; for other charges, whether some code steps over the last values below 2^64 depends on the common divisors of sums of charges, and only RoomForGas as a sufficient condition is proved.
- FreshCalls.RoomInCall: leaves the same open, and in calls also the one limit that adds up to 2^64 with the price of a push.
- Network.FrameRoundTrip: follows the receiving side of a connection with its 4 MiB limit; `P2PMessage::deserialize`, which parses a frame held in memory, is not modelled.
- Quorum.FinalizedIntersect: is about a fixed validator set; with changing sets the source compares votes with the stake at the time of each vote.
- NodeRuns.RunsAreSound: an accept step is one atomic step; the source does not lock the chain between the consensus and the network thread.
- Nodes.Handler.HandleBlocks: leaves out the one case in which the 32-bit count of the local chain has wrapped to zero and no block differs, where the source reads behind the candidate.
- Nodes.Handler.SyncBlocks: leaves out the same case.
- Mempools.Mempool.GetTransactions: leaves the order of equal fees open, as the unstable sort of the source does.
- Database.Store.ApplyBlockOf: failures of SQLite itself, such as a full disk or a blob over its size limit, do not occur.
- Null block pointers appear in chain payloads only; elsewhere the source refuses them at once.
- Merlite: its compiler pushes operands in an order the machine does not pop them in and stops after one function body, so no meaning is preserved.
- Floating-point weights, proposer draw, slash percentages, inactivity penalties, governance ratios and reputation counters.
- Restart by replaying stored blocks, which checks old blocks against current stakes.
- Text serialization of multisig accounts and transactions, which drops signers and signatures.
- OpenSSL, key parsing, WebAuthn and signing.
- Sockets, threads, HTTP, JSON, explorer, SDKs, scripts and build files.
- Accounts, contract storage, state roots and the stored pool of the database, publish-subscribe, diagnostics, median fees, the key-value store and status flags: they would only add easy members.
