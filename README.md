# Blockchain from scratch, modelled in Dafny

This project models the deterministic core of a teaching repository that builds a blockchain
step by step. It has two parts.

**State machines.**
- `DigitalCash`: a UTXO-style ledger. It holds a set of bills and a next-serial counter, and it
  changes under Mint and Transfer transactions.
- `AtmMachine`: an ATM keypad. A card swipe starts a session, the pin is checked on Enter, and
  the next Enter withdraws the amount typed.

Both are imperative in the source: `next_state` clones a struct and mutates the clone. Here
each one is a `class` with the source's fields (`DigitalCash.State`, `AtmMachine.Atm`). Each
also has a value datatype (`Ledger`, `AtmState`) and a transition function on values
(`Transition`, `Step`). The `NextState` method is proved to compute exactly that function. The
transition properties are then proved about the function as lemmas.

**Chain lessons.** Each lesson file defines its own `Header`, so each gets its own module:
- `HeaderChain`: parent hash and height links.
- `ExtrinsicState`: an adder state in each header.
- `Consensus`: proof-of-work child construction.
- `BatchedExtrinsics`: `verify_child` also demands equal state.
- `ForkChoice`: the longest, heaviest and most-even-hashes rules, plus the miner.
- `RichState`: state roots, block execution and block verification.

Every verifier is a loop in the source. Here it is a method with loop invariants, proved equal
to a quantified predicate over consecutive pairs. The lemmas are stated about that predicate.

**The hash.** `hash` (a `DefaultHasher` wrapper) is foreign code. Every operation that hashes
takes the hash as a function-valued parameter, such as `hash: Header -> u64`. `RichState`
bundles four of them in `Hashers`: one each for headers, states and `Vec<u64>` bodies, and one
for the `Vec<i32>` that an untyped integer vector literal becomes. Nothing is assumed
about the hash. Where a property needs two values to hash apart, that is a precondition of the
lemma.

**Random nonces.** The random nonces of the miners are a finite stream `nonces: seq<u32>`
supplied by the caller. A miner returns `None` (or `found == false`) when the stream runs out.

**Overflow.** Arithmetic that panics on `u64` overflow is a precondition. Saturating and
casting arithmetic is written out in `Prelude`: `SaturatingAdd`, `SaturatingSub`,
`SaturatingAddI64` and `AsI64`.

**Serials of received bills.** Received bills keep the serial the caller wrote on them;
`add_bill` only bumps the counter, so a received serial may be at or above `next_serial`
(`DigitalCash.ReceivedSerialIsNotReassigned`).

## Model

| member | source | states |
|---|---|---|
| DigitalCash.SaturatingTotal | src/c1_state_machine/p5_digital_cash.rs:132-154 | the `saturating_add` fold of the spent amounts equals their exact total clamped at u64::MAX |
| DigitalCash.State.New | src/c1_state_machine/p5_digital_cash.rs:35-40 | a new ledger has no bills and next serial 0 |
| DigitalCash.State.Clone | src/c1_state_machine/p5_digital_cash.rs:25-31 | a clone is a fresh object with the same bills and counter |
| DigitalCash.State.SetSerial | src/c1_state_machine/p5_digital_cash.rs:43-45 | only the counter changes, to the given value |
| DigitalCash.State.NextSerial | src/c1_state_machine/p5_digital_cash.rs:48-50 | returns the counter of the current ledger value |
| DigitalCash.State.IncrementSerial | src/c1_state_machine/p5_digital_cash.rs:53-55 | the counter grows by one and the bills are unchanged |
| DigitalCash.State.AddBill | src/c1_state_machine/p5_digital_cash.rs:58-61 | the bill is inserted as given, serial included, and the counter grows by one |
| DigitalCash.FromIter | src/c1_state_machine/p5_digital_cash.rs:64-79 | the state built from a list holds exactly its bills, with the counter equal to the list length whatever the bills' serials |
| DigitalCash.ProcessSpends | src/c1_state_machine/p5_digital_cash.rs:136-155 | the spends loop succeeds iff every spent bill is in circulation and no spent serial repeats; on success the spends are removed, the counter is unchanged, the running total is the saturating total, and the visited map holds exactly the spent serials |
| DigitalCash.ProcessReceives | src/c1_state_machine/p5_digital_cash.rs:158-191 | the receives loop succeeds iff no received serial is u64::MAX, a spent serial or an earlier received serial, the received total fits the spent total, and it is not 0; on success the receives are inserted and the counter grows by their number |
| DigitalCash.TransferProcess | src/c1_state_machine/p5_digital_cash.rs:128-194 | the transfer closure returns Ok iff the transfer passes every check, and then the bills are the old bills minus the spends plus the receives |
| DigitalCash.NextState | src/c1_state_machine/p5_digital_cash.rs:101-207 | `next_state` returns a fresh ledger equal to `Transition` of the starting ledger: Mint, the empty-spends and empty-receives shortcuts, the accepted transfer, and the start itself on any rejection |
| DigitalCash.MintAddsOneBill | src/c1_state_machine/p5_digital_cash.rs:106-113 | Mint adds exactly one bill with the old counter as its serial, even for amount 0, and bumps the counter |
| DigitalCash.EmptySpendsIsNoOp | src/c1_state_machine/p5_digital_cash.rs:117-119 | a transfer with no spends returns the starting ledger |
| DigitalCash.EmptyReceivesClearsBills | src/c1_state_machine/p5_digital_cash.rs:122-125 | a transfer with spends but no receives empties the whole bill set and keeps the counter, without checking the spends |
| DigitalCash.RejectedTransferIsAtomic | src/c1_state_machine/p5_digital_cash.rs:195-206 | a transfer that fails any check leaves the ledger exactly as it was |
| DigitalCash.MissingSpendRejected | src/c1_state_machine/p5_digital_cash.rs:138-140 | spending a bill not in circulation is rejected |
| DigitalCash.DuplicateSpendSerialRejected | src/c1_state_machine/p5_digital_cash.rs:143-145 | two spends with the same serial are rejected |
| DigitalCash.MaxReceiveSerialRejected | src/c1_state_machine/p5_digital_cash.rs:160-162 | a received bill with serial u64::MAX is rejected |
| DigitalCash.ReceiveSerialCollisionRejected | src/c1_state_machine/p5_digital_cash.rs:165-168 | a received serial equal to a spent serial or an earlier received serial is rejected |
| DigitalCash.ValueErrorsRejected | src/c1_state_machine/p5_digital_cash.rs:173-191 | a received amount above what is left of the spent total, or a received total of 0, is rejected |
| DigitalCash.AcceptedTransferResult | src/c1_state_machine/p5_digital_cash.rs:136-197 | an accepted transfer yields the old bills minus the spends plus the receives as given, and the counter grows by the number of receives |
| DigitalCash.Conservation | src/c1_state_machine/p5_digital_cash.rs:154-182 | an accepted transfer receives no more than it spends, and the running remainder never goes below zero |
| DigitalCash.NextSerialNeverDecreases | src/c1_state_machine/p5_digital_cash.rs:101-207 | no transaction lowers the counter |
| DigitalCash.ReceivedSerialIsNotReassigned | src/c1_state_machine/p5_digital_cash.rs:185 | a received bill keeps the caller's serial even when it is above the counter, so "every serial is below the counter" is not an invariant |
| AtmMachine.Atm.constructor | src/c1_state_machine/p3_atm.rs:48-55 | the machine holds the given cash, authentication and register |
| AtmMachine.Atm.Clone | src/c1_state_machine/p3_atm.rs:47-55 | a clone is a fresh machine with the same fields |
| AtmMachine.NextState | src/c1_state_machine/p3_atm.rs:61-120 | `next_state` returns a fresh machine equal to `Step` of the starting machine |
| AtmMachine.SwipeWhileWaiting | src/c1_state_machine/p3_atm.rs:65-69 | a swipe while waiting moves to authenticating with the swiped hash; cash and register are unchanged |
| AtmMachine.IgnoredActions | src/c1_state_machine/p3_atm.rs:70-77 | a swipe outside waiting, and any key while waiting, leave the whole state unchanged |
| AtmMachine.DigitKeyAppends | src/c1_state_machine/p3_atm.rs:90-114 | a non-Enter key during a session appends exactly that key to the register and changes nothing else |
| AtmMachine.EnterWhileAuthenticating | src/c1_state_machine/p3_atm.rs:79-89 | Enter while authenticating goes to authenticated iff the register hashes to the expected hash, else to waiting; the register is cleared and cash is unchanged |
| AtmMachine.EnterWhileAuthenticated | src/c1_state_machine/p3_atm.rs:95-111 | Enter while authenticated pays out the decimal value of the typed digits when the machine holds that much, otherwise nothing, and always returns to waiting with an empty register |
| AtmMachine.CashNeverIncreases | src/c1_state_machine/p3_atm.rs:61-120 | no action increases the cash inside |
| AtmMachine.FoldIsDecimalValue | src/c1_state_machine/p3_atm.rs:96-103 | the `acc * 10 + digit` fold is the positional decimal value of the digits, first digit most significant |
| AtmMachine.DecimalValueAppend | src/c1_state_machine/p3_atm.rs:103 | appending a digit multiplies the decimal value by ten and adds the digit |
| AtmMachine.DigitsInRange | src/c1_state_machine/p3_atm.rs:96-102 | the keys One..Four read as digits 1..4, Enter is skipped, so there are at most as many digits as keys |
| AtmMachine.RunAppend | src/c1_state_machine/p3_atm.rs:61-120 | running two action sequences one after the other is running their concatenation |
| AtmMachine.TypingAppends | src/c1_state_machine/p3_atm.rs:90-114 | typing non-Enter keys during a session appends them, in order, to the register |
| AtmMachine.Login | src/c1_state_machine/p3_atm.rs:65-89 | swipe, pin, Enter from waiting ends authenticated iff the pin hashes to the swiped hash, with an empty register and the same cash |
| AtmMachine.Withdrawal | src/c1_state_machine/p3_atm.rs:95-114 | once authenticated, typing an amount and Enter pays it out when the machine holds that much and ends the session |
| HeaderChain.Child | src/c2_blockchain/p1_header_chain.rs:36-44 | a child links to its parent by hash and has the next height |
| HeaderChain.VerifySubChain | src/c2_blockchain/p1_header_chain.rs:50-65 | the loop returns true iff every header has the saturating next height and the hash of its predecessor as parent, the anchor being the first predecessor |
| HeaderChain.ChildChain | src/c2_blockchain/p1_header_chain.rs:78-82 | repeated `child()` gives `n` headers, header `i` being the `i`-th descendant |
| HeaderChain.ChildChainVerifies | src/c2_blockchain/p1_header_chain.rs:36-65 | a chain built by repeated `child()` verifies from its first header |
| HeaderChain.BuildValidChainLength5 | src/c2_blockchain/p1_header_chain.rs:71-84 | the builder returns genesis and its next four descendants, and they verify |
| HeaderChain.BuildAnInvalidChain | src/c2_blockchain/p1_header_chain.rs:89-96 | the builder returns three headers starting at genesis that do not verify |
| HeaderChain.EmptyChainVerifies | src/c2_blockchain/p1_header_chain.rs:50-65 | an empty slice verifies |
| HeaderChain.TamperedHeaderRejected | src/c2_blockchain/p1_header_chain.rs:57-60 | a header whose parent or height does not follow its predecessor makes verification false |
| HeaderChain.ValidSubChainSplit | src/c2_blockchain/p1_header_chain.rs:56-64 | a chain verifies iff its first part verifies and the rest verifies from the first part's last header |
| HeaderChain.VerifiedHeights | src/c2_blockchain/p1_header_chain.rs:57 | along a verified chain the heights count up from the anchor's and stop at u64::MAX |
| ExtrinsicState.Child | src/c2_blockchain/p2_extrinsic_state.rs:37-45 | a child links by hash, has the next height, records the extrinsic, and its state is the parent's plus the extrinsic |
| ExtrinsicState.ChildIsTheOnlyLink | src/c2_blockchain/p2_extrinsic_state.rs:37-45 | a header links to `h` by the adder rule iff it is `h.child` of its own extrinsic |
| ExtrinsicState.Extend | src/c2_blockchain/p2_extrinsic_state.rs:37-45 | extending by a list of extrinsics gives one header per extrinsic, the last one with the summed state and the added height |
| ExtrinsicState.ExtendFollowsAdderRule | src/c2_blockchain/p2_extrinsic_state.rs:37-45 | header `i` of an extension records extrinsic `i`, links to its predecessor, and holds the start state plus the first `i + 1` extrinsics |
| ExtrinsicState.AdderRule | src/c2_blockchain/p2_extrinsic_state.rs:49-54 | along children of genesis each state is the sum of all extrinsics so far and each height its position |
| Consensus.Unmined | src/c2_blockchain/p3_consensus.rs:57-63 | the header before mining links by hash, has the next height, the extrinsic, and the summed state |
| Consensus.Child | src/c2_blockchain/p3_consensus.rs:56-72 | a header is returned iff some nonce works; it is the template with the first working nonce, its hash is below THRESHOLD and its digest below 2^32 |
| BatchedExtrinsics.Child | src/c2_blockchain/p4_batched_extrinsics.rs:46-54 | a child links by hash, has the next height, the given root and state, and digest 0 |
| BatchedExtrinsics.VerifySubChain | src/c2_blockchain/p4_batched_extrinsics.rs:76-90 | the loop returns true iff every header passes `verify_child` against its predecessor |
| BatchedExtrinsics.VerifyChild | src/c2_blockchain/p4_batched_extrinsics.rs:63-71 | `verify_child` holds iff the child's height is the parent's saturating successor, its parent field is the parent's hash, and it carries the parent's state |
| BatchedExtrinsics.ChildVerifiesIffSameState | src/c2_blockchain/p4_batched_extrinsics.rs:63-71 | a child built with state `s` verifies iff `s` is the parent's state |
| BatchedExtrinsics.EmptyChainVerifies | src/c2_blockchain/p4_batched_extrinsics.rs:76-90 | an empty slice verifies |
| BatchedExtrinsics.VerifiedChainKeepsState | src/c2_blockchain/p4_batched_extrinsics.rs:81-89 | every header of a verified chain carries the anchor's state |
| ForkChoice.BestIndex | src/c2_blockchain/p5_fork_choice.rs:53-63 | the incumbent of a left-to-right pass that replaces only on a strictly greater score is the earliest maximum |
| ForkChoice.EarliestMaxIsUnique | src/c2_blockchain/p5_fork_choice.rs:53-63 | the earliest maximum is unique |
| ForkChoice.BestIndexStep | src/c2_blockchain/p5_fork_choice.rs:57-61 | one step of the pass keeps the incumbent unless the next score is strictly greater |
| ForkChoice.LongestBestChain | src/c2_blockchain/p5_fork_choice.rs:53-63 | the longest rule's `best_chain` returns the earliest candidate of maximal length |
| ForkChoice.LongestFirstChainIsBetter | src/c2_blockchain/p5_fork_choice.rs:45-51 | the first chain is better iff it is at least as long, so ties go to the first |
| ForkChoice.LongestPair | src/c2_blockchain/p5_fork_choice.rs:45-63 | for two chains `best_chain` picks the first iff `first_chain_is_better` |
| ForkChoice.LongestBestIsBetterThanAll | src/c2_blockchain/p5_fork_choice.rs:45-63 | the chosen chain is at least as good as every candidate and strictly better than every earlier one |
| ForkChoice.GetWork | src/c2_blockchain/p5_fork_choice.rs:105-111 | `get_work` is the left fold from 0 of saturating i64 additions of the cast work terms |
| ForkChoice.HeaviestBestChain | src/c2_blockchain/p5_fork_choice.rs:123-133 | the heaviest rule's `best_chain` returns the earliest candidate of maximal work |
| ForkChoice.HeaviestFirstChainIsBetter | src/c2_blockchain/p5_fork_choice.rs:115-121 | the first chain is better iff its work is at least the second's, so ties go to the first |
| ForkChoice.HeaviestPair | src/c2_blockchain/p5_fork_choice.rs:114-134 | for two chains `best_chain` picks the first iff `first_chain_is_better` |
| ForkChoice.HeaviestBestIsBetterThanAll | src/c2_blockchain/p5_fork_choice.rs:114-134 | the chosen chain is at least as heavy as every candidate and strictly heavier than every earlier one |
| ForkChoice.AsWrittenHighHashOutweighsLowHash | src/c2_blockchain/p5_fork_choice.rs:105-111 | as written, a one-header chain with hash u64::MAX weighs more than one with hash 0 |
| ForkChoice.IntendedWorkTerm | src/c2_blockchain/p5_fork_choice.rs:66-73 | `THRESHOLD - hash` without the cast is non-negative for hashes up to THRESHOLD |
| ForkChoice.IntendedWorkTermIsAntitone | src/c2_blockchain/p5_fork_choice.rs:66-73 | a lower hash never gives less work |
| ForkChoice.IntendedLowerHashesWeighMore | src/c2_blockchain/p5_fork_choice.rs:66-73 | a chain whose hashes are pointwise no higher has at least as much work and is preferred |
| ForkChoice.IntendedLowHashOutweighsHighHash | src/c2_blockchain/p5_fork_choice.rs:66-73 | a one-header chain with hash 0 weighs strictly more than one with hash u64::MAX |
| ForkChoice.CountEven | src/c2_blockchain/p5_fork_choice.rs:154-162 | the number of even hashes is at most the chain length |
| ForkChoice.CountEvenHashes | src/c2_blockchain/p5_fork_choice.rs:154-162 | the counting loop returns the number of headers with an even hash |
| ForkChoice.CountEvenAppend | src/c2_blockchain/p5_fork_choice.rs:154-162 | the count of a concatenation is the sum of the counts |
| ForkChoice.CountEvenExtremes | src/c2_blockchain/p5_fork_choice.rs:154-162 | the count is the length iff every hash is even, and 0 iff every hash is odd |
| ForkChoice.EvenBestChain | src/c2_blockchain/p5_fork_choice.rs:174-184 | the even-hash rule's `best_chain` returns the earliest candidate with the most even hashes |
| ForkChoice.EvenFirstChainIsBetter | src/c2_blockchain/p5_fork_choice.rs:166-172 | the first chain is better iff it has at least as many even hashes, so ties go to the first |
| ForkChoice.EvenPair | src/c2_blockchain/p5_fork_choice.rs:165-185 | for two chains `best_chain` picks the first iff `first_chain_is_better` |
| ForkChoice.EvenBestIsBetterThanAll | src/c2_blockchain/p5_fork_choice.rs:165-185 | the chosen chain has at least as many even hashes as every candidate and strictly more than every earlier one |
| ForkChoice.MineConsensusDigest | src/c2_blockchain/p5_fork_choice.rs:83-93 | mining succeeds iff some nonce works; the result is the header with the first working nonce, hash below the threshold and digest below 2^32; on failure the header is unchanged |
| ForkChoice.MineExtraHard | src/c2_blockchain/p5_fork_choice.rs:99-101 | only the block's header digest changes; the body is untouched and the new hash is below the threshold |
| RichState.VerifyChild | src/c2_blockchain/p6_rich_state.rs:76-81 | `verify_child` holds iff the child's parent field is the parent's hash and its height is the parent's saturating successor, which is one more unless the parent is at u64::MAX |
| RichState.ChildHeader | src/c2_blockchain/p6_rich_state.rs:65-73 | a child header passes `verify_child` against its parent and carries the given roots and digest 0 |
| RichState.VerifySubChain | src/c2_blockchain/p6_rich_state.rs:84-94 | the header loop returns true iff every header passes `verify_child` against its predecessor |
| RichState.ExecuteExtrinsics | src/c2_blockchain/p6_rich_state.rs:116-122 | execution adds the sum of the extrinsics to `sum` and multiplies `product` by their product |
| RichState.ExecuteEmpty | src/c2_blockchain/p6_rich_state.rs:116-122 | executing no extrinsics leaves the state unchanged |
| RichState.ExecuteAppend | src/c2_blockchain/p6_rich_state.rs:116-122 | executing a concatenation is executing the parts one after the other |
| RichState.GenesisBlock | src/c2_blockchain/p6_rich_state.rs:125-130 | the genesis block has height 0, an empty body, and a state root matching its genesis state |
| RichState.ChildBlock | src/c2_blockchain/p6_rich_state.rs:133-141 | a child block's header verifies against its parent and commits to the hash of its body and of the state after executing it on the pre-state |
| RichState.VerifyBlockSubChain | src/c2_blockchain/p6_rich_state.rs:148-164 | the block loop returns true iff every predecessor's body executed from the same pre-state hashes to its state root and every block links to its predecessor and its own body |
| RichState.BuildInvalidChildBlockWithValidHeader | src/c2_blockchain/p6_rich_state.rs:178-188 | the block's header verifies against the parent; its extrinsics root is the hash of the literal `vec![1,2,3,4,5]` (a `Vec<i32>`), its state root that of `[1,2,3,4,5]` executed as `u64` extrinsics, and its body is `[1,2,3]` |
| RichState.InvalidChildBlockRejected | src/c2_blockchain/p6_rich_state.rs:178-188 | when the `u64` body `[1,2,3]` and the `i32` literal `[1,2,3,4,5]` hash apart, that block fails block verification |
| RichState.GenesisAndChildVerify | src/c2_blockchain/p6_rich_state.rs:125-164 | a genesis block and a child built from it verify |
| RichState.AsWrittenAcceptsTamperedLastStateRoot | src/c2_blockchain/p6_rich_state.rs:148-164 | as written, the last block verifies whatever state root it claims |
| RichState.AsWrittenRejectsHonestChain | src/c2_blockchain/p6_rich_state.rs:153-158 | as written, an honestly built chain of three blocks is rejected when re-executing the second body from the original pre-state gives a different root |
| RichState.IntendedAcceptsChildChains | src/c2_blockchain/p6_rich_state.rs:143-147 | every chain built by `Block::child` on a valid anchor passes verification that threads the state |
| RichState.IntendedRejectsTamperedLastStateRoot | src/c2_blockchain/p6_rich_state.rs:143-147 | verification that threads the state rejects a last block with a wrong state root |

## Left out

- The hash function (`src/lib.rs`, a `DefaultHasher` wrapper) is foreign. It is a function-valued parameter, and no property depends on how it mixes bits.
- Randomness (`rand::thread_rng`, the two `generate_nonce` functions) is foreign. The nonces are a finite caller-supplied stream of `u32` values instead.
- Consensus.Child: the source loops until a nonce works and never gives up. Here the search returns `None` when the stream runs out.
- ForkChoice.MineConsensusDigest: the source loops until a nonce works and never gives up. Here the search reports `found == false` when the stream runs out.
- ForkChoice.MineConsensusDigest: the header is passed in and returned as a value rather than updated through `&mut Header`.
- ForkChoice.MineExtraHard: the block is passed in and returned as a value rather than updated through `&mut Block`.
- RichState.ExecuteExtrinsics: the source also leaves the caller's `&mut State` equal to the result. Here that is the returned value; every caller in the source passes a fresh clone.
- DigitalCash.NextState: `SerialRoom` demands room in the counter for every receive of a transfer. The source only panics when the counter overflows on an `add_bill` it reaches, so a transfer rejected before that point has a weaker requirement.
- DigitalCash.TransferProcess: `SerialRoom` demands room in the counter for every receive. The source only panics when an `add_bill` it reaches overflows the counter.
- RichState.VerifyBlockSubChain: `PredecessorsFit` requires every predecessor's execution to fit in u64. The source only panics on the executions it reaches before an early `false`.
- ForkChoice.GetWork: `WorkFits` rules out the i64 subtraction overflow, which panics for hashes just above 2^63.
- AtmMachine.NextState: `WithdrawFits` rules out the u64 overflow of the digit fold, which panics.
- u64 overflow in `+ 1` on heights and `+` on states (`child` in every chain lesson, `add_bill`) is likewise a precondition.
- The `println!` on a rejected transfer is output only.
- The `todo!()` stubs have no behaviour to model:
  - `verify_sub_chain` and the builders in `src/c2_blockchain/p2_extrinsic_state.rs`;
  - `verify_sub_chain*` and `build_contentious_forked_chain` in `src/c2_blockchain/p3_consensus.rs`;
  - every `Block` method in `src/c2_blockchain/p4_batched_extrinsics.rs`;
  - `src/c1_state_machine/p4_accounted_currency.rs`;
  - `WeirdSwitchMachine`.
- `LightSwitch` is a one-line boolean negation.
- The `StateMachine` and `ForkChoice` traits and the module wiring are plumbing. Each `next_state`, `first_chain_is_better` and `best_chain` is modelled directly.
- The chain builders of `src/c2_blockchain/p5_fork_choice.rs` that search for particular hashes (lines 187-225) depend on concrete hash values.
- The test fixtures depend on concrete hash values.
- The genesis constructors are modelled as constant functions without contracts. Their field values can be read off directly.

## Findings

| source | as written | input that shows it | evidently intended | confidence | as-written member | corrected member |
|---|---|---|---|---|---|---|
| src/c2_blockchain/p5_fork_choice.rs:108 | the work term is `THRESHOLD as i64 - hash as i64`, and the cast reads hashes of 2^63 and above as negative | a one-header chain with hash u64::MAX scores THRESHOLD + 1, more than a one-header chain with hash 0, which scores THRESHOLD | work is `THRESHOLD - hash`, so a lower hash is never less work (lines 66-73) | not executed | ForkChoice.AsWrittenHighHashOutweighsLowHash | ForkChoice.IntendedLowHashOutweighsHighHash |
| src/c2_blockchain/p6_rich_state.rs:148-164 | `Block::verify_sub_chain` re-executes every predecessor's body from the same caller-supplied pre-state, and never checks the last block's state root | genesis plus one child whose state root is replaced by any value verifies; an honest chain of three blocks whose second body gives a different root from the original pre-state than from the threaded state is rejected | thread the post-state from block to block and check every state root, the last one included (lines 143-147) | not executed | RichState.AsWrittenAcceptsTamperedLastStateRoot | RichState.IntendedRejectsTamperedLastStateRoot |
