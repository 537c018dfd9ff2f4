# Private M-of-N multisig: a verified model

A Dafny model of a private threshold multisig for a zero-knowledge execution chain, with proofs of
what the protocol guarantees. Members are enrolled as leaves `H(sk || salt)` of a depth-20 Merkle
tree whose root is frozen on chain. An approval is a receipt of a circuit that knows a leaf's opening
and reveals only a nullifier `H(sk || proposal_id)`. The on-chain program counts approvals under
nullifier accounts and, once `m` are in, emits one chained call.

The model is one stack, bottom to top, and one independent component.

| layer | files |
|---|---|
| bytes, bits, hashing, identities | `ByteStrings`, `Bits`, `Hashing`, `Identities` |
| Merkle tree: as a value, and as the mutable object | `Merkle`, `MerkleTree` |
| byte formats: Borsh, public inputs, proposal ids, addresses | `CoreTypes`, `Borsh`, `ProposalIds`, `Addresses` |
| approval circuit, SDK builder and prover | `ApproveCircuit`, `Builder`, `Prover` |
| on-chain program: handler decisions, ledger by account kind, ledger by address, the handlers themselves | `Handlers`, `TypedLedger`, `ChainLedger`, `VerifierProgram` |
| what is where in every encoding; when each instruction is accepted and what it writes | `Layouts`, `Acceptance` |
| whole runs | `Runs`, `Protocol`, `Quorum`, `Safety`, `Instances`, `Executability` |
| approval sessions and their store (independent) | `Sessions`, `SessionStore` |

## How it is modelled

- **Hashing.** SHA-256 (section 6.2 of FIPS 180-4) is an unspecified function to 32-byte strings,
  carried as a value of `Hasher`. Nothing says it is injective. Where collision resistance matters, a
  lemma asks for `CollisionFree(h, inputs)`: no two members of one *finite set of inputs actually
  hashed* have one digest. `TreeInputs`, `FoldInputs`, `AddressInputs`, `ReceiptInputs` and
  `ProposalIdInputs` are those sets.
- **Call payloads.** `risc0_zkvm::serde::to_vec` is likewise an unspecified function, from action bytes
  to words, carried by `Program`. Nothing is asked of it.
- **Depth.** Tree lemmas hold for every depth; the circuit, the builder and the program use
  `MERKLE_DEPTH = 20`.
- **The chain.** `ChainLedger.Step` works on a map from addresses to byte strings, with the
  framework's guards: `pda` (the named account is the derived one), `init` (nothing is at the address)
  and `owner` (the account belongs to the program). A refused transaction leaves the ledger as it was.
  `VerifierProgram.Verifier` holds the handlers in imperative form, each proved equal to that step.
  `TypedLedger.Perform` is the same protocol on a ledger keyed by what an account *is*; the chain refines
  it. A typed nullifier entry also remembers the opening its receipt was made from.
- **Receipts.** `env::verify` is a guard: a transaction carries the guest input of the attached
  receipt, and `approve` requires that the circuit, run on that input, commits exactly the submitted
  public inputs. This is the soundness assumption on the proof system, and the only one.
- **Runs.** A `Run` is a program, a starting chain on which the program owns nothing, any sequence of
  transactions, and the recorded outcome of each; in a genuine run every record is the program's step.
  `Verifier.Process` produces such runs with the imperative handlers.
- **Votes.** The nullifier ignores the salt: commitments with one secret key share one vote. Approvals are
  bounded by the distinct keys enrolled (`ApprovalsWithinKeys`), so `m` may be out of reach although
  `m <= n` (`TooFewKeysNeverExecute`).

## Where code and comments differ

The model follows the code.

- `sdk/src/session.rs:229-230` calls `Failed` terminal; `demote_on_reorg` (lines 179-188) is guarded
  only by the recorded block and revives it. `FailedIsTerminalUnlessSubmitted` gives the exact
  condition under which no sequence of calls leaves `Failed`, and `RevivedAfterFailure` a run that does.
- `private_multisig_core/src/state.rs:119-122` says the action cap is checked on `Propose` and
  `Execute`; only `propose` checks it.
- `sdk/src/multisig.rs:74-77` pushes to `added` before inserting in the tree, so a full tree leaves
  the list longer than the leaves. `MemberProofs` says exactly when list and leaves agree,
  `OverfullBuilder` gives a builder that finalizes with a member who has no proof, and the guarantees
  for built instances hold in that case too.
- `approve` does not look at `executed`: an executed proposal accepts fresh approvals and its count grows
  (`ApproveExactly`).
- `create_vault` writes no body into the vault account, although a `Vault` body type exists.

## Model

| member | source | states |
|---|---|---|
| `Merkle.ShortcutIsNaive` | crypto/src/merkle.rs:123-143 | the zero-marker recursion of `node_at` equals the full recursion over zero-padded leaves, at every node, straddling subtrees included |
| `Merkle.Completeness` | crypto/src/merkle.rs:96-117 | a stored leaf verifies with the proof the tree issues exactly when it is not the all-zero leaf |
| `Merkle.RawOpenings` | crypto/src/merkle.rs:173-182 | the guard aside, exactly the honest openings of the 2^depth padded positions fold to the root |
| `Merkle.Soundness` | crypto/src/merkle.rs:169-183 | acceptance against a tree root, in both directions: non-zero leaf, stored at the position its direction bits spell, with the very proof the tree issues |
| `Merkle.GuardIsNeeded` | crypto/src/merkle.rs:160-172 | every empty position's zero leaf folds to the root, so only the guard refuses it |
| `Merkle.RootBinding` | crypto/src/merkle.rs:57-98 | equal roots hold exactly for equal zero-padded leaf sequences, and then every internal node agrees |
| `Merkle.AppendKeepsNodes` | crypto/src/merkle.rs:87-94 | appending changes no node off the new leaf's path |
| `Merkle.InsertLocality` | crypto/src/merkle.rs:87-143 | appending leaf k changes one sibling of proof(i), at the highest bit where i and k differ, to the new node over k |
| `Merkle.AppendMovesRoot` | crypto/src/merkle.rs:87-98 | the root moves on append exactly when the leaf is not all zeros |
| `Merkle.StaleProof` | crypto/tests/blue_team_v4.rs:565-606 | a proof from before an append fails against the new root exactly when the appended leaf is not all zeros |
| `MerkleTrees.MerkleTree.constructor` | crypto/src/merkle.rs:57-73 | the marker loop fills one zero hash per level |
| `MerkleTrees.MerkleTree.Insert` | crypto/src/merkle.rs:87-94 | appends and returns the old length, or reports full and changes nothing |
| `MerkleTrees.MerkleTree.Root` | crypto/src/merkle.rs:96-98 | the recursion over the object's markers is the root of its leaves |
| `MerkleTrees.MerkleTree.Proof` | crypto/src/merkle.rs:100-117 | the xor, and, shift walk collects the siblings and bits of the position, or reports the range error |
| `MerkleTrees.VerifyProof` | crypto/src/merkle.rs:169-183 | the loop decides acceptance as specified |
| `Identities.SameNullifier` | crypto/src/nullifier.rs:20-25 | a nullifier fixes key and proposal |
| `Identities.SameCommitment` | crypto/src/identity.rs:29-34 | a commitment fixes key and salt |
| `Borsh.StateCodec` | private_multisig_core/src/state.rs:36-51 | a byte string decodes to a state exactly when it is that state's encoding |
| `Borsh.ProposalCodec` | private_multisig_core/src/state.rs:85-117 | the same for proposals |
| `Borsh.InstructionCodec` | private_multisig_core/src/instructions.rs:48-97 | the same for the six instructions in discriminant order |
| `Borsh.PrefixFree` | private_multisig_core/tests/borsh_fuzz.rs:354-536 | no strict prefix and no extension of an encoding is accepted |
| `Borsh.BadTagsRefused` | private_multisig_core/tests/borsh_fuzz.rs:538-616 | discriminants above 5 and flag bytes above 1 are refused in any context |
| `Layouts.StateLayout` | private_multisig_core/src/state.rs:36-51 | the 77 bytes of a state, field by field at literal offsets, integers byte by byte |
| `Layouts.ProposalLayout` | private_multisig_core/src/state.rs:85-117 | the bytes of a proposal: length, action, target, count, flag |
| `Layouts.InstructionLayout` | private_multisig_core/tests/abi_wire_format.rs:31-49 | the six literal discriminants in order, then create key and fields at their offsets |
| `Layouts.TreeLayout` | crypto/src/hash.rs:26-63 | leaves are hashed under tag 0 and nodes under tag 1, left child first |
| `Layouts.IdentityLayout` | crypto/src/nullifier.rs:20-25 | a commitment hashes key then salt, a nullifier key then proposal id |
| `Layouts.PublicInputsLayout` | private_multisig_core/src/proof.rs:45-71 | root, proposal id, nullifier |
| `Layouts.ChainIdLayout` | private_multisig_core/src/proof.rs:85-119 | the number in eight bytes, least significant first, then zeros |
| `Layouts.ProposalIdLayout` | private_multisig_core/src/proof.rs:145-165 | the 136 hashed bytes: chain, state address, index, action digest, target digest |
| `Layouts.ProgramProposalId` | methods/guest/src/bin/private_multisig.rs:316-332 | the id the program recomputes is of this deployment, this state address, this index and this proposal |
| `Layouts.ProgramIdLayout` | methods/guest/src/bin/private_multisig.rs:468-483 | each word of the callee's id is four bytes of the proposed target, least significant first |
| `Layouts.AddressLayout` | private_multisig_core/src/pda.rs:60-134 | the hashed bytes of every address: prefix text, program id, and the digest of the padded literal and the other seeds in order |
| `Layouts.WitnessLayout` | private_multisig_program/src/lib.rs:110-129 | the 788 bytes of a witness at literal offsets |
| `Layouts.JournalExactly` | methods/guest/src/bin/approve_circuit.rs:41-104 | on any input: no journal for a short input or a direction byte above 1; otherwise root, id and nullifier exactly when the carried path opens the carried identity |
| `ProposalIds.PublicInputsBijection` | private_multisig_core/src/proof.rs:45-71 | the 96-byte layout and the three fields determine each other |
| `ProposalIds.SameProposalId` | private_multisig_core/src/proof.rs:145-165 | a proposal id fixes chain, state address, index, action and target |
| `ProposalIds.DeriveProposalIdBuffered` | private_multisig_core/src/proof.rs:145-165 | the 136-byte buffer is filled with the five fields in order |
| `Addresses.DerivePdaBuffered` | private_multisig_core/src/pda.rs:75-97 | the seed loop and the prefixed buffer derive the specified address |
| `Addresses.DeriveAddress` | private_multisig_core/src/pda.rs:99-134 | the four typed derivations, over padded seeds, compute the specified addresses |
| `Addresses.AddressInjective` | private_multisig_core/src/pda.rs:99-134 | two accounts at one address are one account, across the four classes and all arguments |
| `ApproveCircuit.PackApproveWitnessBuffered` | private_multisig_program/src/lib.rs:110-129 | the slice writes produce the canonical 788-byte layout |
| `ApproveCircuit.ReadsWhatWasPacked` | methods/guest/src/bin/approve_circuit.rs:41-86 | the guest parses a packed witness back to exactly the key, salt, path, root and id, whatever follows in the stream |
| `ApproveCircuit.RunApproveCircuit` | methods/guest/src/bin/approve_circuit.rs:41-104 | the guest's loops and panics compute the specified journal |
| `ApproveCircuit.JournalOfPacked` | methods/guest/src/bin/approve_circuit.rs:41-104 | on a packed witness the journal is the public inputs, exactly when the opening verifies |
| `ApproveCircuit.JournalIsSound` | methods/guest/src/bin/approve_circuit.rs:85-104 | a committed journal comes with an opening under its root and that opening's nullifier for its proposal |
| `Builder.MultisigBuilder.AddMember` | sdk/src/multisig.rs:70-79 | duplicates are refused untouched; otherwise the list grows, and the tree grows too unless it is full |
| `Builder.MultisigBuilder.Finalize` | sdk/src/multisig.rs:86-112 | the checks in order and the frozen result |
| `Builder.FinalizedIsWellMade` | sdk/src/multisig.rs:86-112 | finalization succeeds exactly for a valid threshold, with distinct commitments and the root of the enrolled leaves |
| `Builder.FinalizedExactly` | sdk/src/multisig.rs:86-112 | each error under its own condition, in order; success freezes the builder's own threshold, list, leaves and root |
| `Builder.MemberProofs` | sdk/src/multisig.rs:148-164 | a member gets a proof exactly while the tree had room, the proof of its own position, which verifies against the published root unless the commitment is zero; each refusal has its own error; leaves and `n` agree exactly when the tree never overflowed |
| `Builder.OverfullBuilder` | sdk/src/multisig.rs:70-112 | a concrete builder with one commitment more than the tree holds: it finalizes, and the last member it counts has no proof |
| `Prover.ApprovalProver.StreamWitness` | sdk/src/prover.rs:255-274 | the buffers streamed to the guest are the five specified slices |
| `Prover.StreamIsPacked` | sdk/src/prover.rs:249-274 | the streamed slices are the packed witness, byte for byte |
| `Prover.NewProverExactly` | sdk/src/prover.rs:132-186 | a prover is built exactly for an action within the cap, an index below the count and an opening path; each failing check has its own error; the prover holds what it was given |
| `Prover.SnapshotExactly` | sdk/src/multisig.rs:205-245 | a snapshot holds its fields and derives the proposal ids the program recomputes |
| `Prover.EndToEnd` | sdk/src/prover.rs:132-275 | if the prover was built from data matching the chain, the guest commits the bytes the SDK submits and all the program's checks on them pass |
| `Handlers.ProgramIdRoundTrip` | methods/guest/src/bin/private_multisig.rs:468-483 | the eight words of the callee's id re-encode to the proposed 32 bytes |
| `Handlers.VaultSeedAuthorizesVault` | methods/guest/src/bin/private_multisig.rs:494-512 | the runtime derives the instance's vault address from the seed passed to the callee |
| `Handlers.ApprovalOpens` | methods/guest/src/bin/private_multisig.rs:269-351 | passing the approval checks means an opening under the stored root for the recomputed proposal id, with the nullifier of the entry |
| `TypedLedger.StepKeepsInv` | methods/guest/src/bin/private_multisig.rs:42-548 | every instruction keeps the accounting: valid thresholds, proposals exactly below the count, counts equal to entries, entries backed by openings, executed only at threshold |
| `ChainLedger.StepSimulates` | methods/guest/src/bin/private_multisig.rs:42-548 | whenever the chain accepts, the typed ledger accepts with the same calls and corresponding results; and conversely if accounts are named correctly and no foreign account is in the way |
| `VerifierProgram.Verifier.CreateMultisig` | methods/guest/src/bin/private_multisig.rs:42-87 | the handler performs the specified step or leaves the accounts unchanged |
| `VerifierProgram.Verifier.CreateVault` | methods/guest/src/bin/private_multisig.rs:104-133 | the same |
| `VerifierProgram.Verifier.Propose` | methods/guest/src/bin/private_multisig.rs:153-233 | the same, with both accounts written |
| `VerifierProgram.Verifier.Approve` | methods/guest/src/bin/private_multisig.rs:255-391 | the same, with the checks in order |
| `VerifierProgram.Verifier.Execute` | methods/guest/src/bin/private_multisig.rs:399-526 | the same, with the emitted call: words of the target, the vault authorized, the encoded action, the vault seed |
| `VerifierProgram.Verifier.Reject` | methods/guest/src/bin/private_multisig.rs:535-547 | a guarded no-op |
| `VerifierProgram.Verifier.Dispatch` | methods/guest/src/bin/private_multisig.rs:31-33 | any transaction, sent to the handler of its instruction, performs the specified step or leaves the accounts unchanged |
| `VerifierProgram.Verifier.Process` | e2e_tests/src/harness.rs:376-383 | handling any transactions one after the other leaves the accounts at the end of a genuine run, so every result about runs is one about this object |
| `VerifierProgram.BuildCall` | methods/guest/src/bin/private_multisig.rs:458-520 | the word loop, the vault clone with its data and the authorized flag set, the encoded payload and the combined seed build the specified call |
| `Acceptance.NamesExactly` | methods/guest/src/bin/private_multisig.rs:42-548 | the accounts each instruction must name, in order, at their derived addresses |
| `Acceptance.CreateExactly` | methods/guest/src/bin/private_multisig.rs:42-87 | accepted exactly for a free address and `0 < m <= n`; the state written; each refusal's code |
| `Acceptance.VaultExactly` | methods/guest/src/bin/private_multisig.rs:104-133 | accepted exactly on an owned, decodable state with no vault; the empty account written; each refusal's code |
| `Acceptance.ProposeExactly` | methods/guest/src/bin/private_multisig.rs:153-233 | accepted exactly for a free address, at most 4096 bytes, the next index, below the u64 maximum; the two accounts written; each refusal's code |
| `Acceptance.ApproveExactly` | methods/guest/src/bin/private_multisig.rs:255-391 | executed or not, accepted exactly for a fresh nullifier, the right public inputs, a receipt that commits them and room in the count; the two accounts written; each refusal's code, in order |
| `Acceptance.ExecuteExactly` | methods/guest/src/bin/private_multisig.rs:399-526 | accepted exactly with an owned vault, not executed and at least m approvals; the flag written and the one call emitted; each refusal's code |
| `Acceptance.OwnersExactly` | methods/guest/src/bin/private_multisig.rs:104-548 | accounts that are not the program's are refused; `reject` does nothing |
| `Acceptance.UndecodableExactly` | methods/guest/src/bin/private_multisig.rs:104-526 | accounts that do not decode are refused as such, unless the arguments are malformed already |
| `Runs.RunRefines` | methods/guest/src/bin/private_multisig.rs:42-548 | at every point of every run the program's accounts are the typed ledger's, each at its derived address with its encoding, and the accounting holds |
| `Runs.WrittenOnce` | private_multisig_core/src/state.rs:30-35 | between any two points of a run roots, thresholds, actions, targets and nullifier entries never change, counters never fall and executed never resets |
| `Protocol.ApprovalLog` | methods/guest/src/bin/private_multisig.rs:255-391 | the entries of a proposal are its accepted approvals, one each, under pairwise distinct nullifiers |
| `Protocol.ProposalOrigin` | methods/guest/src/bin/private_multisig.rs:153-233 | a stored proposal was opened by an earlier accepted `propose` with its action and target |
| `Quorum.OneMemberOneVote` | methods/guest/src/bin/private_multisig.rs:255-391 | the accepted approvals of a proposal come from enrolled members with pairwise distinct keys and leaves |
| `Quorum.CountIsApprovals` | methods/guest/src/bin/private_multisig.rs:353-363 | the stored count is the number of accepted approvals |
| `Quorum.QuorumSoundness` | methods/guest/src/bin/private_multisig.rs:399-526 | if a proposal is ever executed, at least m earlier accepted approvals of it were made by pairwise distinct enrolled members |
| `Quorum.ApprovalsWithinMembership` | methods/guest/src/bin/private_multisig.rs:353-363 | approvals never exceed the enrolled leaves |
| `Quorum.ApprovalsWithinKeys` | crypto/src/nullifier.rs:20-25 | approvals never exceed the distinct secret keys enrolled, however many leaves they fill |
| `Quorum.TooFewKeysNeverExecute` | methods/guest/src/bin/private_multisig.rs:431-445 | an instance whose leaves carry fewer than m distinct keys never executes |
| `Instances.BuiltInstance` | sdk/src/multisig.rs:70-112 | for a finalized builder, full tree or not, approvals stay within the leaves and `n`, and every voter was added to the builder |
| `Instances.BuiltQuorum` | sdk/src/multisig.rs:86-112 | an instance created from what `finalize` returned executes only after as many approvals as the builder's `m`, by distinct members among those it was given |
| `Safety.LedgerAccounting` | methods/guest/src/bin/private_multisig.rs:63-216 | read off the chain bytes of any reachable ledger, for any instance and index whose addresses are derived without a collision: valid threshold, proposals exactly below the count, action within the cap, count equal to accepted approvals |
| `Safety.OverflowUnreachable` | methods/guest/src/bin/private_multisig.rs:353-362 | with a member tree behind the instance, whatever `n` it states, `approve` is never refused for overflow of the count |
| `Safety.CallsWhenFlipped` | methods/guest/src/bin/private_multisig.rs:431-525 | a step emits a call exactly when it turns a proposal's executed flag on |
| `Safety.ExecutedOnce` | methods/guest/src/bin/private_multisig.rs:431-456 | a proposal is executed at most once in a run |
| `Safety.FaithfulExecution` | methods/guest/src/bin/private_multisig.rs:452-525 | the one call carries the encoded action and the target of an earlier accepted `propose` for that index, hands over the instance's vault, empty and authorized, and its one seed derives that vault's address |
| `Safety.NoCrossProposalReplay` | methods/guest/src/bin/private_multisig.rs:316-344 | public inputs accepted on two proposals make them the same instance, index, action and target |
| `Safety.PublicInputsUsedOnce` | methods/guest/src/bin/private_multisig.rs:233-391 | the same public inputs are accepted at most once in a run |
| `Safety.InstancesAreIsolated` | private_multisig_core/src/pda.rs:99-134 | a transaction on one instance leaves unchanged every account of every other instance whose address is derived without a collision |
| `Safety.ForeignAccountsUntouched` | methods/guest/src/bin/private_multisig.rs:42-548 | no run, colliding hashes or not, changes an account another program owned from the start |
| `Executability.EnrolledMembersCanProve` | sdk/src/prover.rs:132-186 | every enrolled member of a finalized builder gets a prover |
| `Executability.HonestRunSucceeds` | methods/guest/src/bin/private_multisig.rs:42-526 | from any reachable ledger, create, open vault, propose, approve by at least m enrolled members in any order, execute, with any transactions on other instances in between: every step is accepted and the last emits the call |
| `Sessions.SessionsStayConsistent` | sdk/src/session.rs:86-116 | over every sequence of calls: submitted and confirmed sessions have a block, earlier ones none, and a receipt is cached wherever one is promised |
| `Sessions.EveryCall` | sdk/src/session.rs:146-257 | calls that are rejected or still pending change nothing, a missing block is never reported, and `Confirmed` is entered and left only as documented |
| `Sessions.NewSessionExactly` | sdk/src/session.rs:124-144 | a new session is drafted, with both cached identifiers and nothing else |
| `Sessions.CallsExactly` | sdk/src/session.rs:146-257 | for every call: the statuses it is accepted from, the fields it writes, the reply |
| `Sessions.TryConfirmExactly` | sdk/src/session.rs:212-227 | in every run, a submitted session is confirmed exactly when the finality buffer has elapsed, pending exactly before, overflow exactly beyond the width |
| `Sessions.ReceiptOrigin` | sdk/src/session.rs:154-164 | the cached receipt is that of the last accepted `mark_proved` |
| `Sessions.MessageOrigin` | sdk/src/session.rs:229-235 | the recorded message is that of the last `mark_failed` |
| `Sessions.RetriesAreReorgs` | sdk/src/session.rs:179-188 | the retry counter counts the reorgs detected, modulo its width |
| `Sessions.ConfirmedMeansFinal` | sdk/src/session.rs:200-227 | if nothing forced it, a confirmed session was submitted at its recorded block by an accepted call not undone since, and a later accepted check saw the finality buffer elapse |
| `Sessions.FailedIsTerminalUnlessSubmitted` | sdk/src/session.rs:179-188 | no sequence of calls takes a failed session out of `Failed` exactly when no block above zero is recorded |
| `Sessions.RevivedAfterFailure` | sdk/src/session.rs:179-235 | a concrete run that leaves `Failed` |
| `Sessions.ApprovalSession.TryConfirm` | sdk/src/session.rs:212-227 | the method performs the specified call, overflow branch included |
| `Sessions.ApprovalSession.MarkProved` | sdk/src/session.rs:160-164 | the receipt is written only after the transition is accepted |
| `Sessions.ApprovalSession.DemoteOnReorg` | sdk/src/session.rs:179-188 | demotes from any status with a block above the current height |
| `SessionStores.PrefixBlockIsContiguous` | sdk/src/session.rs:405-411 | in key order, past the first key without the prefix no key has it |
| `SessionStores.KeyInjective` | sdk/src/session.rs:260-284 | instance, proposal and commitment in order; two keys are equal exactly when they are |
| `SessionStores.LessIsLexicographic` | sdk/src/session.rs:403-411 | the key order is lexicographic on unsigned bytes |
| `SessionStores.PrefixedExactly` | sdk/src/session.rs:387-417 | over any ordered store, corrupted values included, the filter keeps exactly the items whose key has the prefix, in key order |
| `SessionStores.LoadedExactly` | sdk/src/session.rs:358-381 | a missing session and one that does not decode are told apart |
| `SessionStores.SessionStore.LoadForProposal` | sdk/src/session.rs:387-417 | over any ordered store, corrupted values included, the range scan with its early stops returns exactly the plain filter by key prefix, or the corruption error if a value under the prefix does not decode |
| `SessionStores.StoreIsLastWritten` | sdk/src/session.rs:334-437 | after any saves and deletes, loading a member's session returns what the last call for that instance, proposal and member wrote |
| `SessionStores.ScanIsExact` | sdk/src/session.rs:334-437 | after any saves and deletes, loading a proposal succeeds and returns exactly its last-written sessions, one per member, in ascending order of commitments |

## Left out

- SHA-256 itself: its algorithm, digests and statistical properties.
- The proof system: receipts, image ids, proving, caching of a receipt in the prover, dev mode. Only the guard that a verified journal is one the circuit commits remains.
- The word format of `risc0_zkvm::serde`, for a call's payload and for on-chain instructions.
- The account data cap, balances, nonces, signers and the execution of the called program.
- The order in which the framework evaluates its own guards, and its numeric error codes and messages.
- Transactions of other programs in the middle of a run: other programs' accounts are those present at the start.
- Machine words as tree indices: positions and spans are natural numbers; in the source they stay below 2^20 and cannot overflow.
- Keystore encryption, randomness, zeroization and debug redaction of member secrets.
- The session store's database, its lock, its files and the Borsh form of a stored session: the store is an ordered map from keys to values that decode to a session or are corrupted, and I/O errors do not occur.
- Session timestamps. The retry counter wraps as in a release build; a debug build would panic instead.
- `hash_pair`, `ChainId::new`, `SessionStatus::can_reprove` and `can_resubmit`: nothing in the protocol calls them.
- CLI, IDL generator, sequencer harness, quickstart, benches and build scripts: input, output and plumbing.
