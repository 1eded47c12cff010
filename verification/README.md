# Verification models for the Ceno zkVM

A Dafny project that models three parts of the repository and proves what they are for. Verify it with
`dafny verify dfyconfig.toml`.

**Sumcheck.** The prover splits a sum of products of multilinear tables over 2^k workers, runs the first rounds on the
chunks while the threads exchange messages and challenges over two-slot rolling channels, merges the tables, and finishes
on one thread. The verifier draws the same challenges and makes all checks at the end.

- `Fields`, `Sums`, `Polynomials`, `Interpolation`, `Extrapolation`: any field, with the barycentric tables and the
  hard-coded extrapolation of the code. Base and extension field are one type; `FieldInstances` shows that the laws can
  be met. `CharacteristicAbove(K, d)` says that the integers 0..d are distinct in the field.
- `Multilinear`, `HypercubeSums`, `MixedArity`, `RoundEvaluator`, `ProverRounds`, `ProverState`: folding in place, the
  generated round evaluator, and one thread's mutable state.
- `Registration`, `SplitTables`, `DistributedProver`, `ProverPhases`, `Merge`, `ProverRuns`, `ProverThreads`: the
  distributed prover refines the single prover on the unsplit tables.
- `RollingChannels`, `ChannelResults`, `ConcurrentProver`, `WholeProver`: the threads as a state machine; safety,
  progress, the result of every interleaving, and the whole prover against the verifier.
- `Transcripts`, `Verifier`, `Sumcheck`, `Completeness`, `Soundness`: the transcript is an arbitrary function of its
  history; completeness with its exact condition and deterministic soundness.

The results at the top are `WholeProver.FinishedExecution`, `WholeProver.ExecutionAccepted` and
`Soundness.SoundnessExact`.

**Emulator and memory argument.** `Words` relates 32-bit words to their numbers. `Rv32im` is the specification of an
instruction as a function of the machine, with the accesses it makes; `Arithmetic` and `Meanings` say in numbers what
every instruction computes, changes, uses and refuses. `Emulator` holds the classes of the interpreter and the tracer,
proved against both, and shows what the step records tell. `Traces` and
`EmulatorRuns` show exactly which runs leave a chained trace; `MemoryArgument` shows that balanced records force consistent
memory and that chained traces balance; `ChipHandlers` holds the circuit builder, and `RunCircuits` goes from the records of
a run to a satisfied circuit. `ByteMemory` refines the word memory to a byte-addressed one, and `Disassemble` proves the
LUI/AUIPC rewriting. The results at the top are `RunCircuits.RunAndAssign`, `EmulatorRuns.RunFaithfulIff`,
`MemoryArgument.BalancedMemoryIsConsistent`, `ByteMemory.RunRefines` and `Disassemble.RunMeansTheSame`.

**Fast forms.** `EqTables`, `BoundedEq`, `Hypercube`, `Expressions` and `Limbs` prove that succinct sums, in-place tables
and transforms, expression rewriting and 16-bit limb arithmetic, carries included, agree with their simple definitions.
`Degrees` ties the degree of an expression to its values and to its distributed form; `Subtraction` finds the arm of
subtraction that is wrong.

## Standing assumptions

- `Lawful(K)`: the operations are those of a field.
- `CharacteristicAbove(K, d)`: the integers 0 to d are distinct in the field; d is the maximal degree.
- `ValidInstance`: tables have at least one variable and power-of-two size, and the factors of a product have equally many
  variables.
- `Wide(inst, logThreads)`: some table has at least log2(threads) variables; without it the second phase fails, which
  `WholeProver.ProveSecondPhase` states as an equivalence.
- `RegistersOutside(platform)`: memory lies outside the register addresses; the default platform does this.
- `LegalCalls`: the system calls that a run makes, and no others, use their addresses legally. A run without calls meets
  it. `EmulatorRuns.RunFaithfulIff` shows that the trace is faithful exactly then.

## Findings

Each is stated as a lemma, with the input where there is one.

- The verifier accepts honest proofs only for degrees 1 to 4 and only when no challenge is one of 0..max_degree: its
  extrapolation divides by the distances to the nodes (`Completeness.CompletenessExact`; `HighDegreeRefused` and
  `NodeChallengeRefused` are inputs).
- The second phase needs some table with at least log2(threads) variables (`WholeProver.ProveSecondPhase`; the input is
  `NarrowInstance`).
- A system call that reports an address twice breaks the chain of the trace (`EmulatorRuns.OverlapIsIllegal`; the input is
  `OverlapBreaksChain`). Calls on two pointers do this when the pointers are equal.
- The address baked into AUIPC is right if and only if the program base is 4-aligned (`Disassemble.BakedAddressIsPc`); the
  ELF loader ensures it.
- A constant minus a challenge is not the difference: the sign of the challenge stays (`Subtraction.SubtractionExact`; the
  input is `ConstantMinusChallenge`).
- The assertion on a multiplication without overflow looks at the last carry alone, so a product of two high limbs passes
  it although it overflows (`Limbs.InternalMul` states the exact condition; the input is `OverflowUnnoticed`).
- `eq_eval_less_or_equal_than` uses only the low len(b) bits of its bound (`BoundedEq.EqEvalLessOrEqualThan`).

## Model

| member | source | states |
|---|---|---|
| `Polynomials.TooManyRoots` | sumcheck/src/verifier.rs:113-169 | A polynomial with n coefficients that vanishes at n or more points has only zero coefficients: the root count behind soundness. |
| `Interpolation.InterpolantUnique` | sumcheck/src/extrapolate.rs:40-83 | There is exactly one polynomial function of degree below n through n values at 0..n-1: the interpolant passes through them, and every other polynomial of that degree through them agrees with it everywhere. |
| `Interpolation.FirstForm` | sumcheck/src/util.rs:53-197 | First barycentric form: l(x) times the weighted sum of y_j/(x-j) is the interpolating polynomial at x, off the nodes. |
| `Extrapolation.BarycentricWeights` | sumcheck/src/extrapolate.rs:40-83 | The weight loop yields for every node the inverse of the product of its distances to the other nodes. |
| `Extrapolation.NewTable` | sumcheck/src/extrapolate.rs:40-83 | The nested loops build one normalised row per degree and per target beyond the degree. |
| `Extrapolation.TableRowExact` | sumcheck/src/extrapolate.rs:40-83 | A normalised row applied to the values at 0..d gives the value of the interpolating polynomial at the later integer z, for every d and z below the characteristic. |
| `Extrapolation.ExtrapolateFromTable` | sumcheck/src/util.rs:27-51 | In place: the known prefix stays, every later slot receives the interpolating polynomial at its index. |
| `Extrapolation.ExtendedExact` | sumcheck/src/util.rs:27-51 | If the known values come from a polynomial of small enough degree, all extrapolated values are its values. |
| `Extrapolation.CodeWeightsExact` | sumcheck/src/util.rs:53-197 | The constants written into the four degree cases (with 1/2, 1/6, 1/4, 1/24 and the signs) are the barycentric weights. |
| `Extrapolation.ExtrapolateUniPolyExact` | sumcheck/src/util.rs:53-208 | `extrapolate_uni_poly` returns a value if and only if there are 2 to 5 values and the point is not a node; the value is the interpolating polynomial at the point. |
| `Multilinear.EvaluationIsWeightedSum` | multilinear_extensions/src/mle.rs:456-472 | Fixing all variables gives the sum of all evaluations weighted by the equality table of the point. |
| `Multilinear.MultilinearExtension.FromEvaluations` | multilinear_extensions/src/mle.rs:291-304 | A new polynomial owns a buffer with the given evaluations, whose number must be a power of two. |
| `Multilinear.MultilinearExtension.FoldPass` | multilinear_extensions/src/mle.rs:434-440 | One sequential pass over the whole slice, stale tail included, folds the live prefix. |
| `Multilinear.MultilinearExtension.FoldPassParallel` | multilinear_extensions/src/mle.rs:540-551 | One pass of the parallel form (every pair into its first slot, then the moves to the front) has the same result on the live prefix. |
| `Multilinear.MultilinearExtension.FixVariablesInPlace` | multilinear_extensions/src/mle.rs:409-452 | Both in-place forms leave exactly the table with the given variables fixed, after the single final truncation, for any number of points. |
| `Multilinear.MultilinearExtension.FixVariables` | multilinear_extensions/src/mle.rs:377-405 | The copying forms (sequential and parallel, lines 480-509) return the same table and leave the receiver alone. |
| `Multilinear.MultilinearExtension.Evaluate` | multilinear_extensions/src/mle.rs:456-472 | `evaluate` returns the sum of the evaluations weighted by the point. |
| `Registration.RegisteredSystem` | multilinear_extensions/src/virtual_polys.rs:221-262 | Splitting the tables with more than log2(threads) variables and copying the others gives every worker tables of the sizes the rounds expect, the copies being equal on all workers. |
| `Registration.RegisteredWhole` | multilinear_extensions/src/virtual_polys.rs:221-262 | Before the first round the workers' tables, put together, are the unsplit tables padded with dummy low variables. |
| `MixedArity.LowerArity` | sumcheck_macro/src/lib.rs:259-271 | Suffix alignment: the partial sum of a product padded with dummy low variables is its full sum times two to the number of remaining dummy variables, whatever value is fixed. |
| `RoundEvaluator.IdxOfOneBits` | sumcheck_macro/src/lib.rs:438-447 | The positions returned are the one bits of n, lowest first; their powers of two add up to n. |
| `RoundEvaluator.DoubledSumIsMultiple` | sumcheck_macro/src/lib.rs:163-185 | The declared doublings, summed over the one bits of n, are n times the difference. |
| `RoundEvaluator.RowValueExact` | sumcheck_macro/src/lib.rs:188-237 | Every generated row is the value at its index of the line through the two table entries. |
| `RoundEvaluator.MultipliedSumExact` | sumcheck_macro/src/lib.rs:303-321 | A product with fewer variables than the round expects: the scaled full sum is the partial sum of the padded tables. |
| `RoundEvaluator.NormalProductExact` | sumcheck_macro/src/lib.rs:302-334 | For a split product, entry i of the generated array is the worker's partial sum at i of the padded tables, in the full and the lower arity branch. |
| `RoundEvaluator.Phase2ProductExact` | sumcheck_macro/src/lib.rs:278-301 | For a duplicated product the main worker alone contributes the partial sum over the hypercube of both phases; every other worker contributes zero. |
| `ProverRounds.TermMessageExact` | sumcheck/src/prover.rs:387-432 | Every entry of a monomial's contribution, computed or extrapolated, is the scaled partial sum at its index. |
| `ProverRounds.FixVarValid` | sumcheck/src/prover.rs:477-496 | Fixing a variable keeps the sizes: split tables of the expected arity lose their lowest variable, all others stay. |
| `ProverState.IOPProverState.constructor` | sumcheck/src/prover.rs:304-338 | A fresh state at round 0 without challenges; constant polynomials and a wrong number of kinds are refused. |
| `ProverState.IOPProverState.FixVar` | sumcheck/src/prover.rs:477-496 | The loop over the tables folds exactly the split tables that still have the expected number of variables. |
| `ProverState.IOPProverState.TermValues` | sumcheck/src/prover.rs:395-432 | The evaluated, scaled and extrapolated values of one monomial; refused exactly for products of more than six factors. |
| `ProverState.IOPProverState.ProveRoundAndUpdateState` | sumcheck/src/prover.rs:345-444 | The whole new state: round + 1, the challenge recorded, its variable fixed first (except in round 0); a message exactly when no product has more than six factors, and then that of the new tables. |
| `ProverState.AddAssign` | sumcheck/src/util.rs:412-419 | `+=` adds entry by entry over the common length and keeps the length. |
| `SplitTables.PartialSumJoined` | sumcheck/src/prover.rs:238-243 | The partial sum of concatenated tables is the sum of the partial sums of the workers' chunks. |
| `DistributedProver.NormalShares` | sumcheck/src/prover.rs:238-243 | For a split product the workers' shares add up to the partial sum over the unsplit tables. |
| `DistributedProver.Phase2Shares` | sumcheck_macro/src/lib.rs:278-301 | For a duplicated product the single share of the main worker is the partial sum over the unsplit tables. |
| `DistributedProver.SystemMessageExact` | sumcheck/src/prover.rs:231-261 | In every round of the first phase the summed message is the round polynomial of the unsplit, padded tables at 0..max_degree. |
| `ProverPhases.FixWorkersExact` | sumcheck/src/prover.rs:477-496 | Fixing a variable on every worker fixes it in the unsplit tables: chunking commutes with folding. |
| `Merge.MergeSumcheckPolys` | sumcheck/src/util.rs:220-303 | The loops join the chunks in the order of the workers and repeat the entries of duplicated tables up to the merged number of variables; refused exactly when an assertion fails (no table, a duplicated table with too many variables, a merged table of the wrong size); the shift is never negative. |
| `Merge.SystemMergeable` | sumcheck/src/util.rs:220-303 | After the first phase none of the assertions of the merge fails, as long as there is a table. |
| `Merge.MergedSizeExact` | sumcheck/src/util.rs:220-303 | The merged polynomial has log2(threads) variables, one per round of the second phase, if and only if some table has at least that many; otherwise it has fewer. |
| `Merge.MergedWhole` | sumcheck/src/util.rs:220-303 | The merged tables are exactly the tables of the single prover after the first phase. |
| `ProverRuns.RunWhole` | sumcheck/src/prover.rs:231-261 | Over all rounds of the first phase the workers together hold the unsplit tables with the challenges fixed. |
| `ProverRuns.FirstPhaseMessageExact` | sumcheck/src/prover.rs:231-261 | The first-phase message after any challenges is the single prover's message. |
| `ProverRuns.SecondPhaseMessageExact` | sumcheck/src/prover.rs:104-135 | The second-phase message, computed by one worker on the merged tables, is the single prover's message. |
| `ProverRuns.DistributedMessageExact` | sumcheck/src/prover.rs:84-152 | Every round of both phases, for every power-of-two number of threads, sends the message of the single prover on the unsplit padded tables. |
| `ProverRuns.ThreadsDoNotMatter` | sumcheck/src/prover.rs:84-152 | For the same challenges, the messages with any number of threads are those with one thread. |
| `ProverThreads.RunThread` | sumcheck/src/prover.rs:181-211 | A thread's loop sends in round k its message for the first k received challenges, and ends with all of them recorded and fixed; it fails exactly for a product of more than six factors. |
| `ProverThreads.RunSecondPhase` | sumcheck/src/prover.rs:123-145 | The second loop, for a given number of rounds: it fails exactly when the rounds outnumber the variables (lines 351-354) or a product has more than six factors; otherwise it appends every message to the main transcript, draws the challenge after it, and ends with these challenges appended to those of the first phase and fixed in the tables. |
| `ProverThreads.ThreadSendsWorkerMessage` | sumcheck/src/prover.rs:187-193 | What the imperative thread loop sends is what the channel protocol exchanges. |
| `ProverThreads.SecondThreadSendsMessage` | sumcheck/src/prover.rs:123-135 | What the imperative second-phase loop sends is the second-phase message of the run. |
| `RollingChannels.InitInv` | transcript/src/syncronized.rs:21-44 | The invariant of the channel protocol holds initially. |
| `RollingChannels.StepInv` | transcript/src/syncronized.rs:53-95 | Every step of every thread (send, receive, slot flip; prove, read, sample, hand out, flip) keeps the invariant, for any number of workers and rounds. |
| `RollingChannels.ReceivesLatest` | transcript/src/syncronized.rs:69-73 | A worker that takes a challenge takes the one of the round it just sent its message in; its k-th challenge is the k-th sampled. |
| `RollingChannels.AllGathered` | transcript/src/syncronized.rs:75-77 | When the main thread has read as many messages as there are workers, it holds exactly one from each, all of this round, and both channels are empty. |
| `RollingChannels.SendsNeverBlock` | transcript/src/syncronized.rs:21-44 | No bounded channel is ever full when a thread may send. |
| `RollingChannels.SomeStepEnabled` | transcript/src/syncronized.rs:53-95 | No deadlock: in every reachable state that is not final, some thread can move. |
| `RollingChannels.StepMeasure` | transcript/src/syncronized.rs:53-95 | Every step takes exactly one off the number of remaining steps, so every run ends. |
| `ChannelResults.SumAnyOrder` | sumcheck/src/prover.rs:240-243 | The sum does not depend on the order in which the workers' messages arrive. |
| `ChannelResults.StepResults` | sumcheck/src/prover.rs:231-261 | Every step keeps what the main thread has computed: finished rounds hold the sum of one message per thread of the same round. |
| `ChannelResults.EveryRun` | sumcheck/src/prover.rs:171-287 | For every interleaving: each sent message is the sum of one message per thread for the challenges drawn before; challenges and transcript are those of one prover sending these messages; workers hold prefixes of the challenges; the run is stuck exactly when final, after rounds*(5*workers + 3) steps. |
| `ConcurrentProver.LocalSum` | sumcheck/src/prover.rs:231-243 | With the real threads plugged into the protocol, the sum over all threads is the first-phase message. |
| `ConcurrentProver.ProofOfOneThread` | sumcheck/src/prover.rs:43-152 | The proof of the distributed prover, messages and challenges together, is that of the single-threaded prover, for every number of threads. |
| `ConcurrentProver.EveryInterleaving` | sumcheck/src/prover.rs:154-300 | Under every interleaving and every power-of-two thread count, at every moment of the first phase, the messages sent so far are a beginning of the proof of the single-threaded prover. |
| `WholeProver.ProveSecondPhase` | sumcheck/src/prover.rs:104-151 | Merge, fresh state and log2(threads) rounds: completes if and only if some table has at least log2(threads) variables and no product has more than six factors; the messages are then those of the second phase. |
| `WholeProver.NarrowInstance` | multilinear_extensions/src/virtual_polys.rs:221-262 | A concrete valid polynomial (two variables declared, one table with one variable, four threads) that is too narrow. |
| `WholeProver.NarrowInstanceFails` | sumcheck/src/prover.rs:345-354 | On that polynomial the second phase fails. |
| `WholeProver.ThreadsEndAsWorkers` | sumcheck/src/prover.rs:200-211 | The tables that the thread loops end with are those that are merged. |
| `WholeProver.ChannelsCarryThreadMessages` | sumcheck/src/prover.rs:187-193 | What the channels of the protocol carry are the messages of the thread loops. |
| `WholeProver.FinishedExecution` | sumcheck/src/prover.rs:43-152 | Every finished execution, for every interleaving and thread count: the main thread sends the sums of the messages of the thread loops, and with what the loop of the second phase sends they are exactly the proof of the single-threaded prover. |
| `WholeProver.ExecutionAccepted` | sumcheck/src/verifier.rs:14-45 | End to end: the proof of a finished execution is accepted if and only if the sum is true, the degree is 1 to 4 and no challenge is a node; the subclaim is then the polynomial at the challenges. |
| `Transcripts.ChallengesPrefix` | transcript/src/lib.rs:81-84 | A challenge depends only on the messages sent before it. |
| `Transcripts.HistoryBinds` | sumcheck/src/verifier.rs:28-38 | What a challenge is drawn from determines the number of variables, the degree and every message before it, that of its own round included. |
| `Transcripts.ChallengeAt` | sumcheck/src/verifier.rs:68-103 | Challenge k is the answer to exactly that history. |
| `Transcripts.ChallengeIsFree` | sumcheck/src/verifier.rs:68-103 | After everything before a challenge is fixed, any value is possible for it, and no earlier challenge changes with it. |
| `Transcripts.ChallengesIndependent` | sumcheck/src/verifier.rs:28-38 | Runs that differ in the opening or in some message up to a round may receive any two challenges in that round. |
| `Transcripts.Transcript.SampleAndAppendChallenge` | transcript/src/lib.rs:81-84 | A challenge is a function of the whole history; the label and the squeeze enter the history. |
| `Verifier.IOPVerifierState.constructor` | sumcheck/src/verifier.rs:48-60 | Round 1, nothing received, not finished. |
| `Verifier.IOPVerifierState.VerifyRoundAndUpdateState` | sumcheck/src/verifier.rs:68-103 | The message and the drawn challenge are stored; the state is finished exactly after the last round. |
| `Verifier.IOPVerifierState.CheckAndGenerateSubclaim` | sumcheck/src/verifier.rs:113-169 | The two loops accept exactly when every round has max_degree + 1 values, a challenge off the nodes, and P(0) + P(1) equal to the running claim; every failed assertion is a refusal. |
| `Verifier.VerifyProof` | sumcheck/src/verifier.rs:14-45 | The verdict, and on success the transcript in lockstep with a prover that sent these messages; a zero-variable claim is returned as it is, a short proof refused. |
| `Verifier.AcceptedShape` | sumcheck/src/verifier.rs:14-45 | An accepted proof has at least as many rounds as variables, each with max_degree + 1 values, and as many challenges. |
| `Verifier.VerifierBinds` | sumcheck/src/verifier.rs:28-38 | Two proofs that differ first in round k receive the same challenges before, and possibly any two challenges in that round. |
| `Sumcheck.FullyFolded` | multilinear_extensions/src/virtual_polys.rs:273-308 | When every variable of the padded tables is fixed, the remaining sum is `evaluate_slow` at the point, with its suffix alignment. |
| `Sumcheck.TruePolyExact` | sumcheck/src/verifier.rs:135-160 | The true round polynomial has P(0) + P(1) equal to the current claim, and its value at a challenge is the next claim. |
| `Sumcheck.HonestValues` | sumcheck/src/prover.rs:345-444 | The distributed prover's message consists of the values of the true round polynomial at 0..max_degree. |
| `Completeness.HonestRound` | sumcheck/src/verifier.rs:113-169 | For an honest message P(0) + P(1) is the running claim; extrapolation succeeds exactly for degrees 1 to 4 off the nodes and then gives the next claim. |
| `Completeness.CompletenessExact` | sumcheck/src/verifier.rs:113-169 | The honest proof is accepted if and only if the sum is the true one, the degree is 1 to 4 and no challenge is a node; then the expected value is the polynomial at the challenge point. |
| `Completeness.HighDegreeRefused` | sumcheck/src/util.rs:200-208 | A concrete family of honest proofs that is refused: one table to the power 5 or more, with the true sum. |
| `Completeness.NodeChallengeRefused` | sumcheck/src/util.rs:53-73 | A concrete honest proof of degree 1 that is refused because its challenge is zero. |
| `Soundness.GapIsRoot` | sumcheck/src/verifier.rs:113-169 | In a round that turns a wrong claim into a right one, sent minus true polynomial is not zero and vanishes at the challenge. |
| `Soundness.SoundnessExact` | sumcheck/src/verifier.rs:113-169 | If a wrong sum is accepted and the subclaim is the polynomial at the point, the challenge of some round is a root of a non-zero polynomial that was fixed before it; at most max_degree values are roots. |
| `Soundness.EachRoundFixedBefore` | sumcheck/src/verifier.rs:28-38 | The history of a challenge determines the messages up to its round, and whatever the oracle answers to it, the polynomial of the round stays the same while the answer becomes the challenge. |
| `MemoryArgument.LineUp` | ceno_zkvm/src/chip_handler/memory.rs:24-48 | Accesses that balance between one initial and one final record can be ordered as one path using each of them once. |
| `MemoryArgument.SinglePath` | ceno_zkvm/src/chip_handler/memory.rs:24-48 | Balanced records force all accesses of an address onto one path from its initial to its final record. |
| `MemoryArgument.BalancedMemoryIsConsistent` | ceno_zkvm/src/chip_handler/memory.rs:24-48 | Soundness of offline memory checking: every read returns the last value written (or the initial one), and no two accesses of an address have the same time. |
| `MemoryArgument.FinalIsLastWrite` | ceno_zkvm/src/chip_handler/memory.rs:56-95 | Every final record is the last write to its address, or its initial record if it was never accessed. |
| `MemoryArgument.ChainedTraceBalances` | ceno_emul/src/tracer.rs:473-477 | Completeness: a trace in which every access names its predecessor balances against initial and final records of any list of addresses that covers it. |
| `ChipHandlers.CircuitBuilder.MemoryRead` | ceno_zkvm/src/chip_handler/memory.rs:15-54 | Appends one access that reads and writes the same value; the returned time is ts + 1. |
| `ChipHandlers.CircuitBuilder.MemoryWrite` | ceno_zkvm/src/chip_handler/memory.rs:56-95 | Appends one access from the previous to the new value; the returned time is ts + 1. |
| `ChipHandlers.CircuitBuilder.RegisterRead` | ceno_zkvm/src/chip_handler/register.rs:14-55 | The same for a register read. |
| `ChipHandlers.CircuitBuilder.RegisterWrite` | ceno_zkvm/src/chip_handler/register.rs:57-110 | The same for a register write. |
| `ChipHandlers.CircuitBuilder.Append` | ceno_zkvm/src/chip_handler/memory.rs:23-53 | The records: (address, previous value, previous time) is read, (address, value, time) is written, previous time < time is demanded. |
| `ChipHandlers.SatisfiedCircuitIsConsistent` | ceno_zkvm/src/chip_handler/memory.rs:24-48 | If the order constraints of the builder hold and its records balance, every operation of the circuit reads the last value written. |
| `ChipHandlers.RamOfMeaning` | ceno_emul/src/platform.rs:95-104 | Word addresses 64 * idx for the 33 registers are registers, all others memory. |
| `RunCircuits.AssignRecord` | ceno_zkvm/src/instructions/riscv/insn_base.rs:83-366 | One row: the reads of a step record become register reads, its register and memory operations writes, each at its subcycle with its previous cycle, followed by the operations of a system call. |
| `RunCircuits.AssignRecords` | ceno_zkvm/src/instructions/riscv/insn_base.rs:83-366 | The operations of all records, one record after the other. |
| `RunCircuits.RecordListsUses` | ceno_emul/src/tracer.rs:370-379 | The operations that are assigned are exactly the accesses of the records. |
| `RunCircuits.AnyOrderSatisfies` | ceno_zkvm/src/chip_handler/memory.rs:24-48 | A circuit assigned from the accesses of a chained trace, in any order: order constraints met, records balanced with register and memory addresses kept apart, every operation reads the last value written. |
| `RunCircuits.RunAndAssign` | ceno_emul/src/vm_state.rs:84-102 | From the machine to the circuit: the run is executed, its records are assigned, and if the calls it makes are legal the circuit is satisfied, balanced and consistent, and holds exactly the accesses of the run. |
| `Rv32im.RdInternal` | ceno_emul/src/rv32im.rs:243-248 | Never register 0; equal to rd exactly for a non-zero rd of a format with a destination. |
| `Words.LessNumber` | ceno_emul/src/rv32im.rs:348-360 | Words are ordered as their numbers. |
| `Words.SignedOrder` | ceno_emul/src/rv32im.rs:347-353 | The signed comparison is that of the two's complement readings. |
| `Words.ShiftLeftNumber` | ceno_emul/src/rv32im.rs:344-344 | A left shift multiplies by a power of two modulo 2^32. |
| `Words.ShiftRightNumber` | ceno_emul/src/rv32im.rs:345-345 | A right shift divides by a power of two and rounds down. |
| `Words.ShiftRightArithmeticNumber` | ceno_emul/src/rv32im.rs:346-346 | The arithmetic right shift divides the signed number and rounds down. |
| `Words.BitwiseNumber` | ceno_emul/src/rv32im.rs:341-343 | XOR, OR and AND act on every bit of the numbers. |
| `Arithmetic.AluComputes` | ceno_emul/src/rv32im.rs:303-400 | Every result is the specified one in the numbers of the words, for all operands: sums, differences and products modulo 2^32, shifts as division, signed and unsigned comparison, bits, high products, and division with its special cases. |
| `Arithmetic.ComputesUnique` | ceno_emul/src/rv32im.rs:303-400 | The specification leaves one result. |
| `Arithmetic.WholeProduct` | ceno_emul/src/rv32im.rs:361-366 | The high and the low word together are the exact product, for all three kinds of signs. |
| `Arithmetic.WholeDivision` | ceno_emul/src/rv32im.rs:367-396 | Divisor times quotient plus remainder is the dividend modulo 2^32, for all operands, zero divisors and the overflow included. |
| `Meanings.TakenMeaning` | ceno_emul/src/rv32im.rs:417-425 | The branch conditions in signed and unsigned numbers. |
| `Meanings.ComputeMeaning` | ceno_emul/src/rv32im.rs:291-408 | A compute instruction or jump sets the pc and its destination alone, and traps exactly when the next pc is not a multiple of four; JALR clears the lowest bit of its target. |
| `Meanings.BranchMeaning` | ceno_emul/src/rv32im.rs:410-438 | A branch changes the pc alone, to the target or past itself, with the same trap. |
| `Meanings.AccessMeaning` | ceno_emul/src/platform.rs:83-121 | Readable and writable addresses are those of the stack, the heap, the public input, the hints and the words of program data. |
| `Meanings.LoadMeaning` | ceno_emul/src/rv32im.rs:440-485 | A load changes its destination and the pc alone; it traps exactly for an address that may not be read, then for one that is not aligned. |
| `Meanings.StoreMeaning` | ceno_emul/src/rv32im.rs:487-522 | A store changes the addressed word and the pc alone; it traps exactly for an address that may not be written, then for one that is not aligned. |
| `Meanings.CallMeaning` | ceno_emul/src/vm_state.rs:113-127 | After a call every register and word holds what the last operation on it wrote, or what it held; the pc is the given one or the next. |
| `Meanings.EcallMeaning` | ceno_emul/src/vm_state.rs:132-164 | Code zero in x5 halts; a known call is applied; an unknown one traps, or changes nothing but the extra register and the pc. |
| `Meanings.ExecuteMeaning` | ceno_emul/src/rv32im.rs:265-289 | Every instruction does what it means, for every machine. |
| `Meanings.HaltMeaning` | ceno_emul/src/vm_state.rs:132-139 | A machine halts exactly at an ECALL with code zero. |
| `Meanings.UsesMeaning` | ceno_emul/src/rv32im.rs:291-522 | Every completed instruction uses exactly its source registers, its destination and its memory word, in the subcycles 0 to 3, with the values before and after. |
| `Meanings.FetchMeaning` | ceno_emul/src/vm_state.rs:229-236 | The instruction fetched is the one at the distance of the pc from the base address in words, modulo 2^32. |
| `Meanings.StepMeaning` | ceno_emul/src/vm_state.rs:94-102 | A step is one instruction; a pc without instruction, and a jump of an instruction to itself without halting, are errors. |
| `Traces.StampKeeps` | ceno_emul/src/tracer.rs:473-477 | Accesses of one instruction that start from the current contents and respect the subcycle order extend a chained trace to a chained trace. |
| `Traces.StampChainedIff` | ceno_emul/src/syscalls.rs:95-103 | The exact condition for one instruction or system call: the trace stays chained if and only if repeated accesses of an address have increasing subcycles and every access starts from the current contents. |
| `EmulatorRuns.ExecuteLegal` | ceno_emul/src/rv32im.rs:265-289 | A completed instruction uses its addresses legally if and only if the system call it makes, if any, does; nothing is assumed about calls that are not made. |
| `EmulatorRuns.ExecuteValid` | ceno_emul/src/rv32im.rs:265-289 | A completed instruction keeps x0 zero and the pc 4-aligned, unless it is a system call that does not. |
| `EmulatorRuns.ValidCallIsLegal` | ceno_emul/src/syscalls.rs:79-103 | A call that reports each register and each word once, where it belongs and with its current contents, is legal. |
| `EmulatorRuns.OverlapIsIllegal` | ceno_emul/src/syscalls.rs:95-103 | A call that reports one word twice is never legal, whatever values it reports. |
| `EmulatorRuns.OverlapBreaksChain` | ceno_emul/src/syscalls.rs:95-103 | A concrete run on the default platform: one ECALL with two operations on the same word; it completes and its trace is not chained. |
| `EmulatorRuns.StepKeepsInv` | ceno_emul/src/vm_state.rs:94-102 | After a completed step the trace is chained and tells the contents of the machine if and only if the call it makes, if any, is legal. |
| `EmulatorRuns.RunFaithfulIff` | ceno_emul/src/tracer.rs:390-477 | Over whole runs and for any system calls: after every step the trace is chained and tells the contents of the machine if and only if every call that is made is legal. |
| `EmulatorRuns.RunChainedIff` | ceno_emul/src/tracer.rs:390-477 | Over whole runs whose calls keep registers and memory apart: the trace of n steps is chained if and only if every call that is made uses its addresses in order and from their current contents. |
| `EmulatorRuns.AfterMachine` | ceno_emul/src/vm_state.rs:84-92 | The traced run is the run of the machine. |
| `EmulatorRuns.EveryRunBalances` | ceno_emul/src/tracer.rs:390-477 | After any number of steps in which the calls that are made are legal, the trace is chained, tells the current contents of every address, balances, and every access reads the last value written. |
| `EmulatorRuns.DefaultPlatformOutside` | ceno_emul/src/platform.rs:61-120 | The default platform keeps readable and writable memory away from the register addresses, with program data at 0x2100 or above: the platform assumption of the run theorems is met. |
| `Emulator.Tracer.constructor` | ceno_emul/src/tracer.rs:324-367 | An empty record at the first cycle and no accesses. |
| `Emulator.Tracer.TrackAccess` | ceno_emul/src/tracer.rs:473-477 | Returns the cycle of the latest earlier access to the address, or 0, and makes this access the latest. |
| `Emulator.Tracer.LoadRegister` | ceno_emul/src/tracer.rs:390-410 | The first read of an instruction becomes rs1, the second rs2, each with its subcycle and previous cycle. |
| `Emulator.Tracer.StoreRegister` | ceno_emul/src/tracer.rs:412-423 | The write becomes rd, with its subcycle and previous cycle. |
| `Emulator.Tracer.StoreMemory` | ceno_emul/src/tracer.rs:429-460 | The memory access becomes the memory operation, with its subcycle and previous cycle. |
| `Emulator.Tracer.FinalizeOps` | ceno_emul/src/syscalls.rs:95-103 | Every operation of a system call gets the cycle of its predecessor; address, before and after are unchanged. |
| `Emulator.Tracer.TrackSyscall` | ceno_emul/src/tracer.rs:462-467 | Registers first, then memory, each with its subcycle. |
| `Emulator.Tracer.Advance` | ceno_emul/src/tracer.rs:370-379 | Returns the completed record, which names exactly the accesses since the last one; the next cycle is 4 later. |
| `Emulator.VMState.constructor` | ceno_emul/src/vm_state.rs:33-52 | Registers zero, memory the image, pc the entry, not halted. |
| `Emulator.VMState.LoadRegister` | ceno_emul/src/vm_state.rs:189-192 | Returns the register and records the read. |
| `Emulator.VMState.StoreRegister` | ceno_emul/src/vm_state.rs:195-202 | Register 0 is not written and not recorded; any other is written and recorded with its old value. |
| `Emulator.VMState.LoadMemory` | ceno_emul/src/vm_state.rs:205-209 | Returns the word, absent words being zero, and records an access that keeps it. |
| `Emulator.VMState.StoreMemory` | ceno_emul/src/vm_state.rs:212-217 | Writes the word and records its old value. |
| `Emulator.VMState.StepCompute` | ceno_emul/src/rv32im.rs:291-408 | The next pc and the destination register are what the instruction means in numbers (`Meanings.ComputeMeans`); machine, accesses and traps are the specified ones. |
| `Emulator.VMState.StepBranch` | ceno_emul/src/rv32im.rs:410-438 | The pc is what the branch means in numbers; accesses and the misaligned-target trap are the specified ones. |
| `Emulator.VMState.StepLoad` | ceno_emul/src/rv32im.rs:440-485 | Address, permission, alignment and destination are what the load means; accesses and traps are the specified ones. |
| `Emulator.VMState.StepStore` | ceno_emul/src/rv32im.rs:487-522 | Address, permission, alignment and memory are what the store means; accesses and traps are the specified ones. |
| `Emulator.VMState.ApplySyscallEffects` | ceno_emul/src/vm_state.rs:113-127 | Memory, then registers, then the pc, then the tracer; a register index outside the file is a panic. |
| `Emulator.VMState.Ecall` | ceno_emul/src/vm_state.rs:132-164 | Halt, known call, ignored unknown call, or trap, as they mean, each with its accesses; the record holds a call exactly when a known one was made. |
| `Emulator.VMState.ExecuteStep` | ceno_emul/src/rv32im.rs:265-289 | The fetched instruction does what it means; the record holds the instruction, the word of the old pc, and the new pc. |
| `Emulator.VMState.StepOnce` | ceno_emul/src/vm_state.rs:94-102 | One step is the specified step, with the busy-loop error; the returned record holds its cycle, its instruction, both pcs, and at every subcycle the accesses of the step in their order. |
| `Emulator.VMState.RunUntilHalt` | ceno_emul/src/vm_state.rs:84-92 | The iteration is a run of the specification, stopped by halting, by the limit or by the specified error; record k is the record of step k. |
| `Emulator.RecordsLink` | ceno_emul/src/tracer.rs:370-388 | Record k has cycle 4 + 4k, and each record starts at the word where the one before ends. |
| `Emulator.RecordDetermined` | ceno_emul/src/tracer.rs:370-388 | A step determines its record: no two records meet the specification. |
| `ByteMemory.LoadRefines` | ceno_emul/src/rv32im.rs:447-481 | Every aligned load returns the addressed little-endian bytes, sign- or zero-extended. |
| `ByteMemory.StoreRefines` | ceno_emul/src/rv32im.rs:496-519 | Every aligned store changes exactly the addressed bytes and no other byte of memory. |
| `ByteMemory.ExecuteRefines` | ceno_emul/src/rv32im.rs:265-289 | One instruction of the emulator is one instruction of a byte-addressed machine (section 2.6 of the RISC-V Unprivileged ISA 20191213), traps included. |
| `ByteMemory.MatchingCalls` | ceno_emul/src/vm_state.rs:220-227 | There are system calls for the byte machine that match those of the word machine if and only if the latter read the memory by its contents, absent words counting as zero. |
| `ByteMemory.RunRefines` | ceno_emul/src/vm_state.rs:84-102 | Over every run: a byte machine with its own pc, bytes and calls completes n steps, halting and busy loops included, if and only if the word machine does, and then represents it. |
| `Disassemble.BakedAddressIsPc` | ceno_emul/src/disassemble/mod.rs:394-405 | At an aligned pc the address that was baked into the fetched instruction is the pc if and only if the program starts at an aligned address. |
| `Disassemble.AddiOnZero` | ceno_emul/src/disassemble/mod.rs:260-271 | ADDI on x0 puts its immediate into its destination, because x0 is zero. |
| `Disassemble.StepMeansTheSame` | ceno_emul/src/disassemble/mod.rs:260-306 | At every valid state the rewritten program makes the step of the original one, errors and halting included, with LUI and AUIPC as in section 2.4 of the RISC-V Unprivileged ISA 20191213. |
| `Disassemble.RunMeansTheSame` | ceno_emul/src/disassemble/mod.rs:394-405 | Over every run of every aligned program the rewriting preserves the meaning, as long as the system calls that are made keep x0 zero and the pc aligned. |
| `Disassemble.UnalignedBaseIsWrong` | ceno_emul/src/disassemble/mod.rs:394-405 | At an unaligned base address the baked address is never the pc. The ELF loader refuses such a base (ceno_emul/src/elf.rs:139), so it arises only for a program built by hand. |
| `EqTables.EqEval` | multilinear_extensions/src/virtual_poly.rs:297-308 | The loop computes the product over all coordinates of x*y + (1-x)*(1-y). |
| `EqTables.TablesInnerProduct` | multilinear_extensions/src/virtual_poly.rs:297-308 | The sum of the entrywise product of two equality tables is `eq_eval` of their points. |
| `EqTables.DoubleInPlace` | multilinear_extensions/src/virtual_poly.rs:374-379 | The backwards loop reads every entry before overwriting it: a table of size n becomes the next table of size 2n, and nothing else changes. |
| `EqTables.BuildEqHelper` | multilinear_extensions/src/virtual_poly.rs:364-381 | Entry k is init times the product over the bits of k of r_i or 1 - r_i. |
| `EqTables.BuildEqVec` | multilinear_extensions/src/virtual_poly.rs:404-443 | The chunked builder fills the same table for every power-of-two thread count. |
| `BoundedEq.NaiveIsFullMinusAbove` | ceno_zkvm/src/utils.rs:78-119 | For every bound, the sum over the indices up to it is the full product minus what lies above it at its zero bits. |
| `BoundedEq.EqEvalLessOrEqualThan` | ceno_zkvm/src/utils.rs:78-119 | The succinct form equals the sum over all indices up to max_idx (for max_idx below 2^len(b); in general up to its low bits) of the product of both weights, times 1 - a_i for the extra coordinates. |
| `BoundedEq.AddressVecSum` | ceno_zkvm/src/utils.rs:121-144 | The weighted sum of all entries offset +/- scaled*index is offset +/- scaled times the sum of 2^i * r_i. |
| `BoundedEq.EvalWellformAddressVec` | ceno_zkvm/src/utils.rs:127-144 | The scan returns the value of the address vector at the point. |
| `Hypercube.TransformsUndo` | whir/src/utils.rs:138-212 | The two transforms undo each other, in both orders, on every array. |
| `Hypercube.EvaluationsAgree` | whir/src/utils.rs:214-257 | Evaluating from the values is evaluating from the transformed coefficients, at every point. |
| `Hypercube.UnivariateIsMultilinear` | whir/src/utils.rs:259-277 | Horner's value at x is the multilinear value at (x, x^2, x^4, ...). |
| `Hypercube.InterpolateOverBooleanHypercube` | whir/src/utils.rs:138-159 | The stages in place compute the first transform. |
| `Hypercube.EvaluateOverHypercube` | whir/src/utils.rs:194-212 | The stages in place, highest first, compute the second transform. |
| `Hypercube.EvaluateAsMultilinearEvals` | whir/src/utils.rs:214-236 | The folding loop evaluates at the point; a single value is a constant. |
| `Hypercube.EvaluateAsMultilinearCoeffs` | whir/src/utils.rs:238-257 | The folding loop evaluates the coefficients at the point; a single coefficient is a constant. |
| `Hypercube.EvaluateAsUnivariate` | whir/src/utils.rs:259-277 | Transform and Horner loop give the univariate value, which is also the multilinear value at the powers of x. |
| `Expressions.NegValue` | multilinear_extensions/src/expression.rs:330-352 | Negation evaluates to the negated value under every assignment and keeps the degree. |
| `Expressions.AddValue` | multilinear_extensions/src/expression.rs:374-458 | Every arm of addition evaluates to the sum; the degree is the larger one. |
| `Expressions.MulValue` | multilinear_extensions/src/expression.rs:749-890 | Every arm of multiplication, challenge powers included, evaluates to the product. |
| `Expressions.MulDegree` | multilinear_extensions/src/expression.rs:749-890 | The degree of a product is the sum of the degrees. |
| `Expressions.RlcChipRecordValue` | ceno_zkvm/src/chip_handler/utils.rs:8-37 | The random linear combination evaluates to alpha plus the sum of beta^i * record_i, with the largest degree of the records and alpha. |
| `Degrees.NegWellFormed` | multilinear_extensions/src/expression.rs:330-352 | Negation keeps multipliers and offsets of scaled sums scalar. |
| `Degrees.AddWellFormed` | multilinear_extensions/src/expression.rs:374-458 | So does addition. |
| `Degrees.MulWellFormed` | multilinear_extensions/src/expression.rs:749-890 | So does multiplication. |
| `Degrees.DegreeBounds` | multilinear_extensions/src/expression.rs:102-114 | Along the line through any two assignments the value of an expression is a polynomial with degree + 1 coefficients. |
| `Degrees.LineEndpoints` | multilinear_extensions/src/expression.rs:102-114 | The line passes through both assignments, if they agree on instances and challenges. |
| `Degrees.DistributeValue` | multilinear_extensions/src/expression/monomial.rs:28-67 | Distributing an expression into terms keeps its value. |
| `Degrees.DistributeMonomials` | multilinear_extensions/src/expression/monomial.rs:28-67 | Every term is a scalar of degree zero times columns. |
| `Degrees.DegreeCountsColumns` | multilinear_extensions/src/expression.rs:102-114 | The degree is exactly the number of columns in the longest term. |
| `Subtraction.SubValue` | multilinear_extensions/src/expression.rs:517-618 | Every arm of subtraction evaluates to the difference plus twice a challenge that is taken from a constant. |
| `Subtraction.SubtractionExact` | multilinear_extensions/src/expression.rs:517-618 | Where two is not zero, subtraction gives the difference under every assignment if and only if it takes no challenge with a non-zero scalar from a constant. |
| `Subtraction.ConstantMinusChallenge` | multilinear_extensions/src/expression.rs:565-574 | An input that fails: one minus a challenge. |
| `Subtraction.SubWellFormed` | multilinear_extensions/src/expression.rs:517-618 | Subtraction keeps well-formedness; the degree is the larger one. |
| `Limbs.SplitToU16` | ceno_zkvm/src/uint.rs:681-690 | The limbs are the unique 16-bit digits of the value modulo 2^(16n). |
| `Limbs.NumUnique` | ceno_zkvm/src/uint.rs:681-690 | 16-bit limbs determine the number and are determined by it. |
| `Limbs.Add` | ceno_zkvm/src/uint.rs:718-741 | The limbs are the sum modulo 2^(16n); carry k, for every k, is what the sum of the lower k + 1 limbs does not hold, and is 0 or 1. |
| `Limbs.Columns` | ceno_zkvm/src/uint.rs:784-793 | Column k holds the products of the limbs i and j with i + j = k; together they are the exact product, less what falls past the last column; no column reaches 2^64. |
| `Limbs.Carry` | ceno_zkvm/src/uint.rs:795-809 | Carry k, for every k, is what the columns up to k do not hold; every carry is bounded. |
| `Limbs.MaxCarryWordIs` | ceno_zkvm/src/uint/util.rs:28-49 | The carry bound in closed form: n*2^16 - n for n limbs. |
| `Limbs.InternalMul` | ceno_zkvm/src/uint.rs:768-824 | With high limbs the limbs are the exact product, without them the product modulo 2^(16n); carry k, for every k, is what the product of the lower places does not hold, and below the advertised bound; the value is refused exactly when no overflow is expected and the products of the kept places do not fit. |
| `Limbs.OverflowUnnoticed` | ceno_zkvm/src/uint.rs:810-815 | An input that overflows and passes the overflow assertion: two high limbs. |
| `Limbs.MulAdd` | ceno_zkvm/src/uint.rs:752-766 | The limbs of the sum are the product plus the addend modulo 2^(16n), those of the product the product; every carry of both is the exact one; refused exactly as the multiplication. |
| `Limbs.EmulatorDivision` | ceno_emul/src/rv32im.rs:374-396 | DIVU and REMU of the emulator on words are quotient and remainder of the numbers, with the RISC-V results for a zero divisor. |
| `Limbs.DivisionUnique` | ceno_zkvm/src/gadgets/div.rs:36-42 | With a remainder below the divisor only the quotient and the remainder of the division fit; the emulator's remainder is below the divisor exactly for a non-zero divisor. |
| `Limbs.DivisionWitness` | ceno_zkvm/src/gadgets/div.rs:54-69 | `divisor.mul_add(quotient, remainder)` on the emulator's results gives back the dividend with both top carries zero and every other carry exact, for every dividend and divisor, zero included. |

## Left out

- Multilinear polynomials without variables: in the generated evaluator the range of such a table is empty, so it
  contributes 0; every table is required to have at least one variable, as the factors of one product are required to
  have equally many (the code asserts the latter).
- ConcurrentProver.EveryInterleaving: the channels, the rolling index and the threads are values of a state machine
  whose steps are single channel operations; the library behind the bounded channels, the thread pool and the final
  hand-over of the states to the main thread are not part of it. A thread that panics is not a step: the theorems about
  executions are about products of at most six factors, for which the threads do not panic.
- ProverState.IOPProverState.FixVar: folds tables as values; the in-place and the copying folds of one table are proved
  in `Multilinear`, sharing between threads by reference counting is not modelled.
- The memoised extrapolation cache: tables are built where they are used.
- Transcripts.Transcript.SampleAndAppendChallenge: the sponge, bit decomposition and forking; a challenge is an arbitrary
  function of what was appended.
- Soundness.SoundnessExact: deterministic; the probability that a random challenge is one of the at most max_degree
  roots is not computed.
- Polynomial commitments, Merkle trees, Poseidon, proof of work, and the layered prover that calls the sumcheck.
- Degrees.DistributeValue: collecting the terms with the same columns, whose order is that of a hash map, and the check
  for monomial form are left out; so is formatting.
- Transcripts.HistoryBinds: labels, numbers and field elements are distinct entries of the log; their encoding as field
  elements for the sponge is not modelled.
- Rv32im arithmetic: sums, products and quotients of words are taken on their numbers and wrapped; bit operations and
  shifts are operations on bit vectors.
- Emulator.VMState.Ecall: the bodies of the system calls are a parameter; a call that panics is not modelled.
- Emulator.Tracer.StoreMemory: the minimum and maximum addresses of memory-mapped regions are not tracked.
- Emulator.Tracer.constructor: the table of these regions is not built.
- Emulator.Tracer.TrackAccess: cycles are unbounded; the 64-bit width is not modelled.
- Emulator.VMState.StepCompute: pc + 4 wraps around; the overflow check of a debug build is not modelled.
- Disassemble.RunMeansTheSame: starts from decoded instructions; the decoding library, ELF parsing and the loading of
  the image are left out.
- ChipHandlers.CircuitBuilder.Append: the order constraint is the pair of its operands; expressions, witness columns,
  lookups and the gadget behind the comparison of times are left out.
- RunCircuits.AssignRecord: the memory read of a load is assigned as a write of the same value, which appends the same
  records; the chips of the single instructions and precompiles are left out.
- Final tables for public input and hints: they reuse initial values and balance only when nothing is written there.
- Limbs.DivisionWitness: the comparison gadget and the writing of the instance row are left out;
  `Limbs.DivisionUnique` states what the comparison demands.
- Hypercube.InterpolateOverBooleanHypercube: an array of one entry is excluded, the code indexes past its only chunk;
  the row-major variant is left out.
- Multilinear.MultilinearExtension.FixVariablesInPlace: base-field tables, which are converted on the first fold, are
  not distinguished from extension-field tables.
