# Hidden Markov model decoder (hmm.cc) in Dafny

`hmm.cc` reads a hidden Markov model and an observation trace, then decodes
the trace with the Viterbi algorithm. The model has a name-to-index
registry of states, an `nstates x nstates` transition matrix and an
`nstates x alphabetSize` emission matrix. State 0 is START and state
`nstates - 1` is END. This project models that core in Dafny and proves
properties of the model.

- `matrix.dfy`
  - `Optional`: the `Option` type.
  - `Matrix`: dense tables written cell by cell. `ApplyWrites` gives the
    table after a sequence of writes, and `ApplyWritesAt` proves that each
    cell holds the last write to it, or its initial value.
- `data.dfy`, module `HmmData` (the `HMM::Data` namespace)
  - `symbolToInd`.
  - `Model`, a class whose `ReadModel` fills the registry and the two
    matrices in place. A domain error is returned as an `Option` rather
    than thrown, and the fields stay as they were at the failing line.
  - `ExperimentData`, a class whose `ReadExperimentData` appends one
    `(step, state, symbol)` record per observation.
  - `BuildModel`, a function of the prior fields and the tokenised input.
    It is the specification `ReadModel` is proved against. The lemmas
    about error order, cell contents, boundary rows and unknown names are
    proved about it.
- `viterbi.dfy`, module `HmmAlgorithms` (the `HMM::Algorithms` namespace)
  - `CalcNewStateProbability` and `FindBestTransitionSource`.
  - `FindMostProbableStateSequence`: the table fill as nested loops, then
    the walk back exactly as written.
  - The specification functions `Rows`, `BackPointers`, `ViterbiPath` and
    `DecodeAsWritten`.
- `viterbi_paths.dfy`, module `ViterbiPaths`
  - What the tables mean: the probability of a state path, and the proof
    that the back-pointer chain from the first maximum of the last row is
    a most probable path.
  - The decoder's own output, compared with that path.
  - A corrected walk back that returns the most probable path.

The input is already tokenised:

- `ReadModel` receives the state names in index order, the alphabet size,
  `(from, to, prob)` transitions and `(state, symbol, prob)` emissions.
- `ReadExperimentData` receives `(step, name, symbol)` observations.

Probabilities are exact non-negative reals.

Take the chain START -> A -> END, where A emits 'a' with 0.9 and 'b' with
0.1, and 'a' is observed twice. One might expect `[A, A]`, since A is the
only state that emits. The code gives `[START, START]` for this input, and so
does textbook Viterbi: A has no transition to itself, so every two-step
path has probability 0. All scores tie and the first-maximum rule picks
START. The model follows the code, and
`ViterbiPaths.LoneEmitterChainDecodesToStart` proves both results.

## Model

| member | source | states |
|---|---|---|
| HmmData.SymbolToInd | hmm.cc:30-33 | The index of a symbol token is below 26, and `'a'` plus the index is the token's first character. |
| HmmData.SymbolToIndInjective | hmm.cc:30-33 | Two tokens get the same index exactly when their first characters agree. |
| HmmData.RegisterNamesAt | hmm.cc:44-47 | After the states loop, a name is known iff it was known before or is listed. A listed name maps to the position of its last occurrence, and an unlisted known name keeps its earlier index. |
| HmmData.BuiltRegistryIndexesNames | hmm.cc:44-47 | With distinct state names, the built registry maps the i-th name to i. |
| HmmData.Model.ReadStates | hmm.cc:44-47 | The loop leaves the registry equal to the registration of every name, in order. The other fields are unchanged. |
| HmmData.Model.ReadTransitions | hmm.cc:56-75 | The result is a zeroed `nstates x nstates` matrix holding the writes of every transition before the first rejected one. The registry gains every name looked up, at index 0. The error is that of the first rejected transition, or none. |
| HmmData.Model.ReadEmissions | hmm.cc:81-96 | The same as `ReadTransitions`, for the `nstates x alphabetSize` emission matrix and the boundary check. The transition matrix and alphabet size are unchanged. |
| HmmData.Model.ReadModel | hmm.cc:36-97 | The new fields and the returned error are exactly `BuildModel` of the old fields and the input. |
| HmmData.TouchedRegistryAlike | hmm.cc:63-88 | Names that `operator[]` inserts read back as 0, as they did while missing. After the transitions have touched the registry, the emissions are checked, written and looked up as on the untouched registry. |
| HmmData.TransitionsErrorIs | hmm.cc:59-75 | The transitions fail exactly when some transition fails its check, and the error is that of the first one that fails. |
| HmmData.EmissionsErrorIs | hmm.cc:84-96 | The emissions fail exactly when some emission fails its check, and the error is then the boundary-emission error. |
| HmmData.BuildModelFails | hmm.cc:59-96 | A build fails iff some transition or some emission fails its check. The first failing transition decides the error. Only when all transitions pass does a failing emission report the boundary-emission error. |
| HmmData.FromEndReportedFirst | hmm.cc:63-72 | A first failing transition from END into START reports the from-END error, because the source check runs first. |
| HmmData.BuiltTransitionCell | hmm.cc:56-75 | Each cell of the built `nstates x nstates` transition matrix holds the probability of the last accepted transition to it, so a later duplicate overwrites an earlier one. A cell no transition writes holds 0. |
| HmmData.BuiltEmissionCell | hmm.cc:81-96 | When all transitions pass, each cell of the built `nstates x alphabetSize` emission matrix holds the probability of the last accepted emission to it, or 0. |
| HmmData.BuiltBoundariesZero | hmm.cc:56-96 | In a built model no transition enters START or leaves END. After a successful build, neither START nor END emits anything. |
| HmmData.UnknownNamesResolveToStart | hmm.cc:63-93 | A name that is neither declared nor registered resolves to START. As a transition target or an emitting state it makes the build fail. As the source of transitions that all pass, it ends up registered with index 0, whether or not an emission fails later. |
| HmmData.ResolveObservations | hmm.cc:108-115 | One record per observation, in order. Each record holds the step, the state's registered index, and a symbol index `i` with `'a' + i` equal to the symbol's first character. |
| HmmData.ExperimentData.ReadExperimentData | hmm.cc:99-116 | The method appends the records of the observations before the first unknown state name. It reports that name if there is one. Records already appended stay. |
| HmmAlgorithms.CalcNewStateProbability | hmm.cc:133-150 | At step 0, a predecessor other than START scores 0, and START scores the transition times the emission probability. With non-negative inputs the score is non-negative. |
| HmmAlgorithms.FirstMax | hmm.cc:229-231 | The result is the index of a largest element, and every earlier element is strictly smaller. This is both `std::max_element` and a scan on strict `>`. |
| HmmAlgorithms.FindBestTransitionSource | hmm.cc:155-180 | The scan from a running best of -1 returns a state index, never the undefined marker. It is START at step 0, and otherwise the first predecessor with the largest score. |
| HmmAlgorithms.StepZero | hmm.cc:137-161 | At step 0, every state's predecessor is START and its score is `trans[0][s] * emit[s][sym0]`. |
| HmmAlgorithms.BestPredecessor | hmm.cc:163-179 | After step 0, the recorded predecessor is the lowest index whose score through it is maximal. The recorded score is that maximum. |
| HmmAlgorithms.RowsNonNegative | hmm.cc:164-176 | Every score in the table is non-negative, so every candidate beats the initial best of -1. |
| HmmAlgorithms.FillRow | hmm.cc:210-221 | The inner loop turns the first `t` specified rows of both tables into the first `t + 1`. |
| HmmAlgorithms.ComputeTables | hmm.cc:186-222 | The nested loops leave `sequenceProbability` and `prevSeqState` equal to the specified score and predecessor tables. |
| HmmAlgorithms.WalkBack | hmm.cc:224-241 | The push-and-reverse walk returns the chain's step-0 state, then the back-pointer chain without its last state: `[s0, s0, s1, ..., s(T-2)]` with two or more steps, `[last]` with one step. |
| HmmAlgorithms.AsWrittenShape | hmm.cc:225-241 | With one step the walk returns `[last]`. With more, its last entry is the predecessor of the most probable last state, not that state, and its first two entries coincide. Each later entry is the predecessor of the one after it. |
| HmmAlgorithms.FindMostProbableStateSequence | hmm.cc:183-244 | The output has one state index below `nstates` per observation and equals the walk back, as written, from the first maximum of the last row. |
| ViterbiPaths.PathsBoundedByBestScore | hmm.cc:190-194 | No state path over all the steps is more probable than the largest score of the last row. |
| ViterbiPaths.ViterbiPathAttainsBestScore | hmm.cc:198-203 | The back-pointer chain from the first maximum of the last row is a path whose probability is that score. |
| ViterbiPaths.ViterbiPathOptimal | hmm.cc:224-243 | That chain is at least as probable as every other state path. |
| ViterbiPaths.WalkBackFixed | hmm.cc:233-238 | A walk that pushes the last state, then the predecessors, returns the whole back-pointer chain. |
| ViterbiPaths.FindMostProbableStateSequenceFixed | hmm.cc:183-244 | With the corrected walk, the decoder returns a most probable state path. |
| ViterbiPaths.AsWrittenImpossibleWithoutSelfLoops | hmm.cc:233-238 | With two or more steps, if no state goes to itself, the decoder's own output has probability 0. |
| ViterbiPaths.AsWrittenPathLosesFinalState | hmm.cc:226-241 | On the four-state chain START -> A -> B -> END, a model that respects the boundary rules (nothing enters START, nothing leaves END, neither emits), the decoder returns `[A, A]`, which has probability 0, while the most probable path `[A, B]` has probability 1. |
| ViterbiPaths.NoLikelyPathDecodesToStart | hmm.cc:167-238 | If no state goes to START and even the most probable path has probability 0, all scores tie. The first-maximum rule then gives START at every step, both in the decoder's output and in the most probable path. |
| ViterbiPaths.LoneEmitterChainDecodesToStart | hmm.cc:183-244 | On the chain START -> A -> END, with A the only emitter and 'a' observed twice, `[A, A]` has probability 0, and both the decoder and the corrected walk return `[START, START]`. |

## Findings

| source | as written | input that shows it | evidently intended | confidence | as-written member | corrected member |
|---|---|---|---|---|---|---|
| hmm.cc:233-238 | The walk pushes only predecessors, then the step-0 state a second time. The output is `[s0, s0, s1, ..., s(T-2)]`, so the most probable last state is never emitted. | States START, A, B and END, chained START -> A -> B -> END. A emits symbol 0 and B emits symbol 1, and the symbols observed are `[0, 1]`. The output `[A, A]` has probability 0, while `[A, B]` has probability 1. | The back-pointer chain `[s0, s1, ..., s(T-1)]`, ending in the first maximum of the last row. | not executed | ViterbiPaths.AsWrittenPathLosesFinalState | ViterbiPaths.FindMostProbableStateSequenceFixed |

## Left out

- Stream parsing with `operator>>` (hmm.cc:42-86 and 106-109) is not modelled. The operations take token sequences instead.
- IEEE doubles are not modelled: no rounding, and no underflow of long products. Probabilities are exact reals.
- `CalcForwardBackwardProbabiliies` (hmm.cc:246-251) has no body, so there is nothing to model.
- Reporting state names for indices is not modelled; it exists only as a TODO in the source.
- `hmm.h` is not part of this model. The fields of `Model` and `ExperimentData` are those the shown code uses.
- Exceptions are not thrown: `std::domain_error` and the `std::out_of_range` of `map::at` are returned as `Option` values. The fields keep what was written before the failure, as they do after the throw.
- The decoder's tables are `seq` values updated one cell at a time. `std::reverse` is the function `Reverse` on a collected sequence. Neither works in place on an array, and there is no aliasing to model.
- HmmData.Model.ReadModel: requires every symbol token to be a lower-case letter whose index is below the alphabet size. The source does not check this, and an out-of-range symbol writes outside the matrix.
- HmmData.Model.ReadModel: requires every index already in the registry to be 0 or below the new state count. A fresh model satisfies this. Reading into a model that had more states could write outside the matrix in the source.
- HmmData.ExperimentData.ReadExperimentData: requires every symbol token to be a lower-case letter. The source reads `symbol[0]` unchecked.
- HmmAlgorithms.FindMostProbableStateSequence: requires at least one observation, because with none the source reads row -1.
- HmmAlgorithms.FindMostProbableStateSequence: requires at least one state (with none and a single observation the source returns `[0]`; with more it indexes an empty row), and requires the tables to hold what the loops read (square transitions, an emission entry for every observed symbol) and every probability to be non-negative. Models read with valid symbols have this shape.
- HmmAlgorithms.FindBestTransitionSource: requires non-negative scores. With a negative probability the source could return the undefined marker `size_t(-1)`, which the model does not cover.
