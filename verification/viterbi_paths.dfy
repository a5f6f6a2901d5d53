/**
 What the Viterbi tables mean: the probability of one state path under the
 model, the best such probability per step and end state, and the path
 that attains it. The decoder's own walk back is compared against that
 path, and a corrected walk back is proved to return it.
 */
module ViterbiPaths {
  import opened Matrix
  import opened HmmAlgorithms

  /** Every entry of `path` is a state of an `n`-state model. */
  predicate IsPath(path: seq<nat>, n: nat)
  {
    forall k :: 0 <= k < |path| ==> path[k] < n
  }

  /**
   The probability that the model runs through the first `n` states of
   `path` while emitting the first `n` observed symbols: it leaves START
   for the first state, and each step multiplies by a transition and an
   emission probability. No state at all has the probability of being in
   START.
   */
  function PrefixProb(trans: seq<seq<real>>, emit: seq<seq<real>>, syms: seq<nat>, path: seq<nat>, n: nat): real
    requires Decodable(trans, emit, syms) && n <= |path| <= |syms| && IsPath(path, |trans|)
    decreases n
  {
    if n == 0 then HMM_BEGIN_STATE_PROBABILITY
    else
      var prev := if n == 1 then 0 else path[n - 2];
      PrefixProb(trans, emit, syms, path, n - 1) * trans[prev][path[n - 1]] * emit[path[n - 1]][syms[n - 1]]
  }

  /** The probability of the whole of `path`. */
  function PathProb(trans: seq<seq<real>>, emit: seq<seq<real>>, syms: seq<nat>, path: seq<nat>): real
    requires Decodable(trans, emit, syms) && |path| <= |syms| && IsPath(path, |trans|)
  {
    PrefixProb(trans, emit, syms, path, |path|)
  }

  /** With non-negative probabilities every path prefix has a non-negative probability. */
  lemma {:induction false} PrefixProbNonNegative(trans: seq<seq<real>>, emit: seq<seq<real>>, syms: seq<nat>,
                                                 path: seq<nat>, n: nat)
    requires Decodable(trans, emit, syms) && NonNegativeModel(trans, emit, syms)
    requires n <= |path| <= |syms| && IsPath(path, |trans|)
    ensures PrefixProb(trans, emit, syms, path, n) >= 0.0
    decreases n
  {
    if n > 0 {
      var prev := if n == 1 then 0 else path[n - 2];
      PrefixProbNonNegative(trans, emit, syms, path, n - 1);
      NonNegativeProduct(PrefixProb(trans, emit, syms, path, n - 1), trans[prev][path[n - 1]], emit[path[n - 1]][syms[n - 1]]);
    }
  }

  lemma NonNegativeProduct(a: real, b: real, c: real)
    requires a >= 0.0 && b >= 0.0 && c >= 0.0
    ensures a * b * c >= 0.0
  {
    assert a * b >= 0.0;
  }

  /** Scaling by non-negative factors keeps the order of two non-negative values. */
  lemma ScaleMonotone(a: real, b: real, c: real, d: real)
    requires 0.0 <= a <= b && c >= 0.0 && d >= 0.0
    ensures a * c * d <= b * c * d
  {
    assert a * c <= b * c;
    assert a * c >= 0.0;
  }

  /**
   Every score of `rows` is at least each candidate score the decoder
   weighs for its cell, computed from `rows` itself.
   */
  ghost predicate DominatesCandidates(trans: seq<seq<real>>, emit: seq<seq<real>>, syms: seq<nat>, rows: seq<seq<real>>)
    requires Decodable(trans, emit, syms) && IsMatrix(rows, |syms|, |trans|)
  {
    forall t, q, s {:trigger CalcNewStateProbability(t, q, s, syms[t], trans, emit, rows)} ::
      0 <= t < |syms| && 0 <= q < |trans| && 0 <= s < |trans| ==>
      CalcNewStateProbability(t, q, s, syms[t], trans, emit, rows) <= rows[t][s]
  }

  /**
   Every score of `rows` is the candidate score through the predecessor
   `ptrs` records for its cell, and that predecessor is START at step 0.
   */
  ghost predicate FollowsPointers(trans: seq<seq<real>>, emit: seq<seq<real>>, syms: seq<nat>,
                                  rows: seq<seq<real>>, ptrs: seq<seq<nat>>)
    requires Decodable(trans, emit, syms) && IsMatrix(rows, |syms|, |trans|) && PointerTable(ptrs, |syms|, |trans|)
  {
    forall t, s {:trigger ptrs[t][s]} :: 0 <= t < |syms| && 0 <= s < |trans| ==>
      && (t == 0 ==> ptrs[t][s] == 0)
      && rows[t][s] == CalcNewStateProbability(t, ptrs[t][s], s, syms[t], trans, emit, rows)
  }

  /** Each state of `chain` after the first is reached from the predecessor `ptrs` records for it. */
  predicate PointerChain(chain: seq<nat>, ptrs: seq<seq<nat>>)
  {
    forall k {:trigger ptrs[k][chain[k]]} :: 0 < k < |chain| && k < |ptrs| && chain[k] < |ptrs[k]| ==>
      chain[k - 1] == ptrs[k][chain[k]]
  }

  /** The decoder's score table bounds every candidate score of its cells. */
  lemma RowsDominateCandidates(trans: seq<seq<real>>, emit: seq<seq<real>>, syms: seq<nat>)
    requires Decodable(trans, emit, syms) && NonNegativeModel(trans, emit, syms)
    ensures DominatesCandidates(trans, emit, syms, Rows(trans, emit, syms, |syms|))
  {
    var rows := Rows(trans, emit, syms, |syms|);
    RowsNonNegative(trans, emit, syms, |syms|);
    forall t, q, s | 0 <= t < |syms| && 0 <= q < |trans| && 0 <= s < |trans|
      ensures CalcNewStateProbability(t, q, s, syms[t], trans, emit, rows) <= rows[t][s]
    {
      if t == 0 {
        StepZero(trans, emit, syms, |syms|, s);
        assert NonNegative(rows[0]);
      } else {
        BestPredecessor(trans, emit, syms, |syms|, t, s);
      }
    }
  }

  /** The decoder's score table is the candidate score through its recorded predecessors. */
  lemma RowsFollowPointers(trans: seq<seq<real>>, emit: seq<seq<real>>, syms: seq<nat>)
    requires Decodable(trans, emit, syms)
    ensures FollowsPointers(trans, emit, syms, Rows(trans, emit, syms, |syms|), BackPointers(trans, emit, syms, |syms|))
  {
    var rows := Rows(trans, emit, syms, |syms|);
    var ptrs := BackPointers(trans, emit, syms, |syms|);
    forall t, s | 0 <= t < |syms| && 0 <= s < |trans|
      ensures t == 0 ==> ptrs[t][s] == 0
      ensures rows[t][s] == CalcNewStateProbability(t, ptrs[t][s], s, syms[t], trans, emit, rows)
    {
      if t == 0 {
        StepZero(trans, emit, syms, |syms|, s);
      } else {
        BestPredecessor(trans, emit, syms, |syms|, t, s);
      }
    }
  }

  /**
   A table of non-negative scores that bounds the candidate scores of its
   cells bounds the probability of every path prefix: the first `k + 1`
   states of `path` are no more probable than row `k` holds for the
   state at `k`.
   */
  lemma {:induction false} PathBoundedByTable(trans: seq<seq<real>>, emit: seq<seq<real>>, syms: seq<nat>,
                                              rows: seq<seq<real>>, path: seq<nat>, k: nat)
    requires Decodable(trans, emit, syms) && NonNegativeModel(trans, emit, syms) && IsMatrix(rows, |syms|, |trans|)
    requires forall t :: 0 <= t < |syms| ==> NonNegative(rows[t])
    requires DominatesCandidates(trans, emit, syms, rows)
    requires k < |path| <= |syms| && IsPath(path, |trans|)
    ensures PrefixProb(trans, emit, syms, path, k + 1) <= rows[k][path[k]]
    decreases k
  {
    var s := path[k];
    if k == 0 {
      assert CalcNewStateProbability(0, 0, s, syms[0], trans, emit, rows) <= rows[0][s];
    } else {
      var q := path[k - 1];
      PathBoundedByTable(trans, emit, syms, rows, path, k - 1);
      PrefixProbNonNegative(trans, emit, syms, path, k);
      assert NonNegative(rows[k - 1]);
      CalcNewAfterStart(k, q, s, syms[k], trans, emit, rows);
      ExtendBound(PrefixProb(trans, emit, syms, path, k), rows[k - 1][q], trans[q][s], emit[s][syms[k]],
                  CalcNewStateProbability(k, q, s, syms[k], trans, emit, rows), rows[k][s]);
    }
  }

  /**
   Along a table that follows its predecessor table, a chain of recorded
   predecessors has, at every step `k`, the probability the table holds
   for its state there.
   */
  lemma {:induction false} ChainAttainsTable(trans: seq<seq<real>>, emit: seq<seq<real>>, syms: seq<nat>,
                                             rows: seq<seq<real>>, ptrs: seq<seq<nat>>, chain: seq<nat>, k: nat)
    requires Decodable(trans, emit, syms) && IsMatrix(rows, |syms|, |trans|) && PointerTable(ptrs, |syms|, |trans|)
    requires FollowsPointers(trans, emit, syms, rows, ptrs)
    requires k < |chain| <= |syms| && IsPath(chain, |trans|) && PointerChain(chain, ptrs)
    ensures PrefixProb(trans, emit, syms, chain, k + 1) == rows[k][chain[k]]
    decreases k
  {
    var s := chain[k];
    var p := ptrs[k][s];
    if k == 0 {
      assert p == 0;
    } else {
      assert chain[k - 1] == p;
      ChainAttainsTable(trans, emit, syms, rows, ptrs, chain, k - 1);
      CalcNewAfterStart(k, p, s, syms[k], trans, emit, rows);
    }
  }

  /** After step 0, a candidate score is the earlier score times the transition and the emission. */
  lemma CalcNewAfterStart(t: nat, q: nat, s: nat, sym: nat, trans: seq<seq<real>>, emit: seq<seq<real>>, sp: seq<seq<real>>)
    requires t > 0 && CellReady(t, s, sym, trans, emit, sp) && q < |trans|
    ensures CalcNewStateProbability(t, q, s, sym, trans, emit, sp) == sp[t - 1][q] * trans[q][s] * emit[s][sym]
  {
  }

  /** A path bound carried one step further. */
  lemma ExtendBound(before: real, prevScore: real, tr: real, em: real, candidate: real, score: real)
    requires 0.0 <= before <= prevScore && tr >= 0.0 && em >= 0.0
    requires candidate == prevScore * tr * em && candidate <= score
    ensures before * tr * em <= score
  {
    ScaleMonotone(before, prevScore, tr, em);
  }

  /** No path over all the steps is more probable than the best score of the last row. */
  lemma PathsBoundedByBestScore(trans: seq<seq<real>>, emit: seq<seq<real>>, syms: seq<nat>, path: seq<nat>)
    requires Decodable(trans, emit, syms) && NonNegativeModel(trans, emit, syms) && |syms| >= 1
    requires |path| == |syms| && IsPath(path, |trans|)
    ensures PathProb(trans, emit, syms, path) <=
      Rows(trans, emit, syms, |syms|)[|syms| - 1][MostProbableLastState(trans, emit, syms)]
  {
    var rows := Rows(trans, emit, syms, |syms|);
    RowsNonNegative(trans, emit, syms, |syms|);
    RowsDominateCandidates(trans, emit, syms);
    PathBoundedByTable(trans, emit, syms, rows, path, |syms| - 1);
  }

  /** The back-pointer chain from the most probable last state attains the best score. */
  lemma ViterbiPathAttainsBestScore(trans: seq<seq<real>>, emit: seq<seq<real>>, syms: seq<nat>)
    requires Decodable(trans, emit, syms) && |syms| >= 1
    ensures IsPath(ViterbiPath(trans, emit, syms), |trans|)
    ensures PathProb(trans, emit, syms, ViterbiPath(trans, emit, syms)) ==
      Rows(trans, emit, syms, |syms|)[|syms| - 1][MostProbableLastState(trans, emit, syms)]
  {
    RowsFollowPointers(trans, emit, syms);
    WholeChainAttainsTable(trans, emit, syms, Rows(trans, emit, syms, |syms|), BackPointers(trans, emit, syms, |syms|),
                           MostProbableLastState(trans, emit, syms));
  }

  /** `ChainAttainsTable` for the whole chain back from state `last` at the final step. */
  lemma WholeChainAttainsTable(trans: seq<seq<real>>, emit: seq<seq<real>>, syms: seq<nat>,
                               rows: seq<seq<real>>, ptrs: seq<seq<nat>>, last: nat)
    requires Decodable(trans, emit, syms) && |syms| >= 1
    requires IsMatrix(rows, |syms|, |trans|) && PointerTable(ptrs, |syms|, |trans|)
    requires FollowsPointers(trans, emit, syms, rows, ptrs) && last < |trans|
    ensures IsPath(BackChain(ptrs, |trans|, |syms| - 1, last), |trans|)
    ensures PathProb(trans, emit, syms, BackChain(ptrs, |trans|, |syms| - 1, last)) == rows[|syms| - 1][last]
  {
    BackChainIsPointerChain(ptrs, |trans|, |syms| - 1, last);
    ChainAttainsTable(trans, emit, syms, rows, ptrs, BackChain(ptrs, |trans|, |syms| - 1, last), |syms| - 1);
  }

  /** A back-pointer chain is a path that follows its predecessor table. */
  lemma BackChainIsPointerChain(prevSeqState: seq<seq<nat>>, n: nat, t: nat, s: nat)
    requires t < |prevSeqState| && PointerTable(prevSeqState, |prevSeqState|, n) && s < n
    ensures IsPath(BackChain(prevSeqState, n, t, s), n)
    ensures PointerChain(BackChain(prevSeqState, n, t, s), prevSeqState)
  {
  }

  /**
   The back-pointer chain from the most probable last state is a most
   probable state path for the whole observation sequence.
   */
  lemma ViterbiPathOptimal(trans: seq<seq<real>>, emit: seq<seq<real>>, syms: seq<nat>, path: seq<nat>)
    requires Decodable(trans, emit, syms) && NonNegativeModel(trans, emit, syms) && |syms| >= 1
    requires |path| == |syms| && IsPath(path, |trans|)
    ensures IsPath(ViterbiPath(trans, emit, syms), |trans|)
    ensures PathProb(trans, emit, syms, path) <= PathProb(trans, emit, syms, ViterbiPath(trans, emit, syms))
  {
    PathsBoundedByBestScore(trans, emit, syms, path);
    ViterbiPathAttainsBestScore(trans, emit, syms);
  }

  /**
   The walk back as the textbook describes it: the last state first, then
   the recorded predecessor at each step down to step 1, reversed.
   */
  method WalkBackFixed(prevSeqState: seq<seq<nat>>, n: nat, curState: nat) returns (mostProbableSeq: seq<nat>)
    requires |prevSeqState| >= 1 && PointerTable(prevSeqState, |prevSeqState|, n) && curState < n
    ensures mostProbableSeq == BackChain(prevSeqState, n, |prevSeqState| - 1, curState)
  {
    var maxtime := |prevSeqState|;
    ghost var c := BackChain(prevSeqState, n, maxtime - 1, curState);
    var curStep := maxtime - 1;
    var state := curState;
    var collected: seq<nat> := [state];
    while curStep > 0
      invariant 0 <= curStep <= maxtime - 1
      invariant state == c[curStep]
      invariant |collected| == maxtime - curStep
      invariant forall i :: 0 <= i < |collected| ==> collected[i] == c[maxtime - 1 - i]
    {
      state := prevSeqState[curStep][state];
      collected := collected + [state];
      curStep := curStep - 1;
    }
    mostProbableSeq := Reverse(collected);
  }

  /**
   The decoder with the corrected walk back: it returns a most probable
   state path, ending in the most probable last state.
   */
  method FindMostProbableStateSequenceFixed(model: HmmData.Model, data: HmmData.ExperimentData) returns (mostProbableSeq: seq<nat>)
    requires Decodable(model.transitionProb, model.stateSymbolProb, Symbols(data.timeStateSymbol))
    requires NonNegativeModel(model.transitionProb, model.stateSymbolProb, Symbols(data.timeStateSymbol))
    requires |data.timeStateSymbol| >= 1
    ensures mostProbableSeq == ViterbiPath(model.transitionProb, model.stateSymbolProb, Symbols(data.timeStateSymbol))
    ensures IsPath(mostProbableSeq, |model.transitionProb|)
    ensures forall path :: |path| == |data.timeStateSymbol| && IsPath(path, |model.transitionProb|) ==>
      PathProb(model.transitionProb, model.stateSymbolProb, Symbols(data.timeStateSymbol), path) <=
      PathProb(model.transitionProb, model.stateSymbolProb, Symbols(data.timeStateSymbol), mostProbableSeq)
  {
    var sequenceProbability, prevSeqState := ComputeTables(model, data);
    var maxtime := |data.timeStateSymbol|;
    var curState := FirstMax(sequenceProbability[maxtime - 1]);
    mostProbableSeq := WalkBackFixed(prevSeqState, |model.transitionProb|, curState);
    ViterbiPathBeatsAll(model.transitionProb, model.stateSymbolProb, Symbols(data.timeStateSymbol));
  }

  /** `ViterbiPathOptimal` for every path at once. */
  lemma ViterbiPathBeatsAll(trans: seq<seq<real>>, emit: seq<seq<real>>, syms: seq<nat>)
    requires Decodable(trans, emit, syms) && NonNegativeModel(trans, emit, syms) && |syms| >= 1
    ensures IsPath(ViterbiPath(trans, emit, syms), |trans|)
    ensures forall path :: |path| == |syms| && IsPath(path, |trans|) ==>
      PathProb(trans, emit, syms, path) <= PathProb(trans, emit, syms, ViterbiPath(trans, emit, syms))
  {
    ViterbiPathAttainsBestScore(trans, emit, syms);
    forall path | |path| == |syms| && IsPath(path, |trans|)
      ensures PathProb(trans, emit, syms, path) <= PathProb(trans, emit, syms, ViterbiPath(trans, emit, syms))
    {
      ViterbiPathOptimal(trans, emit, syms, path);
    }
  }

  /** A path prefix of probability zero keeps probability zero when extended. */
  lemma {:induction false} PrefixProbStaysZero(trans: seq<seq<real>>, emit: seq<seq<real>>, syms: seq<nat>,
                                               path: seq<nat>, m: nat, n: nat)
    requires Decodable(trans, emit, syms) && m <= n <= |path| <= |syms| && IsPath(path, |trans|)
    requires PrefixProb(trans, emit, syms, path, m) == 0.0
    ensures PrefixProb(trans, emit, syms, path, n) == 0.0
    decreases n
  {
    if n > m {
      PrefixProbStaysZero(trans, emit, syms, path, m, n - 1);
    }
  }

  /**
   With two or more steps the decoder's own sequence starts with the same
   state twice, so in a model where no state goes to itself that sequence
   has probability zero, whatever the observations.
   */
  lemma AsWrittenImpossibleWithoutSelfLoops(trans: seq<seq<real>>, emit: seq<seq<real>>, syms: seq<nat>)
    requires Decodable(trans, emit, syms) && |syms| >= 2
    requires forall s :: 0 <= s < |trans| ==> trans[s][s] == 0.0
    ensures IsPath(DecodeAsWritten(trans, emit, syms), |trans|)
    ensures PathProb(trans, emit, syms, DecodeAsWritten(trans, emit, syms)) == 0.0
  {
    var r := DecodeAsWritten(trans, emit, syms);
    AsWrittenShape(BackPointers(trans, emit, syms, |syms|), |trans|, MostProbableLastState(trans, emit, syms));
    assert r[0] == r[1];
    assert PrefixProb(trans, emit, syms, r, 2) == PrefixProb(trans, emit, syms, r, 1) * 0.0 * emit[r[1]][syms[1]];
    PrefixProbStaysZero(trans, emit, syms, r, 2, |r|);
  }

  /**
   A model in which the decoder's own walk back returns a sequence strictly
   less probable than the best path. Its states are START (0), A (1), B (2)
   and END (3), chained START -> A -> B -> END with probability 1 each; A
   emits symbol 0 ('a') and B symbol 1 ('b'); START and END emit nothing
   and no state goes to itself. The observed symbols are [0, 1].
   */
  const ABChainTrans: seq<seq<real>> :=
    [[0.0, 1.0, 0.0, 0.0], [0.0, 0.0, 1.0, 0.0], [0.0, 0.0, 0.0, 1.0], [0.0, 0.0, 0.0, 0.0]]
  const ABChainEmit: seq<seq<real>> := [[0.0, 0.0], [1.0, 0.0], [0.0, 1.0], [0.0, 0.0]]
  const ABChainSyms: seq<nat> := [0, 1]

  /** The A-B chain can be decoded, and the path [A, B] explains its symbols with probability 1. */
  lemma ABChainModelPath()
    ensures Decodable(ABChainTrans, ABChainEmit, ABChainSyms) && NonNegativeModel(ABChainTrans, ABChainEmit, ABChainSyms)
    ensures IsPath([1, 2], 4) && PathProb(ABChainTrans, ABChainEmit, ABChainSyms, [1, 2]) == 1.0
  {
    assert Decodable(ABChainTrans, ABChainEmit, ABChainSyms) && NonNegativeModel(ABChainTrans, ABChainEmit, ABChainSyms);
    assert PrefixProb(ABChainTrans, ABChainEmit, ABChainSyms, [1, 2], 1) == 1.0;
  }

  /** On the A-B chain, A then B is the only two-step path of positive probability. */
  lemma ABChainOnlyPath(path: seq<nat>)
    requires |path| == 2 && IsPath(path, 4)
    requires PathProb(ABChainTrans, ABChainEmit, ABChainSyms, path) > 0.0
    ensures path == [1, 2]
  {
    var p := PathProb(ABChainTrans, ABChainEmit, ABChainSyms, path);
    assert p == 1.0 * ABChainTrans[0][path[0]] * ABChainEmit[path[0]][0]
                    * ABChainTrans[path[0]][path[1]] * ABChainEmit[path[1]][1];
    assert forall q :: 0 <= q < 4 && q != 1 ==> ABChainTrans[0][q] == 0.0;
    assert forall q :: 0 <= q < 4 && q != 2 ==> ABChainTrans[1][q] == 0.0;
  }

  /**
   On the A-B chain, a model that respects the boundary rules of model
   construction (nothing enters START, nothing leaves END, neither emits),
   the decoder returns A twice, a sequence of probability 0, while the best
   path, A then B, which the corrected walk back returns, has probability 1.
   */
  lemma AsWrittenPathLosesFinalState()
    ensures Decodable(ABChainTrans, ABChainEmit, ABChainSyms) && |ABChainSyms| >= 1
    ensures IsPath(DecodeAsWritten(ABChainTrans, ABChainEmit, ABChainSyms), |ABChainTrans|)
    ensures IsPath(ViterbiPath(ABChainTrans, ABChainEmit, ABChainSyms), |ABChainTrans|)
    ensures PathProb(ABChainTrans, ABChainEmit, ABChainSyms, DecodeAsWritten(ABChainTrans, ABChainEmit, ABChainSyms)) == 0.0
    ensures PathProb(ABChainTrans, ABChainEmit, ABChainSyms, ViterbiPath(ABChainTrans, ABChainEmit, ABChainSyms)) == 1.0
    ensures forall p :: 0 <= p < 4 ==> ABChainTrans[p][0] == 0.0 && ABChainTrans[3][p] == 0.0
    ensures forall c :: 0 <= c < 2 ==> ABChainEmit[0][c] == 0.0 && ABChainEmit[3][c] == 0.0
    ensures ViterbiPath(ABChainTrans, ABChainEmit, ABChainSyms) == [1, 2]
    ensures DecodeAsWritten(ABChainTrans, ABChainEmit, ABChainSyms) == [1, 1]
  {
    ABChainModelPath();
    assert forall s :: 0 <= s < |ABChainTrans| ==> ABChainTrans[s][s] == 0.0;
    AsWrittenImpossibleWithoutSelfLoops(ABChainTrans, ABChainEmit, ABChainSyms);
    ViterbiPathOptimal(ABChainTrans, ABChainEmit, ABChainSyms, [1, 2]);
    var vp := ViterbiPath(ABChainTrans, ABChainEmit, ABChainSyms);
    ABChainOnlyPath(vp);
    assert DecodeAsWritten(ABChainTrans, ABChainEmit, ABChainSyms) == [vp[0]] + vp[..1];
  }

  /** The state sequence that stays in START for `len` steps. */
  function AllStart(len: nat): (path: seq<nat>)
    ensures |path| == len && forall k :: 0 <= k < len ==> path[k] == 0
  {
    seq(len, _ => 0)
  }

  /** A chain of recorded predecessors from START, where START's recorded predecessor is always START, stays in START. */
  lemma {:induction false} ChainStaysAtStart(ptrs: seq<seq<nat>>, n: nat, t: nat)
    requires t < |ptrs| && PointerTable(ptrs, |ptrs|, n) && 0 < n
    requires forall k :: 0 <= k < |ptrs| ==> ptrs[k][0] == 0
    ensures BackChain(ptrs, n, t, 0) == AllStart(t + 1)
    decreases t
  {
    if t > 0 {
      ChainStaysAtStart(ptrs, n, t - 1);
    }
  }

  /**
   When no state goes to START and even the most probable path has
   probability 0 (so, by `ViterbiPathOptimal`, every path has), every score
   is a tie at 0, the first-maximum rule picks START for the last step and
   as START's predecessor at every step, and both walks back return START
   at every step.
   */
  lemma NoLikelyPathDecodesToStart(trans: seq<seq<real>>, emit: seq<seq<real>>, syms: seq<nat>)
    requires Decodable(trans, emit, syms) && NonNegativeModel(trans, emit, syms) && |syms| >= 1
    requires forall q :: 0 <= q < |trans| ==> trans[q][0] == 0.0
    requires IsPath(ViterbiPath(trans, emit, syms), |trans|)
    requires PathProb(trans, emit, syms, ViterbiPath(trans, emit, syms)) == 0.0
    ensures ViterbiPath(trans, emit, syms) == AllStart(|syms|)
    ensures DecodeAsWritten(trans, emit, syms) == AllStart(|syms|)
  {
    LastStateTiesAtStart(trans, emit, syms);
    StartPointersAllStart(trans, emit, syms);
    WalksFromStart(BackPointers(trans, emit, syms, |syms|), |trans|, |syms|, MostProbableLastState(trans, emit, syms));
  }

  /** When no state goes to START, START's recorded predecessor is START at every step. */
  lemma StartPointersAllStart(trans: seq<seq<real>>, emit: seq<seq<real>>, syms: seq<nat>)
    requires Decodable(trans, emit, syms)
    requires forall q :: 0 <= q < |trans| ==> trans[q][0] == 0.0
    ensures forall k :: 0 <= k < |syms| ==> BackPointers(trans, emit, syms, |syms|)[k][0] == 0
  {
    forall k | 0 <= k < |syms| ensures BackPointers(trans, emit, syms, |syms|)[k][0] == 0 {
      StartFollowsStart(trans, emit, syms, k);
    }
  }

  /** Both walks back from START, along a table where START's predecessor is always START, stay in START. */
  lemma WalksFromStart(ptrs: seq<seq<nat>>, n: nat, steps: nat, last: nat)
    requires steps >= 1 && PointerTable(ptrs, steps, n) && last == 0 < n
    requires forall k :: 0 <= k < steps ==> ptrs[k][0] == 0
    ensures BackChain(ptrs, n, steps - 1, last) == AllStart(steps)
    ensures CollectAsWritten(ptrs, n, last) == AllStart(steps)
  {
    ChainStaysAtStart(ptrs, n, steps - 1);
    var c := BackChain(ptrs, n, steps - 1, last);
    assert CollectAsWritten(ptrs, n, 0) == [c[0]] + c[..steps - 1];
  }

  /** When the most probable path has probability 0, the last row is a tie at 0 and START comes first. */
  lemma LastStateTiesAtStart(trans: seq<seq<real>>, emit: seq<seq<real>>, syms: seq<nat>)
    requires Decodable(trans, emit, syms) && NonNegativeModel(trans, emit, syms) && |syms| >= 1
    requires IsPath(ViterbiPath(trans, emit, syms), |trans|)
    requires PathProb(trans, emit, syms, ViterbiPath(trans, emit, syms)) == 0.0
    ensures MostProbableLastState(trans, emit, syms) == 0
  {
    var steps := |syms|;
    var row := Rows(trans, emit, syms, steps)[steps - 1];
    var last := MostProbableLastState(trans, emit, syms);
    ViterbiPathAttainsBestScore(trans, emit, syms);
    RowsNonNegative(trans, emit, syms, steps);
    assert row[last] == 0.0 && row[0] >= 0.0;
  }

  /**
   When no state goes to START, every candidate score of START is 0, and
   the first-maximum rule records START as START's predecessor.
   */
  lemma StartFollowsStart(trans: seq<seq<real>>, emit: seq<seq<real>>, syms: seq<nat>, k: nat)
    requires Decodable(trans, emit, syms) && k < |syms|
    requires forall q :: 0 <= q < |trans| ==> trans[q][0] == 0.0
    ensures BackPointers(trans, emit, syms, |syms|)[k][0] == 0
  {
    var steps := |syms|;
    if k == 0 {
      StepZero(trans, emit, syms, steps, 0);
    } else {
      BestPredecessor(trans, emit, syms, steps, k, 0);
      FirstOfTiesIsStart(trans, emit, syms, Rows(trans, emit, syms, steps), BackPointers(trans, emit, syms, steps)[k][0], k);
    }
  }

  /** A predecessor of START that no earlier predecessor beats is START itself, all candidates being 0. */
  lemma FirstOfTiesIsStart(trans: seq<seq<real>>, emit: seq<seq<real>>, syms: seq<nat>, rows: seq<seq<real>>, p: nat, k: nat)
    requires Decodable(trans, emit, syms) && 0 < k < |syms| && IsMatrix(rows, |syms|, |trans|) && p < |trans|
    requires forall q :: 0 <= q < |trans| ==> trans[q][0] == 0.0
    requires rows[k][0] == CalcNewStateProbability(k, p, 0, syms[k], trans, emit, rows)
    requires forall q :: 0 <= q < p ==> CalcNewStateProbability(k, q, 0, syms[k], trans, emit, rows) < rows[k][0]
    ensures p == 0
  {
    var sym := syms[k];
    CalcNewAfterStart(k, 0, 0, sym, trans, emit, rows);
    ZeroMiddleFactor(rows[k - 1][0], trans[0][0], emit[0][sym]);
    CalcNewAfterStart(k, p, 0, sym, trans, emit, rows);
    ZeroMiddleFactor(rows[k - 1][p], trans[p][0], emit[0][sym]);
  }

  lemma ZeroMiddleFactor(a: real, b: real, c: real)
    requires b == 0.0
    ensures a * b * c == 0.0
  {
  }

  /** The chain START -> A -> END, each step with probability 1. */
  const ChainTrans: seq<seq<real>> := [[0.0, 1.0, 0.0], [0.0, 0.0, 1.0], [0.0, 0.0, 0.0]]

  /**
   On the chain START -> A -> END, A is the only emitting state: A emits
   'a' (symbol 0) with probability 0.9 and 'b' with 0.1, and 'a' is
   observed twice. A does not go to itself. One might expect [A, A] here.
   */
  const LoneEmit: seq<seq<real>> := [[0.0, 0.0], [0.9, 0.1], [0.0, 0.0]]
  const LoneSyms: seq<nat> := [0, 0]

  /** No two-step path of the lone-emitter chain has a positive probability. */
  lemma LoneEmitterChainPathsImpossible(path: seq<nat>)
    requires |path| == 2 && IsPath(path, 3)
    ensures Decodable(ChainTrans, LoneEmit, LoneSyms) && NonNegativeModel(ChainTrans, LoneEmit, LoneSyms)
    ensures PathProb(ChainTrans, LoneEmit, LoneSyms, path) == 0.0
  {
    assert Decodable(ChainTrans, LoneEmit, LoneSyms) && NonNegativeModel(ChainTrans, LoneEmit, LoneSyms);
    var first := PrefixProb(ChainTrans, LoneEmit, LoneSyms, path, 1);
    assert first == 1.0 * ChainTrans[0][path[0]] * LoneEmit[path[0]][0];
    if path[0] == 1 {
      assert ChainTrans[1][path[1]] * LoneEmit[path[1]][0] == 0.0;
      assert PathProb(ChainTrans, LoneEmit, LoneSyms, path) == first * ChainTrans[1][path[1]] * LoneEmit[path[1]][0];
    } else {
      assert first == 0.0;
      PrefixProbStaysZero(ChainTrans, LoneEmit, LoneSyms, path, 1, 2);
    }
  }

  /**
   On the lone-emitter chain every two-step path, [A, A] included, has
   probability 0; all scores tie, and both the decoder and the corrected
   walk back return [START, START].
   */
  lemma LoneEmitterChainDecodesToStart()
    ensures Decodable(ChainTrans, LoneEmit, LoneSyms) && |LoneSyms| >= 1 && IsPath([1, 1], 3)
    ensures PathProb(ChainTrans, LoneEmit, LoneSyms, [1, 1]) == 0.0
    ensures DecodeAsWritten(ChainTrans, LoneEmit, LoneSyms) == [0, 0]
    ensures ViterbiPath(ChainTrans, LoneEmit, LoneSyms) == [0, 0]
  {
    LoneEmitterChainPathsImpossible([1, 1]);
    ViterbiPathAttainsBestScore(ChainTrans, LoneEmit, LoneSyms);
    LoneEmitterChainPathsImpossible(ViterbiPath(ChainTrans, LoneEmit, LoneSyms));
    NoLikelyPathDecodesToStart(ChainTrans, LoneEmit, LoneSyms);
    assert AllStart(2) == [0, 0];
  }
}
