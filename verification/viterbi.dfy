/**
 The Viterbi decoder of `HMM::Algorithms`: two `maxtime x nstates` tables
 filled step by step (best path score per step and end state, and the best
 predecessor of that end state), then a walk back along the predecessors.

 State 0 is START: at step 0 every path is taken to leave START with
 probability `HMM_BEGIN_STATE_PROBABILITY`. Probabilities are exact
 non-negative reals.
 */
module HmmAlgorithms {
  import opened Matrix
  import opened HmmData

  const HMM_BEGIN_STATE_PROBABILITY: real := 1.0

  /** `size_t(-1)` on a 64-bit target: the "no predecessor found" marker. */
  const HMM_UNDEFINED_STATE: nat := 0xFFFF_FFFF_FFFF_FFFF

  /** The symbol indices of the experiment, step by step. */
  function Symbols(rs: seq<StepRecord>): (syms: seq<nat>)
    ensures |syms| == |rs|
    ensures forall t :: 0 <= t < |rs| ==> syms[t] == rs[t].symbol
  {
    seq(|rs|, t requires 0 <= t < |rs| => rs[t].symbol)
  }

  /**
   Inputs the decoder can index: at least one state, a square transition
   table, and an emission row for every state holding every observed symbol.
   */
  predicate Decodable(trans: seq<seq<real>>, emit: seq<seq<real>>, syms: seq<nat>)
  {
    && |trans| >= 1
    && IsMatrix(trans, |trans|, |trans|)
    && |emit| >= |trans|
    && (forall t, s :: 0 <= t < |syms| && 0 <= s < |trans| ==> syms[t] < |emit[s]|)
  }

  /** No transition and no emission probability the decoder reads is negative. */
  predicate NonNegativeModel(trans: seq<seq<real>>, emit: seq<seq<real>>, syms: seq<nat>)
    requires Decodable(trans, emit, syms)
  {
    && (forall p, q :: 0 <= p < |trans| && 0 <= q < |trans| ==> trans[p][q] >= 0.0)
    && (forall t, s :: 0 <= t < |syms| && 0 <= s < |trans| ==> emit[s][syms[t]] >= 0.0)
  }

  predicate NonNegative(row: seq<real>)
  {
    forall p :: 0 <= p < |row| ==> row[p] >= 0.0
  }

  /**
   Cell (stepNumber, curState) can be scored against every predecessor:
   the tables hold every entry the scores read.
   */
  predicate CellReady(stepNumber: nat, curState: nat, curSymbol: nat,
                      trans: seq<seq<real>>, emit: seq<seq<real>>, sequenceProbability: seq<seq<real>>)
  {
    && |trans| >= 1
    && IsMatrix(trans, |trans|, |trans|)
    && curState < |trans|
    && curState < |emit|
    && curSymbol < |emit[curState]|
    && (stepNumber > 0 ==>
          stepNumber - 1 < |sequenceProbability| && |sequenceProbability[stepNumber - 1]| == |trans|)
  }

  /** Every entry the scores of cell (stepNumber, curState) read is non-negative. */
  predicate CellNonNegative(stepNumber: nat, curState: nat, curSymbol: nat,
                            trans: seq<seq<real>>, emit: seq<seq<real>>, sequenceProbability: seq<seq<real>>)
    requires CellReady(stepNumber, curState, curSymbol, trans, emit, sequenceProbability)
  {
    && emit[curState][curSymbol] >= 0.0
    && (forall p :: 0 <= p < |trans| ==> trans[p][curState] >= 0.0)
    && (stepNumber > 0 ==> NonNegative(sequenceProbability[stepNumber - 1]))
  }

  /**
   The score of reaching `curState` at `stepNumber` through `prevState`:
   the best score of `prevState` one step earlier (START with probability
   one, any other state with probability zero, at step 0), times the
   transition and the emission probability.
   */
  function CalcNewStateProbability(stepNumber: nat, prevState: nat, curState: nat, curSymbol: nat,
                                   trans: seq<seq<real>>, emit: seq<seq<real>>,
                                   sequenceProbability: seq<seq<real>>): (r: real)
    requires prevState < |trans| && curState < |trans[prevState]|
    requires curState < |emit| && curSymbol < |emit[curState]|
    requires stepNumber > 0 ==>
      stepNumber - 1 < |sequenceProbability| && prevState < |sequenceProbability[stepNumber - 1]|
    ensures stepNumber == 0 && prevState != 0 ==> r == 0.0
    ensures stepNumber == 0 && prevState == 0 ==> r == trans[0][curState] * emit[curState][curSymbol]
    ensures (&& trans[prevState][curState] >= 0.0
             && emit[curState][curSymbol] >= 0.0
             && (stepNumber > 0 ==> sequenceProbability[stepNumber - 1][prevState] >= 0.0)) ==> r >= 0.0
  {
    var prevProbability :=
      if stepNumber == 0 && prevState == 0 then HMM_BEGIN_STATE_PROBABILITY
      else if stepNumber == 0 then 0.0
      else sequenceProbability[stepNumber - 1][prevState];
    prevProbability * trans[prevState][curState] * emit[curState][curSymbol]
  }

  /** The score of every predecessor of cell (stepNumber, curState), by predecessor index. */
  function Candidates(stepNumber: nat, curState: nat, curSymbol: nat,
                      trans: seq<seq<real>>, emit: seq<seq<real>>, sequenceProbability: seq<seq<real>>): (cs: seq<real>)
    requires CellReady(stepNumber, curState, curSymbol, trans, emit, sequenceProbability)
    ensures |cs| == |trans|
  {
    seq(|trans|, p requires 0 <= p < |trans| =>
      CalcNewStateProbability(stepNumber, p, curState, curSymbol, trans, emit, sequenceProbability))
  }

  /**
   The index of the first largest element, as `std::max_element` and a scan
   that replaces its incumbent only on a strictly larger value both find it.
   */
  function FirstMax(xs: seq<real>): (r: nat)
    requires |xs| >= 1
    ensures r < |xs|
    ensures forall i :: 0 <= i < |xs| ==> xs[i] <= xs[r]
    ensures forall i :: 0 <= i < r ==> xs[i] < xs[r]
    decreases |xs|
  {
    if |xs| == 1 then 0
    else
      var r := FirstMax(xs[..|xs| - 1]);
      if xs[|xs| - 1] > xs[r] then |xs| - 1 else r
  }

  /** The predecessor the decoder records for cell (stepNumber, curState). */
  function BestSource(stepNumber: nat, curState: nat, curSymbol: nat,
                      trans: seq<seq<real>>, emit: seq<seq<real>>, sequenceProbability: seq<seq<real>>): (p: nat)
    requires CellReady(stepNumber, curState, curSymbol, trans, emit, sequenceProbability)
    ensures p < |trans|
  {
    if stepNumber == 0 then 0
    else FirstMax(Candidates(stepNumber, curState, curSymbol, trans, emit, sequenceProbability))
  }

  /**
   Scans the predecessors in ascending order against a running best that
   starts at -1, keeping the incumbent on ties. Every score is at least 0,
   so the first predecessor always replaces the marker and the result is a
   state.
   */
  method FindBestTransitionSource(stepNumber: nat, curState: nat, curSymbol: nat, model: Model,
                                  sequenceProbability: seq<seq<real>>) returns (bestPrevState: nat)
    requires CellReady(stepNumber, curState, curSymbol, model.transitionProb, model.stateSymbolProb, sequenceProbability)
    requires CellNonNegative(stepNumber, curState, curSymbol, model.transitionProb, model.stateSymbolProb, sequenceProbability)
    ensures bestPrevState < |model.transitionProb|
    ensures bestPrevState ==
      BestSource(stepNumber, curState, curSymbol, model.transitionProb, model.stateSymbolProb, sequenceProbability)
  {
    if stepNumber == 0 {
      return 0;
    }
    ghost var cs := Candidates(stepNumber, curState, curSymbol, model.transitionProb, model.stateSymbolProb, sequenceProbability);
    var nstates := |model.transitionProb|;
    var bestProbValue: real := -1.0;
    bestPrevState := HMM_UNDEFINED_STATE;
    var prevState := 0;
    while prevState < nstates
      invariant 0 <= prevState <= nstates
      invariant prevState == 0 ==> bestProbValue == -1.0
      invariant prevState > 0 ==> bestPrevState == FirstMax(cs[..prevState]) && bestProbValue == cs[bestPrevState]
    {
      var curProb := CalcNewStateProbability(stepNumber, prevState, curState, curSymbol,
                                             model.transitionProb, model.stateSymbolProb, sequenceProbability);
      assert curProb == cs[prevState] && curProb >= 0.0;
      assert cs[..prevState + 1][..prevState] == cs[..prevState];
      if curProb > bestProbValue {
        bestProbValue := curProb;
        bestPrevState := prevState;
      }
      prevState := prevState + 1;
    }
    assert cs[..nstates] == cs;
  }

  /** A table of `rows` rows of `cols` state indices, each below `cols`. */
  predicate PointerTable(t: seq<seq<nat>>, rows: nat, cols: nat)
  {
    |t| == rows && forall r :: 0 <= r < rows ==> |t[r]| == cols && forall c :: 0 <= c < cols ==> t[r][c] < cols
  }

  lemma ReadyAt(trans: seq<seq<real>>, emit: seq<seq<real>>, syms: seq<nat>, t: nat, s: nat, sp: seq<seq<real>>)
    requires Decodable(trans, emit, syms) && t < |syms| && s < |trans|
    requires t > 0 ==> t - 1 < |sp| && |sp[t - 1]| == |trans|
    ensures CellReady(t, s, syms[t], trans, emit, sp)
  {
  }

  /** Row `t` of the score table, given the rows before it. */
  function ScoreRow(trans: seq<seq<real>>, emit: seq<seq<real>>, syms: seq<nat>, t: nat, prior: seq<seq<real>>): (row: seq<real>)
    requires Decodable(trans, emit, syms) && t < |syms| && IsMatrix(prior, t, |trans|)
    ensures |row| == |trans|
  {
    assert forall s :: 0 <= s < |trans| ==> CellReady(t, s, syms[t], trans, emit, prior) by {
      forall s | 0 <= s < |trans| {
        ReadyAt(trans, emit, syms, t, s, prior);
      }
    }
    seq(|trans|, s requires 0 <= s < |trans| =>
      CalcNewStateProbability(t, BestSource(t, s, syms[t], trans, emit, prior), s, syms[t], trans, emit, prior))
  }

  /** Row `t` of the back-pointer table, given the score rows before it. */
  function PointerRow(trans: seq<seq<real>>, emit: seq<seq<real>>, syms: seq<nat>, t: nat, prior: seq<seq<real>>): (row: seq<nat>)
    requires Decodable(trans, emit, syms) && t < |syms| && IsMatrix(prior, t, |trans|)
    ensures |row| == |trans|
    ensures forall s :: 0 <= s < |trans| ==> row[s] < |trans|
  {
    assert forall s :: 0 <= s < |trans| ==> CellReady(t, s, syms[t], trans, emit, prior) by {
      forall s | 0 <= s < |trans| {
        ReadyAt(trans, emit, syms, t, s, prior);
      }
    }
    seq(|trans|, s requires 0 <= s < |trans| => BestSource(t, s, syms[t], trans, emit, prior))
  }

  /**
   The first `steps` rows of `sequenceProbability`: row `t` is computed from
   the `t` rows before it.
   */
  function Rows(trans: seq<seq<real>>, emit: seq<seq<real>>, syms: seq<nat>, steps: nat): (rows: seq<seq<real>>)
    requires Decodable(trans, emit, syms) && steps <= |syms|
    ensures IsMatrix(rows, steps, |trans|)
    decreases steps
  {
    seq(steps, t requires 0 <= t < steps => ScoreRow(trans, emit, syms, t, Rows(trans, emit, syms, t)))
  }

  /** The first `steps` rows of `prevSeqState`. */
  function BackPointers(trans: seq<seq<real>>, emit: seq<seq<real>>, syms: seq<nat>, steps: nat): (ptrs: seq<seq<nat>>)
    requires Decodable(trans, emit, syms) && steps <= |syms|
    ensures PointerTable(ptrs, steps, |trans|)
  {
    seq(steps, t requires 0 <= t < steps => PointerRow(trans, emit, syms, t, Rows(trans, emit, syms, t)))
  }

  /** Computing more steps leaves the earlier rows as they were. */
  lemma RowsPrefix(trans: seq<seq<real>>, emit: seq<seq<real>>, syms: seq<nat>, steps: nat, t: nat)
    requires Decodable(trans, emit, syms) && t <= steps <= |syms|
    ensures Rows(trans, emit, syms, steps)[..t] == Rows(trans, emit, syms, t)
  {
    assert forall i :: 0 <= i < t ==> Rows(trans, emit, syms, steps)[i] == Rows(trans, emit, syms, t)[i];
  }

  /** Every score in the table is non-negative. */
  lemma {:induction false} RowsNonNegative(trans: seq<seq<real>>, emit: seq<seq<real>>, syms: seq<nat>, steps: nat)
    requires Decodable(trans, emit, syms) && steps <= |syms|
    requires NonNegativeModel(trans, emit, syms)
    ensures forall t :: 0 <= t < steps ==> NonNegative(Rows(trans, emit, syms, steps)[t])
    decreases steps
  {
    if steps > 0 {
      var t := steps - 1;
      var prior := Rows(trans, emit, syms, t);
      RowsNonNegative(trans, emit, syms, t);
      var row := ScoreRow(trans, emit, syms, t, prior);
      forall s | 0 <= s < |trans|
        ensures row[s] >= 0.0
      {
        ReadyAt(trans, emit, syms, t, s, prior);
        var p := BestSource(t, s, syms[t], trans, emit, prior);
        assert t > 0 ==> prior[t - 1][p] >= 0.0;
      }
      assert Rows(trans, emit, syms, steps) == prior + [row];
    }
  }

  /**
   At step 0 the predecessor of every state is START, and its score is the
   probability of leaving START for it and emitting the first symbol there.
   */
  lemma StepZero(trans: seq<seq<real>>, emit: seq<seq<real>>, syms: seq<nat>, steps: nat, s: nat)
    requires Decodable(trans, emit, syms) && 1 <= steps <= |syms| && s < |trans|
    ensures BackPointers(trans, emit, syms, steps)[0][s] == 0
    ensures Rows(trans, emit, syms, steps)[0][s] == trans[0][s] * emit[s][syms[0]]
  {
    ReadyAt(trans, emit, syms, 0, s, []);
  }

  /**
   After step 0, the recorded predecessor of state `s` is the lowest index
   among those maximising the score through that predecessor, and the
   recorded score is that maximum.
   */
  lemma BestPredecessor(trans: seq<seq<real>>, emit: seq<seq<real>>, syms: seq<nat>, steps: nat, t: nat, s: nat)
    requires Decodable(trans, emit, syms) && 0 < t < steps <= |syms| && s < |trans|
    ensures var rows := Rows(trans, emit, syms, steps);
      var p := BackPointers(trans, emit, syms, steps)[t][s];
      && p < |trans|
      && rows[t][s] == CalcNewStateProbability(t, p, s, syms[t], trans, emit, rows)
      && (forall q :: 0 <= q < |trans| ==> CalcNewStateProbability(t, q, s, syms[t], trans, emit, rows) <= rows[t][s])
      && (forall q :: 0 <= q < p ==> CalcNewStateProbability(t, q, s, syms[t], trans, emit, rows) < rows[t][s])
  {
    var rows := Rows(trans, emit, syms, steps);
    var prior := Rows(trans, emit, syms, t);
    RowsPrefix(trans, emit, syms, steps, t);
    assert rows[t - 1] == prior[t - 1] by {
      assert rows[t - 1] == rows[..t][t - 1];
    }
    ReadyAt(trans, emit, syms, t, s, prior);
    ReadyAt(trans, emit, syms, t, s, rows);
    CellLocal(t, s, syms[t], trans, emit, rows, prior);
    var cs := Candidates(t, s, syms[t], trans, emit, prior);
    var p := FirstMax(cs);
    assert BackPointers(trans, emit, syms, steps)[t][s] == p;
    assert rows[t][s] == cs[p];
    forall q | 0 <= q < |trans|
      ensures CalcNewStateProbability(t, q, s, syms[t], trans, emit, rows) == cs[q]
    {
    }
  }

  /** Scores of a cell depend only on the row before it. */
  lemma CellLocal(t: nat, s: nat, sym: nat, trans: seq<seq<real>>, emit: seq<seq<real>>,
                  sp1: seq<seq<real>>, sp2: seq<seq<real>>)
    requires CellReady(t, s, sym, trans, emit, sp1) && CellReady(t, s, sym, trans, emit, sp2)
    requires t > 0 ==> sp1[t - 1] == sp2[t - 1]
    ensures BestSource(t, s, sym, trans, emit, sp1) == BestSource(t, s, sym, trans, emit, sp2)
    ensures forall p :: 0 <= p < |trans| ==>
      CalcNewStateProbability(t, p, s, sym, trans, emit, sp1) == CalcNewStateProbability(t, p, s, sym, trans, emit, sp2)
  {
    forall p | 0 <= p < |trans|
      ensures CalcNewStateProbability(t, p, s, sym, trans, emit, sp1) == CalcNewStateProbability(t, p, s, sym, trans, emit, sp2)
    {
    }
    if t > 0 {
      assert Candidates(t, s, sym, trans, emit, sp1) == Candidates(t, s, sym, trans, emit, sp2);
    }
  }

  /**
   A cell of the working table, whose first `t` rows are already the final
   ones, receives the value and the predecessor of the specification.
   */
  lemma CellStep(trans: seq<seq<real>>, emit: seq<seq<real>>, syms: seq<nat>, t: nat, s: nat, sp: seq<seq<real>>)
    requires Decodable(trans, emit, syms) && t < |syms| && s < |trans|
    requires NonNegativeModel(trans, emit, syms)
    requires IsMatrix(sp, |syms|, |trans|) && sp[..t] == Rows(trans, emit, syms, t)
    ensures CellReady(t, s, syms[t], trans, emit, sp)
    ensures CellNonNegative(t, s, syms[t], trans, emit, sp)
    ensures BestSource(t, s, syms[t], trans, emit, sp) == PointerRow(trans, emit, syms, t, Rows(trans, emit, syms, t))[s]
    ensures CalcNewStateProbability(t, BestSource(t, s, syms[t], trans, emit, sp), s, syms[t], trans, emit, sp) ==
            ScoreRow(trans, emit, syms, t, Rows(trans, emit, syms, t))[s]
  {
    var prior := Rows(trans, emit, syms, t);
    if t > 0 {
      assert sp[t - 1] == sp[..t][t - 1];
      RowsNonNegative(trans, emit, syms, t);
    }
    ReadyAt(trans, emit, syms, t, s, sp);
    ReadyAt(trans, emit, syms, t, s, prior);
    CellLocal(t, s, syms[t], trans, emit, sp, prior);
  }

  /** Both working tables: `rows x cols`. */
  predicate Shaped(sp: seq<seq<real>>, prev: seq<seq<nat>>, rows: nat, cols: nat)
  {
    IsMatrix(sp, rows, cols) && |prev| == rows && forall r :: 0 <= r < rows ==> |prev[r]| == cols
  }

  /**
   Fills `sequenceProbability` and `prevSeqState` step by step and state by
   state; the result is the table pair of the specification.
   */
  method ComputeTables(model: Model, data: ExperimentData)
      returns (sequenceProbability: seq<seq<real>>, prevSeqState: seq<seq<nat>>)
    requires Decodable(model.transitionProb, model.stateSymbolProb, Symbols(data.timeStateSymbol))
    requires NonNegativeModel(model.transitionProb, model.stateSymbolProb, Symbols(data.timeStateSymbol))
    ensures sequenceProbability ==
      Rows(model.transitionProb, model.stateSymbolProb, Symbols(data.timeStateSymbol), |data.timeStateSymbol|)
    ensures prevSeqState ==
      BackPointers(model.transitionProb, model.stateSymbolProb, Symbols(data.timeStateSymbol), |data.timeStateSymbol|)
  {
    ghost var trans, emit, syms := model.transitionProb, model.stateSymbolProb, Symbols(data.timeStateSymbol);
    var nstates := |model.transitionProb|;
    var maxtime := |data.timeStateSymbol|;
    sequenceProbability := seq(maxtime, _ => seq(nstates, _ => 0.0));
    prevSeqState := seq(maxtime, _ => seq(nstates, _ => HMM_UNDEFINED_STATE));
    var t := 0;
    while t < maxtime
      invariant t <= maxtime
      invariant Shaped(sequenceProbability, prevSeqState, maxtime, nstates)
      invariant sequenceProbability[..t] == Rows(trans, emit, syms, t)
      invariant prevSeqState[..t] == BackPointers(trans, emit, syms, t)
    {
      sequenceProbability, prevSeqState := FillRow(model, data, t, sequenceProbability, prevSeqState);
      t := t + 1;
    }
    assert sequenceProbability == sequenceProbability[..maxtime];
    assert prevSeqState == prevSeqState[..maxtime];
  }

  /** The inner loop of the table fill: row `t`, one state after the other. */
  method FillRow(model: Model, data: ExperimentData, t: nat, sp: seq<seq<real>>, prev: seq<seq<nat>>)
      returns (sequenceProbability: seq<seq<real>>, prevSeqState: seq<seq<nat>>)
    requires Decodable(model.transitionProb, model.stateSymbolProb, Symbols(data.timeStateSymbol))
    requires NonNegativeModel(model.transitionProb, model.stateSymbolProb, Symbols(data.timeStateSymbol))
    requires t < |data.timeStateSymbol|
    requires Shaped(sp, prev, |data.timeStateSymbol|, |model.transitionProb|)
    requires sp[..t] == Rows(model.transitionProb, model.stateSymbolProb, Symbols(data.timeStateSymbol), t)
    requires prev[..t] == BackPointers(model.transitionProb, model.stateSymbolProb, Symbols(data.timeStateSymbol), t)
    ensures Shaped(sequenceProbability, prevSeqState, |data.timeStateSymbol|, |model.transitionProb|)
    ensures sequenceProbability[..t + 1] ==
      Rows(model.transitionProb, model.stateSymbolProb, Symbols(data.timeStateSymbol), t + 1)
    ensures prevSeqState[..t + 1] ==
      BackPointers(model.transitionProb, model.stateSymbolProb, Symbols(data.timeStateSymbol), t + 1)
  {
    ghost var trans, emit, syms := model.transitionProb, model.stateSymbolProb, Symbols(data.timeStateSymbol);
    var nstates := |model.transitionProb|;
    sequenceProbability, prevSeqState := sp, prev;
    var curState := 0;
    while curState < nstates
      invariant curState <= nstates
      invariant RowInProgress(trans, emit, syms, t, curState, sequenceProbability, prevSeqState)
    {
      var curSymbol := data.timeStateSymbol[t].symbol;
      CellStep(trans, emit, syms, t, curState, sequenceProbability);
      var bestPrevState := FindBestTransitionSource(t, curState, curSymbol, model, sequenceProbability);
      var bestProbValue := CalcNewStateProbability(t, bestPrevState, curState, curSymbol,
                                                   model.transitionProb, model.stateSymbolProb, sequenceProbability);
      CellWritten(trans, emit, syms, t, curState, sequenceProbability, prevSeqState, bestProbValue, bestPrevState);
      sequenceProbability := Put(sequenceProbability, t, curState, bestProbValue);
      prevSeqState := Put(prevSeqState, t, curState, bestPrevState);
      curState := curState + 1;
    }
    RowDone(trans, emit, syms, t, sequenceProbability, prevSeqState);
  }

  /** The table after `tbl[t][s] = v`. */
  function Put<T>(tbl: seq<seq<T>>, t: nat, s: nat, v: T): (r: seq<seq<T>>)
    requires t < |tbl| && s < |tbl[t]|
    ensures |r| == |tbl| && r[..t] == tbl[..t]
    ensures forall i :: 0 <= i < |tbl| ==> |r[i]| == |tbl[i]|
    ensures r[t][..s + 1] == tbl[t][..s] + [v]
  {
    tbl[t := tbl[t][s := v]]
  }

  /** Rows before `t` are final and the first `s` cells of row `t` are written. */
  ghost predicate RowInProgress(trans: seq<seq<real>>, emit: seq<seq<real>>, syms: seq<nat>, t: nat, s: nat,
                                sp: seq<seq<real>>, prev: seq<seq<nat>>)
    requires Decodable(trans, emit, syms) && t < |syms|
  {
    && s <= |trans|
    && Shaped(sp, prev, |syms|, |trans|)
    && sp[..t] == Rows(trans, emit, syms, t)
    && prev[..t] == BackPointers(trans, emit, syms, t)
    && sp[t][..s] == ScoreRow(trans, emit, syms, t, Rows(trans, emit, syms, t))[..s]
    && prev[t][..s] == PointerRow(trans, emit, syms, t, Rows(trans, emit, syms, t))[..s]
  }

  /** Writing the specified value and predecessor into cell (t, s) extends the written part of row `t`. */
  lemma CellWritten(trans: seq<seq<real>>, emit: seq<seq<real>>, syms: seq<nat>, t: nat, s: nat,
                    sp: seq<seq<real>>, prev: seq<seq<nat>>, v: real, p: nat)
    requires Decodable(trans, emit, syms) && t < |syms| && s < |trans|
    requires RowInProgress(trans, emit, syms, t, s, sp, prev)
    requires v == ScoreRow(trans, emit, syms, t, Rows(trans, emit, syms, t))[s]
    requires p == PointerRow(trans, emit, syms, t, Rows(trans, emit, syms, t))[s]
    ensures RowInProgress(trans, emit, syms, t, s + 1, Put(sp, t, s, v), Put(prev, t, s, p))
  {
    PutExtends(sp, ScoreRow(trans, emit, syms, t, Rows(trans, emit, syms, t)), t, s, v);
    PutExtends(prev, PointerRow(trans, emit, syms, t, Rows(trans, emit, syms, t)), t, s, p);
  }

  /** Writing the next cell of a row that agrees with `row` so far keeps it in agreement one cell further. */
  lemma PutExtends<T>(tbl: seq<seq<T>>, row: seq<T>, t: nat, s: nat, v: T)
    requires t < |tbl| && s < |tbl[t]| && s < |row|
    requires tbl[t][..s] == row[..s] && v == row[s]
    ensures Put(tbl, t, s, v)[t][..s + 1] == row[..s + 1]
  {
    assert row[..s + 1] == row[..s] + [v];
  }

  /** A working table whose row `t` is complete holds the first `t + 1` rows of the specification. */
  lemma RowDone(trans: seq<seq<real>>, emit: seq<seq<real>>, syms: seq<nat>, t: nat, sp: seq<seq<real>>, prev: seq<seq<nat>>)
    requires Decodable(trans, emit, syms) && t < |syms|
    requires RowInProgress(trans, emit, syms, t, |trans|, sp, prev)
    ensures Shaped(sp, prev, |syms|, |trans|)
    ensures sp[..t + 1] == Rows(trans, emit, syms, t + 1)
    ensures prev[..t + 1] == BackPointers(trans, emit, syms, t + 1)
  {
    assert sp[t] == sp[t][..|trans|];
    assert prev[t] == prev[t][..|trans|];
    var rows, ptrs := Rows(trans, emit, syms, t + 1), BackPointers(trans, emit, syms, t + 1);
    forall i | 0 <= i <= t
      ensures sp[i] == rows[i] && prev[i] == ptrs[i]
    {
      if i < t {
        assert sp[i] == sp[..t][i];
        assert prev[i] == prev[..t][i];
      }
    }
  }

  /**
   The states met walking back from state `s` at step `t` along the
   predecessor table, in chronological order: it ends in `s`, and each of
   its states is the recorded predecessor of the one after it.
   */
  function BackChain(prevSeqState: seq<seq<nat>>, n: nat, t: nat, s: nat): (chain: seq<nat>)
    requires t < |prevSeqState| && PointerTable(prevSeqState, |prevSeqState|, n) && s < n
    ensures |chain| == t + 1 && chain[t] == s
    ensures forall k :: 0 <= k <= t ==> chain[k] < n
    ensures forall k {:trigger prevSeqState[k][chain[k]]} :: 0 < k <= t ==> chain[k - 1] == prevSeqState[k][chain[k]]
    decreases t
  {
    if t == 0 then [s]
    else BackChain(prevSeqState, n, t - 1, prevSeqState[t][s]) + [s]
  }

  /** The first state with the largest score in the last row. */
  function MostProbableLastState(trans: seq<seq<real>>, emit: seq<seq<real>>, syms: seq<nat>): (s: nat)
    requires Decodable(trans, emit, syms) && |syms| >= 1
    ensures s < |trans|
  {
    FirstMax(Rows(trans, emit, syms, |syms|)[|syms| - 1])
  }

  /** The back-pointer chain that ends in the most probable last state. */
  function ViterbiPath(trans: seq<seq<real>>, emit: seq<seq<real>>, syms: seq<nat>): (path: seq<nat>)
    requires Decodable(trans, emit, syms) && |syms| >= 1
    ensures |path| == |syms| && path[|syms| - 1] == MostProbableLastState(trans, emit, syms)
  {
    BackChain(BackPointers(trans, emit, syms, |syms|), |trans|, |syms| - 1, MostProbableLastState(trans, emit, syms))
  }

  /**
   What the decoder's walk back collects, in chronological order, when it
   starts from state `last` at the final step of the predecessor table: the
   chain's step-0 state, then the chain without its last state. That is
   `[s0, s0, s1, ..., s(T-2)]` with two or more steps and `[last]` with one.
   */
  function CollectAsWritten(prevSeqState: seq<seq<nat>>, n: nat, last: nat): (r: seq<nat>)
    requires |prevSeqState| >= 1 && PointerTable(prevSeqState, |prevSeqState|, n) && last < n
    ensures |r| == |prevSeqState|
    ensures forall k :: 0 <= k < |r| ==> r[k] < n
  {
    var c := BackChain(prevSeqState, n, |prevSeqState| - 1, last);
    [c[0]] + c[..|prevSeqState| - 1]
  }

  /**
   The shape of the collected sequence. With one step it is `[last]`. With
   more steps its last entry is the recorded predecessor of `last` (not
   `last` itself), its first two entries coincide, and each entry `k` from
   the second on is the predecessor recorded at step `k` for entry `k + 1`:
   the predecessor relation of a state path, moved one position right.
   */
  lemma AsWrittenShape(prevSeqState: seq<seq<nat>>, n: nat, last: nat)
    requires |prevSeqState| >= 1 && PointerTable(prevSeqState, |prevSeqState|, n) && last < n
    ensures var r := CollectAsWritten(prevSeqState, n, last);
      var steps := |prevSeqState|;
      && (steps == 1 ==> r == [last])
      && (steps >= 2 ==> r[steps - 1] == prevSeqState[steps - 1][last] && r[0] == r[1])
      && (forall k :: 1 <= k < steps - 1 ==> r[k] == prevSeqState[k][r[k + 1]])
  {
    var r := CollectAsWritten(prevSeqState, n, last);
    var c := BackChain(prevSeqState, n, |prevSeqState| - 1, last);
    assert forall k :: 1 <= k < |prevSeqState| ==> r[k] == c[k - 1];
  }

  /** The sequence the decoder returns for the model and the observed symbols. */
  function DecodeAsWritten(trans: seq<seq<real>>, emit: seq<seq<real>>, syms: seq<nat>): (r: seq<nat>)
    requires Decodable(trans, emit, syms) && |syms| >= 1
    ensures |r| == |syms|
    ensures forall k :: 0 <= k < |r| ==> r[k] < |trans|
  {
    CollectAsWritten(BackPointers(trans, emit, syms, |syms|), |trans|, MostProbableLastState(trans, emit, syms))
  }

  /** The sequence back to front, as `std::reverse` leaves it. */
  function Reverse(xs: seq<nat>): (r: seq<nat>)
    ensures |r| == |xs|
    ensures forall i :: 0 <= i < |xs| ==> r[i] == xs[|xs| - 1 - i]
  {
    seq(|xs|, i requires 0 <= i < |xs| => xs[|xs| - 1 - i])
  }

  /**
   Fills the tables, then walks back from the first state of largest score
   in the last row.
   */
  method FindMostProbableStateSequence(model: Model, data: ExperimentData) returns (mostProbableSeq: seq<nat>)
    requires Decodable(model.transitionProb, model.stateSymbolProb, Symbols(data.timeStateSymbol))
    requires NonNegativeModel(model.transitionProb, model.stateSymbolProb, Symbols(data.timeStateSymbol))
    requires |data.timeStateSymbol| >= 1
    ensures |mostProbableSeq| == |data.timeStateSymbol|
    ensures forall k :: 0 <= k < |mostProbableSeq| ==> mostProbableSeq[k] < |model.transitionProb|
    ensures mostProbableSeq == DecodeAsWritten(model.transitionProb, model.stateSymbolProb, Symbols(data.timeStateSymbol))
  {
    var sequenceProbability, prevSeqState := ComputeTables(model, data);
    var nstates := |model.transitionProb|;
    var maxtime := |data.timeStateSymbol|;
    var curState := FirstMax(sequenceProbability[maxtime - 1]);
    mostProbableSeq := WalkBack(prevSeqState, nstates, curState);
  }

  /**
   From state `curState` at the last step, pushes the recorded predecessor
   at each step down to step 1, pushes the step-0 state once more, and
   reverses what it pushed.
   */
  method WalkBack(prevSeqState: seq<seq<nat>>, n: nat, curState: nat) returns (mostProbableSeq: seq<nat>)
    requires |prevSeqState| >= 1 && PointerTable(prevSeqState, |prevSeqState|, n) && curState < n
    ensures mostProbableSeq == CollectAsWritten(prevSeqState, n, curState)
  {
    var maxtime := |prevSeqState|;
    ghost var c := BackChain(prevSeqState, n, maxtime - 1, curState);
    var collected: seq<nat> := [];
    var curStep := maxtime - 1;
    var state := curState;
    while curStep > 0
      invariant 0 <= curStep <= maxtime - 1
      invariant state == c[curStep]
      invariant |collected| == maxtime - 1 - curStep
      invariant forall i :: 0 <= i < |collected| ==> collected[i] == c[maxtime - 2 - i]
    {
      state := prevSeqState[curStep][state];
      collected := collected + [state];
      curStep := curStep - 1;
    }
    collected := collected + [state];
    mostProbableSeq := Reverse(collected);
    assert forall k :: 1 <= k < maxtime ==> mostProbableSeq[k] == c[k - 1];
  }
}
