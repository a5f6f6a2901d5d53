/**
 The `HMM::Data` part of the decoder: the probability model (state-name
 registry, transition matrix, emission matrix) and the experiment data
 (observations resolved against a model's registry).

 Both are read from already tokenised input: the stream parsing of the
 original is not modelled. Probabilities are exact reals.
 */
module HmmData {
  import opened Optional
  import opened Matrix

  // ----------------------------------------------------------------------
  // Symbols

  /** A symbol token whose first character is a lower-case ASCII letter. */
  predicate IsSymbol(symbol: string)
  {
    |symbol| > 0 && 'a' <= symbol[0] <= 'z'
  }

  /** The emission symbol index of a token: its first character's offset from 'a'. */
  function SymbolToInd(symbol: string): (ind: nat)
    requires IsSymbol(symbol)
    ensures ind < 26
    ensures ('a' as int + ind) as char == symbol[0]
  {
    symbol[0] as int - 'a' as int
  }

  /** Two tokens map to the same index exactly when their first characters agree. */
  lemma SymbolToIndInjective(a: string, b: string)
    requires IsSymbol(a) && IsSymbol(b)
    ensures SymbolToInd(a) == SymbolToInd(b) <==> a[0] == b[0]
  {
  }

  // ----------------------------------------------------------------------
  // Tokenised input records and errors

  /** A `from to prob` line of the model description. */
  datatype Transition = Transition(from: string, to: string, prob: real)

  /** A `state symbol prob` line of the model description. */
  datatype Emission = Emission(state: string, symbol: string, prob: real)

  /** A `step state symbol` line of the observation trace. */
  datatype Observation = Observation(step: nat, stateName: string, symbol: string)

  /** One entry of `timeStateSymbol`: step number, state index, symbol index. */
  datatype StepRecord = StepRecord(step: nat, state: nat, symbol: nat)

  /** The three `std::domain_error`s model construction can raise. */
  datatype DomainError = TransitionFromEnd | TransitionToStart | EmissionFromBoundary

  /** The `std::out_of_range` raised by `map::at` for a name the model does not know. */
  datatype LookupError = UnknownStateName(name: string)

  /** The index of the first failing item of a checked sequence, or its length. */
  function FirstFailure<E>(vs: seq<Option<E>>): (k: nat)
    ensures k <= |vs|
    ensures forall i :: 0 <= i < k ==> vs[i].None?
    ensures k < |vs| ==> vs[k].Some?
  {
    if vs == [] || vs[0].Some? then 0 else 1 + FirstFailure(vs[1..])
  }

  /** An accepted item before or at the first failure lies before it. */
  lemma FirstFailureNotYet<E>(vs: seq<Option<E>>, i: nat)
    requires i < |vs| && i <= FirstFailure(vs) && vs[i].None?
    ensures i + 1 <= FirstFailure(vs)
  {
  }

  /** A failing item before or at the first failure is the first failure. */
  lemma FirstFailureHere<E>(vs: seq<Option<E>>, i: nat)
    requires i < |vs| && i <= FirstFailure(vs) && vs[i].Some?
    ensures FirstFailure(vs) == i
  {
  }

  /**
   No item fails exactly when the first failure is the length, and an item
   that fails after only accepted ones is the first failure.
   */
  lemma FirstFailureIs<E>(vs: seq<Option<E>>)
    ensures FirstFailure(vs) == |vs| <==> forall i :: 0 <= i < |vs| ==> vs[i].None?
    ensures forall i :: 0 <= i < |vs| && vs[i].Some? && (forall i' :: 0 <= i' < i ==> vs[i'].None?) ==>
      FirstFailure(vs) == i
  {
  }

  // ----------------------------------------------------------------------
  // The state-name registry

  /** The registry after `stateNameToIndex[names[i]] = i` for i = 0, 1, ... in turn. */
  function RegisterNames(m: map<string, nat>, names: seq<string>): map<string, nat>
    decreases |names|
  {
    if names == [] then m
    else RegisterNames(m, names[..|names| - 1])[names[|names| - 1] := |names| - 1]
  }

  /**
   After registration a name is known iff it was known before or is listed;
   a listed name maps to the position of its last occurrence, and an
   unlisted name keeps its earlier index.
   */
  lemma {:induction false} RegisterNamesAt(m: map<string, nat>, names: seq<string>, key: string)
    ensures key in RegisterNames(m, names) <==> key in m || key in names
    ensures key in names ==>
      var i := RegisterNames(m, names)[key];
      i < |names| && names[i] == key && forall j :: i < j < |names| ==> names[j] != key
    ensures key !in names && key in m ==> RegisterNames(m, names)[key] == m[key]
    decreases |names|
  {
    if names != [] {
      var init := names[..|names| - 1];
      RegisterNamesAt(m, init, key);
      assert names == init + [names[|names| - 1]];
      assert key in names <==> key in init || key == names[|names| - 1];
    }
  }

  /** With distinct names the registry is the bijection name[i] <-> i. */
  lemma RegisterDistinctNames(m: map<string, nat>, names: seq<string>, i: nat)
    requires forall a, b :: 0 <= a < b < |names| ==> names[a] != names[b]
    requires i < |names|
    ensures names[i] in RegisterNames(m, names) && RegisterNames(m, names)[names[i]] == i
  {
    RegisterNamesAt(m, names, names[i]);
  }

  /**
   Every index in the registry is either 0, what `operator[]` inserts for a
   missing name, or below the state count `n`.
   */
  predicate IndicesFit(m: map<string, nat>, n: nat)
  {
    forall k :: k in m ==> m[k] == 0 || m[k] < n
  }

  lemma RegisteredIndicesFit(m: map<string, nat>, names: seq<string>)
    requires IndicesFit(m, |names|)
    ensures IndicesFit(RegisterNames(m, names), |names|)
  {
    forall k | k in RegisterNames(m, names) ensures RegisterNames(m, names)[k] == 0 || RegisterNames(m, names)[k] < |names| {
      RegisterNamesAt(m, names, k);
    }
  }

  /** The index `stateNameToIndex[name]` yields: a missing name reads as 0, the START state. */
  function ResolvedIndex(m: map<string, nat>, name: string): nat
  {
    if name in m then m[name] else 0
  }

  /** The registry after `stateNameToIndex[name]`, which inserts a missing name with index 0. */
  function Touch(m: map<string, nat>, name: string): map<string, nat>
  {
    if name in m then m else m[name := 0]
  }

  /** The registry after `operator[]` has been applied to every name in `keys`. */
  function TouchAll(m: map<string, nat>, keys: set<string>): (r: map<string, nat>)
    ensures r.Keys == m.Keys + keys
    ensures forall k :: k in r ==> r[k] == ResolvedIndex(m, k)
  {
    map k | k in m.Keys + keys :: ResolvedIndex(m, k)
  }

  lemma TouchAllStep(m: map<string, nat>, keys: set<string>, name: string)
    ensures ResolvedIndex(TouchAll(m, keys), name) == ResolvedIndex(m, name)
    ensures Touch(TouchAll(m, keys), name) == TouchAll(m, keys + {name})
  {
  }

  /** Names a list of transitions looks up, sources and targets. */
  function TransitionNames(ts: seq<Transition>): set<string>
  {
    (set t | t in ts :: t.from) + (set t | t in ts :: t.to)
  }

  /** Names a list of emissions looks up. */
  function EmissionNames(es: seq<Emission>): set<string>
  {
    set e | e in es :: e.state
  }

  // ----------------------------------------------------------------------
  // Checks and writes of model construction

  /** The check of one transition among `n` states: the source first, then the target. */
  function TransitionVerdict(m: map<string, nat>, n: nat, t: Transition): Option<DomainError>
  {
    var fromInd := ResolvedIndex(m, t.from);
    var toInd := ResolvedIndex(m, t.to);
    if fromInd + 1 == n then Some(TransitionFromEnd)
    else if toInd == 0 then Some(TransitionToStart)
    else None
  }

  /** The check of one emission among `n` states: only interior states emit. */
  function EmissionVerdict(m: map<string, nat>, n: nat, e: Emission): Option<DomainError>
  {
    var stateInd := ResolvedIndex(m, e.state);
    if stateInd == 0 || stateInd + 1 == n then Some(EmissionFromBoundary) else None
  }

  function TransitionVerdicts(m: map<string, nat>, n: nat, ts: seq<Transition>): (vs: seq<Option<DomainError>>)
    ensures |vs| == |ts|
  {
    seq(|ts|, i requires 0 <= i < |ts| => TransitionVerdict(m, n, ts[i]))
  }

  function EmissionVerdicts(m: map<string, nat>, n: nat, es: seq<Emission>): (vs: seq<Option<DomainError>>)
    ensures |vs| == |es|
  {
    seq(|es|, i requires 0 <= i < |es| => EmissionVerdict(m, n, es[i]))
  }

  /** `transitionProb[fromInd][toInd] = prob` for each transition, in order. */
  function TransitionWrites(m: map<string, nat>, ts: seq<Transition>): (ws: seq<Write>)
    ensures |ws| == |ts|
  {
    seq(|ts|, i requires 0 <= i < |ts| =>
      Write(ResolvedIndex(m, ts[i].from), ResolvedIndex(m, ts[i].to), ts[i].prob))
  }

  /** `stateSymbolProb[stateInd][symbolInd] = prob` for each emission, in order. */
  function EmissionWrites(m: map<string, nat>, es: seq<Emission>): (ws: seq<Write>)
    requires forall i :: 0 <= i < |es| ==> IsSymbol(es[i].symbol)
    ensures |ws| == |es|
  {
    seq(|es|, i requires 0 <= i < |es| =>
      Write(ResolvedIndex(m, es[i].state), SymbolToInd(es[i].symbol), es[i].prob))
  }

  /** The transitions before the first rejected one address cells of the `n x n` matrix. */
  lemma AcceptedTransitionsFit(m: map<string, nat>, n: nat, ts: seq<Transition>, k: nat)
    requires IndicesFit(m, n)
    requires k <= FirstFailure(TransitionVerdicts(m, n, ts))
    ensures Fits(TransitionWrites(m, ts[..k]), n, n)
  {
    forall i | 0 <= i < k
      ensures TransitionWrites(m, ts[..k])[i].row < n && TransitionWrites(m, ts[..k])[i].col < n
    {
      assert TransitionVerdicts(m, n, ts)[i].None?;
    }
  }

  /** The emissions before the first rejected one address cells of the `n x alphabetSize` matrix. */
  lemma AcceptedEmissionsFit(m: map<string, nat>, n: nat, alphabetSize: nat, es: seq<Emission>, k: nat)
    requires IndicesFit(m, n)
    requires forall i :: 0 <= i < |es| ==> IsSymbol(es[i].symbol) && SymbolToInd(es[i].symbol) < alphabetSize
    requires k <= FirstFailure(EmissionVerdicts(m, n, es))
    ensures Fits(EmissionWrites(m, es[..k]), n, alphabetSize)
  {
    forall i | 0 <= i < k ensures EmissionWrites(m, es[..k])[i].row < n {
      assert EmissionVerdicts(m, n, es)[i].None?;
    }
  }

  /** The `n x n` transition matrix once the transitions before the first rejected one are written. */
  function TransitionTable(m: map<string, nat>, n: nat, ts: seq<Transition>): (t: seq<seq<real>>)
    requires IndicesFit(m, n)
    ensures IsMatrix(t, n, n)
  {
    var k := FirstFailure(TransitionVerdicts(m, n, ts));
    AcceptedTransitionsFit(m, n, ts, k);
    ApplyWrites(Zeros(n, n), n, n, TransitionWrites(m, ts[..k]))
  }

  /** The names the transitions phase looks up: those of every transition up to the first rejected one. */
  function TransitionsLookedUp(m: map<string, nat>, n: nat, ts: seq<Transition>): set<string>
  {
    var k := FirstFailure(TransitionVerdicts(m, n, ts));
    TransitionNames(ts[..if k < |ts| then k + 1 else k])
  }

  /** The error of the first rejected transition, if one is rejected. */
  function TransitionsError(m: map<string, nat>, n: nat, ts: seq<Transition>): Option<DomainError>
  {
    var k := FirstFailure(TransitionVerdicts(m, n, ts));
    if k < |ts| then TransitionVerdict(m, n, ts[k]) else None
  }

  /** The `n x alphabetSize` emission matrix once the emissions before the first rejected one are written. */
  function EmissionTable(m: map<string, nat>, n: nat, alphabetSize: nat, es: seq<Emission>): (t: seq<seq<real>>)
    requires IndicesFit(m, n)
    requires forall i :: 0 <= i < |es| ==> IsSymbol(es[i].symbol) && SymbolToInd(es[i].symbol) < alphabetSize
    ensures IsMatrix(t, n, alphabetSize)
  {
    var j := FirstFailure(EmissionVerdicts(m, n, es));
    AcceptedEmissionsFit(m, n, alphabetSize, es, j);
    ApplyWrites(Zeros(n, alphabetSize), n, alphabetSize, EmissionWrites(m, es[..j]))
  }

  /** The names the emissions phase looks up: those of every emission up to the first rejected one. */
  function EmissionsLookedUp(m: map<string, nat>, n: nat, es: seq<Emission>): set<string>
  {
    var j := FirstFailure(EmissionVerdicts(m, n, es));
    EmissionNames(es[..if j < |es| then j + 1 else j])
  }

  /** The error of the first rejected emission, if one is rejected. */
  function EmissionsError(m: map<string, nat>, n: nat, es: seq<Emission>): Option<DomainError>
  {
    var j := FirstFailure(EmissionVerdicts(m, n, es));
    if j < |es| then EmissionVerdict(m, n, es[j]) else None
  }

  /** A touched registry checks and writes emissions as the untouched one does. */
  lemma TouchedChecksAlike(m: map<string, nat>, keys: set<string>, n: nat, es: seq<Emission>)
    requires forall i :: 0 <= i < |es| ==> IsSymbol(es[i].symbol)
    ensures EmissionVerdicts(TouchAll(m, keys), n, es) == EmissionVerdicts(m, n, es)
    ensures EmissionWrites(TouchAll(m, keys), es) == EmissionWrites(m, es)
  {
  }

  /**
   Names inserted by `operator[]` read back as 0, as they did while missing:
   after the transitions phase has touched the registry, the emissions phase
   checks, writes and looks up exactly as it would on the untouched one.
   */
  lemma TouchedRegistryAlike(m: map<string, nat>, keys: set<string>, n: nat, alphabetSize: nat, es: seq<Emission>)
    requires IndicesFit(m, n)
    requires forall i :: 0 <= i < |es| ==> IsSymbol(es[i].symbol) && SymbolToInd(es[i].symbol) < alphabetSize
    ensures IndicesFit(TouchAll(m, keys), n)
    ensures EmissionTable(TouchAll(m, keys), n, alphabetSize, es) == EmissionTable(m, n, alphabetSize, es)
    ensures EmissionsLookedUp(TouchAll(m, keys), n, es) == EmissionsLookedUp(m, n, es)
    ensures EmissionsError(TouchAll(m, keys), n, es) == EmissionsError(m, n, es)
    ensures forall more :: TouchAll(TouchAll(m, keys), more) == TouchAll(m, keys + more)
  {
    var touched := TouchAll(m, keys);
    TouchedChecksAlike(m, keys, n, es);
    var j := FirstFailure(EmissionVerdicts(m, n, es));
    TouchedChecksAlike(m, keys, n, es[..j]);
    EmissionsStopAt(m, n, alphabetSize, es, j);
    EmissionsStopAt(touched, n, alphabetSize, es, j);
  }

  // ----------------------------------------------------------------------
  // Model construction, as a function of the prior model and the input

  /** The model's four fields. */
  datatype ModelTables = ModelTables(
    stateNameToIndex: map<string, nat>,
    alphabetSize: nat,
    transitionProb: seq<seq<real>>,
    stateSymbolProb: seq<seq<real>>)

  /** The fields after reading, and the domain error raised, if any. */
  datatype Built = Built(tables: ModelTables, error: Option<DomainError>)

  /**
   What reading needs of its input: the registry's existing indices fit the
   new state count, and every emission symbol is a letter inside the alphabet.
   */
  predicate ReadModelPre(prior: map<string, nat>, names: seq<string>, alphabetSize: nat, es: seq<Emission>)
  {
    IndicesFit(prior, |names|) &&
    forall i :: 0 <= i < |es| ==> IsSymbol(es[i].symbol) && SymbolToInd(es[i].symbol) < alphabetSize
  }

  /**
   Reading a model: register the names, fill the transition matrix up to the
   first rejected transition, then the emission matrix up to the first
   rejected emission. On a rejection the cells written so far stay written,
   and the emission matrix is untouched if a transition was rejected.
   Every name looked up has been inserted into the registry with index 0 if
   it was missing; such insertions never change what a later lookup yields,
   so all lookups are resolved against the registry as registration left it.
   */
  function BuildModel(prior: ModelTables, names: seq<string>, alphabetSize: nat,
                      ts: seq<Transition>, es: seq<Emission>): Built
    requires ReadModelPre(prior.stateNameToIndex, names, alphabetSize, es)
  {
    var n := |names|;
    var reg := RegisterNames(prior.stateNameToIndex, names);
    RegisteredIndicesFit(prior.stateNameToIndex, names);
    var trans := TransitionTable(reg, n, ts);
    var looked := TransitionsLookedUp(reg, n, ts);
    var err := TransitionsError(reg, n, ts);
    if err.Some? then
      Built(ModelTables(TouchAll(reg, looked), alphabetSize, trans, prior.stateSymbolProb), err)
    else
      Built(ModelTables(TouchAll(reg, looked + EmissionsLookedUp(reg, n, es)), alphabetSize, trans,
                        EmissionTable(reg, n, alphabetSize, es)),
            EmissionsError(reg, n, es))
  }

  // ----------------------------------------------------------------------
  // The model object

  class Model {
    var stateNameToIndex: map<string, nat>
    var alphabetSize: nat
    var transitionProb: seq<seq<real>>
    var stateSymbolProb: seq<seq<real>>

    constructor ()
      ensures stateNameToIndex == map[] && alphabetSize == 0
      ensures transitionProb == [] && stateSymbolProb == []
    {
      stateNameToIndex := map[];
      alphabetSize := 0;
      transitionProb := [];
      stateSymbolProb := [];
    }

    function Tables(): ModelTables
      reads this
    {
      ModelTables(stateNameToIndex, alphabetSize, transitionProb, stateSymbolProb)
    }

    /**
     Reads a model from its tokens: the state names in index order, the
     alphabet size, the transitions and the emissions. Returns the domain
     error it raises, leaving the fields as they were at that point.
     */
    method ReadModel(names: seq<string>, alphabet: nat, transitions: seq<Transition>, emissions: seq<Emission>)
      returns (err: Option<DomainError>)
      requires ReadModelPre(stateNameToIndex, names, alphabet, emissions)
      modifies this
      ensures Built(Tables(), err) == BuildModel(old(Tables()), names, alphabet, transitions, emissions)
    {
      ghost var prior := Tables();
      var nstates := |names|;
      ReadStates(names);
      ghost var reg := stateNameToIndex;
      RegisteredIndicesFit(prior.stateNameToIndex, names);

      alphabetSize := alphabet;

      err := ReadTransitions(nstates, transitions);
      if err.Some? {
        return;
      }
      ghost var looked := TransitionsLookedUp(reg, nstates, transitions);
      TouchedRegistryAlike(reg, looked, nstates, alphabet, emissions);
      err := ReadEmissions(nstates, emissions);
    }

    /** The states part: `stateNameToIndex[names[i]] = i` for every i in turn. */
    method ReadStates(names: seq<string>)
      modifies this
      ensures stateNameToIndex == RegisterNames(old(stateNameToIndex), names)
      ensures alphabetSize == old(alphabetSize) && transitionProb == old(transitionProb)
      ensures stateSymbolProb == old(stateSymbolProb)
    {
      var i := 0;
      while i < |names|
        invariant 0 <= i <= |names|
        invariant stateNameToIndex == RegisterNames(old(stateNameToIndex), names[..i])
        invariant alphabetSize == old(alphabetSize) && transitionProb == old(transitionProb)
        invariant stateSymbolProb == old(stateSymbolProb)
      {
        assert names[..i + 1][..i] == names[..i];
        stateNameToIndex := stateNameToIndex[names[i] := i];
        i := i + 1;
      }
      assert names[..i] == names;
    }

    /**
     The transitions part: a zeroed `nstates x nstates` matrix, then each
     transition checked and written in turn, stopping at the first rejected one.
     */
    method ReadTransitions(nstates: nat, transitions: seq<Transition>) returns (err: Option<DomainError>)
      requires IndicesFit(stateNameToIndex, nstates)
      modifies this
      ensures var reg := old(stateNameToIndex);
        && transitionProb == TransitionTable(reg, nstates, transitions)
        && stateNameToIndex == TouchAll(reg, TransitionsLookedUp(reg, nstates, transitions))
        && err == TransitionsError(reg, nstates, transitions)
      ensures alphabetSize == old(alphabetSize) && stateSymbolProb == old(stateSymbolProb)
    {
      ghost var reg := stateNameToIndex;
      ghost var k := FirstFailure(TransitionVerdicts(reg, nstates, transitions));
      transitionProb := Zeros(nstates, nstates);
      var i := 0;
      while i < |transitions|
        invariant 0 <= i <= k
        invariant stateNameToIndex == TouchAll(reg, TransitionNames(transitions[..i]))
        invariant Fits(TransitionWrites(reg, transitions[..i]), nstates, nstates)
        invariant transitionProb == ApplyWrites(Zeros(nstates, nstates), nstates, nstates, TransitionWrites(reg, transitions[..i]))
        invariant alphabetSize == old(alphabetSize) && stateSymbolProb == old(stateSymbolProb)
      {
        var t := transitions[i];
        TransitionLoopStep(reg, nstates, transitions, i, stateNameToIndex, transitionProb);
        var fromInd := ResolvedIndex(stateNameToIndex, t.from);
        stateNameToIndex := Touch(stateNameToIndex, t.from);
        var toInd := ResolvedIndex(stateNameToIndex, t.to);
        stateNameToIndex := Touch(stateNameToIndex, t.to);

        if fromInd + 1 == nstates {
          TransitionsStopAt(reg, nstates, transitions, i);
          err := Some(TransitionFromEnd);
          return;
        }
        if toInd == 0 {
          TransitionsStopAt(reg, nstates, transitions, i);
          err := Some(TransitionToStart);
          return;
        }
        transitionProb := transitionProb[fromInd := transitionProb[fromInd][toInd := t.prob]];
        i := i + 1;
      }
      TransitionsStopAt(reg, nstates, transitions, i);
      err := None;
    }

    /**
     The emissions part: a zeroed `nstates x alphabetSize` matrix, then each
     emission checked and written in turn, stopping at the first rejected one.
     */
    method ReadEmissions(nstates: nat, emissions: seq<Emission>) returns (err: Option<DomainError>)
      requires IndicesFit(stateNameToIndex, nstates)
      requires forall i :: 0 <= i < |emissions| ==>
        IsSymbol(emissions[i].symbol) && SymbolToInd(emissions[i].symbol) < alphabetSize
      modifies this
      ensures alphabetSize == old(alphabetSize) && transitionProb == old(transitionProb)
      ensures var reg := old(stateNameToIndex);
        && stateSymbolProb == EmissionTable(reg, nstates, alphabetSize, emissions)
        && stateNameToIndex == TouchAll(reg, EmissionsLookedUp(reg, nstates, emissions))
        && err == EmissionsError(reg, nstates, emissions)
    {
      ghost var reg := stateNameToIndex;
      ghost var j := FirstFailure(EmissionVerdicts(reg, nstates, emissions));
      stateSymbolProb := Zeros(nstates, alphabetSize);
      var i := 0;
      while i < |emissions|
        invariant 0 <= i <= j
        invariant stateNameToIndex == TouchAll(reg, EmissionNames(emissions[..i]))
        invariant Fits(EmissionWrites(reg, emissions[..i]), nstates, alphabetSize)
        invariant stateSymbolProb == ApplyWrites(Zeros(nstates, alphabetSize), nstates, alphabetSize, EmissionWrites(reg, emissions[..i]))
        invariant alphabetSize == old(alphabetSize) && transitionProb == old(transitionProb)
      {
        var e := emissions[i];
        EmissionLoopStep(reg, nstates, alphabetSize, emissions, i, stateNameToIndex, stateSymbolProb);
        var stateInd := ResolvedIndex(stateNameToIndex, e.state);
        stateNameToIndex := Touch(stateNameToIndex, e.state);
        var symbolInd := SymbolToInd(e.symbol);

        if stateInd == 0 || stateInd + 1 == nstates {
          EmissionsStopAt(reg, nstates, alphabetSize, emissions, i);
          err := Some(EmissionFromBoundary);
          return;
        }
        stateSymbolProb := stateSymbolProb[stateInd := stateSymbolProb[stateInd][symbolInd := e.prob]];
        i := i + 1;
      }
      EmissionsStopAt(reg, nstates, alphabetSize, emissions, i);
      err := None;
    }
  }

  /** The transitions phase in terms of `k`, the first rejected transition or their number. */
  lemma TransitionsStopAt(m: map<string, nat>, n: nat, ts: seq<Transition>, k: nat)
    requires IndicesFit(m, n) && k == FirstFailure(TransitionVerdicts(m, n, ts))
    ensures Fits(TransitionWrites(m, ts[..k]), n, n)
    ensures TransitionTable(m, n, ts) == ApplyWrites(Zeros(n, n), n, n, TransitionWrites(m, ts[..k]))
    ensures TransitionsLookedUp(m, n, ts) == TransitionNames(ts[..if k < |ts| then k + 1 else k])
    ensures TransitionsError(m, n, ts) == if k < |ts| then TransitionVerdict(m, n, ts[k]) else None
  {
    AcceptedTransitionsFit(m, n, ts, k);
  }

  /** The emissions phase in terms of `j`, the first rejected emission or their number. */
  lemma EmissionsStopAt(m: map<string, nat>, n: nat, alphabetSize: nat, es: seq<Emission>, j: nat)
    requires IndicesFit(m, n)
    requires forall i :: 0 <= i < |es| ==> IsSymbol(es[i].symbol) && SymbolToInd(es[i].symbol) < alphabetSize
    requires j == FirstFailure(EmissionVerdicts(m, n, es))
    ensures Fits(EmissionWrites(m, es[..j]), n, alphabetSize)
    ensures EmissionTable(m, n, alphabetSize, es) == ApplyWrites(Zeros(n, alphabetSize), n, alphabetSize, EmissionWrites(m, es[..j]))
    ensures EmissionsLookedUp(m, n, es) == EmissionNames(es[..if j < |es| then j + 1 else j])
    ensures EmissionsError(m, n, es) == if j < |es| then EmissionVerdict(m, n, es[j]) else None
  {
    AcceptedEmissionsFit(m, n, alphabetSize, es, j);
  }

  /** One round of the transitions loop: the lookups, the check and the write. */
  lemma TransitionLoopStep(reg: map<string, nat>, n: nat, ts: seq<Transition>, i: nat,
                           live: map<string, nat>, table: seq<seq<real>>)
    requires IndicesFit(reg, n)
    requires i < |ts| && i <= FirstFailure(TransitionVerdicts(reg, n, ts))
    requires live == TouchAll(reg, TransitionNames(ts[..i]))
    requires Fits(TransitionWrites(reg, ts[..i]), n, n)
    requires table == ApplyWrites(Zeros(n, n), n, n, TransitionWrites(reg, ts[..i]))
    ensures var t := ts[i];
      var fromInd := ResolvedIndex(live, t.from);
      var toInd := ResolvedIndex(Touch(live, t.from), t.to);
      && Touch(Touch(live, t.from), t.to) == TouchAll(reg, TransitionNames(ts[..i + 1]))
      && (fromInd + 1 == n || toInd == 0 ==>
            FirstFailure(TransitionVerdicts(reg, n, ts)) == i &&
            TransitionVerdict(reg, n, t) == (if fromInd + 1 == n then Some(TransitionFromEnd) else Some(TransitionToStart)))
      && (fromInd + 1 != n && toInd != 0 ==>
            && i + 1 <= FirstFailure(TransitionVerdicts(reg, n, ts))
            && fromInd < n && toInd < n
            && Fits(TransitionWrites(reg, ts[..i + 1]), n, n)
            && table[fromInd := table[fromInd][toInd := t.prob]] ==
               ApplyWrites(Zeros(n, n), n, n, TransitionWrites(reg, ts[..i + 1])))
  {
    var t := ts[i];
    TransitionLookups(reg, ts, i, live);
    assert TransitionVerdicts(reg, n, ts)[i] == TransitionVerdict(reg, n, t);
    var fromInd := ResolvedIndex(live, t.from);
    var toInd := ResolvedIndex(Touch(live, t.from), t.to);
    if fromInd + 1 == n || toInd == 0 {
      FirstFailureHere(TransitionVerdicts(reg, n, ts), i);
    } else {
      FirstFailureNotYet(TransitionVerdicts(reg, n, ts), i);
      TransitionWriteStep(reg, n, ts, i, table);
    }
  }

  /** The two lookups of a transition, against the registry as touched so far. */
  lemma TransitionLookups(reg: map<string, nat>, ts: seq<Transition>, i: nat, live: map<string, nat>)
    requires i < |ts|
    requires live == TouchAll(reg, TransitionNames(ts[..i]))
    ensures ResolvedIndex(live, ts[i].from) == ResolvedIndex(reg, ts[i].from)
    ensures ResolvedIndex(Touch(live, ts[i].from), ts[i].to) == ResolvedIndex(reg, ts[i].to)
    ensures Touch(Touch(live, ts[i].from), ts[i].to) == TouchAll(reg, TransitionNames(ts[..i + 1]))
  {
    var t := ts[i];
    assert ts[..i + 1] == ts[..i] + [t];
    TouchAllStep(reg, TransitionNames(ts[..i]), t.from);
    TouchAllStep(reg, TransitionNames(ts[..i]) + {t.from}, t.to);
    assert TransitionNames(ts[..i + 1]) == TransitionNames(ts[..i]) + {t.from} + {t.to};
  }

  /** The write of an accepted transition extends the written prefix by one. */
  lemma TransitionWriteStep(reg: map<string, nat>, n: nat, ts: seq<Transition>, i: nat, table: seq<seq<real>>)
    requires IndicesFit(reg, n)
    requires i < |ts| && TransitionVerdict(reg, n, ts[i]).None?
    requires Fits(TransitionWrites(reg, ts[..i]), n, n)
    requires table == ApplyWrites(Zeros(n, n), n, n, TransitionWrites(reg, ts[..i]))
    ensures var fromInd := ResolvedIndex(reg, ts[i].from);
      var toInd := ResolvedIndex(reg, ts[i].to);
      && fromInd < n && toInd < n
      && Fits(TransitionWrites(reg, ts[..i + 1]), n, n)
      && table[fromInd := table[fromInd][toInd := ts[i].prob]] ==
         ApplyWrites(Zeros(n, n), n, n, TransitionWrites(reg, ts[..i + 1]))
  {
    var ws := TransitionWrites(reg, ts[..i + 1]);
    assert ws[..i] == TransitionWrites(reg, ts[..i]);
  }

  /** One round of the emissions loop: the lookup, the check and the write. */
  lemma EmissionLoopStep(reg: map<string, nat>, n: nat, alphabetSize: nat, es: seq<Emission>, i: nat,
                         live: map<string, nat>, table: seq<seq<real>>)
    requires IndicesFit(reg, n)
    requires forall k :: 0 <= k < |es| ==> IsSymbol(es[k].symbol) && SymbolToInd(es[k].symbol) < alphabetSize
    requires i < |es| && i <= FirstFailure(EmissionVerdicts(reg, n, es))
    requires live == TouchAll(reg, EmissionNames(es[..i]))
    requires Fits(EmissionWrites(reg, es[..i]), n, alphabetSize)
    requires table == ApplyWrites(Zeros(n, alphabetSize), n, alphabetSize, EmissionWrites(reg, es[..i]))
    ensures var e := es[i];
      var stateInd := ResolvedIndex(live, e.state);
      && Touch(live, e.state) == TouchAll(reg, EmissionNames(es[..i + 1]))
      && (stateInd == 0 || stateInd + 1 == n ==>
            FirstFailure(EmissionVerdicts(reg, n, es)) == i &&
            EmissionVerdict(reg, n, e) == Some(EmissionFromBoundary))
      && (stateInd != 0 && stateInd + 1 != n ==>
            && i + 1 <= FirstFailure(EmissionVerdicts(reg, n, es))
            && stateInd < n
            && Fits(EmissionWrites(reg, es[..i + 1]), n, alphabetSize)
            && table[stateInd := table[stateInd][SymbolToInd(e.symbol) := e.prob]] ==
               ApplyWrites(Zeros(n, alphabetSize), n, alphabetSize, EmissionWrites(reg, es[..i + 1])))
  {
    var e := es[i];
    EmissionStep(reg, n, alphabetSize, es, i);
    TouchAllStep(reg, EmissionNames(es[..i]), e.state);
    assert EmissionVerdicts(reg, n, es)[i] == EmissionVerdict(reg, n, e);
    var stateInd := ResolvedIndex(live, e.state);
    assert stateInd == ResolvedIndex(reg, e.state);
    if stateInd == 0 || stateInd + 1 == n {
      FirstFailureHere(EmissionVerdicts(reg, n, es), i);
    } else {
      FirstFailureNotYet(EmissionVerdicts(reg, n, es), i);
      EmissionWriteStep(reg, n, alphabetSize, es, i, table);
    }
  }

  /** The write of an accepted emission extends the written prefix by one. */
  lemma EmissionWriteStep(reg: map<string, nat>, n: nat, alphabetSize: nat, es: seq<Emission>, i: nat,
                          table: seq<seq<real>>)
    requires IndicesFit(reg, n)
    requires forall k :: 0 <= k < |es| ==> IsSymbol(es[k].symbol) && SymbolToInd(es[k].symbol) < alphabetSize
    requires i < |es| && EmissionVerdict(reg, n, es[i]).None?
    requires Fits(EmissionWrites(reg, es[..i]), n, alphabetSize)
    requires table == ApplyWrites(Zeros(n, alphabetSize), n, alphabetSize, EmissionWrites(reg, es[..i]))
    ensures var stateInd := ResolvedIndex(reg, es[i].state);
      && stateInd < n
      && Fits(EmissionWrites(reg, es[..i + 1]), n, alphabetSize)
      && table[stateInd := table[stateInd][SymbolToInd(es[i].symbol) := es[i].prob]] ==
         ApplyWrites(Zeros(n, alphabetSize), n, alphabetSize, EmissionWrites(reg, es[..i + 1]))
  {
    var ws := EmissionWrites(reg, es[..i + 1]);
    assert ws[..i] == EmissionWrites(reg, es[..i]);
  }

  /** How the emission prefix grows by one item. */
  lemma EmissionStep(m: map<string, nat>, n: nat, alphabetSize: nat, es: seq<Emission>, i: nat)
    requires i < |es|
    requires forall k :: 0 <= k < |es| ==> IsSymbol(es[k].symbol)
    ensures EmissionNames(es[..i + 1]) == EmissionNames(es[..i]) + {es[i].state}
    ensures EmissionWrites(m, es[..i + 1]) == EmissionWrites(m, es[..i]) +
      [Write(ResolvedIndex(m, es[i].state), SymbolToInd(es[i].symbol), es[i].prob)]
  {
    assert es[..i + 1] == es[..i] + [es[i]];
  }

  // ----------------------------------------------------------------------
  // Properties of model construction

  /**
   The transitions phase fails exactly when some transition fails its check,
   with the error of the first that does.
   */
  lemma TransitionsErrorIs(m: map<string, nat>, n: nat, ts: seq<Transition>)
    ensures TransitionsError(m, n, ts).None? <==> forall i :: 0 <= i < |ts| ==> TransitionVerdict(m, n, ts[i]).None?
    ensures forall i ::
      (0 <= i < |ts| && TransitionVerdict(m, n, ts[i]).Some? &&
       forall i' :: 0 <= i' < i ==> TransitionVerdict(m, n, ts[i']).None?)
      ==> TransitionsError(m, n, ts) == TransitionVerdict(m, n, ts[i])
  {
    var tv := TransitionVerdicts(m, n, ts);
    FirstFailureIs(tv);
    assert forall i :: 0 <= i < |ts| ==> tv[i] == TransitionVerdict(m, n, ts[i]);
  }

  /** The emissions phase fails exactly when some emission fails its check. */
  lemma EmissionsErrorIs(m: map<string, nat>, n: nat, es: seq<Emission>)
    ensures EmissionsError(m, n, es).None? <==> forall j :: 0 <= j < |es| ==> EmissionVerdict(m, n, es[j]).None?
    ensures EmissionsError(m, n, es).Some? ==> EmissionsError(m, n, es) == Some(EmissionFromBoundary)
  {
    var ev := EmissionVerdicts(m, n, es);
    FirstFailureIs(ev);
    assert forall j :: 0 <= j < |es| ==> ev[j] == EmissionVerdict(m, n, es[j]);
  }

  /**
   A build fails exactly when some transition or some emission fails its
   check; the error reported is that of the first transition that fails,
   and only when every transition passes, that of the first emission.
   */
  lemma BuildModelFails(prior: ModelTables, names: seq<string>, alphabet: nat,
                        ts: seq<Transition>, es: seq<Emission>)
    requires ReadModelPre(prior.stateNameToIndex, names, alphabet, es)
    ensures var n := |names|;
      var reg := RegisterNames(prior.stateNameToIndex, names);
      var b := BuildModel(prior, names, alphabet, ts, es);
      && (b.error.None? <==>
            (forall i :: 0 <= i < |ts| ==> TransitionVerdict(reg, n, ts[i]).None?) &&
            (forall j :: 0 <= j < |es| ==> EmissionVerdict(reg, n, es[j]).None?))
      && (forall i ::
            (0 <= i < |ts| && TransitionVerdict(reg, n, ts[i]).Some? &&
             forall i' :: 0 <= i' < i ==> TransitionVerdict(reg, n, ts[i']).None?)
            ==> b.error == TransitionVerdict(reg, n, ts[i]))
      && (forall j ::
            (0 <= j < |es| && EmissionVerdict(reg, n, es[j]).Some? &&
             forall i :: 0 <= i < |ts| ==> TransitionVerdict(reg, n, ts[i]).None?)
            ==> b.error == Some(EmissionFromBoundary))
  {
    var reg := RegisterNames(prior.stateNameToIndex, names);
    TransitionsErrorIs(reg, |names|, ts);
    EmissionsErrorIs(reg, |names|, es);
  }

  /**
   The source check runs first: a first failing transition whose source is
   the END state reports `TransitionFromEnd` even when its target is START.
   */
  lemma FromEndReportedFirst(prior: ModelTables, names: seq<string>, alphabet: nat,
                             ts: seq<Transition>, es: seq<Emission>, i: nat)
    requires ReadModelPre(prior.stateNameToIndex, names, alphabet, es)
    requires i < |ts|
    requires var reg := RegisterNames(prior.stateNameToIndex, names);
      && (forall i' :: 0 <= i' < i ==> TransitionVerdict(reg, |names|, ts[i']).None?)
      && ResolvedIndex(reg, ts[i].from) + 1 == |names|
      && ResolvedIndex(reg, ts[i].to) == 0
    ensures BuildModel(prior, names, alphabet, ts, es).error == Some(TransitionFromEnd)
  {
    BuildModelFails(prior, names, alphabet, ts, es);
  }

  /**
   Each cell of the built transition matrix holds the probability of the
   last accepted transition writing it, and 0 when none does; the matrix
   is `nstates x nstates`.
   */
  lemma BuiltTransitionCell(prior: ModelTables, names: seq<string>, alphabet: nat,
                            ts: seq<Transition>, es: seq<Emission>, from: nat, to: nat)
    requires ReadModelPre(prior.stateNameToIndex, names, alphabet, es)
    requires from < |names| && to < |names|
    ensures var n := |names|;
      var reg := RegisterNames(prior.stateNameToIndex, names);
      var k := FirstFailure(TransitionVerdicts(reg, n, ts));
      var tp := BuildModel(prior, names, alphabet, ts, es).tables.transitionProb;
      && IsMatrix(tp, n, n)
      && tp[from][to] == match LastWrite(TransitionWrites(reg, ts[..k]), from, to)
                         case Some(p) => p
                         case None => 0.0
  {
    var n := |names|;
    var reg := RegisterNames(prior.stateNameToIndex, names);
    var k := FirstFailure(TransitionVerdicts(reg, n, ts));
    RegisteredIndicesFit(prior.stateNameToIndex, names);
    TransitionsStopAt(reg, n, ts, k);
    ApplyWritesAt(Zeros(n, n), n, n, TransitionWrites(reg, ts[..k]), from, to);
  }

  /**
   When every transition passes, each cell of the built emission matrix
   holds the probability of the last accepted emission writing it, and 0
   when none does; the matrix is `nstates x alphabetSize`.
   */
  lemma BuiltEmissionCell(prior: ModelTables, names: seq<string>, alphabet: nat,
                          ts: seq<Transition>, es: seq<Emission>, state: nat, symbol: nat)
    requires ReadModelPre(prior.stateNameToIndex, names, alphabet, es)
    requires forall i :: 0 <= i < |ts| ==>
      TransitionVerdict(RegisterNames(prior.stateNameToIndex, names), |names|, ts[i]).None?
    requires state < |names| && symbol < alphabet
    ensures var n := |names|;
      var reg := RegisterNames(prior.stateNameToIndex, names);
      var j := FirstFailure(EmissionVerdicts(reg, n, es));
      var sp := BuildModel(prior, names, alphabet, ts, es).tables.stateSymbolProb;
      && IsMatrix(sp, n, alphabet)
      && sp[state][symbol] == match LastWrite(EmissionWrites(reg, es[..j]), state, symbol)
                              case Some(p) => p
                              case None => 0.0
  {
    var n := |names|;
    var reg := RegisterNames(prior.stateNameToIndex, names);
    TransitionsErrorIs(reg, n, ts);
    var j := FirstFailure(EmissionVerdicts(reg, n, es));
    RegisteredIndicesFit(prior.stateNameToIndex, names);
    EmissionsStopAt(reg, n, alphabet, es, j);
    ApplyWritesAt(Zeros(n, alphabet), n, alphabet, EmissionWrites(reg, es[..j]), state, symbol);
  }

  /**
   The boundary rows and columns of a built model stay 0: nothing enters
   START, nothing leaves END and, once the emissions are read, neither
   boundary state emits.
   */
  lemma BuiltBoundariesZero(prior: ModelTables, names: seq<string>, alphabet: nat,
                            ts: seq<Transition>, es: seq<Emission>)
    requires ReadModelPre(prior.stateNameToIndex, names, alphabet, es)
    requires |names| > 0
    ensures var n := |names|;
      var b := BuildModel(prior, names, alphabet, ts, es);
      var tp := b.tables.transitionProb;
      var sp := b.tables.stateSymbolProb;
      && (forall p, q :: 0 <= p < n && 0 <= q < n && (q == 0 || p == n - 1) ==> tp[p][q] == 0.0)
      && (b.error.None? ==> forall s, c :: (s == 0 || s == n - 1) && 0 <= c < alphabet ==> sp[s][c] == 0.0)
  {
    var n := |names|;
    var reg := RegisterNames(prior.stateNameToIndex, names);
    RegisteredIndicesFit(prior.stateNameToIndex, names);
    var b := BuildModel(prior, names, alphabet, ts, es);
    TransitionTableBoundaries(reg, n, ts);
    assert b.tables.transitionProb == TransitionTable(reg, n, ts);
    if b.error.None? {
      assert TransitionsError(reg, n, ts).None?;
      assert b.tables.stateSymbolProb == EmissionTable(reg, n, alphabet, es);
      EmissionTableBoundaries(reg, n, alphabet, es);
    }
  }

  /** No accepted transition enters START or leaves END, so those cells stay 0. */
  lemma TransitionTableBoundaries(m: map<string, nat>, n: nat, ts: seq<Transition>)
    requires IndicesFit(m, n) && n > 0
    ensures forall p, q :: 0 <= p < n && 0 <= q < n && (q == 0 || p == n - 1) ==>
      TransitionTable(m, n, ts)[p][q] == 0.0
  {
    var k := FirstFailure(TransitionVerdicts(m, n, ts));
    TransitionsStopAt(m, n, ts, k);
    var tws := TransitionWrites(m, ts[..k]);
    forall i | 0 <= i < |tws| ensures tws[i].col != 0 && tws[i].row != n - 1 {
      assert TransitionVerdicts(m, n, ts)[i] == TransitionVerdict(m, n, ts[i]);
    }
    var t := TransitionTable(m, n, ts);
    forall p, q | 0 <= p < n && 0 <= q < n && (q == 0 || p == n - 1) ensures t[p][q] == 0.0 {
      ApplyWritesAt(Zeros(n, n), n, n, tws, p, q);
      assert LastWrite(tws, p, q).None?;
    }
  }

  /** No accepted emission is on START or END, so their rows stay 0. */
  lemma EmissionTableBoundaries(m: map<string, nat>, n: nat, alphabetSize: nat, es: seq<Emission>)
    requires IndicesFit(m, n) && n > 0
    requires forall i :: 0 <= i < |es| ==> IsSymbol(es[i].symbol) && SymbolToInd(es[i].symbol) < alphabetSize
    ensures forall s, c :: (s == 0 || s == n - 1) && 0 <= c < alphabetSize ==>
      EmissionTable(m, n, alphabetSize, es)[s][c] == 0.0
  {
    var j := FirstFailure(EmissionVerdicts(m, n, es));
    EmissionsStopAt(m, n, alphabetSize, es, j);
    var ews := EmissionWrites(m, es[..j]);
    forall i | 0 <= i < |ews| ensures ews[i].row != 0 && ews[i].row != n - 1 {
      assert EmissionVerdicts(m, n, es)[i] == EmissionVerdict(m, n, es[i]);
    }
    var t := EmissionTable(m, n, alphabetSize, es);
    forall s, c | (s == 0 || s == n - 1) && 0 <= c < alphabetSize ensures t[s][c] == 0.0 {
      ApplyWritesAt(Zeros(n, alphabetSize), n, alphabetSize, ews, s, c);
      assert LastWrite(ews, s, c).None?;
    }
  }

  /**
   A name that was neither declared nor registered before resolves to 0,
   the START state: as a transition target or an emitting state it makes
   the build fail, and as the source of transitions that all pass it ends
   up registered with index 0, whether or not an emission fails later.
   */
  lemma UnknownNamesResolveToStart(prior: ModelTables, names: seq<string>, alphabet: nat,
                                   ts: seq<Transition>, es: seq<Emission>)
    requires ReadModelPre(prior.stateNameToIndex, names, alphabet, es)
    ensures var b := BuildModel(prior, names, alphabet, ts, es);
      var unknown := (x: string) => x !in names && x !in prior.stateNameToIndex;
      && ((exists i :: 0 <= i < |ts| && unknown(ts[i].to)) ==> b.error.Some?)
      && ((exists j :: 0 <= j < |es| && unknown(es[j].state)) ==> b.error.Some?)
      && ((forall i :: 0 <= i < |ts| ==>
             TransitionVerdict(RegisterNames(prior.stateNameToIndex, names), |names|, ts[i]).None?) ==>
          forall i :: 0 <= i < |ts| && unknown(ts[i].from) ==>
            ts[i].from in b.tables.stateNameToIndex && b.tables.stateNameToIndex[ts[i].from] == 0)
  {
    var n := |names|;
    var reg := RegisterNames(prior.stateNameToIndex, names);
    BuildModelFails(prior, names, alphabet, ts, es);
    forall x | x !in names && x !in prior.stateNameToIndex ensures x !in reg {
      RegisterNamesAt(prior.stateNameToIndex, names, x);
    }
    if forall i :: 0 <= i < |ts| ==> TransitionVerdict(reg, n, ts[i]).None? {
      PassingSourcesRegisteredAtStart(prior, names, alphabet, ts, es);
    }
  }

  /** When every transition passes, each unknown source name is registered with index 0. */
  lemma PassingSourcesRegisteredAtStart(prior: ModelTables, names: seq<string>, alphabet: nat,
                                        ts: seq<Transition>, es: seq<Emission>)
    requires ReadModelPre(prior.stateNameToIndex, names, alphabet, es)
    requires forall i :: 0 <= i < |ts| ==>
      TransitionVerdict(RegisterNames(prior.stateNameToIndex, names), |names|, ts[i]).None?
    ensures var reg := BuildModel(prior, names, alphabet, ts, es).tables.stateNameToIndex;
      forall i :: 0 <= i < |ts| && ts[i].from !in names && ts[i].from !in prior.stateNameToIndex ==>
        ts[i].from in reg && reg[ts[i].from] == 0
  {
    var n := |names|;
    var reg := RegisterNames(prior.stateNameToIndex, names);
    RegisteredIndicesFit(prior.stateNameToIndex, names);
    TransitionsAllPass(reg, n, ts);
    assert BuildModel(prior, names, alphabet, ts, es).tables.stateNameToIndex ==
      TouchAll(reg, TransitionNames(ts) + EmissionsLookedUp(reg, n, es));
    forall i | 0 <= i < |ts| && ts[i].from !in names && ts[i].from !in prior.stateNameToIndex
      ensures ts[i].from in TransitionNames(ts) && ts[i].from !in reg
    {
      assert ts[i] in ts;
      RegisterNamesAt(prior.stateNameToIndex, names, ts[i].from);
    }
  }

  /** When every transition passes, the phase reports no error and has looked up every name. */
  lemma TransitionsAllPass(m: map<string, nat>, n: nat, ts: seq<Transition>)
    requires forall i :: 0 <= i < |ts| ==> TransitionVerdict(m, n, ts[i]).None?
    ensures TransitionsError(m, n, ts).None?
    ensures TransitionsLookedUp(m, n, ts) == TransitionNames(ts)
  {
    var tv := TransitionVerdicts(m, n, ts);
    assert forall i :: 0 <= i < |ts| ==> tv[i] == TransitionVerdict(m, n, ts[i]);
    FirstFailureIs(tv);
    assert ts[..|ts|] == ts;
  }

  /** With distinct state names, the built registry maps the i-th name to i. */
  lemma BuiltRegistryIndexesNames(prior: ModelTables, names: seq<string>, alphabet: nat,
                                  ts: seq<Transition>, es: seq<Emission>, i: nat)
    requires ReadModelPre(prior.stateNameToIndex, names, alphabet, es)
    requires forall a, b :: 0 <= a < b < |names| ==> names[a] != names[b]
    requires i < |names|
    ensures var m := BuildModel(prior, names, alphabet, ts, es).tables.stateNameToIndex;
      names[i] in m && m[names[i]] == i
  {
    RegisterDistinctNames(prior.stateNameToIndex, names, i);
  }

  // ----------------------------------------------------------------------
  // Experiment data

  /** The lookup `stateNameToIndex.at(stateName)` of one observation. */
  function LookupVerdict(m: map<string, nat>, o: Observation): Option<LookupError>
  {
    if o.stateName in m then None else Some(UnknownStateName(o.stateName))
  }

  function LookupVerdicts(m: map<string, nat>, trace: seq<Observation>): (vs: seq<Option<LookupError>>)
    ensures |vs| == |trace|
  {
    seq(|trace|, i requires 0 <= i < |trace| => LookupVerdict(m, trace[i]))
  }

  /** The records of observations whose names are all known, one per observation, in order. */
  function ResolveObservations(m: map<string, nat>, trace: seq<Observation>): (rs: seq<StepRecord>)
    requires forall i :: 0 <= i < |trace| ==> trace[i].stateName in m && IsSymbol(trace[i].symbol)
    ensures |rs| == |trace|
    ensures forall i :: 0 <= i < |trace| ==>
      && rs[i].step == trace[i].step
      && rs[i].state == m[trace[i].stateName]
      && IsSymbol(trace[i].symbol) && rs[i].symbol < 26 && ('a' as int + rs[i].symbol) as char == trace[i].symbol[0]
  {
    seq(|trace|, i requires 0 <= i < |trace| =>
      StepRecord(trace[i].step, m[trace[i].stateName], SymbolToInd(trace[i].symbol)))
  }

  /** Resolving one more observation appends its record. */
  lemma ResolveStep(m: map<string, nat>, trace: seq<Observation>, i: nat)
    requires i < |trace|
    requires forall j :: 0 <= j <= i ==> trace[j].stateName in m && IsSymbol(trace[j].symbol)
    ensures ResolveObservations(m, trace[..i + 1]) == ResolveObservations(m, trace[..i]) +
      [StepRecord(trace[i].step, m[trace[i].stateName], SymbolToInd(trace[i].symbol))]
  {
  }

  class ExperimentData {
    var timeStateSymbol: seq<StepRecord>

    constructor ()
      ensures timeStateSymbol == []
    {
      timeStateSymbol := [];
    }

    /**
     Appends one record per observation, resolving its state name against
     the model's registry, and stops with a lookup error at the first name
     the registry does not hold; the records appended before it stay.
     */
    method ReadExperimentData(model: Model, trace: seq<Observation>) returns (err: Option<LookupError>)
      requires forall i :: 0 <= i < |trace| ==> IsSymbol(trace[i].symbol)
      modifies this
      ensures var names := model.stateNameToIndex;
        var k := FirstFailure(LookupVerdicts(names, trace));
        && (forall i :: 0 <= i < k ==> trace[i].stateName in names)
        && timeStateSymbol == old(timeStateSymbol) + ResolveObservations(names, trace[..k])
        && err == (if k < |trace| then Some(UnknownStateName(trace[k].stateName)) else None)
    {
      ghost var names := model.stateNameToIndex;
      ghost var k := FirstFailure(LookupVerdicts(names, trace));
      assert forall i :: 0 <= i < |trace| ==> LookupVerdicts(names, trace)[i] == LookupVerdict(names, trace[i]);
      var i := 0;
      while i < |trace|
        invariant 0 <= i <= k
        invariant timeStateSymbol == old(timeStateSymbol) + ResolveObservations(names, trace[..i])
      {
        var o := trace[i];
        if o.stateName !in model.stateNameToIndex {
          err := Some(UnknownStateName(o.stateName));
          FirstFailureHere(LookupVerdicts(names, trace), i);
          return;
        }
        var stateInd := model.stateNameToIndex[o.stateName];
        var symbolInd := SymbolToInd(o.symbol);
        FirstFailureNotYet(LookupVerdicts(names, trace), i);
        ResolveStep(names, trace, i);
        timeStateSymbol := timeStateSymbol + [StepRecord(o.step, stateInd, symbolInd)];
        i := i + 1;
      }
      err := None;
    }
  }
}
