/** FormulaConstructor.py: the CNF formula whose models are the party-approval
    rules that are weakly representative (and, as configured, Pareto-optimal)
    and strategy-proof on the generated profiles, and the DIMACS file it is
    written to. */
module FormulaConstructor {
  import opened Common
  import opened PAPPElectionBuilder
  import opened AxiomHelper
  import opened DataManager
  import opened Dimacs

  /** A FormulaConstructor object: the election, the axiom configuration, the
      feasible committees of every profile and the data manager. */
  datatype Constructor = Constructor(
    cfg: Config,
    ballots: seq<Ballot>,
    committees: seq<Committee>,
    profiles: seq<Profile>,
    feasible: seq<seq<Committee>>,
    dm: Manager)

  /** What the constructor establishes: the data manager was built from the
      lists, the ballots are distinct, every stored profile has its ballots in
      index order and a canonical key of its own, and every feasible
      committee is a committee. */
  predicate Wellformed(fc: Constructor) {
    && Built(fc.dm, fc.ballots, fc.committees, fc.profiles, fc.feasible)
    && Distinct(fc.ballots)
    && |fc.feasible| == |fc.profiles|
    && (forall t :: 0 <= t < |fc.profiles| ==>
          SortedInts(BallotIndices(fc.dm.ballotsToListIndex, fc.profiles[t])))
    && Distinct(CanonicalKeys(fc.dm.ballotsToListIndex, fc.profiles))
    && (forall t, c :: 0 <= t < |fc.feasible| && c in fc.feasible[t] ==> c in fc.committees)
  }

  // ---------------------------------------------------------------------------
  // Lookups that succeed

  /** The feasible committees of `profile` and their variables can be looked up. */
  predicate Resolvable(fc: Constructor, profile: Profile) {
    && GetFeasibleCommitteesForProfile(fc.dm, profile).Some?
    && forall c :: c in GetFeasibleCommitteesForProfile(fc.dm, profile).value ==>
         GetVariable(fc.dm, profile, c).Some?
  }

  function FeasibleOf(fc: Constructor, profile: Profile): seq<Committee>
    requires Resolvable(fc, profile)
  {
    GetFeasibleCommitteesForProfile(fc.dm, profile).value
  }

  /** `[get_variable(profile, committee) for committee in feasible_committees]`. */
  function VarsOf(fc: Constructor, profile: Profile): (r: seq<int>)
    requires Resolvable(fc, profile)
    ensures |r| == |FeasibleOf(fc, profile)|
    ensures forall j :: 0 <= j < |r| ==> GetVariable(fc.dm, profile, FeasibleOf(fc, profile)[j]) == Some(r[j])
  {
    var cs := FeasibleOf(fc, profile);
    assert forall j :: 0 <= j < |cs| ==> cs[j] in cs;
    seq(|cs|, j requires 0 <= j < |cs| => GetVariable(fc.dm, profile, cs[j]).value)
  }

  /** The feasible committees found by a lookup are committees, and their
      variables lie in [multiplier, multiplier * (P + 1)) for P profiles. */
  lemma ResolvedFacts(fc: Constructor, profile: Profile)
    requires Wellformed(fc) && Resolvable(fc, profile)
    ensures forall c :: c in FeasibleOf(fc, profile) ==> c in fc.committees
    ensures ProfileToListIndex(fc.dm, profile).Some? && ProfileToListIndex(fc.dm, profile).value < |fc.profiles|
    ensures forall j :: 0 <= j < |VarsOf(fc, profile)| ==>
              fc.dm.multiplier <= VarsOf(fc, profile)[j] < fc.dm.multiplier * (|fc.profiles| + 1)
  {
    var p := ProfileToListIndex(fc.dm, profile).value;
    assert FeasibleOf(fc, profile) == fc.feasible[p];
    BuiltIsValid(fc.dm, fc.ballots, fc.committees, fc.profiles, fc.feasible);
    var vs := VarsOf(fc, profile);
    forall j | 0 <= j < |vs| ensures fc.dm.multiplier <= vs[j] < fc.dm.multiplier * (|fc.profiles| + 1) {
      var c := FeasibleOf(fc, profile)[j];
      var ci := fc.dm.committeesToListIndex[c];
      VariablesDistinct(fc.dm.multiplier, |fc.profiles|, p, ci, p, ci);
    }
  }

  /** A stored profile is found at its own position, with its own entry of the
      feasible table. */
  lemma StoredProfileResolvable(fc: Constructor, t: int)
    requires Wellformed(fc) && 0 <= t < |fc.profiles|
    ensures ProfileToListIndex(fc.dm, fc.profiles[t]) == Some(t)
    ensures Resolvable(fc, fc.profiles[t])
    ensures FeasibleOf(fc, fc.profiles[t]) == fc.feasible[t]
  {
    SortedProfileIndex(fc.dm, fc.ballots, fc.committees, fc.profiles, fc.feasible, t);
    BuiltIsValid(fc.dm, fc.ballots, fc.committees, fc.profiles, fc.feasible);
  }

  /** The variables of stored profile t, one per feasible committee. */
  function ProfileVars(fc: Constructor, t: int): (r: seq<int>)
    requires Wellformed(fc) && 0 <= t < |fc.profiles|
    ensures |r| == |fc.feasible[t]|
    ensures forall j :: 0 <= j < |r| ==>
              GetVariable(fc.dm, fc.profiles[t], fc.feasible[t][j]) == Some(r[j]) && r[j] > 0
  {
    StoredProfileResolvable(fc, t);
    ResolvedFacts(fc, fc.profiles[t]);
    MulAtLeast(fc.dm.multiplier, 1);
    VarsOf(fc, fc.profiles[t])
  }

  // ---------------------------------------------------------------------------
  // Truth assignments

  /** A literal under the assignment that makes exactly the variables in `a` true. */
  predicate LiteralHolds(a: set<int>, lit: int) {
    if lit > 0 then lit in a else -lit !in a
  }

  predicate ClauseHolds(a: set<int>, clause: Clause) {
    exists j :: 0 <= j < |clause| && LiteralHolds(a, clause[j])
  }

  predicate Holds(a: set<int>, formula: seq<Clause>) {
    forall clause :: clause in formula ==> ClauseHolds(a, clause)
  }

  lemma HoldsAppend(a: set<int>, f: seq<Clause>, g: seq<Clause>)
    ensures Holds(a, f + g) <==> Holds(a, f) && Holds(a, g)
  {
  }

  /** Exactly one of the variables is true. */
  predicate ExactlyOneHolds(a: set<int>, vars: seq<int>) {
    exists j :: 0 <= j < |vars| && vars[j] in a && forall j' :: 0 <= j' < |vars| && vars[j'] in a ==> j' == j
  }

  // ---------------------------------------------------------------------------
  // write_papp_function_constraints

  /** `[-v_a, -v_b]` for every b after a: row a of `itertools.combinations(vars, 2)`. */
  function PairRow(vars: seq<int>, a: int): seq<Clause>
    requires 0 <= a < |vars|
  {
    seq(|vars| - a - 1, d requires 0 <= d < |vars| - a - 1 => [-vars[a], -vars[a + 1 + d]])
  }

  function PairClauses(vars: seq<int>): seq<Clause> {
    Flatten(seq(|vars|, a requires 0 <= a < |vars| => PairRow(vars, a)))
  }

  /** The clauses written for one profile: some variable is true, and no two are. */
  function ExactlyOneClauses(vars: seq<int>): seq<Clause> {
    [vars] + if |vars| > 1 then PairClauses(vars) else []
  }

  /** The pair clauses are the negated pairs of positions a < b, each once. */
  lemma PairClausesMembers(vars: seq<int>)
    ensures forall clause :: clause in PairClauses(vars) <==>
              exists x, y :: 0 <= x < y < |vars| && clause == [-vars[x], -vars[y]]
  {
    var rows := seq(|vars|, a requires 0 <= a < |vars| => PairRow(vars, a));
    FlattenMembers(rows);
    forall clause ensures clause in PairClauses(vars) <==>
                          exists x, y :: 0 <= x < y < |vars| && clause == [-vars[x], -vars[y]]
    {
      if clause in PairClauses(vars) {
        var x :| 0 <= x < |rows| && clause in rows[x];
        var d :| 0 <= d < |PairRow(vars, x)| && PairRow(vars, x)[d] == clause;
        assert clause == [-vars[x], -vars[x + 1 + d]];
      }
      if exists x, y :: 0 <= x < y < |vars| && clause == [-vars[x], -vars[y]] {
        var x, y :| 0 <= x < y < |vars| && clause == [-vars[x], -vars[y]];
        assert PairRow(vars, x)[y - x - 1] == clause;
        assert clause in rows[x];
      }
    }
  }

  /** The clause count of the first k rows, doubled. */
  lemma {:induction false} PairRowsCount(vars: seq<int>, k: int)
    requires 0 <= k <= |vars|
    ensures 2 * |Flatten(seq(|vars|, a requires 0 <= a < |vars| => PairRow(vars, a))[..k])| ==
            k * (2 * |vars| - 1 - k)
    decreases k
  {
    var rows := seq(|vars|, a requires 0 <= a < |vars| => PairRow(vars, a));
    if k == 0 {
      assert rows[..0] == [];
    } else {
      PairRowsCount(vars, k - 1);
      FlattenStep(rows, k - 1);
      var n := |vars|;
      assert |rows[k - 1]| == n - k;
      assert (k - 1) * (2 * n - k) + 2 * (n - k) == k * (2 * n - 1 - k);
    }
  }

  /** One clause saying some variable is true and n(n-1)/2 pair clauses. */
  lemma ExactlyOneClauseCount(vars: seq<int>)
    ensures |ExactlyOneClauses(vars)| == 1 + |vars| * (|vars| - 1) / 2
  {
    var n := |vars|;
    var rows := seq(n, a requires 0 <= a < n => PairRow(vars, a));
    PairRowsCount(vars, n);
    assert rows[..n] == rows;
    assert 2 * |PairClauses(vars)| == n * (n - 1);
    if n <= 1 {
      assert n * (n - 1) == 0;
    }
  }

  /** Satisfying the clauses of one profile makes exactly one variable true. */
  lemma ExactlyOneSound(a: set<int>, vars: seq<int>)
    requires forall j :: 0 <= j < |vars| ==> vars[j] > 0
    requires Holds(a, ExactlyOneClauses(vars))
    ensures ExactlyOneHolds(a, vars)
  {
    PairClausesMembers(vars);
    var cs := ExactlyOneClauses(vars);
    var rest := if |vars| > 1 then PairClauses(vars) else [];
    assert cs == [vars] + rest;
    assert vars in cs;
    var j :| 0 <= j < |vars| && LiteralHolds(a, vars[j]);
    forall x, y | 0 <= x < y < |vars| ensures vars[x] !in a || vars[y] !in a {
      var pair := [-vars[x], -vars[y]];
      assert pair in rest;
      assert pair in cs;
      NegativePairHolds(a, pair, vars[x], vars[y]);
    }
    forall j' | 0 <= j' < |vars| && vars[j'] in a ensures j' == j {
    }
  }

  /** Making exactly one variable true satisfies the clauses of one profile. */
  lemma ExactlyOneComplete(a: set<int>, vars: seq<int>)
    requires forall j :: 0 <= j < |vars| ==> vars[j] > 0
    requires ExactlyOneHolds(a, vars)
    ensures Holds(a, ExactlyOneClauses(vars))
  {
    PairClausesMembers(vars);
    var cs := ExactlyOneClauses(vars);
    var rest := if |vars| > 1 then PairClauses(vars) else [];
    assert cs == [vars] + rest;
    var j :| 0 <= j < |vars| && vars[j] in a && forall j' :: 0 <= j' < |vars| && vars[j'] in a ==> j' == j;
    forall clause | clause in cs ensures ClauseHolds(a, clause) {
      if clause == vars {
        assert LiteralHolds(a, clause[j]);
      } else {
        assert clause in rest;
        var x, y :| 0 <= x < y < |vars| && clause == [-vars[x], -vars[y]];
        NegativePairHolds(a, clause, vars[x], vars[y]);
      }
    }
  }

  /** For positive variables, an assignment satisfies the clauses of one
      profile iff exactly one of the variables is true. */
  lemma ExactlyOneSemantics(a: set<int>, vars: seq<int>)
    requires forall j :: 0 <= j < |vars| ==> vars[j] > 0
    ensures Holds(a, ExactlyOneClauses(vars)) <==> ExactlyOneHolds(a, vars)
  {
    if Holds(a, ExactlyOneClauses(vars)) {
      ExactlyOneSound(a, vars);
    }
    if ExactlyOneHolds(a, vars) {
      ExactlyOneComplete(a, vars);
    }
  }

  /** The clauses for stored profile t. */
  function ProfileConstraints(fc: Constructor, t: int): seq<Clause>
    requires Wellformed(fc) && 0 <= t < |fc.profiles|
  {
    ExactlyOneClauses(ProfileVars(fc, t))
  }

  function FunctionConstraints(fc: Constructor): seq<Clause>
    requires Wellformed(fc)
  {
    Flatten(seq(|fc.profiles|, t requires 0 <= t < |fc.profiles| => ProfileConstraints(fc, t)))
  }

  /** The clauses `[-v1, -v2]` for `[v1, v2]` in `itertools.combinations(vars, 2)`. */
  method WritePairClauses(vars: seq<int>) returns (pairs: seq<Clause>)
    ensures pairs == PairClauses(vars)
  {
    ghost var rows := seq(|vars|, a requires 0 <= a < |vars| => PairRow(vars, a));
    pairs := [];
    for a := 0 to |vars|
      invariant pairs == Flatten(rows[..a])
    {
      for b := a + 1 to |vars|
        invariant pairs == Flatten(rows[..a]) + PairRow(vars, a)[..b - a - 1]
      {
        assert PairRow(vars, a)[..b - a] == PairRow(vars, a)[..b - a - 1] + [[-vars[a], -vars[b]]];
        pairs := pairs + [[-vars[a], -vars[b]]];
      }
      FlattenStep(rows, a);
      assert PairRow(vars, a)[..|vars| - a - 1] == PairRow(vars, a);
    }
    assert rows[..|vars|] == rows;
  }

  /** write_papp_function_constraints. */
  method WritePappFunctionConstraints(fc: Constructor) returns (formula: seq<Clause>)
    requires Wellformed(fc)
    ensures formula == FunctionConstraints(fc)
  {
    ghost var blocks := seq(|fc.profiles|, t requires 0 <= t < |fc.profiles| => ProfileConstraints(fc, t));
    formula := [];
    for t := 0 to |fc.profiles|
      invariant formula == Flatten(blocks[..t])
    {
      var profile := fc.profiles[t];
      StoredProfileResolvable(fc, t);
      var feasibleCommittees := GetFeasibleCommitteesForProfile(fc.dm, profile).value;
      var vars := seq(|feasibleCommittees|, j requires 0 <= j < |feasibleCommittees| =>
                        GetVariable(fc.dm, profile, feasibleCommittees[j]).value);
      assert vars == ProfileVars(fc, t);
      var clauses := [vars];
      if |feasibleCommittees| > 1 {
        var pairs := WritePairClauses(vars);
        clauses := clauses + pairs;
      }
      assert clauses == blocks[t];
      formula := formula + clauses;
      FlattenStep(blocks, t);
    }
    assert blocks[..|fc.profiles|] == blocks;
  }

  /** An assignment satisfies the function constraints iff it makes exactly
      one feasible committee's variable true for every stored profile. */
  lemma FunctionConstraintsSemantics(fc: Constructor, a: set<int>)
    requires Wellformed(fc)
    ensures Holds(a, FunctionConstraints(fc)) <==>
            forall t :: 0 <= t < |fc.profiles| ==> ExactlyOneHolds(a, ProfileVars(fc, t))
  {
    var blocks := seq(|fc.profiles|, t requires 0 <= t < |fc.profiles| => ProfileConstraints(fc, t));
    FlattenMembers(blocks);
    forall t | 0 <= t < |fc.profiles|
      ensures Holds(a, blocks[t]) <==> ExactlyOneHolds(a, ProfileVars(fc, t))
    {
      ExactlyOneSemantics(a, ProfileVars(fc, t));
    }
    if Holds(a, FunctionConstraints(fc)) {
      forall t | 0 <= t < |fc.profiles| ensures Holds(a, blocks[t]) {
        forall clause | clause in blocks[t] ensures ClauseHolds(a, clause) {
          assert clause in FunctionConstraints(fc);
        }
      }
    }
  }

  /** The number of clauses written for stored profile t. */
  lemma ProfileConstraintCount(fc: Constructor, t: int)
    requires Wellformed(fc) && 0 <= t < |fc.profiles|
    ensures |ProfileConstraints(fc, t)| == 1 + |fc.feasible[t]| * (|fc.feasible[t]| - 1) / 2
  {
    ExactlyOneClauseCount(ProfileVars(fc, t));
  }

  // ---------------------------------------------------------------------------
  // write_strategyproofness_constraint

  /** Replacing one known ballot by another known ballot keeps every ballot
      known and replaces one index. */
  lemma UpdateKnows(bi: map<Ballot, nat>, p: Profile, i: int, b: Ballot)
    requires KnowsBallots(bi, p) && b in bi && 0 <= i < |p|
    ensures KnowsBallots(bi, p[i := b])
    ensures BallotIndices(bi, p[i := b]) == BallotIndices(bi, p)[i := bi[b]]
  {
    var x := p[i := b];
    forall b' | b' in x ensures b' in bi {
      var v :| 0 <= v < |x| && x[v] == b';
      if v != i {
        assert b' in p;
      }
    }
  }

  /** Stored profile t with voter i reporting ballot b, in canonical voter order. */
  function Deviation(fc: Constructor, t: int, i: int, b: Ballot): (r: Profile)
    requires Wellformed(fc) && 0 <= t < |fc.profiles| && 0 <= i < |fc.profiles[t]| && b in fc.ballots
    ensures KnowsBallots(fc.dm.ballotsToListIndex, r)
    ensures multiset(r) == multiset(fc.profiles[t][i := b])
  {
    var x := fc.profiles[t][i := b];
    assert b in Elems(fc.ballots);
    UpdateKnows(fc.dm.ballotsToListIndex, fc.profiles[t], i, b);
    AnonymousProfileCanonical(fc.dm, x);
    AnonymousProfileIsPermutation(fc.dm, x);
    GetAnonymousProfile(fc.dm, x)
  }

  /** The ballot indices of a deviation: the true profile's indices with
      position i overwritten by the index of b, sorted. */
  lemma DeviationIndices(fc: Constructor, t: int, i: int, b: Ballot)
    requires Wellformed(fc) && 0 <= t < |fc.profiles| && 0 <= i < |fc.profiles[t]| && b in fc.ballots
    ensures KnowsBallots(fc.dm.ballotsToListIndex, fc.profiles[t][i := b])
    ensures BallotIndices(fc.dm.ballotsToListIndex, fc.profiles[t][i := b]) ==
            BallotIndices(fc.dm.ballotsToListIndex, fc.profiles[t])[i := fc.dm.ballotsToListIndex[b]]
    ensures BallotIndices(fc.dm.ballotsToListIndex, Deviation(fc, t, i, b)) ==
            Sort(BallotIndices(fc.dm.ballotsToListIndex, fc.profiles[t][i := b]))
    ensures Sort(BallotIndices(fc.dm.ballotsToListIndex, Deviation(fc, t, i, b))) ==
            BallotIndices(fc.dm.ballotsToListIndex, Deviation(fc, t, i, b))
  {
    var bi := fc.dm.ballotsToListIndex;
    var x := fc.profiles[t][i := b];
    assert b in Elems(fc.ballots);
    UpdateKnows(bi, fc.profiles[t], i, b);
    AnonymousProfileCanonical(fc.dm, x);
    SortSpec(BallotIndices(bi, x));
    SortOfSorted(Sort(BallotIndices(bi, x)));
  }

  /** A deviation that is a known profile has its lookups succeed. */
  lemma DeviationResolvable(fc: Constructor, t: int, i: int, b: Ballot)
    requires Wellformed(fc) && 0 <= t < |fc.profiles| && 0 <= i < |fc.profiles[t]| && b in fc.ballots
    requires IsProfileKnown(fc.dm, Deviation(fc, t, i, b))
    ensures Resolvable(fc, Deviation(fc, t, i, b))
  {
    var q := Deviation(fc, t, i, b);
    DeviationIndices(fc, t, i, b);
    var p := fc.dm.profilesToListIndexDict[BallotIndices(fc.dm.ballotsToListIndex, q)];
    assert ProfileToListIndex(fc.dm, q) == Some(p);
    BuiltIsValid(fc.dm, fc.ballots, fc.committees, fc.profiles, fc.feasible);
    forall c | c in fc.feasible[p] ensures GetVariable(fc.dm, q, c).Some? {
      assert c in fc.committees;
    }
  }

  /** When the voter's ballot really changes, the deviation is found at a
      position other than t. */
  lemma DeviationElsewhere(fc: Constructor, t: int, i: int, b: Ballot)
    requires Wellformed(fc) && 0 <= t < |fc.profiles| && 0 <= i < |fc.profiles[t]| && b in fc.ballots
    requires b != fc.profiles[t][i]
    ensures ProfileToListIndex(fc.dm, Deviation(fc, t, i, b)) != Some(t)
  {
    var bi := fc.dm.ballotsToListIndex;
    var q := Deviation(fc, t, i, b);
    DeviationIndices(fc, t, i, b);
    var keys := CanonicalKeys(bi, fc.profiles);
    var s := BallotIndices(bi, fc.profiles[t]);
    var sx := BallotIndices(bi, fc.profiles[t][i := b]);
    BuiltIsValid(fc.dm, fc.ballots, fc.committees, fc.profiles, fc.feasible);
    assert fc.profiles[t][i] in fc.profiles[t];
    assert fc.dm.ballots[bi[b]] == b && fc.dm.ballots[bi[fc.profiles[t][i]]] == fc.profiles[t][i];
    assert s[i] != bi[b];
    UpdateChangesMultiset(s, i, bi[b]);
    SortSpec(sx);
    SortOfSorted(s);
    assert keys[t] == s;
    assert BallotIndices(bi, q) != keys[t];
  }

  /** Overwriting one position with a different value changes the multiset. */
  lemma UpdateChangesMultiset(s: seq<int>, i: int, y: int)
    requires 0 <= i < |s| && s[i] != y
    ensures multiset(s[i := y]) != multiset(s)
  {
    if multiset(s[i := y]) == multiset(s) {
      UpdatePreservingMultiset(s, i, y);
    }
  }

  /** Overwriting one position keeps the multiset only when nothing changes. */
  lemma UpdatePreservingMultiset(s: seq<int>, i: int, y: int)
    requires 0 <= i < |s| && multiset(s[i := y]) == multiset(s)
    ensures s[i] == y
  {
    MultisetSplit(s, i);
    MultisetSplit(s[i := y], i);
    var rest := s[..i] + s[i + 1..];
    assert s[i := y][..i] + s[i := y][i + 1..] == rest;
    assert multiset(rest) + multiset{y} == multiset(rest) + multiset{s[i]};
    assert (multiset(rest) + multiset{y})[s[i]] == (multiset(rest) + multiset{s[i]})[s[i]];
  }

  /** `[[-v1, -v2]]` when the ballot prefers c1 to c2, nothing otherwise. */
  function RowCell(b: Ballot, c1: Committee, v1: int, c2: Committee, v2: int): seq<Clause> {
    if Prefers(b, c1, c2) then [[-v1, -v2]] else []
  }

  /** `[-v1, -v2]` for every c2 of G that the ballot ranks below c1 (v1 is the
      variable of c1 at the true profile, vG those of G at the deviation). */
  function RowClauses(b: Ballot, c1: Committee, v1: int, G: seq<Committee>, vG: seq<int>): seq<Clause>
    requires |vG| == |G|
  {
    Flatten(seq(|G|, j requires 0 <= j < |G| => RowCell(b, c1, v1, G[j], vG[j])))
  }

  /** The rows of every committee c1 of F, in order. */
  function BlockClauses(b: Ballot, F: seq<Committee>, vF: seq<int>, G: seq<Committee>, vG: seq<int>)
    : seq<Clause>
    requires |vF| == |F| && |vG| == |G|
  {
    Flatten(seq(|F|, a requires 0 <= a < |F| => RowClauses(b, F[a], vF[a], G, vG)))
  }

  /** The candidate clauses for voter i of stored profile t reporting b: none
      when b is the voter's ballot or the deviation is not a known profile. */
  function BallotClauses(fc: Constructor, t: int, i: int, b: Ballot): seq<Clause>
    requires Wellformed(fc) && 0 <= t < |fc.profiles| && 0 <= i < |fc.profiles[t]| && b in fc.ballots
  {
    if b == fc.profiles[t][i] then []
    else
      var q := Deviation(fc, t, i, b);
      if !IsProfileKnown(fc.dm, q) then []
      else
        StoredProfileResolvable(fc, t);
        DeviationResolvable(fc, t, i, b);
        BlockClauses(b, FeasibleOf(fc, fc.profiles[t]), VarsOf(fc, fc.profiles[t]), FeasibleOf(fc, q), VarsOf(fc, q))
  }

  function ManipulatorClauses(fc: Constructor, t: int, i: int): seq<Clause>
    requires Wellformed(fc) && 0 <= t < |fc.profiles| && 0 <= i < |fc.profiles[t]|
  {
    Flatten(seq(|fc.ballots|, jb requires 0 <= jb < |fc.ballots| => BallotClauses(fc, t, i, fc.ballots[jb])))
  }

  function ProfileClauses(fc: Constructor, t: int): seq<Clause>
    requires Wellformed(fc) && 0 <= t < |fc.profiles|
  {
    Flatten(seq(|fc.profiles[t]|, i requires 0 <= i < |fc.profiles[t]| => ManipulatorClauses(fc, t, i)))
  }

  /** Every candidate clause in loop order, repetitions included. */
  function StrategyproofnessCandidates(fc: Constructor): seq<Clause>
    requires Wellformed(fc)
  {
    Flatten(seq(|fc.profiles|, t requires 0 <= t < |fc.profiles| => ProfileClauses(fc, t)))
  }

  /** The clauses written: the candidates without repetitions, in first-occurrence order. */
  function StrategyproofnessConstraints(fc: Constructor): seq<Clause>
    requires Wellformed(fc)
  {
    Dedup(StrategyproofnessCandidates(fc))
  }

  /** The writer's state after `cands`: `formula` holds each clause of `cands`
      once in first-occurrence order, and `written` is the set of them. */
  predicate Tracks(formula: seq<Clause>, written: set<Clause>, cands: seq<Clause>) {
    formula == Dedup(cands) && written == Elems(cands)
  }

  lemma TracksEmit(formula: seq<Clause>, written: set<Clause>, cands: seq<Clause>, clause: Clause)
    requires Tracks(formula, written, cands)
    ensures clause in written ==> Tracks(formula, written, cands + [clause])
    ensures clause !in written ==> Tracks(formula + [clause], written + {clause}, cands + [clause])
  {
    DedupElems(cands);
    DedupStep(cands, clause);
    assert Elems(cands + [clause]) == Elems(cands) + {clause};
  }

  /** One more cell of a flattened loop appends that cell's clauses to the candidates. */
  lemma CellStep(cands0: seq<Clause>, cells: seq<seq<Clause>>, j: int, x: seq<Clause>)
    requires 0 <= j < |cells| && cells[j] == x
    ensures cands0 + Flatten(cells[..j + 1]) == (cands0 + Flatten(cells[..j])) + x
  {
    FlattenStep(cells, j);
    AppendAssoc(cands0, Flatten(cells[..j]), x);
  }

  /** The body of the innermost loop: the clause for c1 at p and c2 at q is
      emitted when the ballot prefers c1 to c2, unless it was written before. */
  method WriteCell(dm: Manager, p: Profile, q: Profile, b: Ballot, c1: Committee, c2: Committee,
                   ghost v1: int, ghost v2: int, formula0: seq<Clause>, written0: set<Clause>, ghost cands0: seq<Clause>)
    returns (formula: seq<Clause>, written: set<Clause>)
    requires GetVariable(dm, p, c1) == Some(v1) && GetVariable(dm, q, c2) == Some(v2)
    requires VoterPrefersCommittee1ToCommittee2(dm, b, c1, c2) == Some(Prefers(b, c1, c2))
    requires Tracks(formula0, written0, cands0)
    ensures Tracks(formula, written, cands0 + RowCell(b, c1, v1, c2, v2))
  {
    formula, written := formula0, written0;
    if VoterPrefersCommittee1ToCommittee2(dm, b, c1, c2).value {
      var constraint := [-GetVariable(dm, p, c1).value, -GetVariable(dm, q, c2).value];
      TracksEmit(formula, written, cands0, constraint);
      if constraint !in written {
        formula := formula + [constraint];
        written := written + {constraint};
      }
    } else {
      assert cands0 + [] == cands0;
    }
  }

  /** The innermost loop: c2 over the deviation's feasible committees G, for
      one committee c1 of the true profile. `vG` holds the variables of G at
      the deviation q. */
  method WriteRow(dm: Manager, p: Profile, q: Profile, b: Ballot, c1: Committee, G: seq<Committee>,
                  ghost v1: int, ghost vG: seq<int>, formula0: seq<Clause>, written0: set<Clause>, ghost cands0: seq<Clause>)
    returns (formula: seq<Clause>, written: set<Clause>)
    requires GetVariable(dm, p, c1) == Some(v1)
    requires |vG| == |G| && forall j :: 0 <= j < |G| ==> GetVariable(dm, q, G[j]) == Some(vG[j])
    requires forall j :: 0 <= j < |G| ==> VoterPrefersCommittee1ToCommittee2(dm, b, c1, G[j]) == Some(Prefers(b, c1, G[j]))
    requires Tracks(formula0, written0, cands0)
    ensures Tracks(formula, written, cands0 + RowClauses(b, c1, v1, G, vG))
  {
    ghost var cells := seq(|G|, j requires 0 <= j < |G| => RowCell(b, c1, v1, G[j], vG[j]));
    formula, written := formula0, written0;
    ghost var cands := cands0;
    assert cands0 + Flatten(cells[..0]) == cands0;
    for j := 0 to |G|
      invariant cands == cands0 + Flatten(cells[..j])
      invariant Tracks(formula, written, cands)
    {
      var committee2 := G[j];
      formula, written := WriteCell(dm, p, q, b, c1, committee2, v1, vG[j], formula, written, cands);
      CellStep(cands0, cells, j, cells[j]);
      cands := cands + cells[j];
    }
    assert cells[..|G|] == cells;
  }

  /** The inner two loops for one deviation: c1 over the true profile's
      feasible committees F, c2 over the deviation's G. */
  method WriteBlock(dm: Manager, p: Profile, q: Profile, b: Ballot, F: seq<Committee>, G: seq<Committee>,
                    ghost vF: seq<int>, ghost vG: seq<int>,
                    formula0: seq<Clause>, written0: set<Clause>, ghost cands0: seq<Clause>)
    returns (formula: seq<Clause>, written: set<Clause>)
    requires |vF| == |F| && forall a :: 0 <= a < |F| ==> GetVariable(dm, p, F[a]) == Some(vF[a])
    requires |vG| == |G| && forall j :: 0 <= j < |G| ==> GetVariable(dm, q, G[j]) == Some(vG[j])
    requires forall a, j :: 0 <= a < |F| && 0 <= j < |G| ==>
               VoterPrefersCommittee1ToCommittee2(dm, b, F[a], G[j]) == Some(Prefers(b, F[a], G[j]))
    requires Tracks(formula0, written0, cands0)
    ensures Tracks(formula, written, cands0 + BlockClauses(b, F, vF, G, vG))
  {
    ghost var rows := seq(|F|, a requires 0 <= a < |F| => RowClauses(b, F[a], vF[a], G, vG));
    formula, written := formula0, written0;
    ghost var cands := cands0;
    assert cands0 + Flatten(rows[..0]) == cands0;
    for a := 0 to |F|
      invariant cands == cands0 + Flatten(rows[..a])
      invariant Tracks(formula, written, cands)
    {
      formula, written := WriteRow(dm, p, q, b, F[a], G, vF[a], vG, formula, written, cands);
      CellStep(cands0, rows, a, rows[a]);
      cands := cands + rows[a];
    }
    assert rows[..|F|] == rows;
  }

  /** The committee preference lookups of a block answer the approval
      comparison. */
  lemma BlockPreferences(fc: Constructor, b: Ballot, F: seq<Committee>, G: seq<Committee>)
    requires Wellformed(fc) && b in fc.ballots
    requires forall c :: c in F ==> c in fc.committees
    requires forall c :: c in G ==> c in fc.committees
    ensures forall a, j :: 0 <= a < |F| && 0 <= j < |G| ==>
              VoterPrefersCommittee1ToCommittee2(fc.dm, b, F[a], G[j]) == Some(Prefers(b, F[a], G[j]))
  {
    forall a, j | 0 <= a < |F| && 0 <= j < |G|
      ensures VoterPrefersCommittee1ToCommittee2(fc.dm, b, F[a], G[j]) == Some(Prefers(b, F[a], G[j]))
    {
      assert F[a] in F && G[j] in G;
      VoterPrefersMeansMoreApprovedSeats(fc.dm, fc.ballots, fc.committees, fc.profiles, fc.feasible, b, F[a], G[j]);
    }
  }

  /** The ballot loop for voter i of stored profile t; F holds the true
      profile's feasible committees. */
  method WriteForManipulator(fc: Constructor, t: int, i: int, F: seq<Committee>,
                             formula0: seq<Clause>, written0: set<Clause>, ghost cands0: seq<Clause>)
    returns (formula: seq<Clause>, written: set<Clause>)
    requires Wellformed(fc) && 0 <= t < |fc.profiles| && 0 <= i < |fc.profiles[t]|
    requires Resolvable(fc, fc.profiles[t]) && F == FeasibleOf(fc, fc.profiles[t])
    requires Tracks(formula0, written0, cands0)
    ensures Tracks(formula, written, cands0 + ManipulatorClauses(fc, t, i))
  {
    var trueProfile := fc.profiles[t];
    ResolvedFacts(fc, trueProfile);
    BuiltIsValid(fc.dm, fc.ballots, fc.committees, fc.profiles, fc.feasible);
    ghost var cells := seq(|fc.ballots|, jb requires 0 <= jb < |fc.ballots| => BallotClauses(fc, t, i, fc.ballots[jb]));
    formula, written := formula0, written0;
    assert cands0 + Flatten(cells[..0]) == cands0;
    for jb := 0 to |fc.ballots|
      invariant Tracks(formula, written, cands0 + Flatten(cells[..jb]))
    {
      var ballot := fc.ballots[jb];
      ghost var before := cands0 + Flatten(cells[..jb]);
      FlattenStep(cells, jb);
      if ballot != trueProfile[i] {
        var manipulatedProfile := trueProfile[i := ballot];
        DeviationIndices(fc, t, i, ballot);
        manipulatedProfile := GetAnonymousProfile(fc.dm, manipulatedProfile);
        assert manipulatedProfile == Deviation(fc, t, i, ballot);
        if IsProfileKnown(fc.dm, manipulatedProfile) {
          DeviationResolvable(fc, t, i, ballot);
          ResolvedFacts(fc, manipulatedProfile);
          var manipulatedFeasible := GetFeasibleCommitteesForProfile(fc.dm, manipulatedProfile).value;
          BlockPreferences(fc, ballot, F, manipulatedFeasible);
          formula, written := WriteBlock(fc.dm, trueProfile, manipulatedProfile, ballot, F, manipulatedFeasible,
                                         VarsOf(fc, trueProfile), VarsOf(fc, manipulatedProfile),
                                         formula, written, before);
          assert cells[jb] == BlockClauses(ballot, F, VarsOf(fc, trueProfile),
                                           manipulatedFeasible, VarsOf(fc, manipulatedProfile));
        } else {
          assert cells[jb] == [];
          assert before + cells[jb] == before;
        }
      } else {
        assert cells[jb] == [];
        assert before + cells[jb] == before;
      }
      AppendAssoc(cands0, Flatten(cells[..jb]), cells[jb]);
    }
    assert cells[..|fc.ballots|] == cells;
  }

  /** The manipulator loop for stored profile t. */
  method WriteForProfile(fc: Constructor, t: int, formula0: seq<Clause>, written0: set<Clause>,
                         ghost cands0: seq<Clause>)
    returns (formula: seq<Clause>, written: set<Clause>)
    requires Wellformed(fc) && 0 <= t < |fc.profiles|
    requires Tracks(formula0, written0, cands0)
    ensures Tracks(formula, written, cands0 + ProfileClauses(fc, t))
  {
    var trueProfile := fc.profiles[t];
    StoredProfileResolvable(fc, t);
    var trueFeasible := GetFeasibleCommitteesForProfile(fc.dm, trueProfile).value;
    ghost var cells := seq(|fc.profiles[t]|, i requires 0 <= i < |fc.profiles[t]| => ManipulatorClauses(fc, t, i));
    formula, written := formula0, written0;
    assert cands0 + Flatten(cells[..0]) == cands0;
    for manipulator := 0 to |trueProfile|
      invariant Tracks(formula, written, cands0 + Flatten(cells[..manipulator]))
    {
      ghost var before := cands0 + Flatten(cells[..manipulator]);
      formula, written := WriteForManipulator(fc, t, manipulator, trueFeasible, formula, written, before);
      FlattenStep(cells, manipulator);
      AppendAssoc(cands0, Flatten(cells[..manipulator]), cells[manipulator]);
    }
    assert cells[..|trueProfile|] == cells;
    assert Flatten(cells) == ProfileClauses(fc, t);
  }

  /** write_strategyproofness_constraint: the candidate clauses, each written
      once, in the order the loops first produce them. */
  method WriteStrategyproofnessConstraint(fc: Constructor) returns (formula: seq<Clause>)
    requires Wellformed(fc)
    ensures formula == StrategyproofnessConstraints(fc)
  {
    ghost var cells := seq(|fc.profiles|, t requires 0 <= t < |fc.profiles| => ProfileClauses(fc, t));
    formula := [];
    var alreadyWritten: set<Clause> := {};
    assert Flatten(cells[..0]) == [];
    for t := 0 to |fc.profiles|
      invariant Tracks(formula, alreadyWritten, Flatten(cells[..t]))
    {
      formula, alreadyWritten := WriteForProfile(fc, t, formula, alreadyWritten, Flatten(cells[..t]));
      FlattenStep(cells, t);
    }
    assert cells[..|fc.profiles|] == cells;
  }

  // ---------------------------------------------------------------------------
  // What the strategy-proofness clauses say

  /** Voter i of stored profile t reports b instead, the resulting profile is
      known, c1 is feasible at t, c2 is feasible at the deviation, and a voter
      with ballot b approves more seats of c1 than of c2: with sincere ballot b
      at the deviation, the voter would gain by reporting the ballot it has
      in profile t. */
  predicate ManipulationCase(fc: Constructor, t: int, i: int, b: Ballot, c1: Committee, c2: Committee)
    requires Wellformed(fc)
  {
    && 0 <= t < |fc.profiles| && 0 <= i < |fc.profiles[t]| && b in fc.ballots && b != fc.profiles[t][i]
    && IsProfileKnown(fc.dm, Deviation(fc, t, i, b))
    && GetFeasibleCommitteesForProfile(fc.dm, Deviation(fc, t, i, b)).Some?
    && c1 in fc.feasible[t]
    && c2 in GetFeasibleCommitteesForProfile(fc.dm, Deviation(fc, t, i, b)).value
    && Prefers(b, c1, c2)
    && GetVariable(fc.dm, fc.profiles[t], c1).Some?
    && GetVariable(fc.dm, Deviation(fc, t, i, b), c2).Some?
  }

  /** The clause that forbids choosing c1 at t together with c2 at the deviation. */
  predicate IsManipulationClause(fc: Constructor, clause: Clause, t: int, i: int, b: Ballot,
                                 c1: Committee, c2: Committee)
    requires Wellformed(fc)
  {
    && ManipulationCase(fc, t, i, b, c1, c2)
    && |clause| == 2
    && clause[0] == -GetVariable(fc.dm, fc.profiles[t], c1).value
    && clause[1] == -GetVariable(fc.dm, Deviation(fc, t, i, b), c2).value
  }

  lemma RowMembers(b: Ballot, c1: Committee, v1: int, G: seq<Committee>, vG: seq<int>)
    requires |vG| == |G|
    ensures forall clause :: clause in RowClauses(b, c1, v1, G, vG) <==>
              exists j :: 0 <= j < |G| && Prefers(b, c1, G[j]) && clause == [-v1, -vG[j]]
  {
    var cells := seq(|G|, j requires 0 <= j < |G| => RowCell(b, c1, v1, G[j], vG[j]));
    FlattenMembers(cells);
    forall clause | exists j :: 0 <= j < |G| && Prefers(b, c1, G[j]) && clause == [-v1, -vG[j]]
      ensures clause in RowClauses(b, c1, v1, G, vG)
    {
      var j :| 0 <= j < |G| && Prefers(b, c1, G[j]) && clause == [-v1, -vG[j]];
      assert clause in cells[j];
    }
  }

  lemma BlockMembers(b: Ballot, F: seq<Committee>, vF: seq<int>, G: seq<Committee>, vG: seq<int>)
    requires |vF| == |F| && |vG| == |G|
    ensures forall clause :: clause in BlockClauses(b, F, vF, G, vG) <==>
              exists a, j :: 0 <= a < |F| && 0 <= j < |G| && Prefers(b, F[a], G[j]) && clause == [-vF[a], -vG[j]]
  {
    var rows := seq(|F|, a requires 0 <= a < |F| => RowClauses(b, F[a], vF[a], G, vG));
    FlattenMembers(rows);
    forall a | 0 <= a < |F| {
      RowMembers(b, F[a], vF[a], G, vG);
    }
    forall clause | exists a, j :: 0 <= a < |F| && 0 <= j < |G| && Prefers(b, F[a], G[j]) && clause == [-vF[a], -vG[j]]
      ensures clause in BlockClauses(b, F, vF, G, vG)
    {
      var a, j :| 0 <= a < |F| && 0 <= j < |G| && Prefers(b, F[a], G[j]) && clause == [-vF[a], -vG[j]];
      assert clause in rows[a];
    }
  }

  /** A clause with the two literals of cell (a, j) of a preferred pair is in the block. */
  lemma InBlock(b: Ballot, F: seq<Committee>, vF: seq<int>, G: seq<Committee>, vG: seq<int>,
                a: int, j: int, clause: Clause)
    requires |vF| == |F| && |vG| == |G| && 0 <= a < |F| && 0 <= j < |G| && Prefers(b, F[a], G[j])
    requires |clause| == 2 && clause[0] == -vF[a] && clause[1] == -vG[j]
    ensures clause in BlockClauses(b, F, vF, G, vG)
  {
    PairIs(clause, -vF[a], -vG[j]);
    BlockMembers(b, F, vF, G, vG);
  }

  /** A clause of the ballot-b block of voter i at t is a manipulation clause for (t, i, b). */
  lemma BallotClauseIsManipulation(fc: Constructor, t: int, i: int, b: Ballot, clause: Clause)
    requires Wellformed(fc) && 0 <= t < |fc.profiles| && 0 <= i < |fc.profiles[t]| && b in fc.ballots
    requires clause in BallotClauses(fc, t, i, b)
    ensures exists c1, c2 :: IsManipulationClause(fc, clause, t, i, b, c1, c2)
  {
    assert b != fc.profiles[t][i] && IsProfileKnown(fc.dm, Deviation(fc, t, i, b));
    var p := fc.profiles[t];
    var q := Deviation(fc, t, i, b);
    StoredProfileResolvable(fc, t);
    DeviationResolvable(fc, t, i, b);
    var F := FeasibleOf(fc, p);
    var G := FeasibleOf(fc, q);
    var vF := VarsOf(fc, p);
    var vG := VarsOf(fc, q);
    assert BallotClauses(fc, t, i, b) == BlockClauses(b, F, vF, G, vG);
    BlockMembers(b, F, vF, G, vG);
    var a, j :| 0 <= a < |F| && 0 <= j < |G| && Prefers(b, F[a], G[j]) && clause == [-vF[a], -vG[j]];
    var c1, c2 := F[a], G[j];
    assert GetVariable(fc.dm, p, c1) == Some(vF[a]);
    assert GetVariable(fc.dm, q, c2) == Some(vG[j]);
    assert ManipulationCase(fc, t, i, b, c1, c2);
    assert IsManipulationClause(fc, clause, t, i, b, c1, c2);
  }

  /** A manipulation clause for (t, i, b) is in the ballot-b block of voter i at t. */
  lemma ManipulationClauseInBallot(fc: Constructor, clause: Clause, t: int, i: int, b: Ballot,
                                   c1: Committee, c2: Committee)
    requires Wellformed(fc) && IsManipulationClause(fc, clause, t, i, b, c1, c2)
    ensures clause in BallotClauses(fc, t, i, b)
  {
    var p := fc.profiles[t];
    var q := Deviation(fc, t, i, b);
    StoredProfileResolvable(fc, t);
    DeviationResolvable(fc, t, i, b);
    var F := FeasibleOf(fc, p);
    var G := FeasibleOf(fc, q);
    var vF := VarsOf(fc, p);
    var vG := VarsOf(fc, q);
    assert BallotClauses(fc, t, i, b) == BlockClauses(b, F, vF, G, vG);
    var a :| 0 <= a < |F| && F[a] == c1;
    var j :| 0 <= j < |G| && G[j] == c2;
    assert GetVariable(fc.dm, p, c1) == Some(vF[a]);
    assert GetVariable(fc.dm, q, c2) == Some(vG[j]);
    InBlock(b, F, vF, G, vG, a, j, clause);
  }

  lemma ManipulatorClauseIsManipulation(fc: Constructor, t: int, i: int, clause: Clause)
    requires Wellformed(fc) && 0 <= t < |fc.profiles| && 0 <= i < |fc.profiles[t]|
    requires clause in ManipulatorClauses(fc, t, i)
    ensures exists b, c1, c2 :: IsManipulationClause(fc, clause, t, i, b, c1, c2)
  {
    var cells := seq(|fc.ballots|, jb requires 0 <= jb < |fc.ballots| => BallotClauses(fc, t, i, fc.ballots[jb]));
    var jb := FlattenFind(cells, clause);
    BallotClauseIsManipulation(fc, t, i, fc.ballots[jb], clause);
  }

  /** The clauses of one ballot are among those of its voter. */
  lemma BallotInManipulator(fc: Constructor, t: int, i: int, b: Ballot, clause: Clause)
    requires Wellformed(fc) && 0 <= t < |fc.profiles| && 0 <= i < |fc.profiles[t]| && b in fc.ballots
    requires clause in BallotClauses(fc, t, i, b)
    ensures clause in ManipulatorClauses(fc, t, i)
  {
    var cells := seq(|fc.ballots|, jb requires 0 <= jb < |fc.ballots| => BallotClauses(fc, t, i, fc.ballots[jb]));
    var jb :| 0 <= jb < |fc.ballots| && fc.ballots[jb] == b;
    FlattenHas(cells, jb, clause);
  }

  lemma ProfileClauseIsManipulation(fc: Constructor, t: int, clause: Clause)
    requires Wellformed(fc) && 0 <= t < |fc.profiles|
    requires clause in ProfileClauses(fc, t)
    ensures exists i, b, c1, c2 :: IsManipulationClause(fc, clause, t, i, b, c1, c2)
  {
    var cells := seq(|fc.profiles[t]|, i requires 0 <= i < |fc.profiles[t]| => ManipulatorClauses(fc, t, i));
    var i := FlattenFind(cells, clause);
    ManipulatorClauseIsManipulation(fc, t, i, clause);
  }

  /** The clauses of one voter are among those of the profile. */
  lemma ManipulatorInProfile(fc: Constructor, t: int, i: int, clause: Clause)
    requires Wellformed(fc) && 0 <= t < |fc.profiles| && 0 <= i < |fc.profiles[t]|
    requires clause in ManipulatorClauses(fc, t, i)
    ensures clause in ProfileClauses(fc, t)
  {
    var cells := seq(|fc.profiles[t]|, i requires 0 <= i < |fc.profiles[t]| => ManipulatorClauses(fc, t, i));
    FlattenHas(cells, i, clause);
  }

  /** The clauses of one profile are written. */
  lemma ProfileInConstraints(fc: Constructor, t: int, clause: Clause)
    requires Wellformed(fc) && 0 <= t < |fc.profiles|
    requires clause in ProfileClauses(fc, t)
    ensures clause in StrategyproofnessConstraints(fc)
  {
    var cells := seq(|fc.profiles|, t requires 0 <= t < |fc.profiles| => ProfileClauses(fc, t));
    FlattenHas(cells, t, clause);
    DedupElems(StrategyproofnessCandidates(fc));
    assert clause in Elems(StrategyproofnessCandidates(fc));
  }

  /** A written strategy-proofness clause is a manipulation clause. */
  lemma ConstraintIsManipulation(fc: Constructor, clause: Clause)
    requires Wellformed(fc) && clause in StrategyproofnessConstraints(fc)
    ensures exists t, i, b, c1, c2 :: IsManipulationClause(fc, clause, t, i, b, c1, c2)
  {
    var cells := seq(|fc.profiles|, t requires 0 <= t < |fc.profiles| => ProfileClauses(fc, t));
    DedupElems(StrategyproofnessCandidates(fc));
    assert clause in Elems(StrategyproofnessCandidates(fc));
    var t := FlattenFind(cells, clause);
    ProfileClauseIsManipulation(fc, t, clause);
  }

  /** Every manipulation clause is written. */
  lemma ManipulationClauseWritten(fc: Constructor, clause: Clause, t: int, i: int, b: Ballot,
                                  c1: Committee, c2: Committee)
    requires Wellformed(fc) && IsManipulationClause(fc, clause, t, i, b, c1, c2)
    ensures clause in StrategyproofnessConstraints(fc)
  {
    ManipulationClauseInBallot(fc, clause, t, i, b, c1, c2);
    BallotInManipulator(fc, t, i, b, clause);
    ManipulatorInProfile(fc, t, i, clause);
    ProfileInConstraints(fc, t, clause);
  }

  /** The strategy-proofness clauses are exactly the clauses of the
      manipulation cases, each written once. */
  lemma StrategyproofnessClausesCharacterised(fc: Constructor)
    requires Wellformed(fc)
    ensures Distinct(StrategyproofnessConstraints(fc))
    ensures forall clause :: clause in StrategyproofnessConstraints(fc) <==>
              exists t, i, b, c1, c2 :: IsManipulationClause(fc, clause, t, i, b, c1, c2)
  {
    DedupElems(StrategyproofnessCandidates(fc));
    forall clause, t, i, b, c1, c2 | IsManipulationClause(fc, clause, t, i, b, c1, c2)
      ensures clause in StrategyproofnessConstraints(fc)
    {
      ManipulationClauseWritten(fc, clause, t, i, b, c1, c2);
    }
    forall clause | clause in StrategyproofnessConstraints(fc)
      ensures exists t, i, b, c1, c2 :: IsManipulationClause(fc, clause, t, i, b, c1, c2)
    {
      ConstraintIsManipulation(fc, clause);
    }
  }

  /** Variables of two different profile positions are different positive
      numbers. */
  lemma VariablesAtDifferentProfiles(dm: Manager, p: Profile, q: Profile, c1: Committee, c2: Committee)
    requires ProfileToListIndex(dm, p).Some? && ProfileToListIndex(dm, q).Some?
    requires ProfileToListIndex(dm, p) != ProfileToListIndex(dm, q)
    requires c1 in dm.committeesToListIndex && dm.committeesToListIndex[c1] < dm.multiplier
    requires c2 in dm.committeesToListIndex && dm.committeesToListIndex[c2] < dm.multiplier
    ensures GetVariable(dm, p, c1).Some? && GetVariable(dm, q, c2).Some?
    ensures GetVariable(dm, p, c1).value > 0 && GetVariable(dm, q, c2).value > 0
    ensures GetVariable(dm, p, c1).value != GetVariable(dm, q, c2).value
  {
    var p1 := ProfileToListIndex(dm, p).value;
    var p2 := ProfileToListIndex(dm, q).value;
    var ci1 := dm.committeesToListIndex[c1];
    var ci2 := dm.committeesToListIndex[c2];
    VariablesDistinct(dm.multiplier, 0, p1, ci1, p2, ci2);
    VariableRoundTrip(dm.multiplier, p1, ci1);
    VariableRoundTrip(dm.multiplier, p2, ci2);
  }

  /** The two literals of a manipulation clause are negations of two different
      positive variables: the deviation is a profile other than t. */
  lemma ManipulationClauseLiterals(fc: Constructor, clause: Clause, t: int, i: int, b: Ballot,
                                   c1: Committee, c2: Committee)
    requires Wellformed(fc) && IsManipulationClause(fc, clause, t, i, b, c1, c2)
    ensures |clause| == 2 && clause[0] < 0 && clause[1] < 0 && clause[0] != clause[1]
  {
    var q := Deviation(fc, t, i, b);
    StoredProfileResolvable(fc, t);
    DeviationResolvable(fc, t, i, b);
    DeviationElsewhere(fc, t, i, b);
    BuiltIsValid(fc.dm, fc.ballots, fc.committees, fc.profiles, fc.feasible);
    assert c1 in fc.dm.committeesToListIndex && c2 in fc.dm.committeesToListIndex;
    VariablesAtDifferentProfiles(fc.dm, fc.profiles[t], q, c1, c2);
  }


  /** The clause of one manipulation case. */
  lemma CaseClause(fc: Constructor, t: int, i: int, b: Ballot, c1: Committee, c2: Committee)
    returns (clause: Clause)
    requires Wellformed(fc) && ManipulationCase(fc, t, i, b, c1, c2)
    ensures IsManipulationClause(fc, clause, t, i, b, c1, c2)
  {
    clause := [-GetVariable(fc.dm, fc.profiles[t], c1).value,
               -GetVariable(fc.dm, Deviation(fc, t, i, b), c2).value];
  }

  /** The clause [-x, -y] over positive x, y holds iff not both x and y are true. */
  lemma NegativePairHolds(a: set<int>, clause: Clause, x: int, y: int)
    requires x > 0 && y > 0 && |clause| == 2 && clause[0] == -x && clause[1] == -y
    ensures ClauseHolds(a, clause) <==> !(x in a && y in a)
  {
    assert LiteralHolds(a, clause[0]) <==> x !in a;
    assert LiteralHolds(a, clause[1]) <==> y !in a;
  }

  /** A manipulation clause holds iff the assignment does not choose both of its committees. */
  lemma ManipulationClauseHolds(fc: Constructor, a: set<int>, clause: Clause, t: int, i: int, b: Ballot,
                                c1: Committee, c2: Committee)
    requires Wellformed(fc) && IsManipulationClause(fc, clause, t, i, b, c1, c2)
    ensures ClauseHolds(a, clause) <==>
            !(GetVariable(fc.dm, fc.profiles[t], c1).value in a &&
              GetVariable(fc.dm, Deviation(fc, t, i, b), c2).value in a)
  {
    ManipulationClauseLiterals(fc, clause, t, i, b, c1, c2);
    NegativePairHolds(a, clause, GetVariable(fc.dm, fc.profiles[t], c1).value,
                      GetVariable(fc.dm, Deviation(fc, t, i, b), c2).value);
  }

  /** An assignment satisfies the strategy-proofness clauses iff in no
      manipulation case it chooses both c1 at t and c2 at the deviation. */
  lemma StrategyproofnessSemantics(fc: Constructor, a: set<int>)
    requires Wellformed(fc)
    ensures Holds(a, StrategyproofnessConstraints(fc)) <==>
            forall t, i, b, c1, c2 :: ManipulationCase(fc, t, i, b, c1, c2) ==>
              !(GetVariable(fc.dm, fc.profiles[t], c1).value in a &&
                GetVariable(fc.dm, Deviation(fc, t, i, b), c2).value in a)
  {
    var sp := StrategyproofnessConstraints(fc);
    if Holds(a, sp) {
      forall t, i, b, c1, c2 | ManipulationCase(fc, t, i, b, c1, c2)
        ensures !(GetVariable(fc.dm, fc.profiles[t], c1).value in a &&
                  GetVariable(fc.dm, Deviation(fc, t, i, b), c2).value in a)
      {
        var clause := CaseClause(fc, t, i, b, c1, c2);
        ManipulationClauseWritten(fc, clause, t, i, b, c1, c2);
        ManipulationClauseHolds(fc, a, clause, t, i, b, c1, c2);
      }
    }
    if forall t, i, b, c1, c2 :: ManipulationCase(fc, t, i, b, c1, c2) ==>
         !(GetVariable(fc.dm, fc.profiles[t], c1).value in a &&
           GetVariable(fc.dm, Deviation(fc, t, i, b), c2).value in a) {
      forall clause | clause in sp
        ensures ClauseHolds(a, clause)
      {
        ConstraintIsManipulation(fc, clause);
        var t, i, b, c1, c2 :| IsManipulationClause(fc, clause, t, i, b, c1, c2);
        ManipulationClauseHolds(fc, a, clause, t, i, b, c1, c2);
      }
    }
  }

  // ---------------------------------------------------------------------------
  // The range of the variables

  /** Every literal of `formula` has its absolute value in [lo, hi). */
  predicate LiteralsWithin(formula: seq<Clause>, lo: int, hi: int) {
    forall clause, j :: clause in formula && 0 <= j < |clause| ==> lo <= Abs(clause[j]) < hi
  }

  /** The bound below which every variable of the formula lies. */
  function VariableBound(fc: Constructor): int {
    fc.dm.multiplier * (|fc.profiles| + 1)
  }

  /** A variable that can be looked up belongs to a stored profile position and
      a committee position, so lies in [multiplier, multiplier * (P + 1)). */
  lemma VariableInRange(fc: Constructor, profile: Profile, c: Committee)
    requires Wellformed(fc) && GetVariable(fc.dm, profile, c).Some?
    ensures fc.dm.multiplier <= GetVariable(fc.dm, profile, c).value < VariableBound(fc)
  {
    var p := ProfileToListIndex(fc.dm, profile).value;
    assert p < |CanonicalKeys(fc.dm.ballotsToListIndex, fc.profiles)|;
    BuiltIsValid(fc.dm, fc.ballots, fc.committees, fc.profiles, fc.feasible);
    var ci := fc.dm.committeesToListIndex[c];
    assert GetVariable(fc.dm, profile, c) == Some(VariableOf(fc.dm.multiplier, p, ci));
    VariablesDistinct(fc.dm.multiplier, |fc.profiles|, p, ci, p, ci);
  }

  /** The exactly-one clauses over variables in [lo, hi) keep their literals there. */
  lemma ExactlyOneWithin(vars: seq<int>, lo: int, hi: int)
    requires 0 <= lo
    requires forall j :: 0 <= j < |vars| ==> lo <= vars[j] < hi
    ensures LiteralsWithin(ExactlyOneClauses(vars), lo, hi)
  {
    PairClausesMembers(vars);
    forall clause, j | clause in ExactlyOneClauses(vars) && 0 <= j < |clause|
      ensures lo <= Abs(clause[j]) < hi
    {
      if clause != vars {
        assert clause in PairClauses(vars);
        var x, y :| 0 <= x < y < |vars| && clause == [-vars[x], -vars[y]];
      }
    }
  }

  lemma ProfileConstraintsInRange(fc: Constructor, t: int)
    requires Wellformed(fc) && 0 <= t < |fc.profiles|
    ensures LiteralsWithin(ProfileConstraints(fc, t), fc.dm.multiplier, VariableBound(fc))
  {
    var vars := ProfileVars(fc, t);
    forall j | 0 <= j < |vars| ensures fc.dm.multiplier <= vars[j] < VariableBound(fc) {
      VariableInRange(fc, fc.profiles[t], fc.feasible[t][j]);
    }
    ExactlyOneWithin(vars, fc.dm.multiplier, VariableBound(fc));
  }

  /** Every literal of the function constraints is a variable of a stored profile, up to sign. */
  lemma FunctionConstraintsInRange(fc: Constructor)
    requires Wellformed(fc)
    ensures LiteralsWithin(FunctionConstraints(fc), fc.dm.multiplier, VariableBound(fc))
  {
    var blocks := seq(|fc.profiles|, t requires 0 <= t < |fc.profiles| => ProfileConstraints(fc, t));
    forall clause, j | clause in FunctionConstraints(fc) && 0 <= j < |clause|
      ensures fc.dm.multiplier <= Abs(clause[j]) < VariableBound(fc)
    {
      var t := FlattenFind(blocks, clause);
      ProfileConstraintsInRange(fc, t);
    }
  }

  /** The literals -x and -y of a two-literal clause lie in the range of x and y. */
  lemma NegativePairWithin(clause: Clause, x: int, y: int, lo: int, hi: int)
    requires |clause| == 2 && clause[0] == -x && clause[1] == -y
    requires 0 <= lo <= x < hi && lo <= y < hi
    ensures LiteralsWithin([clause], lo, hi)
  {
  }

  /** Both literals of a manipulation clause are variables of stored profiles, negated. */
  lemma ManipulationClauseInRange(fc: Constructor, clause: Clause, t: int, i: int, b: Ballot,
                                  c1: Committee, c2: Committee)
    requires Wellformed(fc) && IsManipulationClause(fc, clause, t, i, b, c1, c2)
    ensures LiteralsWithin([clause], fc.dm.multiplier, VariableBound(fc))
  {
    var v1 := GetVariable(fc.dm, fc.profiles[t], c1).value;
    var v2 := GetVariable(fc.dm, Deviation(fc, t, i, b), c2).value;
    VariableInRange(fc, fc.profiles[t], c1);
    VariableInRange(fc, Deviation(fc, t, i, b), c2);
    NegativePairWithin(clause, v1, v2, fc.dm.multiplier, VariableBound(fc));
  }

  /** Every literal of the strategy-proofness clauses is a variable of a stored profile, negated. */
  lemma StrategyproofnessInRange(fc: Constructor)
    requires Wellformed(fc)
    ensures LiteralsWithin(StrategyproofnessConstraints(fc), fc.dm.multiplier, VariableBound(fc))
  {
    forall clause | clause in StrategyproofnessConstraints(fc)
      ensures LiteralsWithin([clause], fc.dm.multiplier, VariableBound(fc))
    {
      ConstraintIsManipulation(fc, clause);
      var t, i, b, c1, c2 :| IsManipulationClause(fc, clause, t, i, b, c1, c2);
      ManipulationClauseInRange(fc, clause, t, i, b, c1, c2);
    }
    forall clause, j | clause in StrategyproofnessConstraints(fc) && 0 <= j < |clause|
      ensures fc.dm.multiplier <= Abs(clause[j]) < VariableBound(fc)
    {
      assert clause in [clause];
    }
  }

  // ---------------------------------------------------------------------------
  // Empty clauses

  /** The exactly-one clauses hold the empty clause only over no variables. */
  lemma ExactlyOneEmpty(vars: seq<int>)
    ensures [] in ExactlyOneClauses(vars) <==> vars == []
  {
    PairClausesMembers(vars);
  }

  /** The function constraints hold an empty clause exactly when some stored
      profile has no feasible committee: its at-least-one clause is empty. */
  lemma EmptyFunctionClause(fc: Constructor)
    requires Wellformed(fc)
    ensures [] in FunctionConstraints(fc) <==> exists t :: 0 <= t < |fc.profiles| && fc.feasible[t] == []
  {
    var blocks := seq(|fc.profiles|, t requires 0 <= t < |fc.profiles| => ProfileConstraints(fc, t));
    var empty: Clause := [];
    if empty in FunctionConstraints(fc) {
      var t := FlattenFind(blocks, empty);
      ExactlyOneEmpty(ProfileVars(fc, t));
    }
    if exists t :: 0 <= t < |fc.profiles| && fc.feasible[t] == [] {
      var t :| 0 <= t < |fc.profiles| && fc.feasible[t] == [];
      assert ProfileVars(fc, t) == empty;
      assert empty in blocks[t];
      FlattenHas(blocks, t, empty);
    }
  }

  /** Every strategy-proofness clause has two literals. */
  lemma StrategyproofnessClausesArePairs(fc: Constructor)
    requires Wellformed(fc)
    ensures forall clause :: clause in StrategyproofnessConstraints(fc) ==> |clause| == 2
  {
    forall clause | clause in StrategyproofnessConstraints(fc) ensures |clause| == 2 {
      ConstraintIsManipulation(fc, clause);
    }
  }

  /** There are function constraints iff there are stored profiles. */
  lemma FunctionConstraintsEmpty(fc: Constructor)
    requires Wellformed(fc)
    ensures FunctionConstraints(fc) == [] <==> |fc.profiles| == 0
  {
    var blocks := seq(|fc.profiles|, t requires 0 <= t < |fc.profiles| => ProfileConstraints(fc, t));
    if |fc.profiles| > 0 {
      assert ProfileVars(fc, 0) in blocks[0];
      FlattenHas(blocks, 0, ProfileVars(fc, 0));
    }
  }

  /** Without stored profiles there are no strategy-proofness clauses. */
  lemma StrategyproofnessWithoutProfiles(fc: Constructor)
    requires Wellformed(fc) && |fc.profiles| == 0
    ensures StrategyproofnessConstraints(fc) == []
  {
    var sp := StrategyproofnessConstraints(fc);
    if sp != [] {
      ConstraintIsManipulation(fc, sp[0]);
    }
  }

  /** Where empty clauses and empty parts can occur. */
  lemma ConstraintShapes(fc: Constructor)
    requires Wellformed(fc)
    ensures [] in FunctionConstraints(fc) <==> exists t :: 0 <= t < |fc.profiles| && fc.feasible[t] == []
    ensures [] !in StrategyproofnessConstraints(fc)
    ensures FunctionConstraints(fc) == [] <==> |fc.profiles| == 0
    ensures FunctionConstraints(fc) == [] ==> StrategyproofnessConstraints(fc) == []
  {
    EmptyFunctionClause(fc);
    StrategyproofnessClausesArePairs(fc);
    FunctionConstraintsEmpty(fc);
    if |fc.profiles| == 0 {
      StrategyproofnessWithoutProfiles(fc);
    }
  }
}
