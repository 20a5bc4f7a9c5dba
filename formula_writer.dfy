/** FormulaConstructor.py, continued: building a constructor from the
    election parameters, the symmetry-breaking clause, and the DIMACS file
    write_formula produces. */
module FormulaWriter {
  import opened Common
  import opened PAPPElectionBuilder
  import opened AxiomHelper
  import opened DataManager
  import opened Dimacs
  import opened FormulaConstructor

  // ---------------------------------------------------------------------------
  // __init__

  /** Every profile listed is one of the enumerated profiles over the ballots,
      and no profile is listed twice. */
  predicate EnumeratedProfiles(ballots: seq<Ballot>, n: nat, profiles: seq<Profile>) {
    && Distinct(profiles)
    && forall t :: 0 <= t < |profiles| ==> profiles[t] in AllProfiles(ballots, n)
  }

  /** Every ballot of an enumerated profile is one of the ballots. */
  lemma EnumeratedProfileBallots(ballots: seq<Ballot>, n: nat, profile: Profile)
    requires profile in AllProfiles(ballots, n)
    ensures forall b :: b in profile ==> b in ballots
  {
    var all := AllProfiles(ballots, n);
    var i :| 0 <= i < |all| && all[i] == profile;
    AllProfilesSpec(ballots, n, i);
    forall b | b in profile ensures b in ballots {
      var v :| 0 <= v < |profile| && profile[v] == b;
    }
  }

  /** An enumerated profile over distinct ballots is stored with its ballot
      indices in increasing order. */
  lemma EnumeratedProfileSorted(ballots: seq<Ballot>, bi: map<Ballot, nat>, n: nat, profile: Profile)
    requires IsPositionMap(ballots, bi) && Distinct(ballots)
    requires profile in AllProfiles(ballots, n)
    ensures KnowsBallots(bi, profile) && SortedInts(BallotIndices(bi, profile))
  {
    var all := AllProfiles(ballots, n);
    var i :| 0 <= i < |all| && all[i] == profile;
    AllProfilesSpec(ballots, n, i);
    IndicesOfToBallots(ballots, bi, Multisets(0, |ballots|, n)[i]);
  }

  /** The canonical keys of distinct enumerated profiles are distinct. */
  lemma EnumeratedKeysDistinct(dm: Manager, n: nat, profiles: seq<Profile>)
    requires IsPositionMap(dm.ballots, dm.ballotsToListIndex) && Distinct(dm.ballots)
    requires EnumeratedProfiles(dm.ballots, n, profiles)
    requires forall t :: 0 <= t < |profiles| ==> KnowsBallots(dm.ballotsToListIndex, profiles[t])
    ensures Distinct(CanonicalKeys(dm.ballotsToListIndex, profiles))
  {
    var bi := dm.ballotsToListIndex;
    var keys := CanonicalKeys(bi, profiles);
    assert BallotIndexValid(dm) by {
      forall b | b in bi ensures bi[b] < |dm.ballots| && dm.ballots[bi[b]] == b { }
    }
    forall s, t | 0 <= s < |profiles| && 0 <= t < |profiles| && s != t ensures keys[s] != keys[t] {
      EnumeratedProfileSorted(dm.ballots, bi, n, profiles[s]);
      EnumeratedProfileSorted(dm.ballots, bi, n, profiles[t]);
      SortOfSorted(BallotIndices(bi, profiles[s]));
      SortOfSorted(BallotIndices(bi, profiles[t]));
      BallotIndicesInjective(dm, profiles[s], profiles[t]);
    }
  }

  /** The enumerated profiles are distinct. */
  lemma AllProfilesDistinct(ballots: seq<Ballot>, n: nat)
    requires Distinct(ballots)
    ensures Distinct(AllProfiles(ballots, n))
  {
    var all := AllProfiles(ballots, n);
    var combos := Multisets(0, |ballots|, n);
    MultisetsLexSorted(0, |ballots|, n);
    LexSortedDistinct(combos);
    forall s, t | 0 <= s < |all| && 0 <= t < |all| && s != t ensures all[s] != all[t] {
      AllProfilesSpec(ballots, n, s);
      AllProfilesSpec(ballots, n, t);
      ToBallotsInjective(ballots, combos[s], combos[t]);
    }
  }

  /** The profiles compute_approval_profiles lists are enumerated profiles. */
  lemma ComputedProfilesEnumerated(ballots: seq<Ballot>, m: nat, n: nat, profileAll: bool,
                                   profiles: seq<Profile>)
    requires Distinct(ballots)
    requires profileAll ==> profiles == AllProfiles(ballots, n)
    requires !profileAll ==> profiles == Filter(AllProfiles(ballots, n), q => InRestrictedDomain(m, q))
    ensures EnumeratedProfiles(ballots, n, profiles)
  {
    AllProfilesDistinct(ballots, n);
    if !profileAll {
      FilterSpec(AllProfiles(ballots, n), q => InRestrictedDomain(m, q));
      FilterDistinct(AllProfiles(ballots, n), q => InRestrictedDomain(m, q));
    }
    forall t | 0 <= t < |profiles| ensures profiles[t] in AllProfiles(ballots, n) {
      assert profiles[t] in profiles;
    }
  }

  /** FormulaConstructor.__init__: ballots, committees, profiles, the feasible
      committees of every profile and the data manager over them. */
  method NewFormulaConstructor(k: nat, m: nat, n: nat, paretoOptimality: bool,
                               weakRepresentationNaive: bool, profileAll: bool)
    returns (fc: Constructor)
    requires k > 0 && (profileAll || m > 0 || n > 0)
    ensures Wellformed(fc)
    ensures fc.cfg == Config(k, m, n, paretoOptimality, weakRepresentationNaive)
    ensures forall j :: 0 <= j < |fc.ballots| ==> fc.ballots[j] == BallotOfCode(m, j + 1)
    ensures fc.committees == ComputeAllCommittees(m, k)
    ensures profileAll ==> fc.profiles == AllProfiles(fc.ballots, n)
    ensures !profileAll ==> fc.profiles == Filter(AllProfiles(fc.ballots, n), q => InRestrictedDomain(m, q))
    ensures |fc.feasible| == |fc.profiles|
    ensures forall t :: 0 <= t < |fc.profiles| ==>
              fc.feasible[t] == FeasibleCommittees(fc.cfg, fc.profiles[t], fc.committees, fc.ballots)
  {
    var ballots := ComputeApprovalBallots(m, profileAll);
    var committees := ComputeAllCommittees(m, k);
    var profiles := ComputeApprovalProfiles(ballots, m, n, profileAll);
    var cfg := Config(k, m, n, paretoOptimality, weakRepresentationNaive);
    var feasible := ComputeFeasibleCommitteesForAllProfiles(cfg, profiles, committees, ballots);
    ApprovalBallotsWellFormed(m, ballots);
    ComputedProfilesEnumerated(ballots, m, n, profileAll, profiles);
    forall t, b | 0 <= t < |profiles| && b in profiles[t] ensures b in ballots {
      EnumeratedProfileBallots(ballots, n, profiles[t]);
    }
    var dm := NewDataManager(ballots, committees, profiles, feasible);
    forall t | 0 <= t < |profiles|
      ensures SortedInts(BallotIndices(dm.ballotsToListIndex, profiles[t]))
    {
      EnumeratedProfileSorted(ballots, dm.ballotsToListIndex, n, profiles[t]);
    }
    EnumeratedKeysDistinct(dm, n, profiles);
    forall t, c | 0 <= t < |feasible| && c in feasible[t] ensures c in committees {
      FeasibleCommitteesSpec(cfg, profiles[t], committees, ballots);
    }
    fc := Constructor(cfg, ballots, committees, profiles, feasible, dm);
  }

  // ---------------------------------------------------------------------------
  // write_symmetry_breaking_clause

  /** The profile of six voters whose canonical representative the clause constrains. */
  const TieBreakingProfile: Profile := [{0}, {0, 1}, {1}, {2}, {2, 3}, {3}]

  /** The committees one of which that profile must be given. */
  const AllowedCommittees: seq<Committee> := [[0, 0, 2], [0, 1, 2]]

  /** write_symmetry_breaking_clause: one clause asking that the anonymous
      representative of the tie-breaking profile get one of the two allowed
      committees. None where a lookup of the source fails: a ballot of the
      tie-breaking profile, the profile itself or a committee is unknown. */
  function SymmetryBreakingClause(fc: Constructor): (r: Option<seq<Clause>>)
    requires Wellformed(fc)
    ensures r.Some? ==> |r.value| == 1 && |r.value[0]| == |AllowedCommittees|
  {
    if !KnowsBallots(fc.dm.ballotsToListIndex, TieBreakingProfile) then None
    else
      BuiltIsValid(fc.dm, fc.ballots, fc.committees, fc.profiles, fc.feasible);
      var tb := GetAnonymousProfile(fc.dm, TieBreakingProfile);
      var v1 := GetVariable(fc.dm, tb, AllowedCommittees[0]);
      var v2 := GetVariable(fc.dm, tb, AllowedCommittees[1]);
      if v1.Some? && v2.Some? then Some([[v1.value, v2.value]]) else None
  }

  /** The variable of committee c at the anonymous representative of a profile
      exists iff that representative is stored and c is a committee; it then
      decodes to the stored position of the representative, which is the
      profile with its voters reordered, and to the position of c. */
  lemma AnonymousVariable(fc: Constructor, profile: Profile, c: Committee)
    requires Wellformed(fc) && BallotIndexValid(fc.dm) && KnowsBallots(fc.dm.ballotsToListIndex, profile)
    ensures GetVariable(fc.dm, GetAnonymousProfile(fc.dm, profile), c).Some? <==>
              IsProfileKnown(fc.dm, profile) && c in fc.committees
    ensures GetVariable(fc.dm, GetAnonymousProfile(fc.dm, profile), c).Some? ==>
              var v := GetVariable(fc.dm, GetAnonymousProfile(fc.dm, profile), c).value;
              && 0 < fc.dm.multiplier <= v
              && var d := DecodeVariable(fc.dm.multiplier, v);
              && d.0 == ProfileToListIndex(fc.dm, GetAnonymousProfile(fc.dm, profile)).value
              && d.0 < |fc.profiles| && multiset(fc.profiles[d.0]) == multiset(profile)
              && d.1 < |fc.committees| && fc.committees[d.1] == c
  {
    var dm := fc.dm;
    var bi := dm.ballotsToListIndex;
    BuiltIsValid(dm, fc.ballots, fc.committees, fc.profiles, fc.feasible);
    AnonymousProfileCanonical(dm, profile);
    var tb := GetAnonymousProfile(dm, profile);
    if GetVariable(dm, tb, c).Some? {
      AnonymousProfileIsPermutation(dm, profile);
      var p := ProfileToListIndex(dm, tb).value;
      var keys := CanonicalKeys(bi, fc.profiles);
      assert p < |keys| && keys[p] == BallotIndices(bi, tb);
      SortOfSorted(BallotIndices(bi, fc.profiles[p]));
      BallotIndicesInjective(dm, fc.profiles[p], tb);
      var ci := dm.committeesToListIndex[c];
      VariableRoundTrip(dm.multiplier, p, ci);
    }
  }

  /** is_profile_known holds exactly when some stored profile has the same
      ballots, each as often, as the profile. */
  lemma ProfileKnownIffStored(fc: Constructor, profile: Profile)
    requires Wellformed(fc) && KnowsBallots(fc.dm.ballotsToListIndex, profile)
    ensures IsProfileKnown(fc.dm, profile) <==>
              exists t :: 0 <= t < |fc.profiles| && multiset(fc.profiles[t]) == multiset(profile)
  {
    var dm := fc.dm;
    var bi := dm.ballotsToListIndex;
    BuiltIsValid(dm, fc.ballots, fc.committees, fc.profiles, fc.feasible);
    if IsProfileKnown(dm, profile) {
      AnonymousProfileCanonical(dm, profile);
      AnonymousProfileIsPermutation(dm, profile);
      var tb := GetAnonymousProfile(dm, profile);
      FoundProfileIsStored(dm, fc.ballots, fc.committees, fc.profiles, fc.feasible, tb);
      var p := ProfileToListIndex(dm, tb).value;
      SortOfSorted(BallotIndices(bi, fc.profiles[p]));
      BallotIndicesInjective(dm, fc.profiles[p], tb);
    }
    if t :| 0 <= t < |fc.profiles| && multiset(fc.profiles[t]) == multiset(profile) {
      AnonymousProfileIgnoresVoterOrder(dm, fc.profiles[t], profile);
      var keys := CanonicalKeys(bi, fc.profiles);
      assert keys[t] in Elems(keys);
    }
  }

  /** The clause exists exactly when every ballot of the tie-breaking profile
      is a ballot, the profile is stored up to the order of the voters, and
      both allowed lists are committees. */
  lemma SymmetryBreakingDefined(fc: Constructor)
    requires Wellformed(fc)
    ensures SymmetryBreakingClause(fc).Some? <==>
              && KnowsBallots(fc.dm.ballotsToListIndex, TieBreakingProfile)
              && IsProfileKnown(fc.dm, TieBreakingProfile)
              && AllowedCommittees[0] in fc.committees && AllowedCommittees[1] in fc.committees
  {
    BuiltIsValid(fc.dm, fc.ballots, fc.committees, fc.profiles, fc.feasible);
    if KnowsBallots(fc.dm.ballotsToListIndex, TieBreakingProfile) {
      AnonymousVariable(fc, TieBreakingProfile, AllowedCommittees[0]);
      AnonymousVariable(fc, TieBreakingProfile, AllowedCommittees[1]);
    }
  }

  /** The clause is one pair of positive variables. Both decode to the same
      stored profile, the tie-breaking profile with its voters reordered, and
      to the two allowed committees. */
  lemma SymmetryBreakingMeaning(fc: Constructor)
    requires Wellformed(fc) && SymmetryBreakingClause(fc).Some?
    ensures var sym := SymmetryBreakingClause(fc).value;
            && |sym| == 1 && |sym[0]| == 2
            && 0 < fc.dm.multiplier <= sym[0][0] && fc.dm.multiplier <= sym[0][1]
            && var d1 := DecodeVariable(fc.dm.multiplier, sym[0][0]);
            && var d2 := DecodeVariable(fc.dm.multiplier, sym[0][1]);
            && d1.0 == d2.0 < |fc.profiles|
            && multiset(fc.profiles[d1.0]) == multiset(TieBreakingProfile)
            && d1.1 < |fc.committees| && fc.committees[d1.1] == AllowedCommittees[0]
            && d2.1 < |fc.committees| && fc.committees[d2.1] == AllowedCommittees[1]
  {
    BuiltIsValid(fc.dm, fc.ballots, fc.committees, fc.profiles, fc.feasible);
    AnonymousVariable(fc, TieBreakingProfile, AllowedCommittees[0]);
    AnonymousVariable(fc, TieBreakingProfile, AllowedCommittees[1]);
  }

  /** The clause holds iff one of its two variables is true. */
  lemma SymmetryBreakingHolds(fc: Constructor, a: set<int>)
    requires Wellformed(fc) && SymmetryBreakingClause(fc).Some?
    ensures Holds(a, SymmetryBreakingClause(fc).value) <==>
              SymmetryBreakingClause(fc).value[0][0] in a || SymmetryBreakingClause(fc).value[0][1] in a
  {
    var sym := SymmetryBreakingClause(fc).value;
    SymmetryBreakingShape(fc);
    PositivePairHolds(a, sym[0]);
    assert sym == [sym[0]];
    SingleClauseHolds(a, sym[0]);
  }

  /** The clause is a pair of positive literals. */
  lemma SymmetryBreakingShape(fc: Constructor)
    requires Wellformed(fc) && SymmetryBreakingClause(fc).Some?
    ensures |SymmetryBreakingClause(fc).value| == 1
    ensures |SymmetryBreakingClause(fc).value[0]| == 2
    ensures SymmetryBreakingClause(fc).value[0][0] > 0 && SymmetryBreakingClause(fc).value[0][1] > 0
  {
    SymmetryBreakingMeaning(fc);
  }

  lemma SingleClauseHolds(a: set<int>, clause: Clause)
    ensures Holds(a, [clause]) <==> ClauseHolds(a, clause)
  {
  }
  /** A clause of two positive literals holds iff one of them is true. */
  lemma PositivePairHolds(a: set<int>, clause: Clause)
    requires |clause| == 2 && clause[0] > 0 && clause[1] > 0
    ensures ClauseHolds(a, clause) <==> clause[0] in a || clause[1] in a
  {
    assert LiteralHolds(a, clause[0]) <==> clause[0] in a;
    assert LiteralHolds(a, clause[1]) <==> clause[1] in a;
  }

  /** The literals of the clause are its two variables, in the range of all variables. */
  lemma SymmetryBreakingInRange(fc: Constructor)
    requires Wellformed(fc) && SymmetryBreakingClause(fc).Some?
    ensures LiteralsWithin(SymmetryBreakingClause(fc).value, fc.dm.multiplier, VariableBound(fc))
  {
    BuiltIsValid(fc.dm, fc.ballots, fc.committees, fc.profiles, fc.feasible);
    var tb := GetAnonymousProfile(fc.dm, TieBreakingProfile);
    VariableInRange(fc, tb, AllowedCommittees[0]);
    VariableInRange(fc, tb, AllowedCommittees[1]);
    PositivePairWithin(SymmetryBreakingClause(fc).value,
                       GetVariable(fc.dm, tb, AllowedCommittees[0]).value,
                       GetVariable(fc.dm, tb, AllowedCommittees[1]).value,
                       fc.dm.multiplier, VariableBound(fc));
  }

  lemma PositivePairWithin(clauses: seq<Clause>, x: int, y: int, lo: int, hi: int)
    requires clauses == [[x, y]] && 0 <= lo <= x < hi && lo <= y < hi
    ensures LiteralsWithin(clauses, lo, hi)
  {
  }

  // ---------------------------------------------------------------------------
  // write_formula

  /** The clauses of the formula in the order they are written: the
      symmetry-breaking clause when requested, the function constraints, then
      the strategy-proofness clauses. */
  function FormulaClauses(fc: Constructor, symmetryBreaking: bool): (r: Option<seq<Clause>>)
    requires Wellformed(fc)
    ensures r.None? <==> symmetryBreaking && SymmetryBreakingClause(fc).None?
    ensures r.Some? ==>
              && |r.value| == (if symmetryBreaking then 1 else 0) +
                              |FunctionConstraints(fc) + StrategyproofnessConstraints(fc)|
              && EndsWith(r.value, FunctionConstraints(fc) + StrategyproofnessConstraints(fc))
  {
    var F := FunctionConstraints(fc);
    var S := StrategyproofnessConstraints(fc);
    if !symmetryBreaking then
      AppendEndsWith([], F, S);
      Some(F + S)
    else match SymmetryBreakingClause(fc)
      case Some(sym) =>
        AppendEndsWith(sym, F, S);
        Some(sym + F + S)
      case None => None
  }

  /** `s` ends with `t`. */
  predicate EndsWith(s: seq<Clause>, t: seq<Clause>) {
    |t| <= |s| && s[|s| - |t|..] == t
  }

  lemma AppendEndsWith(pre: seq<Clause>, f: seq<Clause>, g: seq<Clause>)
    ensures |pre + f + g| == |pre| + |f + g|
    ensures EndsWith(pre + f + g, f + g)
    ensures [] + f + g == f + g
  {
    assert (pre + f + g)[|pre|..] == f + g;
  }

  /** The writes of one clause: each literal followed by a space, then "0\n". */
  method WriteClauseLine(item: Clause) returns (out: string)
    ensures out == ClauseLine(item)
  {
    out := "";
    for e := 0 to |item|
      invariant out == Entries(item[..e])
    {
      EntriesAppend(item[..e], item[e]);
      assert item[..e + 1] == item[..e] + [item[e]];
      out := out + IntToString(item[e]) + " ";
    }
    assert item[..|item|] == item;
    ClauseLineIsEntries(item);
    out := out + "0\n";
  }

  /** The writes of write_formula once max_var is known: the header line, then
      one line per clause. */
  method WriteDimacs(formula: seq<Clause>, maxVar: nat) returns (out: string)
    ensures out == Header(maxVar, |formula|) + Lines(formula)
  {
    out := "p cnf " + NatToString(maxVar) + " " + NatToString(|formula|) + "\n";
    for i := 0 to |formula|
      invariant out == Header(maxVar, |formula|) + Lines(formula[..i])
    {
      var line := WriteClauseLine(formula[i]);
      LinesAppend(formula[..i], formula[i]);
      assert formula[..i + 1] == formula[..i] + [formula[i]];
      AppendAssoc(Header(maxVar, |formula|), Lines(formula[..i]), line);
      out := out + line;
    }
    assert formula[..|formula|] == formula;
  }

  /** write_formula, without the optional call to the SAT solver: the text of
      the DIMACS file. None where the source fails: the symmetry-breaking
      clause cannot be formed, or `max` meets an empty list (no clause at all,
      or a profile without feasible committees). */
  method WriteFormula(fc: Constructor, symmetryBreaking: bool) returns (text: Option<string>)
    requires Wellformed(fc)
    ensures FormulaClauses(fc, symmetryBreaking).None? ==> text.None?
    ensures FormulaClauses(fc, symmetryBreaking).Some? ==>
              text == DimacsText(FormulaClauses(fc, symmetryBreaking).value)
  {
    var formula: seq<Clause> := [];
    if symmetryBreaking {
      var sym := SymmetryBreakingClause(fc);
      if sym.None? {
        return None;
      }
      formula := sym.value;
    }
    ghost var initial := formula;
    var functionConstraints := WritePappFunctionConstraints(fc);
    formula := formula + functionConstraints;
    var strategyproofness := WriteStrategyproofnessConstraint(fc);
    formula := formula + strategyproofness;
    assert formula == FormulaClauses(fc, symmetryBreaking).value by {
      if !symmetryBreaking {
        assert initial + functionConstraints == functionConstraints;
      }
    }
    text := WriteText(formula);
  }

  /** The text of write_formula for the assembled clauses. */
  method WriteText(formula: seq<Clause>) returns (text: Option<string>)
    ensures text == DimacsText(formula)
  {
    var maxVar := MaxAbsLiteral(formula);
    if maxVar.None? {
      return None;
    }
    var out := WriteDimacs(formula, maxVar.value);
    text := Some(out);
  }

  // ---------------------------------------------------------------------------
  // Properties of the written formula

  /** Every literal of the formula is a variable of a stored profile, up to sign. */
  lemma FormulaInRange(fc: Constructor, symmetryBreaking: bool)
    requires Wellformed(fc) && FormulaClauses(fc, symmetryBreaking).Some?
    ensures LiteralsWithin(FormulaClauses(fc, symmetryBreaking).value, fc.dm.multiplier, VariableBound(fc))
  {
    FunctionConstraintsInRange(fc);
    StrategyproofnessInRange(fc);
    if symmetryBreaking {
      SymmetryBreakingInRange(fc);
      LiteralsWithinAppend(SymmetryBreakingClause(fc).value, FunctionConstraints(fc), fc.dm.multiplier, VariableBound(fc));
      LiteralsWithinAppend(SymmetryBreakingClause(fc).value + FunctionConstraints(fc),
                           StrategyproofnessConstraints(fc), fc.dm.multiplier, VariableBound(fc));
    } else {
      LiteralsWithinAppend(FunctionConstraints(fc), StrategyproofnessConstraints(fc),
                           fc.dm.multiplier, VariableBound(fc));
    }
  }

  lemma LiteralsWithinAppend(f: seq<Clause>, g: seq<Clause>, lo: int, hi: int)
    requires LiteralsWithin(f, lo, hi) && LiteralsWithin(g, lo, hi)
    ensures LiteralsWithin(f + g, lo, hi)
  {
  }

  /** The source's `max` succeeds, and the file can be written, exactly when
      the formula has a clause and every stored profile has a feasible
      committee. */
  lemma FormulaWritable(fc: Constructor, symmetryBreaking: bool)
    requires Wellformed(fc) && FormulaClauses(fc, symmetryBreaking).Some?
    ensures DimacsText(FormulaClauses(fc, symmetryBreaking).value).Some? <==>
              && (symmetryBreaking || |fc.profiles| > 0)
              && forall t :: 0 <= t < |fc.profiles| ==> fc.feasible[t] != []
  {
    var pre := SymmetryPart(fc, symmetryBreaking);
    ConstraintShapes(fc);
    AssembledWritable(FormulaClauses(fc, symmetryBreaking).value, pre,
                      FunctionConstraints(fc), StrategyproofnessConstraints(fc));
  }

  lemma NoEmptySingle(pre: seq<Clause>)
    requires |pre| == 1 && |pre[0]| == 2
    ensures [] !in pre && pre != []
  {
    assert pre == [pre[0]];
  }

  /** The clauses written before the function constraints: the
      symmetry-breaking clause when requested, none otherwise. */
  lemma SymmetryPart(fc: Constructor, symmetryBreaking: bool) returns (pre: seq<Clause>)
    requires Wellformed(fc) && FormulaClauses(fc, symmetryBreaking).Some?
    ensures FormulaClauses(fc, symmetryBreaking).value ==
              pre + FunctionConstraints(fc) + StrategyproofnessConstraints(fc)
    ensures [] !in pre && (pre != [] <==> symmetryBreaking)
  {
    if symmetryBreaking {
      SymmetryBreakingShape(fc);
      pre := SymmetryBreakingClause(fc).value;
      NoEmptySingle(pre);
    } else {
      pre := [];
      assert FunctionConstraints(fc) == pre + FunctionConstraints(fc);
    }
  }

  /** `max` succeeds on three parts whose outer ones hold no empty clause
      exactly when the first two are not both empty and the middle one holds
      no empty clause; the last part is empty whenever the middle one is. */
  lemma AssembledWritable(f: seq<Clause>, pre: seq<Clause>, F: seq<Clause>, S: seq<Clause>)
    requires f == pre + F + S
    requires [] !in pre && [] !in S && (F == [] ==> S == [])
    ensures MaxAbsLiteral(f).Some? <==> (pre != [] || F != []) && [] !in F
  {
    var empty: Clause := [];
    assert empty in f <==> empty in F;
    assert (exists i :: 0 <= i < |f| && f[i] == []) <==> empty in f;
  }

  /** A formula whose literals lie in [lo, hi) for lo > 0 reads back from its
      text, and the header's variable count lies in the same range. */
  lemma ReadBackWithin(f: seq<Clause>, lo: int, hi: int)
    requires LiteralsWithin(f, lo, hi) && MaxAbsLiteral(f).Some? && 0 < lo
    ensures lo <= MaxAbsLiteral(f).value < hi
    ensures DimacsText(f).Some?
    ensures ParseDimacs(DimacsText(f).value) == Some((MaxAbsLiteral(f).value, |f|, f))
  {
    var i, j :| 0 <= i < |f| && 0 <= j < |f[i]| && Abs(f[i][j]) == MaxAbsLiteral(f).value;
    assert f[i] in f;
    forall i, j | 0 <= i < |f| && 0 <= j < |f[i]| ensures f[i][j] != 0 {
      assert f[i] in f;
    }
    DimacsRoundTrip(f);
  }

  /** Some literal of a formula with literals in [lo, hi) shows lo < hi. */
  lemma RangeNonEmpty(f: seq<Clause>, lo: int, hi: int)
    requires LiteralsWithin(f, lo, hi) && MaxAbsLiteral(f).Some?
    ensures lo < hi
  {
    var i, j :| 0 <= i < |f| && 0 <= j < |f[i]| && Abs(f[i][j]) == MaxAbsLiteral(f).value;
    assert f[i] in f;
  }

  lemma PositiveMultiplier(multiplier: nat, count: nat)
    requires multiplier < multiplier * (count + 1)
    ensures multiplier > 0
  {
  }

  /** The written file reads back as the header `p cnf V C` and the formula,
      where C is the number of clauses and V, the largest variable,
      lies in [multiplier, multiplier * (P + 1)) for P stored profiles. */
  lemma FormulaReadBack(fc: Constructor, symmetryBreaking: bool)
    requires Wellformed(fc) && FormulaClauses(fc, symmetryBreaking).Some?
    requires DimacsText(FormulaClauses(fc, symmetryBreaking).value).Some?
    ensures var f := FormulaClauses(fc, symmetryBreaking).value;
            && fc.dm.multiplier <= MaxAbsLiteral(f).value < VariableBound(fc)
            && ParseDimacs(DimacsText(f).value) == Some((MaxAbsLiteral(f).value, |f|, f))
  {
    var f := FormulaClauses(fc, symmetryBreaking).value;
    FormulaInRange(fc, symmetryBreaking);
    RangeNonEmpty(f, fc.dm.multiplier, VariableBound(fc));
    PositiveMultiplier(fc.dm.multiplier, |fc.profiles|);
    ReadBackWithin(f, fc.dm.multiplier, VariableBound(fc));
  }

  /** The encoding: an assignment satisfies the formula iff it satisfies the
      symmetry-breaking clause (when requested), makes exactly one feasible
      committee true for every stored profile, and in no manipulation case
      chooses both the committee at the profile and the one at the deviation. */
  lemma FormulaSemantics(fc: Constructor, symmetryBreaking: bool, a: set<int>)
    requires Wellformed(fc) && FormulaClauses(fc, symmetryBreaking).Some?
    ensures Holds(a, FormulaClauses(fc, symmetryBreaking).value) <==>
              && (symmetryBreaking ==> Holds(a, SymmetryBreakingClause(fc).value))
              && (forall t :: 0 <= t < |fc.profiles| ==> ExactlyOneHolds(a, ProfileVars(fc, t)))
              && (forall t, i, b, c1, c2 :: ManipulationCase(fc, t, i, b, c1, c2) ==>
                    !(GetVariable(fc.dm, fc.profiles[t], c1).value in a &&
                      GetVariable(fc.dm, Deviation(fc, t, i, b), c2).value in a))
  {
    var pre := SymmetryPart(fc, symmetryBreaking);
    HoldsAppend(a, pre + FunctionConstraints(fc), StrategyproofnessConstraints(fc));
    HoldsAppend(a, pre, FunctionConstraints(fc));
    FunctionConstraintsSemantics(fc, a);
    StrategyproofnessSemantics(fc, a);
  }
}
