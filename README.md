# P-APP impossibility encoder, modelled in Dafny

The system encodes into CNF (and writes as a DIMACS file) the question whether
a party-approval election rule on small instances can be
weakly representative (and, optionally, Pareto-optimal) and strategy-proof
at once.

An instance has three sizes:
- `m` parties;
- committees of size `k`, each a multiset of parties, given as a sorted list;
- profiles of `n` voters, each voter casting an approval ballot, that is a
  non-empty set of parties.

The system enumerates:
- the ballots;
- the committees;
- the profiles, in canonical form (an anonymous profile is a multiset of
  ballots). On request it keeps only a restricted domain of profiles.

For each profile it computes the committees that pass the configured axioms:
- weak representation, either naive or refined;
- Pareto optimality, when configured.

A data manager numbers one Boolean variable per pair of a profile and a
committee: "the rule picks this committee at this profile". The formula then
has four parts:
- an optional symmetry-breaking clause;
- for every profile, "exactly one feasible committee is picked";
- for every possible misreport of a voter, "not both of these two outcomes";
- these clauses, written in DIMACS form.

The Dafny project follows four of the repository's five modules (the
command-line entry point is left out). FormulaConstructor.py is split in two,
and two modules, `Common` and `Dimacs`, have no source module of their own:

| Dafny module | file | source |
|---|---|---|
| `Common` | common.dfy | shared types (ballots as `set<int>`, committees and profiles as sequences), filtering, sorting, deduplication |
| `PAPPElectionBuilder` | election_builder.dfy | PAPPElectionBuilder.py |
| `AxiomHelper` | axiom_helper.dfy | AxiomHelper.py |
| `DataManager` | data_manager.dfy | DataManager.py |
| `Dimacs` | dimacs.dfy | the DIMACS text that `write_formula` writes, and a reader for it |
| `FormulaConstructor` | formula_constructor.dfy | the two constraint writers of FormulaConstructor.py |
| `FormulaWriter` | formula_writer.dfy | the constructor, the symmetry-breaking clause and `write_formula` of FormulaConstructor.py |

The Python objects only assign their fields in their constructors. They are
therefore modelled as immutable datatypes, `DataManager.Manager` and
`FormulaConstructor.Constructor`, or as plain parameters (`AxiomHelper.Config`).

Each loop of the source is a `method` with loop invariants, except the search
loop of `_profile_contains_subset_list` (AxiomHelper.py:65-68). That loop sits
inside a recursive function and only calls back into the recursion, so it
stays recursive like its source: `SubsetListFrom` walks the positions that the
`for` loop visits.

Each method's `ensures` ties the result to a specification function, and
lemmas state what that function means: its members, its order, its count, its
semantics under an assignment, or its round trip.

Two Python dictionaries are keyed differently here:
- Dictionaries keyed by `tuple(ballot)` are keyed by the ballot set itself.
- The approval-count dictionary of `compute_numbers_of_approvals` is keyed by
  `tuple(committee + ballot)`. It is keyed here by the pair `(committee,
  ballot)`. Every committee has exactly `k` members, so the two keys identify
  the same entries.

Truth assignments are sets of the variables set to true (`Holds`).

### Interpretations

- `n / k` (a float in the source) is the integer comparison
  `score * k >= n`, with `k > 0`. `ceil(n / k)` is `(n + k - 1) / k`.
- A dictionary lookup that raises `KeyError` or `IndexError` gives an
  `Option` value `None` (`ProfileToListIndex`, `GetVariable`,
  `GetFeasibleCommitteesForProfile`, `VoterPrefersCommittee1ToCommittee2`,
  `SymmetryBreakingClause`). `WriteFormula` then returns `None`, where the
  source raises an exception.
- `max` over an empty list raises in `write_formula` (line 88). Here
  `MaxAbsLiteral` and `DimacsText` are `None`. `FormulaWritable` proves this
  happens exactly when the formula has no clause, or when some profile has no
  feasible committee (which gives an empty clause).
- `compute_approval_profiles` with `m == 0` and `profile_all` unset takes `max`
  of an empty score list, and raises, as soon as there is one profile to score.
  That is the case when there is a ballot, or when `n == 0` (the one empty
  profile). With no ballots and `n > 0` there is no profile and it returns `[]`.
  `ComputeApprovalProfiles` requires exactly the remaining inputs:
  `profileAll || m > 0 || (ballots == [] && n > 0)`. `InRestrictedDomain` is
  false when `m == 0`; on those inputs it is never evaluated.
- `MeetsRequirements` is false when the approval table has no entry `(c, b)`.
  There the source raises `KeyError` (AxiomHelper.py:94). The table that the
  constructor builds has every committee/ballot pair (`ComputeNumbersOfApprovals`),
  so on the constructor's path the two never differ.
- The strategy-proofness loop (FormulaConstructor.py:45-65) compares the two
  committees with the substituted `ballot`. So it forbids outcome `c1` at the
  profile `P` together with outcome `c2` at the deviated profile `P'`,
  whenever the voter whose sincere ballot in `P'` is `ballot` prefers `c1`.
  That is the usual strategy-proofness condition, read from `P'`: the voter
  would misreport `P[i]` to obtain `c1`. The loop covers every profile as `P`,
  so every direction appears.
- The header's variable count is the largest literal that actually occurs in
  the formula (line 88). It is not the number `(|profiles| + 1) *
  |committees|` of variables that could occur. `FormulaReadBack` proves
  `multiplier <= V < multiplier * (|profiles| + 1)`.

## Model

| member | source | states |
|---|---|---|
| PAPPElectionBuilder.ComputeApprovalBallots | PAPPElectionBuilder.py:24-31 | the ballots are the bit-decoded sets of codes 1 .. 2^m - 1, dropping the last (full) ballot unless every profile is wanted; their count in both cases |
| PAPPElectionBuilder.FullBallotIsLastCode | PAPPElectionBuilder.py:29-30 | the dropped last ballot is the set of all parties |
| PAPPElectionBuilder.ApprovalBallotsWellFormed | PAPPElectionBuilder.py:27-28 | every generated ballot is non-empty, contains only parties 0..m-1, and no ballot repeats |
| PAPPElectionBuilder.BallotOfCodeInjective | PAPPElectionBuilder.py:28 | different codes below 2^m decode to different ballots |
| PAPPElectionBuilder.ComputeAllCommittees | PAPPElectionBuilder.py:33-36 | the committees are exactly the non-decreasing length-k lists over 0..m-1, in strictly increasing lexicographic order, hence distinct |
| PAPPElectionBuilder.MultisetsExact | PAPPElectionBuilder.py:35 | combinations with replacement yield a list exactly when it is a non-decreasing length-k list within the value range |
| PAPPElectionBuilder.ComputeApprovalScores | PAPPElectionBuilder.py:15-22 | the score of each party is the number of ballots of the profile approving it |
| PAPPElectionBuilder.ApprovalScoresSum | PAPPElectionBuilder.py:15-22 | for ballots within the parties, the scores sum to the total number of approvals in the profile |
| PAPPElectionBuilder.ComputeApprovalProfiles | PAPPElectionBuilder.py:38-48 | all multisets of n ballots in combination order, or those whose largest score is at most 4 and whose scores sum to at most 11 |
| PAPPElectionBuilder.AllProfilesSpec | PAPPElectionBuilder.py:40 | every enumerated profile has n voters, each casting one of the ballots, listed by non-decreasing ballot index |
| AxiomHelper.ComputeUniqueApprovalScores | AxiomHelper.py:24-31 | the unique-approval score of each party is the number of voters whose ballot is exactly that party |
| AxiomHelper.UniqueApprovalScoresSumBounded | AxiomHelper.py:24-31 | unique-approval scores sum to at most the number of voters |
| AxiomHelper.ParetoDominance | AxiomHelper.py:34-41 | true exactly when no ballot approves party2 without party1 and some ballot approves party1 without party2; never for one party with itself or for an empty profile |
| AxiomHelper.DominanceIsStrictPartialOrder | AxiomHelper.py:34-41 | dominance is irreflexive, asymmetric and transitive |
| AxiomHelper.FilterCommitteesFailingParetoOptimality | AxiomHelper.py:51-58 | keeps, in order, the committees none of whose members is dominated by any party |
| AxiomHelper.ParetoFilterSpec | AxiomHelper.py:51-58 | the kept committees are a sub-list of the input, and a committee is kept exactly when no seated party is dominated |
| AxiomHelper.FilterCommitteesFailingWeakRepresentation | AxiomHelper.py:44-48 | keeps, in order, the committees seating every deserving party |
| AxiomHelper.NaiveFilterSpec | AxiomHelper.py:44-48 | a committee is kept exactly when it seats every party whose unique-approval score times k reaches n |
| AxiomHelper.UnanimousProfileSeatsParty | AxiomHelper.py:44-48 | if every voter approves only p, every kept committee seats p |
| AxiomHelper.ProfileContainsSubsetList | AxiomHelper.py:61-69 | a negative length, or a positive one running past the end of the profile, never finds a chain |
| AxiomHelper.ChainSearchCorrect | AxiomHelper.py:61-69 | the recursive search succeeds exactly when there are `length` increasing positions from `start` whose ballots form a chain of subsets below the input set |
| AxiomHelper.ReducedProfileSpec | AxiomHelper.py:87-88 | the reduced profile holds only ballots of the profile that are not contained in the deserving parties |
| AxiomHelper.ComputeRequiredNumbersOfApprovedMembers | AxiomHelper.py:78-92 | the requirement map has exactly the profile's ballots as keys, each mapped to its requirement |
| AxiomHelper.BaseRequirements | AxiomHelper.py:78-85 | first pass: 1 for a singleton ballot of a deserving party, 0 otherwise, for every ballot of the profile |
| AxiomHelper.RaiseChainRequirements | AxiomHelper.py:89-92 | second pass: a ballot heading a long enough subset chain in the reduced profile requires one more than its deserving parties; other entries stay |
| AxiomHelper.RequirementCases | AxiomHelper.py:78-92 | the requirement is 1 for a deserving singleton, one plus its deserving parties for a chain head, and 0 otherwise |
| AxiomHelper.FilterCommitteesFailingWeakRepresentationClever | AxiomHelper.py:93-95 | keeps, in order, the committees meeting every ballot's requirement according to the approval table |
| AxiomHelper.MeetsRequirements | AxiomHelper.py:93-95 | every ballot of the profile has an entry for the committee that reaches its requirement (a predicate; its meaning is stated by the next row) |
| AxiomHelper.RefinedFilterCountsSeats | AxiomHelper.py:93-95 | with the computed approval table, meeting the requirements means every ballot of the profile sees at least its required number of approved seats |
| AxiomHelper.ComputeNumbersOfApprovals | AxiomHelper.py:98-104 | the table has exactly the committee/ballot pairs as keys, each giving the number of seats held by approved parties, between 0 and the committee size |
| AxiomHelper.ComputeFeasibleCommitteesForAllProfiles | AxiomHelper.py:107-119 | one list per profile, obtained by the configured weak-representation filter followed by the optional Pareto filter |
| AxiomHelper.FeasibleCommitteesSpec | AxiomHelper.py:107-119 | the feasible committees are a sub-list of all committees, and a committee is feasible exactly when it passes the configured filters |
| DataManager.ListToListPositionDict | DataManager.py:46-52 | every element maps to a position holding it, with no later position holding it (a later write wins) |
| DataManager.PositionMapOfDistinct | DataManager.py:46-52 | for a list without repeats the dictionary inverts the list |
| DataManager.PositionMapUnique | DataManager.py:46-52 | a list has only one such dictionary |
| DataManager.BuildProfilesToListIndexDict | DataManager.py:33-38 | the profile dictionary is the position dictionary of the sorted ballot-index lists of the profiles |
| DataManager.ComputeManipulationTable | DataManager.py:16-31 | table[b][i][j] says whether ballot b gives committee i more approved seats than committee j |
| DataManager.PreferenceFacts | DataManager.py:27-28 | preference is irreflexive and transitive; a preferred committee seats an approved party and the other an unapproved one |
| DataManager.NewDataManager | DataManager.py:6-14 | the multiplier is the number of committees and every table is built from the lists as the constructor does |
| DataManager.BuiltIsValid | DataManager.py:6-14 | after construction ballot indices are valid, committee indices are below the multiplier, and a committee has an index exactly when it is a committee |
| DataManager.ProfileToListIndex | DataManager.py:40-44 | absent whenever a ballot of the profile is unknown, where the source raises KeyError |
| DataManager.FoundProfileIsStored | DataManager.py:40-44 | in a constructed manager a profile that is found has known ballots, sorted ballot indices, and those indices are the key of the stored profile at the found position |
| DataManager.GetCommitteeIndex | DataManager.py:54-56 | present exactly when the committee is a key of the committee dictionary |
| DataManager.CommitteeIndexOfBuilt | DataManager.py:54-56 | in a constructed manager a committee has an index exactly when it is a committee, the index points at it, and for distinct committees it is the committee's own position |
| DataManager.GetVariable | DataManager.py:58-62 | present exactly when both the profile lookup and the committee lookup succeed |
| DataManager.GetVariableDecodes | DataManager.py:58-62 | a found variable is at least the multiplier and decodes back to the profile position and committee index it was made from |
| DataManager.VariableRoundTrip | DataManager.py:58-62 | a variable is at least the multiplier and decodes back to its profile and committee index |
| DataManager.VariablesDistinct | DataManager.py:58-62 | variables of different (profile, committee) pairs differ, and stay below multiplier * (profiles + 1) |
| DataManager.GetFeasibleCommitteesForProfile | DataManager.py:64-67 | present exactly when the profile is found at a position that has a feasible list |
| DataManager.GetAnonymousProfile | DataManager.py:76-80 | the anonymous profile has as many voters as the profile |
| DataManager.AnonymousProfileIsPermutation | DataManager.py:76-80 | the anonymous profile holds the same ballots with the same multiplicities |
| DataManager.AnonymousProfileIgnoresVoterOrder | DataManager.py:69-80 | profiles with the same ballots have the same anonymous profile and are known together |
| DataManager.AnonymousProfileCanonical | DataManager.py:69-80 | the anonymous profile lists ballot indices in sorted order, is a fixed point, and is found in the profile dictionary exactly when the profile is known |
| DataManager.SortedProfileIndex | DataManager.py:40-44 | a stored profile with sorted ballot indices is found, at its own position when the keys are distinct |
| DataManager.BallotIndicesInjective | DataManager.py:43 | two profiles have the same ballot-index lists exactly when they are equal |
| DataManager.VoterPrefersCommittee1ToCommittee2 | DataManager.py:82-87 | an answer is given only for a known ballot and two known committees |
| DataManager.VoterPrefersMeansMoreApprovedSeats | DataManager.py:82-87 | the table lookup answers whether the ballot gives the first committee more approved seats |
| Dimacs.IntToStringRoundTrip | FormulaConstructor.py:94 | the decimal text of a literal is non-empty, has no space or line break, and reads back as the literal |
| Dimacs.MaxAbsLiteral | FormulaConstructor.py:88 | absent exactly for an empty formula or one with an empty clause; otherwise the largest absolute literal |
| Dimacs.DimacsRoundTrip | FormulaConstructor.py:88-96 | a formula without zero literals reads back from its text as (largest variable, clause count, clauses) |
| FormulaConstructor.WritePappFunctionConstraints | FormulaConstructor.py:25-38 | the clauses are, per profile, its feasible variables and then one negative pair per two feasible committees |
| FormulaConstructor.WritePairClauses | FormulaConstructor.py:34-37 | the nested loop over two positions writes the pair clauses of the feasible variables |
| FormulaConstructor.PairClausesMembers | FormulaConstructor.py:34-37 | the pair clauses are exactly the negated pairs of two distinct positions, in combination order |
| FormulaConstructor.ExactlyOneSemantics | FormulaConstructor.py:33-37 | one profile's clauses hold exactly when exactly one of its feasible variables is true |
| FormulaConstructor.ProfileConstraintCount | FormulaConstructor.py:33-37 | a profile with f feasible committees contributes 1 + f(f-1)/2 clauses |
| FormulaConstructor.FunctionConstraintsSemantics | FormulaConstructor.py:25-38 | all these clauses hold exactly when every profile picks exactly one feasible committee |
| FormulaConstructor.WriteStrategyproofnessConstraint | FormulaConstructor.py:40-66 | the clauses are the candidate clauses in loop order, each kept on its first occurrence |
| FormulaConstructor.DeviationIndices | FormulaConstructor.py:50-53 | the deviated profile replaces one voter's ballot index, and its anonymous form lists the sorted indices |
| FormulaConstructor.DeviationElsewhere | FormulaConstructor.py:49-53 | a real change of ballot never yields the same stored profile |
| FormulaConstructor.StrategyproofnessClausesCharacterised | FormulaConstructor.py:40-66 | the written clauses are distinct, and a clause is written exactly when it forbids a profitable misreport to a known profile |
| FormulaConstructor.ManipulationClauseLiterals | FormulaConstructor.py:61-62 | every such clause has two different negative literals |
| FormulaConstructor.StrategyproofnessSemantics | FormulaConstructor.py:40-66 | let P' be a stored profile P with voter i's ballot replaced by another ballot b; the clauses hold exactly when the assignment never picks a feasible c1 at P together with a feasible c2 at P' when b prefers c1 to c2, that is, no voter whose sincere ballot at P' is b gains a preferred c1 by reporting P[i] instead |
| FormulaConstructor.VariableInRange | DataManager.py:58-62 | every variable lies between the multiplier and multiplier * (profiles + 1) |
| FormulaConstructor.FunctionConstraintsInRange | FormulaConstructor.py:25-38 | every literal of the function constraints is within that range |
| FormulaConstructor.StrategyproofnessInRange | FormulaConstructor.py:40-66 | every literal of the strategy-proofness clauses is within that range |
| FormulaConstructor.EmptyFunctionClause | FormulaConstructor.py:33 | an empty clause appears exactly when some profile has no feasible committee |
| FormulaConstructor.ConstraintShapes | FormulaConstructor.py:25-66 | no empty strategy-proofness clause; no function constraints exactly when there are no profiles, and then no strategy-proofness clauses |
| FormulaWriter.NewFormulaConstructor | FormulaConstructor.py:11-23 | ballots, committees, profiles and feasible committees are those of the builder and axiom helper, and the data manager is built from them |
| FormulaWriter.AllProfilesDistinct | PAPPElectionBuilder.py:40 | distinct ballots give distinct enumerated profiles |
| FormulaWriter.ProfileKnownIffStored | DataManager.py:69-74 | a profile is known exactly when some stored profile has the same ballots with the same multiplicities |
| FormulaWriter.AnonymousVariable | FormulaConstructor.py:71-73 | the anonymous profile has a variable for c exactly when the profile is known and c is a committee; it decodes to a stored profile with the same ballots and to c |
| FormulaWriter.SymmetryBreakingClause | FormulaConstructor.py:68-73 | when defined, one clause with one literal per allowed committee |
| FormulaWriter.SymmetryBreakingDefined | FormulaConstructor.py:68-73 | the clause exists exactly when the tie-breaking ballots are ballots, its profile is known, and both allowed committees are committees |
| FormulaWriter.SymmetryBreakingMeaning | FormulaConstructor.py:68-73 | one clause of two positive variables, both for the tie-breaking profile, one per allowed committee |
| FormulaWriter.SymmetryBreakingHolds | FormulaConstructor.py:68-73 | the clause holds exactly when the rule picks one of the two allowed committees there |
| FormulaWriter.SymmetryBreakingInRange | FormulaConstructor.py:68-73 | both variables lie in the variable range |
| FormulaWriter.FormulaClauses | FormulaConstructor.py:76-82 | absent exactly when symmetry breaking is asked for and its clause is absent; otherwise the optional symmetry clause followed by the function constraints and the strategy-proofness clauses |
| FormulaWriter.WriteClauseLine | FormulaConstructor.py:92-95 | one clause's line: each literal followed by a space, then "0" and a line break |
| FormulaWriter.WriteDimacs | FormulaConstructor.py:89-96 | the header line followed by every clause's line |
| FormulaWriter.WriteText | FormulaConstructor.py:88-96 | the DIMACS text of the formula, absent where the source's max fails |
| FormulaWriter.WriteFormula | FormulaConstructor.py:75-96 | the text of symmetry clause, function constraints and strategy-proofness clauses in that order; absent where the source raises |
| FormulaWriter.FormulaInRange | FormulaConstructor.py:75-88 | every literal of the whole formula is a variable in range |
| FormulaWriter.FormulaWritable | FormulaConstructor.py:88 | the text exists exactly when there is a symmetry clause or a profile, and every profile has a feasible committee |
| FormulaWriter.FormulaReadBack | FormulaConstructor.py:88-96 | the header's variable count is in range, and the text reads back as the formula |
| FormulaWriter.FormulaSemantics | FormulaConstructor.py:75-82 | an assignment satisfies the formula exactly when it meets symmetry breaking (if asked), picks one feasible committee per profile, and admits no profitable misreport |
| Common.SortSpec | DataManager.py:36 | the sorted list is sorted and a permutation of the input |
| Common.SortedUnique | DataManager.py:73 | two sorted permutations of one list are equal |
| Common.FilterSpec | AxiomHelper.py:47 | a list comprehension filter keeps exactly the satisfying elements, in order |
| Common.DedupElems | FormulaConstructor.py:63-65 | deduplication keeps exactly the elements of the input, without repeats |
| Common.DedupFirstOccurrenceOrder | FormulaConstructor.py:63-65 | deduplication keeps elements in the order of their first occurrence |

## Left out

- EncodePAPPElections.py, the command-line entry point, is not part of this model.
- The `sat_solve` branch of `write_formula` (FormulaConstructor.py:83-87) calls pycosat and prints a result. It is a foreign call and output, so it is left out.
- File creation and writing in `write_formula` are not modelled. `WriteFormula` returns the text the file would hold.
- numpy arrays (`np.zeros`, `np.arange`) are sequences here. `np.sort` and `list.sort` are a functional insertion sort, `Common.Sort`, specified by sortedness and permutation.
- Python's `tuple(set)` keys are modelled by the set itself. The order in which Python iterates a set of small integers is not modelled.
- Float division and `math.ceil` on `n / k` are exact integer arithmetic. The source's floats agree for the small sizes it is run with.
- DataManager.IsProfileKnown: requires the profile's ballots to be known ballots, where the source raises `KeyError` on an unknown ballot.
- DataManager.GetAnonymousProfile: requires the same, for the same reason.
- DataManager.NewDataManager: requires every ballot of every profile to be one of the ballots, where the source raises `KeyError` while it builds the profile dictionary (DataManager.py:36). `BuildProfilesToListIndexDict` and `CanonicalKeys` require the same. The one caller, `FormulaWriter.NewFormulaConstructor`, proves that this holds.
- PAPPElectionBuilder.ComputeApprovalProfiles: requires `profileAll || m > 0 || (ballots == [] && n > 0)`. These are exactly the inputs on which the source's `max` of an empty score list does not raise.
- FormulaWriter.NewFormulaConstructor: requires `k > 0` for the exact form of `n / k`, and `profileAll || m > 0 || n > 0`, which excludes only the input on which the source's profile computation raises.
- FormulaWriter.FormulaClauses: states the order of the three parts by their lengths and by the function and strategy-proofness clauses ending the formula; the symmetry clause itself is stated by `SymmetryBreakingMeaning`.
- The strategy-proofness loop's `already_written` set is a set of clauses. The source keys it by tuples of clauses.
