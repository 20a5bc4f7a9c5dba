/** The lookup tables of DataManager.py: positions of ballots, committees and
    canonical profiles, the variable numbering, and the manipulation table. */
module DataManager {
  import opened Common

  /** A DataManager object. Every field is set once, in the constructor.
      Ballots are dictionary keys as sets (the source keys them by
      `tuple(ballot)`), profiles by the tuple of their ballot indices. */
  datatype Manager = Manager(
    multiplier: nat,
    ballots: seq<Ballot>,
    ballotsToListIndex: map<Ballot, nat>,
    committeesToListIndex: map<Committee, nat>,
    profilesToListIndexDict: map<seq<int>, nat>,
    feasibleCommitteesForAllProfiles: seq<seq<Committee>>,
    manipulationTable: seq<seq<seq<bool>>>)

  // ---------------------------------------------------------------------------
  // Position dictionaries

  /** `m` maps every element of `s` to a position holding it, and no later
      position holds it (a later assignment overwrites an earlier one). */
  predicate IsPositionMap<T(==)>(s: seq<T>, m: map<T, nat>) {
    && m.Keys == Elems(s)
    && (forall x :: x in m ==> m[x] < |s| && s[m[x]] == x)
    && (forall x, j :: x in m && m[x] < j < |s| ==> s[j] != x)
  }

  /** _list_to_list_position_dict. */
  method ListToListPositionDict<T(==)>(s: seq<T>) returns (m: map<T, nat>)
    ensures IsPositionMap(s, m)
  {
    m := map[];
    for i := 0 to |s|
      invariant IsPositionMap(s[..i], m)
    {
      assert s[..i + 1] == s[..i] + [s[i]];
      m := m[s[i] := i];
    }
    assert s[..|s|] == s;
  }

  /** A list has exactly one position dictionary. */
  lemma PositionMapUnique<T>(s: seq<T>, m1: map<T, nat>, m2: map<T, nat>)
    requires IsPositionMap(s, m1) && IsPositionMap(s, m2)
    ensures m1 == m2
  {
    forall x | x in m1 ensures m1[x] == m2[x] {
      assert s[m1[x]] == x && s[m2[x]] == x;
    }
  }

  /** For a list without repetitions the dictionary inverts the list. */
  lemma PositionMapOfDistinct<T>(s: seq<T>, m: map<T, nat>)
    requires Distinct(s) && IsPositionMap(s, m)
    ensures forall i :: 0 <= i < |s| ==> s[i] in m && m[s[i]] == i
  {
    forall i | 0 <= i < |s| ensures s[i] in m && m[s[i]] == i {
      assert s[i] in Elems(s);
    }
  }

  // ---------------------------------------------------------------------------
  // Manipulation table

  /** A voter with ballot b prefers c1 to c2: c1 gives more seats to parties b
      approves. */
  predicate Prefers(b: Ballot, c1: Committee, c2: Committee) {
    ApprovedSeats(c1, b) > ApprovedSeats(c2, b)
  }

  /** `table[b][i][j]` says whether ballots[b] prefers committees[i] to
      committees[j]. */
  predicate IsManipulationTable(table: seq<seq<seq<bool>>>, committees: seq<Committee>, ballots: seq<Ballot>) {
    && |table| == |ballots|
    && (forall b :: 0 <= b < |ballots| ==> |table[b]| == |committees|)
    && (forall b, i :: 0 <= b < |ballots| && 0 <= i < |committees| ==> |table[b][i]| == |committees|)
    && (forall b, i, j :: 0 <= b < |ballots| && 0 <= i < |committees| && 0 <= j < |committees| ==>
          table[b][i][j] == Prefers(ballots[b], committees[i], committees[j]))
  }

  /** _compute_manipulation_table. */
  method ComputeManipulationTable(committees: seq<Committee>, ballots: seq<Ballot>)
    returns (table: seq<seq<seq<bool>>>)
    ensures IsManipulationTable(table, committees, ballots)
  {
    table := [];
    for b := 0 to |ballots|
      invariant |table| == b
      invariant forall b' :: 0 <= b' < b ==> |table[b']| == |committees|
      invariant forall b', i :: 0 <= b' < b && 0 <= i < |committees| ==> |table[b'][i]| == |committees|
      invariant forall b', i, j :: 0 <= b' < b && 0 <= i < |committees| && 0 <= j < |committees| ==>
                  table[b'][i][j] == Prefers(ballots[b'], committees[i], committees[j])
    {
      var ballot := ballots[b];
      var preferenceTable: seq<seq<bool>> := [];
      for i := 0 to |committees|
        invariant |preferenceTable| == i
        invariant forall i' :: 0 <= i' < i ==> |preferenceTable[i']| == |committees|
        invariant forall i', j :: 0 <= i' < i && 0 <= j < |committees| ==>
                    preferenceTable[i'][j] == Prefers(ballot, committees[i'], committees[j])
      {
        var item: seq<bool> := [];
        for j := 0 to |committees|
          invariant |item| == j
          invariant forall j' :: 0 <= j' < j ==> item[j'] == Prefers(ballot, committees[i], committees[j'])
        {
          item := item + [ApprovedSeats(committees[i], ballot) > ApprovedSeats(committees[j], ballot)];
        }
        preferenceTable := preferenceTable + [item];
      }
      table := table + [preferenceTable];
    }
  }

  /** A voter prefers c1 to c2 only when c1 seats some party the voter
      approves, and (for committees of one size) c2 seats some party the voter
      does not approve; no voter prefers a committee to itself, and the
      preference is transitive. */
  lemma PreferenceFacts(b: Ballot, c1: Committee, c2: Committee, c3: Committee)
    ensures Prefers(b, c1, c2) ==> exists i :: 0 <= i < |c1| && c1[i] in b
    ensures Prefers(b, c1, c2) && |c1| == |c2| ==> exists i :: 0 <= i < |c2| && c2[i] !in b
    ensures !Prefers(b, c1, c1)
    ensures Prefers(b, c1, c2) ==> !Prefers(b, c2, c1)
    ensures Prefers(b, c1, c2) && Prefers(b, c2, c3) ==> Prefers(b, c1, c3)
  {
    if Prefers(b, c1, c2) {
      assert ApprovedSeats(c1, b) != 0;
      if |c1| == |c2| {
        assert ApprovedSeats(c2, b) != |c2|;
      }
    }
  }

  // ---------------------------------------------------------------------------
  // Ballot indices and canonical profiles

  predicate KnowsBallots(bi: map<Ballot, nat>, profile: Profile) {
    forall b :: b in profile ==> b in bi
  }

  /** `[ballots_to_list_index[tuple(ballot)] for ballot in profile]`. */
  function BallotIndices(bi: map<Ballot, nat>, profile: Profile): (r: seq<int>)
    requires KnowsBallots(bi, profile)
    ensures |r| == |profile| && forall j :: 0 <= j < |profile| ==> r[j] == bi[profile[j]]
  {
    seq(|profile|, j requires 0 <= j < |profile| => bi[profile[j]])
  }

  /** `profiles_by_ballot_indices` of _build_profiles_to_list_index_dict: each
      profile as its sorted tuple of ballot indices. */
  function CanonicalKeys(bi: map<Ballot, nat>, profiles: seq<Profile>): (r: seq<seq<int>>)
    requires forall i :: 0 <= i < |profiles| ==> KnowsBallots(bi, profiles[i])
    ensures |r| == |profiles|
    ensures forall i :: 0 <= i < |profiles| ==> r[i] == Sort(BallotIndices(bi, profiles[i]))
  {
    seq(|profiles|, i requires 0 <= i < |profiles| => Sort(BallotIndices(bi, profiles[i])))
  }

  /** _build_profiles_to_list_index_dict. */
  method BuildProfilesToListIndexDict(bi: map<Ballot, nat>, profiles: seq<Profile>)
    returns (dict: map<seq<int>, nat>)
    requires forall i :: 0 <= i < |profiles| ==> KnowsBallots(bi, profiles[i])
    ensures IsPositionMap(CanonicalKeys(bi, profiles), dict)
  {
    var keys := seq(|profiles|, i requires 0 <= i < |profiles| => Sort(BallotIndices(bi, profiles[i])));
    assert keys == CanonicalKeys(bi, profiles);
    dict := ListToListPositionDict(keys);
  }

  // ---------------------------------------------------------------------------
  // Construction

  /** The state the constructor establishes. */
  predicate Built(dm: Manager, ballots: seq<Ballot>, committees: seq<Committee>, profiles: seq<Profile>,
                  feasible: seq<seq<Committee>>)
  {
    && dm.multiplier == |committees|
    && dm.ballots == ballots
    && IsPositionMap(ballots, dm.ballotsToListIndex)
    && IsPositionMap(committees, dm.committeesToListIndex)
    && (forall i :: 0 <= i < |profiles| ==> KnowsBallots(dm.ballotsToListIndex, profiles[i]))
    && IsPositionMap(CanonicalKeys(dm.ballotsToListIndex, profiles), dm.profilesToListIndexDict)
    && dm.feasibleCommitteesForAllProfiles == feasible
    && IsManipulationTable(dm.manipulationTable, committees, ballots)
  }

  /** DataManager.__init__. Every ballot of every profile must be one of the
      ballots (the source raises KeyError otherwise). */
  method NewDataManager(ballots: seq<Ballot>, committees: seq<Committee>, profiles: seq<Profile>,
                        feasible: seq<seq<Committee>>)
    returns (dm: Manager)
    requires forall i, b :: 0 <= i < |profiles| && b in profiles[i] ==> b in ballots
    ensures Built(dm, ballots, committees, profiles, feasible)
  {
    var ballotsToListIndex := ListToListPositionDict(ballots);
    var committeesToListIndex := ListToListPositionDict(committees);
    forall i | 0 <= i < |profiles| ensures KnowsBallots(ballotsToListIndex, profiles[i]) {
      forall b | b in profiles[i] ensures b in ballotsToListIndex {
        assert b in Elems(ballots);
      }
    }
    var profilesDict := BuildProfilesToListIndexDict(ballotsToListIndex, profiles);
    var table := ComputeManipulationTable(committees, ballots);
    dm := Manager(|committees|, ballots, ballotsToListIndex, committeesToListIndex, profilesDict, feasible, table);
  }

  // ---------------------------------------------------------------------------
  // Lookups. A lookup the source performs on a missing key (KeyError) or past
  // the end of a list (IndexError) gives None.

  /** _profile_to_list_index: the ballot indices are looked up as given,
      without sorting. */
  function ProfileToListIndex(dm: Manager, profile: Profile): (r: Option<nat>)
    ensures !KnowsBallots(dm.ballotsToListIndex, profile) ==> r.None?
  {
    if KnowsBallots(dm.ballotsToListIndex, profile) &&
       BallotIndices(dm.ballotsToListIndex, profile) in dm.profilesToListIndexDict
    then Some(dm.profilesToListIndexDict[BallotIndices(dm.ballotsToListIndex, profile)])
    else None
  }

  /** get_committee_index. */
  function GetCommitteeIndex(dm: Manager, committee: Committee): (r: Option<nat>)
    ensures r.Some? <==> committee in dm.committeesToListIndex
  {
    if committee in dm.committeesToListIndex then Some(dm.committeesToListIndex[committee]) else None
  }

  /** The number of the variable for profile position p and committee position c. */
  function VariableOf(multiplier: nat, p: nat, c: nat): int {
    multiplier * (1 + p) + c
  }

  /** get_variable: absent exactly where either lookup of the source fails. */
  function GetVariable(dm: Manager, profile: Profile, committee: Committee): (r: Option<int>)
    ensures r.Some? <==> ProfileToListIndex(dm, profile).Some? && GetCommitteeIndex(dm, committee).Some?
  {
    match (ProfileToListIndex(dm, profile), GetCommitteeIndex(dm, committee))
    case (Some(p), Some(c)) => Some(VariableOf(dm.multiplier, p, c))
    case _ => None
  }

  /** A variable found for a profile and a committee numbered below the
      multiplier decodes to the two positions it was made from. */
  lemma GetVariableDecodes(dm: Manager, profile: Profile, committee: Committee)
    requires GetVariable(dm, profile, committee).Some?
    requires GetCommitteeIndex(dm, committee).value < dm.multiplier
    ensures GetVariable(dm, profile, committee).value >= dm.multiplier
    ensures DecodeVariable(dm.multiplier, GetVariable(dm, profile, committee).value) ==
              (ProfileToListIndex(dm, profile).value, GetCommitteeIndex(dm, committee).value)
  {
    VariableRoundTrip(dm.multiplier, ProfileToListIndex(dm, profile).value, GetCommitteeIndex(dm, committee).value);
  }

  /** The inverse of the variable numbering. */
  function DecodeVariable(multiplier: nat, v: int): (nat, nat)
    requires multiplier > 0 && v >= multiplier
  {
    (v / multiplier - 1, v % multiplier)
  }

  /** Variables are numbered injectively: decoding recovers the profile and the
      committee position when the committee position is below the multiplier. */
  lemma VariableRoundTrip(multiplier: nat, p: nat, c: nat)
    requires c < multiplier
    ensures VariableOf(multiplier, p, c) >= multiplier
    ensures DecodeVariable(multiplier, VariableOf(multiplier, p, c)) == (p, c)
  {
    var v := VariableOf(multiplier, p, c);
    MulAtLeast(multiplier, 1 + p);
    DivUnique(v, multiplier, 1 + p, c);
  }

  /** Distinct (profile, committee) positions get distinct variables, all in
      [multiplier, multiplier * (P + 1)) for P profiles. */
  lemma VariablesDistinct(multiplier: nat, profileCount: nat, p1: nat, c1: nat, p2: nat, c2: nat)
    requires c1 < multiplier && c2 < multiplier
    ensures VariableOf(multiplier, p1, c1) == VariableOf(multiplier, p2, c2) <==> p1 == p2 && c1 == c2
    ensures p1 < profileCount ==>
              multiplier <= VariableOf(multiplier, p1, c1) < multiplier * (profileCount + 1)
  {
    VariableRoundTrip(multiplier, p1, c1);
    VariableRoundTrip(multiplier, p2, c2);
    if p1 < profileCount {
      assert multiplier * (profileCount + 1) == multiplier * (1 + p1) + multiplier * (profileCount - p1);
      MulAtLeast(multiplier, profileCount - p1);
    }
  }

  /** get_feasible_committees_for_profile. */
  function GetFeasibleCommitteesForProfile(dm: Manager, profile: Profile): (r: Option<seq<Committee>>)
    ensures r.Some? <==>
              ProfileToListIndex(dm, profile).Some? &&
              ProfileToListIndex(dm, profile).value < |dm.feasibleCommitteesForAllProfiles|
  {
    match ProfileToListIndex(dm, profile)
    case Some(i) => if i < |dm.feasibleCommitteesForAllProfiles| then Some(dm.feasibleCommitteesForAllProfiles[i]) else None
    case None => None
  }

  /** is_profile_known: the sorted ballot indices are a key. Every ballot must
      be known (the source raises KeyError otherwise). */
  predicate IsProfileKnown(dm: Manager, profile: Profile)
    requires KnowsBallots(dm.ballotsToListIndex, profile)
  {
    Sort(BallotIndices(dm.ballotsToListIndex, profile)) in dm.profilesToListIndexDict
  }

  /** The ballot dictionary points into the ballot list. */
  predicate BallotIndexValid(dm: Manager) {
    forall b :: b in dm.ballotsToListIndex ==>
      dm.ballotsToListIndex[b] < |dm.ballots| && dm.ballots[dm.ballotsToListIndex[b]] == b
  }

  lemma SortedIndicesBelow(s: seq<int>, bound: int)
    requires IndicesBelow(s, bound)
    ensures IndicesBelow(Sort(s), bound)
  {
    SortSpec(s);
    forall i | 0 <= i < |Sort(s)| ensures 0 <= Sort(s)[i] < bound {
      assert Sort(s)[i] in multiset(Sort(s));
    }
  }

  /** get_anonymous_profile: the ballots in the order of their indices. */
  function GetAnonymousProfile(dm: Manager, profile: Profile): (r: Profile)
    requires BallotIndexValid(dm) && KnowsBallots(dm.ballotsToListIndex, profile)
    ensures |r| == |profile|
  {
    var idx := BallotIndices(dm.ballotsToListIndex, profile);
    assert IndicesBelow(idx, |dm.ballots|);
    SortSpec(idx);
    SortedIndicesBelow(idx, |dm.ballots|);
    ToBallots(dm.ballots, Sort(idx))
  }

  /** The anonymous profile holds the same ballots, each as often, as the
      profile. */
  lemma AnonymousProfileIsPermutation(dm: Manager, profile: Profile)
    requires BallotIndexValid(dm) && KnowsBallots(dm.ballotsToListIndex, profile)
    ensures multiset(GetAnonymousProfile(dm, profile)) == multiset(profile)
  {
    var idx := BallotIndices(dm.ballotsToListIndex, profile);
    assert IndicesBelow(idx, |dm.ballots|);
    SortSpec(idx);
    SortedIndicesBelow(idx, |dm.ballots|);
    var f := (i: int) => if 0 <= i < |dm.ballots| then dm.ballots[i] else {};
    PointwiseMultiset(Sort(idx), idx, GetAnonymousProfile(dm, profile), profile, f);
  }

  /** Reordering the voters changes neither the anonymous profile nor whether
      the profile is known. */
  lemma AnonymousProfileIgnoresVoterOrder(dm: Manager, p: Profile, q: Profile)
    requires BallotIndexValid(dm)
    requires KnowsBallots(dm.ballotsToListIndex, p) && KnowsBallots(dm.ballotsToListIndex, q)
    requires multiset(p) == multiset(q)
    ensures GetAnonymousProfile(dm, p) == GetAnonymousProfile(dm, q)
    ensures IsProfileKnown(dm, p) == IsProfileKnown(dm, q)
  {
    var bi := dm.ballotsToListIndex;
    var f := (b: Ballot) => if b in bi then bi[b] as int else 0;
    PointwiseMultiset(p, q, BallotIndices(bi, p), BallotIndices(bi, q), f);
    SortPermutationInvariant(BallotIndices(bi, p), BallotIndices(bi, q));
  }

  /** With distinct ballots, the ballot indices of an anonymous profile are its
      sorted indices, so the anonymous profile of an anonymous profile is
      itself and a known profile's anonymous profile has a position. */
  lemma AnonymousProfileCanonical(dm: Manager, profile: Profile)
    requires IsPositionMap(dm.ballots, dm.ballotsToListIndex) && Distinct(dm.ballots)
    requires KnowsBallots(dm.ballotsToListIndex, profile)
    ensures BallotIndexValid(dm)
    ensures KnowsBallots(dm.ballotsToListIndex, GetAnonymousProfile(dm, profile))
    ensures BallotIndices(dm.ballotsToListIndex, GetAnonymousProfile(dm, profile)) ==
            Sort(BallotIndices(dm.ballotsToListIndex, profile))
    ensures GetAnonymousProfile(dm, GetAnonymousProfile(dm, profile)) == GetAnonymousProfile(dm, profile)
    ensures IsProfileKnown(dm, profile) <==> ProfileToListIndex(dm, GetAnonymousProfile(dm, profile)).Some?
  {
    var bi := dm.ballotsToListIndex;
    PositionMapOfDistinct(dm.ballots, bi);
    var idx := BallotIndices(bi, profile);
    assert IndicesBelow(idx, |dm.ballots|);
    SortSpec(idx);
    SortedIndicesBelow(idx, |dm.ballots|);
    var anon := GetAnonymousProfile(dm, profile);
    forall b | b in anon ensures b in bi {
      var j :| 0 <= j < |anon| && anon[j] == b;
      assert b == dm.ballots[Sort(idx)[j]];
    }
    assert BallotIndices(bi, anon) == Sort(idx);
    SortOfSorted(Sort(idx));
  }

  /** voter_prefers_committee1_to_committee2. */
  function VoterPrefersCommittee1ToCommittee2(dm: Manager, ballot: Ballot, c1: Committee, c2: Committee)
    : (r: Option<bool>)
    ensures r.Some? ==>
              ballot in dm.ballotsToListIndex && c1 in dm.committeesToListIndex && c2 in dm.committeesToListIndex
  {
    if ballot in dm.ballotsToListIndex && c1 in dm.committeesToListIndex && c2 in dm.committeesToListIndex &&
       dm.ballotsToListIndex[ballot] < |dm.manipulationTable| &&
       dm.committeesToListIndex[c1] < |dm.manipulationTable[dm.ballotsToListIndex[ballot]]| &&
       dm.committeesToListIndex[c2] <
         |dm.manipulationTable[dm.ballotsToListIndex[ballot]][dm.committeesToListIndex[c1]]|
    then Some(dm.manipulationTable[dm.ballotsToListIndex[ballot]][dm.committeesToListIndex[c1]][dm.committeesToListIndex[c2]])
    else None
  }

  /** In a constructed manager the table lookup answers whether the voter's
      ballot approves more seats of c1 than of c2. */
  lemma VoterPrefersMeansMoreApprovedSeats(dm: Manager, ballots: seq<Ballot>, committees: seq<Committee>,
                                           profiles: seq<Profile>, feasible: seq<seq<Committee>>,
                                           ballot: Ballot, c1: Committee, c2: Committee)
    requires Built(dm, ballots, committees, profiles, feasible)
    requires ballot in ballots && c1 in committees && c2 in committees
    ensures VoterPrefersCommittee1ToCommittee2(dm, ballot, c1, c2) == Some(Prefers(ballot, c1, c2))
  {
    assert ballot in Elems(ballots) && c1 in Elems(committees) && c2 in Elems(committees);
  }

  /** A constructed manager has a valid ballot dictionary and numbers the
      committees below the multiplier. */
  lemma BuiltIsValid(dm: Manager, ballots: seq<Ballot>, committees: seq<Committee>, profiles: seq<Profile>,
                     feasible: seq<seq<Committee>>)
    requires Built(dm, ballots, committees, profiles, feasible)
    ensures BallotIndexValid(dm)
    ensures forall c :: c in dm.committeesToListIndex ==> dm.committeesToListIndex[c] < dm.multiplier
    ensures forall c :: c in committees <==> GetCommitteeIndex(dm, c).Some?
  {
    forall c | c in committees ensures c in dm.committeesToListIndex {
      assert c in Elems(committees);
    }
  }

  /** A profile whose ballot indices are already sorted is found at the last
      position whose canonical key equals its own; when the canonical keys are
      distinct that is its own position, and its feasible committees are its
      own entry of the table. */
  lemma SortedProfileIndex(dm: Manager, ballots: seq<Ballot>, committees: seq<Committee>,
                           profiles: seq<Profile>, feasible: seq<seq<Committee>>, i: int)
    requires Built(dm, ballots, committees, profiles, feasible)
    requires 0 <= i < |profiles|
    requires SortedInts(BallotIndices(dm.ballotsToListIndex, profiles[i]))
    ensures ProfileToListIndex(dm, profiles[i]).Some?
    ensures var j := ProfileToListIndex(dm, profiles[i]).value;
            j < |profiles| &&
            CanonicalKeys(dm.ballotsToListIndex, profiles)[j] == CanonicalKeys(dm.ballotsToListIndex, profiles)[i]
    ensures Distinct(CanonicalKeys(dm.ballotsToListIndex, profiles)) ==>
              ProfileToListIndex(dm, profiles[i]) == Some(i) &&
              (|feasible| == |profiles| ==> GetFeasibleCommitteesForProfile(dm, profiles[i]) == Some(feasible[i]))
  {
    var keys := CanonicalKeys(dm.ballotsToListIndex, profiles);
    SortOfSorted(BallotIndices(dm.ballotsToListIndex, profiles[i]));
    assert keys[i] in Elems(keys);
    if Distinct(keys) {
      PositionMapOfDistinct(keys, dm.profilesToListIndexDict);
    }
  }

  /** A profile is found only at the position of a stored profile whose
      canonical key is the profile's own index tuple, so only when its ballots
      are listed in index order. */
  lemma FoundProfileIsStored(dm: Manager, ballots: seq<Ballot>, committees: seq<Committee>,
                             profiles: seq<Profile>, feasible: seq<seq<Committee>>, profile: Profile)
    requires Built(dm, ballots, committees, profiles, feasible)
    requires ProfileToListIndex(dm, profile).Some?
    ensures KnowsBallots(dm.ballotsToListIndex, profile)
    ensures var j := ProfileToListIndex(dm, profile).value;
            j < |profiles| &&
            CanonicalKeys(dm.ballotsToListIndex, profiles)[j] == BallotIndices(dm.ballotsToListIndex, profile)
    ensures SortedInts(BallotIndices(dm.ballotsToListIndex, profile))
  {
    var keys := CanonicalKeys(dm.ballotsToListIndex, profiles);
    var j := ProfileToListIndex(dm, profile).value;
    assert j < |keys| && keys[j] == BallotIndices(dm.ballotsToListIndex, profile);
    SortSpec(BallotIndices(dm.ballotsToListIndex, profiles[j]));
  }

  /** In a constructed manager a committee has an index exactly when it is a
      committee; the index points at it, and over distinct committees every
      committee is found at its own position. */
  lemma CommitteeIndexOfBuilt(dm: Manager, ballots: seq<Ballot>, committees: seq<Committee>,
                              profiles: seq<Profile>, feasible: seq<seq<Committee>>, c: Committee)
    requires Built(dm, ballots, committees, profiles, feasible)
    ensures GetCommitteeIndex(dm, c).Some? <==> c in committees
    ensures GetCommitteeIndex(dm, c).Some? ==>
              GetCommitteeIndex(dm, c).value < |committees| && committees[GetCommitteeIndex(dm, c).value] == c
    ensures Distinct(committees) ==>
              forall i :: 0 <= i < |committees| ==> GetCommitteeIndex(dm, committees[i]) == Some(i)
  {
    assert c in committees ==> c in Elems(committees);
    if Distinct(committees) {
      PositionMapOfDistinct(committees, dm.committeesToListIndex);
    }
  }

  /** The ballot indices of a profile determine it. */
  lemma BallotIndicesInjective(dm: Manager, p: Profile, q: Profile)
    requires BallotIndexValid(dm)
    requires KnowsBallots(dm.ballotsToListIndex, p) && KnowsBallots(dm.ballotsToListIndex, q)
    ensures BallotIndices(dm.ballotsToListIndex, p) == BallotIndices(dm.ballotsToListIndex, q) <==> p == q
  {
    var bi := dm.ballotsToListIndex;
    if BallotIndices(bi, p) == BallotIndices(bi, q) {
      forall j | 0 <= j < |p| ensures p[j] == q[j] {
        assert p[j] in p && q[j] in q;
        assert bi[p[j]] == BallotIndices(bi, p)[j] == BallotIndices(bi, q)[j] == bi[q[j]];
      }
    }
  }

  /** Over distinct ballots, looking up the ballots at given positions gives
      the positions back. */
  lemma IndicesOfToBallots(ballots: seq<Ballot>, bi: map<Ballot, nat>, idx: seq<int>)
    requires IsPositionMap(ballots, bi) && Distinct(ballots) && IndicesBelow(idx, |ballots|)
    ensures KnowsBallots(bi, ToBallots(ballots, idx))
    ensures BallotIndices(bi, ToBallots(ballots, idx)) == idx
  {
    var p := ToBallots(ballots, idx);
    forall b | b in p ensures b in bi {
      var j :| 0 <= j < |p| && p[j] == b;
      assert ballots[idx[j]] in Elems(ballots);
    }
    forall j | 0 <= j < |idx| ensures bi[p[j]] == idx[j] {
      assert ballots[bi[p[j]]] == p[j] == ballots[idx[j]];
    }
  }
}
