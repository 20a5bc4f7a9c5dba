/** The axiom filters (AxiomHelper.py): per profile, which committees survive
    weak representation (naive or refined) and, optionally, Pareto-optimality. */
module AxiomHelper {
  import opened Common

  /** The settings of an AxiomHelper object; they never change after
      construction. */
  datatype Config = Config(
    k: nat,
    m: nat,
    n: nat,
    paretoOptimality: bool,
    weakRepresentationNaive: bool)

  // ---------------------------------------------------------------------------
  // Unique-approval scores

  /** The number of voters whose ballot is exactly {p}. */
  function UniqueApprovalScore(profile: Profile, p: Party): nat
    decreases |profile|
  {
    if profile == [] then 0
    else UniqueApprovalScore(profile[..|profile| - 1], p) + (if profile[|profile| - 1] == {p} then 1 else 0)
  }

  /** _compute_unique_approval_scores: the unique-approval score of every party
      below m. */
  method ComputeUniqueApprovalScores(m: nat, profile: Profile) returns (scores: seq<int>)
    ensures |scores| == m
    ensures forall p :: 0 <= p < m ==> scores[p] == UniqueApprovalScore(profile, p)
  {
    scores := seq(m, _ => 0);
    for party := 0 to m
      invariant |scores| == m
      invariant forall p :: 0 <= p < party ==> scores[p] == UniqueApprovalScore(profile, p)
      invariant forall p :: party <= p < m ==> scores[p] == 0
    {
      ghost var before := scores;
      for j := 0 to |profile|
        invariant |scores| == m
        invariant scores[party] == UniqueApprovalScore(profile[..j], party)
        invariant forall p :: 0 <= p < m && p != party ==> scores[p] == before[p]
      {
        assert profile[..j + 1][..j] == profile[..j];
        if profile[j] == {party} {
          scores := scores[party := scores[party] + 1];
        }
      }
      assert profile[..|profile|] == profile;
    }
  }

  /** How many parties below m the ballot is the singleton of (0 or 1). */
  function SingletonHits(b: Ballot, m: nat): nat {
    if m == 0 then 0 else SingletonHits(b, m - 1) + (if b == {m - 1} then 1 else 0)
  }

  lemma {:induction false} SingletonHitsAtMostOne(b: Ballot, m: nat)
    ensures SingletonHits(b, m) == if exists q :: 0 <= q < m && b == {q} then 1 else 0
    decreases m
  {
    if m > 0 {
      SingletonHitsAtMostOne(b, m - 1);
      if b == {m - 1} {
        forall q | 0 <= q < m - 1 ensures b != {q} {
          assert m - 1 in b;
        }
      }
    }
  }

  function UniqueScoreSum(profile: Profile, m: nat): int {
    if m == 0 then 0 else UniqueScoreSum(profile, m - 1) + UniqueApprovalScore(profile, m - 1)
  }

  lemma {:induction false} UniqueScoreSumStep(profile: Profile, m: nat)
    requires profile != []
    ensures UniqueScoreSum(profile, m) ==
            UniqueScoreSum(profile[..|profile| - 1], m) + SingletonHits(profile[|profile| - 1], m)
    decreases m
  {
    if m > 0 { UniqueScoreSumStep(profile, m - 1); }
  }

  lemma {:induction false} UniqueScoreSumOfEmpty(m: nat)
    ensures UniqueScoreSum([], m) == 0
  {
    if m > 0 { UniqueScoreSumOfEmpty(m - 1); }
  }

  lemma {:induction false} UniqueScoreSumBounded(profile: Profile, m: nat)
    ensures UniqueScoreSum(profile, m) <= |profile|
    decreases |profile|
  {
    if profile == [] {
      UniqueScoreSumOfEmpty(m);
    } else {
      UniqueScoreSumBounded(profile[..|profile| - 1], m);
      UniqueScoreSumStep(profile, m);
      SingletonHitsAtMostOne(profile[|profile| - 1], m);
    }
  }

  lemma {:induction false} SumOfUniqueScores(scores: seq<int>, profile: Profile, upto: nat)
    requires upto <= |scores|
    requires forall p :: 0 <= p < |scores| ==> scores[p] == UniqueApprovalScore(profile, p)
    ensures Sum(scores[..upto]) == UniqueScoreSum(profile, upto)
    decreases upto
  {
    if upto > 0 {
      assert scores[..upto][..upto - 1] == scores[..upto - 1];
      SumOfUniqueScores(scores, profile, upto - 1);
    }
  }

  /** A ballot is the singleton of at most one party, so the unique-approval
      scores of a profile add up to at most its number of voters. */
  lemma UniqueApprovalScoresSumBounded(scores: seq<int>, profile: Profile)
    requires forall p :: 0 <= p < |scores| ==> scores[p] == UniqueApprovalScore(profile, p)
    ensures Sum(scores) <= |profile|
  {
    SumOfUniqueScores(scores, profile, |scores|);
    assert scores[..|scores|] == scores;
    UniqueScoreSumBounded(profile, |scores|);
  }

  // ---------------------------------------------------------------------------
  // Pareto dominance

  /** Party p1 Pareto-dominates p2: every voter approving p2 approves p1, and
      some voter approves p1 but not p2. */
  predicate Dominates(p1: Party, p2: Party, profile: Profile) {
    && (forall i :: 0 <= i < |profile| ==> p2 in profile[i] ==> p1 in profile[i])
    && (exists i :: 0 <= i < |profile| && p1 in profile[i] && p2 !in profile[i])
  }

  /** _pareto_dominance: a scan with an early exit and a strict-preference flag. */
  method ParetoDominance(party1: Party, party2: Party, profile: Profile) returns (r: bool)
    ensures r == Dominates(party1, party2, profile)
    ensures party1 == party2 ==> !r
    ensures profile == [] ==> !r
  {
    var strictPreference := false;
    for i := 0 to |profile|
      invariant forall j :: 0 <= j < i ==> party2 in profile[j] ==> party1 in profile[j]
      invariant strictPreference ==
                exists j :: 0 <= j < i && party1 in profile[j] && party2 !in profile[j]
    {
      var ballot := profile[i];
      if party2 in ballot && party1 !in ballot {
        return false;
      }
      if party1 in ballot && party2 !in ballot {
        strictPreference := true;
      }
    }
    return strictPreference;
  }

  /** Pareto dominance is a strict partial order on parties. */
  lemma DominanceIsStrictPartialOrder(p1: Party, p2: Party, p3: Party, profile: Profile)
    ensures !Dominates(p1, p1, profile)
    ensures Dominates(p1, p2, profile) ==> !Dominates(p2, p1, profile)
    ensures Dominates(p1, p2, profile) && Dominates(p2, p3, profile) ==> Dominates(p1, p3, profile)
  {
    if Dominates(p1, p2, profile) && Dominates(p2, p3, profile) {
      var i :| 0 <= i < |profile| && p2 in profile[i] && p3 !in profile[i];
      assert p1 in profile[i];
    }
  }

  /** Some party below `bound` dominates p2. */
  predicate DominatedBelow(bound: int, p2: Party, profile: Profile) {
    exists p1 :: 0 <= p1 < bound && Dominates(p1, p2, profile)
  }

  /** The parties below m dominated by some party below m. */
  function ParetoDominatedParties(m: nat, profile: Profile): set<Party> {
    set p2 | 0 <= p2 < m && DominatedBelow(m, p2, profile)
  }

  predicate ParetoOptimalFor(m: nat, profile: Profile, c: Committee) {
    Elems(c) !! ParetoDominatedParties(m, profile)
  }

  /** _filter_committees_failing_pareto_optimality: collect the dominated parties
      over all ordered pairs, then keep the committees that seat none of them. */
  method FilterCommitteesFailingParetoOptimality(m: nat, profile: Profile, committees: seq<Committee>)
    returns (r: seq<Committee>)
    ensures r == Filter(committees, c => ParetoOptimalFor(m, profile, c))
  {
    var dominated: set<Party> := {};
    for party1 := 0 to m
      invariant forall p :: p in dominated <==> 0 <= p < m && DominatedBelow(party1, p, profile)
    {
      for party2 := 0 to m
        invariant forall p :: p in dominated <==>
                    (0 <= p < m && DominatedBelow(party1, p, profile))
                    || (0 <= p < party2 && Dominates(party1, p, profile))
      {
        var d := ParetoDominance(party1, party2, profile);
        if d {
          dominated := dominated + {party2};
        }
      }
    }
    assert dominated == ParetoDominatedParties(m, profile);
    r := Filter(committees, c => Elems(c) !! dominated);
    FilterExt(committees, c => Elems(c) !! dominated, c => ParetoOptimalFor(m, profile, c));
  }

  /** The Pareto filter keeps, in order, exactly the committees seating no
      dominated party; every dropped committee seats a party that another party
      dominates. */
  lemma ParetoFilterSpec(m: nat, profile: Profile, committees: seq<Committee>)
    ensures IsSubList(Filter(committees, c => ParetoOptimalFor(m, profile, c)), committees)
    ensures forall c :: c in Filter(committees, c => ParetoOptimalFor(m, profile, c)) <==>
              c in committees &&
              forall i, p1 :: 0 <= i < |c| && 0 <= p1 < m && 0 <= c[i] < m ==> !Dominates(p1, c[i], profile)
  {
    var keep := (c: Committee) => ParetoOptimalFor(m, profile, c);
    FilterSpec(committees, keep);
    forall c | c in committees
      ensures keep(c) <==>
              forall i, p1 :: 0 <= i < |c| && 0 <= p1 < m && 0 <= c[i] < m ==> !Dominates(p1, c[i], profile)
    {
      if !keep(c) {
        var x :| x in Elems(c) && x in ParetoDominatedParties(m, profile);
        var i :| 0 <= i < |c| && c[i] == x;
        var p1 :| 0 <= p1 < m && Dominates(p1, x, profile);
      } else {
        forall i, p1 | 0 <= i < |c| && 0 <= p1 < m && 0 <= c[i] < m
          ensures !Dominates(p1, c[i], profile)
        {
          assert c[i] in Elems(c);
          assert c[i] !in ParetoDominatedParties(m, profile);
        }
      }
    }
  }

  // ---------------------------------------------------------------------------
  // Weak representation, naive

  /** The parties below m whose unique-approval score reaches the Hare quota
      n / k, compared exactly as `score * k >= n`. */
  function Deserving(cfg: Config, profile: Profile): set<Party> {
    set p | 0 <= p < cfg.m && UniqueApprovalScore(profile, p) * cfg.k >= cfg.n
  }

  predicate WeaklyRepresents(cfg: Config, profile: Profile, c: Committee) {
    Deserving(cfg, profile) <= Elems(c)
  }

  /** _filter_committees_failing_weak_representation. */
  method FilterCommitteesFailingWeakRepresentation(cfg: Config, profile: Profile, committees: seq<Committee>)
    returns (r: seq<Committee>)
    requires cfg.k > 0
    ensures r == Filter(committees, c => WeaklyRepresents(cfg, profile, c))
  {
    var scores := ComputeUniqueApprovalScores(cfg.m, profile);
    var deserving := set party | 0 <= party < cfg.m && scores[party] * cfg.k >= cfg.n;
    assert deserving == Deserving(cfg, profile);
    r := Filter(committees, c => deserving <= Elems(c));
    FilterExt(committees, c => deserving <= Elems(c), c => WeaklyRepresents(cfg, profile, c));
  }

  /** The naive filter keeps, in order, exactly the committees that seat every
      party p below m with k * score(p) >= n. */
  lemma NaiveFilterSpec(cfg: Config, profile: Profile, committees: seq<Committee>)
    ensures IsSubList(Filter(committees, c => WeaklyRepresents(cfg, profile, c)), committees)
    ensures forall c :: c in Filter(committees, c => WeaklyRepresents(cfg, profile, c)) <==>
              c in committees &&
              forall p :: 0 <= p < cfg.m && UniqueApprovalScore(profile, p) * cfg.k >= cfg.n ==> p in c
  {
    var keep := (c: Committee) => WeaklyRepresents(cfg, profile, c);
    FilterSpec(committees, keep);
    forall c | c in committees
      ensures WeaklyRepresents(cfg, profile, c) <==>
              forall p :: 0 <= p < cfg.m && UniqueApprovalScore(profile, p) * cfg.k >= cfg.n ==> p in c
    {
      if WeaklyRepresents(cfg, profile, c) {
        forall p | 0 <= p < cfg.m && UniqueApprovalScore(profile, p) * cfg.k >= cfg.n ensures p in c {
          assert p in Deserving(cfg, profile);
          assert p in Elems(c);
        }
      } else {
        var p :| p in Deserving(cfg, profile) && p !in Elems(c);
        assert p !in c;
      }
    }
  }

  /** When every voter approves exactly party p (p < m), the naive filter only
      keeps committees that seat p. */
  lemma UnanimousProfileSeatsParty(cfg: Config, profile: Profile, p: Party, committees: seq<Committee>)
    requires cfg.k > 0 && 0 <= p < cfg.m && |profile| == cfg.n
    requires forall i :: 0 <= i < |profile| ==> profile[i] == {p}
    ensures forall c :: c in Filter(committees, c => WeaklyRepresents(cfg, profile, c)) ==> p in c
  {
    UnanimousScore(profile, p);
    MulAtLeast(cfg.n, cfg.k);
    assert UniqueApprovalScore(profile, p) * cfg.k >= cfg.n;
    NaiveFilterSpec(cfg, profile, committees);
    forall c | c in Filter(committees, c => WeaklyRepresents(cfg, profile, c)) ensures p in c {
      assert c in committees;
    }
  }

  lemma {:induction false} UnanimousScore(profile: Profile, p: Party)
    requires forall i :: 0 <= i < |profile| ==> profile[i] == {p}
    ensures UniqueApprovalScore(profile, p) == |profile|
    decreases |profile|
  {
    if profile != [] {
      UnanimousScore(profile[..|profile| - 1], p);
    }
  }

  // ---------------------------------------------------------------------------
  // Chains of subsets

  /** _profile_contains_subset_list: is there a chain of `length` ballots at
      increasing positions from `start` on, each a subset of the one before,
      the first a subset of `s`? A negative length, or one that does not fit
      in the positions left, never succeeds. */
  function ProfileContainsSubsetList(profile: Profile, s: Ballot, start: nat, length: int): (r: bool)
    ensures length < 0 ==> !r
    ensures length > 0 && start + length > |profile| ==> !r
    decreases if start <= |profile| then |profile| - start else 0, 1
  {
    if length == 0 then true else SubsetListFrom(profile, s, start, length)
  }

  /** The `for index in range(start, len(profile))` loop of the search. */
  function SubsetListFrom(profile: Profile, s: Ballot, index: nat, length: int): (r: bool)
    ensures length < 0 ==> !r
    ensures length > 0 && index + length > |profile| ==> !r
    decreases if index <= |profile| then |profile| - index else 0, 0
  {
    if index >= |profile| then false
    else (profile[index] <= s && ProfileContainsSubsetList(profile, profile[index], index + 1, length - 1))
         || SubsetListFrom(profile, s, index + 1, length)
  }

  /** `idx` lists positions from `start` on, strictly increasing, of ballots each
      a subset of the previous one, the first a subset of `s`. */
  predicate IsSubsetChain(profile: Profile, s: Ballot, start: int, idx: seq<int>)
    decreases |idx|
  {
    idx == [] ||
    (start <= idx[0] && 0 <= idx[0] < |profile| && profile[idx[0]] <= s &&
     IsSubsetChain(profile, profile[idx[0]], idx[0] + 1, idx[1..]))
  }

  lemma {:induction false} SubsetChainFromEarlier(profile: Profile, s: Ballot, start: int, start': int, idx: seq<int>)
    requires start' <= start && IsSubsetChain(profile, s, start, idx)
    ensures IsSubsetChain(profile, s, start', idx)
  {
  }

  lemma {:induction false} SearchSound(profile: Profile, s: Ballot, start: nat, length: int)
    requires ProfileContainsSubsetList(profile, s, start, length)
    ensures exists idx :: |idx| == length && IsSubsetChain(profile, s, start, idx)
    decreases if start <= |profile| then |profile| - start else 0, 1
  {
    if length == 0 {
      assert IsSubsetChain(profile, s, start, []);
    } else {
      LoopSound(profile, s, start, length);
    }
  }

  lemma {:induction false} LoopSound(profile: Profile, s: Ballot, index: nat, length: int)
    requires SubsetListFrom(profile, s, index, length)
    ensures exists idx :: |idx| == length && IsSubsetChain(profile, s, index, idx)
    decreases if index <= |profile| then |profile| - index else 0, 0
  {
    if profile[index] <= s && ProfileContainsSubsetList(profile, profile[index], index + 1, length - 1) {
      SearchSound(profile, profile[index], index + 1, length - 1);
      var rest: seq<int> :| |rest| == length - 1 && IsSubsetChain(profile, profile[index], index + 1, rest);
      var idx: seq<int> := [index] + rest;
      assert idx[1..] == rest;
      assert IsSubsetChain(profile, s, index, idx);
    } else {
      LoopSound(profile, s, index + 1, length);
      var idx :| |idx| == length && IsSubsetChain(profile, s, index + 1, idx);
      SubsetChainFromEarlier(profile, s, index + 1, index, idx);
    }
  }

  lemma {:induction false} SearchComplete(profile: Profile, s: Ballot, start: nat, idx: seq<int>)
    requires IsSubsetChain(profile, s, start, idx)
    ensures ProfileContainsSubsetList(profile, s, start, |idx|)
    decreases |idx|, 1
  {
    if idx != [] {
      LoopCompleteAt(profile, s, start, idx);
    }
  }

  lemma {:induction false} LoopCompleteAt(profile: Profile, s: Ballot, index: nat, idx: seq<int>)
    requires idx != [] && IsSubsetChain(profile, s, index, idx)
    ensures SubsetListFrom(profile, s, index, |idx|)
    decreases |idx|, 0, idx[0] - index
  {
    if idx[0] == index {
      SearchComplete(profile, profile[index], index + 1, idx[1..]);
    } else {
      LoopCompleteAt(profile, s, index + 1, idx);
    }
  }

  /** The recursive search succeeds exactly when a chain of the requested length
      exists; a zero length always succeeds and a negative one never does. */
  lemma ChainSearchCorrect(profile: Profile, s: Ballot, start: nat, length: int)
    ensures ProfileContainsSubsetList(profile, s, start, length) <==>
            exists idx :: |idx| == length && IsSubsetChain(profile, s, start, idx)
  {
    if ProfileContainsSubsetList(profile, s, start, length) {
      SearchSound(profile, s, start, length);
    }
    if idx :| |idx| == length && IsSubsetChain(profile, s, start, idx) {
      SearchComplete(profile, s, start, idx);
    }
  }

  // ---------------------------------------------------------------------------
  // Weak representation, refined

  /** `math.ceil(n / k) - 1`, the length of the chain to look for. */
  function ChainLength(cfg: Config): int
    requires cfg.k > 0
  {
    (cfg.n + cfg.k - 1) / cfg.k - 1
  }

  /** The ballots not covered by deserving parties, in reverse profile order. */
  function ReducedProfile(cfg: Config, profile: Profile): Profile {
    Reverse(Filter(profile, b => !(b <= Deserving(cfg, profile))))
  }

  /** Every ballot of the reduced profile is a ballot of the profile that is
      not covered by the deserving parties. */
  lemma ReducedProfileSpec(cfg: Config, profile: Profile)
    ensures forall i :: 0 <= i < |ReducedProfile(cfg, profile)| ==>
              ReducedProfile(cfg, profile)[i] in profile &&
              !(ReducedProfile(cfg, profile)[i] <= Deserving(cfg, profile))
  {
    var kept := Filter(profile, b => !(b <= Deserving(cfg, profile)));
    FilterSpec(profile, b => !(b <= Deserving(cfg, profile)));
    forall i | 0 <= i < |ReducedProfile(cfg, profile)|
      ensures ReducedProfile(cfg, profile)[i] in kept
    {
      assert ReducedProfile(cfg, profile)[i] == kept[|kept| - 1 - i];
    }
  }

  /** Some occurrence of b among the first `upto` ballots of `reduced` is
      followed by a chain of `len` subsets. */
  predicate ChainBefore(reduced: Profile, upto: int, b: Ballot, len: int) {
    exists i :: 0 <= i < upto && i < |reduced| && reduced[i] == b &&
                ProfileContainsSubsetList(reduced, reduced[i], i + 1, len)
  }

  lemma ChainBeforeStep(reduced: Profile, index: nat, b: Ballot, len: int)
    requires index < |reduced|
    ensures ChainBefore(reduced, index + 1, b, len) <==>
            ChainBefore(reduced, index, b, len) ||
            (reduced[index] == b && ProfileContainsSubsetList(reduced, reduced[index], index + 1, len))
  {
  }

  /** Some occurrence of b in the reduced profile is followed by a chain of the
      required length. */
  predicate HasChainAfter(cfg: Config, profile: Profile, b: Ballot)
    requires cfg.k > 0
  {
    var reduced := ReducedProfile(cfg, profile);
    ChainBefore(reduced, |reduced|, b, ChainLength(cfg))
  }

  /** The requirement before any chain is found: 1 for the singleton of a
      deserving party, 0 otherwise. */
  function BaseRequirement(deserving: set<Party>, b: Ballot): nat {
    if |b| == 1 && b <= deserving then 1 else 0
  }

  /** The minimum number of seats a committee must give to parties of ballot b. */
  function Requirement(cfg: Config, profile: Profile, b: Ballot): nat
    requires cfg.k > 0
  {
    if HasChainAfter(cfg, profile, b) then |Deserving(cfg, profile) * b| + 1
    else BaseRequirement(Deserving(cfg, profile), b)
  }

  /** The dictionary `required_number_of_approved_members` of
      _filter_committees_failing_weak_representation_clever. */
  method ComputeRequiredNumbersOfApprovedMembers(cfg: Config, profile: Profile)
    returns (required: map<Ballot, nat>)
    requires cfg.k > 0
    ensures required.Keys == Elems(profile)
    ensures forall b :: b in required ==> required[b] == Requirement(cfg, profile, b)
  {
    var scores := ComputeUniqueApprovalScores(cfg.m, profile);
    var deserving := set party | 0 <= party < cfg.m && scores[party] * cfg.k >= cfg.n;
    assert deserving == Deserving(cfg, profile);
    var base := BaseRequirements(profile, deserving);
    var reduced := Filter(profile, b => !(b <= deserving));
    reduced := Reverse(reduced);
    assert reduced == ReducedProfile(cfg, profile) by {
      FilterExt(profile, b => !(b <= deserving), b => !(b <= Deserving(cfg, profile)));
    }
    assert forall i :: 0 <= i < |reduced| ==> reduced[i] in base by {
      ReducedProfileSpec(cfg, profile);
    }
    var len := (cfg.n + cfg.k - 1) / cfg.k - 1;
    assert len == ChainLength(cfg);
    required := RaiseChainRequirements(base, reduced, deserving, len);
    forall b | b in required ensures required[b] == Requirement(cfg, profile, b) {
      assert HasChainAfter(cfg, profile, b) == ChainBefore(reduced, |reduced|, b, len);
    }
  }

  /** The first loop: every distinct ballot of the profile gets its base
      requirement. */
  method BaseRequirements(profile: Profile, deserving: set<Party>) returns (required: map<Ballot, nat>)
    ensures required.Keys == Elems(profile)
    ensures forall b :: b in required ==> required[b] == BaseRequirement(deserving, b)
  {
    required := map[];
    for i := 0 to |profile|
      invariant required.Keys == Elems(profile[..i])
      invariant forall b :: b in required ==> required[b] == BaseRequirement(deserving, b)
    {
      assert Elems(profile[..i + 1]) == Elems(profile[..i]) + {profile[i]} by {
        assert profile[..i + 1] == profile[..i] + [profile[i]];
      }
      var ballot := profile[i];
      if ballot !in required {
        required := required[ballot := if |ballot| == 1 && ballot <= deserving then 1 else 0];
      }
    }
    assert profile[..|profile|] == profile;
  }

  /** The second loop: a ballot of the reduced profile followed by a chain of
      `len` subsets needs |deserving ∩ ballot| + 1 seats. */
  method RaiseChainRequirements(required0: map<Ballot, nat>, reduced: Profile, deserving: set<Party>, len: int)
    returns (required: map<Ballot, nat>)
    requires forall i :: 0 <= i < |reduced| ==> reduced[i] in required0
    ensures required.Keys == required0.Keys
    ensures forall b :: b in required ==>
              required[b] == if ChainBefore(reduced, |reduced|, b, len) then |deserving * b| + 1 else required0[b]
  {
    required := required0;
    for index := 0 to |reduced|
      invariant required.Keys == required0.Keys
      invariant forall b :: b in required ==>
                  required[b] == if ChainBefore(reduced, index, b, len) then |deserving * b| + 1 else required0[b]
    {
      forall b ensures ChainBefore(reduced, index + 1, b, len) <==>
                       ChainBefore(reduced, index, b, len) ||
                       (reduced[index] == b && ProfileContainsSubsetList(reduced, reduced[index], index + 1, len))
      {
        ChainBeforeStep(reduced, index, b, len);
      }
      if ProfileContainsSubsetList(reduced, reduced[index], index + 1, len) {
        required := required[reduced[index] := |deserving * reduced[index]| + 1];
      }
    }
  }

  /** A committee meets the requirement of every ballot of the profile, counting
      its approved seats through the table `value`. */
  predicate MeetsRequirements(cfg: Config, profile: Profile, value: map<(Committee, Ballot), int>, c: Committee)
    requires cfg.k > 0
  {
    forall b :: b in profile ==> (c, b) in value && value[(c, b)] >= Requirement(cfg, profile, b)
  }

  /** _filter_committees_failing_weak_representation_clever. */
  method FilterCommitteesFailingWeakRepresentationClever(
    cfg: Config, profile: Profile, committees: seq<Committee>, value: map<(Committee, Ballot), int>)
    returns (r: seq<Committee>)
    requires cfg.k > 0
    ensures r == Filter(committees, c => MeetsRequirements(cfg, profile, value, c))
  {
    var required := ComputeRequiredNumbersOfApprovedMembers(cfg, profile);
    r := Filter(committees, c => forall b :: b in profile ==>
                                   (c, b) in value && b in required && value[(c, b)] >= required[b]);
    FilterExt(committees,
              c => forall b :: b in profile ==>
                     (c, b) in value && b in required && value[(c, b)] >= required[b],
              c => MeetsRequirements(cfg, profile, value, c));
  }

  // ---------------------------------------------------------------------------
  // Approval counts and the feasible-committee table

  function Pairs(committees: seq<Committee>, ballots: seq<Ballot>): set<(Committee, Ballot)> {
    set c, b | c in committees && b in ballots :: (c, b)
  }

  /** The table `value_of_committee_for_ballot`: approved seats of every
      (committee, ballot) pair. */
  function NumbersOfApprovals(committees: seq<Committee>, ballots: seq<Ballot>): map<(Committee, Ballot), int> {
    map key | key in Pairs(committees, ballots) :: ApprovedSeats(key.0, key.1)
  }

  /** compute_numbers_of_approvals: a key for every (committee, ballot) pair of
      the lists, holding the number of seats the ballot approves. */
  method ComputeNumbersOfApprovals(committees: seq<Committee>, ballots: seq<Ballot>)
    returns (value: map<(Committee, Ballot), int>)
    ensures forall key :: key in value <==> key.0 in committees && key.1 in ballots
    ensures forall key :: key in value ==> 0 <= value[key] == ApprovedSeats(key.0, key.1) <= |key.0|
    ensures value == NumbersOfApprovals(committees, ballots)
  {
    value := map[];
    for i := 0 to |committees|
      invariant forall key :: key in value <==> key.0 in committees[..i] && key.1 in ballots
      invariant forall key :: key in value ==> value[key] == ApprovedSeats(key.0, key.1)
    {
      var committee := committees[i];
      assert forall c :: c in committees[..i + 1] <==> c in committees[..i] || c == committee by {
        assert committees[..i + 1] == committees[..i] + [committee];
      }
      for j := 0 to |ballots|
        invariant forall key :: key in value <==>
                    (key.0 in committees[..i] && key.1 in ballots) || (key.0 == committee && key.1 in ballots[..j])
        invariant forall key :: key in value ==> value[key] == ApprovedSeats(key.0, key.1)
      {
        var ballot := ballots[j];
        assert forall b :: b in ballots[..j + 1] <==> b in ballots[..j] || b == ballot by {
          assert ballots[..j + 1] == ballots[..j] + [ballot];
        }
        value := value[(committee, ballot) := ApprovedSeats(committee, ballot)];
      }
      assert ballots[..|ballots|] == ballots;
    }
    assert committees[..|committees|] == committees;
    forall key ensures key in value <==> key in NumbersOfApprovals(committees, ballots) {
      if key in value {
        assert key in Pairs(committees, ballots);
      }
    }
  }

  /** The committees admissible for one profile: weak representation (naive or
      refined, as configured) first, then Pareto-optimality on the narrowed list. */
  function FeasibleCommittees(cfg: Config, profile: Profile, committees: seq<Committee>, ballots: seq<Ballot>)
    : seq<Committee>
    requires cfg.k > 0
  {
    var represented :=
      if cfg.weakRepresentationNaive
      then Filter(committees, c => WeaklyRepresents(cfg, profile, c))
      else Filter(committees, c => MeetsRequirements(cfg, profile, NumbersOfApprovals(committees, ballots), c));
    if cfg.paretoOptimality
    then Filter(represented, c => ParetoOptimalFor(cfg.m, profile, c))
    else represented
  }

  /** compute_feasible_committees_for_all_profiles: one entry per profile, in
      profile order. */
  method ComputeFeasibleCommitteesForAllProfiles(
    cfg: Config, profiles: seq<Profile>, committees: seq<Committee>, ballots: seq<Ballot>)
    returns (feasible: seq<seq<Committee>>)
    requires cfg.k > 0
    ensures |feasible| == |profiles|
    ensures forall i :: 0 <= i < |profiles| ==>
              feasible[i] == FeasibleCommittees(cfg, profiles[i], committees, ballots)
  {
    feasible := [];
    for i := 0 to |profiles|
      invariant |feasible| == i
      invariant forall j :: 0 <= j < i ==>
                  feasible[j] == FeasibleCommittees(cfg, profiles[j], committees, ballots)
    {
      var profile := profiles[i];
      var feasibleForProfile := committees;
      if cfg.weakRepresentationNaive {
        feasibleForProfile := FilterCommitteesFailingWeakRepresentation(cfg, profile, feasibleForProfile);
      } else {
        var value := ComputeNumbersOfApprovals(committees, ballots);
        feasibleForProfile := FilterCommitteesFailingWeakRepresentationClever(cfg, profile, feasibleForProfile, value);
      }
      if cfg.paretoOptimality {
        feasibleForProfile := FilterCommitteesFailingParetoOptimality(cfg.m, profile, feasibleForProfile);
      }
      feasible := feasible + [feasibleForProfile];
    }
  }

  /** Each entry of the table is an order-preserving sub-list of the committees;
      a committee is in it iff it passes the configured weak-representation test
      and, when Pareto-optimality is on, the Pareto test. */
  lemma FeasibleCommitteesSpec(cfg: Config, profile: Profile, committees: seq<Committee>, ballots: seq<Ballot>)
    requires cfg.k > 0
    ensures IsSubList(FeasibleCommittees(cfg, profile, committees, ballots), committees)
    ensures forall c :: c in FeasibleCommittees(cfg, profile, committees, ballots) <==>
              && c in committees
              && (if cfg.weakRepresentationNaive then WeaklyRepresents(cfg, profile, c)
                  else MeetsRequirements(cfg, profile, NumbersOfApprovals(committees, ballots), c))
              && (cfg.paretoOptimality ==> ParetoOptimalFor(cfg.m, profile, c))
  {
    var value := NumbersOfApprovals(committees, ballots);
    var wr := (c: Committee) =>
      if cfg.weakRepresentationNaive then WeaklyRepresents(cfg, profile, c)
      else MeetsRequirements(cfg, profile, value, c);
    var represented :=
      if cfg.weakRepresentationNaive
      then Filter(committees, c => WeaklyRepresents(cfg, profile, c))
      else Filter(committees, c => MeetsRequirements(cfg, profile, value, c));
    FilterExt(committees, wr,
              if cfg.weakRepresentationNaive then c => WeaklyRepresents(cfg, profile, c)
              else c => MeetsRequirements(cfg, profile, value, c));
    FilterSpec(committees, wr);
    if cfg.paretoOptimality {
      FilterSpec(represented, c => ParetoOptimalFor(cfg.m, profile, c));
      SubListTransitive(FeasibleCommittees(cfg, profile, committees, ballots), represented, committees);
    }
  }

  /** With the approval-count table the refined filter compares the seats a
      committee gives to each ballot of the profile with the ballot's
      requirement. */
  lemma RefinedFilterCountsSeats(cfg: Config, profile: Profile, committees: seq<Committee>,
                                 ballots: seq<Ballot>, c: Committee)
    requires cfg.k > 0 && c in committees
    requires forall b :: b in profile ==> b in ballots
    ensures MeetsRequirements(cfg, profile, NumbersOfApprovals(committees, ballots), c) <==>
            forall b :: b in profile ==> ApprovedSeats(c, b) >= Requirement(cfg, profile, b)
  {
    forall b | b in profile ensures (c, b) in NumbersOfApprovals(committees, ballots) {
      assert (c, b) in Pairs(committees, ballots);
    }
  }

  /** The requirement of a ballot, spelled out: 1 for the singleton of a
      deserving party; |deserving ∩ b| + 1 when b occurs in the reduced profile
      with a chain of length ⌈n/k⌉ - 1 after that position; 0 otherwise. The
      first two cases never overlap. */
  lemma RequirementCases(cfg: Config, profile: Profile, b: Ballot)
    requires cfg.k > 0
    ensures var D := Deserving(cfg, profile);
            var reduced := ReducedProfile(cfg, profile);
            && (|b| == 1 && b <= D ==> Requirement(cfg, profile, b) == 1)
            && ((exists i, idx :: 0 <= i < |reduced| && reduced[i] == b &&
                   |idx| == ChainLength(cfg) && IsSubsetChain(reduced, reduced[i], i + 1, idx))
                ==> Requirement(cfg, profile, b) == |D * b| + 1)
            && (!(|b| == 1 && b <= D) && !HasChainAfter(cfg, profile, b) ==> Requirement(cfg, profile, b) == 0)
  {
    var reduced := ReducedProfile(cfg, profile);
    ReducedProfileSpec(cfg, profile);
    if i, idx :| 0 <= i < |reduced| && reduced[i] == b &&
                 |idx| == ChainLength(cfg) && IsSubsetChain(reduced, reduced[i], i + 1, idx) {
      ChainSearchCorrect(reduced, reduced[i], i + 1, ChainLength(cfg));
    }
  }
}
