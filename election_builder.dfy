/** The domain generator (PAPPElectionBuilder.py): the approval ballots decoded
    from bit masks, all committees as combinations with replacement of the
    parties, and the profiles as combinations with replacement of the ballots,
    optionally restricted by their approval scores. */
module PAPPElectionBuilder {
  import opened Common

  // ---------------------------------------------------------------------------
  // Bit masks

  function Pow2(e: nat): (r: nat)
    ensures r >= 1
  {
    if e == 0 then 1 else 2 * Pow2(e - 1)
  }

  /** Bit `p` of `code`, written `(i // (2 ** party)) % 2 == 1` in the source. */
  predicate BitSet(code: nat, p: nat) {
    (code / Pow2(p)) % 2 == 1
  }

  /** The ballot encoded by `code`: the parties below m whose bit is set. */
  function BallotOfCode(m: nat, code: nat): Ballot {
    set p | 0 <= p < m && BitSet(code, p)
  }

  lemma DivPow2Step(i: nat, p: nat)
    ensures i / Pow2(p + 1) == (i / 2) / Pow2(p)
  {
    var P := Pow2(p);
    var q, b := (i / 2) / P, (i / 2) % P;
    assert i / 2 == P * q + b;
    assert i == 2 * (i / 2) + i % 2;
    assert i == (2 * P) * q + (2 * b + i % 2);
    DivUnique(i, 2 * P, q, 2 * b + i % 2);
  }

  lemma BitSetStep(code: nat, p: nat)
    ensures BitSet(code, p + 1) == BitSet(code / 2, p)
  {
    DivPow2Step(code, p);
  }

  /** A code in [1, 2^m) has some bit below m set. */
  lemma {:induction false} SomeBitSet(code: nat, m: nat)
    requires 1 <= code < Pow2(m)
    ensures exists p :: 0 <= p < m && BitSet(code, p)
    decreases m
  {
    if code % 2 == 1 {
      assert BitSet(code, 0);
    } else {
      SomeBitSet(code / 2, m - 1);
      var p :| 0 <= p < m - 1 && BitSet(code / 2, p);
      BitSetStep(code, p);
      assert BitSet(code, p + 1);
    }
  }

  /** Two different codes below 2^m differ in some bit below m. */
  lemma {:induction false} CodesDiffer(i: nat, j: nat, m: nat)
    requires i < Pow2(m) && j < Pow2(m) && i != j
    ensures exists p :: 0 <= p < m && BitSet(i, p) != BitSet(j, p)
    decreases m
  {
    if i % 2 != j % 2 {
      assert BitSet(i, 0) != BitSet(j, 0);
    } else {
      assert i / 2 != j / 2;
      CodesDiffer(i / 2, j / 2, m - 1);
      var p :| 0 <= p < m - 1 && BitSet(i / 2, p) != BitSet(j / 2, p);
      BitSetStep(i, p);
      BitSetStep(j, p);
      assert BitSet(i, p + 1) != BitSet(j, p + 1);
    }
  }

  /** Every bit below m of 2^m - 1 is set: it encodes the full party set. */
  lemma {:induction false} AllBitsSet(m: nat, p: nat)
    requires p < m
    ensures BitSet(Pow2(m) - 1, p)
    decreases m
  {
    if p > 0 {
      var h := Pow2(m - 1);
      assert Pow2(m) - 1 == 2 * (h - 1) + 1;
      DivUnique(Pow2(m) - 1, 2, h - 1, 1);
      AllBitsSet(m - 1, p - 1);
      BitSetStep(Pow2(m) - 1, p - 1);
    }
  }

  /** The largest code the source enumerates. */
  function LastCode(m: nat): nat {
    Pow2(m) - 1
  }

  /** The code 2^m - 1, the last one the source enumerates, is the ballot that
      approves every party. */
  lemma FullBallotIsLastCode(m: nat)
    ensures forall p :: p in BallotOfCode(m, LastCode(m)) <==> 0 <= p < m
  {
    forall p | 0 <= p < m ensures p in BallotOfCode(m, LastCode(m)) {
      AllBitsSet(m, p);
    }
  }

  // ---------------------------------------------------------------------------
  // Ballots

  /** compute_approval_ballots: the ballot at position j is decoded from j + 1;
      without `profile_all` the last one (the full party set) is dropped. */
  method ComputeApprovalBallots(m: nat, profileAll: bool) returns (ballots: seq<Ballot>)
    ensures |ballots| == if profileAll then Pow2(m) - 1 else if m == 0 then 0 else Pow2(m) - 2
    ensures forall j :: 0 <= j < |ballots| ==> ballots[j] == BallotOfCode(m, j + 1)
  {
    ballots := [];
    for i := 1 to Pow2(m)
      invariant |ballots| == i - 1
      invariant forall j :: 0 <= j < |ballots| ==> ballots[j] == BallotOfCode(m, j + 1)
    {
      ballots := ballots + [set party | 0 <= party < m && (i / Pow2(party)) % 2 == 1];
    }
    if !profileAll {
      ballots := if |ballots| == 0 then [] else ballots[0..|ballots| - 1];
    }
  }

  /** A decoded ballot is non-empty and contains only parties below m. */
  lemma BallotOfCodeWellFormed(m: nat, code: nat)
    requires 1 <= code < Pow2(m)
    ensures BallotOfCode(m, code) != {}
    ensures forall p :: p in BallotOfCode(m, code) ==> 0 <= p < m
  {
    SomeBitSet(code, m);
    var p :| 0 <= p < m && BitSet(code, p);
    assert p in BallotOfCode(m, code);
  }

  /** Different codes below 2^m decode to different ballots. */
  lemma BallotOfCodeInjective(m: nat, i: nat, j: nat)
    requires i < Pow2(m) && j < Pow2(m) && i != j
    ensures BallotOfCode(m, i) != BallotOfCode(m, j)
  {
    CodesDiffer(i, j, m);
    var p :| 0 <= p < m && BitSet(i, p) != BitSet(j, p);
    assert (p in BallotOfCode(m, i)) != (p in BallotOfCode(m, j));
  }

  /** The decoded ballots are non-empty, contain only parties below m and are
      pairwise distinct. */
  lemma ApprovalBallotsWellFormed(m: nat, ballots: seq<Ballot>)
    requires |ballots| < Pow2(m)
    requires forall j :: 0 <= j < |ballots| ==> ballots[j] == BallotOfCode(m, j + 1)
    ensures forall j :: 0 <= j < |ballots| ==> ballots[j] != {}
    ensures forall j, p :: 0 <= j < |ballots| && p in ballots[j] ==> 0 <= p < m
    ensures Distinct(ballots)
  {
    forall j | 0 <= j < |ballots|
      ensures ballots[j] != {} && forall p :: p in ballots[j] ==> 0 <= p < m
    {
      BallotOfCodeWellFormed(m, j + 1);
    }
    forall i, j | 0 <= i < |ballots| && 0 <= j < |ballots| && i != j
      ensures ballots[i] != ballots[j]
    {
      BallotOfCodeInjective(m, i + 1, j + 1);
    }
  }

  // ---------------------------------------------------------------------------
  // Combinations with replacement

  /** Strict lexicographic order on sequences. */
  predicate LexLess(a: seq<int>, b: seq<int>)
    decreases |a|
  {
    |a| > 0 && |b| > 0 && (a[0] < b[0] || (a[0] == b[0] && LexLess(a[1..], b[1..])))
  }

  lemma {:induction false} LexLessIrreflexive(a: seq<int>)
    ensures !LexLess(a, a)
    decreases |a|
  {
    if |a| > 0 {
      LexLessIrreflexive(a[1..]);
    }
  }

  function PrependAll(x: int, ss: seq<seq<int>>): (r: seq<seq<int>>)
    ensures |r| == |ss| && forall i :: 0 <= i < |ss| ==> r[i] == [x] + ss[i]
  {
    seq(|ss|, i requires 0 <= i < |ss| => [x] + ss[i])
  }

  /** The non-decreasing sequences of length k over [lo, hi), in the order
      `itertools.combinations_with_replacement(range(lo, hi), k)` yields them. */
  function Multisets(lo: int, hi: int, k: nat): seq<seq<int>>
    decreases k, if lo < hi then hi - lo else 0
  {
    if k == 0 then [[]]
    else if lo >= hi then []
    else PrependAll(lo, Multisets(lo, hi, k - 1)) + Multisets(lo + 1, hi, k)
  }

  predicate IsMultisetOver(lo: int, hi: int, k: nat, c: seq<int>) {
    |c| == k && SortedInts(c) && forall i :: 0 <= i < |c| ==> lo <= c[i] < hi
  }

  /** Every enumerated sequence has length k, is non-decreasing and has entries
      in [lo, hi). */
  lemma {:induction false} MultisetsSound(lo: int, hi: int, k: nat)
    ensures forall c :: c in Multisets(lo, hi, k) ==> IsMultisetOver(lo, hi, k, c)
    decreases k, if lo < hi then hi - lo else 0
  {
    if k > 0 && lo < hi {
      MultisetsSound(lo, hi, k - 1);
      MultisetsSound(lo + 1, hi, k);
      var inner := Multisets(lo, hi, k - 1);
      var head := PrependAll(lo, inner);
      forall c | c in Multisets(lo, hi, k) ensures IsMultisetOver(lo, hi, k, c) {
        if c in head {
          var i :| 0 <= i < |head| && head[i] == c;
          var rest := inner[i];
          assert rest in inner;
          assert c == [lo] + rest;
          forall a, b | 0 <= a < b < |c| ensures c[a] <= c[b] {
            if a > 0 { assert c[a] == rest[a - 1] && c[b] == rest[b - 1]; }
            else { assert c[b] == rest[b - 1]; }
          }
          forall a | 0 <= a < |c| ensures lo <= c[a] < hi {
            if a > 0 { assert c[a] == rest[a - 1]; }
          }
        }
      }
    }
  }

  /** The tail of a sequence starting at lo is a sequence of length k - 1 over the same range. */
  lemma MultisetTail(lo: int, hi: int, k: nat, c: seq<int>)
    requires k > 0 && IsMultisetOver(lo, hi, k, c)
    ensures IsMultisetOver(lo, hi, k - 1, c[1..])
  {
    var rest := c[1..];
    forall i | 0 <= i < |rest| ensures lo <= rest[i] < hi {
      assert rest[i] == c[i + 1];
    }
    forall a, b | 0 <= a < b < |rest| ensures rest[a] <= rest[b] {
      assert rest[a] == c[a + 1] && rest[b] == c[b + 1];
    }
  }

  /** A sequence not starting at lo lies over [lo + 1, hi). */
  lemma MultisetAboveLow(lo: int, hi: int, k: nat, c: seq<int>)
    requires k > 0 && IsMultisetOver(lo, hi, k, c) && c[0] != lo
    ensures IsMultisetOver(lo + 1, hi, k, c)
  {
    forall i | 0 <= i < |c| ensures lo + 1 <= c[i] {
      assert c[0] <= c[i];
    }
  }

  /** Every non-decreasing length-k sequence over [lo, hi) is enumerated. */
  lemma {:induction false} MultisetsComplete(lo: int, hi: int, k: nat)
    ensures forall c :: IsMultisetOver(lo, hi, k, c) ==> c in Multisets(lo, hi, k)
    decreases k, if lo < hi then hi - lo else 0
  {
    if k == 0 {
      forall c | IsMultisetOver(lo, hi, k, c) ensures c in Multisets(lo, hi, k) {
        assert c == [];
      }
    } else if lo < hi {
      MultisetsComplete(lo, hi, k - 1);
      MultisetsComplete(lo + 1, hi, k);
      var inner := Multisets(lo, hi, k - 1);
      var head := PrependAll(lo, inner);
      assert Multisets(lo, hi, k) == head + Multisets(lo + 1, hi, k);
      forall c | IsMultisetOver(lo, hi, k, c) ensures c in Multisets(lo, hi, k) {
        if c[0] == lo {
          MultisetTail(lo, hi, k, c);
          var i :| 0 <= i < |inner| && inner[i] == c[1..];
          assert head[i] == c;
        } else {
          MultisetAboveLow(lo, hi, k, c);
        }
      }
    } else {
      forall c: seq<int> | |c| == k ensures !(lo <= c[0] < hi) {
      }
    }
  }

  lemma MultisetsExact(lo: int, hi: int, k: nat)
    ensures forall c :: c in Multisets(lo, hi, k) <==> IsMultisetOver(lo, hi, k, c)
  {
    MultisetsSound(lo, hi, k);
    MultisetsComplete(lo, hi, k);
  }

  predicate StrictlyLexSorted(ss: seq<seq<int>>) {
    forall i, j :: 0 <= i < j < |ss| ==> LexLess(ss[i], ss[j])
  }

  /** The enumeration is strictly increasing in lexicographic order, hence
      without repetitions. */
  lemma {:induction false} MultisetsLexSorted(lo: int, hi: int, k: nat)
    ensures StrictlyLexSorted(Multisets(lo, hi, k))
    decreases k, if lo < hi then hi - lo else 0
  {
    if k > 0 && lo < hi {
      MultisetsLexSorted(lo, hi, k - 1);
      MultisetsLexSorted(lo + 1, hi, k);
      MultisetsExact(lo + 1, hi, k);
      var inner := Multisets(lo, hi, k - 1);
      var head := PrependAll(lo, inner);
      var tail := Multisets(lo + 1, hi, k);
      var all := head + tail;
      forall i, j | 0 <= i < j < |all| ensures LexLess(all[i], all[j]) {
        if j < |head| {
          assert all[i] == [lo] + inner[i] && all[j] == [lo] + inner[j];
          assert ([lo] + inner[i])[1..] == inner[i];
          assert ([lo] + inner[j])[1..] == inner[j];
        } else if i < |head| {
          assert all[j] == tail[j - |head|];
          assert tail[j - |head|] in tail;
          assert all[i] == [lo] + inner[i];
        } else {
          assert all[i] == tail[i - |head|] && all[j] == tail[j - |head|];
        }
      }
    }
  }

  lemma LexSortedDistinct(ss: seq<seq<int>>)
    requires StrictlyLexSorted(ss)
    ensures Distinct(ss)
  {
    forall i, j | 0 <= i < |ss| && 0 <= j < |ss| && i != j ensures ss[i] != ss[j] {
      if i < j { LexLessIrreflexive(ss[i]); } else { LexLessIrreflexive(ss[j]); }
    }
  }

  // ---------------------------------------------------------------------------
  // Committees

  /** compute_all_committees: combinations with replacement of the parties.
      The committees are exactly the non-decreasing length-k sequences over
      [0, m), listed in strictly increasing lexicographic order, so pairwise
      distinct. */
  function ComputeAllCommittees(m: nat, k: nat): (r: seq<Committee>)
    ensures forall c :: c in r <==> IsMultisetOver(0, m, k, c)
    ensures StrictlyLexSorted(r)
    ensures Distinct(r)
  {
    MultisetsExact(0, m, k);
    MultisetsLexSorted(0, m, k);
    LexSortedDistinct(Multisets(0, m, k));
    Multisets(0, m, k)
  }

  // ---------------------------------------------------------------------------
  // Approval scores

  /** The number of ballots of the profile that approve party p. */
  function ApprovalScore(profile: Profile, p: Party): nat
    decreases |profile|
  {
    if profile == [] then 0
    else ApprovalScore(profile[..|profile| - 1], p) + (if p in profile[|profile| - 1] then 1 else 0)
  }

  function ApprovalScores(m: nat, profile: Profile): seq<int> {
    seq(m, p => ApprovalScore(profile, p))
  }

  /** _compute_approval_scores: the score of each party below m. */
  method ComputeApprovalScores(m: nat, profile: Profile) returns (scores: seq<int>)
    ensures scores == ApprovalScores(m, profile)
  {
    scores := seq(m, _ => 0);
    for party := 0 to m
      invariant |scores| == m
      invariant forall p :: 0 <= p < party ==> scores[p] == ApprovalScore(profile, p)
      invariant forall p :: party <= p < m ==> scores[p] == 0
    {
      ghost var before := scores;
      for j := 0 to |profile|
        invariant |scores| == m
        invariant scores[party] == ApprovalScore(profile[..j], party)
        invariant forall p :: 0 <= p < m && p != party ==> scores[p] == before[p]
      {
        assert profile[..j + 1][..j] == profile[..j];
        if party in profile[j] {
          scores := scores[party := scores[party] + 1];
        }
      }
      assert profile[..|profile|] == profile;
    }
  }

  /** Number of parties below m a ballot approves. */
  function CountBelow(b: Ballot, m: nat): nat {
    if m == 0 then 0 else CountBelow(b, m - 1) + (if m - 1 in b then 1 else 0)
  }

  lemma {:induction false} CountBelowSame(b: Ballot, b': Ballot, m: nat)
    requires forall p :: 0 <= p < m ==> (p in b <==> p in b')
    ensures CountBelow(b, m) == CountBelow(b', m)
    decreases m
  {
    if m > 0 { CountBelowSame(b, b', m - 1); }
  }

  lemma {:induction false} CountBelowIsSize(b: Ballot, m: nat)
    requires forall p :: p in b ==> 0 <= p < m
    ensures CountBelow(b, m) == |b|
    decreases m
  {
    if m > 0 {
      var b' := b - {m - 1};
      CountBelowIsSize(b', m - 1);
      CountBelowSame(b, b', m - 1);
    } else {
      assert forall p :: p !in b;
      assert b == {};
    }
  }

  /** Sum of the scores of the parties below m. */
  function ScoreSum(profile: Profile, m: nat): int {
    if m == 0 then 0 else ScoreSum(profile, m - 1) + ApprovalScore(profile, m - 1)
  }

  /** Total number of approvals, Σ |ballot|. */
  function TotalApprovals(profile: Profile): int
    decreases |profile|
  {
    if profile == [] then 0 else TotalApprovals(profile[..|profile| - 1]) + |profile[|profile| - 1]|
  }

  lemma {:induction false} ScoreSumStep(profile: Profile, m: nat)
    requires profile != []
    ensures ScoreSum(profile, m) ==
            ScoreSum(profile[..|profile| - 1], m) + CountBelow(profile[|profile| - 1], m)
    decreases m
  {
    if m > 0 { ScoreSumStep(profile, m - 1); }
  }

  lemma {:induction false} ScoreSumOfEmpty(m: nat)
    ensures ScoreSum([], m) == 0
  {
    if m > 0 { ScoreSumOfEmpty(m - 1); }
  }

  lemma {:induction false} ScoreSumIsTotal(profile: Profile, m: nat)
    requires forall i, p :: 0 <= i < |profile| && p in profile[i] ==> 0 <= p < m
    ensures ScoreSum(profile, m) == TotalApprovals(profile)
    decreases |profile|
  {
    if profile == [] {
      ScoreSumOfEmpty(m);
    } else {
      var init := profile[..|profile| - 1];
      ScoreSumIsTotal(init, m);
      ScoreSumStep(profile, m);
      CountBelowIsSize(profile[|profile| - 1], m);
    }
  }

  lemma {:induction false} SumOfScores(m: nat, profile: Profile, upto: nat)
    requires upto <= m
    ensures Sum(ApprovalScores(m, profile)[..upto]) == ScoreSum(profile, upto)
    decreases upto
  {
    if upto > 0 {
      var s := ApprovalScores(m, profile);
      assert s[..upto][..upto - 1] == s[..upto - 1];
      SumOfScores(m, profile, upto - 1);
    }
  }

  /** The approval scores of a profile over parties [0, m) add up to the total
      number of approvals Σ |ballot|. */
  lemma ApprovalScoresSum(m: nat, profile: Profile)
    requires forall i, p :: 0 <= i < |profile| && p in profile[i] ==> 0 <= p < m
    ensures Sum(ApprovalScores(m, profile)) == TotalApprovals(profile)
  {
    SumOfScores(m, profile, m);
    assert ApprovalScores(m, profile)[..m] == ApprovalScores(m, profile);
    ScoreSumIsTotal(profile, m);
  }

  // ---------------------------------------------------------------------------
  // Profiles

  /** `itertools.combinations_with_replacement(ballots, n)`: the profiles given by
      the non-decreasing index sequences of length n. */
  function AllProfiles(ballots: seq<Ballot>, n: nat): (r: seq<Profile>)
    ensures |r| == |Multisets(0, |ballots|, n)|
    ensures forall i :: 0 <= i < |r| ==>
              IndicesBelow(Multisets(0, |ballots|, n)[i], |ballots|) &&
              r[i] == ToBallots(ballots, Multisets(0, |ballots|, n)[i])
  {
    var combos := Multisets(0, |ballots|, n);
    MultisetsExact(0, |ballots|, n);
    assert forall i :: 0 <= i < |combos| ==> combos[i] in combos;
    seq(|combos|, i requires 0 <= i < |combos| => ToBallots(ballots, combos[i]))
  }

  /** The restriction of the domain: largest party score at most 4 and total
      score at most 11. */
  predicate InRestrictedDomain(m: nat, profile: Profile) {
    m > 0 && (var scores := ApprovalScores(m, profile); Max(scores) <= 4 && Sum(scores) <= 11)
  }

  /** compute_approval_profiles: all profiles, or with `profile_all` unset the
      order-preserving sub-list of those in the restricted domain. */
  method ComputeApprovalProfiles(ballots: seq<Ballot>, m: nat, n: nat, profileAll: bool)
    returns (profiles: seq<Profile>)
    requires profileAll || m > 0 || (ballots == [] && n > 0)
    ensures profileAll ==> profiles == AllProfiles(ballots, n)
    ensures !profileAll ==>
              profiles == Filter(AllProfiles(ballots, n), q => InRestrictedDomain(m, q))
  {
    var all := AllProfiles(ballots, n);
    if profileAll {
      return all;
    }
    // Without parties there are no ballots, so no profile reaches max().
    assert m == 0 ==> |all| == 0;
    profiles := [];
    for i := 0 to |all|
      invariant profiles == Filter(all[..i], q => InRestrictedDomain(m, q))
    {
      assert all[..i + 1][..i] == all[..i];
      var scores := ComputeApprovalScores(m, all[i]);
      if Max(scores) <= 4 && Sum(scores) <= 11 {
        profiles := profiles + [all[i]];
      }
    }
    assert all[..|all|] == all;
  }

  /** Every generated profile has n voters, its ballot indices are
      non-decreasing, and it uses only ballots of the list. */
  lemma AllProfilesSpec(ballots: seq<Ballot>, n: nat, i: nat)
    requires i < |AllProfiles(ballots, n)|
    ensures |AllProfiles(ballots, n)[i]| == n
    ensures IsMultisetOver(0, |ballots|, n, Multisets(0, |ballots|, n)[i])
    ensures forall v :: 0 <= v < n ==> AllProfiles(ballots, n)[i][v] in ballots
  {
    MultisetsExact(0, |ballots|, n);
    var c := Multisets(0, |ballots|, n)[i];
    assert c in Multisets(0, |ballots|, n);
  }
}
