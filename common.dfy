/** Shared vocabulary of the party-approval (P-APP) encoder: parties, ballots,
    committees, profiles and clauses, plus the sequence utilities the four
    components are specified with (order-preserving sub-lists, filtering,
    sorting, de-duplication and seat counting). */
module Common {

  datatype Option<T> = None | Some(value: T)

  /** A party is an integer identifier in [0, m). */
  type Party = int
  /** A ballot is the set of parties a voter approves. */
  type Ballot = set<Party>
  /** A committee lists k seats as a non-decreasing sequence of parties. */
  type Committee = seq<Party>
  /** A profile gives one ballot per voter. */
  type Profile = seq<Ballot>
  /** A CNF clause is a list of signed variable ids. */
  type Clause = seq<int>

  function Elems<T>(s: seq<T>): set<T> {
    set x | x in s
  }

  predicate Distinct<T(==)>(s: seq<T>) {
    forall i, j :: 0 <= i < |s| && 0 <= j < |s| && i != j ==> s[i] != s[j]
  }

  predicate SortedInts(s: seq<int>) {
    forall i, j :: 0 <= i < j < |s| ==> s[i] <= s[j]
  }

  // ---------------------------------------------------------------------------
  // Order-preserving sub-lists

  /** `a` is obtained from `b` by deleting elements, keeping the order. */
  predicate IsSubList<T(==)>(a: seq<T>, b: seq<T>)
    decreases |b|
  {
    if a == [] then true
    else if b == [] then false
    else (a[|a| - 1] == b[|b| - 1] && IsSubList(a[..|a| - 1], b[..|b| - 1]))
         || IsSubList(a, b[..|b| - 1])
  }

  lemma {:induction false} SubListElems<T>(a: seq<T>, b: seq<T>)
    requires IsSubList(a, b)
    ensures forall x :: x in a ==> x in b
    decreases |b|
  {
    if a != [] {
      if a[|a| - 1] == b[|b| - 1] && IsSubList(a[..|a| - 1], b[..|b| - 1]) {
        SubListElems(a[..|a| - 1], b[..|b| - 1]);
        assert a == a[..|a| - 1] + [a[|a| - 1]];
        assert b == b[..|b| - 1] + [b[|b| - 1]];
      } else {
        SubListElems(a, b[..|b| - 1]);
        assert b == b[..|b| - 1] + [b[|b| - 1]];
      }
    }
  }

  lemma {:induction false} SubListTransitive<T>(a: seq<T>, b: seq<T>, c: seq<T>)
    requires IsSubList(a, b) && IsSubList(b, c)
    ensures IsSubList(a, c)
    decreases |c|
  {
    if a != [] {
      var b', c' := b[..|b| - 1], c[..|c| - 1];
      if b[|b| - 1] == c[|c| - 1] && IsSubList(b', c') {
        if a[|a| - 1] == b[|b| - 1] && IsSubList(a[..|a| - 1], b') {
          SubListTransitive(a[..|a| - 1], b', c');
        } else {
          SubListTransitive(a, b', c');
        }
      } else {
        SubListTransitive(a, b, c');
      }
    }
  }

  lemma {:induction false} SubListDistinct<T>(a: seq<T>, b: seq<T>)
    requires IsSubList(a, b) && Distinct(b)
    ensures Distinct(a)
    decreases |b|
  {
    if a != [] {
      var a', b' := a[..|a| - 1], b[..|b| - 1];
      assert Distinct(b') by {
        forall i, j | 0 <= i < |b'| && 0 <= j < |b'| && i != j ensures b'[i] != b'[j] {
          assert b'[i] == b[i] && b'[j] == b[j];
        }
      }
      if a[|a| - 1] == b[|b| - 1] && IsSubList(a', b') {
        SubListDistinct(a', b');
        SubListElems(a', b');
        assert b[|b| - 1] !in b' by {
          forall i | 0 <= i < |b'| ensures b'[i] != b[|b| - 1] {
            assert b'[i] == b[i];
          }
        }
        forall i, j | 0 <= i < |a| && 0 <= j < |a| && i != j ensures a[i] != a[j] {
          if i < |a| - 1 && j < |a| - 1 {
            assert a[i] == a'[i] && a[j] == a'[j];
          } else if i < |a| - 1 {
            assert a[i] == a'[i] && a'[i] in a';
          } else {
            assert a[j] == a'[j] && a'[j] in a';
          }
        }
      } else {
        SubListDistinct(a, b');
      }
    }
  }

  lemma {:induction false} SubListOfSelf<T>(s: seq<T>)
    ensures IsSubList(s, s)
    decreases |s|
  {
    if s != [] {
      SubListOfSelf(s[..|s| - 1]);
    }
  }

  // ---------------------------------------------------------------------------
  // Filtering (Python list comprehensions with an `if`)

  /** The elements of `s` satisfying `keep`, in their order in `s`. */
  function Filter<T>(s: seq<T>, keep: T -> bool): seq<T>
    decreases |s|
  {
    if s == [] then []
    else Filter(s[..|s| - 1], keep) + (if keep(s[|s| - 1]) then [s[|s| - 1]] else [])
  }

  /** `Filter(s, keep)` is the order-preserving sub-list of `s` holding exactly
      the elements that satisfy `keep`; every dropped element fails `keep`. */
  lemma {:induction false} FilterSpec<T>(s: seq<T>, keep: T -> bool)
    ensures IsSubList(Filter(s, keep), s)
    ensures forall x :: x in Filter(s, keep) ==> x in s && keep(x)
    ensures forall x :: x in s && keep(x) ==> x in Filter(s, keep)
    decreases |s|
  {
    if s != [] {
      var s', last := s[..|s| - 1], s[|s| - 1];
      FilterSpec(s', keep);
      var f' := Filter(s', keep);
      assert s == s' + [last];
      if keep(last) {
        assert Filter(s, keep) == f' + [last];
        assert (f' + [last])[..|f' + [last]| - 1] == f';
      } else {
        assert Filter(s, keep) == f';
      }
    }
  }

  /** Filtering depends only on the values `keep` takes on the elements. */
  lemma {:induction false} FilterExt<T>(s: seq<T>, f: T -> bool, g: T -> bool)
    requires forall x :: x in s ==> f(x) == g(x)
    ensures Filter(s, f) == Filter(s, g)
    decreases |s|
  {
    if s != [] {
      assert forall x :: x in s[..|s| - 1] ==> x in s;
      FilterExt(s[..|s| - 1], f, g);
    }
  }

  /** A filter of a list without repetitions has no repetitions. */
  lemma FilterDistinct<T>(s: seq<T>, keep: T -> bool)
    requires Distinct(s)
    ensures Distinct(Filter(s, keep))
  {
    FilterSpec(s, keep);
    SubListDistinct(Filter(s, keep), s);
  }

  // ---------------------------------------------------------------------------
  // Reversal (Python's list.reverse)

  function Reverse<T>(s: seq<T>): (r: seq<T>)
    ensures |r| == |s|
    ensures forall i :: 0 <= i < |s| ==> r[i] == s[|s| - 1 - i]
    decreases |s|
  {
    if s == [] then [] else [s[|s| - 1]] + Reverse(s[..|s| - 1])
  }

  // ---------------------------------------------------------------------------
  // Sorting integer sequences (Python's list.sort and numpy's np.sort)

  function Insert(x: int, s: seq<int>): seq<int>
    decreases |s|
  {
    if s == [] then [x] else if x <= s[0] then [x] + s else [s[0]] + Insert(x, s[1..])
  }

  function Sort(s: seq<int>): seq<int>
    decreases |s|
  {
    if s == [] then [] else Insert(s[0], Sort(s[1..]))
  }

  lemma {:induction false} InsertMultiset(x: int, s: seq<int>)
    ensures multiset(Insert(x, s)) == multiset(s) + multiset{x}
    decreases |s|
  {
    if s != [] && x > s[0] {
      InsertMultiset(x, s[1..]);
      assert s == [s[0]] + s[1..];
    }
  }

  /** Insertion into a sorted list starts with the smaller of x and the old head. */
  lemma InsertHead(x: int, s: seq<int>)
    ensures Insert(x, s) != []
    ensures Insert(x, s)[0] == if s == [] || x <= s[0] then x else s[0]
  {
  }

  lemma {:induction false} InsertSorted(x: int, s: seq<int>)
    requires SortedInts(s)
    ensures SortedInts(Insert(x, s))
    decreases |s|
  {
    if s != [] && x > s[0] {
      var t := Insert(x, s[1..]);
      InsertSorted(x, s[1..]);
      InsertHead(x, s[1..]);
      assert s[0] <= t[0];
      assert Insert(x, s) == [s[0]] + t;
    }
  }

  lemma InsertSpec(x: int, s: seq<int>)
    requires SortedInts(s)
    ensures SortedInts(Insert(x, s))
    ensures multiset(Insert(x, s)) == multiset(s) + multiset{x}
  {
    InsertSorted(x, s);
    InsertMultiset(x, s);
  }

  /** `Sort(s)` is non-decreasing and a permutation of `s`. */
  lemma {:induction false} SortSpec(s: seq<int>)
    ensures SortedInts(Sort(s))
    ensures multiset(Sort(s)) == multiset(s)
    ensures |Sort(s)| == |s|
    decreases |s|
  {
    if s != [] {
      SortSpec(s[1..]);
      InsertSpec(s[0], Sort(s[1..]));
      assert s == [s[0]] + s[1..];
    }
  }

  /** The head of a sorted sequence is below every element. */
  lemma SortedHeadIsLeast(a: seq<int>, y: int)
    requires SortedInts(a) && y in multiset(a)
    ensures a[0] <= y
  {
    var q :| 0 <= q < |a| && a[q] == y;
  }

  /** Two sorted sequences with the same elements (counted with multiplicity)
      are equal. */
  lemma {:induction false} SortedUnique(a: seq<int>, b: seq<int>)
    requires SortedInts(a) && SortedInts(b)
    requires multiset(a) == multiset(b)
    ensures a == b
    decreases |a|
  {
    assert |a| == |multiset(a)| == |multiset(b)| == |b|;
    if a != [] {
      assert a[0] in multiset(a);
      assert b[0] in multiset(b);
      SortedHeadIsLeast(b, a[0]);
      SortedHeadIsLeast(a, b[0]);
      assert a == [a[0]] + a[1..];
      assert b == [b[0]] + b[1..];
      assert multiset(a) == multiset{a[0]} + multiset(a[1..]);
      assert multiset(b) == multiset{b[0]} + multiset(b[1..]);
      assert a[0] == b[0];
      assert multiset(a[1..]) == multiset(a) - multiset{a[0]};
      assert multiset(b[1..]) == multiset(b) - multiset{b[0]};
      SortedUnique(a[1..], b[1..]);
    }
  }

  /** Sorting gives the same result for any permutation of its input. */
  lemma SortPermutationInvariant(a: seq<int>, b: seq<int>)
    requires multiset(a) == multiset(b)
    ensures Sort(a) == Sort(b)
  {
    SortSpec(a);
    SortSpec(b);
    SortedUnique(Sort(a), Sort(b));
  }

  /** Sorting a sorted sequence changes nothing, so sorting is idempotent. */
  lemma SortOfSorted(s: seq<int>)
    requires SortedInts(s)
    ensures Sort(s) == s
  {
    SortSpec(s);
    SortedUnique(Sort(s), s);
  }

  /** Multiplying a positive number by a factor of at least 1 does not shrink it. */
  lemma {:induction false} MulAtLeast(d: int, x: int)
    ensures d > 0 && x >= 1 ==> d * x >= d
    decreases if x > 0 then x else 0
  {
    if d > 0 && x > 1 {
      MulAtLeast(d, x - 1);
      assert d * x == d * (x - 1) + d;
    }
  }

  /** Euclidean division has a unique quotient. */
  lemma DivUnique(i: int, d: int, q: int, r: int)
    requires d > 0 && i == d * q + r && 0 <= r < d
    ensures i / d == q
  {
    var q' := i / d;
    var x := q - q';
    assert d * q - d * q' == d * x;
    assert d * (-x) == -(d * x);
    MulAtLeast(d, x);
    MulAtLeast(d, -x);
  }

  // ---------------------------------------------------------------------------
  // Concatenation of a list of lists

  /** The lists of `ss` one after the other (nested loops that extend one output list). */
  function Flatten<T>(ss: seq<seq<T>>): seq<T>
    decreases |ss|
  {
    if ss == [] then [] else Flatten(ss[..|ss| - 1]) + ss[|ss| - 1]
  }

  lemma AppendAssoc<T>(a: seq<T>, b: seq<T>, c: seq<T>)
    ensures a + (b + c) == (a + b) + c
  {
  }

  /** A two-element list given element by element. */
  lemma PairIs<T>(s: seq<T>, x: T, y: T)
    requires |s| == 2 && s[0] == x && s[1] == y
    ensures s == [x, y]
  {
  }

  /** One more list of the prefix extends the concatenation at its end. */
  lemma FlattenStep<T>(ss: seq<seq<T>>, k: int)
    requires 0 <= k < |ss|
    ensures Flatten(ss[..k + 1]) == Flatten(ss[..k]) + ss[k]
  {
    assert ss[..k + 1][..k] == ss[..k];
  }

  /** An element is in the concatenation iff it is in one of the lists. */
  lemma {:induction false} FlattenMembers<T>(ss: seq<seq<T>>)
    ensures forall x :: x in Flatten(ss) <==> exists k :: 0 <= k < |ss| && x in ss[k]
    decreases |ss|
  {
    if ss != [] {
      var init := ss[..|ss| - 1];
      FlattenMembers(init);
      forall x ensures x in Flatten(ss) <==> exists k :: 0 <= k < |ss| && x in ss[k] {
        if x in Flatten(init) {
          var k :| 0 <= k < |init| && x in init[k];
          assert ss[k] == init[k];
        }
        if exists k :: 0 <= k < |ss| && x in ss[k] {
          var k :| 0 <= k < |ss| && x in ss[k];
          if k < |ss| - 1 {
            assert init[k] == ss[k];
          }
        }
      }
    }
  }

  /** An element of one of the lists is in the concatenation. */
  lemma FlattenHas<T>(ss: seq<seq<T>>, k: int, x: T)
    requires 0 <= k < |ss| && x in ss[k]
    ensures x in Flatten(ss)
  {
    FlattenMembers(ss);
  }

  /** An element of the concatenation comes from one of the lists. */
  lemma FlattenFind<T>(ss: seq<seq<T>>, x: T) returns (k: int)
    requires x in Flatten(ss)
    ensures 0 <= k < |ss| && x in ss[k]
  {
    FlattenMembers(ss);
    k :| 0 <= k < |ss| && x in ss[k];
  }

  // ---------------------------------------------------------------------------
  // Sums, maxima, de-duplication

  function Sum(s: seq<int>): int
    decreases |s|
  {
    if s == [] then 0 else Sum(s[..|s| - 1]) + s[|s| - 1]
  }

  /** Python's max over a non-empty list. */
  function Max(s: seq<int>): (r: int)
    requires |s| > 0
    ensures forall i :: 0 <= i < |s| ==> s[i] <= r
    ensures exists i :: 0 <= i < |s| && s[i] == r
    decreases |s|
  {
    if |s| == 1 then s[0]
    else
      var m := Max(s[..|s| - 1]);
      assert forall i :: 0 <= i < |s| - 1 ==> s[..|s| - 1][i] == s[i];
      if s[|s| - 1] > m then s[|s| - 1] else m
  }

  /** The first position of `x` in `s`. */
  function FirstIndex<T(==)>(s: seq<T>, x: T): (i: nat)
    requires x in s
    ensures i < |s| && s[i] == x && x !in s[..i]
    decreases |s|
  {
    if s[0] == x then 0 else 1 + FirstIndex(s[1..], x)
  }

  /** `s` with every repeated element dropped, keeping first occurrences
      (the `already_written` set of the clause generator). */
  function Dedup<T(==)>(s: seq<T>): seq<T>
    decreases |s|
  {
    if s == [] then []
    else
      var d := Dedup(s[..|s| - 1]);
      if s[|s| - 1] in d then d else d + [s[|s| - 1]]
  }

  /** Appending one element to the source list either keeps the de-duplicated
      list or appends the element to it. */
  lemma DedupStep<T>(s: seq<T>, x: T)
    ensures Dedup(s + [x]) == if x in Dedup(s) then Dedup(s) else Dedup(s) + [x]
  {
    assert (s + [x])[..|s|] == s;
  }

  /** `Dedup(s)` has no repetitions and holds exactly the elements of `s`. */
  lemma {:induction false} DedupElems<T>(s: seq<T>)
    ensures Distinct(Dedup(s))
    ensures Elems(Dedup(s)) == Elems(s)
    decreases |s|
  {
    if s != [] {
      var s', x := s[..|s| - 1], s[|s| - 1];
      DedupElems(s');
      var d := Dedup(s');
      assert s == s' + [x];
      assert Elems(s) == Elems(s') + {x};
      if x !in d {
        var r := d + [x];
        assert Dedup(s) == r;
        forall i, j | 0 <= i < |r| && 0 <= j < |r| && i != j ensures r[i] != r[j] {
          if i == |d| { assert r[j] == d[j]; assert d[j] in d; }
          else if j == |d| { assert r[i] == d[i]; assert d[i] in d; }
          else { assert r[i] == d[i] && r[j] == d[j]; }
        }
      }
    }
  }

  /** `Dedup(s)` is an order-preserving sub-list of `s`. */
  lemma {:induction false} DedupSubList<T>(s: seq<T>)
    ensures IsSubList(Dedup(s), s)
    decreases |s|
  {
    if s != [] {
      var s', x := s[..|s| - 1], s[|s| - 1];
      DedupSubList(s');
      var d := Dedup(s');
      if x in d {
        assert IsSubList(d, s);
      } else {
        var r := d + [x];
        assert r[..|r| - 1] == d;
      }
    }
  }

  /** The elements of d are elements of s, listed in the order of their first
      occurrence in s. */
  predicate InFirstOccurrenceOrder<T(==)>(s: seq<T>, d: seq<T>) {
    && (forall i :: 0 <= i < |d| ==> d[i] in s)
    && (forall i, j :: 0 <= i < j < |d| ==> FirstIndex(s, d[i]) < FirstIndex(s, d[j]))
  }

  /** Appending to s keeps the order of an ordered list. */
  lemma OrderKeptByAppend<T>(s: seq<T>, x: T, d: seq<T>)
    requires InFirstOccurrenceOrder(s, d)
    ensures InFirstOccurrenceOrder(s + [x], d)
  {
    forall i | 0 <= i < |d| ensures FirstIndex(s + [x], d[i]) == FirstIndex(s, d[i]) {
      FirstIndexPrefix(s, [x], d[i]);
    }
  }

  /** Appending a new element to both keeps the order. */
  lemma OrderExtendedByNew<T>(s: seq<T>, x: T, d: seq<T>)
    requires InFirstOccurrenceOrder(s, d) && Elems(d) <= Elems(s) && x !in s
    ensures InFirstOccurrenceOrder(s + [x], d + [x])
  {
    OrderKeptByAppend(s, x, d);
    var r := d + [x];
    assert FirstIndex(s + [x], x) == |s|;
    forall i | 0 <= i < |d| ensures d[i] in s && FirstIndex(s + [x], d[i]) < |s| {
      assert d[i] in Elems(d);
      FirstIndexPrefix(s, [x], d[i]);
    }
    forall i, j | 0 <= i < j < |r|
      ensures r[i] in s + [x] && r[j] in s + [x] && FirstIndex(s + [x], r[i]) < FirstIndex(s + [x], r[j])
    {
      assert r[i] == d[i];
      if j < |d| {
        assert r[j] == d[j];
      }
    }
  }

  /** `Dedup(s)` lists its elements in the order of their first occurrence in `s`. */
  lemma {:induction false} DedupFirstOccurrenceOrder<T>(s: seq<T>)
    ensures InFirstOccurrenceOrder(s, Dedup(s))
    decreases |s|
  {
    if s != [] {
      var s', x := s[..|s| - 1], s[|s| - 1];
      DedupFirstOccurrenceOrder(s');
      DedupElems(s');
      assert s == s' + [x];
      if x !in Dedup(s') {
        assert x !in s' by { assert x !in Elems(s'); }
        OrderExtendedByNew(s', x, Dedup(s'));
      } else {
        OrderKeptByAppend(s', x, Dedup(s'));
      }
    }
  }

  lemma {:induction false} FirstIndexPrefix<T>(a: seq<T>, b: seq<T>, x: T)
    requires x in a
    ensures FirstIndex(a + b, x) == FirstIndex(a, x)
    decreases |a|
  {
    if a[0] != x {
      assert (a + b)[1..] == a[1..] + b;
      FirstIndexPrefix(a[1..], b, x);
    }
  }

  // ---------------------------------------------------------------------------
  // Ballot indices

  predicate IndicesBelow(idx: seq<int>, bound: int) {
    forall i :: 0 <= i < |idx| ==> 0 <= idx[i] < bound
  }

  /** Splitting a sequence around position j splits its multiset. */
  lemma MultisetSplit<T>(t: seq<T>, j: int)
    requires 0 <= j < |t|
    ensures multiset(t) == multiset(t[..j] + t[j + 1..]) + multiset{t[j]}
  {
    assert t == t[..j] + [t[j]] + t[j + 1..];
  }

  /** Removing position j from two elementwise-related sequences keeps them
      elementwise related. */
  lemma PointwiseRemove<A, B>(t: seq<A>, ft: seq<B>, f: A -> B, j: int, t': seq<A>, ft': seq<B>)
    requires 0 <= j < |t| && |ft| == |t| && forall i :: 0 <= i < |t| ==> ft[i] == f(t[i])
    requires t' == t[..j] + t[j + 1..] && ft' == ft[..j] + ft[j + 1..]
    ensures |ft'| == |t'| && forall i :: 0 <= i < |t'| ==> ft'[i] == f(t'[i])
  {
    forall i | 0 <= i < |t'| ensures ft'[i] == f(t'[i]) {
      if i < j {
        assert ft'[i] == ft[i] && t'[i] == t[i];
      } else {
        assert ft'[i] == ft[i + 1] && t'[i] == t[i + 1];
      }
    }
  }

  /** Removing the last element of s and a matching element of t keeps two
      permutations of each other. */
  lemma RemoveMatched<T>(s: seq<T>, t: seq<T>, j: int)
    requires multiset(s) == multiset(t) && s != [] && 0 <= j < |t| && t[j] == s[|s| - 1]
    ensures multiset(s[..|s| - 1]) == multiset(t[..j] + t[j + 1..])
  {
    var s' := s[..|s| - 1];
    assert s == s' + [s[|s| - 1]];
    MultisetSplit(t, j);
    assert multiset(s) == multiset(s') + multiset{t[j]};
    assert multiset(s') == multiset(s) - multiset{t[j]};
    assert multiset(t[..j] + t[j + 1..]) == multiset(t) - multiset{t[j]};
  }

  /** Applying one function elementwise to two permutations of each other gives
      two permutations of each other. */
  lemma {:induction false} PointwiseMultiset<A, B>(s: seq<A>, t: seq<A>, fs: seq<B>, ft: seq<B>, f: A -> B)
    requires multiset(s) == multiset(t)
    requires |fs| == |s| && forall i :: 0 <= i < |s| ==> fs[i] == f(s[i])
    requires |ft| == |t| && forall i :: 0 <= i < |t| ==> ft[i] == f(t[i])
    ensures multiset(fs) == multiset(ft)
    decreases |s|
  {
    if s == [] {
      assert |t| == |multiset(t)| == 0;
    } else {
      var x := s[|s| - 1];
      assert x in multiset(t);
      var j :| 0 <= j < |t| && t[j] == x;
      var s', fs' := s[..|s| - 1], fs[..|fs| - 1];
      var t', ft' := t[..j] + t[j + 1..], ft[..j] + ft[j + 1..];
      assert multiset(fs) == multiset(fs') + multiset{f(x)} by {
        assert fs == fs' + [f(x)];
      }
      RemoveMatched(s, t, j);
      assert multiset(ft) == multiset(ft') + multiset{f(x)} by {
        MultisetSplit(ft, j);
      }
      assert |fs'| == |s'| && forall i :: 0 <= i < |s'| ==> fs'[i] == f(s'[i]);
      PointwiseRemove(t, ft, f, j, t', ft');
      PointwiseMultiset(s', t', fs', ft', f);
    }
  }

  /** The ballots at positions `idx` of the ballot list. */
  function ToBallots(ballots: seq<Ballot>, idx: seq<int>): (r: Profile)
    requires IndicesBelow(idx, |ballots|)
    ensures |r| == |idx| && forall i :: 0 <= i < |idx| ==> r[i] == ballots[idx[i]]
  {
    seq(|idx|, i requires 0 <= i < |idx| => ballots[idx[i]])
  }

  /** Over distinct ballots, different positions give different profiles. */
  lemma ToBallotsInjective(ballots: seq<Ballot>, x: seq<int>, y: seq<int>)
    requires Distinct(ballots) && IndicesBelow(x, |ballots|) && IndicesBelow(y, |ballots|)
    ensures ToBallots(ballots, x) == ToBallots(ballots, y) <==> x == y
  {
    if ToBallots(ballots, x) == ToBallots(ballots, y) {
      forall v | 0 <= v < |x| ensures x[v] == y[v] {
        assert ballots[x[v]] == ToBallots(ballots, x)[v] == ToBallots(ballots, y)[v] == ballots[y[v]];
      }
    }
  }

  // ---------------------------------------------------------------------------
  // Seats of a committee approved by a ballot

  /** How many seats of `c`, counted with multiplicity, go to parties the ballot
      approves (`len([p for p in committee if p in ballot])`). */
  function ApprovedSeats(c: Committee, b: Ballot): (r: nat)
    ensures r <= |c|
    ensures r == 0 <==> forall i :: 0 <= i < |c| ==> c[i] !in b
    ensures r == |c| <==> forall i :: 0 <= i < |c| ==> c[i] in b
    decreases |c|
  {
    if c == [] then 0
    else ApprovedSeats(c[..|c| - 1], b) + (if c[|c| - 1] in b then 1 else 0)
  }
}
