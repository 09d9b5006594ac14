/**
 * The arbitrage scanner: sorts a same-expiry call chain by strike (stably,
 * into a new sequence) and flags every adjacent pair whose higher-strike call
 * is priced above the lower-strike one.
 */
module Scanner {

  /** One chain record: a strike and its quoted call price. */
  datatype Quote = Quote(strike: real, price: real)

  const MonotonicityViolation: string := "Monotonicity Violation"

  /** A flagged pair: the violating (higher) strike, its price, and the strike it was compared with. */
  datatype Anomaly = Anomaly(kind: string, strike: real, price: real, prevStrike: real)

  /** The anomaly raised for the adjacent pair (prev, curr). */
  function Flagged(prev: Quote, curr: Quote): Anomaly
  {
    Anomaly(MonotonicityViolation, curr.strike, curr.price, prev.strike)
  }

  ghost predicate SortedByStrike(s: seq<Quote>)
  {
    forall i, j :: 0 <= i < j < |s| ==> s[i].strike <= s[j].strike
  }

  /** The quotes of `s` with strike `k`, in their order in `s`. */
  function KeyRun(s: seq<Quote>, k: real): seq<Quote>
  {
    if s == [] then []
    else KeyRun(s[..|s| - 1], k) + (if s[|s| - 1].strike == k then [s[|s| - 1]] else [])
  }

  /** Inserts `x` after the last quote whose strike does not exceed its own. */
  function InsertByStrike(s: seq<Quote>, x: Quote): seq<Quote>
  {
    if s == [] || s[|s| - 1].strike <= x.strike then s + [x]
    else InsertByStrike(s[..|s| - 1], x) + [s[|s| - 1]]
  }

  /** The chain in ascending strike order, quotes of equal strike in their original order. */
  function StableSort(s: seq<Quote>): seq<Quote>
  {
    if s == [] then [] else InsertByStrike(StableSort(s[..|s| - 1]), s[|s| - 1])
  }

  /** The anomalies of an already ordered chain, one per adjacent pair whose price goes up. */
  function Violations(s: seq<Quote>): (r: seq<Anomaly>)
    ensures |r| <= if s == [] then 0 else |s| - 1
  {
    if |s| < 2 then []
    else
      Violations(s[..|s| - 1])
      + (if s[|s| - 1].price > s[|s| - 2].price then [Flagged(s[|s| - 2], s[|s| - 1])] else [])
  }

  ghost predicate AscendingStrikes(r: seq<Anomaly>)
  {
    forall p, q :: 0 <= p < q < |r| ==> r[p].strike <= r[q].strike
  }

  /** What the scanner returns for a chain. */
  function ScanSpec(chain: seq<Quote>): seq<Anomaly>
  {
    Violations(StableSort(chain))
  }

  // ---------------------------------------------------------------------
  // The stable sort
  // ---------------------------------------------------------------------

  lemma {:induction false} KeyRunAppend(a: seq<Quote>, b: seq<Quote>, k: real)
    ensures KeyRun(a + b, k) == KeyRun(a, k) + KeyRun(b, k)
    decreases |b|
  {
    if b == [] {
      assert a + b == a;
    } else {
      var b' := b[..|b| - 1];
      assert (a + b)[..|a + b| - 1] == a + b';
      KeyRunAppend(a, b', k);
    }
  }

  lemma KeyRunSingle(x: Quote, k: real)
    ensures KeyRun([x], k) == if x.strike == k then [x] else []
  {
    assert [x][..0] == [];
  }

  /** Inserting `x` adds it at the end of its own strike's run and leaves the other runs alone. */
  lemma {:induction false} InsertKeyRun(s: seq<Quote>, x: Quote, k: real)
    ensures KeyRun(InsertByStrike(s, x), k) == KeyRun(s, k) + (if x.strike == k then [x] else [])
    decreases |s|
  {
    KeyRunSingle(x, k);
    if s == [] || s[|s| - 1].strike <= x.strike {
      KeyRunAppend(s, [x], k);
    } else {
      var s', last := s[..|s| - 1], s[|s| - 1];
      assert s == s' + [last];
      InsertKeyRun(s', x, k);
      KeyRunAppend(InsertByStrike(s', x), [last], k);
      KeyRunAppend(s', [last], k);
      KeyRunSingle(last, k);
    }
  }

  /** Insertion adds exactly `x`. */
  lemma {:induction false} InsertPermutes(s: seq<Quote>, x: Quote)
    ensures multiset(InsertByStrike(s, x)) == multiset(s) + multiset{x}
    decreases |s|
  {
    if s != [] && s[|s| - 1].strike > x.strike {
      var s', last := s[..|s| - 1], s[|s| - 1];
      assert s == s' + [last];
      InsertPermutes(s', x);
    }
  }

  /** The sorted view is a permutation of the chain. */
  lemma {:induction false} StableSortPermutes(s: seq<Quote>)
    ensures multiset(StableSort(s)) == multiset(s)
    decreases |s|
  {
    if s != [] {
      var s', last := s[..|s| - 1], s[|s| - 1];
      assert s == s' + [last];
      StableSortPermutes(s');
      InsertPermutes(StableSort(s'), last);
    }
  }

  /** Inserting into a sorted sequence keeps it sorted. */
  lemma {:induction false} InsertSorted(s: seq<Quote>, x: Quote)
    requires SortedByStrike(s)
    ensures SortedByStrike(InsertByStrike(s, x))
    decreases |s|
  {
    if s == [] || s[|s| - 1].strike <= x.strike {
    } else {
      var s', last := s[..|s| - 1], s[|s| - 1];
      InsertSorted(s', x);
      var r' := InsertByStrike(s', x);
      InsertPermutes(s', x);
      forall i | 0 <= i < |r'|
        ensures r'[i].strike <= last.strike
      {
        assert r'[i] in multiset(r');
        if r'[i] != x {
          assert r'[i] in multiset(s');
        }
      }
    }
  }

  /** The sorted view is ordered by strike. */
  lemma {:induction false} StableSortSorted(s: seq<Quote>)
    ensures SortedByStrike(StableSort(s))
    decreases |s|
  {
    if s != [] {
      StableSortSorted(s[..|s| - 1]);
      InsertSorted(StableSort(s[..|s| - 1]), s[|s| - 1]);
    }
  }

  /** The sort is stable: each strike's quotes keep their relative order. */
  lemma {:induction false} StableSortKeyRun(s: seq<Quote>, k: real)
    ensures KeyRun(StableSort(s), k) == KeyRun(s, k)
    decreases |s|
  {
    if s != [] {
      StableSortKeyRun(s[..|s| - 1], k);
      InsertKeyRun(StableSort(s[..|s| - 1]), s[|s| - 1], k);
    }
  }

  /** Every element of a run is an element of the sequence. */
  lemma {:induction false} KeyRunMembers(s: seq<Quote>, k: real, q: Quote)
    requires q in KeyRun(s, k)
    ensures q in s && q.strike == k
    decreases |s|
  {
    var s' := s[..|s| - 1];
    if q in KeyRun(s', k) {
      KeyRunMembers(s', k, q);
    }
  }

  /** A sequence's last element ends the run of its strike. */
  lemma KeyRunLast(s: seq<Quote>)
    requires s != []
    ensures KeyRun(s, s[|s| - 1].strike) == KeyRun(s[..|s| - 1], s[|s| - 1].strike) + [s[|s| - 1]]
  {
  }

  /**
   * A stable sort is unique: two strike-ordered sequences with the same runs
   * for every strike are equal.
   */
  lemma {:induction false} SortedRunsDetermine(a: seq<Quote>, b: seq<Quote>)
    requires SortedByStrike(a) && SortedByStrike(b)
    requires forall k :: KeyRun(a, k) == KeyRun(b, k)
    ensures a == b
    decreases |a|
  {
    if a == [] {
      if b != [] {
        KeyRunLast(b);
      }
    } else if b == [] {
      KeyRunLast(a);
    } else {
      var x, y := a[|a| - 1], b[|b| - 1];
      var a', b' := a[..|a| - 1], b[..|b| - 1];
      KeyRunLast(a);
      KeyRunLast(b);
      // x ends its run in b as well, so it occurs in b and its strike is at most y's
      assert x == KeyRun(b, x.strike)[|KeyRun(b, x.strike)| - 1];
      KeyRunMembers(b, x.strike, x);
      assert y == KeyRun(a, y.strike)[|KeyRun(a, y.strike)| - 1];
      KeyRunMembers(a, y.strike, y);
      assert x.strike == y.strike;
      assert x == y;
      forall k
        ensures KeyRun(a', k) == KeyRun(b', k)
      {
        assert KeyRun(a, k) == KeyRun(b, k);
        if k == x.strike {
          assert KeyRun(a', k) + [x] == KeyRun(b', k) + [y];
          assert KeyRun(a', k) == (KeyRun(a', k) + [x])[..|KeyRun(a', k)|];
          assert KeyRun(b', k) == (KeyRun(b', k) + [y])[..|KeyRun(b', k)|];
        } else {
          assert KeyRun(a, k) == KeyRun(a', k) + [];
          assert KeyRun(b, k) == KeyRun(b', k) + [];
          assert KeyRun(a', k) + [] == KeyRun(a', k);
          assert KeyRun(b', k) + [] == KeyRun(b', k);
        }
      }
      SortedRunsDetermine(a', b');
      assert a == a' + [x] && b == b' + [y];
    }
  }

  /**
   * Reordering the chain leaves the scan unchanged, as long as quotes of equal
   * strike keep their relative order.
   */
  lemma ScanOrderInvariant(chain: seq<Quote>, shuffled: seq<Quote>)
    requires forall k :: KeyRun(shuffled, k) == KeyRun(chain, k)
    ensures ScanSpec(shuffled) == ScanSpec(chain)
  {
    StableSortSorted(chain);
    StableSortSorted(shuffled);
    forall k
      ensures KeyRun(StableSort(shuffled), k) == KeyRun(StableSort(chain), k)
    {
      StableSortKeyRun(chain, k);
      StableSortKeyRun(shuffled, k);
    }
    SortedRunsDetermine(StableSort(shuffled), StableSort(chain));
  }

  /** No two quotes of the chain share a strike, as in a chain for a single expiry. */
  ghost predicate DistinctStrikes(s: seq<Quote>)
  {
    forall i, j :: 0 <= i < j < |s| ==> s[i].strike != s[j].strike
  }

  /** A run holds each quote of its strike as often as the sequence does, and no other quote. */
  lemma {:induction false} KeyRunMultiset(s: seq<Quote>, k: real, q: Quote)
    ensures multiset(KeyRun(s, k))[q] == if q.strike == k then multiset(s)[q] else 0
    decreases |s|
  {
    if s != [] {
      var s', last := s[..|s| - 1], s[|s| - 1];
      assert s == s' + [last];
      KeyRunMultiset(s', k, q);
    }
  }

  /** With distinct strikes, every run holds at most one quote. */
  lemma {:induction false} KeyRunShort(s: seq<Quote>, k: real)
    requires DistinctStrikes(s)
    ensures |KeyRun(s, k)| <= 1
    decreases |s|
  {
    if s != [] {
      var s', last := s[..|s| - 1], s[|s| - 1];
      assert DistinctStrikes(s') by {
        forall i, j | 0 <= i < j < |s'|
          ensures s'[i].strike != s'[j].strike
        {
          assert s'[i] == s[i] && s'[j] == s[j];
        }
      }
      KeyRunShort(s', k);
      if last.strike == k && KeyRun(s', k) != [] {
        // the run's quote lies in s' with the strike of last, which distinct strikes rule out
        KeyRunMembers(s', k, KeyRun(s', k)[0]);
        assert false;
      }
    }
  }

  /** Two sequences of at most one element with the same elements are equal. */
  lemma ShortPermutation(a: seq<Quote>, b: seq<Quote>)
    requires |a| <= 1 && multiset(a) == multiset(b)
    ensures a == b
  {
    assert |b| == |multiset(b)| == |multiset(a)| == |a|;
    if |a| == 1 {
      assert a[0] in multiset(b);
      assert a[0] in b;
    }
  }

  /**
   * With distinct strikes, the scan does not depend on the order of the chain
   * at all: any permutation of it yields the same anomalies.
   */
  lemma ScanPermutationInvariant(chain: seq<Quote>, shuffled: seq<Quote>)
    requires multiset(shuffled) == multiset(chain)
    requires DistinctStrikes(chain)
    ensures ScanSpec(shuffled) == ScanSpec(chain)
  {
    forall k
      ensures KeyRun(shuffled, k) == KeyRun(chain, k)
    {
      KeyRunShort(chain, k);
      forall q
        ensures multiset(KeyRun(shuffled, k))[q] == multiset(KeyRun(chain, k))[q]
      {
        KeyRunMultiset(shuffled, k, q);
        KeyRunMultiset(chain, k, q);
      }
      assert multiset(KeyRun(shuffled, k)) == multiset(KeyRun(chain, k));
      ShortPermutation(KeyRun(chain, k), KeyRun(shuffled, k));
    }
    ScanOrderInvariant(chain, shuffled);
  }

  /** Two quotes at the same strike: their order decides whether the pair is flagged. */
  lemma TiedStrikesOrderMatters()
    ensures ScanSpec([Quote(100.0, 5.0), Quote(100.0, 7.0)]) == [Flagged(Quote(100.0, 5.0), Quote(100.0, 7.0))]
    ensures ScanSpec([Quote(100.0, 7.0), Quote(100.0, 5.0)]) == []
  {
    var lo, hi := Quote(100.0, 5.0), Quote(100.0, 7.0);
    assert [lo, hi][..1] == [lo];
    assert [hi, lo][..1] == [hi];
    assert StableSort([lo]) == [lo];
    assert StableSort([hi]) == [hi];
    assert StableSort([lo, hi]) == [lo, hi];
    assert StableSort([hi, lo]) == [hi, lo];
  }

  /** A call at 110 priced above the call at 100 is flagged; strictly falling prices are not. */
  lemma ScanExamples()
    ensures ScanSpec([Quote(110.0, 12.0), Quote(100.0, 10.0)])
         == [Anomaly(MonotonicityViolation, 110.0, 12.0, 100.0)]
    ensures ScanSpec([Quote(120.0, 5.0), Quote(100.0, 10.0), Quote(110.0, 8.0)]) == []
  {
    var a, b := Quote(100.0, 10.0), Quote(110.0, 12.0);
    assert [b, a][..1] == [b];
    assert StableSort([b]) == [b];
    assert [b][..0] == [];
    assert InsertByStrike([b], a) == [a, b];
    assert StableSort([b, a]) == [a, b];
    assert [a, b][..1] == [a];
    var p, q, r := Quote(100.0, 10.0), Quote(110.0, 8.0), Quote(120.0, 5.0);
    assert [r, p, q][..2] == [r, p];
    assert [r, p][..1] == [r];
    assert StableSort([r]) == [r];
    assert [r][..0] == [];
    assert InsertByStrike([r], p) == [p, r];
    assert StableSort([r, p]) == [p, r];
    assert [p, r][..1] == [p];
    assert InsertByStrike([p, r], q) == [p, q, r];
    assert [p, r][..1] == [p];
    assert StableSort([r, p, q]) == [p, q, r];
    ViolationsEmpty([p, q, r]);
  }

  // ---------------------------------------------------------------------
  // The violations of an ordered chain
  // ---------------------------------------------------------------------

  /** The price goes up from index `i - 1` to index `i`. */
  ghost predicate RisesAt(s: seq<Quote>, i: int)
  {
    1 <= i < |s| && s[i].price > s[i - 1].price
  }

  /** The pair ending at index `i` of `s` has its price go up, and `a` is the anomaly it yields. */
  ghost predicate ReportedAt(s: seq<Quote>, i: int, a: Anomaly)
  {
    RisesAt(s, i) && a == Flagged(s[i - 1], s[i])
  }

  /** An anomaly is reported exactly for each adjacent pair whose price goes up. */
  lemma {:induction false} ViolationsExact(s: seq<Quote>, a: Anomaly)
    ensures a in Violations(s) <==> exists i :: ReportedAt(s, i, a)
    decreases |s|
  {
    if |s| >= 2 {
      var s' := s[..|s| - 1];
      ViolationsExact(s', a);
      var last := if s[|s| - 1].price > s[|s| - 2].price then [Flagged(s[|s| - 2], s[|s| - 1])] else [];
      assert Violations(s) == Violations(s') + last;
      assert a in last <==> ReportedAt(s, |s| - 1, a);
      forall i | i != |s| - 1
        ensures ReportedAt(s', i, a) <==> ReportedAt(s, i, a)
      {
        if 1 <= i < |s'| {
          assert s'[i] == s[i] && s'[i - 1] == s[i - 1];
        }
      }
    }
  }

  /** The indices at which the price goes up from the previous quote. */
  ghost function RisingPairs(s: seq<Quote>): set<int>
  {
    set i | 0 <= i < |s| && RisesAt(s, i)
  }

  /** Exactly one anomaly per adjacent pair whose price goes up. */
  lemma {:induction false} ViolationsCount(s: seq<Quote>)
    ensures |Violations(s)| == |RisingPairs(s)|
    decreases |s|
  {
    if |s| < 2 {
      assert RisingPairs(s) == {};
    } else {
      var s' := s[..|s| - 1];
      ViolationsCount(s');
      var tail := if RisesAt(s, |s| - 1) then {|s| - 1} else {};
      forall i | i != |s| - 1
        ensures RisesAt(s', i) <==> RisesAt(s, i)
      {
        if 1 <= i < |s'| {
          assert s'[i] == s[i] && s'[i - 1] == s[i - 1];
        }
      }
      assert RisingPairs(s) == RisingPairs(s') + tail;
      assert |s| - 1 !in RisingPairs(s');
    }
  }

  /** No anomaly exactly when prices never go up along the chain. */
  lemma {:induction false} ViolationsEmpty(s: seq<Quote>)
    ensures Violations(s) == [] <==> forall i :: 1 <= i < |s| ==> s[i].price <= s[i - 1].price
    decreases |s|
  {
    if |s| >= 2 {
      var s' := s[..|s| - 1];
      ViolationsEmpty(s');
      if Violations(s) == [] {
        forall i | 1 <= i < |s|
          ensures s[i].price <= s[i - 1].price
        {
          if i < |s| - 1 {
            assert s'[i] == s[i] && s'[i - 1] == s[i - 1];
          }
        }
      }
      if forall i :: 1 <= i < |s| ==> s[i].price <= s[i - 1].price {
        forall i | 1 <= i < |s'|
          ensures s'[i].price <= s'[i - 1].price
        {
          assert s'[i] == s[i] && s'[i - 1] == s[i - 1];
        }
      }
    }
  }

  /** In a strike-ordered chain, every anomaly's strike is at or above the strike it was compared with, and at most the last strike. */
  lemma ViolationStrikeBounds(s: seq<Quote>, p: nat)
    requires SortedByStrike(s)
    requires p < |Violations(s)|
    ensures Violations(s)[p].prevStrike <= Violations(s)[p].strike <= s[|s| - 1].strike
  {
    var a := Violations(s)[p];
    ViolationsExact(s, a);
    var i :| ReportedAt(s, i, a);
  }

  /** Along a strike-ordered chain, anomalies come out in ascending strike order, each at or above the strike it was compared with. */
  lemma {:induction false} ViolationsAscending(s: seq<Quote>)
    requires SortedByStrike(s)
    ensures forall p :: 0 <= p < |Violations(s)| ==> Violations(s)[p].prevStrike <= Violations(s)[p].strike
    ensures AscendingStrikes(Violations(s))
    decreases |s|
  {
    var r := Violations(s);
    forall p | 0 <= p < |r|
      ensures r[p].prevStrike <= r[p].strike
    {
      ViolationStrikeBounds(s, p);
    }
    if |s| >= 2 {
      var s' := s[..|s| - 1];
      var r' := Violations(s');
      assert SortedByStrike(s');
      ViolationsAscending(s');
      assert r[..|r'|] == r';
      forall p, q | 0 <= p < q < |r|
        ensures r[p].strike <= r[q].strike
      {
        if q < |r'| {
          assert r[p] == r'[p] && r[q] == r'[q];
          assert r'[p].strike <= r'[q].strike;
        } else {
          assert r[q] == Flagged(s[|s| - 2], s[|s| - 1]);
          assert r[p] == r'[p];
          ViolationStrikeBounds(s', p);
          assert s'[|s'| - 1] == s[|s| - 2];
          assert s[|s| - 2].strike <= s[|s| - 1].strike;
          assert r'[p].strike <= s'[|s'| - 1].strike;
        }
      }
    }
  }

  // ---------------------------------------------------------------------
  // The scanner
  // ---------------------------------------------------------------------

  /**
   * The scan: sort by strike, then flag each adjacent pair whose higher-strike
   * call costs more. At most one anomaly per adjacent pair, in ascending strike order.
   */
  method ScanArbitrage(chain: seq<Quote>) returns (anomalies: seq<Anomaly>)
    ensures anomalies == ScanSpec(chain)
    ensures |anomalies| <= if chain == [] then 0 else |chain| - 1
    ensures AscendingStrikes(anomalies)
  {
    anomalies := [];
    // the library's stable sort, into a new sequence
    var calls := StableSort(chain);
    assert |calls| == |chain| && SortedByStrike(calls) by {
      StableSortPermutes(chain);
      assert |multiset(calls)| == |multiset(chain)|;
      StableSortSorted(chain);
    }
    var i := 1;
    while i < |calls|
      invariant 1 <= i
      invariant calls != [] ==> i <= |calls|
      invariant i <= |calls| ==> anomalies == Violations(calls[..i])
      invariant calls == [] ==> anomalies == []
    {
      var prev, curr := calls[i - 1], calls[i];
      if curr.price > prev.price {
        anomalies := anomalies + [Flagged(prev, curr)];
      }
      assert calls[..i + 1][..i] == calls[..i];
      i := i + 1;
    }
    assert calls != [] ==> calls[..i] == calls;
    ViolationsAscending(calls);
  }
}
