/** What filling the smallest set with the least loaded node does to the sizes. */
module Filling {
  import opened Collections
  import opened Memberships

  /** Set k is a smallest one, and id is a node it lacks with the fewest memberships. */
  ghost predicate LeastLoaded(sets: seq<set<Id>>, k: nat, id: Id, ids: set<Id>) {
    && k < |sets|
    && (forall j :: 0 <= j < |sets| ==> |sets[k]| < |sets[j]| || (|sets[k]| == |sets[j]| && k <= j))
    && id in ids && id !in sets[k]
    && (forall other :: other in ids && other !in sets[k] ==>
          Count(id, sets) < Count(other, sets) || (Count(id, sets) == Count(other, sets) && id <= other))
  }

  ghost predicate NoneAbove(sets: seq<set<Id>>, ids: set<Id>, average: nat) {
    forall id :: id in ids ==> Count(id, sets) <= average
  }

  ghost predicate Over(sets: seq<set<Id>>, ids: set<Id>) {
    forall k :: 0 <= k < |sets| ==> sets[k] <= ids
  }

  /** The total once every set is filled up to n. */
  function Brim(sets: seq<set<Id>>, n: int): int {
    if sets == [] then 0 else Max(|sets[0]|, n) + Brim(sets[1..], n)
  }

  /** The largest size. */
  function Top(sets: seq<set<Id>>): nat {
    if sets == [] then 0 else Max(|sets[0]|, Top(sets[1..]))
  }

  lemma {:induction false} TopFacts(sets: seq<set<Id>>)
    ensures forall k :: 0 <= k < |sets| ==> |sets[k]| <= Top(sets)
    ensures sets != [] ==> exists k :: 0 <= k < |sets| && |sets[k]| == Top(sets)
  {
    if sets != [] {
      var rest := sets[1..];
      TopFacts(rest);
      forall k | 0 <= k < |sets|
        ensures |sets[k]| <= Top(sets)
      {
        assert k > 0 ==> sets[k] == rest[k - 1];
      }
      if Top(sets) == |sets[0]| {
        assert |sets[0]| == Top(sets);
      } else {
        var k :| 0 <= k < |rest| && |rest[k]| == Top(rest);
        assert sets[k + 1] == rest[k];
      }
    }
  }

  lemma {:induction false} BrimAtMost(start: seq<set<Id>>, sets: seq<set<Id>>, n: int)
    requires |sets| == |start| && forall k :: 0 <= k < |sets| ==> |sets[k]| <= Max(|start[k]|, n)
    ensures Total(sets) <= Brim(start, n)
  {
    if sets != [] {
      BrimAtMost(start[1..], sets[1..], n);
    }
  }

  lemma {:induction false} BrimAtLeast(start: seq<set<Id>>, sets: seq<set<Id>>, n: int)
    requires |sets| == |start| && forall k :: 0 <= k < |sets| ==> |sets[k]| >= Max(|start[k]|, n)
    ensures Total(sets) >= Brim(start, n)
  {
    if sets != [] {
      BrimAtLeast(start[1..], sets[1..], n);
    }
  }

  /** One set below the brim keeps the total below it. */
  lemma {:induction false} BrimShort(start: seq<set<Id>>, sets: seq<set<Id>>, n: int, j: nat)
    requires |sets| == |start| && forall k :: 0 <= k < |sets| ==> |sets[k]| <= Max(|start[k]|, n)
    requires j < |sets| && |sets[j]| < Max(|start[j]|, n)
    ensures Total(sets) < Brim(start, n)
  {
    if j == 0 {
      BrimAtMost(start[1..], sets[1..], n);
    } else {
      BrimShort(start[1..], sets[1..], n, j - 1);
    }
  }

  lemma {:induction false} BrimGrows(small: seq<set<Id>>, sets: seq<set<Id>>, m: int, n: int)
    requires |small| == |sets| && m <= n && forall k :: 0 <= k < |sets| ==> |small[k]| <= |sets[k]|
    ensures Brim(small, m) <= Brim(sets, n)
  {
    if sets != [] {
      BrimGrows(small[1..], sets[1..], m, n);
    }
  }

  /** Sets only grow, and one that has grown is at most one above every other. */
  ghost predicate Grown(start: seq<set<Id>>, sets: seq<set<Id>>) {
    && |sets| == |start|
    && (forall k :: 0 <= k < |sets| ==> start[k] <= sets[k] && |start[k]| <= |sets[k]|)
    && (forall k, j :: 0 <= k < |sets| && 0 <= j < |sets| && |sets[k]| > |start[k]| ==> |sets[k]| <= |sets[j]| + 1)
  }

  lemma GrownSelf(start: seq<set<Id>>)
    ensures Grown(start, start)
  {
  }

  lemma GrownStep(start: seq<set<Id>>, sets: seq<set<Id>>, k: nat, id: Id)
    requires Grown(start, sets) && k < |sets| && id !in sets[k]
    requires forall j :: 0 <= j < |sets| ==> |sets[k]| <= |sets[j]|
    ensures Grown(start, sets[k := sets[k] + {id}])
  {
  }

  /** In sets that are filled so but not balanced, every grown set is below the largest start. */
  lemma GrownBelowTop(start: seq<set<Id>>, sets: seq<set<Id>>) returns (j: nat)
    requires Grown(start, sets) && !Balanced(sets)
    ensures j < |sets| && |sets[j]| <= Top(start) - 2
    ensures forall k :: 0 <= k < |sets| ==> |sets[k]| <= Max(|start[k]|, Top(start) - 1)
  {
    var i :| 0 <= i < |sets| && exists j :: 0 <= j < |sets| && |sets[i]| > |sets[j]| + 1;
    j :| 0 <= j < |sets| && |sets[i]| > |sets[j]| + 1;
    TopFacts(start);
    assert |sets[i]| == |start[i]|;
  }

  /** Filled so, the sizes differ by at most one exactly when the total reaches the brim one below
      the largest start. */
  lemma BalancedExactly(start: seq<set<Id>>, sets: seq<set<Id>>)
    requires Grown(start, sets)
    ensures Balanced(sets) <==> Total(sets) >= Brim(start, Top(start) - 1)
  {
    if Balanced(sets) {
      TopFacts(start);
      if start != [] {
        var m :| 0 <= m < |start| && |start[m]| == Top(start);
        assert forall k :: 0 <= k < |sets| ==> |sets[m]| <= |sets[k]| + 1;
      }
      BrimAtLeast(start, sets, Top(start) - 1);
    } else {
      var j := GrownBelowTop(start, sets);
      BrimShort(start, sets, Top(start) - 1, j);
    }
  }

  /** When each node is in few enough sets, the sets have few places in all. */
  lemma {:induction false} TotalAtMostCounts(sets: seq<set<Id>>, ids: set<Id>, average: nat)
    requires Over(sets, ids) && NoneAbove(sets, ids, average)
    ensures Total(sets) <= |ids| * average
    decreases |ids|
  {
    if ids == {} {
      TotalAtMost(sets, 0);
    } else {
      var id :| id in ids;
      TotalWithout(sets, id);
      TotalAtMostCounts(Without(sets, id), ids - {id}, average);
      assert |ids| * average == (|ids| - 1) * average + average;
    }
  }

  /** One node below the average leaves a place free. */
  lemma TotalBelowCounts(sets: seq<set<Id>>, ids: set<Id>, average: nat, u: Id)
    requires Over(sets, ids) && NoneAbove(sets, ids, average) && u in ids && Count(u, sets) < average
    ensures Total(sets) <= |ids| * average - 1
  {
    hide Count, Total;
    TotalWithout(sets, u);
    TotalAtMostCounts(Without(sets, u), ids - {u}, average);
    Expand(|ids|, average);
  }

  /** How much the sets that hold u have grown. */
  function Growth(u: Id, start: seq<set<Id>>, sets: seq<set<Id>>): int
    requires |start| == |sets|
  {
    if sets == [] then 0
    else (if u in sets[0] then |sets[0]| - |start[0]| else 0) + Growth(u, start[1..], sets[1..])
  }

  lemma {:induction false} GrowthUpdate(u: Id, start: seq<set<Id>>, sets: seq<set<Id>>, k: nat, s: set<Id>)
    requires |start| == |sets| && k < |sets| && |start[k]| <= |sets[k]| <= |s| && sets[k] <= s
    ensures Growth(u, start, sets[k := s]) >= Growth(u, start, sets)
    ensures u in sets[k] ==> Growth(u, start, sets[k := s]) == Growth(u, start, sets) + |s| - |sets[k]|
  {
    if k > 0 {
      GrowthUpdate(u, start[1..], sets[1..], k - 1, s);
      assert sets[k := s][1..] == sets[1..][k - 1 := s];
    } else {
      assert sets[k := s][1..] == sets[1..];
    }
  }

  lemma {:induction false} GrowthBound(u: Id, start: seq<set<Id>>, sets: seq<set<Id>>, top: nat)
    requires |start| == |sets| && forall k :: 0 <= k < |sets| ==> |sets[k]| - |start[k]| <= top
    ensures Growth(u, start, sets) <= Count(u, sets) * top
  {
    if sets != [] {
      GrowthBound(u, start[1..], sets[1..], top);
      assert (1 + Count(u, sets[1..])) * top == top + Count(u, sets[1..]) * top;
    }
  }

  /** capped is what the nodes were given up to the average, and over counts what they were given
      above it. Such a gift needs a set that holds every node below the average. */
  ghost predicate Slack(start: seq<set<Id>>, sets: seq<set<Id>>, ids: set<Id>, average: nat, capped: seq<set<Id>>,
                        over: nat)
  {
    && |start| == |sets| == |capped|
    && (forall k :: 0 <= k < |sets| ==> capped[k] <= sets[k])
    && (forall id :: id in ids ==>
          Count(id, capped) == if Count(id, sets) < average then Count(id, sets) else average)
    && Total(sets) == Total(capped) + over
    && (forall u :: u in ids && Count(u, sets) < average ==> over <= Growth(u, start, sets))
  }

  lemma {:induction false} NoGrowth(u: Id, start: seq<set<Id>>)
    ensures Growth(u, start, start) == 0
  {
    if start != [] {
      NoGrowth(u, start[1..]);
    }
  }

  lemma SlackSelf(start: seq<set<Id>>, ids: set<Id>, average: nat)
    requires NoneAbove(start, ids, average)
    ensures Slack(start, start, ids, average, start, 0)
  {
    forall u | u in ids
      ensures Growth(u, start, start) == 0
    {
      NoGrowth(u, start);
    }
  }

  /** Every step keeps the account. */
  lemma SlackStep(start: seq<set<Id>>, sets: seq<set<Id>>, ids: set<Id>, average: nat, capped: seq<set<Id>>, over: nat,
                  k: nat, id: Id)
    returns (capped': seq<set<Id>>, over': nat)
    requires Slack(start, sets, ids, average, capped, over) && LeastLoaded(sets, k, id, ids)
    requires |start[k]| <= |sets[k]|
    ensures Slack(start, sets[k := sets[k] + {id}], ids, average, capped', over')
  {
    hide Count, Total, Growth;
    var next := sets[k := sets[k] + {id}];
    var given := Count(id, sets) < average;
    capped' := if given then capped[k := capped[k] + {id}] else capped;
    over' := if given then over else over + 1;
    TotalUpdate(sets, k, sets[k] + {id});
    TotalUpdate(capped, k, capped[k] + {id});
    forall other: Id
      ensures Count(other, next) == Count(other, sets) + Bit(other == id)
      ensures Count(other, capped[k := capped[k] + {id}]) == Count(other, capped) + Bit(other == id)
    {
      CountUpdate(other, sets, k, sets[k] + {id});
      CountUpdate(other, capped, k, capped[k] + {id});
    }
    forall u | u in ids && Count(u, next) < average
      ensures over' <= Growth(u, start, next)
    {
      GrowthUpdate(u, start, sets, k, sets[k] + {id});
    }
  }

  /** While some node is below the average, the total is below what the nodes need and little more. */
  lemma UnderBound(start: seq<set<Id>>, sets: seq<set<Id>>, ids: set<Id>, average: nat, capped: seq<set<Id>>, over: nat,
                   u: Id, top: nat)
    requires Slack(start, sets, ids, average, capped, over) && Over(sets, ids)
    requires u in ids && Count(u, sets) < average
    requires forall k :: 0 <= k < |sets| ==> |sets[k]| - |start[k]| <= top
    ensures Total(sets) <= |ids| * average - 1 + (average - 1) * top
  {
    hide Count, Total, Growth;
    TotalBelowCounts(capped, ids, average, u);
    GrowthBound(u, start, sets, top);
    Scale(Count(u, sets), average - 1, top);
  }

  lemma Scale(a: nat, b: nat, top: nat)
    requires a <= b
    ensures a * top <= b * top
  {
  }

  /** What filling must reach: the replication factor everywhere, and the average for every node. */
  function Demand(start: seq<set<Id>>, ids: set<Id>, average: nat, replicationFactor: int): int {
    Max(Brim(start, replicationFactor), |ids| * average)
  }

  /** The most that filling reaches before the sizes differ by at most one. */
  function Limit(start: seq<set<Id>>, ids: set<Id>, average: nat, replicationFactor: int): int {
    Max(Brim(start, replicationFactor), |ids| * average + (average - 1) * (Top(start) - 1))
  }

  /** Below the replication factor, the next total stays within its brim. */
  lemma FactorLeft(start: seq<set<Id>>, sets: seq<set<Id>>, ids: set<Id>, replicationFactor: int, k: nat, id: Id)
    requires Grown(start, sets) && LeastLoaded(sets, k, id, ids) && |sets[k]| < replicationFactor
    ensures Total(sets) + 1 <= Brim(start, replicationFactor)
  {
    var next := sets[k := sets[k] + {id}];
    TotalUpdate(sets, k, sets[k] + {id});
    BrimAtMost(start, next, replicationFactor);
  }

  /** Before the sizes differ by at most one, the next total stays within the limit. */
  lemma RoomLeft(start: seq<set<Id>>, sets: seq<set<Id>>, ids: set<Id>, average: nat, replicationFactor: int,
                 capped: seq<set<Id>>, over: nat, k: nat, id: Id)
    requires Grown(start, sets) && LeastLoaded(sets, k, id, ids) && Over(sets, ids)
    requires Slack(start, sets, ids, average, capped, over)
    requires (exists j :: 0 <= j < |sets| && |sets[j]| < replicationFactor)
          || (exists u :: u in ids && Count(u, sets) < average)
    ensures !Balanced(sets) ==> Total(sets) + 1 <= Limit(start, ids, average, replicationFactor)
    ensures average == 1 ==> Total(sets) + 1 <= Demand(start, ids, average, replicationFactor)
  {
    hide Slack, Brim, Total, Balanced, Count, Over;
    if |sets[k]| < replicationFactor {
      FactorLeft(start, sets, ids, replicationFactor, k, id);
    } else {
      var u :| u in ids && Count(u, sets) < average;
      if !Balanced(sets) {
        var j := GrownBelowTop(start, sets);
        UnderBound(start, sets, ids, average, capped, over, u, Top(start) - 1);
      }
      if average == 1 {
        SizesBounded(start, sets, ids);
        UnderBound(start, sets, ids, average, capped, over, u, |ids|);
      }
    }
  }

  lemma SizesBounded(start: seq<set<Id>>, sets: seq<set<Id>>, ids: set<Id>)
    requires Over(sets, ids) && |start| == |sets|
    ensures forall k :: 0 <= k < |sets| ==> |sets[k]| - |start[k]| <= |ids|
  {
    forall k | 0 <= k < |sets|
      ensures |sets[k]| <= |ids|
    {
      SubsetSize(sets[k], ids);
    }
  }

  /** What a finished filling has reached. */
  lemma DemandMet(start: seq<set<Id>>, sets: seq<set<Id>>, ids: set<Id>, average: nat, replicationFactor: int)
    requires Grown(start, sets) && forall k :: 0 <= k < |sets| ==> |sets[k]| >= replicationFactor
    requires forall id :: id in ids ==> Count(id, sets) >= average
    ensures Total(sets) >= Demand(start, ids, average, replicationFactor)
  {
    BrimAtLeast(start, sets, replicationFactor);
    TotalAtLeast(sets, ids, average);
  }

  /** How the spread of a filling from this start is decided, before it begins. */
  ghost predicate Decided(start: seq<set<Id>>, ids: set<Id>, average: nat, replicationFactor: int, r: seq<set<Id>>) {
    var brim := Brim(start, Top(start) - 1);
    && (Balanced(r) <==> Total(r) >= brim)
    && (Demand(start, ids, average, replicationFactor) >= brim ==> Balanced(r))
    && (brim > Limit(start, ids, average, replicationFactor) ==> !Balanced(r))
    && (average == 1 ==> Total(r) == Demand(start, ids, average, replicationFactor))
    && (Decisive(start, ids, average, replicationFactor) ==>
          (Balanced(r) <==> Demand(start, ids, average, replicationFactor) >= brim))
  }

  /** An average of one; or no more places needed than the factor gives, and enough nodes. */
  predicate Decisive(start: seq<set<Id>>, ids: set<Id>, average: nat, replicationFactor: int) {
    average == 1
    || (0 < |ids| && |ids| * average <= |start| * replicationFactor
        && |ids| >= replicationFactor * (replicationFactor + 1))
  }

  /** The product steps behind GapCloses: sets many sets, d levels above the factor f. */
  lemma GapProducts(n: nat, a: nat, sets: nat, f: int, d: int)
    requires n > 0 && a >= 1 && f >= 0 && d >= 1 && n * a <= sets * f && n >= f * (f + 1)
    ensures n * a + (a - 1) * (f + d) <= sets * (f + d)
  {
    EnoughNodes(n, f, d);
    EnoughSets(n, a, sets, f, d, f + d);
    Expand(a, f + d);
    Distribute(sets, f, d);
  }

  lemma EnoughNodes(n: nat, f: int, d: int)
    requires f >= 0 && d >= 1 && n >= f * (f + 1)
    ensures f * (f + d) <= d * n
  {
    ProductAtLeast(d, f);
    MulLe(f, f + d, d * (f + 1));
    Swap(f, d, f + 1);
    MulLe(d, f * (f + 1), n);
  }

  lemma EnoughSets(n: nat, a: nat, sets: nat, f: int, d: int, top: int)
    requires n > 0 && top >= 0 && n * a <= sets * f && f * top <= d * n
    ensures a * top <= sets * d
  {
    MulLe(top, n * a, sets * f);
    MulLe(sets, f * top, d * n);
    Swap(top, n, a);
    Swap(top, sets, f);
    Swap(sets, d, n);
    assert n * (a * top) <= n * (sets * d) by {
      assert top * a == a * top && top * f == f * top && d * (sets * n) == n * (sets * d);
    }
    CancelLe(n, a * top, sets * d);
  }

  lemma Swap(x: int, y: int, z: int)
    ensures x * (y * z) == y * (x * z)
  {
  }

  lemma Expand(a: int, top: int)
    ensures (a - 1) * top == a * top - top
  {
  }

  lemma Distribute(x: int, y: int, z: int)
    ensures x * (y + z) == x * y + x * z
  {
  }

  lemma ProductAtLeast(d: int, f: int)
    requires d >= 1 && f >= 0
    ensures f + d <= d * (f + 1)
  {
    assert d * (f + 1) == d * f + d;
    assert d * f >= 1 * f;
  }

  lemma MulLe(c: int, x: int, y: int)
    requires c >= 0 && x <= y
    ensures c * x <= c * y
  {
  }

  lemma CancelLe(n: int, x: int, y: int)
    requires n > 0 && n * x <= n * y
    ensures x <= y
  {
    if x > y {
      MulLe(n, y + 1, x);
    }
  }

  lemma {:induction false} BrimLeast(sets: seq<set<Id>>, n: int)
    ensures Brim(sets, n) >= |sets| * n
    ensures (exists k :: 0 <= k < |sets| && |sets[k]| > n) ==> Brim(sets, n) > |sets| * n
  {
    if sets != [] {
      BrimLeast(sets[1..], n);
      assert |sets| * n == (|sets| - 1) * n + n;
      if k :| 0 < k < |sets| && |sets[k]| > n {
        assert sets[1..][k - 1] == sets[k];
      }
    }
  }

  /** Then filling cannot overshoot up to a brim that it need not reach. */
  lemma GapCloses(start: seq<set<Id>>, ids: set<Id>, average: nat, replicationFactor: int)
    requires average >= 1 && Decisive(start, ids, average, replicationFactor)
    ensures var brim := Brim(start, Top(start) - 1);
            brim > Demand(start, ids, average, replicationFactor) ==>
            brim > Limit(start, ids, average, replicationFactor)
  {
    var m, f := Top(start) - 1, replicationFactor;
    if average > 1 && Brim(start, m) > Demand(start, ids, average, f) {
      if m <= f {
        BrimGrows(start, start, m, f);
      } else {
        TopFacts(start);
        BrimLeast(start, m);
        FactorIsPositive(|ids|, average, |start|, f);
        GapProducts(|ids|, average, |start|, f, m - f);
      }
    }
  }

  lemma FactorIsPositive(n: nat, a: nat, sets: nat, f: int)
    requires n > 0 && a > 0 && n * a <= sets * f
    ensures f > 0
  {
    if f <= 0 {
      MulLe(sets, f, 0);
      MulLe(n, 1, a);
    }
  }

  /** A start is decided when filling from it kept the totals that RoomLeft allows. */
  lemma FillingDecides(start: seq<set<Id>>, r: seq<set<Id>>, ids: set<Id>, average: nat, replicationFactor: int)
    requires average >= 1 && Grown(start, r) && forall k :: 0 <= k < |r| ==> |r[k]| >= replicationFactor
    requires forall id :: id in ids ==> Count(id, r) >= average
    requires Brim(start, Top(start) - 1) > Limit(start, ids, average, replicationFactor) ==> !Balanced(r)
    requires average == 1 ==> Total(r) <= Demand(start, ids, average, replicationFactor)
    ensures Decided(start, ids, average, replicationFactor, r)
  {
    hide Brim, Top, Demand, Limit, Balanced, Decisive, Grown, Count, Total;
    BalancedExactly(start, r);
    DemandMet(start, r, ids, average, replicationFactor);
    if Decisive(start, ids, average, replicationFactor) {
      GapCloses(start, ids, average, replicationFactor);
    }
  }
}
