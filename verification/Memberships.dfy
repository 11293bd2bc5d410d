/** Counting memberships in a list of subnetworks. */
module Memberships {
  import opened Collections

  /** Declaration identifiers, in their byte order. */
  type Id = nat

  function Bit(b: bool): nat {
    if b then 1 else 0
  }

  /** The number of subnetworks that hold id. */
  function Count(id: Id, sets: seq<set<Id>>): nat {
    if sets == [] then 0 else Bit(id in sets[0]) + Count(id, sets[1..])
  }

  lemma {:induction false} CountUpdate(id: Id, sets: seq<set<Id>>, k: nat, s: set<Id>)
    requires k < |sets|
    ensures Count(id, sets[k := s]) + Bit(id in sets[k]) == Count(id, sets) + Bit(id in s)
  {
    if k > 0 {
      CountUpdate(id, sets[1..], k - 1, s);
      assert sets[k := s][1..] == sets[1..][k - 1 := s];
    } else {
      assert sets[k := s][1..] == sets[1..];
    }
  }

  lemma {:induction false} CountBound(id: Id, sets: seq<set<Id>>)
    ensures Count(id, sets) <= |sets|
    ensures Count(id, sets) == |sets| <==> forall k :: 0 <= k < |sets| ==> id in sets[k]
    ensures Count(id, sets) == 0 <==> forall k :: 0 <= k < |sets| ==> id !in sets[k]
  {
    if sets != [] {
      CountBound(id, sets[1..]);
      assert forall k :: 1 <= k < |sets| ==> sets[k] == sets[1..][k - 1];
    }
  }

  /** The indices of the subnetworks that hold id. */
  function Holders(id: Id, sets: seq<set<Id>>): set<nat> {
    set k: nat | k < |sets| && id in sets[k]
  }

  lemma HoldersLast(id: Id, sets: seq<set<Id>>)
    requires sets != []
    ensures var n := |sets| - 1; Holders(id, sets) == Holders(id, sets[..n]) + if id in sets[n] then {n} else {}
  {
  }

  lemma {:induction false} HoldersCount(id: Id, sets: seq<set<Id>>)
    ensures |Holders(id, sets)| == Count(id, sets)
  {
    if sets != [] {
      var n := |sets| - 1;
      HoldersCount(id, sets[..n]);
      CountAppend(id, sets[..n], sets[n]);
      assert sets == sets[..n] + [sets[n]];
      HoldersLast(id, sets);
    } else {
      assert Holders(id, sets) == {};
    }
  }

  lemma {:induction false} CountAppend(id: Id, sets: seq<set<Id>>, s: set<Id>)
    ensures Count(id, sets + [s]) == Count(id, sets) + Bit(id in s)
  {
    if sets == [] {
      assert sets + [s] == [s];
    } else {
      CountAppend(id, sets[1..], s);
      assert (sets + [s])[1..] == sets[1..] + [s];
    }
  }

  /** The sum of the squared sizes: what balancing brings down. */
  function Squares(sets: seq<set<Id>>): nat {
    if sets == [] then 0 else |sets[0]| * |sets[0]| + Squares(sets[1..])
  }

  lemma {:induction false} SquaresUpdate(sets: seq<set<Id>>, k: nat, s: set<Id>)
    requires k < |sets|
    ensures Squares(sets[k := s]) + |sets[k]| * |sets[k]| == Squares(sets) + |s| * |s|
  {
    if k > 0 {
      SquaresUpdate(sets[1..], k - 1, s);
      assert sets[k := s][1..] == sets[1..][k - 1 := s];
    } else {
      assert sets[k := s][1..] == sets[1..];
    }
  }

  /** Places still free when every subnetwork may hold n nodes: what filling brings down. */
  function Room(sets: seq<set<Id>>, n: nat): int {
    if sets == [] then 0 else n - |sets[0]| + Room(sets[1..], n)
  }

  lemma {:induction false} RoomUpdate(sets: seq<set<Id>>, k: nat, s: set<Id>, n: nat)
    requires k < |sets|
    ensures Room(sets[k := s], n) + |s| == Room(sets, n) + |sets[k]|
  {
    if k > 0 {
      RoomUpdate(sets[1..], k - 1, s, n);
      assert sets[k := s][1..] == sets[1..][k - 1 := s];
    } else {
      assert sets[k := s][1..] == sets[1..];
    }
  }

  lemma {:induction false} RoomBound(sets: seq<set<Id>>, ids: set<Id>)
    requires forall k :: 0 <= k < |sets| ==> sets[k] <= ids
    ensures Room(sets, |ids|) >= 0
  {
    if sets != [] {
      SubsetSize(sets[0], ids);
      RoomBound(sets[1..], ids);
    }
  }

  /** No two sizes differ by more than one. */
  ghost predicate Balanced(sets: seq<set<Id>>) {
    forall i, j :: 0 <= i < |sets| && 0 <= j < |sets| ==> |sets[i]| <= |sets[j]| + 1
  }

  /** The sum of the sizes. */
  function Total(sets: seq<set<Id>>): nat {
    if sets == [] then 0 else |sets[0]| + Total(sets[1..])
  }

  function Without(sets: seq<set<Id>>, id: Id): (r: seq<set<Id>>)
    ensures |r| == |sets| && forall k :: 0 <= k < |r| ==> r[k] == sets[k] - {id}
  {
    seq(|sets|, k requires 0 <= k < |sets| => sets[k] - {id})
  }

  /** Taking a node out of every set lowers the total by its number of memberships. */
  lemma {:induction false} TotalWithout(sets: seq<set<Id>>, id: Id)
    ensures Total(sets) == Total(Without(sets, id)) + Count(id, sets)
    ensures forall other :: other != id ==> Count(other, Without(sets, id)) == Count(other, sets)
  {
    if sets != [] {
      TotalWithout(sets[1..], id);
      assert Without(sets, id)[1..] == Without(sets[1..], id);
      assert Without(sets, id)[0] == sets[0] - {id};
    }
  }

  /** When each node is in enough sets, the sets have enough places in all. */
  lemma {:induction false} TotalAtLeast(sets: seq<set<Id>>, ids: set<Id>, average: nat)
    requires forall id :: id in ids ==> Count(id, sets) >= average
    ensures Total(sets) >= |ids| * average
    decreases |ids|
  {
    if ids != {} {
      var id :| id in ids;
      TotalWithout(sets, id);
      TotalAtLeast(Without(sets, id), ids - {id}, average);
      assert |ids| * average == (|ids| - 1) * average + average;
    }
  }

  lemma {:induction false} TotalAtMost(sets: seq<set<Id>>, top: nat)
    requires forall k :: 0 <= k < |sets| ==> |sets[k]| <= top
    ensures Total(sets) <= |sets| * top
  {
    if sets != [] {
      TotalAtMost(sets[1..], top);
      assert |sets| * top == (|sets| - 1) * top + top;
    }
  }

  lemma {:induction false} TotalUpdate(sets: seq<set<Id>>, k: nat, s: set<Id>)
    requires k < |sets|
    ensures Total(sets[k := s]) + |sets[k]| == Total(sets) + |s|
  {
    if k > 0 {
      TotalUpdate(sets[1..], k - 1, s);
      assert sets[k := s][1..] == sets[1..][k - 1 := s];
    } else {
      assert sets[k := s][1..] == sets[1..];
    }
  }

  /** Moving part of a set to another keeps every node's number of memberships. */
  lemma MoveKeepsCounts(sets: seq<set<Id>>, from: nat, to: nat, moved: set<Id>)
    requires from < |sets| && to < |sets| && from != to
    requires moved <= sets[from] && moved !! sets[to]
    ensures var sets' := sets[from := sets[from] - moved][to := sets[to] + moved];
            forall id :: Count(id, sets') == Count(id, sets)
  {
    var mid := sets[from := sets[from] - moved];
    forall id: Id
      ensures Count(id, mid[to := sets[to] + moved]) == Count(id, sets)
    {
      CountUpdate(id, sets, from, sets[from] - moved);
      CountUpdate(id, mid, to, sets[to] + moved);
    }
  }

  /** ... and brings the squares down when it moves at most half of the difference. */
  lemma MoveLowersSquares(sets: seq<set<Id>>, from: nat, to: nat, moved: set<Id>)
    requires from < |sets| && to < |sets| && from != to
    requires moved <= sets[from] && moved !! sets[to]
    requires 0 < |moved| && 2 * |moved| <= |sets[from]| - |sets[to]|
    ensures Squares(sets[from := sets[from] - moved][to := sets[to] + moved]) < Squares(sets)
  {
    var mid := sets[from := sets[from] - moved];
    SquaresUpdate(sets, from, sets[from] - moved);
    SquaresUpdate(mid, to, sets[to] + moved);
    var a, b, k := |sets[from]|, |sets[to]|, |moved|;
    assert |sets[from] - moved| == a - k && |sets[to] + moved| == b + k;
    assert (a - k) * (a - k) + (b + k) * (b + k) < a * a + b * b by {
      SquareMove(a, b, k);
    }
  }

  lemma SquareMove(a: nat, b: nat, k: nat)
    requires 0 < k && 2 * k <= a - b
    ensures (a - k) * (a - k) + (b + k) * (b + k) < a * a + b * b
  {
  }
}
