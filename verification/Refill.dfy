/** The subnetwork assignment of da/assignations/refill.py.

    The shuffle is any choice of a sample, so sorting before it is not modelled;
    a heap is the set of its elements, popped in the order of its keys. */
module Refill {
  import opened Collections
  import opened Memberships
  import opened Filling

  /** The order of both heaps: the first component, then the second. */
  predicate AtMost(a: (nat, nat), b: (nat, nat)) {
    a.0 < b.0 || (a.0 == b.0 && a.1 <= b.1)
  }

  class Participant {
    var participation: nat
    const declarationId: Id

    constructor (participation: nat, declarationId: Id)
      ensures this.participation == participation && this.declarationId == declarationId
    {
      this.participation := participation;
      this.declarationId := declarationId;
    }

    /** Participation first, declaration id second. */
    function Key(): (nat, nat)
      reads this
    {
      (participation, declarationId)
    }

    predicate Below(other: Participant)
      reads this, other
    {
      AtMost(Key(), other.Key())
    }
  }

  class Subnetwork {
    var participants: set<Id>
    const subnetworkId: nat

    constructor (participants: set<Id>, subnetworkId: nat)
      ensures this.participants == participants && this.subnetworkId == subnetworkId
    {
      this.participants := participants;
      this.subnetworkId := subnetworkId;
    }

    /** Size first, subnetwork id second. */
    function Key(): (nat, nat)
      reads this
    {
      (|participants|, subnetworkId)
    }

    predicate Below(other: Subnetwork)
      reads this, other
    {
      AtMost(Key(), other.Key())
    }
  }

  ghost function Sets(subnets: seq<Subnetwork>): (r: seq<set<Id>>)
    reads subnets
    ensures |r| == |subnets| && forall k :: 0 <= k < |r| ==> r[k] == subnets[k].participants
  {
    seq(|subnets|, k requires 0 <= k < |subnets| reads subnets => subnets[k].participants)
  }

  ghost function Ids(nodes: seq<Participant>): set<Id> {
    set k | 0 <= k < |nodes| :: nodes[k].declarationId
  }

  ghost predicate DistinctNodes(nodes: seq<Participant>) {
    forall i, j :: 0 <= i < j < |nodes| ==> nodes[i].declarationId != nodes[j].declarationId
  }

  /** The list holds the subnetworks in the order of their ids. */
  ghost predicate Enumerated(subnets: seq<Subnetwork>) {
    forall k :: 0 <= k < |subnets| ==> subnets[k].subnetworkId == k
  }

  /** Counters agree with memberships and only the nodes are members. */
  ghost predicate Consistent(nodes: seq<Participant>, subnets: seq<Subnetwork>)
    reads nodes, subnets
  {
    && (forall i :: 0 <= i < |nodes| ==> nodes[i].participation == Count(nodes[i].declarationId, Sets(subnets)))
    && (forall k :: 0 <= k < |subnets| ==> subnets[k].participants <= Ids(nodes))
  }

  predicate FilledUpTo(subnets: seq<Subnetwork>, replicationFactor: int)
    reads subnets
  {
    forall k :: 0 <= k < |subnets| ==> |subnets[k].participants| >= replicationFactor
  }

  predicate AllAssigned(nodes: seq<Participant>, average: nat)
    reads nodes
  {
    forall i :: 0 <= i < |nodes| ==> nodes[i].participation >= average
  }

  /** heappop: the element with the least key. */
  method Heappop<T(==)>(heap: map<T, (nat, nat)>) returns (least: T)
    requires heap.Keys != {}
    ensures least in heap && forall x :: x in heap ==> AtMost(heap[least], heap[x])
  {
    var rest := heap.Keys;
    least :| least in rest;
    rest := rest - {least};
    while rest != {}
      invariant rest <= heap.Keys && least in heap
      invariant forall x :: x in heap && x !in rest ==> AtMost(heap[least], heap[x])
    {
      var x :| x in rest;
      rest := rest - {x};
      if AtMost(heap[x], heap[least]) {
        least := x;
      }
    }
  }

  method PopSubnetwork(heap: set<Subnetwork>) returns (least: Subnetwork)
    requires heap != {}
    ensures least in heap && forall s :: s in heap ==> least.Below(s)
  {
    var keys := map s | s in heap :: s.Key();
    assert keys.Keys == heap;
    least := Heappop(keys);
    forall s | s in heap
      ensures least.Below(s)
    {
      assert keys[s] == s.Key() && keys[least] == least.Key();
    }
  }

  /** The least participant that is not in the subnetwork, with the heap that is left.
      None is the IndexError of popping an empty heap. */
  method HeappopNextForSubnetwork(subnetwork: Subnetwork, heap: set<Participant>)
    returns (next: Option<Participant>, left: set<Participant>)
    ensures next.None? <==> forall q :: q in heap ==> q.declarationId in subnetwork.participants
    ensures next.Some? ==> next.value in heap && next.value.declarationId !in subnetwork.participants
    ensures next.Some? ==> left == heap - {next.value}
    ensures next.Some? ==>
      forall q :: q in heap && q.declarationId !in subnetwork.participants ==> next.value.Below(q)
  {
    left := heap;
    var popped: set<Participant> := {};
    while left != {}
      invariant left + popped == heap && left !! popped
      invariant forall q :: q in popped ==> q.declarationId in subnetwork.participants
      decreases left
    {
      var keys: map<Participant, (nat, nat)> := map q | q in left :: q.Key();
      var p := Heappop(keys);
      forall q | q in left
        ensures p.Below(q)
      {
        assert q in keys && keys[q] == q.Key();
      }
      left := left - {p};
      if p.declarationId !in subnetwork.participants {
        return Some(p), left + popped;
      }
      popped := popped + {p};
    }
    next := None;
  }

  /** Adding one node to a smallest subnetwork. */
  lemma AddOneCounts(before: seq<set<Id>>, k: nat, id: Id)
    requires k < |before| && id !in before[k]
    ensures forall j :: Count(j, before[k := before[k] + {id}]) == Count(j, before) + Bit(j == id)
  {
    forall j: Id
      ensures Count(j, before[k := before[k] + {id}]) == Count(j, before) + Bit(j == id)
    {
      CountUpdate(j, before, k, before[k] + {id});
    }
  }

  lemma AddOneRoom(before: seq<set<Id>>, k: nat, id: Id, ids: set<Id>)
    requires k < |before| && id !in before[k] && id in ids
    requires forall i :: 0 <= i < |before| ==> before[i] <= ids
    ensures 0 <= Room(before[k := before[k] + {id}], |ids|) < Room(before, |ids|)
  {
    RoomUpdate(before, k, before[k] + {id}, |ids|);
    RoomBound(before[k := before[k] + {id}], ids);
  }

  lemma AddOneBalance(before: seq<set<Id>>, k: nat, id: Id)
    requires k < |before| && id !in before[k] && Balanced(before)
    requires forall i :: 0 <= i < |before| ==> |before[k]| <= |before[i]|
    ensures Balanced(before[k := before[k] + {id}])
  {
  }

  /** When the smallest subnetwork holds every node, every subnetwork does. */
  lemma AllFull(sets: seq<set<Id>>, k: nat, ids: set<Id>, id: Id)
    requires k < |sets| && ids <= sets[k] && id in ids
    requires forall i :: 0 <= i < |sets| ==> sets[i] <= ids && |sets[k]| <= |sets[i]|
    ensures Count(id, sets) == |sets| && forall i :: 0 <= i < |sets| ==> sets[i] == ids
  {
    assert sets[k] == ids;
    forall i | 0 <= i < |sets|
      ensures sets[i] == ids
    {
      SubsetSize(sets[i], ids);
    }
    CountBound(id, sets);
  }

  /** When filling can succeed. */
  ghost predicate Fillable(nodeCount: nat, subnetCount: nat, average: nat, replicationFactor: int) {
    (subnetCount > 0 ==> replicationFactor <= nodeCount) && (nodeCount > 0 ==> average <= subnetCount)
  }

  lemma IdsSize(nodes: seq<Participant>)
    requires DistinctNodes(nodes)
    ensures |Ids(nodes)| == |nodes|
  {
    if nodes != [] {
      var n := |nodes| - 1;
      IdsSize(nodes[..n]);
      assert Ids(nodes) == Ids(nodes[..n]) + {nodes[n].declarationId};
    }
  }

  /** A finished filling witnesses that filling could succeed. */
  lemma DoneIsFillable(nodes: seq<Participant>, subnets: seq<Subnetwork>, average: nat, replicationFactor: int)
    requires DistinctNodes(nodes) && Consistent(nodes, subnets)
    requires FilledUpTo(subnets, replicationFactor) && AllAssigned(nodes, average)
    ensures Fillable(|nodes|, |subnets|, average, replicationFactor)
  {
    IdsSize(nodes);
    if subnets != [] {
      SubsetSize(subnets[0].participants, Ids(nodes));
    }
    if nodes != [] {
      CountBound(nodes[0].declarationId, Sets(subnets));
    }
  }

  /** A stuck filling could not have succeeded. */
  lemma StuckIsNotFillable(nodes: seq<Participant>, subnets: seq<Subnetwork>, average: nat, replicationFactor: int,
                           k: nat)
    requires DistinctNodes(nodes) && Consistent(nodes, subnets)
    requires !(FilledUpTo(subnets, replicationFactor) && AllAssigned(nodes, average))
    requires k < |subnets| && Ids(nodes) <= subnets[k].participants
    requires forall i :: 0 <= i < |subnets| ==> |subnets[k].participants| <= |subnets[i].participants|
    ensures !Fillable(|nodes|, |subnets|, average, replicationFactor)
  {
    IdsSize(nodes);
    var sets := Sets(subnets);
    forall i | 0 <= i < |nodes|
      ensures nodes[i].participation == |subnets|
    {
      AllFull(sets, k, Ids(nodes), nodes[i].declarationId);
    }
    assert sets[k] == Ids(nodes);
    forall i | 0 <= i < |subnets|
      ensures |subnets[i].participants| == |nodes|
    {
      SubsetSize(sets[i], Ids(nodes));
    }
  }

  lemma NoSubnetworks(nodes: seq<Participant>, subnets: seq<Subnetwork>, average: nat, replicationFactor: int)
    requires Consistent(nodes, subnets) && subnets == []
    requires !(FilledUpTo(subnets, replicationFactor) && AllAssigned(nodes, average))
    ensures !Fillable(|nodes|, |subnets|, average, replicationFactor)
  {
  }

  /** Put a participant into a subnetwork and count it. */
  method Assign(nodes: seq<Participant>, subnets: seq<Subnetwork>, participant: Participant, subnetwork: Subnetwork,
                ghost i: nat, ghost k: nat)
    requires DistinctNodes(nodes) && Enumerated(subnets) && Consistent(nodes, subnets)
    requires i < |nodes| && nodes[i] == participant && k < |subnets| && subnets[k] == subnetwork
    requires participant.declarationId !in subnetwork.participants
    modifies participant, subnetwork
    ensures Consistent(nodes, subnets)
    ensures Sets(subnets) == old(Sets(subnets))[k := old(subnetwork.participants) + {participant.declarationId}]
    ensures forall j :: 0 <= j < |nodes| ==> nodes[j].participation >= old(nodes[j].participation)
  {
    ghost var before := Sets(subnets);
    AddOneCounts(before, k, participant.declarationId);
    subnetwork.participants := subnetwork.participants + {participant.declarationId};
    participant.participation := participant.participation + 1;
    assert Sets(subnets) == before[k := before[k] + {participant.declarationId}];
    forall j | 0 <= j < |nodes|
      ensures nodes[j].participation == Count(nodes[j].declarationId, Sets(subnets))
    {
      assert j != i ==> nodes[j].declarationId != nodes[i].declarationId;
    }
    assert participant.declarationId in Ids(nodes);
  }

  lemma SelectedIsLeastLoaded(nodes: seq<Participant>, subnets: seq<Subnetwork>, i: nat, k: nat)
    requires Consistent(nodes, subnets) && Enumerated(subnets) && i < |nodes| && k < |subnets|
    requires nodes[i].declarationId !in subnets[k].participants
    requires forall j :: 0 <= j < |subnets| ==> subnets[k].Below(subnets[j])
    requires forall j :: 0 <= j < |nodes| && nodes[j].declarationId !in subnets[k].participants ==>
      nodes[i].Below(nodes[j])
    ensures LeastLoaded(Sets(subnets), k, nodes[i].declarationId, Ids(nodes))
  {
  }

  /** Pop the smallest subnetwork, then the least assigned node it lacks. */
  method Select(nodes: seq<Participant>, subnets: seq<Subnetwork>, average: nat, replicationFactor: int)
    returns (choice: Option<(Participant, Subnetwork)>, ghost i: nat, ghost k: nat)
    requires DistinctNodes(nodes) && Enumerated(subnets) && Consistent(nodes, subnets)
    requires !(FilledUpTo(subnets, replicationFactor) && AllAssigned(nodes, average))
    ensures choice.None? ==> !Fillable(|nodes|, |subnets|, average, replicationFactor)
    ensures choice.Some? ==> i < |nodes| && nodes[i] == choice.value.0 && k < |subnets| && subnets[k] == choice.value.1
    ensures choice.Some? ==> LeastLoaded(Sets(subnets), k, nodes[i].declarationId, Ids(nodes))
  {
    hide Fillable, FilledUpTo, AllAssigned, Consistent, LeastLoaded, DistinctNodes, Sets;
    i, k := 0, 0;
    var nodeHeap, subnetHeap := set n | n in nodes, set s | s in subnets;
    assert subnets == [] || subnets[0] in subnetHeap;
    assert forall j :: 0 <= j < |subnets| ==> subnets[j] in subnetHeap;
    assert forall j :: 0 <= j < |nodes| ==> nodes[j] in nodeHeap;
    if subnetHeap == {} {
      NoSubnetworks(nodes, subnets, average, replicationFactor);
      return None, 0, 0;
    }
    var subnetwork := PopSubnetwork(subnetHeap);
    k :| 0 <= k < |subnets| && subnets[k] == subnetwork;
    var next, _ := HeappopNextForSubnetwork(subnetwork, nodeHeap);
    if next.None? {
      StuckIsNotFillable(nodes, subnets, average, replicationFactor, k);
      return None, 0, 0;
    }
    i :| 0 <= i < |nodes| && nodes[i] == next.value;
    SelectedIsLeastLoaded(nodes, subnets, i, k);
    choice := Some((next.value, subnetwork));
  }

  /** One round of filling: the smallest subnetwork takes the least assigned node it lacks. */
  method FillStep(nodes: seq<Participant>, subnets: seq<Subnetwork>, average: nat, replicationFactor: int)
    returns (ok: bool, ghost i: nat, ghost k: nat)
    requires DistinctNodes(nodes) && Enumerated(subnets) && Consistent(nodes, subnets)
    requires !(FilledUpTo(subnets, replicationFactor) && AllAssigned(nodes, average))
    modifies nodes, subnets
    ensures ok ==> i < |nodes| && k < |subnets|
    ensures ok ==>
      Sets(subnets) == old(Sets(subnets))[k := old(Sets(subnets))[k] + {nodes[i].declarationId}]
    ensures ok ==> LeastLoaded(old(Sets(subnets)), k, nodes[i].declarationId, Ids(nodes))
    ensures Consistent(nodes, subnets)
    ensures !ok ==> !Fillable(|nodes|, |subnets|, average, replicationFactor) && Sets(subnets) == old(Sets(subnets))
    ensures ok ==> 0 <= Room(Sets(subnets), |Ids(nodes)|) < old(Room(Sets(subnets), |Ids(nodes)|))
    ensures old(Balanced(Sets(subnets))) ==> Balanced(Sets(subnets))
    ensures forall k :: 0 <= k < |subnets| ==> old(subnets[k].participants) <= subnets[k].participants
  {
    hide Balanced, Room, Count;
    ghost var before := Sets(subnets);
    var choice;
    choice, i, k := Select(nodes, subnets, average, replicationFactor);
    if choice.None? {
      return false, 0, 0;
    }
    var (participant, subnetwork) := choice.value;
    ghost var id := participant.declarationId;
    AddOneRoom(before, k, id, Ids(nodes));
    if Balanced(before) {
      AddOneBalance(before, k, id);
    }
    Assign(nodes, subnets, participant, subnetwork, i, k);
    assert Sets(subnets) == before[k := before[k] + {id}];
    ok := true;
  }

  /** Every subnetwork is filled up to the factor and every node is in enough of them. */
  ghost predicate Enough(sets: seq<set<Id>>, ids: set<Id>, average: nat, replicationFactor: int) {
    && (forall k :: 0 <= k < |sets| ==> |sets[k]| >= replicationFactor)
    && (forall id :: id in ids ==> Count(id, sets) >= average)
  }

  /** The last place was given to a least assigned node of a smallest subnetwork, when it was needed. */
  ghost predicate LastAdded(start: seq<set<Id>>, sets: seq<set<Id>>, ids: set<Id>, average: nat,
                            replicationFactor: int)
  {
    exists k: nat, id :: k < |sets| && id in sets[k] && NeededLast(start, sets, ids, average, replicationFactor, k, id)
  }

  ghost predicate NeededLast(start: seq<set<Id>>, sets: seq<set<Id>>, ids: set<Id>, average: nat,
                             replicationFactor: int, k: nat, id: Id)
    requires k < |sets|
  {
    var before := sets[k := sets[k] - {id}];
    Grown(start, before) && LeastLoaded(before, k, id, ids) && !Enough(before, ids, average, replicationFactor)
  }

  /** What filling makes of its start: nothing is taken away, there is enough, and nothing was added
      once there was enough. */
  ghost predicate Refilled(start: seq<set<Id>>, sets: seq<set<Id>>, ids: set<Id>, average: nat, replicationFactor: int)
  {
    && Grown(start, sets)
    && Enough(sets, ids, average, replicationFactor)
    && if Enough(start, ids, average, replicationFactor) then sets == start
       else LastAdded(start, sets, ids, average, replicationFactor)
  }

  lemma AddedLast(start: seq<set<Id>>, before: seq<set<Id>>, ids: set<Id>, average: nat, replicationFactor: int, k: nat,
                  id: Id)
    requires Grown(start, before) && LeastLoaded(before, k, id, ids) && !Enough(before, ids, average, replicationFactor)
    ensures LastAdded(start, before[k := before[k] + {id}], ids, average, replicationFactor)
  {
    var sets := before[k := before[k] + {id}];
    assert sets[k := sets[k] - {id}] == before;
    assert NeededLast(start, sets, ids, average, replicationFactor, k, id);
  }

  lemma EnoughExactly(nodes: seq<Participant>, subnets: seq<Subnetwork>, average: nat, replicationFactor: int)
    requires Consistent(nodes, subnets)
    ensures FilledUpTo(subnets, replicationFactor) && AllAssigned(nodes, average)
       <==> Enough(Sets(subnets), Ids(nodes), average, replicationFactor)
  {
    forall i | 0 <= i < |nodes|
      ensures nodes[i].declarationId in Ids(nodes)
    {
    }
  }

  /** What the filling keeps about its start, for as long as it runs. */
  ghost predicate Filled(start: seq<set<Id>>, sets: seq<set<Id>>, ids: set<Id>, average: nat, replicationFactor: int,
                         capped: seq<set<Id>>, over: nat)
  {
    && Grown(start, sets)
    && (NoneAbove(start, ids, average) ==>
          && Slack(start, sets, ids, average, capped, over)
          && (Brim(start, Top(start) - 1) > Limit(start, ids, average, replicationFactor) ==> !Balanced(sets))
          && (average == 1 ==> Total(sets) <= Demand(start, ids, average, replicationFactor)))
  }

  lemma FilledSelf(start: seq<set<Id>>, ids: set<Id>, average: nat, replicationFactor: int)
    requires Over(start, ids)
    ensures Filled(start, start, ids, average, replicationFactor, start, 0)
  {
    hide Brim, Top, Total, Balanced, Slack, Count, Over;
    GrownSelf(start);
    BalancedExactly(start, start);
    BrimAtMost(start, start, replicationFactor);
    if NoneAbove(start, ids, average) {
      SlackSelf(start, ids, average);
    }
  }

  lemma FilledStep(start: seq<set<Id>>, sets: seq<set<Id>>, ids: set<Id>, average: nat, replicationFactor: int,
                   capped: seq<set<Id>>, over: nat, k: nat, id: Id)
    returns (capped': seq<set<Id>>, over': nat)
    requires Filled(start, sets, ids, average, replicationFactor, capped, over)
    requires LeastLoaded(sets, k, id, ids) && Over(sets, ids)
    requires (exists j :: 0 <= j < |sets| && |sets[j]| < replicationFactor)
          || (exists u :: u in ids && Count(u, sets) < average)
    ensures Filled(start, sets[k := sets[k] + {id}], ids, average, replicationFactor, capped', over')
  {
    hide Brim, Top, Total, Balanced, Slack, Count, Over, Demand, Limit, NoneAbove;
    var next := sets[k := sets[k] + {id}];
    capped', over' := capped, over;
    GrownStep(start, sets, k, id);
    if NoneAbove(start, ids, average) {
      RoomLeft(start, sets, ids, average, replicationFactor, capped, over, k, id);
      capped', over' := SlackStep(start, sets, ids, average, capped, over, k, id);
      TotalUpdate(sets, k, sets[k] + {id});
      BalancedExactly(start, next);
    }
  }

  /** Add nodes to the smallest subnetworks until all are filled and all nodes assigned. */
  method FillSubnetworks(nodes: seq<Participant>, subnets: seq<Subnetwork>, average: nat, replicationFactor: int)
    returns (ok: bool)
    requires DistinctNodes(nodes) && Enumerated(subnets) && Consistent(nodes, subnets)
    modifies nodes, subnets
    ensures ok <==> Fillable(|nodes|, |subnets|, average, replicationFactor)
    ensures Consistent(nodes, subnets)
    ensures ok ==> FilledUpTo(subnets, replicationFactor) && AllAssigned(nodes, average)
    ensures old(Balanced(Sets(subnets))) ==> Balanced(Sets(subnets))
    ensures Grown(old(Sets(subnets)), Sets(subnets))
    ensures Balanced(Sets(subnets)) <==> Total(Sets(subnets)) >= Brim(old(Sets(subnets)), Top(old(Sets(subnets))) - 1)
    ensures ok && average >= 1 && old(NoneAbove(Sets(subnets), Ids(nodes), average)) ==>
      Decided(old(Sets(subnets)), Ids(nodes), average, replicationFactor, Sets(subnets))
    ensures ok ==> Refilled(old(Sets(subnets)), Sets(subnets), Ids(nodes), average, replicationFactor)
  {
    hide Balanced, Room, Count, Filled, Decided, Grown, Brim, Top, Total, Over, NoneAbove, FilledUpTo, AllAssigned,
         Consistent, DistinctNodes, Enumerated, Fillable, LeastLoaded, Sets, Ids, Enough, LastAdded;
    ghost var start, ids := Sets(subnets), Ids(nodes);
    ConsistentOver(nodes, subnets);
    FilledSelf(start, ids, average, replicationFactor);
    ghost var capped, over := start, 0;
    while !(FilledUpTo(subnets, replicationFactor) && AllAssigned(nodes, average))
      invariant Consistent(nodes, subnets)
      invariant old(Balanced(Sets(subnets))) ==> Balanced(Sets(subnets))
      invariant Filled(start, Sets(subnets), ids, average, replicationFactor, capped, over)
      invariant Sets(subnets) == start
             || (!Enough(start, ids, average, replicationFactor)
                 && LastAdded(start, Sets(subnets), ids, average, replicationFactor))
      invariant Room(Sets(subnets), |ids|) >= 0
      decreases Room(Sets(subnets), |ids|)
    {
      ghost var i, k, before := 0, 0, Sets(subnets);
      ConsistentOver(nodes, subnets);
      NotDone(nodes, subnets, average, replicationFactor);
      EnoughExactly(nodes, subnets, average, replicationFactor);
      FilledGrown(start, before, ids, average, replicationFactor, capped, over);
      ok, i, k := FillStep(nodes, subnets, average, replicationFactor);
      if !ok {
        return false;
      }
      AddedLast(start, before, ids, average, replicationFactor, k, nodes[i].declarationId);
      capped, over := FilledStep(start, before, ids, average, replicationFactor, capped, over, k,
                                 nodes[i].declarationId);
    }
    DoneIsFillable(nodes, subnets, average, replicationFactor);
    EnoughExactly(nodes, subnets, average, replicationFactor);
    DoneCounts(nodes, subnets, average, replicationFactor);
    FilledGrown(start, Sets(subnets), ids, average, replicationFactor, capped, over);
    if average >= 1 && NoneAbove(start, ids, average) {
      FilledDecides(start, Sets(subnets), ids, average, replicationFactor, capped, over);
    }
    ok := true;
  }

  lemma ConsistentOver(nodes: seq<Participant>, subnets: seq<Subnetwork>)
    requires Consistent(nodes, subnets)
    ensures Over(Sets(subnets), Ids(nodes)) && Room(Sets(subnets), |Ids(nodes)|) >= 0
  {
    RoomBound(Sets(subnets), Ids(nodes));
  }

  lemma FilledGrown(start: seq<set<Id>>, sets: seq<set<Id>>, ids: set<Id>, average: nat, replicationFactor: int,
                    capped: seq<set<Id>>, over: nat)
    requires Filled(start, sets, ids, average, replicationFactor, capped, over)
    ensures Grown(start, sets) && (Balanced(sets) <==> Total(sets) >= Brim(start, Top(start) - 1))
  {
    BalancedExactly(start, sets);
  }

  lemma FilledDecides(start: seq<set<Id>>, sets: seq<set<Id>>, ids: set<Id>, average: nat, replicationFactor: int,
                      capped: seq<set<Id>>, over: nat)
    requires average >= 1 && NoneAbove(start, ids, average)
    requires Filled(start, sets, ids, average, replicationFactor, capped, over)
    requires forall k :: 0 <= k < |sets| ==> |sets[k]| >= replicationFactor
    requires forall id :: id in ids ==> Count(id, sets) >= average
    ensures Decided(start, ids, average, replicationFactor, sets)
  {
    hide Decided, Brim, Top, Total, Balanced, Slack, Count, Demand, Limit;
    FillingDecides(start, sets, ids, average, replicationFactor);
  }

  /** What is missing as long as the loop goes on, in terms of the sets. */
  lemma NotDone(nodes: seq<Participant>, subnets: seq<Subnetwork>, average: nat, replicationFactor: int)
    requires Consistent(nodes, subnets)
    requires !(FilledUpTo(subnets, replicationFactor) && AllAssigned(nodes, average))
    ensures (exists j :: 0 <= j < |subnets| && |Sets(subnets)[j]| < replicationFactor)
         || (exists u :: u in Ids(nodes) && Count(u, Sets(subnets)) < average)
  {
    if FilledUpTo(subnets, replicationFactor) {
      var i :| 0 <= i < |nodes| && nodes[i].participation < average;
      assert nodes[i].declarationId in Ids(nodes);
    } else {
      var j :| 0 <= j < |subnets| && |subnets[j].participants| < replicationFactor;
      assert |Sets(subnets)[j]| < replicationFactor;
    }
  }

  lemma DoneCounts(nodes: seq<Participant>, subnets: seq<Subnetwork>, average: nat, replicationFactor: int)
    requires Consistent(nodes, subnets)
    requires FilledUpTo(subnets, replicationFactor) && AllAssigned(nodes, average)
    ensures forall k :: 0 <= k < |subnets| ==> |Sets(subnets)[k]| >= replicationFactor
    ensures forall id :: id in Ids(nodes) ==> Count(id, Sets(subnets)) >= average
  {
  }

  function SetOf<T>(s: seq<T>): set<T> {
    set x | x in s
  }

  ghost predicate Distinct<T>(s: seq<T>) {
    forall i, j :: 0 <= i < j < |s| ==> s[i] != s[j]
  }

  lemma DistinctSize<T>(s: seq<T>)
    requires Distinct(s)
    ensures |SetOf(s)| == |s|
  {
    if s != [] {
      var n := |s| - 1;
      DistinctSize(s[..n]);
      assert SetOf(s) == SetOf(s[..n]) + {s[n]};
    }
  }

  /** Any sample of k elements, or of all of them when there are fewer. */
  method Sample<T(==)>(elements: set<T>, k: nat) returns (chosen: seq<T>)
    ensures |chosen| == (if k <= |elements| then k else |elements|)
    ensures Distinct(chosen) && SetOf(chosen) <= elements
  {
    chosen := [];
    var rest := elements;
    while |chosen| < k && rest != {}
      invariant |chosen| <= k && |chosen| + |rest| == |elements|
      invariant rest <= elements && rest !! SetOf(chosen)
      invariant Distinct(chosen) && SetOf(chosen) <= elements
      decreases rest
    {
      var x :| x in rest;
      chosen := chosen + [x];
      rest := rest - {x};
    }
  }

  /** max(subnetworks) */
  method Largest(subnets: seq<Subnetwork>) returns (k: nat)
    requires subnets != []
    ensures k < |subnets| && forall j :: 0 <= j < |subnets| ==> subnets[j].Below(subnets[k])
  {
    k := 0;
    for i := 1 to |subnets|
      invariant k < |subnets| && forall j :: 0 <= j < i ==> subnets[j].Below(subnets[k])
    {
      if !subnets[i].Below(subnets[k]) {
        k := i;
      }
    }
  }

  /** min(subnetworks) */
  method Smallest(subnets: seq<Subnetwork>) returns (k: nat)
    requires subnets != []
    ensures k < |subnets| && forall j :: 0 <= j < |subnets| ==> subnets[k].Below(subnets[j])
  {
    k := 0;
    for i := 1 to |subnets|
      invariant k < |subnets| && forall j :: 0 <= j < i ==> subnets[k].Below(subnets[j])
    {
      if !subnets[k].Below(subnets[i]) {
        k := i;
      }
    }
  }

  /** Move the chosen nodes one by one from a subnetwork to another. */
  method Migrate(subnets: seq<Subnetwork>, from: nat, to: nat, chosen: seq<Id>)
    requires Enumerated(subnets) && from < |subnets| && to < |subnets| && from != to
    requires Distinct(chosen) && SetOf(chosen) <= subnets[from].participants
    requires SetOf(chosen) !! subnets[to].participants
    modifies subnets[from], subnets[to]
    ensures Sets(subnets) == old(Sets(subnets)
      [from := subnets[from].participants - SetOf(chosen)][to := subnets[to].participants + SetOf(chosen)])
  {
    for i := 0 to |chosen|
      invariant subnets[from].participants == old(subnets[from].participants) - SetOf(chosen[..i])
      invariant subnets[to].participants == old(subnets[to].participants) + SetOf(chosen[..i])
    {
      assert chosen[..i + 1] == chosen[..i] + [chosen[i]];
      subnets[to].participants := subnets[to].participants + {chosen[i]};
      subnets[from].participants := subnets[from].participants - {chosen[i]};
    }
    assert chosen[..|chosen|] == chosen;
  }

  ghost predicate SameCounts(a: seq<set<Id>>, b: seq<set<Id>>) {
    |a| == |b| && forall id :: Count(id, a) == Count(id, b)
  }

  /** Migrate half of the difference from the largest to the smallest until sizes differ by at most one. */
  method BalanceSubnetworksShrink(subnets: seq<Subnetwork>)
    requires subnets != [] && Enumerated(subnets)
    modifies subnets
    ensures Balanced(Sets(subnets))
    ensures SameCounts(Sets(subnets), old(Sets(subnets)))
    ensures old(Balanced(Sets(subnets))) ==> Sets(subnets) == old(Sets(subnets))
  {
    hide Squares, SameCounts, Balanced, Migrated;
    ghost var before := Sets(subnets);
    SameCountsSelf(before);
    var largest: nat := Largest(subnets);
    var smallest: nat := Smallest(subnets);
    while |subnets[largest].participants| - |subnets[smallest].participants| > 1
      invariant largest < |subnets| && smallest < |subnets|
      invariant forall j :: 0 <= j < |subnets| ==> subnets[j].Below(subnets[largest])
      invariant forall j :: 0 <= j < |subnets| ==> subnets[smallest].Below(subnets[j])
      invariant SameCounts(Sets(subnets), before)
      invariant Balanced(before) ==> Sets(subnets) == before
      decreases Squares(Sets(subnets))
    {
      ghost var was := Sets(subnets);
      ExtremesUnbalanced(subnets, largest, smallest);
      MigrateHalf(subnets, largest, smallest);
      SameCountsTransitive(Sets(subnets), was, before);
      largest := Largest(subnets);
      smallest := Smallest(subnets);
    }
    ExtremesBalanced(subnets, largest, smallest);
  }

  lemma SameCountsSelf(a: seq<set<Id>>)
    ensures SameCounts(a, a)
  {
  }

  lemma SameCountsTransitive(a: seq<set<Id>>, b: seq<set<Id>>, c: seq<set<Id>>)
    requires SameCounts(a, b) && SameCounts(b, c)
    ensures SameCounts(a, c)
  {
  }

  lemma ExtremesBalanced(subnets: seq<Subnetwork>, largest: nat, smallest: nat)
    requires largest < |subnets| && smallest < |subnets|
    requires forall j :: 0 <= j < |subnets| ==> subnets[j].Below(subnets[largest])
    requires forall j :: 0 <= j < |subnets| ==> subnets[smallest].Below(subnets[j])
    requires |subnets[largest].participants| - |subnets[smallest].participants| <= 1
    ensures Balanced(Sets(subnets))
  {
  }

  lemma ExtremesUnbalanced(subnets: seq<Subnetwork>, largest: nat, smallest: nat)
    requires largest < |subnets| && smallest < |subnets|
    requires |subnets[largest].participants| - |subnets[smallest].participants| > 1
    ensures !Balanced(Sets(subnets))
  {
    assert |Sets(subnets)[largest]| > |Sets(subnets)[smallest]| + 1;
  }

  /** Half of the difference moves from a set to another that did not have it. */
  ghost predicate Migrated(before: seq<set<Id>>, after: seq<set<Id>>, from: nat, to: nat)
    requires from < |before| && to < |before|
  {
    exists moved: set<Id> ::
      moved <= before[from] - before[to] && 2 * |moved| <= |before[from]| - |before[to]| <= 2 * |moved| + 1
      && after == before[from := before[from] - moved][to := before[to] + moved]
  }

  /** The body of the loop: a sample of half of the difference moves from the largest to the smallest. */
  method MigrateHalf(subnets: seq<Subnetwork>, largest: nat, smallest: nat)
    requires Enumerated(subnets) && largest < |subnets| && smallest < |subnets|
    requires |subnets[largest].participants| - |subnets[smallest].participants| > 1
    modifies subnets
    ensures SameCounts(Sets(subnets), old(Sets(subnets)))
    ensures Squares(Sets(subnets)) < old(Squares(Sets(subnets)))
    ensures Migrated(old(Sets(subnets)), Sets(subnets), largest, smallest)
  {
    hide Squares, SameCounts, SetOf, Distinct;
    var maxSet, minSet := subnets[largest].participants, subnets[smallest].participants;
    var diffCount := (|maxSet| - |minSet|) / 2;
    var chosen := Sample(maxSet - minSet, diffCount);
    MoveChosen(Sets(subnets), largest, smallest, chosen);
    assert 2 * |SetOf(chosen)| <= |maxSet| - |minSet| <= 2 * |SetOf(chosen)| + 1 by {
      DifferenceSize(maxSet, minSet);
      DistinctSize(chosen);
    }
    Migrate(subnets, largest, smallest, chosen);
  }

  /** Moving a sample of half of the difference keeps the counts and lowers the squares. */
  lemma MoveChosen(sets: seq<set<Id>>, from: nat, to: nat, chosen: seq<Id>)
    requires from < |sets| && to < |sets| && |sets[from]| - |sets[to]| > 1
    requires Distinct(chosen) && SetOf(chosen) <= sets[from] - sets[to]
    requires var k := (|sets[from]| - |sets[to]|) / 2;
             |chosen| == if k <= |sets[from] - sets[to]| then k else |sets[from] - sets[to]|
    ensures var sets' := sets[from := sets[from] - SetOf(chosen)][to := sets[to] + SetOf(chosen)];
            SameCounts(sets', sets) && Squares(sets') < Squares(sets)
  {
    DifferenceSize(sets[from], sets[to]);
    DistinctSize(chosen);
    MoveKeepsCounts(sets, from, to, SetOf(chosen));
    MoveLowersSquares(sets, from, to, SetOf(chosen));
  }

  lemma DifferenceSize<T>(a: set<T>, b: set<T>)
    ensures |a - b| >= |a| - |b|
  {
  }

  /** Take every node that is in more than the average number of subnetworks out of random ones. */
  method BalanceSubnetworksGrow(nodes: seq<Participant>, subnets: seq<Subnetwork>, average: nat)
    requires DistinctNodes(nodes) && Enumerated(subnets) && Consistent(nodes, subnets)
    modifies nodes, subnets
    ensures Consistent(nodes, subnets)
    ensures forall i :: 0 <= i < |nodes| ==>
      nodes[i].participation == old(if nodes[i].participation > average then average else nodes[i].participation)
    ensures forall k :: 0 <= k < |subnets| ==> subnets[k].participants <= old(subnets[k].participants)
    ensures old(forall i :: 0 <= i < |nodes| ==> nodes[i].participation <= average) ==>
      Sets(subnets) == old(Sets(subnets))
  {
    ghost var idle := forall i :: 0 <= i < |nodes| ==> nodes[i].participation <= average;
    for n := 0 to |nodes|
      invariant Consistent(nodes, subnets)
      invariant forall i :: 0 <= i < n ==>
        nodes[i].participation == old(if nodes[i].participation > average then average else nodes[i].participation)
      invariant forall i :: n <= i < |nodes| ==> nodes[i].participation == old(nodes[i].participation)
      invariant forall k :: 0 <= k < |subnets| ==> subnets[k].participants <= old(subnets[k].participants)
      invariant idle ==> Sets(subnets) == old(Sets(subnets))
    {
      if nodes[n].participation > average {
        Reduce(nodes, subnets, n, average);
      }
    }
  }

  /** Take node n out of a sample of its subnetworks, down to the average. */
  method Reduce(nodes: seq<Participant>, subnets: seq<Subnetwork>, n: nat, average: nat)
    requires DistinctNodes(nodes) && Enumerated(subnets) && Consistent(nodes, subnets)
    requires n < |nodes| && nodes[n].participation > average
    modifies nodes[n], subnets
    ensures Consistent(nodes, subnets)
    ensures nodes[n].participation == average
    ensures forall k :: 0 <= k < |subnets| ==> subnets[k].participants <= old(subnets[k].participants)
  {
    var id := nodes[n].declarationId;
    HoldersCount(id, Sets(subnets));
    var holders := set k: nat | k < |subnets| && id in subnets[k].participants;
    assert holders == Holders(id, Sets(subnets));
    var chosen: seq<nat> := Sample(holders, nodes[n].participation - average);
    assert forall j :: 0 <= j < |chosen| ==> chosen[j] in SetOf(chosen);
    for i := 0 to |chosen|
      invariant Consistent(nodes, subnets)
      invariant nodes[n].participation == old(nodes[n].participation) - i
      invariant forall j :: i <= j < |chosen| ==> chosen[j] < |subnets| && id in subnets[chosen[j]].participants
      invariant forall k :: 0 <= k < |subnets| ==> subnets[k].participants <= old(subnets[k].participants)
    {
      Remove(nodes, subnets, n, chosen[i]);
    }
  }

  method Remove(nodes: seq<Participant>, subnets: seq<Subnetwork>, n: nat, k: nat)
    requires DistinctNodes(nodes) && Enumerated(subnets) && Consistent(nodes, subnets)
    requires n < |nodes| && k < |subnets| && nodes[n].declarationId in subnets[k].participants
    modifies nodes[n], subnets[k]
    ensures Consistent(nodes, subnets)
    ensures nodes[n].participation == old(nodes[n].participation) - 1
    ensures subnets[k].participants == old(subnets[k].participants) - {nodes[n].declarationId}
  {
    ghost var before := Sets(subnets);
    var id := nodes[n].declarationId;
    forall j: Id
      ensures Count(j, before[k := before[k] - {id}]) + Bit(j == id) == Count(j, before)
    {
      CountUpdate(j, before, k, before[k] - {id});
    }
    subnets[k].participants := subnets[k].participants - {id};
    nodes[n].participation := nodes[n].participation - 1;
    assert Sets(subnets) == before[k := before[k] - {id}];
    forall j | 0 <= j < |nodes|
      ensures nodes[j].participation == Count(nodes[j].declarationId, Sets(subnets))
    {
      assert j != n ==> nodes[j].declarationId != id;
    }
  }

  /** All nodes of a list of subnetworks. */
  function Members(sets: seq<set<Id>>): set<Id> {
    set k, id | 0 <= k < |sets| && id in sets[k] :: id
  }

  /** What is left of the previous subnetworks when only the nodes in ids stay. */
  function Active(sets: seq<set<Id>>, ids: set<Id>): (r: seq<set<Id>>)
    ensures |r| == |sets| && forall k :: 0 <= k < |r| ==> r[k] == sets[k] * ids
  {
    assert forall k :: 0 <= k < |sets| ==> sets[k] - (Members(sets) - ids) == sets[k] * ids;
    seq(|sets|, k requires 0 <= k < |sets| => sets[k] - (Members(sets) - ids))
  }

  lemma IdsAppend(nodes: seq<Participant>, node: Participant)
    ensures Ids(nodes + [node]) == Ids(nodes) + {node.declarationId}
  {
    var n, more := |nodes|, nodes + [node];
    assert more[n].declarationId in Ids(more);
    forall id | id in Ids(nodes)
      ensures id in Ids(more)
    {
      var k :| 0 <= k < n && nodes[k].declarationId == id;
      assert more[k].declarationId == id;
    }
  }

  method MakeParticipants(ids: set<Id>, sets: seq<set<Id>>) returns (nodes: seq<Participant>)
    ensures fresh(nodes) && DistinctNodes(nodes) && Ids(nodes) == ids
    ensures forall i :: 0 <= i < |nodes| ==> nodes[i].participation == Count(nodes[i].declarationId, sets)
  {
    nodes := [];
    var rest := ids;
    while rest != {}
      invariant rest <= ids && Ids(nodes) == ids - rest
      invariant fresh(nodes) && DistinctNodes(nodes)
      invariant forall i :: 0 <= i < |nodes| ==> nodes[i].participation == Count(nodes[i].declarationId, sets)
    {
      var id :| id in rest;
      var node := new Participant(Count(id, sets), id);
      assert id !in Ids(nodes);
      IdsAppend(nodes, node);
      nodes := nodes + [node];
      rest := rest - {id};
    }
  }

  method MakeSubnetworks(sets: seq<set<Id>>) returns (subnets: seq<Subnetwork>)
    ensures fresh(subnets) && Enumerated(subnets) && Sets(subnets) == sets
  {
    subnets := [];
    for k := 0 to |sets|
      invariant |subnets| == k && fresh(subnets) && Enumerated(subnets)
      invariant forall j :: 0 <= j < k ==> subnets[j].participants == sets[j]
    {
      var subnet := new Subnetwork(sets[k], k);
      subnets := subnets + [subnet];
    }
  }

  function Average(subnetCount: nat, replicationFactor: int, nodeCount: nat): nat
    requires nodeCount > 0
  {
    var a := subnetCount * replicationFactor / nodeCount;
    if a >= 1 then a else 1
  }

  lemma AverageBound(subnetCount: nat, replicationFactor: int, nodeCount: nat)
    requires nodeCount > 0 && replicationFactor <= nodeCount && subnetCount > 0
    ensures Average(subnetCount, replicationFactor, nodeCount) <= subnetCount
  {
  }

  datatype Outcome =
    | Assigned(subnets: seq<set<Id>>)
    | NetworkTooSmall
    | DivisionByZero
    | EmptyHeap

  /** Shrinking: there were more nodes before than there are now. */
  predicate Shrinking(newNodes: set<Id>, previous: seq<set<Id>>) {
    |Members(previous)| > |newNodes|
  }

  /** Exactly the nodes are used, each often enough, and every subnetwork is replicated. */
  ghost predicate Meets(sets: seq<set<Id>>, ids: set<Id>, average: nat, replicationFactor: int) {
    && Members(sets) == ids
    && (forall k :: 0 <= k < |sets| ==> |sets[k]| >= replicationFactor)
    && (forall id :: id in ids ==> Count(id, sets) >= average)
  }

  /** What the assignation promises. */
  ghost predicate Promised(newNodes: seq<Id>, previous: seq<set<Id>>, replicationFactor: int, r: seq<set<Id>>)
    requires newNodes != []
  {
    var ids, average := SetOf(newNodes), Average(|previous|, replicationFactor, |newNodes|);
    && |r| == |previous|
    && Meets(r, ids, average, replicationFactor)
    && (Shrinking(ids, previous) ==> Balanced(r))
    && (Members(previous) == {} ==> Balanced(r))
    && (EvenStart(Active(previous, ids), ids, average) ==> Balanced(r))
    && (Low(Active(previous, ids), replicationFactor) ==> Balanced(r))
    && (NearlyFull(Active(previous, ids), ids, average) ==> Balanced(r))
    && (Shrinking(ids, previous) ==>
          exists mid :: Shrunk(Active(previous, ids), mid) && Refilled(mid, r, ids, average, replicationFactor))
    && (!Shrinking(ids, previous) ==>
          exists mid :: Trimmed(Active(previous, ids), mid, ids, average)
                        && Refilled(mid, r, ids, average, replicationFactor)
                        && SpreadDecided(mid, ids, average, replicationFactor, r))
    && (!Shrinking(ids, previous) && NoneAbove(Active(previous, ids), ids, average) ==>
          SpreadDecided(Active(previous, ids), ids, average, replicationFactor, r))
  }

  /** What the shrink pass leaves: balanced sets with the same memberships of each node, and sets that
      are balanced already are left alone. */
  ghost predicate Shrunk(active: seq<set<Id>>, mid: seq<set<Id>>) {
    SameCounts(mid, active) && Balanced(mid) && (Balanced(active) ==> mid == active)
  }

  /** What the grow pass leaves: each node above the average is taken out of some sets. */
  ghost predicate Trimmed(active: seq<set<Id>>, mid: seq<set<Id>>, ids: set<Id>, average: nat) {
    && |mid| == |active|
    && (forall k :: 0 <= k < |mid| ==> mid[k] <= active[k])
    && (forall id :: id in ids ==>
          Count(id, mid) == if Count(id, active) > average then average else Count(id, active))
  }

  /** The spread is decided before the filling, exactly so for an average of one and for networks
      that are not very small. */
  ghost predicate SpreadDecided(start: seq<set<Id>>, ids: set<Id>, average: nat, replicationFactor: int,
                                r: seq<set<Id>>)
  {
    && Decided(start, ids, average, replicationFactor, r)
    && (average == 1 || |ids| >= replicationFactor * (replicationFactor + 1) ==>
          (Balanced(r) <==> Demand(start, ids, average, replicationFactor) >= Brim(start, Top(start) - 1)))
  }

  /** A balanced start in which no node is above the average. */
  ghost predicate EvenStart(sets: seq<set<Id>>, ids: set<Id>, average: nat) {
    Balanced(sets) && NoneAbove(sets, ids, average)
  }

  /** No set is more than one above the replication factor. */
  ghost predicate Low(sets: seq<set<Id>>, replicationFactor: int) {
    forall k :: 0 <= k < |sets| ==> |sets[k]| <= replicationFactor + 1
  }

  /** The places that the nodes need fill every set up to one below the largest, or all but one
      place of the largest. */
  ghost predicate NearlyFull(sets: seq<set<Id>>, ids: set<Id>, average: nat) {
    |ids| * average >= Brim(sets, Top(sets) - 1) || |ids| * average >= |sets| * Top(sets) - 1
  }

  /** Nothing is left to do: every active node has exactly the average and every subnetwork is filled. */
  ghost predicate Settled(newNodes: seq<Id>, previous: seq<set<Id>>, replicationFactor: int)
    requires newNodes != []
  {
    var ids, average := SetOf(newNodes), Average(|previous|, replicationFactor, |newNodes|);
    !Shrinking(ids, previous) && AtAverage(Active(previous, ids), ids, average, replicationFactor)
  }

  ghost predicate AtAverage(sets: seq<set<Id>>, ids: set<Id>, average: nat, replicationFactor: int) {
    && (forall id :: id in ids ==> Count(id, sets) == average)
    && (forall k :: 0 <= k < |sets| ==> |sets[k]| >= replicationFactor)
  }

  lemma DoneMeets(nodes: seq<Participant>, subnets: seq<Subnetwork>, average: nat, replicationFactor: int)
    requires Consistent(nodes, subnets) && average >= 1
    requires FilledUpTo(subnets, replicationFactor) && AllAssigned(nodes, average)
    ensures Meets(Sets(subnets), Ids(nodes), average, replicationFactor)
  {
    var sets := Sets(subnets);
    forall id | id in Ids(nodes)
      ensures Count(id, sets) >= average && id in Members(sets)
    {
      var i :| 0 <= i < |nodes| && nodes[i].declarationId == id;
      CountBound(id, sets);
    }
  }

  /** Members are exactly the nodes that are counted. */
  lemma CountedMembers(a: seq<set<Id>>, b: seq<set<Id>>)
    requires SameCounts(a, b)
    ensures Members(a) == Members(b)
  {
    forall id: Id
      ensures id in Members(a) <==> id in Members(b)
    {
      CountBound(id, a);
      CountBound(id, b);
    }
  }

  /** The balancing pass that the size of the network calls for. */
  method BalanceSubnetworks(nodes: seq<Participant>, subnets: seq<Subnetwork>, average: nat, shrinking: bool)
    requires DistinctNodes(nodes) && Enumerated(subnets) && Consistent(nodes, subnets)
    requires shrinking ==> subnets != []
    modifies nodes, subnets
    ensures Consistent(nodes, subnets)
    ensures shrinking ==> Shrunk(old(Sets(subnets)), Sets(subnets))
    ensures !shrinking ==> forall k :: 0 <= k < |subnets| ==> subnets[k].participants <= old(subnets[k].participants)
    ensures !shrinking ==> forall i :: 0 <= i < |nodes| ==>
      nodes[i].participation == old(if nodes[i].participation > average then average else nodes[i].participation)
    ensures !shrinking && old(forall i :: 0 <= i < |nodes| ==> nodes[i].participation <= average) ==>
      Sets(subnets) == old(Sets(subnets))
      && forall i :: 0 <= i < |nodes| ==> nodes[i].participation == old(nodes[i].participation)
  {
    if shrinking {
      ghost var before := Sets(subnets);
      BalanceSubnetworksShrink(subnets);
      KeepsMembers(before, Sets(subnets), Ids(nodes));
    } else {
      BalanceSubnetworksGrow(nodes, subnets, average);
    }
  }

  lemma KeepsMembers(a: seq<set<Id>>, b: seq<set<Id>>, ids: set<Id>)
    requires SameCounts(b, a) && forall k :: 0 <= k < |a| ==> a[k] <= ids
    ensures forall k :: 0 <= k < |b| ==> b[k] <= ids
  {
    CountedMembers(b, a);
    forall k, id | 0 <= k < |b| && id in b[k]
      ensures id in ids
    {
      assert id in Members(b);
    }
  }

  method CalculateSubnetworkAssignations(newNodesList: seq<Id>, previousSubnets: seq<set<Id>>, replicationFactor: int)
    returns (outcome: Outcome)
    ensures outcome == NetworkTooSmall <==> |newNodesList| < replicationFactor
    ensures outcome == DivisionByZero <==> |newNodesList| >= replicationFactor && newNodesList == []
    ensures outcome == EmptyHeap <==>
      |newNodesList| >= replicationFactor && newNodesList != []
      && (previousSubnets == [] || |SetOf(newNodesList)| < replicationFactor)
    ensures outcome.Assigned? ==> Promised(newNodesList, previousSubnets, replicationFactor, outcome.subnets)
    ensures outcome.Assigned? && Settled(newNodesList, previousSubnets, replicationFactor) ==>
      outcome.subnets == Active(previousSubnets, SetOf(newNodesList))
      && (Balanced(outcome.subnets) <==> Balanced(Active(previousSubnets, SetOf(newNodesList))))
  {
    hide Shrunk, Refilled;
    if |newNodesList| < replicationFactor {
      return NetworkTooSmall;
    }
    if |newNodesList| == 0 {
      return DivisionByZero;
    }
    var average := Average(|previousSubnets|, replicationFactor, |newNodesList|);
    var newNodes := SetOf(newNodesList);
    assert newNodesList[0] in newNodes;
    var shrinking := Shrinking(newNodes, previousSubnets);
    var active := Active(previousSubnets, newNodes);
    ghost var mid;
    outcome, mid := Reassign(newNodes, active, average, replicationFactor, shrinking);
    if previousSubnets != [] {
      AverageBound(|previousSubnets|, replicationFactor, |newNodesList|);
    }
    if outcome.Assigned? && Members(previousSubnets) == {} {
      EmptyIsEven(active, newNodes, average);
    }
    if outcome.Assigned? && !shrinking {
      SetOfSize(newNodesList);
      MidDecides(active, mid, outcome.subnets, newNodes, |newNodesList|, replicationFactor);
    }
  }

  lemma SetOfSize<T>(s: seq<T>)
    ensures |SetOf(s)| <= |s|
  {
    if s != [] {
      var n := |s| - 1;
      SetOfSize(s[..n]);
      assert SetOf(s) == SetOf(s[..n]) + {s[n]};
    }
  }

  /** The average of two or more does not ask for more places than the replication factor gives. */
  lemma AverageProduct(subnetCount: nat, replicationFactor: int, nodeCount: nat, n: nat)
    requires 0 < n <= nodeCount
    ensures var average := Average(subnetCount, replicationFactor, nodeCount);
            average == 1 || n * average <= subnetCount * replicationFactor
  {
    var average := Average(subnetCount, replicationFactor, nodeCount);
    Scale(n, nodeCount, average);
    assert average > 1 ==> nodeCount * average <= subnetCount * replicationFactor;
  }

  /** What the filling from mid says about the spread. */
  lemma MidDecides(active: seq<set<Id>>, mid: seq<set<Id>>, r: seq<set<Id>>, ids: set<Id>, nodeCount: nat,
                   replicationFactor: int)
    requires 0 < |ids| <= nodeCount
    requires var average := Average(|active|, replicationFactor, nodeCount);
             && Trimmed(active, mid, ids, average) && Decided(mid, ids, average, replicationFactor, r)
             && Grown(mid, r) && Meets(r, ids, average, replicationFactor) && (Balanced(mid) ==> Balanced(r))
    ensures var average := Average(|active|, replicationFactor, nodeCount);
            && SpreadDecided(mid, ids, average, replicationFactor, r)
            && (Low(active, replicationFactor) || NearlyFull(active, ids, average) ==> Balanced(r))
  {
    hide Brim, Top, Limit, Balanced, Grown, Count, Total, Members, Average;
    var average := Average(|active|, replicationFactor, nodeCount);
    AverageProduct(|active|, replicationFactor, nodeCount, |ids|);
    hide Trimmed;
    DemandMet(mid, r, ids, average, replicationFactor);
    if Low(active, replicationFactor) {
      LowBrim(active, mid, ids, average, replicationFactor);
    } else if NearlyFull(active, ids, average) && !Balanced(mid) {
      NearlyFullBrim(active, mid, ids, average);
    }
  }

  lemma TrimmedTop(active: seq<set<Id>>, mid: seq<set<Id>>, ids: set<Id>, average: nat)
    requires Trimmed(active, mid, ids, average)
    ensures |mid| == |active| && Top(mid) <= Top(active)
    ensures forall k :: 0 <= k < |mid| ==> |mid[k]| <= |active[k]|
  {
    hide Top;
    TopFacts(mid);
    TopFacts(active);
    forall k | 0 <= k < |mid|
      ensures |mid[k]| <= |active[k]| <= Top(active)
    {
      SubsetSize(mid[k], active[k]);
    }
    if mid == [] {
      assert active == [];
    }
  }

  lemma LowBrim(active: seq<set<Id>>, mid: seq<set<Id>>, ids: set<Id>, average: nat, replicationFactor: int)
    requires Trimmed(active, mid, ids, average) && Low(active, replicationFactor)
    ensures Brim(mid, replicationFactor) >= Brim(mid, Top(mid) - 1)
  {
    hide Top, Brim;
    TrimmedTop(active, mid, ids, average);
    TopFacts(mid);
    if mid != [] {
      BrimGrows(mid, mid, Top(mid) - 1, replicationFactor);
    } else {
      BrimOfNone(replicationFactor);
      BrimOfNone(Top(mid) - 1);
    }
  }

  lemma BrimOfNone(n: int)
    ensures Brim([], n) == 0
  {
  }

  lemma NearlyFullBrim(active: seq<set<Id>>, mid: seq<set<Id>>, ids: set<Id>, average: nat)
    requires Trimmed(active, mid, ids, average) && NearlyFull(active, ids, average) && !Balanced(mid)
    ensures |ids| * average >= Brim(mid, Top(mid) - 1)
  {
    hide Top, Brim, Balanced;
    TrimmedTop(active, mid, ids, average);
    BrimGrows(mid, active, Top(mid) - 1, Top(active) - 1);
    UnevenBrim(mid);
    Scale(Top(mid), Top(active), |active|);
  }

  /** Sets that are not balanced leave a place below their largest size free at the brim. */
  lemma UnevenBrim(sets: seq<set<Id>>)
    requires !Balanced(sets)
    ensures Brim(sets, Top(sets) - 1) <= |sets| * Top(sets) - 1
  {
    TopFacts(sets);
    GrownSelf(sets);
    var j := GrownBelowTop(sets, sets);
    BrimBelow(sets, Top(sets), j);
  }

  lemma {:induction false} BrimBelow(sets: seq<set<Id>>, top: nat, j: nat)
    requires j < |sets| && |sets[j]| < top && forall k :: 0 <= k < |sets| ==> |sets[k]| <= top
    ensures Brim(sets, top - 1) <= |sets| * top - 1
  {
    Expand(|sets|, top);
    if j > 0 {
      BrimBelow(sets[1..], top, j - 1);
    } else {
      BrimWithin(sets[1..], top);
    }
  }

  lemma {:induction false} BrimWithin(sets: seq<set<Id>>, top: nat)
    requires forall k :: 0 <= k < |sets| ==> |sets[k]| <= top
    ensures Brim(sets, top - 1) <= |sets| * top
  {
    if sets != [] {
      Expand(|sets|, top);
      BrimWithin(sets[1..], top);
    }
  }

  /** Taking other nodes away does not change how often a node is a member. */
  lemma {:induction false} ActiveCounts(previous: seq<set<Id>>, ids: set<Id>, id: Id)
    requires id in ids
    ensures Count(id, Active(previous, ids)) == Count(id, previous)
  {
    if previous != [] {
      ActiveCounts(previous[1..], ids, id);
      assert Active(previous, ids)[1..] == Active(previous[1..], ids);
    }
  }

  lemma {:induction false} GrownCounts(start: seq<set<Id>>, sets: seq<set<Id>>, id: Id)
    requires |sets| == |start| && forall k :: 0 <= k < |sets| ==> start[k] <= sets[k]
    ensures Count(id, start) <= Count(id, sets)
  {
    if start != [] {
      assert start[0] <= sets[0];
      GrownCounts(start[1..], sets[1..], id);
    }
  }

  /** When the network shrinks, every node that stays is in at least as many subnetworks as before. */
  lemma ShrinkingKeepsMemberships(newNodes: seq<Id>, previous: seq<set<Id>>, replicationFactor: int, r: seq<set<Id>>,
                                  id: Id)
    requires newNodes != [] && Promised(newNodes, previous, replicationFactor, r)
    requires |Members(previous)| > |SetOf(newNodes)| && id in newNodes
    ensures Count(id, r) >= Count(id, previous)
  {
    hide Meets, EvenStart, Low, NearlyFull, NoneAbove, SpreadDecided, Balanced, LastAdded, Enough, Members;
    var ids, average := SetOf(newNodes), Average(|previous|, replicationFactor, |newNodes|);
    var mid :| Shrunk(Active(previous, ids), mid) && Refilled(mid, r, ids, average, replicationFactor);
    GrownCounts(mid, r, id);
    ActiveCounts(previous, ids, id);
  }

  /** When the network shrinks and what is left is balanced and enough, it comes back as it is. */
  lemma ShrinkingLeavesEnough(newNodes: seq<Id>, previous: seq<set<Id>>, replicationFactor: int, r: seq<set<Id>>)
    requires newNodes != [] && Promised(newNodes, previous, replicationFactor, r)
    requires |Members(previous)| > |SetOf(newNodes)| && Balanced(Active(previous, SetOf(newNodes)))
    requires forall subnet :: subnet in Active(previous, SetOf(newNodes)) ==> |subnet| >= replicationFactor
    requires forall id :: id in newNodes ==>
      Count(id, previous) >= 1 && Count(id, previous) >= |previous| * replicationFactor / |newNodes|
    ensures r == Active(previous, SetOf(newNodes))
  {
    hide Meets, EvenStart, Low, NearlyFull, NoneAbove, SpreadDecided, Balanced, Members, Refilled, Trimmed, SameCounts,
      Count;
    var ids, average := SetOf(newNodes), Average(|previous|, replicationFactor, |newNodes|);
    var active := Active(previous, ids);
    var mid :| Shrunk(active, mid) && Refilled(mid, r, ids, average, replicationFactor);
    assert mid == active;
    hide Promised, Shrunk;
    RefilledFacts(mid, r, ids, average, replicationFactor);
    EnoughLeft(previous, ids, average, replicationFactor);
  }

  lemma EnoughLeft(previous: seq<set<Id>>, ids: set<Id>, average: nat, replicationFactor: int)
    requires forall subnet :: subnet in Active(previous, ids) ==> |subnet| >= replicationFactor
    requires forall id :: id in ids ==> Count(id, previous) >= average
    ensures Enough(Active(previous, ids), ids, average, replicationFactor)
  {
    hide Active;
    var active := Active(previous, ids);
    forall id | id in ids
      ensures Count(id, active) >= average
    {
      ActiveCounts(previous, ids, id);
    }
    assert forall k :: 0 <= k < |active| ==> active[k] in active;
  }

  /** The average is the number of places per node, rounded down, and at least one. */
  lemma AverageExactly(subnetCount: nat, replicationFactor: int, nodeCount: nat)
    requires nodeCount > 0
    ensures var a, places := Average(subnetCount, replicationFactor, nodeCount), subnetCount * replicationFactor;
            a >= 1 && places < (a + 1) * nodeCount && (a * nodeCount <= places || a == 1)
  {
  }

  /** Everything after the average and the active nodes are known. */
  method Reassign(newNodes: set<Id>, active: seq<set<Id>>, average: nat, replicationFactor: int, shrinking: bool)
    returns (outcome: Outcome, ghost mid: seq<set<Id>>)
    requires average >= 1 && newNodes != {} && (shrinking ==> active != [])
    requires forall k :: 0 <= k < |active| ==> active[k] <= newNodes
    ensures outcome.Assigned? || outcome == EmptyHeap
    ensures outcome.Assigned? <==> Fillable(|newNodes|, |active|, average, replicationFactor)
    ensures outcome.Assigned? ==> |outcome.subnets| == |active|
    ensures outcome.Assigned? ==> Meets(outcome.subnets, newNodes, average, replicationFactor)
    ensures outcome.Assigned? && (shrinking || EvenStart(active, newNodes, average)) ==> Balanced(outcome.subnets)
    ensures outcome.Assigned? ==> Refilled(mid, outcome.subnets, newNodes, average, replicationFactor)
    ensures outcome.Assigned? ==> Grown(mid, outcome.subnets) && (Balanced(mid) ==> Balanced(outcome.subnets))
    ensures outcome.Assigned? && shrinking ==> Shrunk(active, mid)
    ensures outcome.Assigned? && !shrinking ==>
      && Trimmed(active, mid, newNodes, average)
      && Decided(mid, newNodes, average, replicationFactor, outcome.subnets)
      && (NoneAbove(active, newNodes, average) ==> mid == active)
    ensures outcome.Assigned? && !shrinking && AtAverage(active, newNodes, average, replicationFactor) ==>
      outcome.subnets == active
  {
    hide Balanced, Meets, AtAverage, EvenStart, Count, Decided, Grown, Total, Brim, Top, Trimmed, NoneAbove, Shrunk,
      Enough, LastAdded, Refilled, Consistent, Enumerated, DistinctNodes, FilledUpTo, AllAssigned, Sets, Ids, Fillable;
    var nodes, subnets := Rebalance(newNodes, active, average, replicationFactor, shrinking);
    mid := Sets(subnets);
    if !shrinking {
      TrimmedNoneAbove(active, mid, newNodes, average);
    }
    var ok := FillSubnetworks(nodes, subnets, average, replicationFactor);
    if !ok {
      return EmptyHeap, mid;
    }
    DoneMeets(nodes, subnets, average, replicationFactor);
    RefilledFacts(mid, Sets(subnets), newNodes, average, replicationFactor);
    AtAverageIsEnough(active, newNodes, average, replicationFactor);
    var result := Collect(subnets);
    outcome := Assigned(result);
  }

  lemma RefilledFacts(start: seq<set<Id>>, sets: seq<set<Id>>, ids: set<Id>, average: nat, replicationFactor: int)
    requires Refilled(start, sets, ids, average, replicationFactor)
    ensures Grown(start, sets) && (Enough(start, ids, average, replicationFactor) ==> sets == start)
  {
  }

  lemma AtAverageIsEnough(sets: seq<set<Id>>, ids: set<Id>, average: nat, replicationFactor: int)
    ensures AtAverage(sets, ids, average, replicationFactor) ==> Enough(sets, ids, average, replicationFactor)
  {
  }

  lemma TrimmedNoneAbove(active: seq<set<Id>>, mid: seq<set<Id>>, ids: set<Id>, average: nat)
    requires Trimmed(active, mid, ids, average)
    ensures NoneAbove(mid, ids, average)
  {
  }

  /** An empty start is even. */
  lemma EmptyIsEven(sets: seq<set<Id>>, ids: set<Id>, average: nat)
    requires forall k :: 0 <= k < |sets| ==> sets[k] == {}
    ensures EvenStart(sets, ids, average)
  {
    forall id: Id
      ensures Count(id, sets) == 0
    {
      CountBound(id, sets);
    }
  }

  /** The participants and the subnetworks, after the balancing pass. */
  method Rebalance(newNodes: set<Id>, active: seq<set<Id>>, average: nat, replicationFactor: int, shrinking: bool)
    returns (nodes: seq<Participant>, subnets: seq<Subnetwork>)
    requires shrinking ==> active != []
    requires forall k :: 0 <= k < |active| ==> active[k] <= newNodes
    ensures fresh(nodes) && fresh(subnets)
    ensures DistinctNodes(nodes) && Enumerated(subnets) && Consistent(nodes, subnets)
    ensures Ids(nodes) == newNodes && |nodes| == |newNodes| && |subnets| == |active|
    ensures shrinking ==> Shrunk(active, Sets(subnets))
    ensures shrinking || EvenStart(active, newNodes, average) ==> Balanced(Sets(subnets))
    ensures !shrinking ==> Trimmed(active, Sets(subnets), newNodes, average)
    ensures !shrinking && NoneAbove(active, newNodes, average) ==> Sets(subnets) == active
    ensures !shrinking && AtAverage(active, newNodes, average, replicationFactor) ==> Sets(subnets) == active
  {
    hide Balanced, Count, Trimmed, SameCounts;
    nodes := MakeParticipants(newNodes, active);
    subnets := MakeSubnetworks(active);
    IdsSize(nodes);
    ghost var even := NoneAbove(active, newNodes, average);
    assert even ==> forall i :: 0 <= i < |nodes| ==> nodes[i].participation <= average by {
      assert forall i :: 0 <= i < |nodes| ==> nodes[i].declarationId in Ids(nodes);
    }
    BalanceSubnetworks(nodes, subnets, average, shrinking);
    assert !shrinking && even ==> Sets(subnets) == active;
    if !shrinking {
      GrowTrims(nodes, subnets, active, average);
    }
  }

  lemma GrowTrims(nodes: seq<Participant>, subnets: seq<Subnetwork>, active: seq<set<Id>>, average: nat)
    requires Consistent(nodes, subnets) && |subnets| == |active|
    requires forall k :: 0 <= k < |subnets| ==> subnets[k].participants <= active[k]
    requires forall i :: 0 <= i < |nodes| ==>
      var c := Count(nodes[i].declarationId, active); nodes[i].participation == if c > average then average else c
    ensures Trimmed(active, Sets(subnets), Ids(nodes), average)
  {
  }

  /** The sets in the order of the subnetwork ids. */
  method Collect(subnets: seq<Subnetwork>) returns (r: seq<set<Id>>)
    requires Enumerated(subnets)
    ensures r == Sets(subnets)
  {
    r := seq(|subnets|, k requires 0 <= k < |subnets| reads subnets => subnets[k].participants);
  }

  const TWO_NODES: seq<Id> := [1, 2]
  const TWICE_TWO: seq<set<Id>> := [{1, 2}, {1, 2}]
  const TWICE_THREE: seq<set<Id>> := [{1, 2, 3}, {1, 2, 3}]

  /** A network that loses its third node: what is left of the two subnetworks is returned. */
  method ShrinkingNetworkKeepsTheRest() returns (outcome: Outcome)
    ensures outcome == Assigned(TWICE_TWO)
  {
    TwiceThree();
    TwiceThreeCounts();
    hide Active, Promised, Balanced, Members, SetOf, Count, Settled;
    outcome := CalculateSubnetworkAssignations(TWO_NODES, TWICE_THREE, 1);
    assert outcome.Assigned?;
    ShrinkingLeavesEnough(TWO_NODES, TWICE_THREE, 1, outcome.subnets);
  }

  lemma TwiceThree()
    ensures Members(TWICE_THREE) == {1, 2, 3} && |Members(TWICE_THREE)| == 3
    ensures SetOf(TWO_NODES) == {1, 2} && |SetOf(TWO_NODES)| == 2
    ensures Active(TWICE_THREE, SetOf(TWO_NODES)) == TWICE_TWO && Balanced(TWICE_TWO)
    ensures forall subnet :: subnet in TWICE_TWO ==> |subnet| == 2
  {
    hide Balanced;
    TwoAndThree();
    ActiveOfTwo();
    var two: set<Id> := {1, 2};
    assert TWICE_TWO == [two, two] && |two| == 2;
    BalancedTwice(two);
  }

  lemma BalancedTwice(nodes: set<Id>)
    ensures Balanced([nodes, nodes])
  {
  }

  lemma TwoAndThree()
    ensures Members(TWICE_THREE) == {1, 2, 3} && |Members(TWICE_THREE)| == 3
    ensures SetOf(TWO_NODES) == {1, 2} && |SetOf(TWO_NODES)| == 2
  {
    var previous, nodes := TWICE_THREE, TWO_NODES;
    assert 1 in previous[0] && 2 in previous[0] && 3 in previous[0];
    assert nodes[0] == 1 && nodes[1] == 2;
  }

  lemma ActiveOfTwo()
    ensures Active(TWICE_THREE, {1, 2}) == TWICE_TWO
  {
    var two: set<Id>, three: set<Id> := {1, 2}, {1, 2, 3};
    assert three * two == two;
    assert TWICE_THREE == [three, three];
  }

  lemma TwiceThreeCounts()
    ensures forall id :: id in TWO_NODES ==> Count(id, TWICE_THREE) == 2
  {
    var previous := TWICE_THREE;
    assert previous[1..] == [{1, 2, 3}];
    forall id | id in TWO_NODES
      ensures Count(id, TWICE_THREE) == 2
    {
      CountBound(id, TWICE_THREE);
    }
  }

  const FOUR_NODES: seq<Id> := [1, 2, 3, 4]
  const UNEVEN: seq<set<Id>> := [{1, 2, 3}, {4}]

  /** The spread of at most one that the repository's tests expect does not hold for a network
      that does not shrink: this input is returned unchanged, with sizes 3 and 1. It needs four
      places, and the brim one below its largest size is five. */
  method GrowingNetworkStaysUneven() returns (outcome: Outcome)
    ensures outcome == Assigned(UNEVEN) && !Balanced(UNEVEN)
  {
    UnevenSets();
    UnevenSizes();
    UnevenIsSettled();
    hide Settled, Active, Promised, Balanced, Members, SetOf;
    outcome := CalculateSubnetworkAssignations(FOUR_NODES, UNEVEN, 1);
  }

  lemma UnevenSets()
    ensures SetOf(FOUR_NODES) == {1, 2, 3, 4} == Members(UNEVEN) && |SetOf(FOUR_NODES)| == 4
    ensures Active(UNEVEN, SetOf(FOUR_NODES)) == UNEVEN
  {
    var newNodes, previous := FOUR_NODES, UNEVEN;
    assert newNodes[0] == 1 && newNodes[1] == 2 && newNodes[2] == 3 && newNodes[3] == 4;
    assert 4 in previous[1] && 1 in previous[0] && 2 in previous[0] && 3 in previous[0];
    assert previous[0] * {1, 2, 3, 4} == previous[0] && previous[1] * {1, 2, 3, 4} == previous[1];
  }

  lemma UnevenIsSettled()
    ensures Settled(FOUR_NODES, UNEVEN, 1)
  {
    UnevenSets();
    UnevenAtAverage();
    assert Average(|UNEVEN|, 1, |FOUR_NODES|) == 1;
    hide Active, Members, SetOf, Balanced, Average, AtAverage;
  }

  lemma UnevenAtAverage()
    ensures AtAverage(UNEVEN, {1, 2, 3, 4}, 1, 1)
  {
  }

  lemma UnevenSizes()
    ensures !Balanced(UNEVEN) && |UNEVEN[0]| == 3 && |UNEVEN[1]| == 1
  {
    var previous := UNEVEN;
    assert |previous[0]| == 3 && |previous[1]| == 1;
  }
}
