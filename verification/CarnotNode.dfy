/** The Carnot node of deprecated/carnot/carnot.py: an object that its methods update in place. */
module CarnotNodes {
  import opened Collections
  import opened C = CarnotState

  /** `blocks_in_view` */
  method BlocksInView(safe: Blocks, view: View) returns (blocks: seq<Block>)
    ensures forall b :: b in blocks <==> exists id :: id in safe && safe[id] == b && b.view == view
  {
    blocks := [];
    var rest := safe.Keys;
    while rest != {}
      invariant rest <= safe.Keys
      invariant forall b :: b in blocks <==> exists id :: id in safe && id !in rest && safe[id] == b && b.view == view
      decreases rest
    {
      var id :| id in rest;
      ghost var before, seen := rest, blocks;
      rest := rest - {id};
      if safe[id].view == view {
        blocks := blocks + [safe[id]];
      }
      forall b
        ensures b in blocks <==> exists i :: i in safe && i !in rest && safe[i] == b && b.view == view
      {
        assert b in blocks <==> b in seen || (b == safe[id] && b.view == view);
      }
    }
  }

  /** The highest committing view is the one above which none commits. */
  lemma HighestIs(safe: Blocks, bound: View, v: View)
    requires 0 <= v && (v == 0 || (v <= bound && Commits(safe, v)))
    requires forall w :: v < w <= bound ==> !Commits(safe, w)
    ensures HighestCommitting(safe, bound) == v
  {
  }

  /** A held block above view 0 extends a held parent. */
  lemma HeldExtends(g: Block, safe: Blocks, b: Block)
    requires Tree(g, safe) && b.id in safe && safe[b.id] == b && b.view > 0
    ensures Extends(safe, b)
  {
  }

  /** The grandparent that a block of this view commits, if there is one. */
  method CommittedIn(safe: Blocks, view: View, ghost g: Block) returns (c: Option<Block>)
    requires Tree(g, safe) && view > 0
    ensures c.None? <==> !Commits(safe, view)
    ensures c.Some? ==> c.value.id in safe && safe[c.value.id] == c.value && c.value.view == view - 2
  {
    var blocks := BlocksInView(safe, view);
    for i := 0 to |blocks|
      invariant forall j :: 0 <= j < i ==> !(blocks[j].Parent() in safe && CanCommitGrandparent(safe, blocks[j]))
    {
      assert blocks[i] in blocks;
      HeldExtends(g, safe, blocks[i]);
      if CanCommitGrandparent(safe, blocks[i]) {
        CommitsTwoBelow(g, safe, blocks[i]);
        return Some(safe[safe[blocks[i].Parent()].Parent()]);
      }
    }
    assert forall id :: id in safe && safe[id].view == view ==> safe[id] in blocks;
    return None;
  }

  /** `genesis_block`: the first block of view 0. */
  method GenesisOf(safe: Blocks, ghost g: Block) returns (c: Block)
    requires Tree(g, safe)
    ensures c == g && c.id in safe && safe[c.id] == c && c.view == 0
  {
    hide Extends;
    var blocks := BlocksInView(safe, 0);
    assert g in blocks;
    assert blocks[0] in blocks;
    return blocks[0];
  }

  /** x is b or a held ancestor of it, and not the genesis block. */
  ghost predicate AboveGenesis(g: Block, safe: Blocks, x: Id, b: Id)
    requires Tree(g, safe) && b in safe
  {
    x in safe && x != g.id && Ancestor(g, safe, x, b)
  }

  lemma AboveParent(g: Block, safe: Blocks, b: Id)
    requires Tree(g, safe) && b in safe
    ensures b == g.id ==> forall x :: !AboveGenesis(g, safe, x, b)
    ensures b != g.id ==> safe[b].Parent() in safe
    ensures b != g.id ==>
      forall x :: AboveGenesis(g, safe, x, b) <==> x == b || AboveGenesis(g, safe, x, safe[b].Parent())
  {
  }

  /** The keys of the dictionary of `committed_blocks`. */
  datatype ListKey = UnderId(id: Id) | TheMethodId

  class Carnot {
    const id: Id
    const overlay: Overlay
    var currentView: View
    var highestVotedView: View
    var localHighQc: Option<StandardQc>
    var safeBlocks: Blocks
    var lastViewTimeoutQc: Option<TimeoutQc>

    function View(): Node
      reads this
    {
      Node(currentView, highestVotedView, localHighQc, safeBlocks, lastViewTimeoutQc)
    }

    constructor (id: Id, overlay: Overlay)
      ensures View() == Node(0, -1, None, map[], None) && this.id == id && this.overlay == overlay
    {
      this.id := id;
      this.overlay := overlay;
      currentView := 0;
      highestVotedView := -1;
      localHighQc := None;
      safeBlocks := map[];
      lastViewTimeoutQc := None;
    }

    /** A new node is given the genesis block: from here on the theorems about runs apply. */
    method AddGenesis(g: Block)
      requires g.view == 0 && View() == Node(0, -1, None, map[], None)
      modifies this`safeBlocks
      ensures Fresh(g, View()) && Tree(g, safeBlocks)
    {
      safeBlocks := safeBlocks[g.id := g];
      FreshTree(g, View());
    }

    /** A new node may also start from the certificate of the genesis block, in view 1. */
    method FollowGenesis(g: Block)
      requires Fresh(g, View()) && g.qc.Standard?
      modifies this`localHighQc, this`currentView
      ensures Fresh(g, View()) && currentView == 1 && localHighQc == Some(g.qc.qc)
    {
      localHighQc := Some(g.qc.qc);
      currentView := 1;
    }

    /** `latest_committed_block` */
    method LatestCommittedBlock(ghost g: Block) returns (c: Block)
      requires Tree(g, safeBlocks)
      ensures LatestCommitted(View(), c)
    {
      hide Tree, Commits;
      var view := currentView;
      while view > 0
        invariant forall w :: view < w <= currentView && 0 < w ==> !Commits(safeBlocks, w)
        invariant view <= Max(0, currentView)
      {
        var found := CommittedIn(safeBlocks, view, g);
        if found.Some? {
          HighestIs(safeBlocks, currentView, view);
          return found.value;
        }
        view := view - 1;
      }
      HighestIs(safeBlocks, currentView, 0);
      c := GenesisOf(safeBlocks, g);
    }

    method LatestCommittedView(ghost g: Block) returns (view: View)
      requires Tree(g, safeBlocks)
      ensures view == CommittedView(View())
    {
      var c := LatestCommittedBlock(g);
      view := c.view;
    }

    /** `update_high_qc`; `high_qc` asserts that an aggregate is valid. */
    method UpdateHighQc(qc: Qc)
      requires qc.Valid()
      modifies this`localHighQc, this`currentView
      ensures View() == C.UpdateHighQc(old(View()), qc)
    {
      match localHighQc {
        case None =>
          localHighQc := Some(qc.HighQc());
        case Some(oldQc) =>
          match qc {
            case Standard(newQc) =>
              if newQc.view > oldQc.view {
                localHighQc := Some(newQc);
              }
            case Aggregate(_, newQc, _) =>
              if newQc.view != oldQc.view {
                localHighQc := Some(newQc);
              }
          }
      }
      if qc.View() == currentView {
        currentView := currentView + 1;
      }
    }

    method UpdateTimeoutQc(t: TimeoutQc)
      modifies this`lastViewTimeoutQc
      ensures View() == C.UpdateTimeoutQc(old(View()), t)
    {
      match lastViewTimeoutQc {
        case None =>
          lastViewTimeoutQc := Some(t);
        case Some(last) =>
          if t.view > last.view {
            lastViewTimeoutQc := Some(t);
          }
      }
    }

    /** `receive_block`, which asserts that the parent is held. */
    method ReceiveBlock(b: Block, ghost g: Block)
      requires Tree(g, safeBlocks) && b.qc.Valid() && b.Parent() in safeBlocks
      modifies this
      ensures View() == C.ReceiveBlock(old(View()), b)
      ensures old(WellFormed(safeBlocks, b)) ==> Tree(g, safeBlocks) && Within(old(safeBlocks), safeBlocks)
    {
      hide Tree, WellFormed, CommittedView;
      ghost var before := View();
      if WellFormed(safeBlocks, b) {
        ReceiveBlockTree(g, before, b);
      }
      if b.id in safeBlocks {
        return;
      }
      var blocks := BlocksInView(safeBlocks, b.view);
      var committed := LatestCommittedView(g);
      if blocks != [] {
        assert blocks[0] in blocks;
        return;
      }
      assert !ViewTaken(safeBlocks, b.view) by {
        assert forall id :: id in safeBlocks && safeBlocks[id].view == b.view ==> safeBlocks[id] in blocks;
      }
      if b.view <= committed {
        return;
      }
      if BlockIsSafe(View(), b) {
        safeBlocks := safeBlocks[b.id := b];
        UpdateHighQc(b.qc);
      }
    }

    /** `approve_block`: the vote it returns, and the view it may no longer vote in. */
    method ApproveBlock(b: Block, votes: seq<Vote>) returns (m: Message)
      requires MayApprove(overlay, id, View(), b, votes)
      modifies this`highestVotedView
      ensures View() == C.ApproveBlock(old(View()), b) && highestVotedView == b.view
      ensures m == VoteFor(overlay, id, b)
      ensures m.payload.BlockVote? && m.payload.vote.block == b.id && m.payload.vote.view == b.view
      ensures m.payload.vote.voter == id
      ensures m.payload.vote.qc == if overlay.isRoot(id) then Some(Standard(StandardQc(b.id, b.view))) else None
      ensures m.to == if overlay.isRoot(id) then ToNode(overlay.leader(b.view + 1))
                      else ToCommittee(overlay.parentCommittee(id))
    {
      var qc := if overlay.isRoot(id) then Some(Standard(StandardQc(b.id, b.view))) else None;
      var vote := Vote(b.id, b.view, id, qc);
      highestVotedView := Max(highestVotedView, b.view);
      if overlay.isRoot(id) {
        return Send(ToNode(overlay.leader(b.view + 1)), BlockVote(vote));
      }
      return Send(ToCommittee(overlay.parentCommittee(id)), BlockVote(vote));
    }

    /** `approve_new_view` */
    method ApproveNewView(t: TimeoutQc, newViews: seq<NewView>) returns (m: Message)
      requires MayApproveNewViews(overlay, id, View(), t, newViews)
      modifies this
      ensures View() == C.ApproveNewView(old(View()), t, newViews)
      ensures localHighQc.Some? && m == NewViewFor(overlay, id, View(), t)
      ensures m.payload.ViewChange? && m.payload.newView.view == t.view + 1 && m.payload.newView.timeoutQc == t
      ensures m.payload.newView.sender == id && m.payload.newView.highQc == Standard(localHighQc.value)
      ensures m.to == ToCommittee(if overlay.isRoot(id) then Some({overlay.nextLeader})
                                  else overlay.parentCommittee(id))
      ensures highestVotedView == t.view + 1
    {
      var view := t.view + 1;
      UpdateHighQc(HighestQc(t.highQc, newViews));
      var newView := NewView(view, Standard(localHighQc.value), id, t);
      highestVotedView := Max(highestVotedView, view);
      if overlay.isRoot(id) {
        return Send(ToCommittee(Some({overlay.nextLeader})), ViewChange(newView));
      }
      return Send(ToCommittee(overlay.parentCommittee(id)), ViewChange(newView));
    }

    /** `local_timeout` */
    method LocalTimeout() returns (m: Option<Message>)
      modifies this`highestVotedView
      ensures View() == C.LocalTimeout(old(View()))
      ensures m == TimeoutMessage(overlay, id, old(View()))
      ensures m.Some? <==> overlay.isRoot(id) || overlay.isChildOfRoot(id)
      ensures m.Some? ==>
        && m.value.payload.LocalTimedOut? && m.value.payload.timeout.view == currentView == highestVotedView
        && m.value.payload.timeout.highQc == localHighQc && m.value.payload.timeout.timeoutQc == lastViewTimeoutQc
        && m.value.payload.timeout.sender == id && m.value.to == ToCommittee(Some(overlay.rootCommittee))
    {
      highestVotedView := currentView;
      if overlay.isRoot(id) || overlay.isChildOfRoot(id) {
        var timeout := Timeout(currentView, localHighQc, id, lastViewTimeoutQc);
        return Some(Send(ToCommittee(Some(overlay.rootCommittee)), LocalTimedOut(timeout)));
      }
      return None;
    }

    /** `receive_timeout_qc` */
    method ReceiveTimeoutQc(t: TimeoutQc)
      requires t.view >= currentView ==> t.highQc.Valid()
      modifies this
      ensures View() == C.ReceiveTimeoutQc(old(View()), t)
    {
      if t.view < currentView {
        return;
      }
      UpdateHighQc(t.highQc);
      UpdateTimeoutQc(t);
      currentView := t.view + 1;
    }

    /** `committed_blocks`: the ancestors of the latest committed block above view 0, each under
        its id. The genesis block is listed under the method `id` itself, and under its own id
        only while it is the latest committed block. */
    method CommittedBlocks(ghost g: Block) returns (listed: map<ListKey, Block>)
      requires Tree(g, safeBlocks)
      ensures TheMethodId in listed && listed[TheMethodId] == g
      ensures exists c :: LatestCommitted(View(), c) && forall x :: UnderId(x) in listed <==>
        x == c.id || AboveGenesis(g, safeBlocks, x, c.id)
      ensures forall x :: UnderId(x) in listed ==> x in safeBlocks && listed[UnderId(x)] == safeBlocks[x]
    {
      var tip := LatestCommittedBlock(g);
      var genesis := GenesisOf(safeBlocks, g);
      ghost var latest := tip;
      listed := map[UnderId(tip.id) := tip, TheMethodId := genesis];
      while tip.view > 0
        invariant tip.id in safeBlocks && safeBlocks[tip.id] == tip
        invariant TheMethodId in listed && listed[TheMethodId] == g
        invariant forall x :: UnderId(x) in listed ==> x in safeBlocks && listed[UnderId(x)] == safeBlocks[x]
        invariant forall x :: UnderId(x) in listed || AboveGenesis(g, safeBlocks, x, tip.id) <==>
          x == latest.id || AboveGenesis(g, safeBlocks, x, latest.id)
        decreases tip.view
      {
        HeldExtends(g, safeBlocks, tip);
        AboveParent(g, safeBlocks, tip.id);
        listed := listed[UnderId(tip.id) := tip];
        tip := safeBlocks[tip.Parent()];
      }
      TreeViews(g, safeBlocks, tip.id);
      AboveParent(g, safeBlocks, tip.id);
    }
  }
}
