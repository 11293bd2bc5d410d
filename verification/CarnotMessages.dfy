/** The messages of one Carnot node against what the nodes that receive them assert. */
module CarnotMessages {
  import opened Collections
  import opened CarnotState

  /** The votes that nodes send when they approve a block. */
  function VotesOf(o: Overlay, nodes: seq<Id>, b: Block): (r: seq<Vote>)
    ensures |r| == |nodes|
  {
    seq(|nodes|, i requires 0 <= i < |nodes| => VoteFor(o, nodes[i], b).payload.vote)
  }

  /** The votes of enough children that approved a block let their parent approve it. */
  lemma ChildVotesCount(o: Overlay, parent: Id, s: Node, b: Block, children: seq<Id>)
    requires b.id in s.safeBlocks && s.highestVotedView < b.view
    requires |children| == o.threshold(parent) && forall c :: c in children ==> o.isChild(parent, c)
    ensures MayApprove(o, parent, s, b, VotesOf(o, children, b))
    ensures forall i :: 0 <= i < |children| ==>
      var vote := VotesOf(o, children, b)[i];
      vote.block == b.id && vote.view == b.view && vote.voter == children[i] && o.isChild(parent, vote.voter)
  {
    var votes := VotesOf(o, children, b);
    forall v | v in votes
      ensures o.isChild(parent, v.voter) && v.block == b.id
    {
      var i :| 0 <= i < |votes| && votes[i] == v;
      assert children[i] in children;
    }
  }

  /** A root member's vote goes to the leader of the next view. A new block of that view on the
      vote's certificate is a child of the approved block, and every node that holds that block, is
      not past the next view and holds no block of it yet takes the child up: it holds it, is in the
      next view or already was, and has a high certificate for the approved block's view or higher. */
  lemma RootVoteCertifies(o: Overlay, self: Id, g: Block, s: Node, b: Block, child: Block)
    requires o.isRoot(self) && Tree(g, s.safeBlocks) && b.id in s.safeBlocks && s.safeBlocks[b.id] == b
    requires VoteFor(o, self, b).payload.vote.qc == Some(child.qc) && child.view == b.view + 1
    ensures VoteFor(o, self, b).to == ToNode(o.leader(child.view))
    ensures child.Parent() == b.id && WellFormed(s.safeBlocks, child) && child.qc.View() == b.view
    ensures s.currentView <= child.view && child.id !in s.safeBlocks && !ViewTaken(s.safeBlocks, child.view) ==>
      var r := ReceiveBlock(s, child);
      && r.safeBlocks == s.safeBlocks[child.id := child]
      && r.currentView == (if s.currentView == b.view then child.view else s.currentView)
      && r.localHighQc.Some? && r.localHighQc.value.view >= b.view
  {
    hide CommittedView, Tree;
    ReceiveBlockExact(g, s, child);
  }

  /** The certificates of a timeout certificate and the new views: the timeout's comes first. */
  function Candidates(first: Qc, msgs: seq<NewView>): (r: seq<Qc>)
    ensures |r| == |msgs| + 1 && r[0] == first && forall i :: 0 <= i < |msgs| ==> r[i + 1] == msgs[i].highQc
  {
    [first] + seq(|msgs|, i requires 0 <= i < |msgs| => msgs[i].highQc)
  }

  lemma CandidatesPrefix(first: Qc, msgs: seq<NewView>, n: nat)
    requires n < |msgs|
    ensures forall q :: 0 <= q <= n ==> Candidates(first, msgs)[q] == Candidates(first, msgs[..n])[q]
  {
  }

  /** The certificate that a new view takes up is the first of the candidates with the highest view. */
  lemma {:induction false} HighestQcIsFirstMax(first: Qc, msgs: seq<NewView>) returns (p: nat)
    ensures p <= |msgs| && HighestQc(first, msgs) == Candidates(first, msgs)[p]
    ensures forall q :: 0 <= q < p ==> Candidates(first, msgs)[q].View() < HighestQc(first, msgs).View()
    ensures forall q :: p <= q <= |msgs| ==> Candidates(first, msgs)[q].View() <= HighestQc(first, msgs).View()
  {
    if msgs == [] {
      p := 0;
    } else {
      var n := |msgs| - 1;
      p := HighestQcIsFirstMax(first, msgs[..n]);
      CandidatesPrefix(first, msgs, n);
      hide Candidates, Qc.View;
      if msgs[n].highQc.View() > HighestQc(first, msgs[..n]).View() {
        p := |msgs|;
      }
    }
  }

  /** The new views that nodes send when they approve the view after a timeout. */
  function NewViewsOf(o: Overlay, nodes: seq<Id>, states: seq<Node>, t: TimeoutQc): (r: seq<NewView>)
    requires |states| == |nodes| && forall s :: s in states ==> s.localHighQc.Some?
    ensures |r| == |nodes|
  {
    seq(|nodes|, i requires 0 <= i < |nodes| => NewViewFor(o, nodes[i], states[i], t).payload.newView)
  }

  /** The new views of enough children, after the same timeout certificate, let their parent approve
      the view, unless it already holds a later timeout certificate. */
  lemma ChildNewViewsCount(o: Overlay, parent: Id, s: Node, t: TimeoutQc, children: seq<Id>, states: seq<Node>)
    requires |states| == |children| && forall c :: c in states ==> c.localHighQc.Some?
    requires |children| == o.threshold(parent) && forall c :: c in children ==> o.isChild(parent, c)
    requires s.lastViewTimeoutQc.Some? ==> s.lastViewTimeoutQc.value.view <= t.view
    requires s.highestVotedView <= t.view && t.highQc.Valid()
    ensures MayApproveNewViews(o, parent, s, t, NewViewsOf(o, children, states, t))
    ensures forall i :: 0 <= i < |children| ==>
      var n := NewViewsOf(o, children, states, t)[i];
      && n.view == t.view + 1 && n.timeoutQc == t && n.sender == children[i] && o.isChild(parent, n.sender)
      && n.highQc == Standard(states[i].localHighQc.value)
      && (s.lastViewTimeoutQc.Some? ==> n.view > s.lastViewTimeoutQc.value.view)
  {
    hide HighestQc, Qc.View;
    var msgs := NewViewsOf(o, children, states, t);
    forall n | n in msgs
      ensures n.timeoutQc.view == t.view && o.isChild(parent, n.sender) && n.view == t.view + 1 && n.highQc.Valid()
    {
      var i :| 0 <= i < |msgs| && msgs[i] == n;
      assert children[i] in children;
    }
    var p := HighestQcIsFirstMax(t.highQc, msgs);
    assert Candidates(t.highQc, msgs)[p].Valid() by {
      if p > 0 {
        assert msgs[p - 1] in msgs;
      }
    }
  }

  /** An approved new view carries a certificate at least as high as every candidate's where the
      highest candidate is a standard one. */
  lemma NewViewIsHigh(o: Overlay, self: Id, s: Node, t: TimeoutQc, newViews: seq<NewView>, q: nat)
    requires q <= |newViews| && HighestQc(t.highQc, newViews).Standard?
    ensures var r := ApproveNewView(s, t, newViews);
            && r.localHighQc.Some?
            && NewViewFor(o, self, r, t).payload.newView.highQc.View() >= Candidates(t.highQc, newViews)[q].View()
  {
    hide HighestQc, CommittedView, ViewTaken, Candidates, Qc.View;
    var p := HighestQcIsFirstMax(t.highQc, newViews);
    TakesUpHighest(o, self, s, t, newViews);
  }

  lemma TakesUpHighest(o: Overlay, self: Id, s: Node, t: TimeoutQc, newViews: seq<NewView>)
    requires HighestQc(t.highQc, newViews).Standard?
    ensures var r := ApproveNewView(s, t, newViews);
            && r.localHighQc.Some?
            && NewViewFor(o, self, r, t).payload.newView.highQc.View() >= HighestQc(t.highQc, newViews).View()
  {
    hide HighestQc;
  }
}
