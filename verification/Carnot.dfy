/** A Carnot node as a state machine on values, from deprecated/carnot/carnot.py. */
module CarnotState {
  import opened Collections

  type Id = nat
  type View = int

  datatype StandardQc = StandardQc(block: Id, view: View)

  datatype Qc =
    | Standard(qc: StandardQc)
    | Aggregate(qcs: seq<View>, highestQc: StandardQc, view: View)
  {
    function View(): View {
      if Standard? then qc.view else view
    }

    /** What `high_qc` asserts of an aggregate. */
    predicate Valid() {
      Aggregate? ==> highestQc.view in qcs && forall v :: v in qcs ==> v <= highestQc.view
    }

    function HighQc(): StandardQc {
      if Standard? then qc else highestQc
    }
  }

  datatype Block = Block(view: View, qc: Qc, id: Id) {
    function Parent(): Id {
      qc.HighQc().block
    }
  }

  datatype Vote = Vote(block: Id, view: View, voter: Id, qc: Option<Qc>)

  datatype TimeoutQc = TimeoutQc(view: View, highQc: Qc, qcViews: seq<View>, senderIds: set<Id>, sender: Id)

  datatype Timeout = Timeout(view: View, highQc: Option<StandardQc>, sender: Id, timeoutQc: Option<TimeoutQc>)

  datatype NewView = NewView(view: View, highQc: Qc, sender: Id, timeoutQc: TimeoutQc)

  datatype Payload = BlockVote(vote: Vote) | LocalTimedOut(timeout: Timeout) | ViewChange(newView: NewView)

  datatype Target = ToNode(node: Id) | ToCommittee(committee: Option<set<Id>>)

  datatype Message = Send(to: Target, payload: Payload)

  /** The questions a node asks its overlay. */
  datatype Overlay = Overlay(
    leader: View -> Id, nextLeader: Id, rootCommittee: set<Id>, parentCommittee: Id -> Option<set<Id>>,
    isRoot: Id -> bool, isChildOfRoot: Id -> bool, isChild: (Id, Id) -> bool, threshold: Id -> int)

  type Blocks = map<Id, Block>

  datatype Node = Node(
    currentView: View, highestVotedView: View, localHighQc: Option<StandardQc>, safeBlocks: Blocks,
    lastViewTimeoutQc: Option<TimeoutQc>)

  /** `can_commit_grandparent`, where the parent is held. */
  predicate CanCommitGrandparent(safe: Blocks, b: Block)
    requires b.Parent() in safe
  {
    var parent := safe[b.Parent()];
    && parent.Parent() in safe
    && parent.view == safe[parent.Parent()].view + 1
    && b.qc.Standard?
    && parent.qc.Standard?
  }

  /** Some held block of this view commits its grandparent. */
  ghost predicate Commits(safe: Blocks, view: View) {
    exists id ::
      id in safe && safe[id].view == view && safe[id].Parent() in safe && CanCommitGrandparent(safe, safe[id])
  }

  /** The highest view up to a bound that commits a grandparent, or 0. */
  ghost function HighestCommitting(safe: Blocks, bound: View): View
    decreases bound
  {
    if bound <= 0 then 0 else if Commits(safe, bound) then bound else HighestCommitting(safe, bound - 1)
  }

  /** The view of the latest committed block, in closed form: two below the highest view up to
      the current one that commits a grandparent, else that of the genesis block. */
  ghost function CommittedView(s: Node): View {
    var v := HighestCommitting(s.safeBlocks, s.currentView);
    if v == 0 then 0 else v - 2
  }

  predicate BlockIsSafe(s: Node, b: Block) {
    b.view >= s.currentView && b.view == b.qc.View() + 1
  }

  function UpdatedHighQc(local: Option<StandardQc>, qc: Qc): Option<StandardQc> {
    match local
    case None => Some(qc.HighQc())
    case Some(o) =>
      if qc.Standard? && qc.qc.view > o.view then Some(qc.qc)
      else if qc.Aggregate? && qc.highestQc.view != o.view then Some(qc.highestQc)
      else local
  }

  function UpdateHighQc(s: Node, qc: Qc): Node {
    s.(localHighQc := UpdatedHighQc(s.localHighQc, qc),
       currentView := if qc.View() == s.currentView then s.currentView + 1 else s.currentView)
  }

  function UpdateTimeoutQc(s: Node, t: TimeoutQc): Node {
    if s.lastViewTimeoutQc.None? || t.view > s.lastViewTimeoutQc.value.view then s.(lastViewTimeoutQc := Some(t)) else s
  }

  ghost predicate ViewTaken(safe: Blocks, view: View) {
    exists id :: id in safe && safe[id].view == view
  }

  ghost function ReceiveBlock(s: Node, b: Block): Node {
    if b.id in s.safeBlocks then s
    else if ViewTaken(s.safeBlocks, b.view) || b.view <= CommittedView(s) then s
    else if BlockIsSafe(s, b) then UpdateHighQc(s.(safeBlocks := s.safeBlocks[b.id := b]), b.qc)
    else s
  }

  function ApproveBlock(s: Node, b: Block): Node {
    s.(highestVotedView := Max(s.highestVotedView, b.view))
  }

  function VoteFor(o: Overlay, self: Id, b: Block): Message {
    var vote := Vote(b.id, b.view, self, if o.isRoot(self) then Some(Standard(StandardQc(b.id, b.view))) else None);
    Send(if o.isRoot(self) then ToNode(o.leader(b.view + 1)) else ToCommittee(o.parentCommittee(self)), BlockVote(vote))
  }

  function LocalTimeout(s: Node): Node {
    s.(highestVotedView := s.currentView)
  }

  function TimeoutMessage(o: Overlay, self: Id, s: Node): Option<Message> {
    if o.isRoot(self) || o.isChildOfRoot(self) then
      Some(Send(ToCommittee(Some(o.rootCommittee)),
                LocalTimedOut(Timeout(s.currentView, s.localHighQc, self, s.lastViewTimeoutQc))))
    else None
  }

  /** max by view over a certificate and those of the messages; the first of the highest wins. */
  function HighestQc(first: Qc, msgs: seq<NewView>): Qc {
    if msgs == [] then first
    else
      var best := HighestQc(first, msgs[..|msgs| - 1]);
      if msgs[|msgs| - 1].highQc.View() > best.View() then msgs[|msgs| - 1].highQc else best
  }

  function ApproveNewView(s: Node, t: TimeoutQc, newViews: seq<NewView>): Node {
    var r := UpdateHighQc(s, HighestQc(t.highQc, newViews));
    r.(highestVotedView := Max(s.highestVotedView, t.view + 1))
  }

  /** The message of `approve_new_view`, sent from the state it leaves behind. */
  function NewViewFor(o: Overlay, self: Id, s: Node, t: TimeoutQc): Message
    requires s.localHighQc.Some?
  {
    Send(ToCommittee(if o.isRoot(self) then Some({o.nextLeader}) else o.parentCommittee(self)),
         ViewChange(NewView(t.view + 1, Standard(s.localHighQc.value), self, t)))
  }

  function ReceiveTimeoutQc(s: Node, t: TimeoutQc): Node {
    if t.view < s.currentView then s
    else UpdateTimeoutQc(UpdateHighQc(s, t.highQc), t).(currentView := t.view + 1)
  }

  /** A well-formed certificate: its view is the view of the block it certifies, and an aggregate
      carries a certificate older than the block that carries it. */
  ghost predicate WellFormed(safe: Blocks, b: Block) {
    && b.qc.Valid()
    && b.Parent() in safe
    && safe[b.Parent()].view == b.qc.HighQc().view
    && (b.qc.Aggregate? ==> b.qc.highestQc.view < b.view)
  }

  /** One view above its certificate and above its parent, which is held. */
  ghost predicate Extends(safe: Blocks, b: Block) {
    WellFormed(safe, b) && b.view == b.qc.View() + 1 && 0 <= safe[b.Parent()].view < b.view
  }

  ghost predicate OnePerView(safe: Blocks) {
    forall a, b :: a in safe && b in safe && safe[a].view == safe[b].view ==> a == b
  }

  /** What the held blocks always satisfy: each but the genesis block extends a held block, and no
      two share a view. */
  ghost predicate Tree(g: Block, safe: Blocks) {
    && g.view == 0 && g.id in safe && safe[g.id] == g
    && (forall id :: id in safe ==> safe[id].id == id && (id != g.id ==> Extends(safe, safe[id])))
    && OnePerView(safe)
  }

  /** A node that has just been given the genesis block. */
  ghost predicate Fresh(g: Block, s: Node) {
    && g.view == 0 && s.safeBlocks == map[g.id := g]
    && 0 <= s.currentView <= 1 && s.highestVotedView == -1 && s.lastViewTimeoutQc == None
    && (s.localHighQc == None || s.localHighQc == Some(g.qc.HighQc()))
  }

  lemma FreshTree(g: Block, s: Node)
    requires Fresh(g, s)
    ensures Tree(g, s.safeBlocks)
  {
  }

  lemma TreeViews(g: Block, safe: Blocks, id: Id)
    requires Tree(g, safe) && id in safe
    ensures safe[id].view >= 0 && (id != g.id ==> safe[id].view > 0)
  {
  }

  /** The held blocks of one node are among those of another. */
  ghost predicate Within(safe: Blocks, other: Blocks) {
    forall id :: id in safe ==> id in other && other[id] == safe[id]
  }

  lemma WithinSelf(a: Blocks)
    ensures Within(a, a)
  {
  }

  lemma WithinTransitive(a: Blocks, b: Blocks, c: Blocks)
    requires Within(a, b) && Within(b, c)
    ensures Within(a, c)
  {
  }

  /** Receiving a well-formed block keeps the tree and drops no block. */
  lemma ReceiveBlockTree(g: Block, s: Node, b: Block)
    requires Tree(g, s.safeBlocks) && WellFormed(s.safeBlocks, b)
    ensures Tree(g, ReceiveBlock(s, b).safeBlocks) && Within(s.safeBlocks, ReceiveBlock(s, b).safeBlocks)
  {
  }

  /** A block that commits its grandparent lies exactly two views above it, and never at or
      below view 1. */
  lemma CommitsTwoBelow(g: Block, safe: Blocks, b: Block)
    requires Tree(g, safe) && b.id in safe && safe[b.id] == b && b.view > 0 && CanCommitGrandparent(safe, b)
    ensures safe[safe[b.Parent()].Parent()].view == b.view - 2 && b.view >= 2
  {
  }

  /** A held block commits its grandparent exactly when both it and its parent carry standard
      certificates and the parent is not the genesis block: the views then follow each other. */
  lemma CommitsExactly(g: Block, safe: Blocks, b: Block)
    requires Tree(g, safe) && b.id in safe && safe[b.id] == b && b.id != g.id
    ensures b.Parent() in safe
    ensures CanCommitGrandparent(safe, b) <==>
      b.Parent() != g.id && b.qc.Standard? && safe[b.Parent()].qc.Standard?
    ensures CanCommitGrandparent(safe, b) ==>
      && safe[b.Parent()].Parent() in safe
      && b.qc == Standard(StandardQc(b.Parent(), b.view - 1))
      && safe[b.Parent()].qc == Standard(StandardQc(safe[b.Parent()].Parent(), b.view - 2))
  {
    TreeViews(g, safe, b.Parent());
    if safe[b.Parent()].Parent() in safe {
      TreeViews(g, safe, safe[b.Parent()].Parent());
    }
  }

  lemma {:induction false} HighestCommittingFacts(safe: Blocks, bound: View)
    ensures var v := HighestCommitting(safe, bound);
            && (v == 0 || (0 < v <= bound && Commits(safe, v)))
            && forall w :: v < w <= bound ==> !Commits(safe, w)
    decreases bound
  {
    if bound > 0 && !Commits(safe, bound) {
      HighestCommittingFacts(safe, bound - 1);
    }
  }

  /** More held blocks and a higher current view commit at least as much. */
  lemma CommittedViewGrows(g: Block, s: Node, r: Node)
    requires Tree(g, s.safeBlocks) && Tree(g, r.safeBlocks) && s.currentView <= r.currentView
    requires Within(s.safeBlocks, r.safeBlocks)
    ensures CommittedView(s) <= CommittedView(r)
  {
    var v, w := HighestCommitting(s.safeBlocks, s.currentView), HighestCommitting(r.safeBlocks, r.currentView);
    HighestCommittingFacts(s.safeBlocks, s.currentView);
    HighestCommittingFacts(r.safeBlocks, r.currentView);
    if v > 0 {
      var id :| id in s.safeBlocks && s.safeBlocks[id].view == v && s.safeBlocks[id].Parent() in s.safeBlocks
                && CanCommitGrandparent(s.safeBlocks, s.safeBlocks[id]);
      assert r.safeBlocks[id] == s.safeBlocks[id];
      assert CanCommitGrandparent(r.safeBlocks, r.safeBlocks[id]);
      assert Commits(r.safeBlocks, v);
      assert v <= w;
    } else if w > 0 {
      CommittingIsHigh(g, r.safeBlocks, w);
    }
  }

  lemma CommittingIsHigh(g: Block, safe: Blocks, v: View)
    requires Tree(g, safe) && v > 0 && Commits(safe, v)
    ensures v >= 2
  {
  }

  /** The view of the latest committed block is far enough below the current view, or 0. */
  lemma CommittedViewBelow(g: Block, s: Node)
    requires Tree(g, s.safeBlocks)
    ensures 0 <= CommittedView(s)
    ensures CommittedView(s) == 0 || CommittedView(s) <= s.currentView - 2
  {
    var v := HighestCommitting(s.safeBlocks, s.currentView);
    HighestCommittingFacts(s.safeBlocks, s.currentView);
    if v > 0 {
      CommittingIsHigh(g, s.safeBlocks, v);
    }
  }

  /** The guards of `receive_block`. */
  ghost predicate Admits(s: Node, b: Block) {
    && b.id !in s.safeBlocks
    && !ViewTaken(s.safeBlocks, b.view) && b.view > CommittedView(s)
    && BlockIsSafe(s, b)
  }

  /** A new block is added exactly when its view is free, not below the current view and one above
      its certificate: the comparison with the latest committed view never decides. Whatever else
      it changes, it touches neither the voted view nor the timeout certificate. */
  lemma ReceiveBlockExact(g: Block, s: Node, b: Block)
    requires Tree(g, s.safeBlocks) && WellFormed(s.safeBlocks, b)
    ensures Admits(s, b) <==>
      && b.id !in s.safeBlocks && (forall id :: id in s.safeBlocks ==> s.safeBlocks[id].view != b.view)
      && b.view >= s.currentView && b.view == b.qc.View() + 1
    ensures var r := ReceiveBlock(s, b);
            && r.safeBlocks == (if Admits(s, b) then s.safeBlocks[b.id := b] else s.safeBlocks)
            && r.currentView == (if Admits(s, b) && b.view == s.currentView + 1 then b.view else s.currentView)
            && r.highestVotedView == s.highestVotedView && r.lastViewTimeoutQc == s.lastViewTimeoutQc
            && (!Admits(s, b) ==> r == s)
  {
    CommittedViewBelow(g, s);
    TreeViews(g, s.safeBlocks, b.Parent());
  }

  /** The latest committed block: the held block of the committed view. */
  ghost predicate LatestCommitted(s: Node, c: Block) {
    c.id in s.safeBlocks && s.safeBlocks[c.id] == c && c.view == CommittedView(s)
  }

  /** There is always exactly one, and it is the genesis block or the grandparent of a block two
      views above it, at most at the current view. */
  lemma LatestCommittedExists(g: Block, s: Node) returns (c: Block)
    requires Tree(g, s.safeBlocks)
    ensures LatestCommitted(s, c) && forall d :: LatestCommitted(s, d) ==> d == c
    ensures c == g || exists b ::
      && b in s.safeBlocks && s.safeBlocks[b].view == c.view + 2 <= s.currentView
      && s.safeBlocks[b].Parent() in s.safeBlocks && CanCommitGrandparent(s.safeBlocks, s.safeBlocks[b])
      && s.safeBlocks[s.safeBlocks[b].Parent()].Parent() == c.id
  {
    var safe, v := s.safeBlocks, HighestCommitting(s.safeBlocks, s.currentView);
    HighestCommittingFacts(safe, s.currentView);
    if v == 0 {
      c := g;
    } else {
      var b :| b in safe && safe[b].view == v && safe[b].Parent() in safe && CanCommitGrandparent(safe, safe[b]);
      CommitsTwoBelow(g, safe, safe[b]);
      c := safe[safe[safe[b].Parent()].Parent()];
    }
  }

  datatype Event =
    | Receive(block: Block)
    | Approve(block: Block, votes: seq<Vote>)
    | ApproveNewViews(timeoutQc: TimeoutQc, newViews: seq<NewView>)
    | TimeoutLocally
    | ReceiveTimeout(timeoutQc: TimeoutQc)

  /** What `approve_block` asserts. */
  predicate MayApprove(o: Overlay, self: Id, s: Node, b: Block, votes: seq<Vote>) {
    && b.id in s.safeBlocks
    && |votes| == o.threshold(self)
    && (forall v :: v in votes ==> o.isChild(self, v.voter) && v.block == b.id)
    && s.highestVotedView < b.view
  }

  /** What `approve_new_view` asserts. */
  predicate MayApproveNewViews(o: Overlay, self: Id, s: Node, t: TimeoutQc, newViews: seq<NewView>) {
    && (s.lastViewTimeoutQc.Some? ==> forall n :: n in newViews ==> n.view > s.lastViewTimeoutQc.value.view)
    && |newViews| == o.threshold(self)
    && (forall n :: n in newViews ==> n.timeoutQc.view == t.view && o.isChild(self, n.sender) && n.view == t.view + 1)
    && s.highestVotedView < t.view + 1
    && HighestQc(t.highQc, newViews).Valid()
  }

  /** A well-formed message, on which the node's assertions hold. An id determines its block. */
  ghost predicate Enabled(o: Overlay, self: Id, s: Node, e: Event) {
    match e
    case Receive(b) => WellFormed(s.safeBlocks, b)
    case Approve(b, votes) => MayApprove(o, self, s, b, votes) && s.safeBlocks[b.id] == b
    case ApproveNewViews(t, newViews) => MayApproveNewViews(o, self, s, t, newViews)
    case TimeoutLocally => true
    case ReceiveTimeout(t) => t.view >= s.currentView ==> t.highQc.Valid()
  }

  ghost function Step(s: Node, e: Event): Node {
    match e
    case Receive(b) => ReceiveBlock(s, b)
    case Approve(b, _) => ApproveBlock(s, b)
    case ApproveNewViews(t, newViews) => ApproveNewView(s, t, newViews)
    case TimeoutLocally => LocalTimeout(s)
    case ReceiveTimeout(t) => ReceiveTimeoutQc(s, t)
  }

  /** The state after the first i events of a run. */
  ghost function At(s: Node, events: seq<Event>, i: nat): Node
    requires i <= |events|
  {
    if i == 0 then s else Step(At(s, events, i - 1), events[i - 1])
  }

  ghost predicate Allowed(o: Overlay, self: Id, s: Node, events: seq<Event>) {
    forall i: nat :: i < |events| ==> Enabled(o, self, At(s, events, i), events[i])
  }

  /** One step keeps the tree and drops no block; the current view and the committed view never
      decrease. */
  lemma StepKeeps(o: Overlay, self: Id, g: Block, s: Node, e: Event)
    requires Tree(g, s.safeBlocks) && Enabled(o, self, s, e)
    ensures var r := Step(s, e);
            && Tree(g, r.safeBlocks) && Within(s.safeBlocks, r.safeBlocks)
            && s.currentView <= r.currentView && CommittedView(s) <= CommittedView(r)
  {
    hide Tree, CommittedView;
    if e.Receive? {
      ReceiveBlockTree(g, s, e.block);
    }
    CommittedViewGrows(g, s, Step(s, e));
  }

  /** Over every run: at most one held block per view, nothing held is dropped, and neither the
      current view nor the committed view ever decreases. */
  lemma {:induction false} RunKeeps(o: Overlay, self: Id, g: Block, s: Node, events: seq<Event>, i: nat, j: nat)
    requires Tree(g, s.safeBlocks) && Allowed(o, self, s, events) && i <= j <= |events|
    ensures var a, b := At(s, events, i), At(s, events, j);
            && Tree(g, a.safeBlocks) && Tree(g, b.safeBlocks) && Within(a.safeBlocks, b.safeBlocks)
            && a.currentView <= b.currentView && CommittedView(a) <= CommittedView(b)
    decreases j
  {
    hide Tree, CommittedView, Step, Enabled, Within;
    var a, b := At(s, events, i), At(s, events, j);
    WithinSelf(b.safeBlocks);
    if j > 0 {
      var k := if i == j then i - 1 else i;
      RunKeeps(o, self, g, s, events, k, j - 1);
      StepKeeps(o, self, g, At(s, events, j - 1), events[j - 1]);
      WithinTransitive(At(s, events, k).safeBlocks, At(s, events, j - 1).safeBlocks, b.safeBlocks);
    }
  }

  /** The guard of the timeout invariant, as far as voting is concerned. */
  predicate MayTimeOut(s: Node) {
    s.highestVotedView <= s.currentView
  }

  ghost predicate TimeoutsGuarded(s: Node, events: seq<Event>) {
    forall i: nat :: i < |events| && events[i] == TimeoutLocally ==> MayTimeOut(At(s, events, i))
  }

  /** A step lowers the highest voted view exactly when it is a timeout outside that guard. */
  lemma VotedViewFallsExactly(s: Node, e: Event)
    ensures Step(s, e).highestVotedView < s.highestVotedView <==> e == TimeoutLocally && !MayTimeOut(s)
  {
  }

  lemma {:induction false} VotedViewGrows(s: Node, events: seq<Event>, i: nat, j: nat)
    requires TimeoutsGuarded(s, events) && i <= j <= |events|
    ensures At(s, events, i).highestVotedView <= At(s, events, j).highestVotedView
    decreases j
  {
    hide Step;
    if i < j {
      VotedViewGrows(s, events, i, j - 1);
      VotedViewFallsExactly(At(s, events, j - 1), events[j - 1]);
    }
  }

  /** The view at or below which a node may not vote once it has handled an event. */
  function BarredView(s: Node, e: Event): View {
    match e
    case Receive(_) => -1
    case Approve(b, _) => b.view
    case ApproveNewViews(t, _) => t.view + 1
    case TimeoutLocally => s.currentView
    case ReceiveTimeout(_) => -1
  }

  /** The block vote that a node sends for an event. */
  function SentVote(o: Overlay, self: Id, e: Event): Option<Vote> {
    if e.Approve? then Some(VoteFor(o, self, e.block).payload.vote) else None
  }

  /** With guarded timeouts a node votes for a block only above every view in which it voted,
      approved a new view, or timed out before: so it votes at most once per view. */
  lemma VotesOnlyAbove(o: Overlay, self: Id, g: Block, s: Node, events: seq<Event>, i: nat, j: nat)
    requires Fresh(g, s) && Allowed(o, self, s, events) && TimeoutsGuarded(s, events)
    requires i < j < |events| && SentVote(o, self, events[j]).Some?
    ensures BarredView(At(s, events, i), events[i]) < SentVote(o, self, events[j]).value.view
    ensures SentVote(o, self, events[i]).Some? ==>
      SentVote(o, self, events[i]).value.view < SentVote(o, self, events[j]).value.view
  {
    hide Step, Enabled, BarredView, Allowed, TimeoutsGuarded;
    VotedViewGrows(s, events, 0, i + 1);
    VotedViewGrows(s, events, i + 1, j);
    AllowedAt(o, self, s, events, i);
    AllowedAt(o, self, s, events, j);
    VoteBounds(o, self, At(s, events, j), events[j]);
    VoteBounds(o, self, At(s, events, i), events[i]);
  }

  lemma AllowedAt(o: Overlay, self: Id, s: Node, events: seq<Event>, i: nat)
    requires Allowed(o, self, s, events) && i < |events|
    ensures Enabled(o, self, At(s, events, i), events[i]) && At(s, events, i + 1) == Step(At(s, events, i), events[i])
  {
  }

  lemma VoteBounds(o: Overlay, self: Id, s: Node, e: Event)
    requires Enabled(o, self, s, e)
    ensures BarredView(s, e) <= Step(s, e).highestVotedView || BarredView(s, e) == -1
    ensures SentVote(o, self, e).Some? ==>
      s.highestVotedView < SentVote(o, self, e).value.view && BarredView(s, e) == SentVote(o, self, e).value.view
  {
  }

  /** The highest voted view falls between two states only across an unguarded timeout. */
  lemma {:induction false} FallNeedsTimeout(s: Node, events: seq<Event>, i: nat, j: nat) returns (n: nat)
    requires i <= j <= |events| && At(s, events, j).highestVotedView < At(s, events, i).highestVotedView
    ensures i <= n < j && events[n] == TimeoutLocally && !MayTimeOut(At(s, events, n))
    decreases j
  {
    hide Step;
    VotedViewFallsExactly(At(s, events, j - 1), events[j - 1]);
    if events[j - 1] == TimeoutLocally && !MayTimeOut(At(s, events, j - 1)) {
      n := j - 1;
    } else {
      n := FallNeedsTimeout(s, events, i, j - 1);
    }
  }

  /** After a vote for a block the same approval is open again exactly when the highest voted view
      has fallen below the block's view, and that needs an unguarded timeout in between. */
  lemma VoteAgainExactly(o: Overlay, self: Id, g: Block, s: Node, events: seq<Event>, i: nat, j: nat)
    requires Fresh(g, s) && Allowed(o, self, s, events) && i < j <= |events| && events[i].Approve?
    ensures Enabled(o, self, At(s, events, j), events[i]) <==>
      At(s, events, j).highestVotedView < events[i].block.view
    ensures Enabled(o, self, At(s, events, j), events[i]) ==>
      exists n: nat :: i < n < j && events[n] == TimeoutLocally && !MayTimeOut(At(s, events, n))
  {
    hide Step, Tree, Enabled, Allowed, Fresh, MayTimeOut, Within;
    FreshTree(g, s);
    AllowedAt(o, self, s, events, i);
    RunKeeps(o, self, g, s, events, i, j);
    SameApproval(o, self, At(s, events, i), At(s, events, j), events[i]);
    ApprovalRaises(At(s, events, i), events[i]);
    if At(s, events, j).highestVotedView < events[i].block.view {
      var n := FallNeedsTimeout(s, events, i + 1, j);
    }
  }

  lemma ApprovalRaises(s: Node, e: Event)
    requires e.Approve?
    ensures Step(s, e).highestVotedView >= e.block.view
  {
  }

  /** What else an approval asserts does not change as long as the block is held. */
  lemma SameApproval(o: Overlay, self: Id, s: Node, r: Node, e: Event)
    requires e.Approve? && Enabled(o, self, s, e) && Within(s.safeBlocks, r.safeBlocks)
    ensures Enabled(o, self, r, e) <==> r.highestVotedView < e.block.view
  {
  }

  /** With or without the guard, votes of one view are for one block. */
  lemma OneBlockPerView(o: Overlay, self: Id, g: Block, s: Node, events: seq<Event>, i: nat, j: nat)
    requires Fresh(g, s) && Allowed(o, self, s, events) && i <= j < |events|
    requires SentVote(o, self, events[i]).Some? && SentVote(o, self, events[j]).Some?
    requires SentVote(o, self, events[i]).value.view == SentVote(o, self, events[j]).value.view
    ensures SentVote(o, self, events[i]).value == SentVote(o, self, events[j]).value
  {
    FreshTree(g, s);
    RunKeeps(o, self, g, s, events, i, j);
    assert Enabled(o, self, At(s, events, i), events[i]) && Enabled(o, self, At(s, events, j), events[j]);
  }

  /** A block far ahead, on an aggregate certificate of the genesis block 0. */
  function AheadBlock(): Block {
    Block(5, Aggregate([0], StandardQc(0, 0), 4), 1)
  }

  function GenesisBlock(): Block {
    Block(0, Standard(StandardQc(0, 0)), 0)
  }

  /** Without the guard a node can vote twice in one view: the vote for a block ahead of the
      current view is forgotten by a timeout. */
  lemma DoubleVote(o: Overlay, self: Id) returns (s: Node, events: seq<Event>)
    requires o.threshold(self) == 0
    ensures Fresh(GenesisBlock(), s) && Allowed(o, self, s, events)
    ensures |events| == 4 && events[1] == events[3] && SentVote(o, self, events[1]).Some?
    ensures !TimeoutsGuarded(s, events)
  {
    var g, b := GenesisBlock(), AheadBlock();
    s := Node(0, -1, None, map[0 := g], None);
    events := [Receive(b), Approve(b, []), TimeoutLocally, Approve(b, [])];
    FreshTree(g, s);
    ReceiveBlockExact(g, s, b);
    var s1 := Step(s, events[0]);
    assert At(s, events, 1) == s1 && s1.safeBlocks == map[0 := g, 1 := b] && s1.currentView == 0;
    assert At(s, events, 2) == Step(s1, events[1]);
    assert At(s, events, 3) == Step(At(s, events, 2), events[2]);
    assert !MayTimeOut(At(s, events, 2)) && events[2] == TimeoutLocally;
  }

  /** The certificate that a node takes up with an event, if any; a caller can tell beforehand. */
  ghost function TakenUp(s: Node, e: Event): Option<Qc> {
    match e
    case Receive(b) => if Admits(s, b) then Some(b.qc) else None
    case ApproveNewViews(t, newViews) => Some(HighestQc(t.highQc, newViews))
    case ReceiveTimeout(t) => if t.view >= s.currentView then Some(t.highQc) else None
    case _ => None
  }

  /** An aggregate whose highest certificate is older than the node's own. */
  ghost predicate OlderAggregate(s: Node, e: Event) {
    var taken := TakenUp(s, e);
    && s.localHighQc.Some? && taken.Some? && taken.value.Aggregate?
    && taken.value.highestQc.view < s.localHighQc.value.view
  }

  /** The high certificate falls exactly when an older aggregate is taken up; otherwise it is at
      least as high as what was taken up. */
  lemma HighQcFallsExactly(s: Node, e: Event)
    ensures s.localHighQc.Some? || TakenUp(s, e).Some? ==> Step(s, e).localHighQc.Some?
    ensures s.localHighQc.Some? ==>
      (Step(s, e).localHighQc.value.view < s.localHighQc.value.view <==> OlderAggregate(s, e))
    ensures TakenUp(s, e).Some? && !OlderAggregate(s, e) ==>
      TakenUp(s, e).value.HighQc().view <= Step(s, e).localHighQc.value.view
  {
    hide CommittedView, ViewTaken;
  }

  /** The high certificate changes exactly when one is taken up that is higher, or an older
      aggregate, or the first; then it is the one taken up. */
  lemma HighQcExactly(s: Node, e: Event)
    ensures var taken := TakenUp(s, e);
            Step(s, e).localHighQc ==
            if taken.Some? && (s.localHighQc.None? || OlderAggregate(s, e)
                               || taken.value.HighQc().view > s.localHighQc.value.view) then Some(taken.value.HighQc())
            else s.localHighQc
  {
    hide CommittedView, ViewTaken;
  }

  /** Over a run that takes up no older aggregate, the high certificate is at least as high as
      every certificate taken up before. */
  lemma {:induction false} HighQcIsHighest(s: Node, events: seq<Event>, i: nat, j: nat)
    requires i < j <= |events| && TakenUp(At(s, events, i), events[i]).Some?
    requires forall n: nat :: i <= n < j ==> !OlderAggregate(At(s, events, n), events[n])
    ensures var r := At(s, events, j).localHighQc;
            r.Some? && TakenUp(At(s, events, i), events[i]).value.HighQc().view <= r.value.view
    decreases j
  {
    hide Step, TakenUp, OlderAggregate;
    HighQcFallsExactly(At(s, events, j - 1), events[j - 1]);
    if i < j - 1 {
      HighQcIsHighest(s, events, i, j - 1);
    }
  }

  /** The last timeout certificate is for an earlier view than the current one. */
  ghost predicate TimeoutBelow(s: Node) {
    s.lastViewTimeoutQc.Some? ==> s.lastViewTimeoutQc.value.view < s.currentView
  }

  /** So a timeout certificate that is not ignored always replaces the last one, and the node
      moves to the view after it. */
  lemma {:induction false} TimeoutsReplace(o: Overlay, self: Id, g: Block, s: Node, events: seq<Event>, i: nat)
    requires Fresh(g, s) && Allowed(o, self, s, events) && i < |events|
    ensures TimeoutBelow(At(s, events, i))
    ensures events[i].ReceiveTimeout? && events[i].timeoutQc.view >= At(s, events, i).currentView ==>
      At(s, events, i + 1).lastViewTimeoutQc == Some(events[i].timeoutQc)
      && At(s, events, i + 1).currentView == events[i].timeoutQc.view + 1
    decreases i
  {
    hide Enabled, CommittedView;
    if i > 0 {
      TimeoutsReplace(o, self, g, s, events, i - 1);
    }
  }

  /** a is b or one of its held ancestors. */
  ghost predicate Ancestor(g: Block, safe: Blocks, a: Id, b: Id)
    requires Tree(g, safe) && b in safe
    decreases Max(0, safe[b].view)
  {
    TreeViews(g, safe, b);
    a == b || (b != g.id && Extends(safe, safe[b]) && Ancestor(g, safe, a, safe[b].Parent()))
  }

  /** A block on the chain of d, above the view of c, carries an aggregate whose certificate is
      for a view below c: the chain of d passes c by. */
  ghost predicate PassedBy(g: Block, safe: Blocks, c: Id, d: Id)
    requires Tree(g, safe) && c in safe && d in safe
  {
    exists x :: x in safe && Ancestor(g, safe, x, d) && Skips(safe[x], safe[c].view)
  }

  /** The view of the block's parent is below a view, its own is above, by an aggregate. */
  predicate Skips(b: Block, view: View) {
    b.qc.Aggregate? && b.qc.highestQc.view < view < b.view
  }

  lemma {:induction false} AncestorView(g: Block, safe: Blocks, a: Id, b: Id)
    requires Tree(g, safe) && b in safe && Ancestor(g, safe, a, b)
    ensures a in safe && safe[a].view <= safe[b].view
    decreases safe[b].view
  {
    TreeViews(g, safe, b);
    if a != b {
      AncestorView(g, safe, a, safe[b].Parent());
    }
  }

  /** The chain of a block is the block and the chain of its parent. */
  lemma PassedByStep(g: Block, safe: Blocks, c: Id, d: Id)
    requires Tree(g, safe) && c in safe && d in safe && d != g.id
    ensures Extends(safe, safe[d])
    ensures PassedBy(g, safe, c, d) <==> Skips(safe[d], safe[c].view) || PassedBy(g, safe, c, safe[d].Parent())
  {
    hide Skips, Extends;
    assert Ancestor(g, safe, d, d);
    if Skips(safe[d], safe[c].view) {
      assert PassedBy(g, safe, c, d);
    }
  }

  /** Of two held blocks the lower one is an ancestor of the higher one exactly when no aggregate
      on the higher one's chain passes it by. */
  lemma {:induction false} AncestorExactly(g: Block, safe: Blocks, c: Id, d: Id)
    requires Tree(g, safe) && c in safe && d in safe && safe[c].view <= safe[d].view
    ensures Ancestor(g, safe, c, d) <==> !PassedBy(g, safe, c, d)
    decreases safe[d].view
  {
    hide PassedBy;
    TreeViews(g, safe, c);
    TreeViews(g, safe, d);
    if safe[c].view == safe[d].view {
      NotPassedBySelf(g, safe, d);
    } else {
      var p := safe[d].Parent();
      PassedByStep(g, safe, c, d);
      if safe[p].view >= safe[c].view {
        AncestorExactly(g, safe, c, p);
      } else if Ancestor(g, safe, c, p) {
        AncestorView(g, safe, c, p);
      }
    }
  }

  lemma NotPassedBySelf(g: Block, safe: Blocks, d: Id)
    requires Tree(g, safe) && d in safe
    ensures !PassedBy(g, safe, d, d)
  {
    hide Tree;
    forall x | x in safe && Ancestor(g, safe, x, d)
      ensures !Skips(safe[x], safe[d].view)
    {
      AncestorView(g, safe, x, d);
    }
  }

  /** Over every run, a latest committed block is an ancestor of a later one exactly when no
      aggregate on the chain of the later one passes it by. */
  lemma CommitsConsistentExactly(o: Overlay, self: Id, g: Block, s: Node, events: seq<Event>, i: nat, j: nat, c: Block,
                                 d: Block)
    requires Fresh(g, s) && Allowed(o, self, s, events) && i <= j <= |events|
    requires LatestCommitted(At(s, events, i), c) && LatestCommitted(At(s, events, j), d)
    ensures var safe := At(s, events, j).safeBlocks;
            && Tree(g, safe) && c.id in safe && d.id in safe
            && (Ancestor(g, safe, c.id, d.id) <==> !PassedBy(g, safe, c.id, d.id))
  {
    hide Ancestor, PassedBy, Step, CommittedView, Tree;
    FreshTree(g, s);
    RunKeeps(o, self, g, s, events, i, j);
    AncestorExactly(g, At(s, events, j).safeBlocks, c.id, d.id);
  }

  /** No held aggregate passes the view by. A node can tell from its held blocks alone. */
  ghost predicate Respected(safe: Blocks, view: View) {
    forall id :: id in safe ==> !Skips(safe[id], view)
  }

  /** Where every held aggregate respects a committed block, later commits descend from it. The
      happy path, on which no held block carries an aggregate, is a special case. */
  lemma RespectedCommitsAreConsistent(o: Overlay, self: Id, g: Block, s: Node, events: seq<Event>, i: nat, j: nat,
                                      c: Block, d: Block)
    requires Fresh(g, s) && Allowed(o, self, s, events) && i <= j <= |events|
    requires LatestCommitted(At(s, events, i), c) && LatestCommitted(At(s, events, j), d)
    requires Respected(At(s, events, j).safeBlocks, c.view) || HappyPath(g, At(s, events, j).safeBlocks)
    ensures Tree(g, At(s, events, j).safeBlocks) && d.id in At(s, events, j).safeBlocks
    ensures Ancestor(g, At(s, events, j).safeBlocks, c.id, d.id)
  {
    CommitsConsistentExactly(o, self, g, s, events, i, j, c, d);
    hide Ancestor, At, LatestCommitted, Allowed, Tree;
    var safe := At(s, events, j).safeBlocks;
    CommitHeld(o, self, g, s, events, i, j, c);
    if HappyPath(g, safe) {
      HappyPathRespects(g, safe, c.view);
    }
  }

  lemma CommitHeld(o: Overlay, self: Id, g: Block, s: Node, events: seq<Event>, i: nat, j: nat, c: Block)
    requires Fresh(g, s) && Allowed(o, self, s, events) && i <= j <= |events|
    requires LatestCommitted(At(s, events, i), c)
    ensures c.id in At(s, events, j).safeBlocks && At(s, events, j).safeBlocks[c.id] == c && c.view >= 0
  {
    hide Step, CommittedView;
    FreshTree(g, s);
    RunKeeps(o, self, g, s, events, i, j);
    TreeViews(g, At(s, events, i).safeBlocks, c.id);
  }

  /** No held block carries an aggregate certificate: the happy path. */
  ghost predicate HappyPath(g: Block, safe: Blocks) {
    forall id :: id in safe && id != g.id ==> safe[id].qc.Standard?
  }

  lemma HappyPathRespects(g: Block, safe: Blocks, view: View)
    requires Tree(g, safe) && HappyPath(g, safe) && view >= 0
    ensures Respected(safe, view)
  {
  }

  /** On the happy path the held blocks form one chain. */
  lemma HappyPathIsOneChain(g: Block, safe: Blocks, a: Id, b: Id)
    requires Tree(g, safe) && HappyPath(g, safe) && a in safe && b in safe && safe[a].view <= safe[b].view
    ensures Ancestor(g, safe, a, b)
  {
    AncestorExactly(g, safe, a, b);
    hide Ancestor;
    TreeViews(g, safe, a);
    HappyPathRespects(g, safe, safe[a].view);
  }

  /** On the happy path a latest committed block is an ancestor of every later one. */
  lemma HappyCommitsAreConsistent(o: Overlay, self: Id, g: Block, s: Node, events: seq<Event>, i: nat, j: nat, c: Block,
                                  d: Block)
    requires Fresh(g, s) && Allowed(o, self, s, events) && i <= j <= |events|
    requires HappyPath(g, At(s, events, j).safeBlocks)
    requires LatestCommitted(At(s, events, i), c) && LatestCommitted(At(s, events, j), d)
    ensures Tree(g, At(s, events, j).safeBlocks) && d.id in At(s, events, j).safeBlocks
    ensures Ancestor(g, At(s, events, j).safeBlocks, c.id, d.id)
  {
    hide Ancestor, At, LatestCommitted, Allowed, Tree;
    RespectedCommitsAreConsistent(o, self, g, s, events, i, j, c, d);
  }

  /** Six blocks, one per view: a chain of three, then three that start again from the genesis
      block on an aggregate certificate. */
  function BranchingBlock(i: nat): Block {
    if i == 0 then GenesisBlock()
    else if i == 4 then Block(4, Aggregate([0], StandardQc(0, 0), 3), 4)
    else Block(i, Standard(StandardQc(i - 1, i - 1)), i)
  }

  function BranchingBlocks(n: nat): Blocks {
    map i: nat | i <= n :: BranchingBlock(i)
  }

  lemma BranchingTree(n: nat)
    ensures Tree(GenesisBlock(), BranchingBlocks(n))
  {
  }

  lemma BranchingFacts(n: nat)
    ensures var safe, b := BranchingBlocks(n), BranchingBlock(n + 1);
            && WellFormed(safe, b) && b.id == n + 1 && b.view == n + 1 && b.qc.View() == n
            && b.id !in safe && !ViewTaken(safe, n + 1)
            && safe[b.id := b] == BranchingBlocks(n + 1)
  {
  }

  lemma BranchingStep(s: Node, n: nat)
    requires s.safeBlocks == BranchingBlocks(n) && s.currentView == n
    ensures WellFormed(s.safeBlocks, BranchingBlock(n + 1))
    ensures ReceiveBlock(s, BranchingBlock(n + 1)).safeBlocks == BranchingBlocks(n + 1)
    ensures ReceiveBlock(s, BranchingBlock(n + 1)).currentView == n + 1
  {
    hide Tree, CommittedView, BranchingBlock, BranchingBlocks, WellFormed, ReceiveBlock, Admits;
    BranchingTree(n);
    BranchingFacts(n);
    ReceiveBlockExact(GenesisBlock(), s, BranchingBlock(n + 1));
  }

  lemma BranchingZero()
    ensures BranchingBlocks(0) == map[GenesisBlock().id := GenesisBlock()]
  {
  }

  lemma {:induction false} BranchingRun(o: Overlay, self: Id, s: Node, events: seq<Event>, n: nat)
    requires Fresh(GenesisBlock(), s) && s.currentView == 0 && n <= |events|
    requires forall i: nat :: i < |events| ==> events[i] == Receive(BranchingBlock(i + 1))
    ensures At(s, events, n).safeBlocks == BranchingBlocks(n) && At(s, events, n).currentView == n
    ensures n < |events| ==> Enabled(o, self, At(s, events, n), events[n])
    decreases n
  {
    hide WellFormed, ReceiveBlock, BranchingBlock, BranchingBlocks, GenesisBlock;
    BranchingZero();
    if n > 0 {
      BranchingRun(o, self, s, events, n - 1);
      BranchingStep(At(s, events, n - 1), n - 1);
    }
    BranchingStep(At(s, events, n), n);
  }

  lemma BranchingCommits(s: Node)
    ensures s.safeBlocks == BranchingBlocks(3) && s.currentView == 3 ==> LatestCommitted(s, BranchingBlock(1))
    ensures s.safeBlocks == BranchingBlocks(6) && s.currentView == 6 ==> LatestCommitted(s, BranchingBlock(4))
  {
    if s.safeBlocks == BranchingBlocks(3) && s.currentView == 3 {
      assert s.safeBlocks[3].Parent() in s.safeBlocks && CanCommitGrandparent(s.safeBlocks, s.safeBlocks[3]);
      assert Commits(s.safeBlocks, 3);
    } else if s.safeBlocks == BranchingBlocks(6) && s.currentView == 6 {
      assert s.safeBlocks[6].Parent() in s.safeBlocks && CanCommitGrandparent(s.safeBlocks, s.safeBlocks[6]);
      assert Commits(s.safeBlocks, 6);
    }
  }

  lemma BranchesApart()
    ensures Tree(GenesisBlock(), BranchingBlocks(6)) && 4 in BranchingBlocks(6)
    ensures !Ancestor(GenesisBlock(), BranchingBlocks(6), 1, 4)
  {
    hide Extends;
    BranchingTree(6);
    assert BranchingBlocks(6)[4].Parent() == 0;
  }

  function BranchingStart(): Node {
    Node(0, -1, None, map[0 := GenesisBlock()], None)
  }

  function BranchingEvents(): seq<Event> {
    seq(6, i requires 0 <= i => Receive(BranchingBlock(i + 1)))
  }

  lemma BranchingStates(o: Overlay, self: Id, i: nat)
    requires i <= 6
    ensures |BranchingEvents()| == 6
    ensures At(BranchingStart(), BranchingEvents(), i).safeBlocks == BranchingBlocks(i)
    ensures At(BranchingStart(), BranchingEvents(), i).currentView == i
    ensures i < 6 ==> Enabled(o, self, At(BranchingStart(), BranchingEvents(), i), BranchingEvents()[i])
  {
    hide At, Enabled, BranchingBlock, BranchingBlocks;
    BranchingRun(o, self, BranchingStart(), BranchingEvents(), i);
  }

  lemma {:induction false} BranchingHighQc(s: Node, events: seq<Event>, o: Overlay, self: Id, n: nat)
    requires Fresh(GenesisBlock(), s) && s.currentView == 0 && s.localHighQc == None && n <= |events|
    requires forall i: nat :: i < |events| ==> events[i] == Receive(BranchingBlock(i + 1))
    ensures At(s, events, n).localHighQc == if n == 0 then None else Some(BranchingBlock(n).qc.HighQc())
    decreases n
  {
    hide CommittedView, WellFormed, ViewTaken, BranchingBlocks;
    if n > 0 {
      BranchingHighQc(s, events, o, self, n - 1);
      BranchingRun(o, self, s, events, n - 1);
      BranchingStep(At(s, events, n - 1), n - 1);
      BranchingFacts(n - 1);
    }
  }

  /** The high certificate is not always the most recent one: an older aggregate lowers it. */
  lemma HighQcCanFall(o: Overlay, self: Id)
    ensures Fresh(GenesisBlock(), BranchingStart()) && Allowed(o, self, BranchingStart(), BranchingEvents())
    ensures At(BranchingStart(), BranchingEvents(), 3).localHighQc == Some(StandardQc(2, 2))
    ensures At(BranchingStart(), BranchingEvents(), 4).localHighQc == Some(StandardQc(0, 0))
  {
    hide At, Enabled, Allowed, BranchingBlocks;
    BranchingAllowed(o, self);
    BranchingHighQc(BranchingStart(), BranchingEvents(), o, self, 3);
    BranchingHighQc(BranchingStart(), BranchingEvents(), o, self, 4);
  }

  lemma BranchingAllowed(o: Overlay, self: Id)
    ensures Fresh(GenesisBlock(), BranchingStart()) && Allowed(o, self, BranchingStart(), BranchingEvents())
  {
    hide At, Enabled, BranchingBlock, BranchingBlocks;
    forall i: nat | i < |BranchingEvents()|
      ensures Enabled(o, self, At(BranchingStart(), BranchingEvents(), i), BranchingEvents()[i])
    {
      BranchingStates(o, self, i);
    }
  }

  /** Off the happy path one node may commit blocks of two branches: nothing it checks itself
      makes an aggregate certificate respect its commits. */
  lemma CommitsCanBranch(o: Overlay, self: Id) returns (s: Node, events: seq<Event>, c: Block, d: Block)
    ensures Fresh(GenesisBlock(), s) && Allowed(o, self, s, events) && |events| == 6
    ensures LatestCommitted(At(s, events, 3), c) && LatestCommitted(At(s, events, 6), d) && c.view < d.view
    ensures var safe := At(s, events, 6).safeBlocks;
            Tree(GenesisBlock(), safe) && d.id in safe && !Ancestor(GenesisBlock(), safe, c.id, d.id)
  {
    hide Tree, Ancestor, LatestCommitted, Enabled, At, BranchingBlocks, BranchingEvents, Fresh, Allowed;
    s, events, c, d := BranchingStart(), BranchingEvents(), BranchingBlock(1), BranchingBlock(4);
    BranchingAllowed(o, self);
    BranchingStates(o, self, 3);
    BranchingStates(o, self, 6);
    BranchesApart();
    BranchingCommits(At(s, events, 3));
    BranchingCommits(At(s, events, 6));
  }
}
