/** Concrete peers on which the synchronisation loop ends, or does not. */
module SyncExamples {
  import opened Blocks
  import opened EpochStates
  import opened S = FollowerState
  import opened Delivery
  import opened Soundness
  import opened Backfill
  import opened Sync
  import opened FollowerExamples

  /** A child of a block, with a leader proof for its own slot or for another. */
  function Child(parent: Hash, slot: nat, note: Note, proofSlot: nat): BlockHeader {
    ChildWith(parent, slot, LeaderProof(note, proofSlot, parent))
  }

  /** A peer that holds the genesis block and one child of it. */
  function PeerAt(genesis: LedgerState, b: BlockHeader): Peer {
    Peer(b.Id(), map[genesis.block.Id() := genesis, b.Id() := genesis.Apply(b)])
  }

  lemma ChildFacts(cfg: Config, genesis: LedgerState, slot: nat, note: Note, proofSlot: nat)
    requires cfg.Usable()
    ensures var g, b := genesis.block.Id(), Child(genesis.block.Id(), slot, note, proofSlot);
            && PeerAt(genesis, b).Closed(g) && b.Id() != g
            && (proofSlot != slot ==> Refused(cfg, genesis, b.Id()))
            && (proofSlot == slot && Spendable(genesis, note) ==> Sound(cfg, genesis, b))
  {
    var g, b := genesis.block.Id(), Child(genesis.block.Id(), slot, note, proofSlot);
    assert Rank(b.Id()) == 1 + Rank(g);
    AcceptableExactly(cfg, genesis, b);
    hide Acceptable;
    assert Descends(g, b.Id());
  }

  /** A single refused tip that is ahead is out of reach: `sync` with this peer never returns, and
      it is stuck once the tip is rejected. */
  lemma RefusedTipAhead(cfg: Config, genesis: LedgerState, slot: nat, note: Note) returns (p: Peer)
    requires cfg.Usable() && slot > genesis.block.slot
    ensures p.Closed(genesis.block.Id()) && Refused(cfg, genesis, p.tip)
    ensures Syncing(cfg, genesis, Initial(genesis)) && OutOfReach(cfg, genesis, [p], Initial(genesis).table)
    ensures Stuck([p], Initial(genesis), {p.tip})
  {
    hide Sound, Syncing, Peer.Closed, Stuck;
    var b := Child(genesis.block.Id(), slot, note, slot + 1);
    p := PeerAt(genesis, b);
    ChildFacts(cfg, genesis, slot, note, slot + 1);
    InitialSyncing(cfg, genesis);
    RefusedTipIsStuck(cfg, genesis, Initial(genesis), p);
    AloneOutOfReach(cfg, genesis, b);
  }

  lemma AloneOutOfReach(cfg: Config, genesis: LedgerState, b: BlockHeader)
    requires cfg.Usable() && !Sound(cfg, genesis, b) && genesis.block.slot < b.slot
    ensures OutOfReach(cfg, genesis, [PeerAt(genesis, b)], Initial(genesis).table)
  {
    hide Sound;
    var p := PeerAt(genesis, b);
    assert [p][0] == p && p.tip == b.Id();
    forall c: BlockHeader | HeldByPeer(c.Id(), [p]) && Sound(cfg, genesis, c)
      ensures c.slot < b.slot
    {
      assert c.Id() in p.table;
    }
    assert LaterThanAll(cfg, genesis, [p], Initial(genesis).table, p.tip);
  }

  /** What two peers hold. */
  lemma HeldByTwo(genesis: LedgerState, bad: BlockHeader, good: BlockHeader, id: Hash)
    ensures HeldByPeer(id, [PeerAt(genesis, bad), PeerAt(genesis, good)]) <==>
      id == genesis.block.Id() || id == bad.Id() || id == good.Id()
  {
    var peers := [PeerAt(genesis, bad), PeerAt(genesis, good)];
    assert id in peers[0].table <==> id == genesis.block.Id() || id == bad.Id();
    assert id in peers[1].table <==> id == genesis.block.Id() || id == good.Id();
  }

  lemma Candidates(cfg: Config, genesis: LedgerState, bad: BlockHeader, good: BlockHeader, id: Hash)
    requires cfg.Usable() && Refused(cfg, genesis, bad.Id()) && Sound(cfg, genesis, good)
    ensures Candidate(cfg, genesis, [PeerAt(genesis, bad), PeerAt(genesis, good)], Initial(genesis).table, id) <==>
      id == genesis.block.Id() || id == good.Id()
  {
    hide Sound, HeldByPeer, PeerAt;
    HeldByTwo(genesis, bad, good, id);
  }

  lemma GoodLine(cfg: Config, genesis: LedgerState, bad: BlockHeader, good: BlockHeader)
    requires cfg.Usable() && Refused(cfg, genesis, bad.Id()) && Sound(cfg, genesis, good)
    requires good.parent == genesis.block.Id() && genesis.block.slot <= good.slot
    ensures OneLine(cfg, genesis, [PeerAt(genesis, bad), PeerAt(genesis, good)], Initial(genesis).table)
  {
    var g, peers, t := genesis.block.Id(), [PeerAt(genesis, bad), PeerAt(genesis, good)], Initial(genesis).table;
    assert Descends(g, good.Id());
    hide Sound, Candidate, PeerAt, Initial, Refused;
    forall id
      ensures Candidate(cfg, genesis, peers, t, id) <==> id == g || id == good.Id()
    {
      Candidates(cfg, genesis, bad, good, id);
    }
  }

  lemma GoodLeads(cfg: Config, genesis: LedgerState, bad: BlockHeader, good: BlockHeader)
    requires cfg.Usable() && Refused(cfg, genesis, bad.Id()) && Sound(cfg, genesis, good)
    requires genesis.block.slot < bad.slot < good.slot
    ensures TipsLead(cfg, genesis, [PeerAt(genesis, bad), PeerAt(genesis, good)], Initial(genesis).table)
    ensures !OutOfReach(cfg, genesis, [PeerAt(genesis, bad), PeerAt(genesis, good)], Initial(genesis).table)
  {
    hide Sound, HeldByPeer;
    var peers := [PeerAt(genesis, bad), PeerAt(genesis, good)];
    forall b: BlockHeader | HeldByPeer(b.Id(), peers) && Sound(cfg, genesis, b)
      ensures SoundTip(cfg, genesis, peers[1].tip, b.slot)
    {
      HeldByTwo(genesis, bad, good, b.Id());
    }
    HeldByTwo(genesis, bad, good, good.Id());
    assert peers[0].tip == bad.Id() && peers[1].tip == good.Id();
  }

  /** The same refused tip does not keep `sync` from returning when another peer brings a later
      sound block. */
  lemma RefusedTipOvertaken(cfg: Config, genesis: LedgerState, slot: nat, later: nat, note: Note)
    returns (p: Peer, q: Peer)
    requires cfg.Usable() && genesis.block.slot < slot < later && Spendable(genesis, note)
    ensures AllClosed([p, q], genesis.block.Id()) && Refused(cfg, genesis, p.tip)
    ensures Ahead(p, TipSlot(Initial(genesis)))
    ensures Predictable(cfg, genesis, [p, q], Initial(genesis).table)
    ensures !OutOfReach(cfg, genesis, [p, q], Initial(genesis).table)
  {
    hide Sound, OneLine, TipsLead, OutOfReach, Refused, Peer.Closed, Spendable;
    var g := genesis.block.Id();
    var bad, good := Child(g, slot, note, slot + 1), Child(g, later, note, later);
    p, q := PeerAt(genesis, bad), PeerAt(genesis, good);
    ChildFacts(cfg, genesis, slot, note, slot + 1);
    ChildFacts(cfg, genesis, later, note, later);
    GoodLine(cfg, genesis, bad, good);
    GoodLeads(cfg, genesis, bad, good);
  }

  /** A bootstrapping follower takes a block that extends its tip. */
  lemma Extended(cfg: Config, genesis: LedgerState, s: Core, b: BlockHeader)
    requires cfg.Usable() && Syncing(cfg, genesis, s) && Acceptable(cfg, genesis, b)
    requires b.parent == s.localChain && b.Id() !in s.table
    ensures var r := OnBlock(cfg, genesis, s, b).0;
            && Syncing(cfg, genesis, r) && r.localChain == b.Id()
            && forall id :: id in r.table <==> id in s.table || id == b.Id()
  {
    TipHeld(cfg, genesis, s);
    hide Validate, Inv, Sound, Acceptable;
    OnBlockSyncing(cfg, genesis, s, b);
    GenesisHeld(cfg, genesis, s, b);
    AcceptanceFromAncestors(cfg, genesis, s, b);
  }

  /** A follower that was given a block and then a child of it that has an earlier slot. */
  lemma Followed(cfg: Config, genesis: LedgerState, slot: nat, note: Note) returns (s: Core)
    requires cfg.Usable() && Spendable(genesis, note)
    ensures var first := Child(genesis.block.Id(), slot, note, slot);
            Syncing(cfg, genesis, s) && TipSlot(s) == genesis.block.slot
            && genesis.block.Id() in s.table && first.Id() in s.table
  {
    var first := Child(genesis.block.Id(), slot, note, slot);
    var second := Child(first.Id(), genesis.block.slot, note, genesis.block.slot);
    AcceptableExactly(cfg, genesis, first);
    AcceptableExactly(cfg, genesis, second);
    assert Rank(second.Id()) == 1 + Rank(first.Id()) == 2 + Rank(genesis.block.Id());
    hide Acceptable, Inv, Syncing, OnBlock;
    InitialSyncing(cfg, genesis);
    Extended(cfg, genesis, Initial(genesis), first);
    var s1 := OnBlock(cfg, genesis, Initial(genesis), first).0;
    Extended(cfg, genesis, s1, second);
    s := OnBlock(cfg, genesis, s1, second).0;
  }

  lemma AllHeldIsStalled(p: Peer, s: Core)
    requires Keyed(p.table) && forall id :: id in p.table ==> id in s.table
    ensures Stalled([p], TipSlot(s), s.table, {})
  {
    forall b | Fetched([p], TipSlot(s), b)
      ensures Known(b, s.table, {})
    {
      var i: nat :| i < 1 && Asked([p], TipSlot(s), i) && b in Recent([p][i].table, TipSlot(s));
      assert [p][0] == p;
    }
  }

  /** Without the slots rising along the line, a follower can be stuck though every block is sound
      and no peer is out of reach: it holds the peer's tip and prefers a later block of an earlier
      slot. */
  lemma HeldTipNotPreferred(cfg: Config, genesis: LedgerState, slot: nat, note: Note) returns (s: Core, p: Peer)
    requires cfg.Usable() && genesis.block.slot < slot && Spendable(genesis, note)
    ensures Syncing(cfg, genesis, s) && p.Closed(genesis.block.Id())
    ensures forall id :: id in p.table ==> id in s.table
    ensures !OutOfReach(cfg, genesis, [p], s.table) && Stuck([p], s, {})
  {
    hide Syncing, Spendable, Sound, Refused, Stalled;
    var first := Child(genesis.block.Id(), slot, note, slot);
    s := Followed(cfg, genesis, slot, note);
    p := PeerAt(genesis, first);
    ChildFacts(cfg, genesis, slot, note, slot);
    AllHeldIsStalled(p, s);
    assert [p][0] == p && p.tip == first.Id();
  }
}
