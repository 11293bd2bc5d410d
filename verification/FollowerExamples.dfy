/** Concrete blocks that a follower accepts, refuses or prefers. */
module FollowerExamples {
  import opened Blocks
  import opened EpochStates
  import opened FollowerState
  import opened Delivery
  import opened Preference

  /** A child of a block, with a leader proof. */
  function ChildWith(parent: Hash, slot: nat, proof: LeaderProof): BlockHeader {
    BlockHeader(slot, parent, 0, 0, proof)
  }

  function ProvenChild(parent: Hash, slot: nat, note: Note): BlockHeader {
    ChildWith(parent, slot, LeaderProof(note, slot, parent))
  }

  ghost predicate Spendable(genesis: LedgerState, note: Note) {
    Commitment(note) in genesis.commitments && Nullifier(note) !in genesis.nullifiers
  }

  /** A bootstrapping follower takes a new block with a proof of an unspent note. */
  lemma Taken(cfg: Config, genesis: LedgerState, s: Core, b: BlockHeader)
    requires cfg.Usable() && Inv(cfg, genesis, s) && s.mode.Bootstrapping?
    requires b.parent in s.table && b.Id() !in s.table && Spendable(genesis, b.leaderProof.note)
    requires b.leaderProof.slot == b.slot && b.leaderProof.parent == b.parent
    ensures OnBlock(cfg, genesis, s, b).1 == Accepted
    ensures var r := OnBlock(cfg, genesis, s, b).0;
            && Inv(cfg, genesis, r) && r.mode.Bootstrapping?
            && r.table.Keys == s.table.Keys + {b.Id()}
            && (b.parent == s.localChain ==> r.localChain == b.Id() && r.forks == s.forks)
  {
    hide Validate, Champion, UpdateLib, Place, Insert, TipsAreLeaves, Canonical, Rooted, EpochStateOf, Rivals, Others,
      Above, Comparable, LibOf, Descends, Rank;
    AcceptedExactly(cfg, genesis, s, b);
    RootedDescends(s.table, genesis.block.Id(), b.parent);
    hide Inv;
    OnBlockInv(cfg, genesis, s, b);
    TipAfter(cfg, genesis, s, b);
    RestAfter(cfg, genesis, s, b);
    hide OnBlock;
  }

  /** A new follower is given a child of the genesis block. */
  lemma FirstBlock(cfg: Config, genesis: LedgerState, b: BlockHeader)
    requires cfg.Usable() && b.parent == genesis.block.Id()
    ensures var (s, r) := (Initial(genesis), OnBlock(cfg, genesis, Initial(genesis), b));
            if b.leaderProof.slot == b.slot && b.leaderProof.parent == b.parent
               && Spendable(genesis, b.leaderProof.note)
            then r.1 == Accepted && r.0.localChain == b.Id() else r == (s, InvalidLeaderProof)
  {
    var s := Initial(genesis);
    InitialInv(cfg, genesis);
    assert Rank(b.Id()) == 1 + Rank(b.parent);
    AcceptedExactly(cfg, genesis, s, b);
    hide Validate, Inv, Insert, UpdateLib;
  }

  /** A new follower whose genesis state holds two notes, the second of them spent, takes a block of
      the first note only, and only with a proof for its own slot and parent. */
  lemma FirstBlocks(cfg: Config, genesis: LedgerState, held: Note, spent: Note, unknown: Note, other: Hash)
    requires cfg.Usable() && held != spent && held != unknown && spent != unknown && other != genesis.block.Id()
    requires genesis.commitments == {Commitment(held), Commitment(spent)} && genesis.nullifiers == {Nullifier(spent)}
    ensures var s, g := Initial(genesis), genesis.block.Id();
            && OnBlock(cfg, genesis, s, ProvenChild(g, 1, held)).1 == Accepted
            && OnBlock(cfg, genesis, s, ProvenChild(g, 1, held)).0.localChain == ProvenChild(g, 1, held).Id()
            && OnBlock(cfg, genesis, s, ProvenChild(g, 1, spent)) == (s, InvalidLeaderProof)
            && OnBlock(cfg, genesis, s, ProvenChild(g, 1, unknown)) == (s, InvalidLeaderProof)
            && OnBlock(cfg, genesis, s, ChildWith(g, 1, LeaderProof(held, 1, other))) == (s, InvalidLeaderProof)
            && OnBlock(cfg, genesis, s, ChildWith(g, 1, LeaderProof(held, 2, g))) == (s, InvalidLeaderProof)
  {
    hide OnBlock, Initial;
    var g := genesis.block.Id();
    FirstBlock(cfg, genesis, ProvenChild(g, 1, held));
    FirstBlock(cfg, genesis, ProvenChild(g, 1, spent));
    FirstBlock(cfg, genesis, ProvenChild(g, 1, unknown));
    FirstBlock(cfg, genesis, ChildWith(g, 1, LeaderProof(held, 1, other)));
    FirstBlock(cfg, genesis, ChildWith(g, 1, LeaderProof(held, 2, g)));
  }

  /** A chain of two late blocks, and one early block, all above the genesis block. */
  function Late(genesis: LedgerState, note: Note): (BlockHeader, BlockHeader) {
    var first := ProvenChild(genesis.block.Id(), 40, note);
    (first, ProvenChild(first.Id(), 41, note))
  }

  function Early(genesis: LedgerState, note: Note): BlockHeader {
    ProvenChild(genesis.block.Id(), 1, note)
  }

  /** The windows of the two tips over the first thirty slots. */
  lemma Windows(genesis: LedgerState, note: Note, held: set<Hash>)
    requires genesis.block.slot == 0
    requires var (a1, a2) := Late(genesis, note);
             held == {genesis.block.Id(), a1.Id(), a2.Id(), Early(genesis, note).Id()}
    ensures var (g, (a1, a2), b) := (genesis.block.Id(), Late(genesis, note), Early(genesis, note));
            && Meet(g, a2.Id(), b.Id()) && Rank(a2.Id()) == Rank(g) + 2 && Rank(b.Id()) == Rank(g) + 1
            && Window(held, g, a2.Id(), 30) == {g} && Window(held, g, b.Id(), 30) == {g, b.Id()}
  {
    var (g, (a1, a2), b) := (genesis.block.Id(), Late(genesis, note), Early(genesis, note));
    assert Rank(a2.Id()) == 1 + Rank(a1.Id()) == 2 + Rank(g) && Rank(b.Id()) == 1 + Rank(g);
    forall x
      ensures Descends(x, a2.Id()) <==> x == a2.Id() || x == a1.Id() || Descends(x, g)
      ensures Descends(x, b.Id()) <==> x == b.Id() || Descends(x, g)
    {
      assert Descends(x, a2.Id()) <==> x == a2.Id() || Descends(x, a1.Id());
      assert Descends(x, a1.Id()) <==> x == a1.Id() || Descends(x, g);
    }
    forall x | Descends(x, g)
      ensures Rank(x) <= Rank(g)
    {
      DescendsRank(x, g);
    }
    assert Descends(g, g) && Descends(g, a2.Id()) && Descends(g, b.Id());
  }

  /** With k = 1 and a base period of ten slots, a bootstrapping follower leaves the taller chain for
      the one with more blocks in the thirty slots after the fork; an online one refuses the fork. */
  lemma DenserForkTaken(cfg: Config, genesis: LedgerState, note: Note)
    requires cfg.Usable() && cfg.k == 1 && cfg.basePeriod == 10
    requires genesis.block.slot == 0 && Spendable(genesis, note)
    ensures var ((a1, a2), b) := (Late(genesis, note), Early(genesis, note));
            && var s := Run(cfg, genesis, Initial(genesis), [Arrive(a1), Arrive(a2)]);
            && s.localChain == a2.Id()
            && OnBlock(cfg, genesis, s, b).1 == Accepted
            && OnBlock(cfg, genesis, s, b).0.localChain == b.Id()
            && OnBlock(cfg, genesis, ToOnline(cfg, genesis, s), b).1 == ImmutableFork
  {
    hide OnBlock, Inv, Spendable, Window, Meet, Champion, ToOnline, UpdateLib;
    var ((a1, a2), b) := (Late(genesis, note), Early(genesis, note));
    var g, s0 := genesis.block.Id(), Initial(genesis);
    Windows(genesis, note, {g, a1.Id(), a2.Id(), b.Id()});
    assert Rank(a1.Id()) == 1 + Rank(g);
    InitialInv(cfg, genesis);
    Taken(cfg, genesis, s0, a1);
    var s1 := OnBlock(cfg, genesis, s0, a1).0;
    Taken(cfg, genesis, s1, a2);
    var s := OnBlock(cfg, genesis, s1, a2).0;
    TwoArrivals(cfg, genesis, s0, a1, a2);
    Taken(cfg, genesis, s, b);
    assert s.table.Keys + {b.Id()} == {g, a1.Id(), a2.Id(), b.Id()};
    DeepRival(cfg, genesis, s, b, g);
    ForkTooLate(cfg, genesis, s, b);
  }

  lemma TwoArrivals(cfg: Config, genesis: LedgerState, s: Core, a: BlockHeader, b: BlockHeader)
    requires cfg.Usable()
    ensures Run(cfg, genesis, s, [Arrive(a), Arrive(b)])
            == OnBlock(cfg, genesis, OnBlock(cfg, genesis, s, a).0, b).0
  {
    hide OnBlock;
    var events := [Arrive(a), Arrive(b)];
    var rest := events[1..];
    assert rest == [Arrive(b)] && rest[1..] == [];
    calc {
      Run(cfg, genesis, s, events);
      Run(cfg, genesis, OnBlock(cfg, genesis, s, a).0, rest);
      Run(cfg, genesis, OnBlock(cfg, genesis, OnBlock(cfg, genesis, s, a).0, b).0, rest[1..]);
    }
  }

  /** Once online, a follower two above the genesis block with k = 1 refuses forks from it. */
  lemma ForkTooLate(cfg: Config, genesis: LedgerState, s: Core, b: BlockHeader)
    requires cfg.Usable() && cfg.k == 1 && Inv(cfg, genesis, s) && b.Id() !in s.table
    requires b.parent == genesis.block.Id() && Rank(s.localChain) == Rank(b.parent) + 2
    ensures OnBlock(cfg, genesis, ToOnline(cfg, genesis, s), b).1 == ImmutableFork
  {
    var g, r := genesis.block.Id(), ToOnline(cfg, genesis, s);
    hide Validate, Chain, TipsAreLeaves, Canonical;
    ToOnlineInv(cfg, genesis, s);
    TipHeld(cfg, genesis, s);
    LibIsAncestor(cfg, genesis, s.localChain, s.table);
    PrunedKeeps(genesis, s.table, r.lib);
    RootedDescends(s.table, g, r.lib);
    AcceptedExactly(cfg, genesis, r, b);
    if Descends(r.lib, g) {
      DescendsRank(r.lib, g);
    }
  }
}
