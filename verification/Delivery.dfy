/** Delivering blocks to bootstrapping followers: the order does not matter. */
module Delivery {
  import opened Blocks
  import opened Walks
  import opened ForkChoice
  import opened EpochStates
  import opened FollowerState

  /** Blocks delivered one after the other; a refused block changes nothing. */
  ghost function Deliver(cfg: Config, genesis: LedgerState, s: Core, blocks: seq<BlockHeader>): Core
    requires cfg.Usable()
    decreases |blocks|
  {
    if blocks == [] then s
    else OnBlock(cfg, genesis, Deliver(cfg, genesis, s, blocks[..|blocks| - 1]), blocks[|blocks| - 1]).0
  }

  /** The leader proof of a block checked against its ancestors alone. */
  ghost predicate Acceptable(cfg: Config, genesis: LedgerState, b: BlockHeader)
    requires cfg.Usable()
  {
    b.leaderProof.Verify(
      b.slot, b.parent,
      EpochOf(cfg, genesis, cfg.EpochOfSlot(b.slot), b.parent).stakeSnapshot.commitments,
      StateOf(genesis, b.parent).nullifiers)
  }

  /** Acceptance depends only on a block's ancestors, once its parent is held above the last
      immutable block. */
  lemma AcceptanceFromAncestors(cfg: Config, genesis: LedgerState, s: Core, b: BlockHeader)
    requires cfg.Usable() && Inv(cfg, genesis, s)
    ensures Validate(cfg, genesis, s, b) == Accepted <==>
      b.parent in s.table && Descends(s.lib, b.parent) && Acceptable(cfg, genesis, b)
    ensures Validate(cfg, genesis, s, b) == InvalidLeaderProof <==>
      b.parent in s.table && Descends(s.lib, b.parent) && !Acceptable(cfg, genesis, b)
    ensures Validate(cfg, genesis, s, b) == ImmutableFork <==> b.parent in s.table && !Descends(s.lib, b.parent)
  {
    if b.parent in s.table {
      HeightCheckExact(cfg, genesis, s, b.parent);
      EpochStateIsEpoch(cfg, s.table, genesis, cfg.EpochOfSlot(b.slot), b.parent);
    }
  }

  /** Applying blocks changes neither the notes nor the nullifiers. */
  lemma {:induction false} SameNotes(genesis: LedgerState, id: Hash)
    ensures StateOf(genesis, id).commitments == genesis.commitments
    ensures StateOf(genesis, id).nullifiers == genesis.nullifiers
    decreases id
  {
    if id.BlockId? && id != genesis.block.Id() {
      SameNotes(genesis, id.header.parent);
    }
  }

  lemma {:induction false} SnapshotNotes(genesis: LedgerState, id: Hash, slot: nat)
    ensures SnapshotOf(genesis, id, slot).commitments == genesis.commitments
    decreases id
  {
    if id.BlockId? && id != genesis.block.Id() {
      SameNotes(genesis, id);
      SnapshotNotes(genesis, id.header.parent, slot);
    }
  }

  /** So acceptance is one check against the notes of the genesis state, whatever the epoch. */
  lemma AcceptableExactly(cfg: Config, genesis: LedgerState, b: BlockHeader)
    requires cfg.Usable()
    ensures Acceptable(cfg, genesis, b) <==>
      && b.leaderProof.slot == b.slot && b.leaderProof.parent == b.parent
      && Commitment(b.leaderProof.note) in genesis.commitments
      && Nullifier(b.leaderProof.note) !in genesis.nullifiers
  {
    var epoch := cfg.EpochOfSlot(b.slot);
    SameNotes(genesis, b.parent);
    if epoch > 0 {
      SnapshotNotes(genesis, b.parent, cfg.StakeSlot(epoch));
    }
  }

  /** What a follower demands of a block: a held parent on the line of the last immutable block, and a
      leader proof made for this slot and this parent with an unspent note of the genesis state. */
  lemma AcceptedExactly(cfg: Config, genesis: LedgerState, s: Core, b: BlockHeader)
    requires cfg.Usable() && Inv(cfg, genesis, s)
    ensures var verdict, onLine, proof :=
              Validate(cfg, genesis, s, b), b.parent in s.table && Descends(s.lib, b.parent), b.leaderProof;
            && (verdict == ParentNotFound <==> b.parent !in s.table)
            && (verdict == ImmutableFork <==> b.parent in s.table && !Descends(s.lib, b.parent))
            && (verdict == Accepted <==>
                && onLine && proof.slot == b.slot && proof.parent == b.parent
                && Commitment(proof.note) in genesis.commitments && Nullifier(proof.note) !in genesis.nullifiers)
            && (verdict == InvalidLeaderProof <==>
                && onLine
                && (proof.slot != b.slot || proof.parent != b.parent
                    || Commitment(proof.note) !in genesis.commitments || Nullifier(proof.note) in genesis.nullifiers))
  {
    hide Inv, Acceptable, Descends;
    AcceptanceFromAncestors(cfg, genesis, s, b);
    AcceptableExactly(cfg, genesis, b);
  }

  /** The block and all its ancestors up to the genesis block are offered and acceptable. */
  ghost predicate Good(cfg: Config, genesis: LedgerState, offered: set<BlockHeader>, b: BlockHeader)
    requires cfg.Usable()
    decreases b
  {
    && Acceptable(cfg, genesis, b)
    && (b.parent == genesis.block.Id()
        || (b.parent.BlockId? && b.parent.header in offered && Good(cfg, genesis, offered, b.parent.header)))
  }

  /** A block that occurs in the list occurs before its children. */
  ghost predicate ParentsFirst(blocks: seq<BlockHeader>) {
    forall i, j :: 0 <= i < |blocks| && 0 <= j < |blocks| && blocks[i].parent == blocks[j].Id() ==>
      blocks[j] in blocks[..i]
  }

  function Offered(blocks: seq<BlockHeader>): set<BlockHeader> {
    set b | b in blocks
  }

  /** The table holds the genesis block and exactly the good blocks delivered so far. */
  ghost predicate HoldsGood(cfg: Config, genesis: LedgerState, t: Table, offered: set<BlockHeader>,
                            delivered: set<BlockHeader>)
    requires cfg.Usable()
  {
    forall x :: x in t <==>
      x == genesis.block.Id() || (x.BlockId? && x.header in delivered && Good(cfg, genesis, offered, x.header))
  }

  /** A bootstrapping follower only ever adds the block it accepts. */
  lemma KeysAfter(cfg: Config, genesis: LedgerState, s: Core, b: BlockHeader)
    requires cfg.Usable() && Inv(cfg, genesis, s) && s.mode.Bootstrapping?
    ensures var r := OnBlock(cfg, genesis, s, b).0;
            && r.mode.Bootstrapping?
            && forall x :: x in r.table <==> x in s.table || (x == b.Id() && Validate(cfg, genesis, s, b) == Accepted)
  {
    hide Validate, ForkChoiceOf, Superseded, Ledger, TipsAreLeaves, LibOk;
    if Validate(cfg, genesis, s, b) == Accepted {
      AcceptedParent(cfg, genesis, s, b);
    }
  }

  lemma AcceptedIsGood(cfg: Config, genesis: LedgerState, s: Core, offered: set<BlockHeader>,
                       delivered: set<BlockHeader>, b: BlockHeader)
    requires cfg.Usable() && Inv(cfg, genesis, s) && s.mode.Bootstrapping?
    requires HoldsGood(cfg, genesis, s.table, offered, delivered) && delivered <= offered
    requires b.parent.BlockId? && b.parent.header in offered ==> b.parent.header in delivered
    ensures Validate(cfg, genesis, s, b) == Accepted <==> Good(cfg, genesis, offered, b)
  {
    hide Validate, Acceptable, TipsAreLeaves, Canonical;
    AcceptanceFromAncestors(cfg, genesis, s, b);
    if b.parent in s.table {
      RootedDescends(s.table, genesis.block.Id(), b.parent);
    }
    assert s.lib == genesis.block.Id();
    hide Ledger, LibOk, Inv;
  }

  lemma DeliverOne(cfg: Config, genesis: LedgerState, s: Core, offered: set<BlockHeader>, delivered: set<BlockHeader>,
                   b: BlockHeader)
    requires cfg.Usable() && Inv(cfg, genesis, s) && s.mode.Bootstrapping?
    requires HoldsGood(cfg, genesis, s.table, offered, delivered) && delivered <= offered
    requires b.parent.BlockId? && b.parent.header in offered ==> b.parent.header in delivered
    ensures HoldsGood(cfg, genesis, OnBlock(cfg, genesis, s, b).0.table, offered, delivered + {b})
  {
    hide OnBlock, Validate, Good, Inv;
    AcceptedIsGood(cfg, genesis, s, offered, delivered, b);
    KeysAfter(cfg, genesis, s, b);
  }

  /** Main result: after every list of blocks with parents first, a bootstrapping follower holds
      exactly the good blocks of the list. */
  lemma {:induction false} DeliveredAreGood(cfg: Config, genesis: LedgerState, blocks: seq<BlockHeader>, n: nat)
    requires cfg.Usable() && ParentsFirst(blocks) && n <= |blocks|
    ensures var s := Deliver(cfg, genesis, Initial(genesis), blocks[..n]);
            && Inv(cfg, genesis, s) && s.mode.Bootstrapping?
            && HoldsGood(cfg, genesis, s.table, Offered(blocks), Offered(blocks[..n]))
    decreases n
  {
    hide HoldsGood, Inv, OnBlock, ParentsFirst;
    if n == 0 {
      InitiallyGood(cfg, genesis, Offered(blocks));
      assert blocks[..n] == [] && Offered([]) == {};
    } else {
      var s := Deliver(cfg, genesis, Initial(genesis), blocks[..n - 1]);
      var b := blocks[n - 1];
      DeliveredAreGood(cfg, genesis, blocks, n - 1);
      PrefixStep(blocks, n);
      OnBlockInv(cfg, genesis, s, b);
      KeysAfter(cfg, genesis, s, b);
      DeliverOne(cfg, genesis, s, Offered(blocks), Offered(blocks[..n - 1]), b);
    }
  }

  lemma InitiallyGood(cfg: Config, genesis: LedgerState, offered: set<BlockHeader>)
    requires cfg.Usable()
    ensures Inv(cfg, genesis, Initial(genesis)) && HoldsGood(cfg, genesis, Initial(genesis).table, offered, {})
  {
    InitialInv(cfg, genesis);
  }

  lemma PrefixStep(blocks: seq<BlockHeader>, n: nat)
    requires ParentsFirst(blocks) && 0 < n <= |blocks|
    ensures var b, before := blocks[n - 1], Offered(blocks[..n - 1]);
            && blocks[..n][..n - 1] == blocks[..n - 1] && blocks[..n][n - 1] == b
            && Offered(blocks[..n]) == before + {b}
            && before <= Offered(blocks)
            && (b.parent.BlockId? && b.parent.header in Offered(blocks) ==> b.parent.header in before)
  {
  }

  /** Two bootstrapping followers that are given the same blocks, each parent before its
      children, end with the same table. */
  lemma OrderDoesNotMatter(cfg: Config, genesis: LedgerState, a: seq<BlockHeader>, b: seq<BlockHeader>)
    requires cfg.Usable() && ParentsFirst(a) && ParentsFirst(b) && Offered(a) == Offered(b)
    ensures Deliver(cfg, genesis, Initial(genesis), a).table == Deliver(cfg, genesis, Initial(genesis), b).table
  {
    DeliveredAreGood(cfg, genesis, a, |a|);
    DeliveredAreGood(cfg, genesis, b, |b|);
    assert a[..|a|] == a && b[..|b|] == b;
    hide Deliver, Good;
    var t := Deliver(cfg, genesis, Initial(genesis), a).table;
    var u := Deliver(cfg, genesis, Initial(genesis), b).table;
    SameKeys(genesis, t, u);
  }

  lemma SameKeys(genesis: LedgerState, t: Table, u: Table)
    requires Canonical(t, genesis) && Canonical(u, genesis) && forall x :: x in t <==> x in u
    ensures t == u
  {
  }
}
