/** What synchronisation may rely on: which blocks can ever be held. */
module Soundness {
  import opened Blocks
  import opened EpochStates
  import opened S = FollowerState
  import opened Delivery

  /** The block and all its ancestors up to the genesis block are acceptable. */
  ghost predicate Sound(cfg: Config, genesis: LedgerState, b: BlockHeader)
    requires cfg.Usable()
    decreases b
  {
    && Acceptable(cfg, genesis, b)
    && (b.parent == genesis.block.Id() || (b.parent.BlockId? && Sound(cfg, genesis, b.parent.header)))
  }

  /** Nothing unsound is held. */
  ghost predicate SoundTable(cfg: Config, genesis: LedgerState, t: Table)
    requires cfg.Usable()
  {
    forall id :: id in t && id != genesis.block.Id() ==> id.BlockId? && Sound(cfg, genesis, id.header)
  }

  /** A bootstrapping follower between two blocks. */
  ghost predicate Syncing(cfg: Config, genesis: LedgerState, s: Core)
    requires cfg.Usable()
  {
    Inv(cfg, genesis, s) && s.mode.Bootstrapping? && SoundTable(cfg, genesis, s.table)
  }

  /** Being held is the same as being sound, for a block whose parent is held. */
  lemma SoundAbove(cfg: Config, genesis: LedgerState, s: Core, b: BlockHeader)
    requires cfg.Usable() && Syncing(cfg, genesis, s) && b.parent in s.table
    ensures Sound(cfg, genesis, b) <==> Acceptable(cfg, genesis, b)
  {
  }

  /** What one block does to a bootstrapping follower. */
  lemma OnBlockSyncing(cfg: Config, genesis: LedgerState, s: Core, b: BlockHeader)
    requires cfg.Usable() && Syncing(cfg, genesis, s)
    ensures var (r, verdict) := OnBlock(cfg, genesis, s, b);
            && Syncing(cfg, genesis, r)
            && (forall id :: id in r.table <==> id in s.table || (id == b.Id() && verdict == Accepted))
            && verdict != ImmutableFork
            && (verdict == ParentNotFound <==> b.Id() !in s.table && b.parent !in s.table)
            && (verdict == Duplicate <==> b.Id() in s.table)
            && (verdict == InvalidLeaderProof ==> b.Id() != genesis.block.Id() && !Sound(cfg, genesis, b))
            && (verdict == Accepted ==> b.Id() !in s.table && Sound(cfg, genesis, b))
  {
    hide Ledger, TipsAreLeaves, LibOk, Acceptable, Validate, Place;
    OnBlockInv(cfg, genesis, s, b);
    KeysAfter(cfg, genesis, s, b);
    AcceptanceFromAncestors(cfg, genesis, s, b);
    GenesisHeld(cfg, genesis, s, b);
    ValidateCases(cfg, genesis, s, b);
    if b.parent in s.table {
      SoundAbove(cfg, genesis, s, b);
    }
  }

  lemma ValidateCases(cfg: Config, genesis: LedgerState, s: Core, b: BlockHeader)
    requires cfg.Usable()
    ensures var v := Validate(cfg, genesis, s, b);
            && (v == ParentNotFound <==> b.parent !in s.table) && v != Duplicate
  {
  }

  lemma GenesisHeld(cfg: Config, genesis: LedgerState, s: Core, b: BlockHeader)
    requires Inv(cfg, genesis, s) && s.mode.Bootstrapping?
    ensures genesis.block.Id() in s.table && s.lib == genesis.block.Id()
    ensures b.parent in s.table ==> Descends(s.lib, b.parent)
  {
    if b.parent in s.table {
      RootedDescends(s.table, genesis.block.Id(), b.parent);
    }
  }

  lemma InitialSyncing(cfg: Config, genesis: LedgerState)
    requires cfg.Usable()
    ensures Syncing(cfg, genesis, Initial(genesis))
  {
  }

  /** Every follower that has only been given blocks since its construction can synchronise. */
  lemma {:induction false} DeliveredSyncing(cfg: Config, genesis: LedgerState, blocks: seq<BlockHeader>)
    requires cfg.Usable()
    ensures Syncing(cfg, genesis, Deliver(cfg, genesis, Initial(genesis), blocks))
    decreases |blocks|
  {
    hide Syncing, OnBlock;
    if blocks == [] {
      InitialSyncing(cfg, genesis);
    } else {
      var n := |blocks| - 1;
      DeliveredSyncing(cfg, genesis, blocks[..n]);
      OnBlockSyncing(cfg, genesis, Deliver(cfg, genesis, Initial(genesis), blocks[..n]), blocks[n]);
    }
  }

  /** Every held block of a rooted table is sound up to some point: unsoundness is inherited. */
  lemma UnsoundChild(cfg: Config, genesis: LedgerState, b: BlockHeader)
    requires cfg.Usable() && b.parent != genesis.block.Id() && b.parent.BlockId?
    requires !Sound(cfg, genesis, b.parent.header)
    ensures !Sound(cfg, genesis, b)
  {
  }
}
