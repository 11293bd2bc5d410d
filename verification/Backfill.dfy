/** Fetching and backfilling a fork, from cryptarchia/sync.py. Peers are only read, so they are values. */
module Backfill {
  import opened Collections
  import opened Blocks
  import opened EpochStates
  import opened S = FollowerState
  import opened Delivery
  import opened Soundness
  import opened Followers

  /** A peer: its tip and its table, which may hold blocks that are not valid. */
  datatype Peer = Peer(tip: Hash, table: Table) {
    ghost predicate Closed(g: Hash) {
      Rooted(table, g) && tip in table
    }
  }

  ghost predicate AllClosed(peers: seq<Peer>, g: Hash) {
    forall i :: 0 <= i < |peers| ==> peers[i].Closed(g)
  }

  ghost predicate HeldByPeer(id: Hash, peers: seq<Peer>) {
    exists i :: 0 <= i < |peers| && id in peers[i].table
  }

  /** Whatever is held now was held before or is held by a peer. */
  ghost predicate FromPeers(peers: seq<Peer>, before: Table, after: Table) {
    forall id :: id in after ==> id in before || HeldByPeer(id, peers)
  }

  lemma FromPeersTransitive(peers: seq<Peer>, t: Table, u: Table, v: Table)
    requires FromPeers(peers, t, u) && FromPeers(peers, u, v)
    ensures FromPeers(peers, t, v)
  {
  }

  /** The headers from a block down to the genesis block g. */
  ghost function PathDown(id: Hash, g: Hash): (p: seq<BlockHeader>)
    ensures id.BlockId? ==> |p| > 0 && p[0] == id.header
  {
    if !id.BlockId? then []
    else if id == g then [id.header]
    else [id.header] + PathDown(id.header.parent, g)
  }

  /** A path that ends at g, each block followed by its parent. */
  ghost predicate LinkedTo(p: seq<BlockHeader>, g: Hash) {
    && |p| > 0
    && p[|p| - 1].Id() == g
    && forall i :: 0 <= i < |p| - 1 ==> p[i].Id() != g && p[i].parent == p[i + 1].Id()
  }

  lemma {:induction false} PathDownLinked(t: Table, g: Hash, id: Hash)
    requires Rooted(t, g) && id in t
    ensures LinkedTo(PathDown(id, g), g) && PathDown(id, g)[0].Id() == id
    decreases id
  {
    if id != g {
      PathDownLinked(t, g, id.header.parent);
      var p, q := PathDown(id, g), PathDown(id.header.parent, g);
      assert p == [id.header] + q;
      forall i | 0 <= i < |p| - 1
        ensures p[i].Id() != g && p[i].parent == p[i + 1].Id()
      {
        if i > 0 {
          assert p[i] == q[i - 1] && p[i + 1] == q[i];
        }
      }
    }
  }

  /** Walk down one table from a block; in a rooted table the walk ends at the genesis block. */
  method WalkBack(from: Hash, t: Table, g: Hash) returns (part: seq<BlockHeader>, id: Hash, atGenesis: bool)
    requires Rooted(t, g)
    ensures part == if from in t then PathDown(from, g) else []
    ensures if from in t then atGenesis else !atGenesis && id == from
  {
    part, id := [], from;
    while id in t
      invariant if part == [] then id == from else from in t && id in t
      invariant part + PathDown(id, g) == PathDown(from, g)
      decreases id
    {
      var block := t[id].block;
      assert id.BlockId? && block == id.header;
      part := part + [block];
      if block.Id() == g {
        assert PathDown(id, g) == [block];
        return part, id, true;
      }
      id := block.parent;
    }
    return part, id, false;
  }

  /** `fetch_chain_backward`: the local table first, then the peers in turn, each continuing
      where the one before it stopped. */
  method FetchChainBackward(tip: Hash, local: Table, peers: seq<Peer>, g: Hash) returns (fork: seq<BlockHeader>)
    requires Rooted(local, g) && AllClosed(peers, g)
    ensures fork == if tip in local || HeldByPeer(tip, peers) then PathDown(tip, g) else []
  {
    hide PathDown, Rooted;
    var part, id, done := WalkBack(tip, local, g);
    fork := part;
    if done {
      return;
    }
    for i := 0 to |peers|
      invariant tip !in local && fork == [] && id == tip && forall j :: 0 <= j < i ==> tip !in peers[j].table
    {
      assert peers[i].Closed(g);
      part, id, done := WalkBack(id, peers[i].table, g);
      fork := fork + part;
      if done {
        return;
      }
    }
  }

  /** `find_missing_part`: the blocks of a fork above the first held one, oldest first. */
  method FindMissingPart(t: Table, fork: seq<BlockHeader>) returns (suffix: seq<BlockHeader>)
    ensures |suffix| <= |fork| && suffix == Reverse(fork[..|suffix|])
    ensures forall i :: 0 <= i < |suffix| ==> suffix[i].Id() !in t
    ensures |suffix| < |fork| ==> fork[|suffix|].Id() in t
  {
    suffix := [];
    var n := 0;
    while n < |fork|
      invariant n <= |fork| && suffix == fork[..n]
      invariant forall i :: 0 <= i < n ==> fork[i].Id() !in t
    {
      if fork[n].Id() in t {
        break;
      }
      suffix := suffix + [fork[n]];
      n := n + 1;
    }
    suffix := Reverse(suffix);
  }

  /** The missing part, oldest first: each block extends the one before it, the first one
      extends a held block, and together they are exactly the blocks of the path not held. */
  ghost predicate MissingPart(suffix: seq<BlockHeader>, t: Table, path: seq<BlockHeader>)
    requires |path| > 0
  {
    && (forall i :: 0 <= i < |suffix| ==> suffix[i].Id() !in t)
    && (|suffix| > 0 ==> suffix[0].parent in t && suffix[|suffix| - 1] == path[0])
    && (forall i :: 0 < i < |suffix| ==> suffix[i].parent == suffix[i - 1].Id())
    && (forall b :: b in path ==> (b in suffix <==> b.Id() !in t))
    && (forall b :: b in suffix ==> b in path)
  }

  /** Below a held block everything on the path is held. */
  lemma {:induction false} HeldBelow(t: Table, g: Hash, path: seq<BlockHeader>, n: nat, i: nat)
    requires Rooted(t, g) && LinkedTo(path, g) && n <= i < |path| && path[n].Id() in t
    ensures path[i].Id() in t
    decreases i
  {
    if i > n {
      HeldBelow(t, g, path, n, i - 1);
      assert path[i - 1].Id().header.parent == path[i].Id();
    }
  }

  lemma MissingPartOfPath(t: Table, g: Hash, path: seq<BlockHeader>, suffix: seq<BlockHeader>)
    requires Rooted(t, g) && LinkedTo(path, g)
    requires |suffix| <= |path| && suffix == Reverse(path[..|suffix|])
    requires forall i :: 0 <= i < |suffix| ==> suffix[i].Id() !in t
    requires |suffix| < |path| ==> path[|suffix|].Id() in t
    ensures |suffix| < |path| && MissingPart(suffix, t, path)
  {
    var n := |suffix|;
    assert path[|path| - 1].Id() in t;
    forall i | 0 <= i < n
      ensures path[i].Id() !in t
    {
      assert suffix[n - 1 - i] == path[i];
    }
    forall b | b in path
      ensures b in suffix <==> b.Id() !in t
    {
      var i :| 0 <= i < |path| && path[i] == b;
      if i < n {
        assert suffix[n - 1 - i] == b;
      } else {
        HeldBelow(t, g, path, n, i);
      }
    }
  }

  /** Unsoundness is inherited along the missing part. */
  lemma {:induction false} UnsoundAbove(cfg: Config, genesis: LedgerState, t: Table, path: seq<BlockHeader>,
                                        suffix: seq<BlockHeader>, i: nat, j: nat)
    requires cfg.Usable() && genesis.block.Id() in t && |path| > 0 && MissingPart(suffix, t, path)
    requires i <= j < |suffix| && !Sound(cfg, genesis, suffix[i])
    ensures !Sound(cfg, genesis, suffix[j])
    decreases j
  {
    if i < j {
      UnsoundAbove(cfg, genesis, t, path, suffix, i, j - 1);
      assert suffix[j].parent == suffix[j - 1].Id();
      UnsoundChild(cfg, genesis, suffix[j]);
    }
  }

  /** A block that can never be held: a strict descendant of the genesis block that is not sound. */
  ghost predicate Refused(cfg: Config, genesis: LedgerState, id: Hash)
    requires cfg.Usable()
  {
    && id.BlockId? && id != genesis.block.Id() && Descends(genesis.block.Id(), id)
    && !Sound(cfg, genesis, id.header)
  }

  ghost predicate AllRefused(cfg: Config, genesis: LedgerState, ids: set<Hash>)
    requires cfg.Usable()
  {
    forall id :: id in ids ==> Refused(cfg, genesis, id)
  }

  /** Refused blocks are never held. */
  lemma RefusedNotHeld(cfg: Config, genesis: LedgerState, s: Core, rejected: set<Hash>)
    requires cfg.Usable() && Syncing(cfg, genesis, s) && AllRefused(cfg, genesis, rejected)
    ensures s.table.Keys !! rejected
  {
  }

  /** For one block: held blocks are sound, refused blocks are neither. */
  lemma HeldOrRefused(cfg: Config, genesis: LedgerState, s: Core, b: BlockHeader)
    requires cfg.Usable() && Syncing(cfg, genesis, s)
    ensures b.Id() in s.table ==> b == genesis.block || Sound(cfg, genesis, b)
    ensures Refused(cfg, genesis, b.Id()) ==>
      b.Id() !in s.table && b != genesis.block && !Sound(cfg, genesis, b)
  {
  }

  /** A child of a refused block is refused. */
  lemma RefusedChild(cfg: Config, genesis: LedgerState, b: BlockHeader)
    requires cfg.Usable() && Refused(cfg, genesis, b.parent)
    ensures Refused(cfg, genesis, b.Id())
  {
    var g := genesis.block.Id();
    UnsoundChild(cfg, genesis, b);
    DescendsTransitive(g, b.parent, b.Id());
    DescendsRank(g, b.parent);
  }

  /** What `find_missing_part` over `fetch_chain_backward` gives: nothing for a block held
      nowhere, else the blocks of its path that are not held. */
  lemma MissingPartOfFork(t: Table, g: Hash, tip: Hash, peers: seq<Peer>, fork: seq<BlockHeader>,
                          suffix: seq<BlockHeader>)
    requires Rooted(t, g) && AllClosed(peers, g) && tip.BlockId?
    requires fork == if tip in t || HeldByPeer(tip, peers) then PathDown(tip, g) else []
    requires |suffix| <= |fork| && suffix == Reverse(fork[..|suffix|])
    requires forall i :: 0 <= i < |suffix| ==> suffix[i].Id() !in t
    requires |suffix| < |fork| ==> fork[|suffix|].Id() in t
    ensures tip in t || !HeldByPeer(tip, peers) ==> suffix == []
    ensures tip !in t && HeldByPeer(tip, peers) ==>
      MissingPart(suffix, t, PathDown(tip, g)) && tip.header in suffix
    ensures forall i :: 0 <= i < |suffix| ==> suffix[i] in PathDown(tip, g) && Descends(g, suffix[i].Id())
  {
    assert suffix == [] || suffix[|suffix| - 1] == fork[0];
    if tip !in t && HeldByPeer(tip, peers) {
      var k :| 0 <= k < |peers| && tip in peers[k].table;
      assert peers[k].Closed(g);
      PathDownLinked(peers[k].table, g, tip);
      PathDescends(peers[k].table, g, tip);
      MissingPartOfPath(t, g, fork, suffix);
    } else if tip in t {
      PathDownLinked(t, g, tip);
    }
  }

  lemma {:induction false} PathDescends(t: Table, g: Hash, id: Hash)
    requires Rooted(t, g) && id in t
    ensures forall b :: b in PathDown(id, g) ==> Descends(g, b.Id())
    decreases id
  {
    RootedDescends(t, g, id);
    if id != g {
      PathDescends(t, g, id.header.parent);
    }
  }

  lemma SuffixRefused(cfg: Config, genesis: LedgerState, t: Table, path: seq<BlockHeader>, suffix: seq<BlockHeader>,
                      i: nat)
    requires cfg.Usable() && genesis.block.Id() in t && |path| > 0 && MissingPart(suffix, t, path)
    requires i < |suffix| && !Sound(cfg, genesis, suffix[i])
    requires forall j :: 0 <= j < |suffix| ==> Descends(genesis.block.Id(), suffix[j].Id())
    ensures path[0] in suffix[i..]
    ensures forall b :: b in suffix[i..] ==> Refused(cfg, genesis, b.Id())
  {
    assert suffix[i..][|suffix| - 1 - i] == path[0];
    forall b | b in suffix[i..]
      ensures Refused(cfg, genesis, b.Id())
    {
      var j :| i <= j < |suffix| && suffix[j] == b;
      UnsoundAbove(cfg, genesis, t, path, suffix, i, j);
    }
  }

  /** What is held once the first n blocks of a missing part are added. */
  ghost predicate Backfilled(t: Table, u: Table, suffix: seq<BlockHeader>, n: nat)
    requires n <= |suffix|
  {
    && (forall id :: id in t ==> id in u)
    && (forall i :: 0 <= i < n ==> suffix[i].Id() in u)
    && (forall id :: id in u && id !in t ==> id.BlockId? && id.header in suffix)
  }

  /** One block of a missing part: it is added, or it and all blocks above it are refused. */
  lemma BackfillStep(cfg: Config, genesis: LedgerState, s: Core, t: Table, path: seq<BlockHeader>,
                     suffix: seq<BlockHeader>, i: nat)
    requires cfg.Usable() && Syncing(cfg, genesis, s) && |path| > 0 && MissingPart(suffix, t, path)
    requires genesis.block.Id() in t && i < |suffix| && Backfilled(t, s.table, suffix, i)
    requires forall j :: 0 <= j < |suffix| ==> Descends(genesis.block.Id(), suffix[j].Id())
    ensures var (r, verdict) := OnBlock(cfg, genesis, s, suffix[i]);
            && Syncing(cfg, genesis, r)
            && if verdict == Accepted || verdict == Duplicate then Backfilled(t, r.table, suffix, i + 1)
               else r == s && path[0] in suffix[i..]
                    && forall b :: b in suffix[i..] ==> Refused(cfg, genesis, b.Id())
  {
    hide OnBlock, Inv, Sound, SoundTable, Refused;
    OnBlockSyncing(cfg, genesis, s, suffix[i]);
    RefusalKeeps(cfg, genesis, s, suffix[i]);
    assert suffix[i].parent in s.table by {
      if i > 0 {
        assert suffix[i].parent == suffix[i - 1].Id();
      }
    }
    if OnBlock(cfg, genesis, s, suffix[i]).1 == InvalidLeaderProof {
      SuffixRefused(cfg, genesis, t, path, suffix, i);
    }
  }

  lemma NothingBackfilled(t: Table, suffix: seq<BlockHeader>)
    ensures Backfilled(t, t, suffix, 0)
  {
  }

  lemma RefusalKeeps(cfg: Config, genesis: LedgerState, s: Core, b: BlockHeader)
    requires cfg.Usable()
    ensures var (r, verdict) := OnBlock(cfg, genesis, s, b); verdict != Accepted ==> r == s
  {
  }

  lemma SyncingTable(cfg: Config, genesis: LedgerState, s: Core)
    requires cfg.Usable() && Syncing(cfg, genesis, s)
    ensures Rooted(s.table, genesis.block.Id()) && SoundTable(cfg, genesis, s.table)
  {
  }

  lemma {:induction false} PathHeld(t: Table, g: Hash, id: Hash)
    requires Rooted(t, g) && id in t
    ensures forall b :: b in PathDown(id, g) ==> b.Id() in t
    decreases id
  {
    if id != g {
      PathHeld(t, g, id.header.parent);
    }
  }

  lemma PathFromPeers(peers: seq<Peer>, g: Hash, tip: Hash, before: Table, after: Table)
    requires AllClosed(peers, g) && HeldByPeer(tip, peers)
    requires forall id :: id in after && id !in before ==> id.BlockId? && id.header in PathDown(tip, g)
    ensures FromPeers(peers, before, after)
  {
    var k :| 0 <= k < |peers| && tip in peers[k].table;
    assert peers[k].Closed(g);
    PathHeld(peers[k].table, g, tip);
    forall id | id in after && id !in before
      ensures HeldByPeer(id, peers)
    {
      assert id.header in PathDown(tip, g);
    }
  }

  /** Every sound block of a peer is near the genesis block. */
  ghost predicate NearPeers(cfg: Config, genesis: LedgerState, peers: seq<Peer>)
    requires cfg.Usable()
  {
    forall b: BlockHeader :: HeldByPeer(b.Id(), peers) && Sound(cfg, genesis, b) ==> Near(cfg, genesis, b.Id())
  }

  ghost predicate StaysTallest(cfg: Config, genesis: LedgerState, peers: seq<Peer>, before: Core, after: Core)
    requires cfg.Usable()
  {
    NearPeers(cfg, genesis, peers) && TallestNear(cfg, genesis, before) ==> TallestNear(cfg, genesis, after)
  }

  /** Among such peers a synchronising follower keeps to a tallest tip. */
  lemma PeerBlockKeepsTallest(cfg: Config, genesis: LedgerState, peers: seq<Peer>, s: Core, b: BlockHeader)
    requires cfg.Usable() && Syncing(cfg, genesis, s) && NearPeers(cfg, genesis, peers) && TallestNear(cfg, genesis, s)
    requires HeldByPeer(b.Id(), peers)
    ensures TallestNear(cfg, genesis, OnBlock(cfg, genesis, s, b).0)
  {
    hide OnBlock, Inv, Sound, TallestNear, HeldByPeer, Near, SoundTable;
    OnBlockSyncing(cfg, genesis, s, b);
    NearKeepsTallest(cfg, genesis, s, b);
  }

  lemma SuffixFromPeers(peers: seq<Peer>, g: Hash, tip: Hash, t: Table, suffix: seq<BlockHeader>)
    requires AllClosed(peers, g)
    requires tip in t || !HeldByPeer(tip, peers) ==> suffix == []
    requires forall i :: 0 <= i < |suffix| ==> suffix[i] in PathDown(tip, g)
    ensures forall i :: 0 <= i < |suffix| ==> HeldByPeer(suffix[i].Id(), peers)
  {
    if HeldByPeer(tip, peers) {
      var k :| 0 <= k < |peers| && tip in peers[k].table;
      assert peers[k].Closed(g);
      PathHeld(peers[k].table, g, tip);
    }
  }

  lemma DeliverNext(cfg: Config, genesis: LedgerState, s: Core, blocks: seq<BlockHeader>, i: nat)
    requires cfg.Usable() && i < |blocks|
    ensures Deliver(cfg, genesis, s, blocks[..i + 1])
            == OnBlock(cfg, genesis, Deliver(cfg, genesis, s, blocks[..i]), blocks[i]).0
  {
    hide OnBlock;
    assert blocks[..i + 1][..i] == blocks[..i];
  }

  datatype BackfillResult = Done | InvalidBlock(suffix: seq<BlockHeader>)

  lemma DeliverNothing(cfg: Config, genesis: LedgerState, s: Core, blocks: seq<BlockHeader>)
    requires cfg.Usable()
    ensures Deliver(cfg, genesis, s, blocks[..0]) == s
  {
  }

  /** The loop of `backfill_fork`: offer the missing blocks in order up to the first that is refused. */
  method OfferInOrder(local: Follower, suffix: seq<BlockHeader>, ghost path: seq<BlockHeader>,
                      ghost peers: seq<Peer>)
    returns (n: nat)
    requires local.Valid() && Syncing(local.config, local.genesisState, local.View())
    requires local.genesisState.block.Id() in local.ledgerState
    requires suffix != [] ==> |path| > 0 && MissingPart(suffix, local.ledgerState, path)
    requires forall i :: 0 <= i < |suffix| ==>
      Descends(local.genesisState.block.Id(), suffix[i].Id()) && HeldByPeer(suffix[i].Id(), peers)
    modifies local
    ensures local.Valid() && Syncing(local.config, local.genesisState, local.View())
    ensures n <= |suffix| && Backfilled(old(local.ledgerState), local.ledgerState, suffix, n)
    ensures local.View() == Deliver(local.config, local.genesisState, old(local.View()), suffix[..n])
    ensures n == 0 ==> local.View() == old(local.View())
    ensures n < |suffix| ==>
      path[0] in suffix[n..] && forall b :: b in suffix[n..] ==> Refused(local.config, local.genesisState, b.Id())
    ensures StaysTallest(local.config, local.genesisState, peers, old(local.View()), local.View())
  {
    hide S.OnBlock, S.Inv, Sound, MissingPart, S.TipsAreLeaves, Rooted, Refused, NearPeers, TallestNear, Deliver,
      Syncing, HeldByPeer, Descends, Backfilled, MemoOk;
    ghost var near := NearPeers(local.config, local.genesisState, peers)
      && TallestNear(local.config, local.genesisState, local.View());
    ghost var t := local.ledgerState;
    NothingBackfilled(t, suffix);
    DeliverNothing(local.config, local.genesisState, local.View(), suffix);
    for i := 0 to |suffix|
      invariant local.Valid() && Syncing(local.config, local.genesisState, local.View())
      invariant i == 0 ==> local.View() == old(local.View())
      invariant Backfilled(t, local.ledgerState, suffix, i)
      invariant local.View() == Deliver(local.config, local.genesisState, old(local.View()), suffix[..i])
      invariant near ==> TallestNear(local.config, local.genesisState, local.View())
    {
      if near {
        PeerBlockKeepsTallest(local.config, local.genesisState, peers, local.View(), suffix[i]);
      }
      BackfillStep(local.config, local.genesisState, local.View(), t, path, suffix, i);
      DeliverNext(local.config, local.genesisState, old(local.View()), suffix, i);
      var verdict := local.OnBlock(suffix[i]);
      if verdict != S.Accepted && verdict != S.Duplicate {
        return i;
      }
    }
    return |suffix|;
  }

  /** `backfill_fork`, with InvalidBlockFromBackfillFork as a result. */
  method BackfillFork(local: Follower, forkTip: BlockHeader, peers: seq<Peer>)
    returns (r: BackfillResult, ghost missing: seq<BlockHeader>, ghost n: nat)
    requires local.Valid() && Syncing(local.config, local.genesisState, local.View())
    requires AllClosed(peers, local.genesisState.block.Id())
    modifies local
    ensures local.Valid() && Syncing(local.config, local.genesisState, local.View())
    ensures old(local.ledgerState).Keys <= local.ledgerState.Keys
    ensures forall id :: id in local.ledgerState && id !in old(local.ledgerState) ==>
      id.BlockId? && id.header in PathDown(forkTip.Id(), local.genesisState.block.Id())
    ensures !HeldByPeer(forkTip.Id(), peers) ==> r == Done && local.View() == old(local.View())
    ensures HeldByPeer(forkTip.Id(), peers) ==>
      (r == Done <==> forkTip.Id() in local.ledgerState)
    ensures HeldByPeer(forkTip.Id(), peers) ==>
      (r == Done <==> forkTip == local.genesisState.block || Sound(local.config, local.genesisState, forkTip))
    ensures missing == [] || MissingPart(missing, old(local.ledgerState),
                                         PathDown(forkTip.Id(), local.genesisState.block.Id()))
    ensures missing == [] <==> forkTip.Id() in old(local.ledgerState) || !HeldByPeer(forkTip.Id(), peers)
    ensures n <= |missing| && r == if n == |missing| then Done else InvalidBlock(missing[n..])
    ensures local.View() == Deliver(local.config, local.genesisState, old(local.View()), missing[..n])
    ensures forall i :: 0 <= i < n ==> missing[i].Id() in local.ledgerState
    ensures r.InvalidBlock? ==>
      forkTip in r.suffix && forall b :: b in r.suffix ==> Refused(local.config, local.genesisState, b.Id())
    ensures StaysTallest(local.config, local.genesisState, peers, old(local.View()), local.View())
  {
    hide S.OnBlock, S.Inv, Sound, MissingPart, PathDown, S.TipsAreLeaves, Rooted, Refused, NearPeers, TallestNear,
      Deliver, AllClosed, HeldByPeer, SoundTable, MemoOk, Syncing, Reverse;
    ghost var t := local.ledgerState;
    var g := local.genesisState.block.Id();
    SyncingTable(local.config, local.genesisState, local.View());
    var fork := FetchChainBackward(forkTip.Id(), local.ledgerState, peers, g);
    var suffix := FindMissingPart(local.ledgerState, fork);
    MissingPartOfFork(t, g, forkTip.Id(), peers, fork, suffix);
    SuffixFromPeers(peers, g, forkTip.Id(), t, suffix);
    var taken := OfferInOrder(local, suffix, PathDown(forkTip.Id(), g), peers);
    HeldOrRefused(local.config, local.genesisState, local.View(), forkTip);
    missing, n := suffix, taken;
    r := if taken < |suffix| then InvalidBlock(suffix[taken..]) else Done;
  }
}
