/** The synchronisation loop of cryptarchia/sync.py. */
module Sync {
  import opened Collections
  import opened Blocks
  import opened EpochStates
  import opened S = FollowerState
  import opened Delivery
  import opened Soundness
  import opened Followers
  import opened Backfill

  /** The headers of a table that are not older than a slot. */
  function Recent(t: Table, from: nat): set<BlockHeader> {
    set id | id in t && from <= t[id].block.slot :: t[id].block
  }

  ghost predicate SlotsAscend(blocks: seq<BlockHeader>) {
    forall i, j :: 0 <= i < j < |blocks| ==> blocks[i].slot <= blocks[j].slot
  }

  ghost predicate Once<T>(s: seq<T>) {
    forall i, j :: 0 <= i < j < |s| ==> s[i] != s[j]
  }

  /** Each block of a set once, by slot; blocks of one slot come in any order. */
  method SortedBySlot(s: set<BlockHeader>) returns (blocks: seq<BlockHeader>)
    ensures SlotsAscend(blocks) && Once(blocks)
    ensures forall b :: b in blocks <==> b in s
  {
    blocks := [];
    var rest := s;
    while rest != {}
      invariant rest <= s && SlotsAscend(blocks) && Once(blocks)
      invariant forall b :: b in blocks ==> b !in rest
      invariant forall b :: b in s <==> b in blocks || b in rest
      invariant forall b, c :: b in blocks && c in rest ==> b.slot <= c.slot
      decreases rest
    {
      LeastExists(rest, (b: BlockHeader) => b.slot);
      var b :| b in rest && forall c :: c in rest ==> b.slot <= c.slot;
      blocks, rest := blocks + [b], rest - {b};
    }
  }

  /** Peers whose tip is later than a slot. */
  predicate Ahead(p: Peer, from: nat) {
    p.tip.BlockId? && p.tip.header.slot > from
  }

  predicate SomeAhead(peers: seq<Peer>, from: nat) {
    exists i :: 0 <= i < |peers| && Ahead(peers[i], from)
  }

  /** Peer i is the one that is asked among the peers with its tip. */
  predicate Asked(peers: seq<Peer>, from: nat, i: nat)
    requires i < |peers|
  {
    Ahead(peers[i], from) && forall j :: 0 <= j < i ==> peers[j].tip != peers[i].tip
  }

  /** The blocks that a pass fetches. */
  ghost predicate Fetched(peers: seq<Peer>, from: nat, b: BlockHeader) {
    exists i: nat :: i < |peers| && Asked(peers, from, i) && b in Recent(peers[i].table, from)
  }

  function Concat<T>(groups: seq<seq<T>>): seq<T> {
    if groups == [] then [] else Concat(groups[..|groups| - 1]) + groups[|groups| - 1]
  }

  /** What one group contributes: each block of the peer's table from a slot on, once, by slot. */
  ghost predicate GroupOf(t: Table, from: nat, group: seq<BlockHeader>) {
    && (forall b :: b in group <==> from <= b.slot && exists id :: id in t && t[id].block == b)
    && Once(group)
    && forall i, j :: 0 <= i < j < |group| ==> group[i].slot <= group[j].slot
  }

  /** The first peers of the groups, in the order of the peers: those whose tip is later than a slot
      and is no earlier peer's tip. */
  ghost predicate FirstPeers(peers: seq<Peer>, from: nat, n: nat, asked: seq<nat>)
    requires n <= |peers|
  {
    && (forall i, j :: 0 <= i < j < |asked| ==> asked[i] < asked[j])
    && forall i: nat :: i in asked <==>
         && i < n && peers[i].tip.BlockId? && peers[i].tip.header.slot > from
         && forall j :: 0 <= j < i ==> peers[j].tip != peers[i].tip
  }

  lemma FirstPeersNext(peers: seq<Peer>, from: nat, n: nat, asked: seq<nat>)
    requires n < |peers| && FirstPeers(peers, from, n, asked)
    ensures FirstPeers(peers, from, n + 1, if Asked(peers, from, n) then asked + [n] else asked)
  {
    assert forall i :: 0 <= i < |asked| ==> asked[i] in asked;
  }

  /** `fetch_blocks_from`: one peer of each group of peers that are ahead with the same tip. */
  method FetchBlocksFrom(peers: seq<Peer>, from: nat)
    returns (blocks: seq<BlockHeader>, ghost asked: seq<nat>, ghost groups: seq<seq<BlockHeader>>)
    ensures forall b :: b in blocks <==> Fetched(peers, from, b)
    ensures blocks == Concat(groups) && FirstPeers(peers, from, |peers|, asked) && |groups| == |asked|
    ensures forall n :: 0 <= n < |asked| ==> asked[n] < |peers| && GroupOf(peers[asked[n]].table, from, groups[n])
  {
    hide GroupOf, FirstPeers;
    blocks, asked, groups := [], [], [];
    assert FirstPeers(peers, from, 0, []) by {
      NoFirstPeers(peers, from);
    }
    for i: nat := 0 to |peers|
      invariant forall b :: b in blocks <==>
        exists j: nat :: j < i && Asked(peers, from, j) && b in Recent(peers[j].table, from)
      invariant blocks == Concat(groups) && FirstPeers(peers, from, i, asked) && |groups| == |asked|
      invariant forall n :: 0 <= n < |asked| ==> asked[n] < |peers| && GroupOf(peers[asked[n]].table, from, groups[n])
    {
      FirstPeersNext(peers, from, i, asked);
      if Asked(peers, from, i) {
        var next := SortedBySlot(Recent(peers[i].table, from));
        SortedGroup(peers[i].table, from, next);
        blocks := blocks + next;
        asked, groups := asked + [i], groups + [next];
      }
    }
  }

  lemma NoFirstPeers(peers: seq<Peer>, from: nat)
    ensures FirstPeers(peers, from, 0, [])
  {
  }

  lemma SortedGroup(t: Table, from: nat, group: seq<BlockHeader>)
    requires SlotsAscend(group) && Once(group) && forall b :: b in group <==> b in Recent(t, from)
    ensures GroupOf(t, from, group)
  {
  }

  lemma FirstWithTip(peers: seq<Peer>, from: nat, i: nat) returns (j: nat)
    requires i < |peers| && Ahead(peers[i], from)
    ensures j <= i && peers[j].tip == peers[i].tip && Asked(peers, from, j)
  {
    j := i;
    if k :| 0 <= k < i && peers[k].tip == peers[i].tip {
      j := FirstWithTip(peers, from, k);
    }
  }

  /** Every tip that is ahead is fetched, and what is fetched descends from the genesis block. */
  lemma TipsAreFetched(peers: seq<Peer>, g: Hash, from: nat)
    requires AllClosed(peers, g)
    ensures forall i :: 0 <= i < |peers| && Ahead(peers[i], from) ==> Fetched(peers, from, peers[i].tip.header)
    ensures forall b :: Fetched(peers, from, b) ==> HeldByPeer(b.Id(), peers) && Descends(g, b.Id())
  {
    forall i | 0 <= i < |peers| && Ahead(peers[i], from)
      ensures Fetched(peers, from, peers[i].tip.header)
    {
      var j := FirstWithTip(peers, from, i);
      assert peers[j].Closed(g);
      assert peers[j].tip in peers[j].table;
    }
    forall b | Fetched(peers, from, b)
      ensures HeldByPeer(b.Id(), peers) && Descends(g, b.Id())
    {
      var i: nat :| i < |peers| && Asked(peers, from, i) && b in Recent(peers[i].table, from);
      assert peers[i].Closed(g);
      RootedDescends(peers[i].table, g, b.Id());
    }
  }

  /** Held or rejected. */
  ghost predicate Known(b: BlockHeader, t: Table, rejected: set<Hash>) {
    b.Id() in t || b.Id() in rejected
  }

  ghost predicate AllKnown(blocks: seq<BlockHeader>, t: Table, rejected: set<Hash>) {
    forall b :: b in blocks ==> Known(b, t, rejected)
  }

  /** The slot of a follower's tip. */
  ghost function TipSlot(s: Core): nat {
    if s.localChain.BlockId? then s.localChain.header.slot else 0
  }

  lemma TipOfTable(cfg: Config, genesis: LedgerState, s: Core)
    requires cfg.Usable() && Syncing(cfg, genesis, s)
    ensures s.localChain in s.table && s.table[s.localChain].block.slot == TipSlot(s)
  {
  }

  /** Everything that a pass would fetch is already held or rejected. */
  ghost predicate Stalled(peers: seq<Peer>, from: nat, t: Table, rejected: set<Hash>) {
    forall b :: Fetched(peers, from, b) ==> Known(b, t, rejected)
  }

  lemma FetchedAhead(peers: seq<Peer>, from: nat, b: BlockHeader)
    requires Fetched(peers, from, b)
    ensures SomeAhead(peers, from)
  {
  }

  /** The blocks in the order they are fetched say the same as the set of them. */
  lemma FetchedFacts(peers: seq<Peer>, g: Hash, from: nat, blocks: seq<BlockHeader>)
    requires AllClosed(peers, g) && forall b :: b in blocks <==> Fetched(peers, from, b)
    ensures blocks == [] <==> !SomeAhead(peers, from)
    ensures forall b :: b in blocks ==> HeldByPeer(b.Id(), peers) && Descends(g, b.Id())
  {
    hide AllClosed, Descends, Fetched, HeldByPeer, Peer.Closed;
    TipsAreFetched(peers, g, from);
    if SomeAhead(peers, from) {
      var i :| 0 <= i < |peers| && Ahead(peers[i], from);
      assert peers[i].tip.header in blocks;
    } else if blocks != [] {
      assert blocks[0] in blocks;
      FetchedAhead(peers, from, blocks[0]);
    }
  }

  lemma FetchedKnown(peers: seq<Peer>, from: nat, blocks: seq<BlockHeader>, t: Table, rejected: set<Hash>)
    requires forall b :: b in blocks <==> Fetched(peers, from, b)
    ensures Stalled(peers, from, t, rejected) <==> AllKnown(blocks, t, rejected)
  {
  }

  /** After a pass the tip of every peer that was ahead is held or rejected. */
  lemma AheadTipsKnown(peers: seq<Peer>, g: Hash, from: nat, t: Table, rejected: set<Hash>)
    requires AllClosed(peers, g) && Stalled(peers, from, t, rejected)
    ensures forall p :: p in peers && Ahead(p, from) ==> p.tip in t || p.tip in rejected
  {
    TipsAreFetched(peers, g, from);
    forall p | p in peers && Ahead(p, from)
      ensures p.tip in t || p.tip in rejected
    {
      var i :| 0 <= i < |peers| && peers[i] == p;
      assert Known(peers[i].tip.header, t, rejected);
    }
  }

  /** What a pass keeps: the follower stays a synchronising one, and what is rejected is refused. */
  ghost predicate SyncInv(local: Follower, rejected: set<Hash>)
    reads local
  {
    && local.Valid() && Syncing(local.config, local.genesisState, local.View())
    && AllRefused(local.config, local.genesisState, rejected)
  }

  /** One fetched block, offered to a follower that has rejected others before. */
  lemma OfferStep(cfg: Config, genesis: LedgerState, s: Core, rejected: set<Hash>, b: BlockHeader)
    requires cfg.Usable() && Syncing(cfg, genesis, s) && AllRefused(cfg, genesis, rejected)
    requires Descends(genesis.block.Id(), b.Id())
    ensures b.Id() in rejected || b.parent in rejected ==> Refused(cfg, genesis, b.Id()) && b.Id() !in s.table
    ensures b.Id() in rejected || b.parent in rejected ==> OnBlock(cfg, genesis, s, b).0 == s
    ensures var (r, verdict) := OnBlock(cfg, genesis, s, b);
            && Syncing(cfg, genesis, r)
            && (forall id :: id in r.table <==> id in s.table || (id == b.Id() && verdict == Accepted))
            && (verdict != Accepted ==> r == s)
            && (verdict == Duplicate <==> b.Id() in s.table)
            && (verdict in {Accepted, Duplicate, ParentNotFound} || Refused(cfg, genesis, b.Id()))
  {
    hide OnBlock, Inv, Sound;
    OnBlockSyncing(cfg, genesis, s, b);
    RefusalKeeps(cfg, genesis, s, b);
    HeldOrRefused(cfg, genesis, s, b);
    if b.parent in rejected {
      RefusedChild(cfg, genesis, b);
    }
  }

  function Ids(blocks: seq<BlockHeader>): set<Hash> {
    set b | b in blocks :: b.Id()
  }

  /** The first loop of `sync`: offer what was fetched, collect the orphans. Passing over what is
      rejected changes nothing: the follower ends as if it was offered every block in order. */
  method OfferFetched(local: Follower, blocks: seq<BlockHeader>, rejectedBefore: set<Hash>, ghost peers: seq<Peer>)
    returns (rejected: set<Hash>, orphans: set<BlockHeader>)
    requires SyncInv(local, rejectedBefore)
    requires forall b :: b in blocks ==>
      Descends(local.genesisState.block.Id(), b.Id()) && HeldByPeer(b.Id(), peers)
    modifies local
    ensures SyncInv(local, rejected)
    ensures rejectedBefore <= rejected && old(local.ledgerState).Keys <= local.ledgerState.Keys
    ensures forall b :: b in blocks ==> Known(b, local.ledgerState, rejected) || b in orphans
    ensures forall b :: b in orphans ==> b in blocks
    ensures local.View() == Deliver(local.config, local.genesisState, old(local.View()), blocks)
    ensures forall id :: id in local.ledgerState ==> id in old(local.ledgerState) || id in Ids(blocks)
    ensures AllKnown(blocks, old(local.ledgerState), rejectedBefore) ==>
      local.View() == old(local.View()) && rejected == rejectedBefore && orphans == {}
    ensures StaysTallest(local.config, local.genesisState, peers, old(local.View()), local.View())
  {
    hide S.OnBlock, S.Inv, Sound, Refused, Syncing, Descends, NearPeers, TallestNear, HeldByPeer, Deliver;
    ghost var near := NearPeers(local.config, local.genesisState, peers)
      && TallestNear(local.config, local.genesisState, local.View());
    rejected, orphans := rejectedBefore, {};
    DeliverNothing(local.config, local.genesisState, local.View(), blocks);
    for i := 0 to |blocks|
      invariant SyncInv(local, rejected)
      invariant rejectedBefore <= rejected && old(local.ledgerState).Keys <= local.ledgerState.Keys
      invariant forall j :: 0 <= j < i ==> Known(blocks[j], local.ledgerState, rejected) || blocks[j] in orphans
      invariant forall b :: b in orphans ==> b in blocks
      invariant local.View() == Deliver(local.config, local.genesisState, old(local.View()), blocks[..i])
      invariant forall id :: id in local.ledgerState ==> id in old(local.ledgerState) || id in Ids(blocks)
      invariant AllKnown(blocks, old(local.ledgerState), rejectedBefore) ==>
        local.View() == old(local.View()) && rejected == rejectedBefore && orphans == {}
      invariant near ==> TallestNear(local.config, local.genesisState, local.View())
    {
      var block := blocks[i];
      assert block in blocks;
      DeliverNext(local.config, local.genesisState, old(local.View()), blocks, i);
      OfferStep(local.config, local.genesisState, local.View(), rejected, block);
      if block.Id() in rejected || block.parent in rejected {
        rejected := rejected + {block.Id()};
        continue;
      }
      if near {
        PeerBlockKeepsTallest(local.config, local.genesisState, peers, local.View(), block);
      }
      var verdict := local.OnBlock(block);
      if verdict == S.Accepted || verdict == S.Duplicate {
        orphans := orphans - {block};
      } else if verdict == S.ParentNotFound {
        orphans := orphans + {block};
      } else {
        rejected := rejected + {block.Id()};
      }
    }
    assert blocks[..|blocks|] == blocks;
  }

  lemma {:induction false} DeliverAppend(cfg: Config, genesis: LedgerState, s: Core, a: seq<BlockHeader>,
                                         b: seq<BlockHeader>)
    requires cfg.Usable()
    ensures Deliver(cfg, genesis, s, a + b) == Deliver(cfg, genesis, Deliver(cfg, genesis, s, a), b)
    decreases |b|
  {
    hide OnBlock;
    if b == [] {
      assert a + b == a;
    } else {
      var n := |b| - 1;
      assert (a + b)[..|a + b| - 1] == a + b[..n];
      DeliverAppend(cfg, genesis, s, a, b[..n]);
    }
  }

  /** Nothing, or a beginning of what is missing of a path. */
  ghost predicate PartOf(part: seq<BlockHeader>, t: Table, path: seq<BlockHeader>) {
    part == [] || (|path| > 0 && exists missing :: MissingPart(missing, t, path) && part <= missing)
  }

  /** One part of the path of each orphan, of what is missing of it when its turn comes. */
  ghost predicate Parts(cfg: Config, genesis: LedgerState, s: Core, order: seq<BlockHeader>,
                        parts: seq<seq<BlockHeader>>)
    requires cfg.Usable()
  {
    && |parts| == |order|
    && forall i :: 0 <= i < |order| ==>
         PartOf(parts[i], Deliver(cfg, genesis, s, Concat(parts[..i])).table,
                PathDown(order[i].Id(), genesis.block.Id()))
  }

  lemma PartsNext(cfg: Config, genesis: LedgerState, s: Core, order: seq<BlockHeader>, parts: seq<seq<BlockHeader>>,
                  orphan: BlockHeader, part: seq<BlockHeader>)
    requires cfg.Usable() && Parts(cfg, genesis, s, order, parts)
    requires PartOf(part, Deliver(cfg, genesis, s, Concat(parts)).table, PathDown(orphan.Id(), genesis.block.Id()))
    ensures Parts(cfg, genesis, s, order + [orphan], parts + [part])
    ensures Deliver(cfg, genesis, s, Concat(parts + [part]))
            == Deliver(cfg, genesis, Deliver(cfg, genesis, s, Concat(parts)), part)
  {
    hide Deliver, PartOf, PathDown;
    var more := parts + [part];
    assert forall i :: 0 <= i <= |parts| ==> more[..i] == parts[..i];
    assert parts[..|parts|] == parts;
    DeliverAppend(cfg, genesis, s, Concat(parts), part);
  }

  /** The orphans once each, the latest first. */
  ghost predicate LatestFirst(order: seq<BlockHeader>, orphans: set<BlockHeader>) {
    && Once(order)
    && (forall b :: b in order <==> b in orphans)
    && forall i, j :: 0 <= i < j < |order| ==> order[j].slot <= order[i].slot
  }

  /** The order so far is of those that are done, and none that is left is later. */
  ghost predicate Ordered(order: seq<BlockHeader>, orphans: set<BlockHeader>, rest: set<BlockHeader>) {
    LatestFirst(order, orphans - rest) && forall b, c :: b in orphans - rest && c in rest ==> c.slot <= b.slot
  }

  lemma OrderedNext(order: seq<BlockHeader>, orphans: set<BlockHeader>, rest: set<BlockHeader>, orphan: BlockHeader)
    requires rest <= orphans && Ordered(order, orphans, rest) && orphan in rest
    requires forall c :: c in rest ==> c.slot <= orphan.slot
    ensures Ordered(order + [orphan], orphans, rest - {orphan})
  {
    assert forall i :: 0 <= i < |order| ==> order[i] in order;
  }

  lemma OrderedAll(order: seq<BlockHeader>, orphans: set<BlockHeader>)
    ensures Ordered([], orphans, orphans)
    ensures Ordered(order, orphans, {}) ==> LatestFirst(order, orphans)
  {
    assert orphans - {} == orphans;
  }

  /** The first of the orphans sorted by slot in descending order. */
  method Latest(rest: set<BlockHeader>) returns (orphan: BlockHeader)
    requires rest != {}
    ensures orphan in rest && forall c :: c in rest ==> c.slot <= orphan.slot
  {
    LeastExists(rest, (b: BlockHeader) => 0 - b.slot);
    orphan :| orphan in rest && forall c :: c in rest ==> c.slot <= orphan.slot;
  }

  /** One orphan: nothing to do when it is held or rejected, else its fork is backfilled. */
  method BackfillOrphan(local: Follower, peers: seq<Peer>, orphan: BlockHeader, rejectedBefore: set<Hash>)
    returns (rejected: set<Hash>, ghost part: seq<BlockHeader>)
    requires SyncInv(local, rejectedBefore) && AllClosed(peers, local.genesisState.block.Id())
    requires HeldByPeer(orphan.Id(), peers)
    modifies local
    ensures SyncInv(local, rejected)
    ensures rejectedBefore <= rejected && old(local.ledgerState).Keys <= local.ledgerState.Keys
    ensures FromPeers(peers, old(local.ledgerState), local.ledgerState)
    ensures Known(orphan, local.ledgerState, rejected)
    ensures PartOf(part, old(local.ledgerState), PathDown(orphan.Id(), local.genesisState.block.Id()))
    ensures local.View() == Deliver(local.config, local.genesisState, old(local.View()), part)
    ensures StaysTallest(local.config, local.genesisState, peers, old(local.View()), local.View())
  {
    hide S.Inv, Sound, Refused, Syncing, HeldByPeer, PathDown, AllClosed, NearPeers, TallestNear, Deliver, PartOf,
      MissingPart, MemoOk;
    ghost var g, t := local.genesisState.block.Id(), local.ledgerState;
    rejected, part := rejectedBefore, [];
    NoPart(t, PathDown(orphan.Id(), g));
    DeliverNothing(local.config, local.genesisState, local.View(), part);
    if orphan.Id() !in local.ledgerState && orphan.Id() !in rejected {
      var result, missing, n := BackfillFork(local, orphan, peers);
      PathFromPeers(peers, g, orphan.Id(), t, local.ledgerState);
      FirstPart(missing, n, t, PathDown(orphan.Id(), g));
      part := missing[..n];
      if result.InvalidBlock? {
        rejected := rejected + Ids(result.suffix);
      }
    }
  }

  /** The second loop of `sync`: backfill the orphans, the latest first. */
  method BackfillOrphans(local: Follower, peers: seq<Peer>, orphans: set<BlockHeader>, rejectedBefore: set<Hash>)
    returns (rejected: set<Hash>, ghost order: seq<BlockHeader>, ghost parts: seq<seq<BlockHeader>>)
    requires SyncInv(local, rejectedBefore) && AllClosed(peers, local.genesisState.block.Id())
    requires forall b :: b in orphans ==> HeldByPeer(b.Id(), peers)
    modifies local
    ensures SyncInv(local, rejected)
    ensures rejectedBefore <= rejected && old(local.ledgerState).Keys <= local.ledgerState.Keys
    ensures FromPeers(peers, old(local.ledgerState), local.ledgerState)
    ensures forall b :: b in orphans ==> Known(b, local.ledgerState, rejected)
    ensures LatestFirst(order, orphans) && Parts(local.config, local.genesisState, old(local.View()), order, parts)
    ensures local.View() == Deliver(local.config, local.genesisState, old(local.View()), Concat(parts))
    ensures orphans == {} ==> local.View() == old(local.View()) && rejected == rejectedBefore
    ensures StaysTallest(local.config, local.genesisState, peers, old(local.View()), local.View())
  {
    hide SyncInv, S.Inv, Sound, Refused, Syncing, HeldByPeer, PathDown, AllClosed, NearPeers, TallestNear, Deliver,
      Parts, PartOf, LatestFirst, Ordered, Concat, MissingPart, FromPeers;
    SyncInvUsable(local, rejectedBefore);
    ghost var near := NearPeers(local.config, local.genesisState, peers)
      && TallestNear(local.config, local.genesisState, local.View());
    ghost var t := local.ledgerState;
    rejected := rejectedBefore;
    var rest := orphans;
    order, parts := [], [];
    Begin(local.config, local.genesisState, local.View(), peers, orphans);
    while rest != {}
      invariant SyncInv(local, rejected) && local.config.Usable() && rest <= orphans
      invariant rejectedBefore <= rejected && old(local.ledgerState).Keys <= local.ledgerState.Keys
      invariant FromPeers(peers, t, local.ledgerState)
      invariant Ordered(order, orphans, rest)
      invariant Parts(local.config, local.genesisState, old(local.View()), order, parts)
      invariant local.View() == Deliver(local.config, local.genesisState, old(local.View()), Concat(parts))
      invariant forall b :: b in orphans ==> b in rest || Known(b, local.ledgerState, rejected)
      invariant orphans == {} ==> local.View() == old(local.View()) && rejected == rejectedBefore
      invariant near ==> TallestNear(local.config, local.genesisState, local.View())
      decreases rest
    {
      var orphan := Latest(rest);
      OrderedNext(order, orphans, rest, orphan);
      rest := rest - {orphan};
      ghost var u := local.ledgerState;
      ghost var part;
      rejected, part := BackfillOrphan(local, peers, orphan, rejected);
      FromPeersTransitive(peers, t, u, local.ledgerState);
      PartsNext(local.config, local.genesisState, old(local.View()), order, parts, orphan, part);
      order, parts := order + [orphan], parts + [part];
    }
    OrderedAll(order, orphans);
  }

  lemma SyncInvUsable(local: Follower, rejected: set<Hash>)
    requires SyncInv(local, rejected)
    ensures local.config.Usable()
  {
  }

  lemma Begin(cfg: Config, genesis: LedgerState, s: Core, peers: seq<Peer>, orphans: set<BlockHeader>)
    requires cfg.Usable()
    ensures Parts(cfg, genesis, s, [], []) && Deliver(cfg, genesis, s, Concat([])) == s
    ensures Ordered([], orphans, orphans) && FromPeers(peers, s.table, s.table)
  {
  }

  lemma NoPart(t: Table, path: seq<BlockHeader>)
    ensures PartOf([], t, path)
  {
  }

  lemma FirstPart(missing: seq<BlockHeader>, n: nat, t: Table, path: seq<BlockHeader>)
    requires n <= |missing| && (missing == [] || (|path| > 0 && MissingPart(missing, t, path)))
    ensures PartOf(missing[..n], t, path)
  {
  }

  lemma OfferedFromPeers(peers: seq<Peer>, blocks: seq<BlockHeader>, before: Table, after: Table)
    requires forall b :: b in blocks ==> HeldByPeer(b.Id(), peers)
    requires forall id :: id in after ==> id in before || id in Ids(blocks)
    ensures FromPeers(peers, before, after)
  {
  }

  /** One pass of the loop of `sync`. After it every fetched block, and so the tip of every peer
      that was ahead, is held with its whole chain or rejected. A pass that fetches only blocks
      that are already held or rejected changes nothing. */
  method SyncPass(local: Follower, peers: seq<Peer>, rejectedBefore: set<Hash>)
    returns (finished: bool, rejected: set<Hash>)
    requires SyncInv(local, rejectedBefore) && AllClosed(peers, local.genesisState.block.Id())
    modifies local
    ensures SyncInv(local, rejected)
    ensures rejectedBefore <= rejected && old(local.ledgerState).Keys <= local.ledgerState.Keys
    ensures FromPeers(peers, old(local.ledgerState), local.ledgerState)
    ensures finished <==> !SomeAhead(peers, TipSlot(old(local.View())))
    ensures Stalled(peers, TipSlot(old(local.View())), local.ledgerState, rejected)
    ensures forall p :: p in peers && Ahead(p, TipSlot(old(local.View()))) ==>
      p.tip in local.ledgerState || p.tip in rejected
    ensures Stalled(peers, TipSlot(old(local.View())), old(local.ledgerState), rejectedBefore) ==>
      local.View() == old(local.View()) && rejected == rejectedBefore
    ensures StaysTallest(local.config, local.genesisState, peers, old(local.View()), local.View())
  {
    hide NearPeers, TallestNear;
    hide S.Inv, Sound, Refused, Syncing, Fetched, Ahead, SomeAhead, Stalled, AllClosed, Peer.Closed, HeldByPeer,
         FromPeers, Ids;
    ghost var g := local.genesisState.block.Id();
    TipOfTable(local.config, local.genesisState, local.View());
    var startSlot := local.ledgerState[local.localChain].block.slot;
    var blocks, _, _ := FetchBlocksFrom(peers, startSlot);
    FetchedFacts(peers, g, startSlot, blocks);
    FetchedKnown(peers, startSlot, blocks, local.ledgerState, rejectedBefore);
    var orphans;
    ghost var t := local.ledgerState;
    rejected, orphans := OfferFetched(local, blocks, rejectedBefore, peers);
    OfferedFromPeers(peers, blocks, t, local.ledgerState);
    ghost var u := local.ledgerState;
    if |blocks| == 0 {
      FetchedKnown(peers, startSlot, blocks, local.ledgerState, rejected);
      AheadTipsKnown(peers, g, startSlot, local.ledgerState, rejected);
      return true, rejected;
    }
    ghost var order, parts;
    rejected, order, parts := BackfillOrphans(local, peers, orphans, rejected);
    FromPeersTransitive(peers, t, u, local.ledgerState);
    FetchedKnown(peers, startSlot, blocks, local.ledgerState, rejected);
    AheadTipsKnown(peers, g, startSlot, local.ledgerState, rejected);
    return false, rejected;
  }

  /** The blocks of the peers that are neither held nor rejected. */
  ghost function Unknown(peers: seq<Peer>, t: Table, rejected: set<Hash>): set<Hash> {
    set i: nat, id | i < |peers| && id in peers[i].table && id !in t && id !in rejected :: id
  }

  /** What is known only grows, and a pass over a block that was unknown makes it grow strictly. */
  lemma UnknownShrinks(peers: seq<Peer>, from: nat, t: Table, rejected: set<Hash>, u: Table, rejected': set<Hash>)
    requires t.Keys <= u.Keys && rejected <= rejected'
    requires forall i :: 0 <= i < |peers| ==> Keyed(peers[i].table)
    ensures |Unknown(peers, u, rejected')| <= |Unknown(peers, t, rejected)|
    ensures Stalled(peers, from, u, rejected') && !Stalled(peers, from, t, rejected) ==>
      |Unknown(peers, u, rejected')| < |Unknown(peers, t, rejected)|
  {
    var before, after := Unknown(peers, t, rejected), Unknown(peers, u, rejected');
    assert after <= before;
    SubsetSize(after, before);
    if Stalled(peers, from, u, rejected') && !Stalled(peers, from, t, rejected) {
      var b :| Fetched(peers, from, b) && !Known(b, t, rejected);
      var i: nat :| i < |peers| && Asked(peers, from, i) && b in Recent(peers[i].table, from);
      assert Keyed(peers[i].table) && b.Id() in peers[i].table;
      assert Known(b, u, rejected');
      assert b.Id() in before && b.Id() !in after;
      SubsetSize(after, before - {b.Id()});
    }
  }

  lemma PeersKeyed(peers: seq<Peer>, g: Hash)
    requires AllClosed(peers, g)
    ensures forall i :: 0 <= i < |peers| ==> Keyed(peers[i].table)
  {
  }

  lemma NothingAheadStalls(peers: seq<Peer>, from: nat, t: Table, rejected: set<Hash>)
    requires !SomeAhead(peers, from)
    ensures Stalled(peers, from, t, rejected)
  {
  }

  datatype Checkpoint = NoCheckpoint | StartAt(block: BlockHeader)

  datatype SyncResult = Finished | CheckpointInvalid(suffix: seq<BlockHeader>) | OutOfPasses

  /** No peer stops being ahead and no pass changes anything any more. */
  ghost predicate Stuck(peers: seq<Peer>, s: Core, rejected: set<Hash>) {
    Stalled(peers, TipSlot(s), s.table, rejected) && SomeAhead(peers, TipSlot(s))
  }

  /** A synchronising follower is stuck when every block of the one peer is held but for a refused
      tip that is ahead. */
  lemma RefusedTipIsStuck(cfg: Config, genesis: LedgerState, s: Core, p: Peer)
    requires cfg.Usable() && Syncing(cfg, genesis, s)
    requires Ahead(p, TipSlot(s)) && Refused(cfg, genesis, p.tip) && p.Closed(genesis.block.Id())
    requires forall id :: id in p.table && id != p.tip ==> id in s.table
    ensures Stuck([p], s, {p.tip})
  {
    hide Refused, Inv, Ahead;
    assert [p][0] == p;
    forall b | Fetched([p], TipSlot(s), b)
      ensures Known(b, s.table, {p.tip})
    {
      var i: nat :| i < 1 && Asked([p], TipSlot(s), i) && b in Recent([p][i].table, TipSlot(s));
    }
  }

  /** The tip of this peer is later than every held block and every sound block of any peer. */
  ghost predicate LaterThanAll(cfg: Config, genesis: LedgerState, peers: seq<Peer>, t: Table, tip: Hash)
    requires cfg.Usable()
  {
    && tip.BlockId?
    && (forall id :: id in t ==> id.BlockId? && id.header.slot < tip.header.slot)
    && (forall b: BlockHeader :: HeldByPeer(b.Id(), peers) && Sound(cfg, genesis, b) ==> b.slot < tip.header.slot)
  }

  /** Some peer is ahead of everything that could ever be held. A condition on the blocks before
      the call. */
  ghost predicate OutOfReach(cfg: Config, genesis: LedgerState, peers: seq<Peer>, t: Table)
    requires cfg.Usable()
  {
    exists i :: 0 <= i < |peers| && LaterThanAll(cfg, genesis, peers, t, peers[i].tip)
  }

  /** Holding more blocks of the peers does not bring such a peer into reach, and it is ahead. */
  lemma OutOfReachStays(cfg: Config, genesis: LedgerState, peers: seq<Peer>, t: Table, s: Core)
    requires cfg.Usable() && Syncing(cfg, genesis, s) && OutOfReach(cfg, genesis, peers, t)
    requires genesis.block.Id() in t && FromPeers(peers, t, s.table)
    ensures OutOfReach(cfg, genesis, peers, s.table) && SomeAhead(peers, TipSlot(s))
  {
    hide Inv, HeldByPeer, Sound;
    var i :| 0 <= i < |peers| && LaterThanAll(cfg, genesis, peers, t, peers[i].tip);
    var tip := peers[i].tip;
    forall id | id in s.table
      ensures id.BlockId? && id.header.slot < tip.header.slot
    {
      HeldSlot(cfg, genesis, peers, t, s, id, tip);
    }
    assert LaterThanAll(cfg, genesis, peers, s.table, tip);
    TipOfTable(cfg, genesis, s);
    assert Ahead(peers[i], TipSlot(s));
  }

  lemma HeldSlot(cfg: Config, genesis: LedgerState, peers: seq<Peer>, t: Table, s: Core, id: Hash, tip: Hash)
    requires cfg.Usable() && Syncing(cfg, genesis, s) && LaterThanAll(cfg, genesis, peers, t, tip)
    requires genesis.block.Id() in t && FromPeers(peers, t, s.table) && id in s.table
    ensures id.BlockId? && id.header.slot < tip.header.slot
  {
    hide Inv, HeldByPeer, Sound;
    SyncingTable(cfg, genesis, s);
    if id !in t {
      assert id == id.header.Id();
    }
  }

  /** What a follower is stuck behind: tips that are refused, or that it holds and does not prefer. */
  lemma StuckBehind(cfg: Config, genesis: LedgerState, peers: seq<Peer>, s: Core, rejected: set<Hash>)
    requires cfg.Usable() && AllClosed(peers, genesis.block.Id()) && AllRefused(cfg, genesis, rejected)
    requires Stuck(peers, s, rejected)
    ensures exists p :: p in peers && Ahead(p, TipSlot(s))
    ensures forall p :: p in peers && Ahead(p, TipSlot(s)) ==> p.tip in s.table || Refused(cfg, genesis, p.tip)
  {
    hide Refused, Stalled, Ahead;
    AheadTipsKnown(peers, genesis.block.Id(), TipSlot(s), s.table, rejected);
  }

  /** A block that is held or that a peer could bring. */
  ghost predicate Candidate(cfg: Config, genesis: LedgerState, peers: seq<Peer>, t: Table, id: Hash)
    requires cfg.Usable()
  {
    id in t || (id.BlockId? && HeldByPeer(id, peers) && Sound(cfg, genesis, id.header))
  }

  /** All candidates are on one line, along which slots do not fall. */
  ghost predicate OneLine(cfg: Config, genesis: LedgerState, peers: seq<Peer>, t: Table)
    requires cfg.Usable()
  {
    && (forall a, b ::
          Candidate(cfg, genesis, peers, t, a) && Candidate(cfg, genesis, peers, t, b) ==> Comparable(a, b))
    && (forall id :: Candidate(cfg, genesis, peers, t, id) && id != genesis.block.Id() ==>
          id.BlockId? && id.header.parent.BlockId? && id.header.parent.header.slot <= id.header.slot)
  }

  /** No sound block of a peer is later than every held block and every sound tip. */
  ghost predicate TipsLead(cfg: Config, genesis: LedgerState, peers: seq<Peer>, t: Table)
    requires cfg.Usable()
  {
    forall b: BlockHeader :: HeldByPeer(b.Id(), peers) && Sound(cfg, genesis, b) ==>
      || (exists id :: id in t && id.BlockId? && id.header.slot >= b.slot)
      || (exists i :: 0 <= i < |peers| && SoundTip(cfg, genesis, peers[i].tip, b.slot))
  }

  ghost predicate SoundTip(cfg: Config, genesis: LedgerState, tip: Hash, slot: nat)
    requires cfg.Usable()
  {
    tip.BlockId? && Sound(cfg, genesis, tip.header) && tip.header.slot >= slot
  }

  /** Along one line the tip is the latest held block. */
  lemma {:induction false} SlotsRise(t: Table, g: Hash, x: Hash, tip: Hash)
    requires Rooted(t, g) && x in t && tip in t && Descends(x, tip)
    requires forall id :: id in t && id != g ==>
      id.header.parent.BlockId? && id.header.parent.header.slot <= id.header.slot
    ensures x.BlockId? && tip.BlockId? && x.header.slot <= tip.header.slot
    decreases tip
  {
    RootEnds(t, g);
    if x != tip {
      if tip == g {
        RootedDescends(t, g, x);
        DescendsRank(g, x);
        DescendsRank(x, tip);
      } else {
        SlotsRise(t, g, x, tip.header.parent);
      }
    }
  }

  lemma TipIsLatest(cfg: Config, genesis: LedgerState, peers: seq<Peer>, t: Table, s: Core, x: Hash)
    requires cfg.Usable() && Syncing(cfg, genesis, s) && OneLine(cfg, genesis, peers, t)
    requires genesis.block.Id() in t && FromPeers(peers, t, s.table) && x in s.table
    ensures x.BlockId? && x.header.slot <= TipSlot(s)
  {
    hide HeldByPeer, Sound, Canonical, LibOk;
    var g := genesis.block.Id();
    forall id | id in s.table
      ensures Candidate(cfg, genesis, peers, t, id)
    {
      if id != g && id !in t {
        assert id.BlockId? && Sound(cfg, genesis, id.header);
      }
    }
    TipHeld(cfg, genesis, s);
    assert Leaf(s.localChain, s.table);
    LeafAbove(s.table, g, s.localChain, x);
    SlotsRise(s.table, g, x, s.localChain);
  }

  /** A peer with the latest tip. */
  lemma {:induction false} LatestPeer(peers: seq<Peer>, g: Hash) returns (m: nat)
    requires peers != [] && AllClosed(peers, g)
    ensures m < |peers| && forall i :: 0 <= i < |peers| ==>
      peers[i].tip.BlockId? && peers[i].tip.header.slot <= peers[m].tip.header.slot
  {
    forall i | 0 <= i < |peers|
      ensures peers[i].tip.BlockId?
    {
      assert peers[i].Closed(g);
      RootEnds(peers[i].table, g);
    }
    hide *;
    var slots := seq(|peers|, i requires 0 <= i < |peers| => peers[i].tip.header.slot);
    m := LastSlot(slots);
    assert forall i :: 0 <= i < |peers| ==> slots[i] == peers[i].tip.header.slot;
  }

  lemma {:induction false} LastSlot(slots: seq<nat>) returns (m: nat)
    requires slots != []
    ensures m < |slots| && forall i :: 0 <= i < |slots| ==> slots[i] <= slots[m]
  {
    var n := |slots| - 1;
    m := n;
    if n > 0 {
      var k := LastSlot(slots[..n]);
      m := if slots[n] > slots[k] then n else k;
    }
  }

  /** On one line that the sound tips lead, a follower is not stuck if no peer is out of reach. */
  lemma InReachIsNotStuck(cfg: Config, genesis: LedgerState, peers: seq<Peer>, t: Table, s: Core, rejected: set<Hash>)
    requires cfg.Usable() && Syncing(cfg, genesis, s) && AllRefused(cfg, genesis, rejected)
    requires AllClosed(peers, genesis.block.Id()) && genesis.block.Id() in t
    requires t.Keys <= s.table.Keys && FromPeers(peers, t, s.table)
    requires OneLine(cfg, genesis, peers, t) && TipsLead(cfg, genesis, peers, t)
    requires !OutOfReach(cfg, genesis, peers, t)
    ensures !Stuck(peers, s, rejected)
  {
    hide Syncing, OneLine, AllClosed, Ahead, HeldByPeer, FromPeers, Sound, Refused;
    if Stuck(peers, s, rejected) {
      StuckBehind(cfg, genesis, peers, s, rejected);
      var m := LatestPeer(peers, genesis.block.Id());
      LatestIsAhead(peers, m, TipSlot(s));
      assert !LaterThanAll(cfg, genesis, peers, t, peers[m].tip);
      NothingAsLate(cfg, genesis, peers, t, s, rejected, peers[m].tip.header.slot);
      assert false;
    }
  }

  lemma LatestIsAhead(peers: seq<Peer>, m: nat, from: nat)
    requires m < |peers| && peers[m].tip.BlockId? && SomeAhead(peers, from)
    requires forall i :: 0 <= i < |peers| ==>
      peers[i].tip.BlockId? && peers[i].tip.header.slot <= peers[m].tip.header.slot
    ensures Ahead(peers[m], from) && peers[m].tip.header.slot > from
  {
  }

  /** Of a stuck follower on one line: nothing held and nothing sound is as late as a slot ahead. */
  lemma NothingAsLate(cfg: Config, genesis: LedgerState, peers: seq<Peer>, t: Table, s: Core, rejected: set<Hash>,
                      slot: nat)
    requires cfg.Usable() && Syncing(cfg, genesis, s) && AllRefused(cfg, genesis, rejected)
    requires AllClosed(peers, genesis.block.Id()) && genesis.block.Id() in t
    requires t.Keys <= s.table.Keys && FromPeers(peers, t, s.table)
    requires OneLine(cfg, genesis, peers, t) && TipsLead(cfg, genesis, peers, t)
    requires Stuck(peers, s, rejected) && slot > TipSlot(s)
    ensures forall id :: id in t ==> id.BlockId? && id.header.slot < slot
    ensures forall b: BlockHeader :: HeldByPeer(b.Id(), peers) && Sound(cfg, genesis, b) ==> b.slot < slot
  {
    hide Syncing, OneLine, AllClosed, HeldByPeer, FromPeers, Sound, Stalled;
    forall id | id in s.table
      ensures id.BlockId? && id.header.slot <= TipSlot(s)
    {
      TipIsLatest(cfg, genesis, peers, t, s, id);
    }
    StuckBehind(cfg, genesis, peers, s, rejected);
    forall i | 0 <= i < |peers| && SoundTip(cfg, genesis, peers[i].tip, 0)
      ensures peers[i].tip.header.slot <= TipSlot(s)
    {
      assert peers[i] in peers && !Refused(cfg, genesis, peers[i].tip);
    }
    forall b: BlockHeader | HeldByPeer(b.Id(), peers) && Sound(cfg, genesis, b)
      ensures b.slot < slot
    {
      assert forall i :: 0 <= i < |peers| && SoundTip(cfg, genesis, peers[i].tip, b.slot) ==>
        SoundTip(cfg, genesis, peers[i].tip, 0);
    }
  }

  lemma FromPeersSelf(peers: seq<Peer>, t: Table)
    ensures FromPeers(peers, t, t)
  {
  }

  lemma CheckpointFromPeers(peers: seq<Peer>, g: Hash, tip: Hash, before: Table, after: Table)
    requires AllClosed(peers, g)
    requires !HeldByPeer(tip, peers) ==> after == before
    requires forall id :: id in after && id !in before ==> id.BlockId? && id.header in PathDown(tip, g)
    ensures FromPeers(peers, before, after)
  {
    if HeldByPeer(tip, peers) {
      PathFromPeers(peers, g, tip, before, after);
    }
  }

  lemma StuckOrNot(peers: seq<Peer>, before: Core, after: Core, rejectedBefore: set<Hash>, rejected: set<Hash>)
    ensures Stuck(peers, before, rejectedBefore) <==>
      Stalled(peers, TipSlot(before), before.table, rejectedBefore) && SomeAhead(peers, TipSlot(before))
    ensures Stuck(peers, after, rejected) <==>
      Stalled(peers, TipSlot(after), after.table, rejected) && SomeAhead(peers, TipSlot(after))
  {
  }

  /** This candidate is the only tallest one and no peer's tip is later; and it is held or a tip. */
  ghost predicate Summit(cfg: Config, genesis: LedgerState, peers: seq<Peer>, t: Table, x: Hash)
    requires cfg.Usable()
  {
    && x.BlockId? && Candidate(cfg, genesis, peers, t, x)
    && (x in t || exists i :: 0 <= i < |peers| && peers[i].tip == x)
    && (forall y :: Candidate(cfg, genesis, peers, t, y) && y != x ==> Rank(y) < Rank(x))
    && (forall i :: 0 <= i < |peers| && peers[i].tip.BlockId? ==> peers[i].tip.header.slot <= x.header.slot)
  }

  /** Near the genesis block, with forks or without: a condition on the blocks before the call. */
  ghost predicate HasSummit(cfg: Config, genesis: LedgerState, peers: seq<Peer>, s: Core)
    requires cfg.Usable()
  {
    && NearPeers(cfg, genesis, peers) && TallestNear(cfg, genesis, s)
    && exists x :: Summit(cfg, genesis, peers, s.table, x)
  }

  /** Once the only tallest candidate is held, it is the tip. */
  lemma SummitIsTip(cfg: Config, genesis: LedgerState, peers: seq<Peer>, t: Table, s: Core, x: Hash)
    requires cfg.Usable() && Syncing(cfg, genesis, s) && Tallest(s) && Summit(cfg, genesis, peers, t, x)
    requires genesis.block.Id() in t && FromPeers(peers, t, s.table) && x in s.table
    ensures s.localChain == x
  {
    hide HeldByPeer, Sound, Canonical, LibOk;
    forall id | id in s.table
      ensures Candidate(cfg, genesis, peers, t, id)
    {
      if id != genesis.block.Id() && id !in t {
        assert id.BlockId? && Sound(cfg, genesis, id.header);
      }
    }
    TipHeld(cfg, genesis, s);
    forall c | c in s.table && c.BlockId?
      ensures c.header.parent != x
    {
      assert Rank(c) == 1 + Rank(c.header.parent);
    }
    assert Leaf(x, s.table);
  }

  lemma SummitIsNotStuck(cfg: Config, genesis: LedgerState, peers: seq<Peer>, t: Table, s: Core, rejected: set<Hash>,
                         x: Hash)
    requires cfg.Usable() && Syncing(cfg, genesis, s) && AllRefused(cfg, genesis, rejected) && Tallest(s)
    requires AllClosed(peers, genesis.block.Id()) && genesis.block.Id() in t
    requires t.Keys <= s.table.Keys && FromPeers(peers, t, s.table) && Summit(cfg, genesis, peers, t, x)
    ensures !Stuck(peers, s, rejected)
  {
    hide Syncing, AllClosed, HeldByPeer, FromPeers, Sound, Stalled, Tallest, Rank;
    if Stuck(peers, s, rejected) {
      StuckBehind(cfg, genesis, peers, s, rejected);
      var m := LatestPeer(peers, genesis.block.Id());
      LatestIsAhead(peers, m, TipSlot(s));
      if x !in t {
        var i :| 0 <= i < |peers| && peers[i].tip == x;
        assert peers[i] in peers && Ahead(peers[i], TipSlot(s)) && !Refused(cfg, genesis, x);
      }
      SummitIsTip(cfg, genesis, peers, t, s, x);
      assert false;
    }
  }

  /** A follower that is left with more blocks of the peers: it is stuck or not, as could be told
      before. */
  lemma ToldBefore(cfg: Config, genesis: LedgerState, peers: seq<Peer>, t: Table, s: Core, rejected: set<Hash>)
    requires cfg.Usable() && Syncing(cfg, genesis, s) && AllRefused(cfg, genesis, rejected)
    requires AllClosed(peers, genesis.block.Id()) && genesis.block.Id() in t
    requires t.Keys <= s.table.Keys && FromPeers(peers, t, s.table)
    ensures OutOfReach(cfg, genesis, peers, t) ==> SomeAhead(peers, TipSlot(s))
    ensures Predictable(cfg, genesis, peers, t) && Stuck(peers, s, rejected) ==> OutOfReach(cfg, genesis, peers, t)
  {
    hide Syncing, OneLine, TipsLead, AllClosed, FromPeers, Stuck, SomeAhead, OutOfReach;
    if OutOfReach(cfg, genesis, peers, t) {
      OutOfReachStays(cfg, genesis, peers, t, s);
    } else if Predictable(cfg, genesis, peers, t) {
      InReachIsNotStuck(cfg, genesis, peers, t, s, rejected);
    }
  }

  /** What can be held is on one line, with slots that do not fall, and sound tips lead it. */
  ghost predicate Predictable(cfg: Config, genesis: LedgerState, peers: seq<Peer>, t: Table)
    requires cfg.Usable()
  {
    OneLine(cfg, genesis, peers, t) && TipsLead(cfg, genesis, peers, t)
  }

  lemma SummitTold(cfg: Config, genesis: LedgerState, peers: seq<Peer>, start: Core, s: Core, rejected: set<Hash>)
    requires cfg.Usable() && Syncing(cfg, genesis, s) && AllRefused(cfg, genesis, rejected)
    requires AllClosed(peers, genesis.block.Id()) && genesis.block.Id() in start.table
    requires start.table.Keys <= s.table.Keys && FromPeers(peers, start.table, s.table)
    requires NearPeers(cfg, genesis, peers) && TallestNear(cfg, genesis, start) ==> TallestNear(cfg, genesis, s)
    ensures HasSummit(cfg, genesis, peers, start) ==> !Stuck(peers, s, rejected)
  {
    hide Syncing, AllClosed, FromPeers, Stuck, Summit, NearPeers, Tallest, Near;
    if HasSummit(cfg, genesis, peers, start) {
      var x :| Summit(cfg, genesis, peers, start.table, x);
      SummitIsNotStuck(cfg, genesis, peers, start.table, s, rejected, x);
    }
  }

  /** `sync`, cut off after a number of passes. Rejected blocks are never held. It returns when no
      peer is ahead; if it has not after more passes than the peers have unknown blocks, then it is
      stuck: every later pass changes nothing. */
  method Sync(local: Follower, peers: seq<Peer>, checkpoint: Checkpoint, passes: nat)
    returns (r: SyncResult, rejected: set<Hash>)
    requires SyncInv(local, {}) && AllClosed(peers, local.genesisState.block.Id())
    modifies local
    ensures SyncInv(local, rejected) && local.ledgerState.Keys !! rejected
    ensures old(local.ledgerState).Keys <= local.ledgerState.Keys
    ensures FromPeers(peers, old(local.ledgerState), local.ledgerState)
    ensures OutOfReach(local.config, local.genesisState, peers, old(local.ledgerState)) ==> r != Finished
    ensures checkpoint == NoCheckpoint && passes > |Unknown(peers, old(local.ledgerState), {})| ==>
      (Predictable(local.config, local.genesisState, peers, old(local.ledgerState)) ==>
         (r == Finished <==> !OutOfReach(local.config, local.genesisState, peers, old(local.ledgerState))))
    ensures passes > |Unknown(peers, old(local.ledgerState), {})| ==>
      (HasSummit(local.config, local.genesisState, peers, old(local.View())) ==> r != OutOfPasses)
    ensures checkpoint == NoCheckpoint ==> !r.CheckpointInvalid?
    ensures r == Finished ==> !SomeAhead(peers, TipSlot(local.View()))
    ensures r == OutOfPasses && passes > |Unknown(peers, old(local.ledgerState), {})| ==>
      Stuck(peers, local.View(), rejected)
    ensures r.CheckpointInvalid? ==> checkpoint.StartAt? && checkpoint.block.Id() !in local.ledgerState
    ensures checkpoint.StartAt? && HeldByPeer(checkpoint.block.Id(), peers) && !r.CheckpointInvalid? ==>
      checkpoint.block.Id() in local.ledgerState
  {
    hide S.Inv, Sound, Refused, Syncing, Fetched, SomeAhead, Stalled, Unknown, HeldByPeer, PathDown, Known, OutOfReach,
         Predictable, FromPeers, Stuck, NearPeers, TallestNear, Summit, HasSummit;
    rejected := {};
    ghost var near := NearPeers(local.config, local.genesisState, peers)
      && TallestNear(local.config, local.genesisState, local.View());
    SyncingTable(local.config, local.genesisState, local.View());
    PeersKeyed(peers, local.genesisState.block.Id());
    ghost var t, g := local.ledgerState, local.genesisState.block.Id();
    ghost var start := local.View();
    FromPeersSelf(peers, t);
    ghost var unknown := |Unknown(peers, t, {})|;
    if checkpoint.StartAt? {
      var result, _, _ := BackfillFork(local, checkpoint.block, peers);
      CheckpointFromPeers(peers, g, checkpoint.block.Id(), t, local.ledgerState);
      UnknownShrinks(peers, 0, t, {}, local.ledgerState, {});
      if result.InvalidBlock? {
        return CheckpointInvalid(result.suffix), {};
      }
    }
    ghost var checkpointHeld := local.ledgerState;
    for n := 0 to passes
      invariant SyncInv(local, rejected)
      invariant t.Keys <= checkpointHeld.Keys <= local.ledgerState.Keys && FromPeers(peers, t, local.ledgerState)
      invariant near ==> TallestNear(local.config, local.genesisState, local.View())
      invariant |Unknown(peers, local.ledgerState, rejected)| + n <= unknown || Stuck(peers, local.View(), rejected)
    {
      ghost var before, rejectedBefore := local.View(), rejected;
      var finished;
      finished, rejected := SyncPass(local, peers, rejected);
      FromPeersTransitive(peers, t, before.table, local.ledgerState);
      StuckOrNot(peers, before, local.View(), rejectedBefore, rejected);
      UnknownShrinks(peers, TipSlot(before), before.table, rejectedBefore, local.ledgerState, rejected);
      if finished {
        NothingAheadStalls(peers, TipSlot(before), before.table, rejectedBefore);
        ToldBefore(local.config, local.genesisState, peers, t, local.View(), rejected);
        RefusedNotHeld(local.config, local.genesisState, local.View(), rejected);
        return Finished, rejected;
      }
    }
    ToldBefore(local.config, local.genesisState, peers, t, local.View(), rejected);
    SummitTold(local.config, local.genesisState, peers, start, local.View(), rejected);
    RefusedNotHeld(local.config, local.genesisState, local.View(), rejected);
    return OutOfPasses, rejected;
  }
}
