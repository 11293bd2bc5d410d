/** The follower of cryptarchia/cryptarchia.py: an object that its methods update in place. */
module Followers {
  import opened Blocks
  import opened Walks
  import opened ForkChoice
  import opened EpochStates
  import S = FollowerState

  /** A ledger state that `apply` changes in place. */
  class LedgerCell {
    var block: BlockHeader
    var nonce: Hash
    var commitments: set<Commitment>
    var nullifiers: set<Nullifier>
    var leaderCount: int

    function View(): LedgerState
      reads this
    {
      LedgerState(block, nonce, commitments, nullifiers, leaderCount)
    }

    constructor CopyOf(s: LedgerState)
      ensures View() == s
    {
      block, nonce, commitments, nullifiers, leaderCount :=
        s.block, s.nonce, s.commitments, s.nullifiers, s.leaderCount;
    }

    /** `apply`, which asserts that the block extends this state's block. */
    method Apply(b: BlockHeader)
      requires b.parent == block.Id()
      modifies this
      ensures View() == old(View()).Apply(b)
    {
      nonce := EpochNonce(nonce, b.leaderProof.NonceContribution(), b.slot);
      leaderCount := leaderCount + 1;
      block := b;
    }
  }

  /** The forks that descend from a block. */
  method KeepDescendants(forks: seq<Hash>, lib: Hash, t: Table) returns (kept: seq<Hash>)
    requires Keyed(t)
    ensures kept == S.Descendants(forks, lib, t)
  {
    hide Chain, Keyed;
    kept := [];
    for i := 0 to |forks|
      invariant S.Descendants(forks, lib, t) == kept + S.Descendants(forks[i..], lib, t)
    {
      var above := IsAncestor(lib, forks[i], t);
      assert forks[i..][1..] == forks[i + 1..];
      if above {
        kept := kept + [forks[i]];
      }
    }
  }

  /** The part of a table that is on the line of a block. */
  method PruneTable(t: Table, lib: Hash) returns (pruned: Table)
    requires Keyed(t)
    ensures pruned == S.Pruned(t, lib)
  {
    hide Chain;
    pruned := map[];
    var rest := t.Keys;
    while rest != {}
      invariant rest <= t.Keys
      invariant forall id :: id in pruned <==>
        id in t && id !in rest && (lib in Chain(id, t) || id in Chain(lib, t))
      invariant forall id :: id in pruned ==> pruned[id] == t[id]
      decreases rest
    {
      var id :| id in rest;
      rest := rest - {id};
      var below := IsAncestor(lib, id, t);
      var above := IsAncestor(id, lib, t);
      if below || above {
        pruned := pruned[id := t[id]];
      }
    }
  }

  /** A bootstrapping follower does not move its last immutable block. */
  lemma PlaceAndUpdate(config: Config, genesis: LedgerState, s: S.Core, t: Table, b: BlockHeader)
    ensures S.Place(config, s, t, b).mode == s.mode
    ensures s.mode.Bootstrapping? ==> S.UpdateLib(config, genesis, S.Place(config, s, t, b)) == S.Place(config, s, t, b)
  {
  }

  lemma InsertIsUpdate(s: S.Core, b: BlockHeader)
    requires b.parent in s.table
    ensures S.Insert(s, b) == s.table[b.Id() := s.table[b.parent].Apply(b)]
  {
  }

  lemma TipsHeld(s: S.Core, genesis: LedgerState)
    requires S.TipsAreLeaves(s)
    ensures s.localChain in s.table && forall f :: f in s.forks ==> f in s.table
  {
  }

  lemma ValidatedParent(config: Config, genesis: LedgerState, s: S.Core, b: BlockHeader)
    requires config.Usable() && S.Inv(config, genesis, s) && S.Validate(config, genesis, s, b) == S.Accepted
    ensures b.parent in s.table && s.table[b.parent].block.Id() == b.parent
  {
  }

  lemma LedgerOfInv(config: Config, genesis: LedgerState, s: S.Core)
    requires S.Inv(config, genesis, s)
    ensures Ledger(s.table, genesis) && Keyed(s.table) && s.lib in s.table && S.TipsAreLeaves(s)
  {
  }

  class Follower {
    const config: Config
    const genesisState: LedgerState
    var forks: seq<Hash>
    var localChain: Hash
    var ledgerState: Table
    var epochState: Memo
    var state: S.Mode
    var lib: Hash

    ghost function View(): S.Core
      reads this
    {
      S.Core(forks, localChain, ledgerState, state, lib)
    }

    ghost predicate Valid()
      reads this
    {
      config.Usable() && S.Inv(config, genesisState, View()) && MemoOk(config, genesisState, epochState)
    }

    constructor (genesisState: LedgerState, config: Config)
      requires config.Usable()
      ensures Valid() && View() == S.Initial(genesisState)
      ensures this.genesisState == genesisState && this.config == config && epochState == map[]
    {
      this.config := config;
      this.genesisState := genesisState;
      forks := [];
      localChain := genesisState.block.Id();
      ledgerState := map[genesisState.block.Id() := genesisState];
      epochState := map[];
      state := S.Bootstrapping;
      lib := genesisState.block.Id();
      new;
      S.InitialInv(config, genesisState);
    }

    /** `compute_epoch_state`: the memo table changes the cost, never the result. */
    method ComputeEpochState(epoch: nat, tip: Hash) returns (r: EpochState)
      requires Valid() && tip in ledgerState
      modifies this`epochState
      ensures Valid()
      ensures r == EpochStateOf(config, ledgerState, genesisState, epoch, tip)
      ensures epochState == Memoised(config, ledgerState, genesisState, old(epochState), epoch, tip).1
      ensures epoch > 0 ==>
        (epoch, r.nonceSnapshot.block.Id()) in epochState && epochState[(epoch, r.nonceSnapshot.block.Id())] == r
      ensures forall key :: key in old(epochState) ==> key in epochState && epochState[key] == old(epochState)[key]
      decreases epoch
    {
      hide S.Inv, Ledger, MemoOk, Keyed;
      LedgerOfInv(config, genesisState, View());
      MemoisedIsEpochState(config, ledgerState, genesisState, epochState, epoch, tip);
      MemoGrows(config, ledgerState, genesisState, epochState, epoch, tip);
      if epoch == 0 {
        return EpochState(genesisState, genesisState, config.initialStake);
      }
      var stake := StateAtSlotBeginning(ledgerState, genesisState, tip, config.StakeSlot(epoch));
      var nonce := StateAtSlotBeginning(ledgerState, genesisState, tip, config.NonceSlot(epoch));
      var key := (epoch, nonce.block.Id());
      if key in epochState {
        return epochState[key];
      }
      var previous := ComputeEpochState(epoch - 1, tip);
      r := EpochState(stake, nonce, config.infer(previous, nonce, stake));
      epochState := epochState[key := r];
    }

    /** `validate_header`, with the exceptions as verdicts. */
    method ValidateHeader(b: BlockHeader) returns (verdict: S.Verdict)
      requires Valid()
      modifies this`epochState
      ensures Valid()
      ensures verdict == S.Validate(config, genesisState, View(), b)
      ensures epochState ==
        if verdict == S.Accepted || verdict == S.InvalidLeaderProof then
          Memoised(config, ledgerState, genesisState, old(epochState), b.slot / config.EpochLength(), b.parent).1
        else old(epochState)
    {
      hide S.Inv, Ledger, MemoOk, Keyed, EpochStateOf, Memoised;
      if b.parent !in ledgerState {
        return S.ParentNotFound;
      }
      LedgerOfInv(config, genesisState, View());
      var parentHeight := Height(b.parent, ledgerState);
      var libHeight := Height(lib, ledgerState);
      if parentHeight < libHeight {
        return S.ImmutableFork;
      }
      var epoch := ComputeEpochState(config.EpochOfSlot(b.slot), b.parent);
      if b.leaderProof.Verify(b.slot, b.parent, epoch.stakeSnapshot.commitments, ledgerState[b.parent].nullifiers) {
        verdict := S.Accepted;
      } else {
        verdict := S.InvalidLeaderProof;
      }
    }

    method ForkChoice() returns (tip: Hash)
      requires Ledger(ledgerState, genesisState)
      requires localChain in ledgerState && forall f :: f in forks ==> f in ledgerState
      ensures tip == S.ForkChoiceOf(config, state, localChain, forks, ledgerState)
    {
      if state == S.Bootstrapping {
        var g, s := genesisState.block.Id(), config.SecuritySlots();
        tip := MaxvalidBgLoop(localChain, forks, config.k, s, ledgerState, g);
      } else {
        tip := MaxvalidMcLoop(localChain, forks, config.k, ledgerState, genesisState.block.Id());
      }
    }

    /** next(islice(iter_chain(tip), k, None), genesis): the k-th block below the tip. */
    method BlockAtDepth(tip: Hash, k: nat) returns (id: Hash)
      requires Keyed(ledgerState)
      ensures id == if k < |Chain(tip, ledgerState)| then Chain(tip, ledgerState)[k] else genesisState.block.Id()
    {
      id := tip;
      var depth := 0;
      while depth < k && id in ledgerState
        invariant depth <= k && depth <= |Chain(tip, ledgerState)|
        invariant depth < |Chain(tip, ledgerState)| ==> id == Chain(tip, ledgerState)[depth]
        invariant depth == |Chain(tip, ledgerState)| ==> id !in ledgerState
      {
        ChainNext(tip, ledgerState, depth);
        id := ledgerState[id].block.parent;
        depth := depth + 1;
      }
      if id !in ledgerState {
        id := genesisState.block.Id();
      }
    }

    /** `update_lib` */
    method UpdateLib()
      requires Ledger(ledgerState, genesisState)
      modifies this`lib, this`forks, this`ledgerState
      ensures View() == S.UpdateLib(config, genesisState, old(View()))
      ensures epochState == old(epochState)
    {
      if state != S.Online {
        return;
      }
      lib := BlockAtDepth(localChain, config.k);
      forks := KeepDescendants(forks, lib, ledgerState);
      ledgerState := PruneTable(ledgerState, lib);
    }

    /** `to_online`, which asserts that the follower is bootstrapping. */
    method ToOnline()
      requires Valid() && state == S.Bootstrapping
      modifies this
      ensures Valid() && unchanged(`epochState)
      ensures View() == S.ToOnline(config, genesisState, old(View()))
    {
      hide S.Inv, S.UpdateLib, Ledger, MemoOk;
      ghost var before := View();
      S.ToOnlineInv(config, genesisState, before);
      LedgerOfInv(config, genesisState, before);
      state := S.Online;
      assert View() == before.(mode := S.Online);
      UpdateLib();
    }

    /** `on_block`, with the exceptions as verdicts. */
    method OnBlock(b: BlockHeader) returns (verdict: S.Verdict)
      requires Valid()
      modifies this
      ensures Valid()
      ensures (View(), verdict) == S.OnBlock(config, genesisState, old(View()), b)
    {
      hide S.Inv, Ledger, MemoOk, Keyed, S.Validate, S.Place, S.UpdateLib, S.TipsAreLeaves, S.Insert;
      S.OnBlockInv(config, genesisState, View(), b);
      LedgerOfInv(config, genesisState, View());
      if b.Id() in ledgerState {
        return S.Duplicate;
      }
      verdict := ValidateHeader(b);
      if verdict != S.Accepted {
        return;
      }
      ghost var before := View();
      assert b.parent in ledgerState && ledgerState[b.parent].block.Id() == b.parent by {
        ValidatedParent(config, genesisState, before, b);
      }
      var cell := new LedgerCell.CopyOf(ledgerState[b.parent]);
      cell.Apply(b);
      ledgerState := ledgerState[b.Id() := cell.View()];
      InsertIsUpdate(before, b);
      S.InsertKeeps(genesisState, before, b);
      PlaceAndUpdate(config, genesisState, before, ledgerState, b);
      PlaceBlock(b, before);
      if state == S.Online {
        UpdateLib();
      }
    }

    /** The part of `on_block` that moves the tip and the forks. */
    method PlaceBlock(b: BlockHeader, ghost before: S.Core)
      requires S.TipsAreLeaves(before) && Ledger(before.table, genesisState)
      requires b.parent in before.table && b.Id() !in before.table
      requires View() == before.(table := S.Insert(before, b))
      modifies this`forks, this`localChain
      ensures View() == S.Place(config, before, S.Insert(before, b), b)
      ensures epochState == old(epochState)
    {
      hide Ledger, S.Leaf, S.Insert, S.ForkChoiceOf, S.NoDuplicates;
      S.InsertKeeps(genesisState, before, b);
      TipsHeld(before, genesisState);
      InsertIsUpdate(before, b);
      if b.parent == localChain {
        localChain := b.Id();
      } else {
        S.SupersededFacts(forks, b.Id(), b.parent);
        forks := forks + [b.Id()];
        if b.parent in forks {
          forks := S.RemoveFirst(forks, b.parent);
        }
        var tip := ForkChoice();
        forks := forks + [localChain];
        assert tip in forks;
        forks := S.RemoveFirst(forks, tip);
        localChain := tip;
      }
    }
  }
}
