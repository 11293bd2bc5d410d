/** The schedule of snapshots and the epoch states, with and without the memo table. */
module EpochStates {
  import opened Blocks

  datatype EpochState = EpochState(stakeSnapshot: LedgerState, nonceSnapshot: LedgerState, inferredStake: int)

  /** The configuration. The base period floor(k / f) and the inference of the total stake
      rest on floating point, so they are parameters. */
  datatype Config = Config(
    k: nat, basePeriod: nat, stakeStabilization: nat, nonceBuffer: nat, nonceStabilization: nat,
    initialStake: int, infer: (EpochState, LedgerState, LedgerState) -> int)
  {
    function RelativeNonceSlot(): nat {
      (stakeStabilization + nonceBuffer) * basePeriod
    }

    function EpochLength(): nat {
      RelativeNonceSlot() + nonceStabilization * basePeriod
    }

    /** The security parameter s. */
    function SecuritySlots(): nat {
      basePeriod * 3
    }

    predicate Usable() {
      EpochLength() > 0
    }

    function EpochOfSlot(slot: nat): nat
      requires Usable()
    {
      slot / EpochLength()
    }

    /** The stake snapshot of an epoch is taken at the start of the previous epoch. */
    function StakeSlot(epoch: nat): nat
      requires epoch > 0
    {
      (epoch - 1) * EpochLength()
    }

    /** The nonce snapshot is taken later in the previous epoch. */
    function NonceSlot(epoch: nat): nat
      requires epoch > 0
    {
      RelativeNonceSlot() + StakeSlot(epoch)
    }
  }

  /** `state_at_slot_beginning`: the first state below the tip that is older than the slot. */
  ghost function StateAt(t: Table, genesis: LedgerState, tip: Hash, slot: nat): LedgerState {
    if tip in t && tip.BlockId? then
      if t[tip].block.slot < slot then t[tip] else StateAt(t, genesis, tip.header.parent, slot)
    else genesis
  }

  method StateAtSlotBeginning(t: Table, genesis: LedgerState, tip: Hash, slot: nat) returns (state: LedgerState)
    requires Keyed(t)
    ensures state == StateAt(t, genesis, tip, slot)
  {
    var id := tip;
    while id in t
      invariant StateAt(t, genesis, tip, slot) == StateAt(t, genesis, id, slot)
      decreases id
    {
      assert id.BlockId? && t[id].block == id.header;
      if t[id].block.slot < slot {
        return t[id];
      }
      id := t[id].block.parent;
    }
    state := genesis;
  }

  /** `compute_epoch_state` without the memo table. */
  ghost function EpochStateOf(cfg: Config, t: Table, genesis: LedgerState, epoch: nat, tip: Hash): EpochState
    decreases epoch
  {
    if epoch == 0 then EpochState(genesis, genesis, cfg.initialStake)
    else
      var stake := StateAt(t, genesis, tip, cfg.StakeSlot(epoch));
      var nonce := StateAt(t, genesis, tip, cfg.NonceSlot(epoch));
      EpochState(stake, nonce, cfg.infer(EpochStateOf(cfg, t, genesis, epoch - 1, tip), nonce, stake))
  }

  type Memo = map<(nat, Hash), EpochState>

  /** `compute_epoch_state` with the memo table: the result and the table it leaves behind. */
  ghost function Memoised(cfg: Config, t: Table, genesis: LedgerState, memo: Memo, epoch: nat, tip: Hash)
    : (r: (EpochState, Memo))
    decreases epoch
  {
    if epoch == 0 then (EpochState(genesis, genesis, cfg.initialStake), memo)
    else
      var stake := StateAt(t, genesis, tip, cfg.StakeSlot(epoch));
      var nonce := StateAt(t, genesis, tip, cfg.NonceSlot(epoch));
      var key := (epoch, nonce.block.Id());
      if key in memo then (memo[key], memo)
      else
        var (previous, memo') := Memoised(cfg, t, genesis, memo, epoch - 1, tip);
        var state := EpochState(stake, nonce, cfg.infer(previous, nonce, stake));
        (state, memo'[key := state])
  }

  /** The tables that a follower can hold: a tree of canonical states below the genesis block. */
  ghost predicate Ledger(t: Table, genesis: LedgerState) {
    Rooted(t, genesis.block.Id()) && Canonical(t, genesis)
  }

  /** The same walk on the block ids alone, whatever is held. */
  ghost function SnapshotOf(genesis: LedgerState, id: Hash, slot: nat): LedgerState {
    if id.BlockId? && id != genesis.block.Id() then
      if id.header.slot < slot then StateOf(genesis, id) else SnapshotOf(genesis, id.header.parent, slot)
    else genesis
  }

  lemma {:induction false} StateAtIsSnapshot(t: Table, genesis: LedgerState, tip: Hash, slot: nat)
    requires Ledger(t, genesis) && tip in t
    ensures StateAt(t, genesis, tip, slot) == SnapshotOf(genesis, tip, slot)
    decreases tip
  {
    if tip == genesis.block.Id() {
      RootEnds(t, genesis.block.Id());
      assert StateAt(t, genesis, tip.header.parent, slot) == genesis;
    } else {
      StateAtIsSnapshot(t, genesis, tip.header.parent, slot);
    }
  }

  /** An earlier snapshot can be taken from a later snapshot's block instead of the tip. */
  lemma {:induction false} SnapshotOfSnapshot(genesis: LedgerState, tip: Hash, early: nat, late: nat)
    requires early <= late
    ensures SnapshotOf(genesis, SnapshotOf(genesis, tip, late).block.Id(), early) == SnapshotOf(genesis, tip, early)
    decreases tip
  {
    if tip.BlockId? && tip != genesis.block.Id() {
      if tip.header.slot >= late {
        SnapshotOfSnapshot(genesis, tip.header.parent, early, late);
      } else {
        StateOfBlock(genesis, tip);
      }
    }
  }

  /** The epoch state on the block ids alone. */
  ghost function EpochOf(cfg: Config, genesis: LedgerState, epoch: nat, id: Hash): EpochState
    decreases epoch
  {
    if epoch == 0 then EpochState(genesis, genesis, cfg.initialStake)
    else
      var stake := SnapshotOf(genesis, id, cfg.StakeSlot(epoch));
      var nonce := SnapshotOf(genesis, id, cfg.NonceSlot(epoch));
      EpochState(stake, nonce, cfg.infer(EpochOf(cfg, genesis, epoch - 1, id), nonce, stake))
  }

  lemma {:induction false} EpochStateIsEpoch(cfg: Config, t: Table, genesis: LedgerState, epoch: nat, tip: Hash)
    requires Ledger(t, genesis) && tip in t
    ensures EpochStateOf(cfg, t, genesis, epoch, tip) == EpochOf(cfg, genesis, epoch, tip)
    decreases epoch
  {
    if epoch > 0 {
      EpochStateIsEpoch(cfg, t, genesis, epoch - 1, tip);
      StateAtIsSnapshot(t, genesis, tip, cfg.StakeSlot(epoch));
      StateAtIsSnapshot(t, genesis, tip, cfg.NonceSlot(epoch));
    }
  }

  lemma SlotsGrow(cfg: Config, epoch: nat, later: nat)
    requires 0 < epoch <= later
    ensures cfg.StakeSlot(epoch) <= cfg.NonceSlot(epoch) <= cfg.NonceSlot(later)
  {
  }

  /** The key of the memo table determines the epoch state: the block of the nonce snapshot of
      an epoch gives that epoch and every earlier one the same state as the tip does. */
  lemma {:induction false} KeyDetermines(cfg: Config, genesis: LedgerState, epoch: nat, key: nat, tip: Hash)
    requires 0 < key && epoch <= key
    ensures EpochOf(cfg, genesis, epoch, SnapshotOf(genesis, tip, cfg.NonceSlot(key)).block.Id())
            == EpochOf(cfg, genesis, epoch, tip)
    decreases epoch
  {
    if epoch > 0 {
      SlotsGrow(cfg, epoch, key);
      KeyDetermines(cfg, genesis, epoch - 1, key, tip);
      SnapshotOfSnapshot(genesis, tip, cfg.StakeSlot(epoch), cfg.NonceSlot(key));
      SnapshotOfSnapshot(genesis, tip, cfg.NonceSlot(epoch), cfg.NonceSlot(key));
    }
  }

  /** Every memoised entry is the epoch state at the block of its key. This does not mention
      the table, so growth and pruning of the table cannot break it. */
  ghost predicate MemoOk(cfg: Config, genesis: LedgerState, memo: Memo) {
    forall key :: key in memo ==> key.0 > 0 && memo[key] == EpochOf(cfg, genesis, key.0, key.1)
  }

  /** The memoised computation agrees with the recursion, whichever tips filled the table. */
  lemma {:induction false} MemoisedIsEpochState(cfg: Config, t: Table, genesis: LedgerState, memo: Memo, epoch: nat,
                                                tip: Hash)
    requires Ledger(t, genesis) && tip in t && MemoOk(cfg, genesis, memo)
    ensures Memoised(cfg, t, genesis, memo, epoch, tip).0 == EpochStateOf(cfg, t, genesis, epoch, tip)
    ensures MemoOk(cfg, genesis, Memoised(cfg, t, genesis, memo, epoch, tip).1)
    decreases epoch
  {
    if epoch > 0 {
      EpochStateIsEpoch(cfg, t, genesis, epoch, tip);
      StateAtIsSnapshot(t, genesis, tip, cfg.NonceSlot(epoch));
      KeyDetermines(cfg, genesis, epoch, epoch, tip);
      MemoisedIsEpochState(cfg, t, genesis, memo, epoch - 1, tip);
    }
  }

  /** A slot of an epoch two or more before the given one. */
  predicate TwoEpochsBack(cfg: Config, epoch: nat, slot: nat)
    requires cfg.Usable()
  {
    var length := (cfg.stakeStabilization + cfg.nonceBuffer + cfg.nonceStabilization) * cfg.basePeriod;
    LengthInFields(cfg);
    slot / length + 2 <= epoch
  }

  /** Such a slot, or one of the previous epoch while the stake settles and the nonce buffer lasts. */
  predicate BeforeNonce(cfg: Config, epoch: nat, slot: nat)
    requires cfg.Usable()
  {
    var length := (cfg.stakeStabilization + cfg.nonceBuffer + cfg.nonceStabilization) * cfg.basePeriod;
    LengthInFields(cfg);
    || slot / length + 2 <= epoch
    || (slot / length + 1 == epoch && slot % length < (cfg.stakeStabilization + cfg.nonceBuffer) * cfg.basePeriod)
  }

  lemma LengthInFields(cfg: Config)
    ensures cfg.EpochLength() == (cfg.stakeStabilization + cfg.nonceBuffer + cfg.nonceStabilization) * cfg.basePeriod
    ensures cfg.RelativeNonceSlot() <= cfg.EpochLength()
  {
    assert cfg.nonceStabilization * cfg.basePeriod >= 0;
  }

  /** The epoch of a slot is the one whose slots it lies between. */
  lemma EpochBounds(cfg: Config, slot: nat)
    requires cfg.Usable()
    ensures var length := (cfg.stakeStabilization + cfg.nonceBuffer + cfg.nonceStabilization) * cfg.basePeriod;
            cfg.EpochOfSlot(slot) * length <= slot < (cfg.EpochOfSlot(slot) + 1) * length
  {
    LengthInFields(cfg);
    var q, r := DivBounds(slot, cfg.EpochLength());
    assert (q + 1) * cfg.EpochLength() == q * cfg.EpochLength() + cfg.EpochLength();
  }

  lemma DivBounds(x: nat, d: nat) returns (q: nat, r: nat)
    requires d > 0
    ensures q == x / d && r == x % d && r < d && x == q * d + r
  {
    q, r := x / d, x % d;
  }

  lemma MultiplesApart(a: nat, b: nat, d: nat)
    requires a < b
    ensures a * d + d <= b * d
  {
    var more: nat := b - a - 1;
    assert more * d >= 0;
    assert b * d == a * d + d + more * d;
  }

  /** A number and the first part of a group, by quotient and remainder. */
  lemma BelowBound(x: nat, n: nat, part: nat, d: nat)
    requires d > 0 && part <= d
    ensures x < part + n * d <==> x / d < n || (x / d == n && x % d < part)
  {
    var q, r := DivBounds(x, d);
    BelowByParts(q, r, n, part, d);
  }

  lemma BelowByParts(q: nat, r: nat, n: nat, part: nat, d: nat)
    requires r < d && part <= d
    ensures q * d + r < part + n * d <==> q < n || (q == n && r < part)
  {
    hide *;
    if q < n {
      MultiplesApart(q, n, d);
    } else if q > n {
      MultiplesApart(n, q, d);
    }
  }

  /** The two bounds of the schedule, by epochs. */
  lemma ScheduleByEpochs(cfg: Config, epoch: nat, slot: nat)
    requires cfg.Usable() && epoch > 0
    ensures slot < cfg.StakeSlot(epoch) <==> TwoEpochsBack(cfg, epoch, slot)
    ensures slot < cfg.NonceSlot(epoch) <==> BeforeNonce(cfg, epoch, slot)
  {
    hide Config.EpochLength, Config.RelativeNonceSlot;
    LengthInFields(cfg);
    BelowBound(slot, epoch - 1, 0, cfg.EpochLength());
    BelowBound(slot, epoch - 1, cfg.RelativeNonceSlot(), cfg.EpochLength());
    NonceInFields(cfg);
  }

  lemma NonceInFields(cfg: Config)
    ensures cfg.RelativeNonceSlot() == (cfg.stakeStabilization + cfg.nonceBuffer) * cfg.basePeriod
  {
  }

  /** A held block of a chain, and its slot is early. */
  ghost predicate EarlyBlock(t: Table, tip: Hash, early: nat -> bool, x: Hash) {
    x in t && Descends(x, tip) && x.BlockId? && early(x.header.slot)
  }

  /** The state of the highest early block of a chain, or the genesis state if there is none. */
  ghost predicate Snapshot(t: Table, genesis: LedgerState, tip: Hash, early: nat -> bool, r: LedgerState) {
    || (r == genesis && forall x :: !EarlyBlock(t, tip, early, x))
    || (exists a :: EarlyBlock(t, tip, early, a) && r == t[a]
                    && forall x :: EarlyBlock(t, tip, early, x) ==> Descends(x, a))
  }

  lemma {:induction false} StateAtIsHighest(t: Table, genesis: LedgerState, tip: Hash, slot: nat, early: nat -> bool)
    requires Ledger(t, genesis) && tip in t && forall x: nat :: early(x) <==> x < slot
    ensures Snapshot(t, genesis, tip, early, StateAt(t, genesis, tip, slot))
    decreases tip
  {
    assert tip.BlockId? && t[tip].block == tip.header by {
      RootEnds(t, genesis.block.Id());
    }
    if tip.header.slot < slot {
      assert EarlyBlock(t, tip, early, tip);
    } else if tip == genesis.block.Id() {
      RootEnds(t, genesis.block.Id());
      forall x
        ensures !EarlyBlock(t, tip, early, x)
      {
        if x in t && Descends(x, tip) {
          RootedDescends(t, tip, x);
          DescendsRank(x, tip);
          DescendsRank(tip, x);
        }
      }
    } else {
      var parent := tip.header.parent;
      StateAtIsHighest(t, genesis, parent, slot, early);
      assert forall x :: EarlyBlock(t, tip, early, x) <==> EarlyBlock(t, parent, early, x);
    }
  }

  /** The epoch states by epochs: the stake snapshot of an epoch is the state of the last block of the
      chain that lies two or more epochs before it, the nonce snapshot that of the last block before
      the nonce of the previous epoch settles, and the stake is inferred from the previous epoch's. */
  lemma EpochSchedule(cfg: Config, t: Table, genesis: LedgerState, epoch: nat, tip: Hash)
    requires cfg.Usable() && Ledger(t, genesis) && tip in t
    ensures var r := EpochStateOf(cfg, t, genesis, epoch, tip);
            if epoch == 0 then r == EpochState(genesis, genesis, cfg.initialStake)
            else
              && Snapshot(t, genesis, tip, (slot: nat) => TwoEpochsBack(cfg, epoch, slot), r.stakeSnapshot)
              && Snapshot(t, genesis, tip, (slot: nat) => BeforeNonce(cfg, epoch, slot), r.nonceSnapshot)
              && r.inferredStake
                 == cfg.infer(EpochStateOf(cfg, t, genesis, epoch - 1, tip), r.nonceSnapshot, r.stakeSnapshot)
  {
    hide Snapshot, Ledger, TwoEpochsBack, BeforeNonce;
    if epoch > 0 {
      forall slot: nat
        ensures slot < cfg.StakeSlot(epoch) <==> TwoEpochsBack(cfg, epoch, slot)
        ensures slot < cfg.NonceSlot(epoch) <==> BeforeNonce(cfg, epoch, slot)
      {
        ScheduleByEpochs(cfg, epoch, slot);
      }
      StateAtIsHighest(t, genesis, tip, cfg.StakeSlot(epoch), (slot: nat) => TwoEpochsBack(cfg, epoch, slot));
      StateAtIsHighest(t, genesis, tip, cfg.NonceSlot(epoch), (slot: nat) => BeforeNonce(cfg, epoch, slot));
    }
  }

  /** What is memoised stays, and the state that was asked for is memoised under its nonce snapshot. */
  lemma {:induction false} MemoGrows(cfg: Config, t: Table, genesis: LedgerState, memo: Memo, epoch: nat, tip: Hash)
    ensures var (r, memo') := Memoised(cfg, t, genesis, memo, epoch, tip);
            && (forall key :: key in memo ==> key in memo' && memo'[key] == memo[key])
            && (forall key :: key in memo' && key !in memo ==> 0 < key.0 <= epoch)
            && (epoch > 0 ==>
                var key := (epoch, StateAt(t, genesis, tip, cfg.NonceSlot(epoch)).block.Id());
                key in memo' && memo'[key] == r)
    decreases epoch
  {
    if epoch > 0 {
      MemoGrows(cfg, t, genesis, memo, epoch - 1, tip);
    }
  }
}
