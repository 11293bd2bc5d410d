/** Blocks, ledger states and the table of ledger states of cryptarchia/cryptarchia.py.

    Hashing is modelled as injective: an identifier is a term that holds what was
    hashed. So a block id determines its header, and parent links cannot form a cycle. */
module Blocks {
  datatype Hash =
    | Bytes(n: nat)
    | BlockId(header: BlockHeader)
    | EpochNonce(previous: Hash, contribution: Contribution, slot: nat)

  datatype Note = Note(value: nat, sk: nat, rest: nat)

  datatype Commitment = Commitment(note: Note)

  datatype Nullifier = Nullifier(note: Note)

  datatype Contribution = Contribution(slot: nat, note: Note)

  datatype LeaderProof = LeaderProof(note: Note, slot: nat, parent: Hash) {
    function NonceContribution(): Contribution {
      Contribution(slot, note)
    }

    predicate Verify(blockSlot: nat, blockParent: Hash, commitments: set<Commitment>, nullifiers: set<Nullifier>) {
      && blockSlot == slot
      && blockParent == parent
      && Commitment(note) in commitments
      && Nullifier(note) !in nullifiers
    }
  }

  datatype BlockHeader =
    BlockHeader(slot: nat, parent: Hash, contentSize: nat, contentId: nat, leaderProof: LeaderProof)
  {
    function Id(): Hash {
      BlockId(this)
    }
  }

  datatype LedgerState = LedgerState(
    block: BlockHeader, nonce: Hash, commitments: set<Commitment>, nullifiers: set<Nullifier>, leaderCount: int)
  {
    /** The state that `apply` leaves behind. */
    function Apply(b: BlockHeader): LedgerState {
      this.(block := b,
            nonce := EpochNonce(nonce, b.leaderProof.NonceContribution(), b.slot),
            leaderCount := leaderCount + 1)
    }
  }

  /** The dictionary from block ids to ledger states. */
  type Table = map<Hash, LedgerState>

  /** Every entry is stored under the id of its block. */
  ghost predicate Keyed(t: Table) {
    forall id :: id in t ==> id == t[id].block.Id()
  }

  /** a is b or one of its ancestors. */
  ghost predicate Descends(a: Hash, b: Hash) {
    a == b || (b.BlockId? && Descends(a, b.header.parent))
  }

  /** What `iter_chain` yields: from the tip down until a parent is not held. */
  ghost function Chain(tip: Hash, t: Table): (c: seq<Hash>)
    ensures forall i :: 0 <= i < |c| ==> c[i] in t && c[i].BlockId?
    ensures |c| > 0 ==> c[0] == tip
  {
    if tip in t && tip.BlockId? then [tip] + Chain(tip.header.parent, t) else []
  }

  /** A chain continues from each of its blocks as that block's own chain. */
  lemma {:induction false} ChainSuffix(tip: Hash, t: Table, i: nat)
    requires i < |Chain(tip, t)|
    ensures Chain(Chain(tip, t)[i], t) == Chain(tip, t)[i..]
    decreases i
  {
    if i > 0 {
      ChainSuffix(tip.header.parent, t, i - 1);
      assert Chain(tip, t)[i..] == Chain(tip.header.parent, t)[i - 1..];
    }
  }

  /** A block occurs at one place of a chain only. */
  lemma ChainDistinct(tip: Hash, t: Table, i: nat, j: nat)
    requires i < |Chain(tip, t)| && j < |Chain(tip, t)| && Chain(tip, t)[i] == Chain(tip, t)[j]
    ensures i == j
  {
    ChainSuffix(tip, t, i);
    ChainSuffix(tip, t, j);
  }

  /** Two chains that meet agree from there on, so they meet at the same distance from the end. */
  lemma ChainsMeet(a: Hash, b: Hash, t: Table, i: nat, j: nat)
    requires i < |Chain(a, t)| && j < |Chain(b, t)| && Chain(a, t)[i] == Chain(b, t)[j]
    ensures Chain(a, t)[i..] == Chain(b, t)[j..]
    ensures |Chain(a, t)| - i == |Chain(b, t)| - j
  {
    ChainSuffix(a, t, i);
    ChainSuffix(b, t, j);
  }

  lemma {:induction false} ChainDescends(tip: Hash, t: Table, a: Hash)
    requires a in Chain(tip, t)
    ensures Descends(a, tip)
  {
    if a != tip {
      ChainDescends(tip.header.parent, t, a);
    }
  }

  lemma {:induction false} DescendsTransitive(a: Hash, b: Hash, c: Hash)
    requires Descends(a, b) && Descends(b, c)
    ensures Descends(a, c)
    decreases c
  {
    if b != c {
      DescendsTransitive(a, b, c.header.parent);
    }
  }

  /** The number of parent links below a block, which makes the ancestor relation an order. */
  ghost function Rank(id: Hash): nat {
    if id.BlockId? then 1 + Rank(id.header.parent) else 0
  }

  lemma {:induction false} DescendsRank(a: Hash, b: Hash)
    requires Descends(a, b)
    ensures Rank(a) <= Rank(b) && (Rank(a) == Rank(b) ==> a == b)
    decreases b
  {
    if a != b {
      DescendsRank(a, b.header.parent);
    }
  }

  /** Ancestors of one block lie on one line. */
  lemma {:induction false} AncestorsComparable(a: Hash, b: Hash, c: Hash)
    requires Descends(a, c) && Descends(b, c)
    ensures Descends(a, b) || Descends(b, a)
    decreases c
  {
    if a != c && b != c {
      AncestorsComparable(a, b, c.header.parent);
    }
  }

  /** The table is a tree with root g. */
  ghost predicate Rooted(t: Table, g: Hash) {
    && Keyed(t)
    && g in t
    && forall id :: id in t && id != g ==> id.BlockId? && id.header.parent in t
  }

  /** The blocks of a chain of a rooted table are exactly the ancestors that are held. */
  lemma {:induction false} RootedChain(t: Table, g: Hash, tip: Hash)
    requires Rooted(t, g) && tip in t
    ensures Descends(g, tip) && |Chain(tip, t)| == Rank(tip) - Rank(g) + 1
    ensures forall a :: a in Chain(tip, t) <==> a in t && Descends(a, tip)
    decreases tip
  {
    if tip == g {
      RootEnds(t, g);
      forall a | a in t && Descends(a, g)
        ensures a == g
      {
        if a != g {
          RootedDescends(t, g, a);
          DescendsRank(a, g);
          DescendsRank(g, a);
        }
      }
    } else {
      RootedChain(t, g, tip.header.parent);
      assert Chain(tip, t) == [tip] + Chain(tip.header.parent, t);
    }
  }

  lemma {:induction false} RootedDescends(t: Table, g: Hash, tip: Hash)
    requires Rooted(t, g) && tip in t
    ensures Descends(g, tip)
    decreases tip
  {
    if tip != g {
      RootedDescends(t, g, tip.header.parent);
    }
  }

  /** The parent of the root is not held. */
  lemma RootEnds(t: Table, g: Hash)
    requires Rooted(t, g)
    ensures g.BlockId? && g.header.parent !in t && Chain(g, t) == [g]
  {
    if g.header.parent in t {
      RootedDescends(t, g, g.header.parent);
      DescendsRank(g, g.header.parent);
    }
  }

  /** The ledger state after a block, from its ancestors alone. */
  ghost function StateOf(genesis: LedgerState, id: Hash): LedgerState {
    if id.BlockId? && id != genesis.block.Id() then StateOf(genesis, id.header.parent).Apply(id.header) else genesis
  }

  /** Every entry is the state that its ancestors determine. */
  ghost predicate Canonical(t: Table, genesis: LedgerState) {
    forall id :: id in t ==> t[id] == StateOf(genesis, id)
  }

  lemma StateOfBlock(genesis: LedgerState, id: Hash)
    requires id.BlockId?
    ensures StateOf(genesis, id).block == id.header
  {
  }

  /** What the table holds for a block: the notes of the genesis state, one more leader for every block
      above it, and the nonce of the parent's state with the contribution of the leader proof. */
  lemma {:induction false} HeldState(t: Table, genesis: LedgerState, id: Hash)
    requires Rooted(t, genesis.block.Id()) && Canonical(t, genesis) && id in t
    ensures t[id].commitments == genesis.commitments && t[id].nullifiers == genesis.nullifiers
    ensures t[id].leaderCount == genesis.leaderCount + Rank(id) - Rank(genesis.block.Id())
    ensures id == genesis.block.Id() ==> t[id] == genesis
    ensures id != genesis.block.Id() ==>
      && id.BlockId? && id.header.parent in t && t[id].block == id.header
      && var proof := id.header.leaderProof;
         t[id].nonce == EpochNonce(t[id.header.parent].nonce, Contribution(proof.slot, proof.note), id.header.slot)
    decreases id
  {
    if id != genesis.block.Id() {
      HeldState(t, genesis, id.header.parent);
    }
  }

  /** Two tables over the same root hold the same chain below a common block. */
  lemma {:induction false} SameChain(t: Table, u: Table, g: Hash, tip: Hash)
    requires Rooted(t, g) && Rooted(u, g) && tip in t && tip in u
    ensures Chain(tip, t) == Chain(tip, u)
    decreases tip
  {
    if tip == g {
      RootEnds(t, g);
      RootEnds(u, g);
    } else {
      SameChain(t, u, g, tip.header.parent);
    }
  }
}
