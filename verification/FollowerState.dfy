/** The state of a follower and its transitions, as functions on values. */
module FollowerState {
  import opened Blocks
  import opened Walks
  import opened ForkChoice
  import opened EpochStates

  datatype Mode = Online | Bootstrapping

  /** A follower's fields, except for the memo table. */
  datatype Core = Core(forks: seq<Hash>, localChain: Hash, table: Table, mode: Mode, lib: Hash)

  datatype Verdict = Accepted | Duplicate | ParentNotFound | ImmutableFork | InvalidLeaderProof

  ghost function Initial(genesis: LedgerState): Core {
    var g := genesis.block.Id();
    Core([], g, map[g := genesis], Bootstrapping, g)
  }

  /** `validate_header` */
  ghost function Validate(cfg: Config, genesis: LedgerState, s: Core, b: BlockHeader): Verdict
    requires cfg.Usable()
  {
    if b.parent !in s.table then ParentNotFound
    else if |Chain(b.parent, s.table)| < |Chain(s.lib, s.table)| then ImmutableFork
    else
      var epochState := EpochStateOf(cfg, s.table, genesis, cfg.EpochOfSlot(b.slot), b.parent);
      if b.leaderProof.Verify(b.slot, b.parent, epochState.stakeSnapshot.commitments, s.table[b.parent].nullifiers)
      then Accepted
      else InvalidLeaderProof
  }

  ghost function ForkChoiceOf(cfg: Config, mode: Mode, localChain: Hash, forks: seq<Hash>, t: Table): (r: Hash)
    ensures r == localChain || r in forks
  {
    if mode.Bootstrapping? then MaxvalidBg(localChain, forks, cfg.k, cfg.SecuritySlots(), t)
    else MaxvalidMc(localChain, forks, cfg.k, t)
  }

  /** list.remove */
  function RemoveFirst(s: seq<Hash>, x: Hash): seq<Hash> {
    if s == [] then [] else if s[0] == x then s[1..] else [s[0]] + RemoveFirst(s[1..], x)
  }

  /** The forks once a new block is appended and its parent is superseded. */
  function Superseded(forks: seq<Hash>, id: Hash, parent: Hash): seq<Hash> {
    var all := forks + [id];
    if parent in all then RemoveFirst(all, parent) else all
  }

  /** The tip and the forks after a new block: extend the tip, or fork and choose again. */
  ghost function Place(cfg: Config, s: Core, t: Table, b: BlockHeader): Core {
    if b.parent == s.localChain then s.(table := t, localChain := b.Id())
    else
      var forks := Superseded(s.forks, b.Id(), b.parent);
      var tip := ForkChoiceOf(cfg, s.mode, s.localChain, forks, t);
      s.(table := t, forks := RemoveFirst(forks + [s.localChain], tip), localChain := tip)
  }

  /** The k-th block below the tip, or the genesis block. */
  ghost function LibOf(cfg: Config, genesis: LedgerState, tip: Hash, t: Table): Hash {
    if cfg.k < |Chain(tip, t)| then Chain(tip, t)[cfg.k] else genesis.block.Id()
  }

  ghost function Descendants(forks: seq<Hash>, lib: Hash, t: Table): seq<Hash> {
    if forks == [] then []
    else (if lib in Chain(forks[0], t) then [forks[0]] else []) + Descendants(forks[1..], lib, t)
  }

  ghost function Pruned(t: Table, lib: Hash): Table {
    map id | id in t && (lib in Chain(id, t) || id in Chain(lib, t)) :: t[id]
  }

  /** `update_lib` */
  ghost function UpdateLib(cfg: Config, genesis: LedgerState, s: Core): Core {
    if s.mode.Bootstrapping? then s
    else
      var lib := LibOf(cfg, genesis, s.localChain, s.table);
      s.(lib := lib, forks := Descendants(s.forks, lib, s.table), table := Pruned(s.table, lib))
  }

  ghost function ToOnline(cfg: Config, genesis: LedgerState, s: Core): Core {
    UpdateLib(cfg, genesis, s.(mode := Online))
  }

  ghost function Insert(s: Core, b: BlockHeader): Table
    requires b.parent in s.table
  {
    s.table[b.Id() := s.table[b.parent].Apply(b)]
  }

  /** `on_block` */
  ghost function OnBlock(cfg: Config, genesis: LedgerState, s: Core, b: BlockHeader): (r: (Core, Verdict))
    requires cfg.Usable()
  {
    if b.Id() in s.table then (s, Duplicate)
    else
      var verdict := Validate(cfg, genesis, s, b);
      if verdict != Accepted then (s, verdict)
      else (UpdateLib(cfg, genesis, Place(cfg, s, Insert(s, b), b)), Accepted)
  }

  /** No held block has x as its parent. */
  ghost predicate Leaf(x: Hash, t: Table) {
    x in t && forall c :: c in t && c.BlockId? ==> c.header.parent != x
  }

  ghost predicate NoDuplicates(s: seq<Hash>) {
    forall i, j :: 0 <= i < j < |s| ==> s[i] != s[j]
  }

  /** The tip and the forks are exactly the leaves, each listed once. */
  ghost predicate TipsAreLeaves(s: Core) {
    && NoDuplicates(s.forks)
    && s.localChain !in s.forks
    && forall x :: Leaf(x, s.table) <==> x == s.localChain || x in s.forks
  }

  ghost predicate Comparable(a: Hash, b: Hash) {
    Descends(a, b) || Descends(b, a)
  }

  /** Every held block is an ancestor or a descendant of the last immutable block. */
  ghost predicate LibOk(cfg: Config, genesis: LedgerState, s: Core) {
    && s.lib in s.table
    && Descends(s.lib, s.localChain)
    && (forall x :: x in s.table ==> Comparable(s.lib, x))
    && s.lib == if s.mode.Bootstrapping? then genesis.block.Id()
                else LibOf(cfg, genesis, s.localChain, s.table)
  }

  /** What every reachable follower satisfies. */
  ghost predicate Inv(cfg: Config, genesis: LedgerState, s: Core) {
    Ledger(s.table, genesis) && TipsAreLeaves(s) && LibOk(cfg, genesis, s)
  }

  lemma InitialInv(cfg: Config, genesis: LedgerState)
    ensures Inv(cfg, genesis, Initial(genesis))
  {
  }

  /** A leaf has no held descendant but itself. */
  lemma {:induction false} LeafEnds(t: Table, g: Hash, x: Hash, y: Hash)
    requires Rooted(t, g) && Leaf(x, t) && y in t && Descends(x, y)
    ensures x == y
    decreases y
  {
    if x != y {
      if y == g {
        RootedDescends(t, g, x);
        DescendsRank(x, y);
        DescendsRank(y, x);
      } else {
        LeafEnds(t, g, x, y.header.parent);
      }
    }
  }

  /** A leaf that is comparable with a held block descends from it. */
  lemma LeafAbove(t: Table, g: Hash, x: Hash, y: Hash)
    requires Rooted(t, g) && Leaf(x, t) && y in t && Comparable(y, x)
    ensures Descends(y, x)
  {
    if Descends(x, y) {
      LeafEnds(t, g, x, y);
    }
  }

  lemma {:induction false} RemoveFirstFacts(s: seq<Hash>, x: Hash)
    requires NoDuplicates(s)
    ensures NoDuplicates(RemoveFirst(s, x))
    ensures forall y :: y in RemoveFirst(s, x) <==> y in s && y != x
  {
    if s != [] {
      var rest := s[1..];
      assert forall i, j :: 0 <= i < j < |rest| ==> rest[i] == s[i + 1] && rest[j] == s[j + 1];
      assert s[0] !in rest;
      RemoveFirstFacts(rest, x);
      assert forall y :: y in s <==> y == s[0] || y in rest;
    }
  }

  /** Adding a block whose parent is held keeps the tree and moves the leaf to the new block. */
  lemma InsertKeeps(genesis: LedgerState, s: Core, b: BlockHeader)
    requires Ledger(s.table, genesis) && b.parent in s.table && b.Id() !in s.table
    ensures Ledger(Insert(s, b), genesis)
    ensures forall x :: Leaf(x, Insert(s, b)) <==> x == b.Id() || (Leaf(x, s.table) && x != b.parent)
  {
    var t, u, id, g := s.table, Insert(s, b), b.Id(), genesis.block.Id();
    assert u[id] == StateOf(genesis, id);
    assert Rank(id) == 1 + Rank(b.parent);
    forall x
      ensures Leaf(x, u) <==> x == id || (Leaf(x, t) && x != b.parent)
    {
      if x == id {
        forall c | c in u && c.BlockId?
          ensures c.header.parent != id
        {
          if c.header.parent == id && c != id {
            if c == g {
              RootEnds(t, g);
              RootedDescends(u, g, id);
              DescendsRank(g, id);
            }
          }
        }
      } else if Leaf(x, u) {
        assert id in u;
      }
    }
  }

  lemma AppendFacts(s: seq<Hash>, x: Hash)
    requires NoDuplicates(s) && x !in s
    ensures NoDuplicates(s + [x]) && forall y :: y in s + [x] <==> y in s || y == x
  {
  }

  lemma SupersededFacts(forks: seq<Hash>, id: Hash, parent: Hash)
    requires NoDuplicates(forks) && id !in forks && id != parent
    ensures NoDuplicates(Superseded(forks, id, parent))
    ensures forall y :: y in Superseded(forks, id, parent) <==> y == id || (y in forks && y != parent)
  {
    AppendFacts(forks, id);
    RemoveFirstFacts(forks + [id], parent);
  }

  /** Placing a block keeps the tip and the forks exactly the leaves, whatever the rule chooses. */
  lemma PlaceKeepsLeaves(cfg: Config, genesis: LedgerState, s: Core, b: BlockHeader)
    requires Ledger(s.table, genesis) && TipsAreLeaves(s) && b.parent in s.table && b.Id() !in s.table
    ensures TipsAreLeaves(Place(cfg, s, Insert(s, b), b))
  {
    var t, u, id := s.table, Insert(s, b), b.Id();
    InsertKeeps(genesis, s, b);
    assert Rank(id) == 1 + Rank(b.parent);
    assert Leaf(s.localChain, t);
    assert forall f :: f in s.forks ==> Leaf(f, t);
    if b.parent != s.localChain {
      var forks := Superseded(s.forks, id, b.parent);
      SupersededFacts(s.forks, id, b.parent);
      AppendFacts(forks, s.localChain);
      RemoveFirstFacts(forks + [s.localChain], ForkChoiceOf(cfg, s.mode, s.localChain, forks, u));
    }
  }

  /** Placing a block keeps every held block comparable with the last immutable block. */
  lemma PlaceKeepsComparable(cfg: Config, genesis: LedgerState, s: Core, b: BlockHeader)
    requires Inv(cfg, genesis, s) && b.parent in s.table && b.Id() !in s.table && Descends(s.lib, b.parent)
    ensures var u := Insert(s, b);
            && (forall x :: x in u ==> Comparable(s.lib, x))
            && Descends(s.lib, Place(cfg, s, u, b).localChain)
  {
    var u, id := Insert(s, b), b.Id();
    DescendsTransitive(s.lib, b.parent, id);
    PlaceKeepsLeaves(cfg, genesis, s, b);
    InsertKeeps(genesis, s, b);
    var tip := Place(cfg, s, u, b).localChain;
    assert Leaf(tip, u);
    LeafAbove(u, genesis.block.Id(), tip, s.lib);
  }

  /** The height comparison of `validate_header` passes exactly the parents that are the last
      immutable block or descend from it. */
  lemma HeightCheckExact(cfg: Config, genesis: LedgerState, s: Core, parent: Hash)
    requires Inv(cfg, genesis, s) && parent in s.table
    ensures |Chain(parent, s.table)| >= |Chain(s.lib, s.table)| <==> Descends(s.lib, parent)
  {
    var g := genesis.block.Id();
    RootedChain(s.table, g, parent);
    RootedChain(s.table, g, s.lib);
    assert Comparable(s.lib, parent);
    if Descends(s.lib, parent) {
      DescendsRank(s.lib, parent);
    } else {
      DescendsRank(parent, s.lib);
    }
  }

  lemma LibIsAncestor(cfg: Config, genesis: LedgerState, tip: Hash, t: Table)
    requires Ledger(t, genesis) && tip in t
    ensures var lib, g := LibOf(cfg, genesis, tip, t), genesis.block.Id();
            && lib in t && Descends(lib, tip)
            && Rank(lib) == if Rank(tip) - cfg.k >= Rank(g) then Rank(tip) - cfg.k else Rank(g)
  {
    var g := genesis.block.Id();
    RootedChain(t, g, tip);
    if cfg.k < |Chain(tip, t)| {
      var lib := Chain(tip, t)[cfg.k];
      ChainSuffix(tip, t, cfg.k);
      RootedChain(t, g, lib);
      ChainDescends(tip, t, lib);
    }
  }

  lemma {:induction false} DescendantsFacts(forks: seq<Hash>, lib: Hash, t: Table)
    requires NoDuplicates(forks)
    ensures NoDuplicates(Descendants(forks, lib, t))
    ensures forall f :: f in Descendants(forks, lib, t) <==> f in forks && lib in Chain(f, t)
  {
    if forks != [] {
      var rest := forks[1..];
      assert forall i, j :: 0 <= i < j < |rest| ==> rest[i] == forks[i + 1] && rest[j] == forks[j + 1];
      assert forks[0] !in rest;
      DescendantsFacts(rest, lib, t);
      assert forall f :: f in forks <==> f == forks[0] || f in rest;
    }
  }

  /** Pruning to the ancestors and descendants of a held block keeps a tree. */
  lemma PrunedKeeps(genesis: LedgerState, t: Table, lib: Hash)
    requires Ledger(t, genesis) && lib in t
    ensures Ledger(Pruned(t, lib), genesis)
    ensures forall x :: x in Pruned(t, lib) <==> x in t && Comparable(lib, x)
  {
    var g, u := genesis.block.Id(), Pruned(t, lib);
    RootedChain(t, g, lib);
    forall x | x in t
      ensures x in u <==> Comparable(lib, x)
    {
      RootedChain(t, g, x);
    }
    RootedDescends(t, g, lib);
    forall x | x in u && x != g
      ensures x.BlockId? && x.header.parent in u
    {
      if Descends(x, lib) {
        assert Descends(x.header.parent, x);
        DescendsTransitive(x.header.parent, x, lib);
      }
    }
  }

  /** The leaves of the pruned tree are the leaves that descend from the last immutable block. */
  lemma PrunedLeaves(genesis: LedgerState, t: Table, lib: Hash, x: Hash)
    requires Ledger(t, genesis) && lib in t
    ensures Leaf(x, Pruned(t, lib)) <==> Leaf(x, t) && Descends(lib, x)
  {
    var g, u := genesis.block.Id(), Pruned(t, lib);
    PrunedKeeps(genesis, t, lib);
    if Leaf(x, u) {
      LeafAbove(u, g, x, lib);
      forall c | c in t && c.BlockId?
        ensures c.header.parent != x
      {
        ChildDescends(lib, x, c);
      }
    }
  }

  lemma ChildDescends(a: Hash, x: Hash, c: Hash)
    ensures Descends(a, x) && c.BlockId? && c.header.parent == x ==> Descends(a, c)
  {
  }

  lemma UpdateLibTips(cfg: Config, genesis: LedgerState, s: Core)
    requires Ledger(s.table, genesis) && TipsAreLeaves(s) && s.mode.Online?
    ensures TipsAreLeaves(UpdateLib(cfg, genesis, s))
    ensures forall f :: f in UpdateLib(cfg, genesis, s).forks ==> Descends(UpdateLib(cfg, genesis, s).lib, f)
  {
    var g, t, r := genesis.block.Id(), s.table, UpdateLib(cfg, genesis, s);
    assert Leaf(s.localChain, t);
    LibIsAncestor(cfg, genesis, s.localChain, t);
    DescendantsFacts(s.forks, r.lib, t);
    hide Leaf, Pruned, LibOf, Chain;
    forall x
      ensures Leaf(x, r.table) <==> x == r.localChain || x in r.forks
    {
      PrunedLeaves(genesis, t, r.lib, x);
      LeafHeld(x, t);
      if x in t {
        RootedChain(t, g, x);
      }
    }
    forall f | f in r.forks
      ensures Descends(r.lib, f)
    {
      ChainDescends(f, t, r.lib);
    }
  }

  lemma LeafHeld(x: Hash, t: Table)
    ensures Leaf(x, t) ==> x in t
  {
  }

  lemma UpdateLibComparable(cfg: Config, genesis: LedgerState, s: Core)
    requires Ledger(s.table, genesis) && s.localChain in s.table && s.mode.Online?
    ensures LibOk(cfg, genesis, UpdateLib(cfg, genesis, s))
  {
    hide Chain, Pruned, Ledger;
    var r := UpdateLib(cfg, genesis, s);
    LibIsAncestor(cfg, genesis, s.localChain, s.table);
    PrunedKeeps(genesis, s.table, r.lib);
    SameLib(cfg, genesis, s.localChain, s.table, r.table);
  }

  lemma SameLib(cfg: Config, genesis: LedgerState, tip: Hash, t: Table, u: Table)
    requires Ledger(t, genesis) && Ledger(u, genesis) && tip in t && tip in u
    ensures LibOf(cfg, genesis, tip, t) == LibOf(cfg, genesis, tip, u)
  {
    SameChain(t, u, genesis.block.Id(), tip);
  }

  /** `update_lib` establishes the invariant for the tip that was chosen. */
  lemma UpdateLibKeeps(cfg: Config, genesis: LedgerState, s: Core)
    requires Ledger(s.table, genesis) && TipsAreLeaves(s) && s.mode.Online?
    ensures Inv(cfg, genesis, UpdateLib(cfg, genesis, s))
  {
    assert Leaf(s.localChain, s.table);
    UpdateLibTips(cfg, genesis, s);
    UpdateLibComparable(cfg, genesis, s);
    hide TipsAreLeaves, Leaf, LibOk, Chain;
    LibIsAncestor(cfg, genesis, s.localChain, s.table);
    PrunedKeeps(genesis, s.table, LibOf(cfg, genesis, s.localChain, s.table));
  }

  lemma {:induction false} McKeepsHeight(t: Table, g: Hash, cmax: Hash, forks: seq<Hash>, k: nat)
    requires Rooted(t, g) && cmax in t && forall f :: f in forks ==> f in t
    ensures Rank(MaxvalidMc(cmax, forks, k, t)) >= Rank(cmax)
    decreases |forks|
  {
    if forks != [] {
      DepthsCompareHeights(t, g, cmax, forks[0]);
      McKeepsHeight(t, g, McStep(cmax, forks[0], k, t), forks[1..], k);
    }
  }

  lemma TipHeld(cfg: Config, genesis: LedgerState, s: Core)
    requires Inv(cfg, genesis, s)
    ensures s.localChain in s.table && forall f :: f in s.forks ==> f in s.table
  {
  }

  /** Going online keeps the invariant. */
  lemma ToOnlineInv(cfg: Config, genesis: LedgerState, s: Core)
    requires Inv(cfg, genesis, s)
    ensures Inv(cfg, genesis, ToOnline(cfg, genesis, s))
  {
    UpdateLibKeeps(cfg, genesis, s.(mode := Online));
  }

  /** An accepted block has a held parent that descends from the last immutable block. */
  lemma AcceptedParent(cfg: Config, genesis: LedgerState, s: Core, b: BlockHeader)
    requires cfg.Usable() && Inv(cfg, genesis, s) && Validate(cfg, genesis, s, b) == Accepted
    ensures b.parent in s.table && Descends(s.lib, b.parent)
  {
    HeightCheckExact(cfg, genesis, s, b.parent);
  }

  /** Main invariant: every block that arrives, valid or not, keeps it. */
  lemma OnBlockInv(cfg: Config, genesis: LedgerState, s: Core, b: BlockHeader)
    requires cfg.Usable() && Inv(cfg, genesis, s)
    ensures Inv(cfg, genesis, OnBlock(cfg, genesis, s, b).0)
  {
    if OnBlock(cfg, genesis, s, b).1 == Accepted {
      AcceptedParent(cfg, genesis, s, b);
      InsertKeeps(genesis, s, b);
      PlaceKeepsLeaves(cfg, genesis, s, b);
      PlaceKeepsComparable(cfg, genesis, s, b);
      var p := Place(cfg, s, Insert(s, b), b);
      if s.mode.Online? {
        UpdateLibKeeps(cfg, genesis, p);
      }
    }
  }

  /** The tip of an online follower never loses height. */
  lemma TipKeepsHeight(cfg: Config, genesis: LedgerState, s: Core, b: BlockHeader)
    requires Inv(cfg, genesis, s) && s.mode.Online? && b.parent in s.table && b.Id() !in s.table
    ensures Rank(Place(cfg, s, Insert(s, b), b).localChain) >= Rank(s.localChain)
  {
    var u := Insert(s, b);
    TipHeld(cfg, genesis, s);
    InsertKeeps(genesis, s, b);
    if b.parent != s.localChain {
      var forks := Superseded(s.forks, b.Id(), b.parent);
      assert b.Id() !in s.forks;
      SupersededFacts(s.forks, b.Id(), b.parent);
      McKeepsHeight(u, genesis.block.Id(), s.localChain, forks, cfg.k);
    }
  }

  /** A tip that is at least as high has a last immutable block that is at least as high. */
  lemma LibHeights(cfg: Config, genesis: LedgerState, tip: Hash, t: Table, tip': Hash, u: Table)
    requires Ledger(t, genesis) && tip in t && Ledger(u, genesis) && tip' in u && Rank(tip) <= Rank(tip')
    ensures Rank(LibOf(cfg, genesis, tip, t)) <= Rank(LibOf(cfg, genesis, tip', u))
    ensures Descends(LibOf(cfg, genesis, tip', u), tip')
  {
    hide LibOf, Ledger;
    LibIsAncestor(cfg, genesis, tip, t);
    LibIsAncestor(cfg, genesis, tip', u);
  }

  lemma PlacedTipHeld(cfg: Config, genesis: LedgerState, s: Core, b: BlockHeader)
    requires Ledger(s.table, genesis) && TipsAreLeaves(s) && b.parent in s.table && b.Id() !in s.table
    ensures Ledger(Insert(s, b), genesis) && Place(cfg, s, Insert(s, b), b).localChain in Insert(s, b)
  {
    InsertKeeps(genesis, s, b);
    PlaceKeepsLeaves(cfg, genesis, s, b);
    var p := Place(cfg, s, Insert(s, b), b);
    assert Leaf(p.localChain, p.table);
  }

  /** The last immutable block only moves down its own chain: the new one is the old one or
      descends from it. */
  lemma LibAdvances(cfg: Config, genesis: LedgerState, s: Core, b: BlockHeader)
    requires cfg.Usable() && Inv(cfg, genesis, s)
    ensures Descends(s.lib, OnBlock(cfg, genesis, s, b).0.lib)
  {
    if OnBlock(cfg, genesis, s, b).1 == Accepted && s.mode.Online? {
      AcceptedParent(cfg, genesis, s, b);
      PlacedTipHeld(cfg, genesis, s, b);
      PlaceKeepsComparable(cfg, genesis, s, b);
      TipKeepsHeight(cfg, genesis, s, b);
      TipHeld(cfg, genesis, s);
      var u := Insert(s, b);
      var tip := Place(cfg, s, u, b).localChain;
      hide Place, TipsAreLeaves, Validate, LibOf, Ledger;
      LibHeights(cfg, genesis, s.localChain, s.table, tip, u);
      Higher(s.lib, LibOf(cfg, genesis, tip, u), tip);
    }
  }

  /** Of two ancestors of one block, the higher descends from the lower. */
  lemma Higher(a: Hash, b: Hash, c: Hash)
    requires Descends(a, c) && Descends(b, c) && Rank(a) <= Rank(b)
    ensures Descends(a, b)
  {
    AncestorsComparable(a, b, c);
    if Descends(b, a) {
      DescendsRank(b, a);
    }
  }

  lemma LibAdvancesOnline(cfg: Config, genesis: LedgerState, s: Core)
    requires Inv(cfg, genesis, s) && s.mode.Bootstrapping?
    ensures Descends(s.lib, ToOnline(cfg, genesis, s).lib)
  {
    TipHeld(cfg, genesis, s);
    LibIsAncestor(cfg, genesis, s.localChain, s.table);
    RootedDescends(s.table, genesis.block.Id(), LibOf(cfg, genesis, s.localChain, s.table));
  }

  /** After every online step the tip and all forks descend from the last immutable block. */
  lemma TipsDescendFromLib(cfg: Config, genesis: LedgerState, s: Core)
    requires Inv(cfg, genesis, s)
    ensures Descends(s.lib, s.localChain) && forall f :: f in s.forks ==> Descends(s.lib, f)
  {
    forall f | f in s.forks
      ensures Descends(s.lib, f)
    {
      assert Leaf(f, s.table);
      LeafAbove(s.table, genesis.block.Id(), f, s.lib);
    }
  }

  /** A block off the line of the last immutable block stays off it and is never held again. */
  lemma OffLineStaysOff(x: Hash, lib: Hash, lib': Hash)
    requires !Comparable(lib, x) && Descends(lib, lib')
    ensures !Comparable(lib', x)
  {
    if Descends(lib', x) {
      DescendsTransitive(lib, lib', x);
    } else if Descends(x, lib') {
      AncestorsComparable(x, lib, lib');
    }
  }

  /** A block that is pruned is off the line of the new last immutable block. */
  lemma PrunedIsOffLine(cfg: Config, genesis: LedgerState, s: Core, x: Hash)
    requires Ledger(s.table, genesis) && s.localChain in s.table && x in s.table
    requires x !in UpdateLib(cfg, genesis, s).table
    ensures !Comparable(UpdateLib(cfg, genesis, s).lib, x)
  {
    LibIsAncestor(cfg, genesis, s.localChain, s.table);
    PrunedKeeps(genesis, s.table, LibOf(cfg, genesis, s.localChain, s.table));
  }

  /** Such a block is refused, for want of its parent or as an immutable fork. */
  lemma OffLineRefused(cfg: Config, genesis: LedgerState, s: Core, b: BlockHeader)
    requires cfg.Usable() && Inv(cfg, genesis, s) && !Comparable(s.lib, b.Id())
    ensures OnBlock(cfg, genesis, s, b) == (s, ParentNotFound) || OnBlock(cfg, genesis, s, b) == (s, ImmutableFork)
  {
    assert b.Id() !in s.table;
    if b.parent in s.table {
      HeightCheckExact(cfg, genesis, s, b.parent);
      ChildDescends(s.lib, b.parent, b.Id());
    }
  }

  datatype Event = Arrive(b: BlockHeader) | GoOnline

  /** One event. `to_online` asserts that the follower is bootstrapping. */
  ghost function Step(cfg: Config, genesis: LedgerState, s: Core, e: Event): Core
    requires cfg.Usable()
  {
    match e
    case Arrive(b) => OnBlock(cfg, genesis, s, b).0
    case GoOnline => if s.mode.Bootstrapping? then ToOnline(cfg, genesis, s) else s
  }

  /** A run of a follower. */
  ghost function Run(cfg: Config, genesis: LedgerState, s: Core, events: seq<Event>): Core
    requires cfg.Usable()
    decreases |events|
  {
    if events == [] then s else Run(cfg, genesis, Step(cfg, genesis, s, events[0]), events[1..])
  }

  lemma StepInv(cfg: Config, genesis: LedgerState, s: Core, e: Event)
    requires cfg.Usable() && Inv(cfg, genesis, s)
    ensures Inv(cfg, genesis, Step(cfg, genesis, s, e))
    ensures Descends(s.lib, Step(cfg, genesis, s, e).lib)
  {
    match e {
      case Arrive(b) =>
        OnBlockInv(cfg, genesis, s, b);
        LibAdvances(cfg, genesis, s, b);
      case GoOnline =>
        if s.mode.Bootstrapping? {
          ToOnlineInv(cfg, genesis, s);
          LibAdvancesOnline(cfg, genesis, s);
        }
    }
  }

  /** Over every run the invariant holds and the last immutable block only advances. */
  lemma {:induction false} RunInv(cfg: Config, genesis: LedgerState, s: Core, events: seq<Event>)
    requires cfg.Usable() && Inv(cfg, genesis, s)
    ensures Inv(cfg, genesis, Run(cfg, genesis, s, events))
    ensures Descends(s.lib, Run(cfg, genesis, s, events).lib)
    decreases |events|
  {
    if events != [] {
      var s' := Step(cfg, genesis, s, events[0]);
      StepInv(cfg, genesis, s, events[0]);
      RunInv(cfg, genesis, s', events[1..]);
      DescendsTransitive(s.lib, s'.lib, Run(cfg, genesis, s', events[1..]).lib);
    }
  }

  /** Every follower reachable from the constructor satisfies the invariant. */
  lemma ReachableInv(cfg: Config, genesis: LedgerState, events: seq<Event>)
    requires cfg.Usable()
    ensures Inv(cfg, genesis, Run(cfg, genesis, Initial(genesis), events))
  {
    InitialInv(cfg, genesis);
    RunInv(cfg, genesis, Initial(genesis), events);
  }

  /** x is in the table before the pruning of a step, but not after it. */
  ghost predicate PrunedBy(cfg: Config, genesis: LedgerState, s: Core, e: Event, x: BlockHeader)
    requires cfg.Usable()
  {
    && (x.Id() in s.table || (e == Arrive(x) && OnBlock(cfg, genesis, s, x).1 == Accepted))
    && x.Id() !in Step(cfg, genesis, s, e).table
  }

  lemma PrunedByIsOffLine(cfg: Config, genesis: LedgerState, s: Core, e: Event, x: BlockHeader)
    requires cfg.Usable() && Inv(cfg, genesis, s) && PrunedBy(cfg, genesis, s, e, x)
    ensures !Comparable(Step(cfg, genesis, s, e).lib, x.Id())
  {
    TipHeld(cfg, genesis, s);
    match e {
      case Arrive(b) =>
        AcceptedParent(cfg, genesis, s, b);
        InsertKeeps(genesis, s, b);
        PlaceKeepsLeaves(cfg, genesis, s, b);
        var p := Place(cfg, s, Insert(s, b), b);
        assert Leaf(p.localChain, p.table);
        PrunedIsOffLine(cfg, genesis, p, x.Id());
      case GoOnline =>
        PrunedIsOffLine(cfg, genesis, s.(mode := Online), x.Id());
    }
  }

  /** A pruned block is refused for ever: it is held after no later run, and offering it again
      changes nothing. */
  lemma PrunedForever(cfg: Config, genesis: LedgerState, s: Core, e: Event, x: BlockHeader, later: seq<Event>)
    requires cfg.Usable() && Inv(cfg, genesis, s) && PrunedBy(cfg, genesis, s, e, x)
    ensures var s' := Run(cfg, genesis, Step(cfg, genesis, s, e), later);
            && x.Id() !in s'.table
            && (OnBlock(cfg, genesis, s', x) == (s', ParentNotFound)
                || OnBlock(cfg, genesis, s', x) == (s', ImmutableFork))
  {
    var r := Step(cfg, genesis, s, e);
    var s' := Run(cfg, genesis, r, later);
    StepInv(cfg, genesis, s, e);
    RunInv(cfg, genesis, r, later);
    PrunedByIsOffLine(cfg, genesis, s, e, x);
    OffLineStaysOff(x.Id(), r.lib, s'.lib);
    OffLineRefused(cfg, genesis, s', x);
  }

  /** The tip is at least as high as every fork. */
  ghost predicate Tallest(s: Core) {
    forall f :: f in s.forks ==> Rank(f) <= Rank(s.localChain)
  }

  ghost function Tips(localChain: Hash, forks: seq<Hash>): set<Hash> {
    {localChain} + set f | f in forks
  }

  /** Where all tips descend from a block at most k below the height of a tallest old tip, and at
      most one tip is higher, no higher tip is more than k away. */
  lemma GuardFromBounds(u: Table, g: Hash, tips: set<Hash>, lib: Hash, id: Hash, height: nat, k: nat)
    requires Rooted(u, g) && lib in u && height - Rank(lib) <= k
    requires forall a :: a in tips ==> a in u && Descends(lib, a) && (Rank(a) <= height || a == id)
    ensures GuardIdle(u, tips, k)
  {
    forall a, f | a in tips && f in tips && Rank(f) > Rank(a)
      ensures Depth(a, f, u) <= k
    {
      DepthBound(u, g, a, f, lib);
    }
  }

  lemma TipsBounds(cfg: Config, genesis: LedgerState, s: Core, b: BlockHeader)
    requires cfg.Usable() && Inv(cfg, genesis, s) && s.mode.Online? && Tallest(s)
    requires b.Id() !in s.table && Validate(cfg, genesis, s, b) == Accepted
    ensures var tips := Tips(s.localChain, Superseded(s.forks, b.Id(), b.parent));
            forall a :: a in tips ==>
              a in Insert(s, b) && Descends(s.lib, a) && (Rank(a) <= Rank(s.localChain) || a == b.Id())
  {
    hide Superseded, Validate, Ledger, LibOk, Chain, EpochStateOf, Leaf;
    AcceptedParent(cfg, genesis, s, b);
    TipHeld(cfg, genesis, s);
    assert Rank(b.Id()) == 1 + Rank(b.parent);
    SupersededFacts(s.forks, b.Id(), b.parent);
    TipsDescendFromLib(cfg, genesis, s);
    DescendsTransitive(s.lib, b.parent, b.Id());
    hide TipsAreLeaves, NoDuplicates, Rank, Descends;
  }

  /** From a tallest tip, the guard of `maxvalid_mc` turns no strictly taller fork away. */
  lemma GuardIdleWhenTallest(cfg: Config, genesis: LedgerState, s: Core, b: BlockHeader)
    requires cfg.Usable() && Inv(cfg, genesis, s) && s.mode.Online? && Tallest(s)
    requires b.Id() !in s.table && Validate(cfg, genesis, s, b) == Accepted
    ensures b.parent in s.table
    ensures var u, forks := Insert(s, b), Superseded(s.forks, b.Id(), b.parent);
            && GuardIdle(u, Tips(s.localChain, forks), cfg.k)
            && MaxvalidMc(s.localChain, forks, cfg.k, u) == Longest(s.localChain, forks)
  {
    var g, u, forks := genesis.block.Id(), Insert(s, b), Superseded(s.forks, b.Id(), b.parent);
    var tips := Tips(s.localChain, forks);
    TipsBounds(cfg, genesis, s, b);
    InsertKeeps(genesis, s, b);
    TipHeld(cfg, genesis, s);
    LibIsAncestor(cfg, genesis, s.localChain, s.table);
    hide TipsAreLeaves, Superseded, Validate, Canonical, Keyed;
    GuardFromBounds(u, g, tips, s.lib, b.Id(), Rank(s.localChain), cfg.k);
    IdleGuardIsLongest(u, g, s.localChain, forks, cfg.k, tips);
  }

  /** Online, a tallest tip is followed by a tallest tip: the rule refines the longest chain. */
  lemma TallestKept(cfg: Config, genesis: LedgerState, s: Core, b: BlockHeader)
    requires cfg.Usable() && Inv(cfg, genesis, s) && s.mode.Online? && Tallest(s)
    ensures OnBlock(cfg, genesis, s, b).0.mode.Online? && Tallest(OnBlock(cfg, genesis, s, b).0)
  {
    if OnBlock(cfg, genesis, s, b).1 == Accepted {
      var u := Insert(s, b);
      var p := Place(cfg, s, u, b);
      if b.parent != s.localChain {
        var forks := Superseded(s.forks, b.Id(), b.parent);
        GuardIdleWhenTallest(cfg, genesis, s, b);
        assert b.Id() !in s.forks by {
          TipHeld(cfg, genesis, s);
        }
        SupersededFacts(s.forks, b.Id(), b.parent);
        AppendFacts(forks, s.localChain);
        RemoveFirstFacts(forks + [s.localChain], p.localChain);
      }
      assert Tallest(p);
      AcceptedParent(cfg, genesis, s, b);
      PlaceKeepsLeaves(cfg, genesis, s, b);
      DescendantsFacts(p.forks, LibOf(cfg, genesis, p.localChain, u), u);
    }
  }

  /** Over every run of an online follower that starts at a tallest tip. */
  lemma {:induction false} TallestRun(cfg: Config, genesis: LedgerState, s: Core, events: seq<Event>)
    requires cfg.Usable() && Inv(cfg, genesis, s) && s.mode.Online? && Tallest(s)
    ensures Run(cfg, genesis, s, events).mode.Online? && Tallest(Run(cfg, genesis, s, events))
    decreases |events|
  {
    if events != [] {
      StepInv(cfg, genesis, s, events[0]);
      if events[0].Arrive? {
        TallestKept(cfg, genesis, s, events[0].b);
      }
      TallestRun(cfg, genesis, Step(cfg, genesis, s, events[0]), events[1..]);
    }
  }

  /** If this block is accepted as a fork, no tip forks from another more than k deep. */
  ghost predicate ShallowAt(cfg: Config, genesis: LedgerState, s: Core, b: BlockHeader)
    requires cfg.Usable()
  {
    b.parent in s.table && b.Id() !in s.table && b.parent != s.localChain
    && Validate(cfg, genesis, s, b) == Accepted ==>
      Shallow(Insert(s, b), Tips(s.localChain, Superseded(s.forks, b.Id(), b.parent)), cfg.k)
  }

  lemma TipsAfter(cfg: Config, genesis: LedgerState, s: Core, b: BlockHeader)
    requires Inv(cfg, genesis, s) && b.parent in s.table && b.Id() !in s.table
    ensures b.Id() !in s.forks
    ensures Tips(s.localChain, Superseded(s.forks, b.Id(), b.parent)) <= Insert(s, b).Keys
    ensures forall f :: f in Superseded(s.forks, b.Id(), b.parent) ==>
      f in Tips(s.localChain, Superseded(s.forks, b.Id(), b.parent))
  {
    hide Superseded, LibOk, Ledger;
    TipHeld(cfg, genesis, s);
    assert Rank(b.Id()) == 1 + Rank(b.parent);
    SupersededFacts(s.forks, b.Id(), b.parent);
  }

  /** Bootstrapping among shallow forks, a tallest tip is followed by a tallest tip. */
  lemma ShallowKeepsTallest(cfg: Config, genesis: LedgerState, s: Core, b: BlockHeader)
    requires cfg.Usable() && Inv(cfg, genesis, s) && s.mode.Bootstrapping? && Tallest(s)
    requires ShallowAt(cfg, genesis, s, b)
    ensures OnBlock(cfg, genesis, s, b).0.mode.Bootstrapping? && Tallest(OnBlock(cfg, genesis, s, b).0)
  {
    hide Validate, Superseded, Ledger, LibOk, TipsAreLeaves, Tips;
    if OnBlock(cfg, genesis, s, b).1 == Accepted {
      AcceptedParent(cfg, genesis, s, b);
      TipsAfter(cfg, genesis, s, b);
      var u, forks := Insert(s, b), Superseded(s.forks, b.Id(), b.parent);
      var tips := Tips(s.localChain, forks);
      InsertKeeps(genesis, s, b);
      LedgerRooted(u, genesis);
      OwnTip(s.localChain, forks);
      if b.parent == s.localChain {
        assert Rank(b.Id()) == 1 + Rank(b.parent);
      } else {
        RulesAgreeWhenShallow(u, genesis.block.Id(), s.localChain, forks, cfg.k, cfg.SecuritySlots(), tips);
        NoDuplicateForks(s);
        assert Rank(b.Id()) == 1 + Rank(b.parent);
        SupersededFacts(s.forks, b.Id(), b.parent);
        TipApart(cfg, genesis, s, b);
        AppendFacts(forks, s.localChain);
        RemoveFirstFacts(forks + [s.localChain], Longest(s.localChain, forks));
      }
    }
  }

  /** At most k blocks above the genesis block. */
  ghost predicate Near(cfg: Config, genesis: LedgerState, id: Hash) {
    Rank(id) <= Rank(genesis.block.Id()) + cfg.k
  }

  /** The tip is a tallest one, and no held block is far from the genesis block. */
  ghost predicate TallestNear(cfg: Config, genesis: LedgerState, s: Core) {
    Tallest(s) && forall id :: id in s.table ==> Near(cfg, genesis, id)
  }

  /** Near the genesis block no fork is deep. */
  lemma NearIsShallow(cfg: Config, genesis: LedgerState, t: Table, tips: set<Hash>)
    requires Rooted(t, genesis.block.Id()) && tips <= t.Keys && forall id :: id in t ==> Near(cfg, genesis, id)
    ensures Shallow(t, tips, cfg.k)
  {
    var g := genesis.block.Id();
    forall a, f | a in tips && f in tips
      ensures Depth(a, f, t) <= cfg.k
    {
      RootedDescends(t, g, a);
      RootedDescends(t, g, f);
      DepthBound(t, g, a, f, g);
    }
  }

  /** Bootstrapping near the genesis block keeps to a tallest tip. */
  lemma NearKeepsTallest(cfg: Config, genesis: LedgerState, s: Core, b: BlockHeader)
    requires cfg.Usable() && Inv(cfg, genesis, s) && s.mode.Bootstrapping? && TallestNear(cfg, genesis, s)
    requires OnBlock(cfg, genesis, s, b).1 == Accepted ==> Near(cfg, genesis, b.Id())
    ensures TallestNear(cfg, genesis, OnBlock(cfg, genesis, s, b).0)
  {
    hide Validate, Superseded, Ledger, LibOk, TipsAreLeaves, Tips, Tallest, Near, Shallow;
    if OnBlock(cfg, genesis, s, b).1 == Accepted {
      AcceptedParent(cfg, genesis, s, b);
      TipsAfter(cfg, genesis, s, b);
      InsertKeeps(genesis, s, b);
      LedgerRooted(Insert(s, b), genesis);
      NearIsShallow(cfg, genesis, Insert(s, b), Tips(s.localChain, Superseded(s.forks, b.Id(), b.parent)));
      ShallowKeepsTallest(cfg, genesis, s, b);
    }
  }

  lemma LedgerRooted(t: Table, genesis: LedgerState)
    requires Ledger(t, genesis)
    ensures Rooted(t, genesis.block.Id())
  {
  }

  lemma OwnTip(localChain: Hash, forks: seq<Hash>)
    ensures localChain in Tips(localChain, forks)
  {
  }

  lemma NoDuplicateForks(s: Core)
    requires TipsAreLeaves(s)
    ensures NoDuplicates(s.forks) && s.localChain !in s.forks
  {
  }

  lemma TipApart(cfg: Config, genesis: LedgerState, s: Core, b: BlockHeader)
    requires Inv(cfg, genesis, s) && b.parent in s.table && b.Id() !in s.table
    ensures s.localChain !in Superseded(s.forks, b.Id(), b.parent)
  {
    hide Superseded, LibOk, Ledger;
    TipHeld(cfg, genesis, s);
    assert Rank(b.Id()) == 1 + Rank(b.parent);
    SupersededFacts(s.forks, b.Id(), b.parent);
  }

  /** Only blocks arrive, and every fork they make is shallow. */
  ghost predicate StaysShallow(cfg: Config, genesis: LedgerState, s: Core, events: seq<Event>)
    requires cfg.Usable()
    decreases |events|
  {
    events != [] ==>
      && events[0].Arrive? && ShallowAt(cfg, genesis, s, events[0].b)
      && StaysShallow(cfg, genesis, Step(cfg, genesis, s, events[0]), events[1..])
  }

  lemma {:induction false} ShallowRun(cfg: Config, genesis: LedgerState, s: Core, events: seq<Event>)
    requires cfg.Usable() && Inv(cfg, genesis, s) && s.mode.Bootstrapping? && Tallest(s)
    requires StaysShallow(cfg, genesis, s, events)
    ensures var r := Run(cfg, genesis, s, events); Inv(cfg, genesis, r) && r.mode.Bootstrapping? && Tallest(r)
    decreases |events|
  {
    hide Inv, Tallest, OnBlock, ShallowAt;
    if events != [] {
      ShallowKeepsTallest(cfg, genesis, s, events[0].b);
      StepInv(cfg, genesis, s, events[0]);
      ShallowRun(cfg, genesis, Step(cfg, genesis, s, events[0]), events[1..]);
    }
  }

  lemma {:induction false} RunAppend(cfg: Config, genesis: LedgerState, s: Core, a: seq<Event>, b: seq<Event>)
    requires cfg.Usable()
    ensures Run(cfg, genesis, s, a + b) == Run(cfg, genesis, Run(cfg, genesis, s, a), b)
    decreases |a|
  {
    hide Step;
    if a == [] {
      assert a + b == b;
    } else {
      assert (a + b)[1..] == a[1..] + b;
      RunAppend(cfg, genesis, Step(cfg, genesis, s, a[0]), a[1..], b);
    }
  }

  lemma OnlineKeepsTallest(cfg: Config, genesis: LedgerState, s: Core)
    requires Inv(cfg, genesis, s) && Tallest(s)
    ensures ToOnline(cfg, genesis, s).mode.Online? && Tallest(ToOnline(cfg, genesis, s))
  {
    NoDuplicateForks(s);
    DescendantsFacts(s.forks, LibOf(cfg, genesis, s.localChain, s.table), s.table);
  }

  /** A follower that bootstraps among shallow forks and then goes online follows a tallest
      chain for ever. */
  lemma ShallowThenOnline(cfg: Config, genesis: LedgerState, events: seq<Event>, later: seq<Event>)
    requires cfg.Usable() && StaysShallow(cfg, genesis, Initial(genesis), events)
    ensures Tallest(Run(cfg, genesis, Initial(genesis), events + ([GoOnline] + later)))
  {
    var s := Initial(genesis);
    InitialInv(cfg, genesis);
    assert Tallest(s);
    hide Initial, Inv, Tallest, ToOnline, StaysShallow, OnBlock;
    ShallowRun(cfg, genesis, s, events);
    var r := Run(cfg, genesis, s, events);
    ToOnlineInv(cfg, genesis, r);
    OnlineKeepsTallest(cfg, genesis, r);
    TallestRun(cfg, genesis, ToOnline(cfg, genesis, r), later);
    RunAppend(cfg, genesis, s, events, [GoOnline] + later);
    assert ([GoOnline] + later)[1..] == later;
  }

  /** A follower that goes online before its first block follows the longest chain for ever. */
  lemma OnlineFromGenesis(cfg: Config, genesis: LedgerState, events: seq<Event>)
    requires cfg.Usable()
    ensures Tallest(Run(cfg, genesis, Initial(genesis), [GoOnline] + events))
  {
    hide Initial, Run, Tallest;
    ShallowThenOnline(cfg, genesis, [], events);
    assert [] + ([GoOnline] + events) == [GoOnline] + events;
  }
}
