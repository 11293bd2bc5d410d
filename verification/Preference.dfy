/** Which tip a follower moves to, in terms of the held blocks, their ancestors and their slots. */
module Preference {
  import opened Collections
  import opened Blocks
  import opened Walks
  import opened ForkChoice
  import opened EpochStates
  import opened FollowerState

  /** c is the highest common block of a and b. */
  ghost predicate Meet(c: Hash, a: Hash, b: Hash) {
    && Descends(c, a) && Descends(c, b)
    && forall d :: Descends(d, a) && Descends(d, b) ==> Descends(d, c)
  }

  /** The held blocks from c up to a tip that come before a slot. */
  ghost function Window(held: set<Hash>, c: Hash, tip: Hash, slot: nat): set<Hash> {
    set x | x in held && Descends(c, x) && Descends(x, tip) && x.BlockId? && x.header.slot < slot
  }

  /** The other tip replaces the current one, which is at most k above their highest common block c
      and lower than the other; or deeper, while bootstrapping, when the other has more blocks in the
      three base periods from c on. */
  ghost predicate Better(cfg: Config, mode: Mode, held: set<Hash>, c: Hash, current: Hash, other: Hash) {
    if Rank(current) - Rank(c) <= cfg.k then Rank(other) > Rank(current)
    else
      && mode.Bootstrapping? && c.BlockId?
      && var slot := c.header.slot + 3 * cfg.basePeriod;
         |Window(held, c, other, slot)| > |Window(held, c, current, slot)|
  }

  ghost predicate Prefers(cfg: Config, mode: Mode, held: set<Hash>, current: Hash, other: Hash) {
    exists c :: Meet(c, current, other) && Better(cfg, mode, held, c, current, other)
  }

  /** The tip that is left after every fork was compared with the best so far. */
  ghost function Champion(cfg: Config, mode: Mode, held: set<Hash>, current: Hash, forks: seq<Hash>): (r: Hash)
    ensures r == current || r in forks
    decreases |forks|
  {
    if forks == [] then current
    else
      var best := if Prefers(cfg, mode, held, current, forks[0]) then forks[0] else current;
      Champion(cfg, mode, held, best, forks[1..])
  }

  lemma MeetUnique(c: Hash, d: Hash, a: Hash, b: Hash)
    requires Meet(c, a, b) && Meet(d, a, b)
    ensures c == d
  {
    DescendsRank(c, d);
    DescendsRank(d, c);
  }

  lemma PrefersAt(cfg: Config, mode: Mode, held: set<Hash>, c: Hash, current: Hash, other: Hash)
    requires Meet(c, current, other)
    ensures Prefers(cfg, mode, held, current, other) <==> Better(cfg, mode, held, c, current, other)
  {
    if Prefers(cfg, mode, held, current, other) {
      var d :| Meet(d, current, other) && Better(cfg, mode, held, d, current, other);
      MeetUnique(c, d, current, other);
    }
  }

  /** What lies between the root and a held block is held. */
  lemma {:induction false} BetweenHeld(t: Table, g: Hash, d: Hash, tip: Hash)
    requires Rooted(t, g) && tip in t && Descends(g, d) && Descends(d, tip)
    ensures d in t
    decreases tip
  {
    if d != tip {
      if tip == g {
        DescendsRank(g, d);
        DescendsRank(d, g);
      } else {
        BetweenHeld(t, g, d, tip.header.parent);
      }
    }
  }

  /** The i-th block of a walk is i links below its start. */
  lemma ChainRank(t: Table, g: Hash, tip: Hash, i: nat)
    requires Rooted(t, g) && tip in t && i < |Chain(tip, t)|
    ensures var x := Chain(tip, t)[i]; x in t && Descends(g, x) && Descends(x, tip) && Rank(x) == Rank(tip) - i
  {
    RootedChain(t, g, tip);
    ChainSuffix(tip, t, i);
    RootedChain(t, g, Chain(tip, t)[i]);
    ChainDescends(tip, t, Chain(tip, t)[i]);
  }

  /** The block that `common_prefix_depth` finds is the highest common block. */
  lemma SplitMeets(t: Table, g: Hash, a: Hash, b: Hash)
    requires Rooted(t, g) && a in t && b in t
    ensures Share(a, b, t) && Share(b, a, t)
    ensures var c := Chain(a, t)[Da(a, b, t)];
            && Meet(c, a, b) && c in t && c == Chain(b, t)[Da(b, a, t)]
            && Da(a, b, t) == Rank(a) - Rank(c) && Da(b, a, t) == Rank(b) - Rank(c)
  {
    RootedShare(t, g, a, b);
    LowestCommonAncestor(a, b, t);
    var c := Chain(a, t)[Da(a, b, t)];
    ChainRank(t, g, a, Da(a, b, t));
    ChainRank(t, g, b, Da(b, a, t));
    forall d | Descends(d, a) && Descends(d, b)
      ensures Descends(d, c)
    {
      CommonBelow(t, g, a, b, c, d);
    }
  }

  lemma CommonBelow(t: Table, g: Hash, a: Hash, b: Hash, c: Hash, d: Hash)
    requires Rooted(t, g) && a in t && b in t && Share(a, b, t) && Share(b, a, t)
    requires c in t && Descends(g, c) && Descends(c, a) && Rank(c) == Rank(a) - Da(a, b, t)
    requires Descends(d, a) && Descends(d, b)
    ensures Descends(d, c)
  {
    hide Da, Chain, Rooted, Share;
    AncestorsComparable(c, d, a);
    if Descends(c, d) {
      DescendsTransitive(g, c, d);
      BetweenHeld(t, g, d, a);
      Nearest(t, g, a, b, d);
      DescendsRank(c, d);
    }
  }

  /** A common block is at least as far as the distances say. */
  lemma Nearest(t: Table, g: Hash, a: Hash, b: Hash, d: Hash)
    requires Rooted(t, g) && a in t && b in t && d in t && Share(a, b, t) && Descends(d, a) && Descends(d, b)
    ensures Rank(d) <= Rank(a) - Da(a, b, t)
  {
    hide Da, Share;
    RootedChain(t, g, a);
    RootedChain(t, g, b);
    var i :| 0 <= i < |Chain(a, t)| && Chain(a, t)[i] == d;
    var j :| 0 <= j < |Chain(b, t)| && Chain(b, t)[j] == d;
    ChainRank(t, g, a, i);
    CommonIsFar(a, b, t, i, j);
  }


  /** Of the blocks below a tip, those down to the d-th descend from it. */
  lemma DownTo(t: Table, g: Hash, tip: Hash, d: nat, j: nat)
    requires Rooted(t, g) && tip in t && d < |Chain(tip, t)| && j < |Chain(tip, t)|
    ensures Descends(Chain(tip, t)[d], Chain(tip, t)[j]) <==> j <= d
  {
    hide Chain, Rooted;
    ChainRank(t, g, tip, d);
    ChainRank(t, g, tip, j);
    var a, b := Chain(tip, t)[d], Chain(tip, t)[j];
    AncestorsComparable(a, b, tip);
    if Descends(a, b) {
      DescendsRank(a, b);
    }
    if Descends(b, a) {
      DescendsRank(b, a);
    }
  }

  /** The ids of a path, oldest first. */
  ghost function PathIds(tip: Hash, d: nat, t: Table): (ids: seq<Hash>)
    requires d < |Chain(tip, t)|
    ensures |ids| == d + 1 && forall i :: 0 <= i <= d ==> ids[i] == Chain(tip, t)[d - i]
  {
    Reverse(Chain(tip, t)[..d + 1])
  }

  lemma BeforeByIds(t: Table, tip: Hash, d: nat, slot: nat, i: nat)
    requires Keyed(t) && d < |Chain(tip, t)|
    ensures i in Before(PathFrom(tip, d, t), slot) <==>
      i <= d && PathIds(tip, d, t)[i].BlockId? && PathIds(tip, d, t)[i].header.slot < slot
  {
    PathEnds(tip, d, t);
    hide PathIds, Chain, PathFrom;
  }

  lemma WindowByIds(t: Table, g: Hash, tip: Hash, d: nat, slot: nat, x: Hash)
    requires Rooted(t, g) && tip in t && d < |Chain(tip, t)|
    ensures x in Window(t.Keys, Chain(tip, t)[d], tip, slot) <==>
      exists i :: 0 <= i <= d && PathIds(tip, d, t)[i] == x && x.BlockId? && x.header.slot < slot
  {
    hide PathIds, Chain, Rooted, Descends;
    RootedChain(t, g, tip);
    if x in Chain(tip, t) {
      var j :| 0 <= j < |Chain(tip, t)| && Chain(tip, t)[j] == x;
      DownTo(t, g, tip, d, j);
      if j <= d {
        assert PathIds(tip, d, t)[d - j] == x;
      }
    }
    if i :| 0 <= i <= d && PathIds(tip, d, t)[i] == x {
      assert Chain(tip, t)[d - i] == x;
      DownTo(t, g, tip, d, d - i);
    }
  }

  /** A path has as many blocks before a slot as the window has. */
  lemma PathIsWindow(t: Table, g: Hash, tip: Hash, d: nat, slot: nat)
    requires Rooted(t, g) && tip in t && d < |Chain(tip, t)|
    ensures |Before(PathFrom(tip, d, t), slot)| == |Window(t.Keys, Chain(tip, t)[d], tip, slot)|
  {
    hide PathIds, PathFrom, Chain, Rooted, Window, Before;
    RootedKeyed(t, g);
    var ids, positions := PathIds(tip, d, t), Before(PathFrom(tip, d, t), slot);
    var image := Window(t.Keys, Chain(tip, t)[d], tip, slot);
    forall i: nat
      ensures i in positions <==> i <= d && ids[i].BlockId? && ids[i].header.slot < slot
    {
      BeforeByIds(t, tip, d, slot, i);
    }
    forall i: nat, j: nat | i <= d && j <= d && ids[i] == ids[j]
      ensures i == j
    {
      ChainDistinct(tip, t, d - i, d - j);
    }
    forall x
      ensures x in image <==> exists i :: i in positions && ids[i] == x
    {
      WindowByIds(t, g, tip, d, slot, x);
      if i :| 0 <= i <= d && ids[i] == x && x.BlockId? && x.header.slot < slot {
        assert i in positions;
      }
    }
    ImageSize(ids, positions, image);
  }

  /** A position for every element, and one element for every position. */
  lemma {:induction false} ImageSize(s: seq<Hash>, positions: set<nat>, image: set<Hash>)
    requires forall i :: i in positions ==> i < |s|
    requires forall i, j :: i in positions && j in positions && s[i] == s[j] ==> i == j
    requires forall x :: x in image <==> exists i :: i in positions && s[i] == x
    ensures |positions| == |image|
    decreases positions
  {
    if positions == {} {
      assert image == {};
    } else {
      var i :| i in positions;
      assert s[i] in image;
      ImageSize(s, positions - {i}, image - {s[i]});
    }
  }

  /** One turn of `maxvalid_mc` is the online preference. */
  lemma McPrefers(cfg: Config, t: Table, g: Hash, current: Hash, other: Hash)
    requires Rooted(t, g) && current in t && other in t
    ensures McStep(current, other, cfg.k, t)
            == if Prefers(cfg, Online, t.Keys, current, other) then other else current
  {
    SplitMeets(t, g, current, other);
    hide Da, Share, Chain, Meet;
    PrefersAt(cfg, Online, t.Keys, Chain(current, t)[Da(current, other, t)], current, other);
  }

  /** One turn of `maxvalid_bg` is the bootstrapping preference. */
  lemma BgPrefers(cfg: Config, t: Table, g: Hash, current: Hash, other: Hash)
    requires Rooted(t, g) && current in t && other in t
    ensures BgStep(current, other, cfg.k, cfg.SecuritySlots(), t)
            == if Prefers(cfg, Bootstrapping, t.Keys, current, other) then other else current
  {
    hide Da, Share, Chain, Meet, Prefers, Before, Window, ChainDensity, PathFrom, BgStep, Rooted, Keyed, Descends, Rank;
    SplitMeets(t, g, current, other);
    RootedKeyed(t, g);
    var da, db := Da(current, other, t), Da(other, current, t);
    var c := Chain(current, t)[da];
    PrefersAt(cfg, Bootstrapping, t.Keys, c, current, other);
    BgStepBySplit(current, other, cfg.k, cfg.SecuritySlots(), t);
    PathEnds(current, da, t);
    var slot := c.header.slot + 3 * cfg.basePeriod;
    assert slot == PathFrom(current, da, t)[0].slot + cfg.SecuritySlots();
    PathIsWindow(t, g, current, da, slot);
    PathIsWindow(t, g, other, db, slot);
    DensityCounts(PathFrom(current, da, t), slot);
    DensityCounts(PathFrom(other, db, t), slot);
  }

  /** The fork choice of either mode is the champion of the forks. */
  lemma {:induction false} ChoosesChampion(cfg: Config, mode: Mode, t: Table, g: Hash, current: Hash, forks: seq<Hash>)
    requires Rooted(t, g) && current in t && forall f :: f in forks ==> f in t
    ensures ForkChoiceOf(cfg, mode, current, forks, t) == Champion(cfg, mode, t.Keys, current, forks)
    decreases |forks|
  {
    hide Prefers, Rooted, BgStep, McStep;
    if forks != [] {
      McPrefers(cfg, t, g, current, forks[0]);
      BgPrefers(cfg, t, g, current, forks[0]);
      ChoosesChampion(cfg, mode, t, g,
                      if Prefers(cfg, mode, t.Keys, current, forks[0]) then forks[0] else current, forks[1..]);
    }
  }

  /** A list without a block. */
  ghost function Others(s: seq<Hash>, x: Hash): (r: seq<Hash>)
    ensures forall y :: y in r <==> y in s && y != x
  {
    if s == [] then [] else
      var rest := Others(s[1..], x);
      assert forall y :: y in s <==> y == s[0] || y in s[1..];
      (if s[0] == x then [] else [s[0]]) + rest
  }

  /** The blocks of a list that descend from a block. */
  ghost function Above(s: seq<Hash>, lib: Hash): (r: seq<Hash>)
    ensures forall y :: y in r <==> y in s && Descends(lib, y)
  {
    if s == [] then [] else
      var rest := Above(s[1..], lib);
      assert forall y :: y in s <==> y == s[0] || y in s[1..];
      (if Descends(lib, s[0]) then [s[0]] else []) + rest
  }

  lemma {:induction false} OthersAll(s: seq<Hash>, x: Hash)
    requires x !in s
    ensures Others(s, x) == s
  {
    if s != [] {
      OthersAll(s[1..], x);
    }
  }

  lemma {:induction false} RemoveIsOthers(s: seq<Hash>, x: Hash)
    requires NoDuplicates(s)
    ensures RemoveFirst(s, x) == Others(s, x)
  {
    if s != [] {
      var rest := s[1..];
      assert forall i, j :: 0 <= i < j < |rest| ==> rest[i] == s[i + 1] && rest[j] == s[j + 1];
      if s[0] == x {
        OthersAll(rest, x);
      } else {
        RemoveIsOthers(rest, x);
      }
    }
  }

  lemma {:induction false} OthersAppend(s: seq<Hash>, y: Hash, x: Hash)
    requires y != x
    ensures Others(s + [y], x) == Others(s, x) + [y]
  {
    if s != [] {
      assert (s + [y])[1..] == s[1..] + [y];
      OthersAppend(s[1..], y, x);
    }
  }

  lemma SupersededIsOthers(forks: seq<Hash>, id: Hash, parent: Hash)
    requires NoDuplicates(forks) && id !in forks && id != parent
    ensures Superseded(forks, id, parent) == Others(forks, parent) + [id]
  {
    AppendFacts(forks, id);
    RemoveIsOthers(forks + [id], parent);
    OthersAppend(forks, id, parent);
    if parent !in forks + [id] {
      OthersAll(forks + [id], parent);
    }
  }

  lemma {:induction false} DescendantsAreAbove(t: Table, g: Hash, forks: seq<Hash>, lib: Hash)
    requires Rooted(t, g) && lib in t && forall f :: f in forks ==> f in t
    ensures Descendants(forks, lib, t) == Above(forks, lib)
  {
    if forks != [] {
      RootedChain(t, g, forks[0]);
      DescendantsAreAbove(t, g, forks[1..], lib);
    }
  }

  /** The forks that a new block is compared with: those it does not extend, in their order, then itself. */
  ghost function Rivals(forks: seq<Hash>, b: BlockHeader): (r: seq<Hash>)
    ensures forall f :: f in r <==> f == b.Id() || (f in forks && f != b.parent)
  {
    Others(forks, b.parent) + [b.Id()]
  }

  lemma PlaceFacts(cfg: Config, genesis: LedgerState, s: Core, b: BlockHeader)
    requires cfg.Usable() && Inv(cfg, genesis, s) && OnBlock(cfg, genesis, s, b).1 == Accepted
    ensures b.parent in s.table && b.Id() !in s.table && b.Id() != b.parent && Descends(s.lib, b.parent)
    ensures Ledger(Insert(s, b), genesis)
    ensures OnBlock(cfg, genesis, s, b).0 == UpdateLib(cfg, genesis, Place(cfg, s, Insert(s, b), b))
    ensures Insert(s, b).Keys == s.table.Keys + {b.Id()}
    ensures forall f :: f in s.forks ==> f in s.table
    ensures TipsAreLeaves(Place(cfg, s, Insert(s, b), b))
    ensures NoDuplicates(s.forks) && s.localChain !in s.forks && s.localChain in s.table
    ensures b.parent != s.localChain ==> Superseded(s.forks, b.Id(), b.parent) == Rivals(s.forks, b)
  {
    hide Superseded, ForkChoiceOf, Others, UpdateLib, RemoveFirst;
    AcceptedParent(cfg, genesis, s, b);
    TipHeld(cfg, genesis, s);
    InsertKeeps(genesis, s, b);
    PlaceKeepsLeaves(cfg, genesis, s, b);
    assert Rank(b.Id()) == 1 + Rank(b.parent);
    NoDuplicateForks(s);
    SupersededIsOthers(s.forks, b.Id(), b.parent);
  }

  /** Main result: an accepted block that extends the tip becomes the tip; otherwise the tip is the
      champion of the forks that it does not extend and itself, by the rule of the mode. */
  lemma TipAfter(cfg: Config, genesis: LedgerState, s: Core, b: BlockHeader)
    requires cfg.Usable() && Inv(cfg, genesis, s) && OnBlock(cfg, genesis, s, b).1 == Accepted
    ensures OnBlock(cfg, genesis, s, b).0.localChain ==
      if b.parent == s.localChain then b.Id()
      else Champion(cfg, s.mode, s.table.Keys + {b.Id()}, s.localChain, Rivals(s.forks, b))
  {
    hide Superseded, ForkChoiceOf, Rivals, OnBlock, Insert, Inv, TipsAreLeaves, RemoveFirst, NoDuplicates, Champion,
      Ledger, Descendants, LibOf, Pruned;
    PlaceFacts(cfg, genesis, s, b);
    if b.parent != s.localChain {
      LedgerRooted(Insert(s, b), genesis);
      ChoosesChampion(cfg, s.mode, Insert(s, b), genesis.block.Id(), s.localChain, Rivals(s.forks, b));
    }
  }

  /** The forks after an accepted block: the old tip joins them where the tip moved away, in order. */
  ghost function Unchosen(s: Core, b: BlockHeader, tip: Hash): seq<Hash> {
    if b.parent == s.localChain then s.forks else Others(Rivals(s.forks, b) + [s.localChain], tip)
  }

  /** Bootstrapping, everything is kept. Online, the last immutable block is k below the tip, or the
      genesis block, and what is not on its line is dropped. */
  lemma RestAfter(cfg: Config, genesis: LedgerState, s: Core, b: BlockHeader)
    requires cfg.Usable() && Inv(cfg, genesis, s) && OnBlock(cfg, genesis, s, b).1 == Accepted
    ensures var r, g := OnBlock(cfg, genesis, s, b).0, genesis.block.Id();
            && r.mode == s.mode
            && Descends(r.lib, r.localChain)
            && Rank(r.lib) == (if s.mode.Bootstrapping? || Rank(r.localChain) - cfg.k <= Rank(g) then Rank(g)
                               else Rank(r.localChain) - cfg.k)
            && r.forks == (if s.mode.Bootstrapping? then Unchosen(s, b, r.localChain)
                           else Above(Unchosen(s, b, r.localChain), r.lib))
            && forall x :: x in r.table <==>
                 x in s.table.Keys + {b.Id()} && (s.mode.Online? ==> Comparable(r.lib, x))
  {
    hide Superseded, ForkChoiceOf, Rivals, OnBlock, Insert, NoDuplicates, Champion, Ledger, Descendants, LibOf, Pruned,
      Comparable, Above, Chain, Validate, Leaf;
    PlaceFacts(cfg, genesis, s, b);
    var u := Insert(s, b);
    var p := Place(cfg, s, u, b);
    var r := UpdateLib(cfg, genesis, p);
    UnchosenForks(cfg, genesis, s, b);
    LeafHeld(p.localChain, u);
    forall f | f in p.forks
      ensures f in u
    {
      LeafHeld(f, u);
    }
    if s.mode.Online? {
      LibIsAncestor(cfg, genesis, p.localChain, u);
      PrunedKeeps(genesis, u, r.lib);
      LedgerRooted(u, genesis);
      DescendantsAreAbove(u, genesis.block.Id(), p.forks, r.lib);
    }
  }

  /** Going online keeps the tip, sets the last immutable block k below it, and drops what is not on
      its line. */
  lemma OnlineAfter(cfg: Config, genesis: LedgerState, s: Core)
    requires Inv(cfg, genesis, s)
    ensures var r, g := ToOnline(cfg, genesis, s), genesis.block.Id();
            && r.mode == Online && r.localChain == s.localChain
            && Descends(r.lib, s.localChain)
            && Rank(r.lib) == (if Rank(s.localChain) - cfg.k <= Rank(g) then Rank(g) else Rank(s.localChain) - cfg.k)
            && r.forks == Above(s.forks, r.lib)
            && forall x :: x in r.table <==> x in s.table && Comparable(r.lib, x)
  {
    hide Descendants, LibOf, Pruned, Comparable, Above, Chain, Leaf;
    var r := ToOnline(cfg, genesis, s);
    TipHeld(cfg, genesis, s);
    LibIsAncestor(cfg, genesis, s.localChain, s.table);
    PrunedKeeps(genesis, s.table, r.lib);
    LedgerRooted(s.table, genesis);
    DescendantsAreAbove(s.table, genesis.block.Id(), s.forks, r.lib);
  }

  lemma UnchosenForks(cfg: Config, genesis: LedgerState, s: Core, b: BlockHeader)
    requires cfg.Usable() && Inv(cfg, genesis, s) && OnBlock(cfg, genesis, s, b).1 == Accepted
    ensures b.parent in s.table
    ensures var p := Place(cfg, s, Insert(s, b), b);
            p.mode == s.mode && p.table == Insert(s, b) && p.lib == s.lib
            && p.forks == Unchosen(s, b, p.localChain)
            && (s.mode.Bootstrapping? ==> Descends(s.lib, p.localChain))
  {
    hide ForkChoiceOf, Others, OnBlock, Insert, Ledger, Validate, Leaf, Superseded, NoDuplicates, Inv, TipsAreLeaves,
      Rivals, RemoveFirst;
    PlaceFacts(cfg, genesis, s, b);
    PlaceKeepsComparable(cfg, genesis, s, b);
    if b.parent != s.localChain {
      var forks := Rivals(s.forks, b);
      SupersededFacts(s.forks, b.Id(), b.parent);
      AppendFacts(forks, s.localChain);
      RemoveIsOthers(forks + [s.localChain], Place(cfg, s, Insert(s, b), b).localChain);
    }
  }

  /** Against a single rival that forks more than k below the tip, a bootstrapping follower moves
      exactly when the rival has more blocks in the window, whatever the heights. */
  lemma DeepRival(cfg: Config, genesis: LedgerState, s: Core, b: BlockHeader, c: Hash)
    requires cfg.Usable() && Inv(cfg, genesis, s) && OnBlock(cfg, genesis, s, b).1 == Accepted
    requires s.mode.Bootstrapping?
    requires b.parent != s.localChain && forall f :: f in s.forks ==> f == b.parent
    requires Meet(c, s.localChain, b.Id()) && Rank(s.localChain) - Rank(c) > cfg.k
    ensures c.BlockId? && b.Id() != s.localChain
    ensures var held, slot := s.table.Keys + {b.Id()}, c.header.slot + 3 * cfg.basePeriod;
            OnBlock(cfg, genesis, s, b).0.localChain ==
            if |Window(held, c, b.Id(), slot)| > |Window(held, c, s.localChain, slot)| then b.Id() else s.localChain
  {
    hide OnBlock, Inv, Window, Meet, Insert, Ledger, TipsAreLeaves, Descends, Rank, Place, UpdateLib;
    LoneRival(cfg, genesis, s, b, c);
  }

  /** Against a single rival that forks at most k below the tip, either mode moves exactly when the
      rival is taller. */
  lemma ShallowRival(cfg: Config, genesis: LedgerState, s: Core, b: BlockHeader, c: Hash)
    requires cfg.Usable() && Inv(cfg, genesis, s) && OnBlock(cfg, genesis, s, b).1 == Accepted
    requires b.parent != s.localChain && forall f :: f in s.forks ==> f == b.parent
    requires Meet(c, s.localChain, b.Id()) && Rank(s.localChain) - Rank(c) <= cfg.k
    ensures OnBlock(cfg, genesis, s, b).0.localChain ==
            if Rank(b.Id()) > Rank(s.localChain) then b.Id() else s.localChain
  {
    hide OnBlock, Inv, Window, Meet, Insert, Ledger, TipsAreLeaves, Descends, Rank, Place, UpdateLib;
    LoneRival(cfg, genesis, s, b, c);
  }

  lemma LoneRival(cfg: Config, genesis: LedgerState, s: Core, b: BlockHeader, c: Hash)
    requires cfg.Usable() && Inv(cfg, genesis, s) && OnBlock(cfg, genesis, s, b).1 == Accepted
    requires b.parent != s.localChain && forall f :: f in s.forks ==> f == b.parent
    requires Meet(c, s.localChain, b.Id())
    ensures c.BlockId? && b.Id() != s.localChain
    ensures OnBlock(cfg, genesis, s, b).0.localChain ==
            if Better(cfg, s.mode, s.table.Keys + {b.Id()}, c, s.localChain, b.Id()) then b.Id() else s.localChain
  {
    hide OnBlock, Inv, Insert, Ledger, TipsAreLeaves, Descends, Rank, Place, UpdateLib, Better;
    PlaceFacts(cfg, genesis, s, b);
    TipAfter(cfg, genesis, s, b);
    PrefersAt(cfg, s.mode, s.table.Keys + {b.Id()}, c, s.localChain, b.Id());
    MeetHeld(cfg, genesis, s, b, c);
    NoOthers(s.forks, b.parent);
    assert Rivals(s.forks, b) == [b.Id()];
    hide Rivals, Meet, Prefers;
  }

  lemma {:induction false} NoOthers(s: seq<Hash>, x: Hash)
    requires forall f :: f in s ==> f == x
    ensures Others(s, x) == []
  {
    if s != [] {
      assert s[0] in s && forall f :: f in s[1..] ==> f in s;
      NoOthers(s[1..], x);
    }
  }

  lemma MeetHeld(cfg: Config, genesis: LedgerState, s: Core, b: BlockHeader, c: Hash)
    requires cfg.Usable() && Inv(cfg, genesis, s) && b.parent in s.table && b.Id() !in s.table
    requires Meet(c, s.localChain, b.Id())
    ensures c in Insert(s, b) && c.BlockId? && Descends(genesis.block.Id(), c)
  {
    var u, g := Insert(s, b), genesis.block.Id();
    InsertKeeps(genesis, s, b);
    TipHeld(cfg, genesis, s);
    SplitMeets(u, g, s.localChain, b.Id());
    MeetUnique(c, Chain(s.localChain, u)[Da(s.localChain, b.Id(), u)], s.localChain, b.Id());
    RootedDescends(u, g, c);
    hide Da, Share;
  }

  /** Online, forks that all leave the tip's chain more than k below it never replace it. */
  lemma {:induction false} DeepForksLose(cfg: Config, held: set<Hash>, current: Hash, forks: seq<Hash>)
    requires forall f, c :: f in forks && Meet(c, current, f) ==> Rank(current) - Rank(c) > cfg.k
    ensures Champion(cfg, Online, held, current, forks) == current
    decreases |forks|
  {
    if forks != [] {
      assert forks[0] in forks;
      DeepForksLose(cfg, held, current, forks[1..]);
    }
  }

  /** So `maxvalid_mc` keeps the tip among such forks, whatever their heights. */
  lemma DeepForksKeepTip(cfg: Config, t: Table, g: Hash, current: Hash, forks: seq<Hash>)
    requires Rooted(t, g) && current in t && forall f :: f in forks ==> f in t
    requires forall f, c :: f in forks && Meet(c, current, f) ==> Rank(current) - Rank(c) > cfg.k
    ensures MaxvalidMc(current, forks, cfg.k, t) == current
  {
    hide Rooted, Meet, Champion, MaxvalidMc;
    ChoosesChampion(cfg, Online, t, g, current, forks);
    DeepForksLose(cfg, t.Keys, current, forks);
  }

  /** An online follower never meets such a fork: what it accepts and what it keeps leave the tip's
      chain at most k below the tip. */
  lemma OnlineRivalsAreShallow(cfg: Config, genesis: LedgerState, s: Core, b: BlockHeader, f: Hash, c: Hash)
    requires cfg.Usable() && Inv(cfg, genesis, s) && OnBlock(cfg, genesis, s, b).1 == Accepted && s.mode.Online?
    requires f in Rivals(s.forks, b) && Meet(c, s.localChain, f)
    ensures Rank(s.localChain) - Rank(c) <= cfg.k
  {
    hide OnBlock, LibOf, Ledger, TipsAreLeaves, Rivals, Rank;
    PlaceFacts(cfg, genesis, s, b);
    TipsDescendFromLib(cfg, genesis, s);
    DescendsTransitive(s.lib, b.parent, b.Id());
    LibIsAncestor(cfg, genesis, s.localChain, s.table);
    DescendsRank(s.lib, c);
  }

  /** Online, a new tip that was chosen over the old one is taller than it. */
  lemma {:induction false} ChampionIsTaller(cfg: Config, held: set<Hash>, current: Hash, forks: seq<Hash>)
    ensures var r := Champion(cfg, Online, held, current, forks); r == current || Rank(r) > Rank(current)
    decreases |forks|
  {
    if forks != [] {
      ChampionIsTaller(cfg, held, if Prefers(cfg, Online, held, current, forks[0]) then forks[0] else current,
                       forks[1..]);
    }
  }
}
