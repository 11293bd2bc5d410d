/** The walks over the block tree: height, ancestry and the common prefix of two chains. */
module Walks {
  import opened Collections
  import opened Blocks

  /** `height`, for a block that is held. */
  method Height(block: Hash, t: Table) returns (height: nat)
    requires Keyed(t) && block in t
    ensures height == |Chain(block, t)| && height > 0
  {
    height := 0;
    var id := block;
    while id in t
      invariant height + |Chain(id, t)| == |Chain(block, t)|
      decreases id
    {
      height := height + 1;
      assert id.BlockId? && t[id].block == id.header;
      id := t[id].block.parent;
    }
  }

  /** `is_ancestor` */
  method IsAncestor(a: Hash, b: Hash, t: Table) returns (found: bool)
    requires Keyed(t)
    ensures found <==> a in Chain(b, t)
  {
    var id := b;
    while id in t
      invariant a in Chain(b, t) <==> a in Chain(id, t)
      decreases id
    {
      assert id.BlockId? && t[id].block == id.header;
      if t[id].block.Id() == a {
        return true;
      }
      id := t[id].block.parent;
    }
    found := false;
  }

  /** The headers of a list of held blocks. */
  ghost function Headers(ids: seq<Hash>, t: Table): (r: seq<BlockHeader>)
    requires forall i :: 0 <= i < |ids| ==> ids[i] in t
    ensures |r| == |ids| && forall i :: 0 <= i < |r| ==> r[i] == t[ids[i]].block
  {
    seq(|ids|, i requires 0 <= i < |ids| => t[ids[i]].block)
  }

  /** The two tips have a held ancestor in common. */
  ghost predicate Share(a: Hash, b: Hash, t: Table) {
    exists i :: 0 <= i < |Chain(a, t)| && Chain(a, t)[i] in Chain(b, t)
  }

  /** The distance from a tip to the first block of its chain that is on another chain. */
  ghost function Distance(a: seq<Hash>, b: seq<Hash>): (d: nat)
    ensures d <= |a|
    ensures forall i :: 0 <= i < d ==> a[i] !in b
    ensures d < |a| ==> a[d] in b
  {
    if a == [] || a[0] in b then 0 else
      var d := 1 + Distance(a[1..], b);
      assert forall i :: 1 <= i < d ==> a[i] == a[1..][i - 1];
      d
  }

  /** The path from the lowest common ancestor, oldest first, to a tip at distance d. */
  ghost function PathFrom(tip: Hash, d: nat, t: Table): seq<BlockHeader>
    requires d < |Chain(tip, t)|
  {
    Reverse(Headers(Chain(tip, t)[..d + 1], t))
  }

  datatype Split = Split(aDepth: nat, aSuffix: seq<BlockHeader>, bDepth: nat, bSuffix: seq<BlockHeader>) {
    function Swap(): Split {
      Split(bDepth, bSuffix, aDepth, aSuffix)
    }
  }

  lemma ShareSymmetric(a: Hash, b: Hash, t: Table)
    requires Share(a, b, t)
    ensures Share(b, a, t)
  {
  }

  /** Distances to the lowest common ancestor. */
  ghost function Da(a: Hash, b: Hash, t: Table): (d: nat)
    requires Share(a, b, t)
    ensures d < |Chain(a, t)| && Chain(a, t)[d] in Chain(b, t)
  {
    var i :| 0 <= i < |Chain(a, t)| && Chain(a, t)[i] in Chain(b, t);
    Distance(Chain(a, t), Chain(b, t))
  }

  /** No common block is nearer than the distances say. */
  lemma CommonIsFar(a: Hash, b: Hash, t: Table, i: nat, j: nat)
    requires Share(a, b, t) && i < |Chain(a, t)| && j < |Chain(b, t)| && Chain(a, t)[i] == Chain(b, t)[j]
    ensures Share(b, a, t) && i >= Da(a, b, t) && j >= Da(b, a, t)
  {
  }

  lemma SameDistanceToEnd(a: Hash, b: Hash, t: Table)
    requires Share(a, b, t)
    ensures Share(b, a, t) && Chain(a, t)[Da(a, b, t)] == Chain(b, t)[Da(b, a, t)]
    ensures |Chain(a, t)| - Da(a, b, t) == |Chain(b, t)| - Da(b, a, t)
  {
    ShareSymmetric(a, b, t);
    var ca, cb, da, db := Chain(a, t), Chain(b, t), Da(a, b, t), Da(b, a, t);
    var j :| 0 <= j < |cb| && cb[j] == ca[da];
    var i :| 0 <= i < |ca| && ca[i] == cb[db];
    hide Chain, Da;
    CommonIsFar(a, b, t, da, j);
    CommonIsFar(a, b, t, i, db);
    ChainsMeet(a, b, t, da, j);
    ChainsMeet(a, b, t, i, db);
  }

  /** The two distances lead to the same block, and no pair of smaller distances does. */
  lemma LowestCommonAncestor(a: Hash, b: Hash, t: Table)
    requires Share(a, b, t)
    ensures Share(b, a, t)
    ensures Chain(a, t)[Da(a, b, t)] == Chain(b, t)[Da(b, a, t)]
    ensures forall i, j :: 0 <= i < |Chain(a, t)| && 0 <= j < |Chain(b, t)| && Chain(a, t)[i] == Chain(b, t)[j] ==>
      i - Da(a, b, t) == j - Da(b, a, t) >= 0
  {
    SameDistanceToEnd(a, b, t);
    hide Chain, Da;
    forall i, j | 0 <= i < |Chain(a, t)| && 0 <= j < |Chain(b, t)| && Chain(a, t)[i] == Chain(b, t)[j]
      ensures i - Da(a, b, t) == j - Da(b, a, t) >= 0
    {
      CommonIsFar(a, b, t, i, j);
      ChainsMeet(a, b, t, i, j);
    }
  }

  /** What `common_prefix_depth` returns. */
  ghost function SplitOf(a: Hash, b: Hash, t: Table): Split
    requires Share(a, b, t)
  {
    LowestCommonAncestor(a, b, t);
    Split(Da(a, b, t), PathFrom(a, Da(a, b, t), t), Da(b, a, t), PathFrom(b, Da(b, a, t), t))
  }

  /** Swapping the tips swaps the results. */
  lemma SplitSwap(a: Hash, b: Hash, t: Table)
    requires Share(a, b, t)
    ensures Share(b, a, t) && SplitOf(b, a, t) == SplitOf(a, b, t).Swap()
  {
  }

  /** Both paths start at one block that is on both chains, end at the tips, and have
      nothing else in common. */
  lemma SplitPaths(a: Hash, b: Hash, t: Table)
    requires Keyed(t) && Share(a, b, t)
    ensures var s := SplitOf(a, b, t);
            && |s.aSuffix| == s.aDepth + 1 && |s.bSuffix| == s.bDepth + 1
            && s.aSuffix[0] == s.bSuffix[0]
            && s.aSuffix[s.aDepth].Id() == a && s.bSuffix[s.bDepth].Id() == b
            && (forall i, j :: 0 <= i <= s.aDepth && 0 <= j <= s.bDepth && s.aSuffix[i] == s.bSuffix[j] ==> i == j == 0)
            && (forall i :: 0 < i <= s.aDepth ==> s.aSuffix[i].parent == s.aSuffix[i - 1].Id())
            && (forall i :: 0 < i <= s.bDepth ==> s.bSuffix[i].parent == s.bSuffix[i - 1].Id())
  {
    LowestCommonAncestor(a, b, t);
    PathEnds(a, Da(a, b, t), t);
    PathEnds(b, Da(b, a, t), t);
    PathLinks(a, Da(a, b, t), t);
    PathLinks(b, Da(b, a, t), t);
    PathsDisjoint(a, b, t);
  }

  lemma PathEnds(tip: Hash, d: nat, t: Table)
    requires Keyed(t) && d < |Chain(tip, t)|
    ensures var p := PathFrom(tip, d, t);
            |p| == d + 1 && p[0].Id() == Chain(tip, t)[d] && p[d].Id() == tip
    ensures forall i :: 0 <= i <= d ==> PathFrom(tip, d, t)[i].Id() == Chain(tip, t)[d - i]
  {
  }

  lemma PathsDisjoint(a: Hash, b: Hash, t: Table)
    requires Keyed(t) && Share(a, b, t) && Share(b, a, t)
    ensures forall i, j | 0 <= i <= Da(a, b, t) && 0 <= j <= Da(b, a, t) ::
      PathFrom(a, Da(a, b, t), t)[i] == PathFrom(b, Da(b, a, t), t)[j] ==> i == j == 0
  {
  }

  lemma PathLinks(tip: Hash, d: nat, t: Table)
    requires Keyed(t) && d < |Chain(tip, t)|
    ensures forall i :: 0 < i <= d ==> PathFrom(tip, d, t)[i].parent == PathFrom(tip, d, t)[i - 1].Id()
  {
    forall i | 0 < i <= d
      ensures PathFrom(tip, d, t)[i].parent == PathFrom(tip, d, t)[i - 1].Id()
    {
      ChainLink(tip, t, d - i);
    }
  }

  lemma ChainLink(tip: Hash, t: Table, i: nat)
    requires Keyed(t) && i + 1 < |Chain(tip, t)|
    ensures t[Chain(tip, t)[i]].block.parent == Chain(tip, t)[i + 1]
  {
    var x := Chain(tip, t)[i];
    ChainSuffix(tip, t, i);
    assert Chain(x, t)[1] == Chain(tip, t)[i + 1];
    assert Chain(x, t) == [x] + Chain(x.header.parent, t);
  }

  /** The next block of a walk, or the end of it. */
  lemma ChainNext(tip: Hash, t: Table, d: nat)
    requires Keyed(t) && d < |Chain(tip, t)|
    ensures Chain(tip, t)[d].BlockId? && t[Chain(tip, t)[d]].block.Id() == Chain(tip, t)[d]
    ensures Chain(tip, t)[d] !in Chain(tip, t)[..d]
    ensures var next := t[Chain(tip, t)[d]].block.parent;
            if d + 1 < |Chain(tip, t)| then next == Chain(tip, t)[d + 1] else next !in t
  {
    var c := Chain(tip, t);
    if c[d] in c[..d] {
      var i :| 0 <= i < d && c[i] == c[d];
      ChainDistinct(tip, t, i, d);
    }
    ChainSuffix(tip, t, d);
    assert Chain(c[d], t) == [c[d]] + Chain(c[d].header.parent, t);
    if d + 1 < |c| {
      ChainLink(tip, t, d);
    }
  }

  /** The first n elements, or all of them. */
  function Take<T>(s: seq<T>, n: nat): (r: seq<T>) {
    if n <= |s| then s[..n] else s
  }

  /** A walk down a chain: the next id to look up and the blocks taken so far. */
  datatype Walk = Walk(next: Hash, suffix: seq<BlockHeader>)

  /** The first depth ids of a chain. */
  ghost function Taken(tip: Hash, depth: nat, t: Table): seq<Hash> {
    Take(Chain(tip, t), depth)
  }

  /** The walk from tip has taken its first depth blocks, or all of them. */
  ghost predicate Walked(tip: Hash, walk: Walk, depth: nat, t: Table) {
    && walk.suffix == Headers(Taken(tip, depth, t), t)
    && if depth < |Chain(tip, t)| then walk.next == Chain(tip, t)[depth] else walk.next !in t
  }

  lemma WalkOn(tip: Hash, walk: Walk, depth: nat, t: Table)
    requires Keyed(t) && Walked(tip, walk, depth, t)
    ensures walk.next in t ==>
      && depth < |Chain(tip, t)| && walk.next == Chain(tip, t)[depth] == t[walk.next].block.Id()
      && Taken(tip, depth + 1, t) == Taken(tip, depth, t) + [walk.next] && |Taken(tip, depth, t)| == depth
      && Walked(tip, Walk(t[walk.next].block.parent, walk.suffix + [t[walk.next].block]), depth + 1, t)
    ensures walk.next !in t ==>
      Taken(tip, depth + 1, t) == Taken(tip, depth, t) && Walked(tip, walk, depth + 1, t)
  {
    if walk.next in t {
      ChainNext(tip, t, depth);
      var c := Chain(tip, t);
      assert c[..depth + 1] == c[..depth] + [walk.next];
    }
  }

  /** seen maps the blocks of both walks to their depths, and no block was on both. */
  ghost predicate Seen(seen: map<Hash, nat>, x: seq<Hash>, y: seq<Hash>) {
    && (forall id :: id in seen <==> id in x || id in y)
    && (forall i :: 0 <= i < |x| ==> seen[x[i]] == i)
    && (forall j :: 0 <= j < |y| ==> seen[y[j]] == j)
    && (forall i :: 0 <= i < |x| ==> x[i] !in y)
  }

  lemma SeenAtSwap(seen: map<Hash, nat>, a: Hash, m: nat, b: Hash, n: nat, t: Table)
    requires SeenAt(seen, a, m, b, n, t)
    ensures SeenAt(seen, b, n, a, m, t)
  {
  }

  lemma SeenAdd(seen: map<Hash, nat>, x: seq<Hash>, y: seq<Hash>, next: Hash)
    requires Seen(seen, x, y) && next !in seen
    ensures Seen(seen[next := |x|], x + [next], y)
  {
  }

  /** list(reversed(suffix[: d + 1])) */
  function Oldest(suffix: seq<BlockHeader>, d: nat): seq<BlockHeader>
    requires d < |suffix|
  {
    Reverse(suffix[..d + 1])
  }

  /** The blocks of a walk up to a distance, oldest first. */
  lemma SuffixIsPath(tip: Hash, walk: Walk, depth: nat, d: nat, t: Table)
    requires Keyed(t) && Walked(tip, walk, depth, t) && d < depth && d < |Chain(tip, t)|
    ensures d < |walk.suffix| && Oldest(walk.suffix, d) == PathFrom(tip, d, t)
  {
    assert walk.suffix[..d + 1] == Headers(Chain(tip, t)[..d + 1], t);
  }

  /** The first common block of two walks is the lowest common ancestor. */
  lemma FirstMeeting(a: Hash, b: Hash, t: Table, i: nat, j: nat)
    requires Share(a, b, t) && i < |Chain(a, t)| && j < |Chain(b, t)| && Chain(a, t)[i] == Chain(b, t)[j]
    requires forall i', j' :: 0 <= i' < i && 0 <= j' < j ==> Chain(a, t)[i'] != Chain(b, t)[j']
    ensures Share(b, a, t) && i == Da(a, b, t) && j == Da(b, a, t)
  {
    LowestCommonAncestor(a, b, t);
  }

  /** Both walks have only seen what seen says, m blocks from a and n from b. */
  ghost predicate SeenAt(seen: map<Hash, nat>, a: Hash, m: nat, b: Hash, n: nat, t: Table) {
    Seen(seen, Taken(a, m, t), Taken(b, n, t))
  }

  /** A walk that finds its next block among the seen ones has met the other walk
      at the lowest common ancestor. */
  lemma Met(a: Hash, m: nat, b: Hash, n: nat, seen: map<Hash, nat>, t: Table)
    requires Share(a, b, t) && SeenAt(seen, a, m, b, n, t) && m < |Chain(a, t)| && Chain(a, t)[m] in seen
    ensures Share(b, a, t) && m == Da(a, b, t) && seen[Chain(a, t)[m]] == Da(b, a, t) < n
  {
    var next, x, y := Chain(a, t)[m], Taken(a, m, t), Taken(b, n, t);
    NotTaken(a, m, t);
    assert next in y;
    var j := seen[next];
    assert j < |y| && y[j] == next;
    hide Chain;
    forall i', j' | 0 <= i' < m && 0 <= j' < j
      ensures Chain(a, t)[i'] != Chain(b, t)[j']
    {
      assert x[i'] !in y && y[j'] in y;
    }
    FirstMeeting(a, b, t, m, j);
  }

  lemma NotTaken(tip: Hash, m: nat, t: Table)
    requires m < |Chain(tip, t)|
    ensures Chain(tip, t)[m] !in Taken(tip, m, t)
  {
    if Chain(tip, t)[m] in Taken(tip, m, t) {
      var i :| 0 <= i < m && Chain(tip, t)[i] == Chain(tip, t)[m];
      ChainDistinct(tip, t, i, m);
    }
  }

  /** Walks that have not met have not both reached the lowest common ancestor. */
  lemma NotYetMet(a: Hash, b: Hash, depth: nat, seen: map<Hash, nat>, t: Table)
    requires Share(a, b, t) && SeenAt(seen, a, depth, b, depth, t)
    ensures Share(b, a, t) && (depth <= Da(a, b, t) || depth <= Da(b, a, t))
  {
    LowestCommonAncestor(a, b, t);
    var meet := Chain(a, t)[Da(a, b, t)];
    assert Da(a, b, t) < depth ==> meet in Taken(a, depth, t);
    assert Da(b, a, t) < depth ==> meet in Taken(b, depth, t);
  }

  /** One side's turn: take its next block, and stop if the block was seen. */
  method Turn(a: Hash, walk: Walk, m: nat, b: Hash, n: nat, seen: map<Hash, nat>, t: Table)
    returns (met: bool, walk': Walk, seen': map<Hash, nat>)
    requires Keyed(t) && Share(a, b, t) && Share(b, a, t)
    requires Walked(a, walk, m, t) && SeenAt(seen, a, m, b, n, t)
    ensures Walked(a, walk', m + 1, t)
    ensures met ==> m == Da(a, b, t) && walk.next in seen && seen[walk.next] == Da(b, a, t) < n
    ensures !met ==> SeenAt(seen', a, m + 1, b, n, t)
  {
    WalkOn(a, walk, m, t);
    met, walk', seen' := false, walk, seen;
    if walk.next in t {
      var block := t[walk.next].block;
      walk' := Walk(block.parent, walk.suffix + [block]);
      if block.Id() in seen {
        Met(a, m, b, n, seen, t);
        met := true;
      } else {
        SeenAdd(seen, Taken(a, m, t), Taken(b, n, t), walk.next);
        seen' := seen[block.Id() := m];
      }
    }
  }

  /** Two walks that hold the paths to the lowest common ancestor give the result. */
  lemma SplitFound(a: Hash, b: Hash, t: Table, aWalk: Walk, m: nat, bWalk: Walk, n: nat)
    requires Keyed(t) && Share(a, b, t) && Share(b, a, t)
    requires Walked(a, aWalk, m, t) && Walked(b, bWalk, n, t) && Da(a, b, t) < m && Da(b, a, t) < n
    ensures Da(a, b, t) < |aWalk.suffix| && Da(b, a, t) < |bWalk.suffix|
    ensures SplitOf(a, b, t) == Split(Da(a, b, t), Oldest(aWalk.suffix, Da(a, b, t)),
                                      Da(b, a, t), Oldest(bWalk.suffix, Da(b, a, t)))
  {
    hide Chain, PathFrom, Oldest, Walked, Headers, Keyed, Share, Da;
    SuffixIsPath(a, aWalk, m, Da(a, b, t), t);
    SuffixIsPath(b, bWalk, n, Da(b, a, t), t);
  }

  lemma WalksBegin(a: Hash, b: Hash, t: Table)
    requires Keyed(t)
    ensures Walked(a, Walk(a, []), 0, t) && Walked(b, Walk(b, []), 0, t) && SeenAt(map[], a, 0, b, 0, t)
  {
    assert Taken(a, 0, t) == Taken(b, 0, t) == [];
  }

  /** `common_prefix_depth`: walk both chains in turn until one meets a block that was seen. */
  method CommonPrefixDepth(a: Hash, b: Hash, t: Table) returns (s: Split)
    requires Keyed(t) && Share(a, b, t)
    ensures s == SplitOf(a, b, t)
  {
    hide Walked, Seen, SeenAt, Chain, PathFrom, Da, Share, Keyed, Oldest, SplitOf, Headers;
    ShareSymmetric(a, b, t);
    WalksBegin(a, b, t);
    ghost var limit := Max(Da(a, b, t), Da(b, a, t));
    var seen: map<Hash, nat> := map[];
    var aWalk, bWalk := Walk(a, []), Walk(b, []);
    var depth: nat := 0;
    while true
      invariant Walked(a, aWalk, depth, t) && Walked(b, bWalk, depth, t) && SeenAt(seen, a, depth, b, depth, t)
      invariant depth <= limit
      decreases limit - depth
    {
      var aMet, aWalk', seen' := Turn(a, aWalk, depth, b, depth, seen, t);
      if aMet {
        SplitFound(a, b, t, aWalk', depth + 1, bWalk, depth);
        var bDepth := seen[aWalk.next];
        return Split(depth, Oldest(aWalk'.suffix, depth), bDepth, Oldest(bWalk.suffix, bDepth));
      }
      SeenAtSwap(seen', a, depth + 1, b, depth, t);
      var bMet, bWalk', seen'' := Turn(b, bWalk, depth, a, depth + 1, seen', t);
      if bMet {
        SplitFound(a, b, t, aWalk', depth + 1, bWalk', depth + 1);
        var aDepth := seen'[bWalk.next];
        return Split(aDepth, Oldest(aWalk'.suffix, aDepth), depth, Oldest(bWalk'.suffix, depth));
      }
      SeenAtSwap(seen'', b, depth + 1, a, depth + 1, t);
      NotYetMet(a, b, depth + 1, seen'', t);
      aWalk, bWalk, seen, depth := aWalk', bWalk', seen'', depth + 1;
    }
  }
}
