/** The two fork-choice rules. */
module ForkChoice {
  import opened Blocks
  import opened Walks

  /** Every two held tips have the root in common. */
  lemma RootedShare(t: Table, g: Hash, a: Hash, b: Hash)
    requires Rooted(t, g) && a in t && b in t
    ensures Share(a, b, t)
  {
    RootedChain(t, g, a);
    RootedChain(t, g, b);
    var i :| 0 <= i < |Chain(a, t)| && Chain(a, t)[i] == g;
  }

  /** The distance of a tip to its lowest common ancestor with another tip. */
  ghost function Depth(a: Hash, b: Hash, t: Table): nat {
    if Share(a, b, t) then Da(a, b, t) else 0
  }

  /** One step of `maxvalid_mc`: switch to a longer fork that does not fork too deeply. */
  ghost function McStep(cmax: Hash, fork: Hash, k: nat, t: Table): Hash {
    if Depth(cmax, fork, t) <= k && Depth(cmax, fork, t) < Depth(fork, cmax, t) then fork else cmax
  }

  ghost function MaxvalidMc(cmax: Hash, forks: seq<Hash>, k: nat, t: Table): (r: Hash)
    ensures r == cmax || r in forks
    decreases |forks|
  {
    if forks == [] then cmax else MaxvalidMc(McStep(cmax, forks[0], k, t), forks[1..], k, t)
  }

  /** `chain_density` */
  function ChainDensity(chain: seq<BlockHeader>, slot: nat): nat {
    if chain == [] then 0 else (if chain[0].slot < slot then 1 else 0) + ChainDensity(chain[1..], slot)
  }

  /** One step of `maxvalid_bg`: the longest chain near the tip, the densest chain beyond. */
  ghost function BgStep(cmax: Hash, fork: Hash, k: nat, s: nat, t: Table): Hash {
    if Depth(cmax, fork, t) <= k then
      if Depth(cmax, fork, t) < Depth(fork, cmax, t) then fork else cmax
    else if Share(cmax, fork, t) then
      var split := SplitOf(cmax, fork, t);
      var forkingSlot := split.aSuffix[0].slot + s;
      if ChainDensity(split.aSuffix, forkingSlot) < ChainDensity(split.bSuffix, forkingSlot) then fork else cmax
    else cmax
  }

  ghost function MaxvalidBg(cmax: Hash, forks: seq<Hash>, k: nat, s: nat, t: Table): (r: Hash)
    ensures r == cmax || r in forks
    decreases |forks|
  {
    if forks == [] then cmax else MaxvalidBg(BgStep(cmax, forks[0], k, s, t), forks[1..], k, s, t)
  }

  method MaxvalidMcLoop(localChain: Hash, forks: seq<Hash>, k: nat, t: Table, ghost g: Hash) returns (cmax: Hash)
    requires Rooted(t, g) && localChain in t && forall f :: f in forks ==> f in t
    ensures cmax == MaxvalidMc(localChain, forks, k, t)
  {
    cmax := localChain;
    for i := 0 to |forks|
      invariant cmax in t && MaxvalidMc(localChain, forks, k, t) == MaxvalidMc(cmax, forks[i..], k, t)
    {
      RootedShare(t, g, cmax, forks[i]);
      RootedShare(t, g, forks[i], cmax);
      var split := CommonPrefixDepth(cmax, forks[i], t);
      if split.aDepth <= k {
        if split.aDepth < split.bDepth {
          cmax := forks[i];
        }
      }
      assert forks[i..][1..] == forks[i + 1..];
    }
  }

  /** The positions of a path whose blocks come before a slot. */
  function Before(chain: seq<BlockHeader>, slot: nat): set<nat> {
    set i: nat | i < |chain| && chain[i].slot < slot
  }

  /** The density of a path is the number of its blocks before the slot. */
  lemma {:induction false} DensityCounts(chain: seq<BlockHeader>, slot: nat)
    ensures ChainDensity(chain, slot) == |Before(chain, slot)|
    decreases |chain|
  {
    if chain != [] {
      var rest := Before(chain[1..], slot);
      var moved := set i | i in rest :: i + 1;
      DensityCounts(chain[1..], slot);
      ShiftedSize(rest, moved);
      var first: set<nat> := if chain[0].slot < slot then {0} else {};
      assert Before(chain, slot) == first + moved by {
        forall i: nat | i < |chain|
          ensures i in Before(chain, slot) <==> i in first + moved
        {
          if i > 0 {
            assert chain[i] == chain[1..][i - 1];
            assert i in moved <==> i - 1 in rest;
          }
        }
      }
    }
  }

  lemma {:induction false} ShiftedSize(s: set<nat>, shifted: set<nat>)
    requires forall i :: i in shifted <==> i > 0 && i - 1 in s
    ensures |shifted| == |s|
    decreases s
  {
    if s == {} {
      assert shifted == {};
    } else {
      var x :| x in s;
      assert x + 1 in shifted;
      ShiftedSize(s - {x}, shifted - {x + 1});
    }
  }

  /** Of two tips that fork deeper than k below the current one, the fork wins exactly when it has
      more blocks in the s slots after the fork. */
  lemma DenserForkWins(cmax: Hash, fork: Hash, k: nat, s: nat, t: Table)
    requires Share(cmax, fork, t) && cmax != fork && Depth(cmax, fork, t) > k
    ensures var split := SplitOf(cmax, fork, t);
            && |split.aSuffix| > 0
            && var forkingSlot := split.aSuffix[0].slot + s;
               BgStep(cmax, fork, k, s, t) == fork <==>
                 |Before(split.bSuffix, forkingSlot)| > |Before(split.aSuffix, forkingSlot)|
  {
    hide Share, SplitOf, BgStep, Chain, ChainDensity, Before;
    BgStepBySplit(cmax, fork, k, s, t);
    var split := SplitOf(cmax, fork, t);
    SplitDepth(cmax, fork, t);
    DensityCounts(split.aSuffix, split.aSuffix[0].slot + s);
    DensityCounts(split.bSuffix, split.aSuffix[0].slot + s);
  }

  lemma SplitDepth(a: Hash, b: Hash, t: Table)
    requires Share(a, b, t)
    ensures SplitOf(a, b, t).aDepth == Depth(a, b, t)
  {
  }

  lemma BgNext(cmax: Hash, forks: seq<Hash>, i: nat, k: nat, s: nat, t: Table)
    requires i < |forks|
    ensures MaxvalidBg(cmax, forks[i..], k, s, t)
         == MaxvalidBg(BgStep(cmax, forks[i], k, s, t), forks[i + 1..], k, s, t)
  {
  }

  lemma PathLength(tip: Hash, d: nat, t: Table)
    requires d < |Chain(tip, t)|
    ensures |PathFrom(tip, d, t)| == d + 1
  {
  }

  /** The step in terms of what `common_prefix_depth` returns. */
  lemma BgStepBySplit(cmax: Hash, fork: Hash, k: nat, s: nat, t: Table)
    requires Share(cmax, fork, t)
    ensures var split := SplitOf(cmax, fork, t);
            && |split.aSuffix| > 0
            && BgStep(cmax, fork, k, s, t) ==
               var forkingSlot := split.aSuffix[0].slot + s;
               if split.aDepth <= k then if split.aDepth < split.bDepth then fork else cmax
               else if ChainDensity(split.aSuffix, forkingSlot) < ChainDensity(split.bSuffix, forkingSlot) then fork
               else cmax
  {
    hide Share, Da, PathFrom, Chain, ChainDensity;
    ShareSymmetric(cmax, fork, t);
    PathLength(cmax, Da(cmax, fork, t), t);
  }

  /** The body of the loop of `maxvalid_bg`. */
  method ChooseBg(cmax: Hash, fork: Hash, k: nat, s: nat, t: Table, ghost g: Hash) returns (next: Hash)
    requires Rooted(t, g) && cmax in t && fork in t
    ensures next == BgStep(cmax, fork, k, s, t)
  {
    hide Rooted, Share, SplitOf, BgStep, Keyed, Chain, ChainDensity;
    RootedShare(t, g, cmax, fork);
    RootedKeyed(t, g);
    BgStepBySplit(cmax, fork, k, s, t);
    next := cmax;
    var split := CommonPrefixDepth(cmax, fork, t);
    if split.aDepth <= k {
      if split.aDepth < split.bDepth {
        next := fork;
      }
    } else {
      var forkingSlot := split.aSuffix[0].slot + s;
      var cmaxDensity := ChainDensity(split.aSuffix, forkingSlot);
      var forkDensity := ChainDensity(split.bSuffix, forkingSlot);
      if cmaxDensity < forkDensity {
        next := fork;
      }
    }
  }

  lemma RootedKeyed(t: Table, g: Hash)
    requires Rooted(t, g)
    ensures Keyed(t)
  {
  }

  method MaxvalidBgLoop(localChain: Hash, forks: seq<Hash>, k: nat, s: nat, t: Table, ghost g: Hash)
    returns (cmax: Hash)
    requires Rooted(t, g) && localChain in t && forall f :: f in forks ==> f in t
    ensures cmax == MaxvalidBg(localChain, forks, k, s, t)
  {
    hide BgStep, Rooted;
    cmax := localChain;
    assert forks[0..] == forks;
    for i := 0 to |forks|
      invariant cmax in t && MaxvalidBg(localChain, forks, k, s, t) == MaxvalidBg(cmax, forks[i..], k, s, t)
    {
      BgNext(cmax, forks, i, k, s, t);
      var next := ChooseBg(cmax, forks[i], k, s, t, g);
      BgStepHeld(cmax, forks[i], k, s, t);
      cmax := next;
    }
  }

  lemma BgStepHeld(cmax: Hash, fork: Hash, k: nat, s: nat, t: Table)
    ensures BgStep(cmax, fork, k, s, t) == cmax || BgStep(cmax, fork, k, s, t) == fork
  {
  }

  /** The plain longest-chain rule: the first of the tallest, with the current tip first. */
  ghost function Longest(cmax: Hash, forks: seq<Hash>): (r: Hash)
    ensures r == cmax || r in forks
    ensures Rank(r) >= Rank(cmax) && forall f :: f in forks ==> Rank(r) >= Rank(f)
    ensures r != cmax ==> Rank(r) > Rank(cmax)
    decreases |forks|
  {
    if forks == [] then cmax else Longest(if Rank(forks[0]) > Rank(cmax) then forks[0] else cmax, forks[1..])
  }

  /** Distances to the common ancestor compare as the heights do. */
  lemma DepthsCompareHeights(t: Table, g: Hash, a: Hash, b: Hash)
    requires Rooted(t, g) && a in t && b in t
    ensures Depth(a, b, t) - Depth(b, a, t) == Rank(a) - Rank(b)
  {
    RootedShare(t, g, a, b);
    RootedShare(t, g, b, a);
    SameDistanceToEnd(a, b, t);
    RootedChain(t, g, a);
    RootedChain(t, g, b);
  }

  /** The lowest common ancestor is no further than any common ancestor. */
  lemma DepthBound(t: Table, g: Hash, a: Hash, b: Hash, c: Hash)
    requires Rooted(t, g) && a in t && b in t && c in t && Descends(c, a) && Descends(c, b)
    ensures Depth(a, b, t) <= Rank(a) - Rank(c)
  {
    RootedShare(t, g, a, b);
    RootedChain(t, g, a);
    RootedChain(t, g, b);
    RootedChain(t, g, c);
    hide Chain, Da;
    var i :| 0 <= i < |Chain(a, t)| && Chain(a, t)[i] == c;
    var j :| 0 <= j < |Chain(b, t)| && Chain(b, t)[j] == c;
    ChainSuffix(a, t, i);
    CommonIsFar(a, b, t, i, j);
  }

  /** The guard on the depth turns no taller fork away from any tip that could be the best so far. */
  ghost predicate GuardIdle(t: Table, tips: set<Hash>, k: nat) {
    forall a, f :: a in tips && f in tips && Rank(f) > Rank(a) ==> Depth(a, f, t) <= k
  }

  /** Then `maxvalid_mc` is the longest-chain rule. */
  lemma {:induction false} IdleGuardIsLongest(t: Table, g: Hash, cmax: Hash, forks: seq<Hash>, k: nat, tips: set<Hash>)
    requires Rooted(t, g) && cmax in tips && tips <= t.Keys && forall f :: f in forks ==> f in tips
    requires GuardIdle(t, tips, k)
    ensures MaxvalidMc(cmax, forks, k, t) == Longest(cmax, forks)
    decreases |forks|
  {
    if forks != [] {
      DepthsCompareHeights(t, g, cmax, forks[0]);
      IdleGuardIsLongest(t, g, McStep(cmax, forks[0], k, t), forks[1..], k, tips);
    }
  }

  /** No two tips fork more than k blocks deep. */
  ghost predicate Shallow(t: Table, tips: set<Hash>, k: nat) {
    forall a, f :: a in tips && f in tips ==> Depth(a, f, t) <= k
  }

  /** On shallow forks the two rules agree: both are the longest-chain rule. */
  lemma {:induction false} RulesAgreeWhenShallow(t: Table, g: Hash, cmax: Hash, forks: seq<Hash>, k: nat, s: nat,
                                                 tips: set<Hash>)
    requires Rooted(t, g) && cmax in tips && tips <= t.Keys && forall f :: f in forks ==> f in tips
    requires Shallow(t, tips, k)
    ensures MaxvalidBg(cmax, forks, k, s, t) == Longest(cmax, forks) == MaxvalidMc(cmax, forks, k, t)
    decreases |forks|
  {
    IdleGuardIsLongest(t, g, cmax, forks, k, tips);
    if forks != [] {
      DepthsCompareHeights(t, g, cmax, forks[0]);
      RulesAgreeWhenShallow(t, g, BgStep(cmax, forks[0], k, s, t), forks[1..], k, s, tips);
    }
  }
}
