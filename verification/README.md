# A verified model of the Nomos specifications

This project models five parts of the Nomos specification repository and proves what they are for.

* **Cryptarchia follower** (`cryptarchia/cryptarchia.py`). A node keeps a table of ledger states that
  forms a tree of blocks, a tip, a list of forks, a last immutable block and a memo table of epoch
  states. `Blocks`, `Walks`, `ForkChoice` and `EpochStates` model the tree, the chain walks, the two
  fork-choice rules and the epoch states. `FollowerState` holds the transitions as functions on values
  and the theorems over all runs, and `Preference` says which tip a block leads to in terms of held
  blocks, heights and slots alone; `Followers` holds the mutable object whose methods refine them.
  `Delivery` proves what is accepted and that the order of delivery does not matter; `FollowerExamples` has
  concrete blocks.
* **Chain sync** (`cryptarchia/sync.py`). `Soundness` says which blocks a follower can ever hold,
  `Backfill` fetches and applies a missing fork, and `Sync` is the synchronisation loop with its
  rejected blocks and orphans; `SyncExamples` has concrete peers.
* **FFT and FK20 proofs** (`da/kzg_rs`). `Modular` is the arithmetic (Fermat and the binomial theorem
  included), `Fft` the transforms, `FftTheory` their meaning, `RoundTrip` and `Roots` the inverse and the
  computed roots, `Convolution` the convolution theorem, `Fk20` the batch prover, and `Fk20Theory` the
  proof that it replaces one polynomial division per point. A group point is its scalar mod p.
* **Subnetwork assignment** (`da/assignations/refill.py`). `Memberships` counts,
  `Filling` says how the sizes evolve, `Refill` schedules.
* **Carnot node** (`deprecated/carnot/carnot.py`). `CarnotState` is the state machine of one node and the
  theorems over its runs; `CarnotMessages` holds its messages against what their receivers assert; `CarnotNodes`
  is the mutable object.

`Collections` holds stock facts. An object of the source that its methods update is a class here; each method
is tied to a function of the old state, and the theorems are about that function. Exceptions are results (`Verdict`, `Outcome`,
`BackfillResult`, `SyncResult`), assertions of the source are preconditions.

Where the code and its own comments or tests disagree, the model follows the code:

* `local_high_qc` is described as the most recent standard certificate; an older aggregate lowers it
  (`CarnotState.HighQcCanFall`, exact condition in `CarnotState.HighQcFallsExactly`).
* `highest_voted_view` is meant to prevent a second vote; a local timeout outside the guard of the timeout
  invariant, which nothing calls, lets a node vote twice in a view (`CarnotState.DoubleVote`, exact
  conditions in `CarnotState.VoteAgainExactly` and `CarnotState.VotedViewFallsExactly`).
* The comparison with the latest committed view in `receive_block` never decides
  (`CarnotState.ReceiveBlockExact`), and one node may commit blocks of two branches
  (`CarnotState.CommitsCanBranch`); it does not exactly when no aggregate certificate on the later block's
  chain passes the earlier one by (`CarnotState.CommitsConsistentExactly`). `committed_blocks` lists the genesis
  block under a bound method.
* The tests of the assignment expect sizes that differ by at most one for every network; a network that does
  not shrink can stay uneven (`Refill.GrowingNetworkStaysUneven`). Exactly: filling ends with sizes that differ by at
  most one if and only if the total reaches the brim, which is the total once every subnetwork of the start is filled
  up to one below the largest (`Filling.BalancedExactly`). With no active node above the average, and with an average
  of one or at least f * (f + 1) nodes for a replication factor f, that can be told before the call: they do if and
  only if the larger of the nodes times the average and the total filled up to f is at least the brim. With nodes
  above the average the same holds of the subnetworks that the grow pass leaves.
* `test_fft.py` takes 2 for a primitive root, which need not be one: the round trip holds all the same
  (`Roots.RoundTripOnComputedRoots`), the meaning as a Fourier transform needs w^(n/2) = -1 (`Roots.DftExactly`).
* `sync` need not return. It never does when some peer's tip is later than every held block and every sound block
  of any peer (`OutOfReach`, in the contract of `Sync.Sync`; an instance is `SyncExamples.RefusedTipAhead`). A
  refused tip that is ahead does not suffice (`SyncExamples.RefusedTipOvertaken`). The converse holds where the
  held blocks and the sound blocks of the peers lie on one line along which slots do not fall, and sound tips lead
  it: there `sync` returns exactly when no peer is out of reach. With forks, it returns when all blocks are at most k
  above the genesis block and the only tallest one is held or a tip, and no tip is later (`HasSummit`). Elsewhere it can fail to return with every block
  sound (`SyncExamples.HeldTipNotPreferred`); it is then stuck behind tips that are refused or held and not
  preferred (`Sync.StuckBehind`). `backfill_fork` returns normally for a block that no peer holds.
* Applying a block changes no notes and no nullifiers, so acceptance is one check against the genesis state in
  every epoch (`Delivery.AcceptedExactly`).

## Model

| member | source | states |
|---|---|---|
| Blocks.RootedChain | cryptarchia/cryptarchia.py:589-594 | In a table that is a tree, the walk from a tip visits exactly the held ancestors, and its length is the difference in height. |
| Blocks.AncestorsComparable | cryptarchia/cryptarchia.py:603-610 | Two ancestors of one block lie on one line. |
| Blocks.HeldState | cryptarchia/cryptarchia.py:273-283 | A held state has the genesis notes and nullifiers, the genesis leader count plus the difference in height, its own block, and the nonce of its parent's held state with the block's slot, proof slot and note. |
| Walks.Height | cryptarchia/cryptarchia.py:574-587 | The loop counts the held blocks down to the root. |
| Walks.IsAncestor | cryptarchia/cryptarchia.py:603-610 | True exactly when a lies on the walk down from b. |
| Walks.CommonPrefixDepth | cryptarchia/cryptarchia.py:612-658 | The interleaved walk ends and returns both distances to the lowest common ancestor and both paths from it, oldest first. |
| Walks.LowestCommonAncestor | cryptarchia/cryptarchia.py:612-658 | Both distances lead to one block, which is common to both chains, and no common block is nearer. |
| Walks.SplitPaths | cryptarchia/cryptarchia.py:629-651 | Both paths start at the common block, are linked by parents, end at the tips and share nothing else. |
| Walks.SplitSwap | cryptarchia/cryptarchia.py:612-614 | Swapping the tips swaps the results. |
| ForkChoice.MaxvalidMcLoop | cryptarchia/cryptarchia.py:720-738 | The loop computes the fold of the rule that turns away forks deeper than k. |
| ForkChoice.MaxvalidBgLoop | cryptarchia/cryptarchia.py:680-717 | The loop computes the fold of the rule that compares lengths up to k and densities beyond. |
| ForkChoice.ChooseBg | cryptarchia/cryptarchia.py:694-715 | One turn of that loop. |
| ForkChoice.DenserForkWins | cryptarchia/cryptarchia.py:702-715 | Beyond depth k the fork wins exactly when it has more blocks in the s slots after the fork. |
| ForkChoice.DensityCounts | cryptarchia/cryptarchia.py:661-662 | The density is the number of positions whose block is before the slot. |
| ForkChoice.DepthsCompareHeights | cryptarchia/cryptarchia.py:729-736 | Comparing distances to the common ancestor is comparing heights. |
| ForkChoice.IdleGuardIsLongest | cryptarchia/cryptarchia.py:720-738 | Where no strictly taller fork is more than k deep, the rule is the plain longest-chain rule. |
| ForkChoice.RulesAgreeWhenShallow | cryptarchia/cryptarchia.py:680-738 | Where no fork is more than k deep, both rules choose the same tip. |
| EpochStates.StateAtSlotBeginning | cryptarchia/cryptarchia.py:444-448 | The first state below the tip that is older than the slot, else the genesis state. |
| EpochStates.SnapshotOfSnapshot | cryptarchia/cryptarchia.py:453-466 | An earlier snapshot can be taken from the block of a later one. |
| EpochStates.KeyDetermines | cryptarchia/cryptarchia.py:479-482 | The memo key fixes its epoch and every earlier epoch, whichever tip is asked about. |
| EpochStates.MemoisedIsEpochState | cryptarchia/cryptarchia.py:468-499 | The memoised computation equals the recursion without the memo table and keeps the memo table right. |
| EpochStates.EpochSchedule | cryptarchia/cryptarchia.py:453-499 | For every epoch and held tip: the stake snapshot is the state of the highest chain block two or more epochs back, the nonce snapshot that of the highest one that is so or in the first part of the previous epoch, each the genesis state if there is none; the stake is inferred from the previous epoch's with the nonce snapshot first; epoch 0 is the genesis state with the initial stake. |
| EpochStates.ScheduleByEpochs | cryptarchia/cryptarchia.py:88-103 | The two slots of the schedule, by the quotient and the remainder of a slot by the length of an epoch, in the configuration's fields. |
| EpochStates.EpochBounds | cryptarchia/cryptarchia.py:127-128 | The epoch of a slot is the one whose first and last slots it lies between. |
| EpochStates.MemoGrows | cryptarchia/cryptarchia.py:479-499 | Memoised entries stay, new ones are for positive epochs up to the one asked for, and that one is memoised under the block of its nonce snapshot. |
| FollowerState.OnBlockInv | cryptarchia/cryptarchia.py:361-390 | Every block that arrives keeps the tree, the canonical states, tips that are exactly the leaves, and the last immutable block k below the tip on one line with all held blocks. |
| FollowerState.ToOnlineInv | cryptarchia/cryptarchia.py:327-335 | Going online keeps the same invariant. |
| FollowerState.ReachableInv | cryptarchia/cryptarchia.py:316-412 | Every follower reachable from the constructor satisfies it. |
| FollowerState.PlaceKeepsLeaves | cryptarchia/cryptarchia.py:372-387 | Extension, forking and reorganisation keep the tip and the forks exactly the leaves, each once. |
| FollowerState.HeightCheckExact | cryptarchia/cryptarchia.py:342-344 | The height comparison passes exactly the parents that are or descend from the last immutable block. |
| FollowerState.RunInv | cryptarchia/cryptarchia.py:394-412 | Over every run the new last immutable block is or descends from the old one. |
| FollowerState.TipsDescendFromLib | cryptarchia/cryptarchia.py:404-412 | The tip and all forks descend from the last immutable block. |
| FollowerState.PrunedForever | cryptarchia/cryptarchia.py:408-412 | A pruned block is held after no later run, and offering it again is refused and changes nothing. |
| FollowerState.GuardIdleWhenTallest | cryptarchia/cryptarchia.py:720-738 | From a tallest tip the guard turns no taller fork away, so the rule on the pruned tree is the longest-chain rule. |
| FollowerState.TallestRun | cryptarchia/cryptarchia.py:361-412 | Online, a tallest tip is followed by a tallest tip over every run. |
| FollowerState.ShallowKeepsTallest | cryptarchia/cryptarchia.py:680-717 | Bootstrapping, a tallest tip is followed by a tallest tip while no fork is more than k deep. |
| FollowerState.NearKeepsTallest | cryptarchia/cryptarchia.py:680-717 | Bootstrapping at most k blocks above the genesis block, a tallest tip is followed by a tallest tip. |
| FollowerState.ShallowThenOnline | cryptarchia/cryptarchia.py:327-390 | A follower that bootstraps among shallow forks and then goes online follows a tallest chain for ever. |
| FollowerState.OnlineFromGenesis | cryptarchia/cryptarchia.py:317-335 | A follower that goes online first follows a tallest chain for ever. |
| Preference.SplitMeets | cryptarchia/cryptarchia.py:612-658 | The block that both distances lead to is the highest common block, and each distance is a difference in height. |
| Preference.PathIsWindow | cryptarchia/cryptarchia.py:661-662 | A path has as many blocks before a slot as there are held blocks between its ends before that slot. |
| Preference.ChoosesChampion | cryptarchia/cryptarchia.py:416-433 | In either mode the fork choice is the champion of the forks, each compared by heights up to k below the tip and, while bootstrapping only, by the number of blocks in the three base periods from the highest common block on. |
| Preference.TipAfter | cryptarchia/cryptarchia.py:361-390 | An accepted block that extends the tip becomes the tip; otherwise the new tip is the champion, by the rule of the mode, of the forks it does not extend, in their order, and itself. |
| Preference.RestAfter | cryptarchia/cryptarchia.py:361-412 | The mode stays; the forks are those not chosen, in order, with the old tip last; online, the last immutable block is k below the new tip or the genesis block, and forks and table lose what is not on its line. |
| Preference.OnlineAfter | cryptarchia/cryptarchia.py:327-335 | Going online keeps the tip and does the same to the last immutable block, the forks and the table. |
| Preference.DeepRival | cryptarchia/cryptarchia.py:702-715 | Bootstrapping, against one rival that forks more than k below the tip: the tip becomes the new block if and only if it has more blocks in the window, whatever the heights. |
| Preference.ShallowRival | cryptarchia/cryptarchia.py:698-701 | Against one rival that forks at most k below the tip: the tip becomes the new block if and only if it is taller, in both modes. |
| Preference.DeepForksKeepTip | cryptarchia/cryptarchia.py:729-738 | The online rule keeps the tip when all forks leave its chain more than k below it, whatever their heights. |
| Preference.OnlineRivalsAreShallow | cryptarchia/cryptarchia.py:342-344 | An online follower accepts and keeps no fork that leaves the tip's chain more than k below it. |
| Preference.ChampionIsTaller | cryptarchia/cryptarchia.py:729-738 | Online, a new tip chosen over the old one is taller. |
| Delivery.AcceptanceFromAncestors | cryptarchia/cryptarchia.py:337-359 | Acceptance, and each refusal, depends only on the ancestors of a block and on the last immutable block. |
| Delivery.AcceptableExactly | cryptarchia/cryptarchia.py:195-206 | A block is acceptable exactly when its proof is for its own slot and parent, with a note committed and not nullified in the genesis state. |
| Delivery.AcceptedExactly | cryptarchia/cryptarchia.py:337-359 | Each verdict in terms of the table and the block's fields: accepted if and only if the parent is held on the line of the last immutable block and the proof is for this slot and parent, with a note committed and not nullified in the genesis state. |
| FollowerExamples.FirstBlocks | cryptarchia/cryptarchia.py:195-206 | A new follower takes a block of an unspent note and refuses those of an unknown or spent note and those with a proof for another slot or parent. |
| FollowerExamples.DenserForkTaken | cryptarchia/cryptarchia.py:702-715 | With k = 1 and base period 10, a bootstrapping follower at slots 40 and 41 moves to a fork of one block at slot 1; once online it refuses that fork. |
| Delivery.DeliveredAreGood | cryptarchia/cryptarchia.py:361-370 | After any parents-first delivery a bootstrapping follower holds exactly the blocks whose whole chain is offered and acceptable. |
| Delivery.OrderDoesNotMatter | cryptarchia/cryptarchia.py:361-370 | Two parents-first deliveries of the same blocks end with the same table. |
| Followers.LedgerCell.Apply | cryptarchia/cryptarchia.py:273-283 | The update in place leaves the state that the function gives. |
| Followers.Follower.constructor | cryptarchia/cryptarchia.py:317-325 | A new follower is the initial state and is valid. |
| Followers.Follower.ComputeEpochState | cryptarchia/cryptarchia.py:468-499 | The method on the memo field returns the unmemoised epoch state, memoises it under its nonce snapshot, loses no entry and keeps the follower valid. |
| Followers.Follower.ValidateHeader | cryptarchia/cryptarchia.py:337-359 | The verdict, exception by exception, and the memo table: that of the epoch of the block's slot at its parent where the proof is looked at, else unchanged. |
| Followers.Follower.ForkChoice | cryptarchia/cryptarchia.py:416-433 | The rule that the mode calls for; which one that is says `Preference.ChoosesChampion`. |
| Followers.Follower.BlockAtDepth | cryptarchia/cryptarchia.py:404 | The k-th block below the tip, or the genesis block. |
| Followers.Follower.UpdateLib | cryptarchia/cryptarchia.py:394-412 | The new last immutable block, forks and pruned table, as functions of the old state. |
| Followers.Follower.ToOnline | cryptarchia/cryptarchia.py:327-335 | The new state as a function of the old; the follower stays valid. |
| Followers.Follower.OnBlock | cryptarchia/cryptarchia.py:361-390 | The whole new state and the verdict as a function of the old state; the follower stays valid. |
| Followers.Follower.PlaceBlock | cryptarchia/cryptarchia.py:372-387 | The tip and the forks after a new block. |
| Followers.KeepDescendants | cryptarchia/cryptarchia.py:405-407 | The forks that descend from the last immutable block, in order. |
| Followers.PruneTable | cryptarchia/cryptarchia.py:408-412 | The entries that are ancestors or descendants of the last immutable block. |
| Soundness.OnBlockSyncing | cryptarchia/cryptarchia.py:361-390 | What one block does to a bootstrapping follower: it is added exactly if accepted, and refused for its proof only if unsound. |
| Soundness.DeliveredSyncing | cryptarchia/cryptarchia.py:361-390 | Every follower that was only given blocks can synchronise. |
| Backfill.FetchChainBackward | cryptarchia/sync.py:159-180 | The path from the tip to the genesis block if some table holds the tip, else nothing. |
| Backfill.FindMissingPart | cryptarchia/sync.py:98-112 | The reversed prefix of the fork up to the first held block. |
| Backfill.MissingPartOfFork | cryptarchia/sync.py:84-87 | Together they give exactly the blocks of the path that are not held, root to tip, each on its parent, the first on a held block. |
| Backfill.BackfillFork | cryptarchia/sync.py:76-95 | It returns normally, with the fork held, exactly when the fork is sound; else it reports the rest of the missing part from the first refused block on, which can never be held. Either way the follower ends as if it was offered the missing blocks before, root to tip. |
| Sync.SortedBySlot | cryptarchia/cryptarchia.py:526-535 | Each block once, slots ascending. |
| Sync.FetchBlocksFrom | cryptarchia/sync.py:122-157 | The groups one after the other: one for the first peer of each tip that is ahead, in the order of the peers, each with the recent blocks of that peer once and slots ascending. |
| Sync.TipsAreFetched | cryptarchia/sync.py:130-139 | Every tip that is ahead is fetched, and all that is fetched descends from the genesis block. |
| Sync.OfferFetched | cryptarchia/sync.py:36-52 | After the first loop each fetched block is held, rejected or an orphan, rejected blocks can never be held, and the follower is as if it was offered every fetched block in order. |
| Sync.BackfillOrphans | cryptarchia/sync.py:62-73 | After the second loop each orphan is held or rejected; the orphans come the latest first, and the follower is as if it was offered a part of what was missing of each in turn. |
| Sync.SyncPass | cryptarchia/sync.py:31-73 | After a pass every tip that was ahead is held with its whole chain or rejected; a pass over known blocks changes nothing; it is the last one exactly when no peer is ahead. |
| Sync.Sync | cryptarchia/sync.py:15-73 | Over any number of passes rejected blocks are never held and every new block is a peer's; it never finishes when a peer is out of reach, on one line led by sound tips it finishes exactly when none is, and near the genesis block it finishes when there is a summit; it finishes only when no peer is ahead, else it ends stuck; a checkpoint held by a peer ends up held or stops it. |
| Sync.OutOfReachStays | cryptarchia/sync.py:31-57 | A peer later than all held and all sound blocks stays so, and ahead, whatever blocks of the peers are held. |
| Sync.StuckBehind | cryptarchia/sync.py:31-73 | A stuck follower has a peer ahead, and every tip ahead is refused, or held and not preferred. |
| Sync.InReachIsNotStuck | cryptarchia/sync.py:31-73 | On one line led by sound tips, with no peer out of reach, no state of the loop is stuck. |
| Sync.SummitIsNotStuck | cryptarchia/sync.py:31-73 | When the only tallest candidate is held or a tip and no tip is later, a follower at a tallest tip is not stuck, with forks or without. |
| Sync.RefusedTipIsStuck | cryptarchia/sync.py:40-57 | With one peer, whose blocks are held but for a refused tip that is ahead, the loop is stuck. |
| SyncExamples.RefusedTipAhead | cryptarchia/sync.py:28-57 | An instance out of reach: a new follower and a peer with one refused block that is ahead. |
| SyncExamples.RefusedTipOvertaken | cryptarchia/sync.py:28-57 | The same peer beside one with a later sound block: nothing is out of reach and the loop must end. |
| SyncExamples.HeldTipNotPreferred | cryptarchia/sync.py:28-57 | A follower stuck with all blocks sound: a child of the peer's tip has an earlier slot. |
| Fft.FftRecursive | da/kzg_rs/fft.py:34-48 | The recursion with its list filled in place computes the transform. |
| Fft.FillField | da/kzg_rs/fft.py:43-47 | The loop fills both halves with the butterflies. |
| Fft.FftG1 | da/kzg_rs/fft.py:9-19 | The same transform on group points. |
| Fft.FillGroup | da/kzg_rs/fft.py:14-18 | The same butterflies by scalar multiplication, addition and negation. |
| Fft.FftChecked | da/kzg_rs/fft.py:51-53 | `fft` is the transform. |
| Fft.Ifft | da/kzg_rs/fft.py:56-65 | `ifft` is the inverse transform. |
| Fft.IfftG1 | da/kzg_rs/fft.py:22-31 | The same on group points. |
| FftTheory.TransformIsDft | da/kzg_rs/fft.py:34-48 | For powers of w with w^(n/2) = -1, output i is the sum of vals[j] * w^(i*j) mod p. |
| RoundTrip.ThereAndBack | da/kzg_rs/fft.py:34-65 | Transforming and transforming back with inverse roots multiplies by the length. |
| RoundTrip.InverseUndoes | da/kzg_rs/fft.py:51-65 | For every power-of-two length, odd prime and w with w^n = 1, the inverse transform gives back the input mod p. |
| Roots.ComputeRootsOfUnity | da/kzg_rs/roots.py:12-25 | The list of powers of the root of the given order. |
| Roots.FullTurn | da/kzg_rs/roots.py:4-9 | The computed root has w^order = 1, by Fermat's little theorem. |
| Roots.HalfTurnExactly | da/kzg_rs/roots.py:4-9 | It has w^(order/2) = -1 exactly when the generator is a quadratic non-residue. |
| Roots.RoundTripOnComputedRoots | da/kzg_rs/test_fft.py:8-14 | The round trip on computed roots, for every generator that is not 0 mod p. |
| Roots.DftExactly | da/kzg_rs/fft.py:34-48 | The transform is the discrete Fourier transform exactly for roots with w^(n/2) = -1. |
| Convolution.ConvolutionTheorem | da/kzg_rs/fk20.py:30-39 | The transform of a cyclic convolution is the product of the transforms. |
| Convolution.InverseOfProduct | da/kzg_rs/fk20.py:30-39 | Transforming the product back gives the convolution. |
| Fk20.Toeplitz1 | da/kzg_rs/fk20.py:13-27 | The transform of the reversed setup padded with zeros. |
| Fk20.Toeplitz2 | da/kzg_rs/fk20.py:30-34 | The products with the transformed coefficients. |
| Fk20.Toeplitz3 | da/kzg_rs/fk20.py:37-39 | The first half of the inverse transform. |
| Fk20.Fk20GenerateProofs | da/kzg_rs/fk20.py:42-75 | The proofs are the transform of the h vector. |
| Fk20Theory.HVectorIsTail | da/kzg_rs/fk20.py:57-71 | The three stages compute h_m, the sum over j > m of f_j * s^(j-m-1). |
| Fk20Theory.QuotientExists | da/kzg_rs/kzg.py:41-53 | Every polynomial has an exact quotient by X - u, with remainder f(u). |
| Fk20Theory.QuotientUnique | da/kzg_rs/kzg.py:41-53 | Its coefficients are determined mod p. |
| Fk20Theory.BatchProofsAreQuotients | da/kzg_rs/fk20.py:42-75 | Proof i is the commitment to the exact quotient of f(X) - f(u) by X - u, for u the i-th root. |
| Refill.Heappop | da/assignations/refill.py:15-33 | The element with the least key, first by load and then by id. |
| Refill.HeappopNextForSubnetwork | da/assignations/refill.py:47-55 | The least participant not in the subnetwork, the rest pushed back; an empty heap exactly when all are in it. |
| Refill.FillStep | da/assignations/refill.py:79-90 | A smallest subnetwork, the one with the least index, takes a node it lacks with the fewest memberships, the one with the least id; counts and balance are kept. |
| Refill.FillSubnetworks | da/assignations/refill.py:66-90 | It ends, and never pops an empty heap exactly when it can succeed; counts equal memberships; nothing is taken away, the last place was needed, and a start that is enough is left alone; a spread of at most one is kept, and reached exactly when the total reaches the brim of the start; from a start with no node above the average it is decided before the loop. |
| Refill.BalanceSubnetworksShrink | da/assignations/refill.py:93-104 | It ends with sizes that differ by at most one and keeps every node's number of memberships, for every outcome of the shuffle; balanced subnetworks are left alone. |
| Refill.MigrateHalf | da/assignations/refill.py:98-104 | One round moves half of the difference, rounded down, out of the largest and into the smallest, of nodes the smallest lacked; memberships are kept and the sum of the squared sizes falls. |
| Filling.BalancedExactly | da/assignations/refill.py:75-90 | Filled by least sets first, sizes differ by at most one exactly when the total reaches the brim one below the largest start. |
| Filling.RoomLeft | da/assignations/refill.py:75-90 | Until the spread is at most one, the total stays within what is needed and a bounded overshoot; for an average of one, within what is needed. |
| Filling.SlackStep | da/assignations/refill.py:79-90 | Each step keeps the account of places beyond the average: they are at most the growth of the sets that hold any one node still below it. |
| Filling.GapCloses | da/assignations/refill.py:75-90 | With an average of one or enough nodes, a brim that need not be reached is beyond the overshoot. |
| Filling.TotalAtMostCounts | da/assignations/refill.py:43-44 | When each node is in few enough sets, the sizes add up to at most that many places. |
| Memberships.TotalAtLeast | da/assignations/refill.py:43-44 | When each node is in enough sets, the sizes add up to at least that many places. |
| Memberships.MoveLowersSquares | da/assignations/refill.py:100-104 | Moving half of the difference lowers the sum of the squared sizes. |
| Refill.BalanceSubnetworksGrow | da/assignations/refill.py:107-120 | Every node ends in the smaller of its number of subnetworks and the average; subnetworks only lose members. |
| Refill.CalculateSubnetworkAssignations | da/assignations/refill.py:131-197 | Each error exactly when its condition holds; else one set per subnetwork in order, exactly the new nodes, each set replicated, each node in at least the average; sizes within one when shrinking, starting empty, even, low or nearly full, and otherwise as the sets after the grow pass decide, which without a node above the average are the active ones; a settled start comes back unchanged. In both cases the result is what filling makes of the sets after the pass: when shrinking, balanced sets with the memberships of the active ones; when growing, the active ones trimmed to the average. |
| Refill.ShrinkingKeepsMemberships | da/assignations/refill.py:169-197 | When shrinking, every node that stays is in at least as many subnetworks as before. |
| Refill.ShrinkingLeavesEnough | da/assignations/refill.py:169-197 | When shrinking and what is left is balanced, replicated and assigned often enough, it comes back as it is. |
| Refill.AverageExactly | da/assignations/refill.py:160-161 | The average is the number of places per node rounded down, and at least one. |
| Refill.ShrinkingNetworkKeepsTheRest | da/assignations/refill.py:169-187 | Nodes 1 and 2 of two subnetworks of 1, 2 and 3 come back as two subnetworks of 1 and 2. |
| Refill.GrowingNetworkStaysUneven | da/assignations/test_refill.py:98-103 | An input that does not shrink and comes back unchanged with sizes 3 and 1. |
| CarnotState.ReceiveBlockTree | deprecated/carnot/carnot.py:350-367 | A well-formed block keeps the held blocks parent-closed with one block per view, and drops none. |
| CarnotState.ReceiveBlockExact | deprecated/carnot/carnot.py:350-367 | A block is added exactly when its id and its view are new and its view is not below the current one and one above its certificate's; the current view moves on exactly when it is one above; the committed view never decides. |
| CarnotState.CommitsTwoBelow | deprecated/carnot/carnot.py:275-286 | A committing block lies exactly two views above the block it commits. |
| CarnotState.CommitsExactly | deprecated/carnot/carnot.py:275-286 | A held block commits its grandparent exactly when it and its parent carry standard certificates and the parent is not the genesis block; the views are then consecutive. |
| CarnotState.LatestCommittedExists | deprecated/carnot/carnot.py:303-309 | There is exactly one latest committed block: the genesis block or the grandparent of a committing block at most at the current view. |
| CarnotState.RunKeeps | deprecated/carnot/carnot.py:303-367 | Over every run the tree is kept, nothing is dropped, and the current view and the committed view never decrease. |
| CarnotState.VotedViewFallsExactly | deprecated/carnot/carnot.py:461-499 | A step lowers the highest voted view exactly when it is a timeout with that view above the current one. |
| CarnotState.VotesOnlyAbove | deprecated/carnot/carnot.py:369-563 | With guarded timeouts a node votes only above every view it voted in, approved or timed out in before. |
| CarnotState.VoteAgainExactly | deprecated/carnot/carnot.py:369-388 | After a vote the same approval is open again exactly when the highest voted view has fallen below the block's view, which needs an unguarded timeout in between. |
| CarnotState.OneBlockPerView | deprecated/carnot/carnot.py:369-392 | With or without the guard, votes of one view are for one block. |
| CarnotState.DoubleVote | deprecated/carnot/carnot.py:493-499 | A run without the guard in which a node votes twice in one view. |
| CarnotState.HighQcFallsExactly | deprecated/carnot/carnot.py:329-341 | The high certificate falls exactly when an older aggregate is taken up, which the guards tell before the call. |
| CarnotState.HighQcExactly | deprecated/carnot/carnot.py:329-341 | The high certificate becomes the one taken up exactly when it is the first, higher or an older aggregate, and otherwise stays. |
| CarnotState.HighQcIsHighest | deprecated/carnot/carnot.py:263-264 | Over a run without one, it is at least as high as every certificate taken up. |
| CarnotState.HighQcCanFall | deprecated/carnot/carnot.py:337-338 | A run in which it falls from view 2 to view 0. |
| CarnotState.TimeoutsReplace | deprecated/carnot/carnot.py:574-600 | Every timeout certificate that is not ignored replaces the last one and moves the node to the view after it. |
| CarnotState.AncestorExactly | deprecated/carnot/carnot.py:90-95 | Of two held blocks the lower is an ancestor of the higher exactly when no aggregate on the higher one's chain passes it by. |
| CarnotState.CommitsConsistentExactly | deprecated/carnot/carnot.py:303-320 | Over every run an earlier committed block is an ancestor of a later one exactly when no aggregate on the later one's chain passes it by. |
| CarnotState.RespectedCommitsAreConsistent | deprecated/carnot/carnot.py:303-320 | In particular when no held aggregate passes it by. |
| CarnotState.HappyPathIsOneChain | deprecated/carnot/carnot.py:311-320 | Without aggregate certificates the held blocks form one chain. |
| CarnotState.HappyCommitsAreConsistent | deprecated/carnot/carnot.py:303-320 | Without them an earlier committed block is an ancestor of every later one. |
| CarnotState.CommitsCanBranch | deprecated/carnot/carnot.py:303-367 | With one, a run of one node that commits blocks of two branches. |
| CarnotMessages.ChildVotesCount | deprecated/carnot/carnot.py:369-388 | The votes of enough children that approved a block name that block and view and let their parent approve it. |
| CarnotMessages.RootVoteCertifies | deprecated/carnot/carnot.py:376-392 | A root member's vote goes to the leader of the next view; a block of that view on its certificate is a well-formed child of the approved block, and every node that holds that block and is not past the view takes it up. |
| CarnotMessages.HighestQcIsFirstMax | deprecated/carnot/carnot.py:546-552 | The certificate taken up is the first of those with the highest view, the timeout's first. |
| CarnotMessages.ChildNewViewsCount | deprecated/carnot/carnot.py:529-567 | The new views of enough children after one timeout certificate let their parent approve the view, unless it holds a later timeout certificate. |
| CarnotMessages.NewViewIsHigh | deprecated/carnot/carnot.py:546-561 | An approved new view carries a certificate at least as high as all that were received, where the highest is a standard one. |
| CarnotNodes.BlocksInView | deprecated/carnot/carnot.py:297-298 | Exactly the held blocks of a view. |
| CarnotNodes.CommittedIn | deprecated/carnot/carnot.py:304-307 | A grandparent that a block of the view commits, two views below, or none exactly when no block of it commits. |
| CarnotNodes.Carnot.constructor | deprecated/carnot/carnot.py:255-270 | The fields of a new node. |
| CarnotNodes.Carnot.AddGenesis | deprecated/carnot/test_happy_path.py:7-10 | A new node that is given the genesis block is in the state from which the theorems about runs start. |
| CarnotNodes.Carnot.FollowGenesis | deprecated/carnot/test_unhappy_path.py:84-90 | So is one that also follows the genesis certificate in view 1. |
| CarnotNodes.Carnot.LatestCommittedBlock | deprecated/carnot/carnot.py:303-309 | The scan finds the latest committed block. |
| CarnotNodes.Carnot.CommittedBlocks | deprecated/carnot/carnot.py:314-320 | The walk ends and lists the latest committed block and its ancestors above the genesis block under their ids. |
| CarnotNodes.Carnot.UpdateHighQc | deprecated/carnot/carnot.py:329-341 | The new certificate and view as a function of the old state. |
| CarnotNodes.Carnot.UpdateTimeoutQc | deprecated/carnot/carnot.py:343-348 | The later of the two timeout certificates. |
| CarnotNodes.Carnot.ReceiveBlock | deprecated/carnot/carnot.py:350-367 | The new state as a function of the old; the tree is kept for a well-formed block. |
| CarnotNodes.Carnot.ApproveBlock | deprecated/carnot/carnot.py:369-392 | The vote field by field, to whom it goes, and the new highest voted view. |
| CarnotNodes.Carnot.ApproveNewView | deprecated/carnot/carnot.py:529-567 | The new view field by field, to whom it goes, and the new state with the highest certificate. |
| CarnotNodes.Carnot.LocalTimeout | deprecated/carnot/carnot.py:493-510 | The timeout field by field, whether and to whom it goes, and the new highest voted view. |
| CarnotNodes.Carnot.ReceiveTimeoutQc | deprecated/carnot/carnot.py:574-600 | The new state, or none for an old view. |

## Left out

- Hashing and encodings: an identifier is a term that holds what was hashed, so ids are injective. A block id covers the whole header, the leader proof included, as the comment at cryptarchia/cryptarchia.py:230 asks for; the code hashes only the proof's nonce contribution, which is of one slot and note.
- Slot lottery, `phi`, the leader and the stake estimate: floating point. The base period and the inference of the total stake are parameters of the configuration.
- `from_unix_timestamp_s`, note validation and block contents: nothing above depends on them.
- EpochStates.StateAtSlotBeginning: walks ids instead of a generator; the genesis state is a value, so the aliasing of the genesis object between snapshots is not modelled.
- Walks.CommonPrefixDepth: requires that the tips share a held ancestor; without one the source loops for ever.
- Followers.Follower.OnBlock: `deepcopy` of the parent state is a new cell with the same fields.
- Followers.Follower.ForkChoice: the third branch for an unknown state cannot occur in an enumeration of two.
- Sync.Sync: cut off after a number of passes, because the loop need not end; peers are values, so tips that advance during synchronisation and peers that raise exceptions are not modelled, and generators are evaluated eagerly.
- Sync.SortedBySlot: blocks of one slot come in any order, the order of the dictionary in the source.
- Curve arithmetic, pairings and the trusted setup: a group point is its discrete logarithm mod p, so addition, negation and scalar multiplication are arithmetic mod p; the conversion to 48 bytes is left out.
- The modulus of BLS12-381 being prime, and 7 being a quadratic non-residue of it, are hypotheses of the FK20 theorems; the hypotheses can be met (`Fk20Theory.HypothesesCanBeMet`).
- Fft.FftRecursive: lengths are powers of two; for others the source leaves entries at zero, and on the empty list it recurses for ever.
- Fk20.Fk20GenerateProofs: lengths are the powers of two from 2 to 2^31 that the source accepts, and the extended length too, so the degree is at most 2^30; the assertions of the stages are preconditions.
- `Polynomial.divide`, interpolation, Reed-Solomon and the single-proof prover: the exact quotient is defined in the specification instead.
- Refill.HeappopNextForSubnetwork: a heap is the set of its elements; the layout of the list is not modelled.
- Refill.BalanceSubnetworksShrink: the shuffle is any choice of a sample, so sorting for reproducibility and the random seed are not modelled.
- Refill.CalculateSubnetworkAssignations: uniform participation of nodes is not stated, because the code does not maintain it. The spread is left open for an average of two or more with fewer than f * (f + 1) nodes, for a replication factor f, where the brim lies between what is needed and the overshoot bound; and where active nodes are above the average it is stated of the sets after the grow pass, which the shuffle chooses.
- Sync.InReachIsNotStuck: off one line, only the condition under which `sync` never returns and the one of `Sync.SummitIsNotStuck` under which it does are stated.
- CarnotState.RunKeeps: certificates are assumed well-formed (the view of a certificate is the view of the block it certifies, an aggregate's certificate is older than its block), because the source checks neither quorums nor signatures.
- CarnotState.OneBlockPerView: assumes that an approved block is the held block of its id, since an id stands for the hash of the contents.
- CarnotNodes.Carnot.ApproveNewView: the new views come as a list in the order in which the set is iterated; among certificates of the same view the first one wins.
- `propose_block`, `forward_vote`, `forward_new_view`, `timeout_detected` and `build_timeout_qc`: they change no state of the node.
- `is_safe_to_timeout_invariant`: nothing calls it; its voting part is the guard of the theorems about votes.
- Overlays, the beacon, committee sizes and agreement between Carnot nodes: quorum checks are not in the code.
- Mixnet (`deprecated/mixnet_v1`), dispersal, the data-availability API, encoder, verifier and stores: asynchronous input and output or thin wrappers.
