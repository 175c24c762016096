# RequeueIP: block and address allocation, verified

RequeueIP hands out addresses in three steps. A **Subnet** is cut into equal, aligned
**IPBlocks**; an **IPPool** owns blocks and lists the address ranges it uses of them; an **IP**
object records one address for one pod. Claim reconcilers, the pool controller and the node
daemons work on one store at the same time. Nothing arbitrates between them except that creating
an object fails when its name is taken.

This project models that engine and proves what it is for.

* **One store, all interleavings.** `Cluster` is the state machine of a subnet: every API write is
  one event. `Safety` and `Composition.SafetyOfSpec` hold after every prefix of every run, so also
  wherever a reconcile or a clean-up crashed. `Stores.Store` is the API server as the controllers
  call it: an arbitrary schedule lets others write before each call, any call may fail, and a ghost
  trace records every write. The controllers' methods are proved to make only writes that are events
  of the state machine.
* **The claim controller** (`ClaimController`, `ClaimReconciler`) grows and shrinks a pool, with
  parallel workers that interleave call by call. `Convergence` bounds the rounds it needs.
* **Live addresses.** `FreshRuns` are runs whose writes carry the status they were made from. As
  long as each is the current one and no address is assigned from a pool in clean-up, every
  recorded address stays in its pool and none is recorded twice. The code does not see to the
  latter: `HeldTwice` gives the run on which one address is recorded twice, and shows that an
  assignment can lead there exactly when its pool is in clean-up. `StaleStatus` and `Interrupted`
  give the runs on which old statuses and interrupted clean-ups break disjointness, with the exact
  conditions.
* **The subnet controller, the pool controller, the webhook, the allocator and the StatefulSet
  collector** each have a module of their own.
* **The range library** is modelled as it is vendored: objects changed in place by sweeps
  (`RangeObjects`), proved against recursive functions (`Ranges`) whose meaning is the enumeration
  `Flat`; `IPBytes` says what becomes of an address that the library computes.
* **Names.** The store keeps names unique, not addresses. `FamilyNames` proves that the codec
  inverts the texts of each family, `Names` which addresses and computed prefixes those texts
  belong to, `Spelling` what texts and names look like, character by character, and `Composition` plugs the codec into the state machine, so that an admitted spec
  whose prefix does not begin with a zero byte is the only assumption left.

## Findings

* *A scale-down needs a status whose free list lies within the pool's ranges, also for disjointness
  at block level.* A pool without workload label whose use is below the replicas unites its ranges
  with a part of its status' free list. If the status is older than a release of blocks,
  this hands the pool addresses of a block that another pool may own by now.
  `StaleStatus.StaleStatusOverlap` gives the run. `ClaimController.ScaleDownInsideIff` gives the
  exact condition, `ClaimController.KeptInsideWhen` and `ClaimReconciler.Trusted` what a caller can
  check: workload pools past their wait are safe with any status.
* *A pool whose clean-up was interrupted is used again.* The claim controller does not look at a
  pool's deletion mark. When a clean-up stopped between its block deletions and the finalizer, the
  next reconcile of the claim finds the pool, with ranges that lie in no block of it any more. No
  block is ever without its pool all the same (`Cluster.StepKeepsInv`), but disjointness is gone:
  `Interrupted.InterruptedCleanUpOverlap` gives the run. `CleanBlockKeepsInsideIff` says which
  deletions take the pool out of its blocks, and `OverlapPossibleIff` that a pool can come to share
  an address exactly when it lists one outside its blocks.
* *Two pods can get one address although every status is current.* The allocator does not look at a
  pool's deletion mark either (`pkg/ipam/allocator.go:448-626`). After such a clean-up a pool of
  another namespace claims the block, and both pools' statuses rightly show the address as free;
  two pods get it (`HeldTwice.HandedOutTwice`). `HeldTwice.AssignTwiceIff`: after an assignment by
  a current free list, further acts on current statuses, none of them an assignment from a pool in
  clean-up, can lead to an address recorded twice exactly when the pool it came from is in
  clean-up, at whatever stage.
* *An interrupted scale-down leaves idle blocks for good.* If it stopped between its patch and the
  release, the next reconcile finds the pool at its size and completes
  (`Interrupted.IdleBlockStays`). `ClaimReconciler.CompletedNoIdleIff`: a completed reconcile leaves
  no idle block exactly when it grew or shrank the pool, or there was none before.
* *The range library drops leading zero bytes* when it computes an address. `IPBytes.ExactIff`:
  results have the right length exactly from the first address with a nonzero top byte up to the
  last address of the family. So a subnet 0.0.0.0/24 without 0.0.0.8 is admitted and its status is
  never computed (`SubnetController.LowIsDamaged`). `GetTotalIPRanges` is right exactly if the
  exclusions miss the CIDR or each starts at such an address; otherwise it is an error or, for
  IPv6, possibly the whole CIDR. `Composition.AdmittedNamedIff`: blocks and addresses of a subnet
  have invertible names exactly if its first address is one; whatever asks for `Named` or for
  `Sturdy` rests on that.
* *IPv4-mapped IPv6 addresses print as IPv4 addresses.* Their names do not decode under IPv6
  (`Names.IPRoundTripIff`, `Names.CIDRRoundTripIff`) and are those of the IPv4 addresses
  (`Names.IPNamesEqualIff`); everything else has a name of its own.
* *The address iterator's `NextN`, once under way, steps over the end of one range only.* From a
  merged list it delivers the right address exactly if that is enough; the repository calls it on
  fresh iterators alone.
* *Parsing an empty list forgets its family*, and `Union` and `Diff` ignore an argument of another
  family. The code avoids the case on the growing side only by the order of its operands
  (`pkg/controller/ippoolclaim_controller.go:527-531`); the model keeps families so that the proofs
  depend on that order.
* *An update request can make validation dereference nil.* Defaulting leaves family and block size
  unset when no family is given and the CIDR text does not parse, and the update checks look at
  those fields first. The model reports `Undefaulted`; `SubnetWebhook.SubnetResource.Update`: for a
  subnet that is not terminating this happens exactly if that is so or the stored object lacks one
  of the fields, and `UndefaultedUpdate` is such a request.

## Assumptions

* Two reconciles of one claim never overlap, and clean-up or deletion of a pool does not run while
  that pool's claim is reconciled. A claim may well be reconciled after a clean-up of its pool that
  stopped half-way (`cleaning` marks a pool whose clean-up has begun).
* Rivals make only writes that the state machine enables. That is what is proved here of each
  controller, under the condition on the status above for scale-downs.
* Subnet status and pool status may be of any age unless a lemma asks for a fresh one. A subnet's
  free list, however old, is a union of whole blocks of the grid (`Subnets.FreeView`); that is
  proved of every truthful status (`SubnetController.StatusIsTruthful`).
* Freshness where it is needed is `FreshRuns.Current`: the status that a scale-down or a clean-up
  was made from is the one of the pool's ranges and recorded addresses at that moment; the free
  list that an assignment was made from names addresses of the pool, recorded meanwhile or not.
* `FreshRuns.FromUse`, that no address is assigned from a pool in clean-up, is assumed of runs
  without address recorded twice. The code does not check it; `HeldTwice.AssignTwiceIff` says what
  comes of it.
* Hashes are arbitrary natural numbers. Range lists stored as strings read back as they were
  written, except that an empty list loses its family; `SubnetController.BoundsPrintIff` says when
  the bounds computed for a subnet's total are addresses that do.

## Model

| member | source | states |
|---|---|---|
| Composition.SafetyOfSpec | pkg/controller/ippoolclaim_controller.go:468-664 | for an admitted spec whose prefix does not begin with a zero byte, after every prefix of every legal run: every block has an existing owner, lies inside the CIDR and has a number of its own; pools not in clean-up lie in their own blocks and no two of them share an address |
| Composition.AddressesUniqueOfSpec | pkg/ipam/allocator.go:583-626 | over runs whose shrinking, assigning and cleaning writes were made from current statuses, and in which no address is assigned from a pool in clean-up (which the code does not check), no address is recorded twice, whatever the namespaces |
| Composition.AssignTwiceIffOfSpec | pkg/ipam/allocator.go:583-626 | when such a run is followed by an assignment from any pool, further such acts can lead to an address recorded twice exactly when that pool is in clean-up |
| Composition.AdmittedNamedIff | pkg/net/cidr.go:29-96 | block and address names of an admitted subnet are invertible exactly if its prefix does not begin with a zero byte |
| Composition.BytesKeptIff | vendor/github.com/iiiceoo/iprange/ip.go:36-84 | and exactly then every address of the CIDR, computed, has the number of bytes of its family |
| Composition.DefaultIsRoomy | pkg/webhook/subnet_webhook.go:168-174 | the failing runs below are runs of every such subnet of at least eight blocks of the default size |
| Composition.SubnetsApart | pkg/webhook/subnet_webhook.go:267-279 | grids of subnets whose prefixes do not meet share no address |
| FreshRuns.GrowthIsFresh | pkg/controller/ippoolclaim_controller.go:526-533 | a patch that keeps all old addresses keeps every live IP housed |
| FreshRuns.ShrinkIsFresh | pkg/controller/ippoolclaim_controller.go:418-428 | a scale-down on a status that lists the pool's IPs keeps every live IP housed |
| FreshRuns.AssignIsFresh | pkg/ipam/allocator.go:583-612 | an address of a free list within the pool may be recorded if its name is free, in clean-up or not, and is housed if the pool is in use |
| Composition.CodecOffersIff | pkg/net/ip.go:33-44 | a merged list of addresses of a family is a free list the allocator can use exactly if no address begins with a zero byte |
| Cluster.StepKeepsInv | pkg/controller/ippoolclaim_controller.go:100-105 | every single write, those of a claim after an interrupted clean-up included, keeps the invariant: owners exist, blocks are on the grid, pools not in clean-up lie within their blocks |
| Cluster.RunKeepsInv | pkg/controller/ippoolclaim_controller.go:468-664 | the invariant holds after every prefix of a run |
| Cluster.Safety | pkg/controller/ippoolclaim_controller.go:468-664 | the same for any invertible naming: no orphan blocks, one number per name, disjoint pools |
| Cluster.BlocksDisjoint | pkg/controller/ippoolclaim_controller.go:599-606 | different block objects share no address |
| Cluster.PoolsDisjoint | pkg/controller/ippoolclaim_controller.go:514-533 | different active pools share no address |
| Cluster.RivalRunKeepsView | pkg/controller/ippoolclaim_controller.go:592-628 | any number of writes of others leaves a pool, its blocks and its ranges alone |
| Cluster.HousedUnique | pkg/ipam/allocator.go:583-626 | when every recorded address lies in its own pool, none is recorded twice |
| FreshRuns.FreshRunHoused | pkg/ipam/allocator.go:583-626 | from any state in order, over runs of growing, shrinking, assigning and cleaning steps, each made from a current status, without assignment from a pool in clean-up, every live IP stays inside its own pool's ranges |
| FreshRuns.AddressesUnique | pkg/ipam/allocator.go:583-626 | hence no address is held by two live IPs |
| HeldTwice.AssignTwiceIff | pkg/ipam/allocator.go:583-626 | from a state in order, after an assignment by a current free list, further acts on current statuses, none again an assignment from a pool in clean-up, can lead to an address held twice exactly when the pool it came from is in clean-up |
| HeldTwice.HandedOutTwice | pkg/ipam/allocator.go:583-612 | a run with exact and complete statuses throughout after which pods of two namespaces hold one address: an interrupted clean-up, a claim of its block, two assignments |
| FreshRuns.ScaleDownShrinks | pkg/controller/ippoolclaim_controller.go:394-465 | every patch of the pool that a scale-down adds to the store's history, whatever others write meanwhile, is a shrinking step by the status it was given in the state in which it is written |
| FreshRuns.ScaleUpGrows | pkg/controller/ippoolclaim_controller.go:514-533 | every patch that a scale-up adds is a growing step in the state in which it is written |
| FreshRuns.CleanUpBegins | pkg/controller/ippool_controller.go:146-158 | a clean-up that begins does so in a state with that pool, by a status that counts no address |
| FreshRuns.GetAssigns | pkg/ipam/allocator.go:86-118 | every record made by a Get, the second of a version included, is an assigning step in any state whose pool has the addresses that the cache showed as free |
| Cluster.NamespaceUnique | pkg/ipam/allocator.go:605-621 | within one namespace that needs no freshness |
| Stores.Store.LegalInv | pkg/controller/ippoolclaim_controller.go:213-232 | a store whose writes were all legal satisfies the invariant |
| Stores.DeleteAllOf | pkg/controller/ippool_controller.go:160-170 | deletes all blocks of a pool or stops on the way, each deletion being one the run allows |
| ClaimController.ScaleUp | pkg/controller/ippoolclaim_controller.go:468-511 | ends with exactly `replicas` addresses, all old ones among them, and, for a pool that lay in its blocks, inside its blocks and without idle block; claims ceil(replicas/step) blocks less those it has, each by a worker of its own that probed it by the hash of its running number, nothing if the free list is too short; unhindered it ends or owns two blocks more, every block that a worker points at first among them |
| ClaimController.GrowInPlace | pkg/controller/ippoolclaim_controller.go:483-492 | the listed blocks suffice, leftovers of earlier rounds included: idle ones are gone afterwards |
| ClaimController.ClaimMissing | pkg/controller/ippoolclaim_controller.go:494-510 | claims what is missing, from the number of listed blocks on: together with the old blocks exactly ceil(replicas/step), all different; a failed round keeps what it got, a free list that is too short changes nothing |
| ClaimController.Missing | pkg/controller/ippoolclaim_controller.go:494-498 | the ceiling division: the least number of further blocks that hold the pool |
| ClaimController.GrowTightly | pkg/controller/ippoolclaim_controller.go:509-510 | growing within just enough blocks leaves none idle |
| ClaimController.ScaleUpWithinIPBlocks | pkg/controller/ippoolclaim_controller.go:514-533 | the new ranges are the old ones plus the lowest unused addresses of the blocks |
| ClaimController.Carve | pkg/controller/ippoolclaim_controller.go:519-531 | the same of the range arithmetic alone |
| ClaimController.GuardSkipsNothing | pkg/controller/ippoolclaim_controller.go:455-458 | pigeonhole: when the guard skips the release, every block holds a pool address |
| ClaimController.ClaimIPBlocks | pkg/controller/ippoolclaim_controller.go:537-589 | whatever the interleaving: new, different blocks of the free list, each one of the two that worker i points at by the hash of start + i, for a worker of its own; success means all of them, failure fewer; against a current free list at least min(wanted, 2), and every block pointed at first |
| ClaimController.AimWorkers | pkg/controller/ippoolclaim_controller.go:546-556 | worker i points at the block at position hash(start + i) mod count of the free list and at its cyclic successor |
| ClaimController.ProbedOffered | pkg/controller/ippoolclaim_controller.go:597-621 | the blocks so probed are blocks of the free list |
| ClaimController.ProbeTargets | pkg/controller/ippoolclaim_controller.go:597-621 | the two names tried are those of the indexed block and of its cyclic successor |
| ClaimController.ViewBlocks | pkg/controller/ippoolclaim_controller.go:552-553 | a free list yields exactly its block count of grid blocks, in order |
| ClaimController.ViewBlock | pkg/controller/ippoolclaim_controller.go:597-601 | what the block iterator delivers at a position is one aligned block in one range |
| ClaimController.ReleaseIPBlocks | pkg/controller/ippoolclaim_controller.go:631-664 | deletes only blocks without pool address; on success none is left |
| ClaimController.ReleaseIfIdle | pkg/controller/ippoolclaim_controller.go:641-648 | deletes the block exactly when no pool address lies in it |
| ClaimController.CeilDivLeast | pkg/controller/ippoolclaim_controller.go:494-498 | the ceiling division is the least multiple that reaches the replicas |
| ClaimController.ScaleDown | pkg/controller/ippoolclaim_controller.go:394-465 | waits, or leaves the old ranges without the free list plus the first free addresses; legal if those lie in own blocks; with a consistent status no idle block is left, in either branch |
| ClaimController.ShrinkRanges | pkg/controller/ippoolclaim_controller.go:418-421 | the range arithmetic of a scale-down |
| ClaimController.ConsistentShrinks | pkg/controller/ippoolclaim_controller.go:418-421 | with a consistent status: a subset of the old ranges that keeps every used address and has max(used, replicas) addresses |
| ClaimController.ScaleDownInsideIff | pkg/controller/ippoolclaim_controller.go:418-428 | the result lies in the pool's blocks exactly when the kept free addresses do |
| ClaimController.KeptInsideWhen | pkg/controller/ippoolclaim_controller.go:407-421 | which holds for workload pools past the wait, for use at or above the replicas, and for free lists within the ranges |
| ClaimController.ScaleDownHousesIff | pkg/controller/ippoolclaim_controller.go:418-421 | live addresses are kept exactly when those the status calls free are among the kept ones |
| StaleStatus.StaleStatusOverlap | pkg/controller/ippoolclaim_controller.go:394-428 | a legal run after which a scale-down on an outdated status takes another pool's address |
| Interrupted.InterruptedCleanUpOverlap | pkg/controller/ippool_controller.go:160-174 | a clean-up that stopped after its block deletions leaves a pool with which another can come to share addresses |
| Interrupted.OverlapPossibleIff | pkg/controller/ippool_controller.go:160-174 | a pool can come to share an address with a pool in use, by writes of others alone, exactly when it lists an address of the subnet outside its blocks; pools in use list none |
| Interrupted.CleanBlockKeepsInsideIff | pkg/controller/ippool_controller.go:160-170 | deleting a block in clean-up keeps the pool within its blocks exactly when the block holds none of its addresses |
| Interrupted.IdleBlockStays | pkg/controller/ippoolclaim_controller.go:292-296 | after a scale-down that stopped behind its patch the next reconcile completes and leaves the idle block |
| ClaimReconciler.SelectSubnet | pkg/controller/ippoolclaim_controller.go:238-289 | exact first fit up to the first candidate that is not ready or cannot be read |
| ClaimReconciler.CountIsStep | pkg/net/cidr.go:97-115 | the number of addresses behind a block prefix is the step of the subnet's grid |
| ClaimReconciler.SelectionPassesGuard | pkg/controller/ippoolclaim_controller.go:271-287 | the address test of the selection passes a subnet exactly if the block test of a scale-up from an empty pool, in steps of its grid, does |
| ClaimReconciler.GetOrMarkIPPool | pkg/controller/ippoolclaim_controller.go:168-235 | a missing pool is created empty, before any block, in a subnet that fits; an existing one is taken as it is, in clean-up or not; with calls that do not fail there is a pool exactly if there was one or the subnet is the first fit |
| ClaimReconciler.Scale | pkg/controller/ippoolclaim_controller.go:292-319 | nothing, a scale-down or a scale-up, by comparing size and replicas; at most one patch, of that kind; a pool that is to grow claims blocks as a scale-up does |
| ClaimReconciler.CompletedNoIdleIff | pkg/controller/ippoolclaim_controller.go:292-319 | a completed scaling leaves no idle block exactly when it grew or shrank the pool, or there was none before |
| ClaimReconciler.Reconcile | pkg/controller/ippoolclaim_controller.go:100-132 | wherever it stops, and whatever clean-up stopped before it, the invariant holds and at most one patch was made, growing or shrinking as the sizes say; with calls that do not fail a pool that is to grow is served as by a scale-up, and any other reconcile of a ready subnet completes; on completion the reported size is the pool's |
| Convergence.TruthfulIsUpToDate | pkg/controller/ippoolclaim_controller.go:366-379 | a fresh subnet status offers no block that exists |
| Convergence.OneRound | pkg/controller/ippoolclaim_controller.go:537-589 | a round on a fresh status finishes, or brings at least two blocks and is not yet at the goal |
| Convergence.GrowInRounds | pkg/controller/ippoolclaim_controller.go:573-581 | requeued rounds end after half the number of missing blocks, rounded up, whatever hashes and interleavings |
| Convergence.EnoughKept | pkg/controller/ippoolclaim_controller.go:500-502 | a round takes no more free blocks than it brings the pool, so the block test keeps passing |
| SubnetController.GetTotalIPRanges | pkg/controller/subnet_controller.go:222-275 | exactly the CIDR's addresses whose block holds no excluded address, if the exclusions miss the CIDR or each starts at an address that prints; otherwise an error for IPv4, and for IPv6 an error or the whole CIDR |
| SubnetController.RoundExcluded | pkg/controller/subnet_controller.go:244-269 | the CIDRs collected cover exactly the blocks that hold an excluded address; their texts name them if every exclusion starts at an address that prints, and one does not otherwise |
| SubnetController.ParseNets | pkg/controller/subnet_controller.go:269-274 | texts that name their prefixes are read back as them; one unreadable or of another family spoils the list |
| SubnetController.LowIsDamaged | pkg/controller/subnet_controller.go:244-272 | 0.0.0.0/24 without 0.0.0.8, blocks of four: admitted, the exclusion meets the CIDR, and its CIDR prints unreadably |
| SubnetController.BoundsPrintIff | vendor/github.com/iiiceoo/iprange/ranges.go:245-325 | with printable exclusions the computed bounds of the total print, unless the CIDR reaches over the first address with a nonzero top byte and the block there is reserved |
| SubnetController.RoundedCovers | pkg/controller/subnet_controller.go:251-263 | rounding a CIDR down to the block prefix covers exactly the blocks it touches |
| SubnetController.NoOverlap | pkg/controller/subnet_controller.go:237-240 | the early return agrees with the general path, and is taken only when the exclusions miss the CIDR |
| SubnetController.SubnetObject.Reconcile | pkg/controller/subnet_controller.go:130-165 | the status written is truthful about the listed blocks exactly if the exclusions miss the CIDR or all print; otherwise it fails for IPv4, and a status written for IPv6 is false |
| SubnetController.StatusIsTruthful | pkg/controller/subnet_controller.go:130-157 | total, used and free are unions of whole blocks, all three divisions are exact, free is total without the used blocks |
| SubnetController.BlocksConserved | pkg/controller/subnet_controller.go:150-157 | free plus used-within-total is total; free plus used is total exactly when no used block is excluded |
| SubnetController.SubnetObject.CleanUp | pkg/controller/subnet_controller.go:178-218 | on a truthful status and a complete list the finalizer goes exactly when the subnet has neither block nor pool |
| PoolController.ParseRangesFromIPs | pkg/controller/util.go:27-34 | one unmerged address per name; fails exactly when a name does not parse |
| PoolController.PoolObject.Reconcile | pkg/controller/ippool_controller.go:104-137 | free is the ranges without the recorded addresses; counts are exact |
| PoolController.FreshStatusConsistent | pkg/controller/ippool_controller.go:104-126 | while addresses are housed the status of the current IPs is what scale-downs rely on |
| PoolController.CountsAddUpIff | pkg/controller/ippool_controller.go:116-126 | used plus free is total exactly when every recorded address is in the ranges |
| PoolController.CleanUpIPPool | pkg/controller/ippool_controller.go:146-178 | begins exactly if the status counts no address; blocks first, the finalizer last; no orphan block wherever it stops |
| PoolController.CleanUpIsFresh | pkg/controller/ippool_controller.go:151-158 | on a fresh status the clean-up starts exactly when no live IP belongs to the pool |
| Allocator.Get | pkg/ipam/allocator.go:86-118 | however it ends: no version exceeds the request, nothing is lost, every new record is at an address that the hash of its slot points at in a free list shown, a slot of its own each; refused without change for a dead pod, unreadable records or a smaller request; success means exactly the request, all recorded and different; with nothing in the way it succeeds exactly if the pools of the missing versions are ready, and each ready version is served in any case |
| Allocator.NeverTooMany | pkg/ipam/allocator.go:86-118 | over any sequence of calls, records vanishing or terminating in between, live IPs never exceed the request |
| Allocator.SuccessIsFinal | pkg/ipam/allocator.go:108-110 | after a success nothing is created any more and every success returns the same set |
| Allocator.RetrieveExistingIPs | pkg/ipam/allocator.go:197-270 | the missing counts and all recorded addresses, or why not: no label, unreadable name, too many |
| Allocator.Assign | pkg/ipam/allocator.go:273-369 | v4 and v6 workers interleave; each creates at most one record, at one of the two addresses its hash points at; success means all did; with nothing in the way every ready version is served; otherwise a failure takes six attempts |
| Allocator.SyncedIsPlenty | pkg/ipam/allocator.go:583-600 | nothing is in the way when the free lists shown are what is left of pools with more addresses than there are records in all and asked for |
| Allocator.Attempt | pkg/ipam/allocator.go:583-626 | tries the address at position hash mod size, then its cyclic successor; moves on only past taken names, gives up only in the sixth attempt, and gets the address if its name is free and no one interferes |
| Allocator.Aim | pkg/ipam/allocator.go:596-619 | the two addresses tried, in sorted order of the free list, size one included |
| Allocator.RecordedGains | pkg/ipam/allocator.go:340-368 | a new record adds one new address to the list returned |
| SubnetWebhook.TwoPointsSuffice | pkg/webhook/subnet_webhook.go:273-279 | the two-point containment test is exact for overlap, and prefixes that overlap nest |
| SubnetWebhook.SubnetResource.Mutate | pkg/webhook/subnet_webhook.go:141-178 | fills in family and a block of four addresses, changes nothing that is set |
| SubnetWebhook.SubnetResource.ValidateCIDR | pkg/webhook/subnet_webhook.go:236-282 | accepts exactly network addresses of the stated family that meet no other readable subnet; the fault is the first check that fails |
| SubnetWebhook.SubnetResource.ValidateExcluded | pkg/webhook/subnet_webhook.go:284-309 | accepts exactly ranges of the subnet's family and names the first that is none |
| SubnetWebhook.SubnetResource.ValidateBlockSize | pkg/webhook/subnet_webhook.go:311-337 | accepts exactly 26 to 31 or 122 to 127, not below the prefix length, and says which of it fails |
| SubnetWebhook.SubnetResource.ValidateSubnetSpec | pkg/webhook/subnet_webhook.go:208-222 | no fault exactly when all three checks pass |
| SubnetWebhook.AcceptedIsAdmitted | pkg/webhook/subnet_webhook.go:208-222 | an accepted spec is what the controllers rely on |
| SubnetWebhook.SubnetResource.ValidateSubnetFreeze | pkg/webhook/subnet_webhook.go:224-234 | no fault exactly when family and block size are set and unchanged; runs into an unset field exactly when either object lacks one |
| SubnetWebhook.SubnetResource.ValidateIPInUse | pkg/webhook/subnet_webhook.go:339-374 | accepts exactly an unchanged text, or a ready subnet all of whose given-up addresses are free |
| SubnetWebhook.SubnetResource.ValidateUpdate | pkg/webhook/subnet_webhook.go:192-206 | no fault exactly when freeze, spec and use checks pass |
| SubnetWebhook.SubnetResource.Update | pkg/webhook/subnet_webhook.go:102-178 | defaults and checks in a row: a terminating subnet passes exactly without finalizer; otherwise the checks run into an unset field exactly if the stored object lacks one or no family is given and the CIDR does not parse |
| SubnetWebhook.UndefaultedUpdate | pkg/webhook/subnet_webhook.go:151-156 | one such request: no family and an empty CIDR for a stored subnet that has both fields |
| SubnetWebhook.UsedBlocksSurvive | pkg/webhook/subnet_webhook.go:192-206 | an update let through under a fresh status keeps every block in use: inside the new prefix, same grid, same name |
| SubnetWebhook.AdmissionKeepsApart | pkg/webhook/subnet_webhook.go:256-279 | serialized admission keeps all subnets disjoint |
| Names.IPRoundTripIff | pkg/net/ip.go:33-97 | an IP name decodes to its address, appended zero or not, exactly if it is no IPv4-mapped IPv6 address |
| Names.CIDRRoundTripIff | pkg/net/cidr.go:29-96 | a CIDR name decodes to its very text exactly if the prefix is not IPv4-mapped |
| FamilyNames.AllDashes | pkg/net/ip.go:33-37 | the replacement limits 3 and 7 suffice |
| FamilyNames.CIDRNameShape | pkg/net/cidr.go:29-35 | so do 3, 7 and 1: the name is the address with dashes, a dash and the prefix length |
| Names.IPNamesEqualIff | pkg/net/ip.go:33-44 | names are equal exactly for the same address, an IPv4-mapped one counting as the IPv4 address, within and across families |
| Names.CIDRNamesEqualIff | pkg/net/cidr.go:29-35 | likewise for prefixes: equal names mean the same base and length, within and across families |
| Names.ComputedRoundTripIff | vendor/github.com/iiiceoo/iprange/ip.go:36-84 | the name of a computed address decodes to it exactly if its first byte is not zero |
| Names.BlockRoundTripIff | vendor/github.com/iiiceoo/iprange/range.go:134-160 | an aligned block of at least two computed addresses is read back from its name exactly if its first byte is not zero |
| Spelling.IPNameSpells | pkg/net/ip.go:33-44 | the name of every address is its text with dashes for separators, and a zero behind it exactly if the text ends in two colons; so it does not end in a dash |
| Spelling.ComputedNameSpells | pkg/net/ip.go:33-44 | so is the name of every computed address that kept its bytes |
| Spelling.BlockNameSpells | pkg/net/cidr.go:29-35 | a computed block is named by its first address with dashes, a dash and the prefix length |
| Spelling.MappedIff | pkg/net/ip.go:33-34 | IPv4-mapped are exactly the IPv6 addresses whose upper 96 bits are 0xffff, and they print as the IPv4 address in the last 32 |
| Spelling.MappedCIDRText | pkg/net/cidr.go:29-35 | an IPv4-mapped prefix prints as the IPv4 prefix of its last 32 bits |
| Texts.V4Reads | pkg/net/ip.go:67-79 | dotted decimal texts are read back |
| Spelling.V4ReadsIff | pkg/net/ip.go:67-79 | dotted decimal is read strictly: exactly the text that the address prints as |
| Spelling.V4Spelled | pkg/net/ip.go:33-36 | an IPv4 address prints as its four bytes in decimal, highest first |
| Texts.V6Reads | pkg/net/ip.go:38-43 | compressed IPv6 texts are read back, and with a zero behind a trailing double colon |
| Spelling.V6Spelled | pkg/net/ip.go:37-43 | an IPv6 address prints as its eight groups in hexadecimal, the first of the longest zero runs of at least two groups left out |
| Spelling.NumeralChars | pkg/net/ip.go:33-43 | numerals consist of decimal digits and lower-case letters |
| Spelling.V6Bounded | pkg/net/ip.go:67-79 | whatever is read as an IPv6 address is below 2^128 |
| Spelling.DoubleRefused | pkg/net/ip.go:67-79 | a double colon that would stand for no group is refused |
| StsGC.Collect | pkg/controller/sts_gc_controller.go:118-148 | deletes exactly the addresses of listed pods that are gone, with one call per pod, for any order and repeats; a failed run deletes no others |
| StsGC.ExactlyRunningRemain | pkg/controller/sts_gc_controller.go:118-148 | with a complete list exactly the addresses of running pods remain |
| StsGC.OrdinalInverts | pkg/controller/sts_gc_controller.go:190-208 | the ordinal of `name-n` is n for every name and every n below 2^31, beyond that an error |
| StsGC.OrdinalIff | pkg/controller/sts_gc_controller.go:190-208 | an ordinal is read exactly from names that end in a dash and a number below 2^31 |
| StsGC.GoneIff | pkg/controller/sts_gc_controller.go:169-188 | collected are exactly the ordinals from start + replicas on, the start being 0 and the replicas 1 if not set |
| StsGC.IsRunningSTSPod | pkg/controller/sts_gc_controller.go:169-188 | pod n of a set of any name is to run exactly if n is below start + replicas, and an ordinal from 2^31 on is an error |
| RangeObjects.IPRanges.Merge | vendor/github.com/iiiceoo/iprange/ranges.go:167-203 | in place: ordered, disjoint, with gaps, same addresses |
| RangeObjects.IPRanges.Union | vendor/github.com/iiiceoo/iprange/ranges.go:231-238 | in place: the union, if the families agree |
| RangeObjects.IPRanges.Diff | vendor/github.com/iiiceoo/iprange/ranges.go:245-325 | in place: the difference, if the families agree |
| RangeObjects.IPRanges.Intersect | vendor/github.com/iiiceoo/iprange/ranges.go:332-370 | the intersection, empty if the families differ; early exits leave the receiver alone |
| RangeObjects.IPRanges.Slice | vendor/github.com/iiiceoo/iprange/ranges.go:373-448 | a new object with the addresses at the given positions, negative ones from the back |
| RangeObjects.IPRanges.Count | vendor/github.com/iiiceoo/iprange/ranges.go:156-163 | the number of addresses listed |
| RangeObjects.DiffSorted | vendor/github.com/iiiceoo/iprange/ranges.go:255-320 | the sweep computes the recursive difference |
| RangeObjects.IntersectSorted | vendor/github.com/iiiceoo/iprange/ranges.go:346-366 | the sweep computes the recursive intersection |
| RangeObjects.CutSorted | vendor/github.com/iiiceoo/iprange/ranges.go:403-444 | the loop computes the recursive slice |
| RangeObjects.FoldSorted | vendor/github.com/iiiceoo/iprange/ranges.go:176-199 | the loop computes the recursive fold of a sorted list |
| Ranges.MergeMerges | vendor/github.com/iiiceoo/iprange/ranges.go:165-203 | the recursive merge is merged and has the same addresses |
| Ranges.DiffRemoves | vendor/github.com/iiiceoo/iprange/ranges.go:240-325 | the recursive difference is merged and has exactly the addresses of the first list only |
| Ranges.IntersectMeets | vendor/github.com/iiiceoo/iprange/ranges.go:327-370 | the recursive intersection is merged and has exactly the common addresses |
| Ranges.CutIsWindow | vendor/github.com/iiiceoo/iprange/ranges.go:403-444 | the recursive slice enumerates the given positions |
| Ranges.MergedCanonical | vendor/github.com/iiiceoo/iprange/ranges.go:165-203 | the merged form is determined by its addresses |
| Iterators.IPIterator.NextN | vendor/github.com/iiiceoo/iprange/iterator.go:57-106 | delivers the n-th next address, or nil at the end; under way, from a merged list, exactly if it lies in the range under way or the next |
| Iterators.IPIterator.Next | vendor/github.com/iiiceoo/iprange/iterator.go:24-53 | delivers the next address, or nil at the end |
| Iterators.BlockIterator.NextN | vendor/github.com/iiiceoo/iprange/iterator.go:160-185 | delivers the n-th next block, fresh or under way |
| Iterators.BlockIterator.Next | vendor/github.com/iiiceoo/iprange/iterator.go:138-156 | delivers the next block, or nil at the end |
| Iterators.CIDRIterator.Next | vendor/github.com/iiiceoo/iprange/iterator.go:220-254 | splits one aligned CIDR off what is pending, the largest that fits, and loses no address |
| IPBytes.IntRoundTrip | vendor/github.com/iiiceoo/iprange/ip.go:77-84 | bytes of a number give the number back |
| IPBytes.ExactIff | vendor/github.com/iiiceoo/iprange/ip.go:36-54 | a computed address has its family's length exactly if its top byte is not zero and it does not overflow |
| IPBytes.CIDRStringExactIff | vendor/github.com/iiiceoo/iprange/iterator.go:241-254 | the text of a computed prefix names it exactly if the first byte is not zero; an IPv4 one is unreadable otherwise |
| IPBytes.LowCIDRString | vendor/github.com/iiiceoo/iprange/iterator.go:241-254 | below it an IPv6 prefix passes for an IPv4 one exactly if four bytes are left, with the last 32 mask bits |
| Grid.BlocksExact | pkg/controller/subnet_controller.go:143-157 | a union of blocks has an exact number of blocks, listed upwards |
| Grid.BlockAt | vendor/github.com/iiiceoo/iprange/iterator.go:160-175 | positions k * step to k * step + step - 1 of a union of blocks are its k-th block |
| Grid.EveryBlockMet | pkg/controller/ippoolclaim_controller.go:455-458 | addresses that leave fewer than step positions of n blocks out touch every block |
| Grid.SpaceExact | pkg/controller/ippoolclaim_controller.go:483-484 | all addresses of n blocks number n * step |
| Subnets.GridIsCidr | pkg/webhook/subnet_webhook.go:327-334 | an address lies in the CIDR exactly when its block number lies in the grid |
| Subnets.ParseRangesFromIPBlocks | pkg/controller/util.go:37-44 | names of blocks give their ranges, in order and unmerged; fails exactly when a name does not parse |

## Left out

- ClaimReconciler.Reconcile: the poll for the owner, the finalizer of the claim and events are left out; a missing subnet status, on which the code would panic for an existing pool, ends the reconcile; poolSize is not truncated to 32 bits, which pool sizes do not reach.
- Convergence.GrowInRounds: assumes a fresh subnet status before each round, exclusions that print if they meet the CIDR, no rival and no failures but taken names; how long a requeue waits is left out.
- ClaimController.ClaimIPBlocks: both targets of a worker are computed before the calls; they depend on the free list alone, which does not change during a round.
- Allocator.Get: pod liveness and workload lookup are a parameter, as is whether a ready pool was found for a version; waiting and back-off times are left out, the six attempts are not.
- PoolController.CleanUpIPPool: the moment the clean-up finds the pool unused is an event of its own, so that assumptions about races can be stated.
- Names.ComputedRoundTripIff: models the addresses the program computes. The first address of a parsed range keeps its bytes, so the names of a low subnet's very first block and address are better than stated; all others are as stated.
- Names.BlockRoundTripIff: likewise.
- Texts.V6Reads: the reader covers hexadecimal groups and a double colon; zones and dotted tails are left out.
- A failed call on pools and blocks is taken to have had no effect; for IP records a failed create may have taken effect.
- Subnet selection for a claim whose pool lives in another subnet: the state machine is that of one subnet.
- FreshRuns.FreshRunHoused: says nothing of runs on outdated statuses, apart from the runs shown to fail; which of those the informers' delay admits is not modelled.
- Allocator.Assign: all workers of one family decode into the same pool object at once (`pkg/ipam/allocator.go:344` and `584-589`); the model gives each a private read.
- Allocator.Attempt: a worker's read of the free list and its first create call are one step as far as the other workers of the same call are concerned; a view of any age stands for what they write in between.
- Allocator.Get: records of the pod that others delete or mark while a call is under way are left out; between calls they are not (`Allocator.NeverTooMany`).
- RangeObjects.IPRanges.Merge: compares integers, so the library's comparison of a computed address with no bytes as 0 is not modelled; it could matter only for unmerged lists with ranges at the family's first address.
- Concurrent admission of subnets, and CIDR edits that race with block claims.
- Error classification and aggregation, events, logging, metrics, the FNV hash, client, informers, queues, finalizer and owner-reference plumbing.
- Workload lookup, claim parsing, pod liveness and the pod collector's time check: simple branch readings.
