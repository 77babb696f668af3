/** Whole runs of deposit additions, with restarts in between. */
module Eth1Deposits {
  import opened Results
  import BlockKeys
  import opened OrderedMap
  import opened Database
  import opened DepositTree
  import opened MerkleTree
  import opened Eth1Blocks
  import opened Eth1Cache

  datatype Call<T> = Add(events: seq<DepositEvent<T>>, blockNumber: nat) | Restart

  /** How far a tree has come: the number of its deposits and the last block whose deposits were all added. */
  datatype Progress = Progress(depositCount: nat, lastAddedBlockNumber: nat)

  /** The progress of the tree in memory and of the persisted one. */
  datatype Both = Both(memory: Progress, stored: Progress)

  function ProgressOf(snapshot: Snapshot): Progress {
    Progress(snapshot.depositCount, snapshot.lastAddedBlockNumber)
  }

  /** An addition takes the tree in memory up to the next missing deposit. Only if nothing is missing does the block
      number move, and the tree get persisted. */
  ghost function AfterCall<T>(both: Both, call: Call<T>): (r: Both) {
    match call
    case Restart => Both(both.stored, both.stored)
    case Add(events, blockNumber) =>
      var count := both.memory.depositCount;
      var added := NextMissing(events, count);
      if NoGap(events, count) then Both(Progress(added, blockNumber), Progress(added, blockNumber))
      else both.(memory := both.memory.(depositCount := added))
  }

  ghost function AfterCalls<T>(start: Progress, calls: seq<Call<T>>): (r: Both) {
    if calls == [] then Both(start, start)
    else AfterCall(AfterCalls(start, calls[..|calls| - 1]), calls[|calls| - 1])
  }

  /** What a call makes of the two trees. A restart brings the persisted one back. An addition appends the deposits up
      to the first one that the events lack. It is complete if no event is left over: only then are the block number
      taken and the tree persisted. */
  ghost predicate IsStep<T>(before: Both, call: Call<T>, after: Both) {
    match call
    case Restart => after.memory == before.stored && after.stored == before.stored
    case Add(events, blockNumber) =>
      var count, added := before.memory.depositCount, after.memory.depositCount;
      && count <= added && (count < added ==> added <= MAX_DEPOSITS)
      && (forall j: nat | count <= j < added :: HasIndex(events, j))
      && (added < MAX_DEPOSITS ==> !HasIndex(events, added))
      && if forall i | 0 <= i < |events| :: events[i].index < added
         then after.stored == after.memory && after.memory.lastAddedBlockNumber == blockNumber
         else after.stored == before.stored && after.memory.lastAddedBlockNumber == before.memory.lastAddedBlockNumber
  }

  lemma AfterCallMeans<T>(both: Both, call: Call<T>)
    ensures IsStep(both, call, AfterCall(both, call))
  {
    hide Pow2, NextMissing;
    if call.Add? {
      NextMissingMeans(call.events, both.memory.depositCount);
    }
  }

  function StartOf(defaultTree: Option<Snapshot>): Progress {
    if defaultTree.Some? then ProgressOf(defaultTree.value) else Progress(0, 0)
  }

  /** After any sequence of calls, failed or not, with repeated and overlapping events of one log and with restarts,
      the tree in memory and the persisted tree are the trees of prefixes of the log, exactly as long as the calls
      make them, the persisted one not being ahead. */
  method RunDeposits<T>(
    hash: Hash, leafOf: T -> Chunk, defaultTree: Option<Snapshot>, calls: seq<Call<T>>, ghost log: seq<T>)
    returns (tree: Snapshot, stored: Snapshot, ghost trail: seq<Both>)
    requires forall i | 0 <= i < |calls| && calls[i].Add? :: FromLog(calls[i].events, log)
    requires StartOf(defaultTree).depositCount <= |log|
    requires defaultTree.Some? ==> IsSnapshotOf(defaultTree.value, hash, leafOf, log[..defaultTree.value.depositCount])
    ensures stored.depositCount <= tree.depositCount <= |log|
    ensures IsSnapshotOf(tree, hash, leafOf, log[..tree.depositCount])
    ensures IsSnapshotOf(stored, hash, leafOf, log[..stored.depositCount])
    ensures Both(ProgressOf(tree), ProgressOf(stored)) == AfterCalls(StartOf(defaultTree), calls)
    ensures |trail| == |calls| + 1 && trail[0] == Both(StartOf(defaultTree), StartOf(defaultTree))
    ensures trail[|calls|] == Both(ProgressOf(tree), ProgressOf(stored))
    ensures forall n | 0 <= n < |calls| :: IsStep(trail[n], calls[n], trail[n + 1])
    ensures |calls| > 0 && calls[|calls| - 1].Restart? ==> tree == stored
  {
    hide Holds, Lists, Tree.Valid, IsSnapshotOf, FromLog, DepositTree.Valid, StoresSiblings, NextMissing, NoGap;
    hide AfterCalls, IsStep, HasIndex, Pow2;
    var database := new Persistent<Stored>();
    NothingStored();
    var cache := new Eth1Cache<T>(
      database, hash, leafOf, defaultTree, map[], None, log[..StartOf(defaultTree).depositCount]);
    NoCalls<T>(StartOf(defaultTree));
    for n := 0 to |calls|
      invariant cache.Valid() && cache.database == database && cache.depositTree.deposits <= log
      invariant cache.depositTree.leafOf == leafOf && cache.depositTree.merkleTree.hash == hash
      invariant fresh(database) && fresh(cache) && fresh(cache.depositTree)
      invariant fresh(cache.depositTree.merkleTree) && fresh(cache.depositTree.merkleTree.siblings)
      invariant cache.depositTree.Valid()
      invariant Both(ProgressOf(cache.depositTree.TakeSnapshot()), ProgressOf(cache.persisted)) ==
        AfterCalls(StartOf(defaultTree), calls[..n])
      invariant n > 0 && calls[n - 1].Restart? ==> cache.persisted == cache.depositTree.TakeSnapshot()
    {
      AfterCallsStep(StartOf(defaultTree), calls, n);
      CountIsLength(cache.depositTree);
      match calls[n]
      case Add(events, blockNumber) =>
        var _ := cache.AddDeposits(events, blockNumber, log);
        CountIsLength(cache.depositTree);
      case Restart =>
        cache := new Eth1Cache<T>(
          database, hash, leafOf, defaultTree, cache.blocks, Some(cache.persisted), cache.persistedDeposits);
    }
    trail := TrailOf(StartOf(defaultTree), calls);
    assert calls[..|calls|] == calls;
    CountIsLength(cache.depositTree);
    tree := cache.depositTree.TakeSnapshot();
    SnapshotCounts(cache.persisted, hash, leafOf, cache.persistedDeposits);
    TreeIsStored(database.contents, cache.blocks, Some(cache.persisted));
    var found := database.Get(BlockKeys.DEPOSIT_TREE_KEY);
    stored := found.value.tree;
    assert log[..tree.depositCount] == cache.depositTree.deposits;
    assert log[..stored.depositCount] == cache.persistedDeposits;
  }

  lemma NoCalls<T>(start: Progress)
    ensures AfterCalls<T>(start, []) == Both(start, start)
  {
  }

  lemma AfterCallsStep<T>(start: Progress, calls: seq<Call<T>>, n: nat)
    requires n < |calls|
    ensures AfterCalls(start, calls[..n + 1]) == AfterCall(AfterCalls(start, calls[..n]), calls[n])
  {
    hide AfterCall;
    assert calls[..n + 1][..n] == calls[..n];
  }

  lemma {:induction false} TrailOf<T>(start: Progress, calls: seq<Call<T>>) returns (trail: seq<Both>)
    ensures |trail| == |calls| + 1 && trail[0] == Both(start, start) && trail[|calls|] == AfterCalls(start, calls)
    ensures forall n | 0 <= n < |calls| :: IsStep(trail[n], calls[n], trail[n + 1])
  {
    hide IsStep, AfterCall;
    if calls == [] {
      trail := [Both(start, start)];
    } else {
      var n := |calls| - 1;
      var before := TrailOf(start, calls[..n]);
      AfterCallMeans(before[n], calls[n]);
      trail := before + [AfterCall(before[n], calls[n])];
      assert forall i | 0 <= i < n :: calls[..n][i] == calls[i];
    }
  }

  lemma NothingStored()
    ensures Holds(map[], map[], None)
  {
  }

  lemma SnapshotCounts<T>(snapshot: Snapshot, hash: Hash, leafOf: T -> Chunk, deposits: seq<T>)
    requires IsSnapshotOf(snapshot, hash, leafOf, deposits)
    ensures snapshot.depositCount == |deposits|
  {
  }
}
