/** Downloading the deposit log block range by block range, with failures and restarts in between. */
module Eth1Downloads {
  import opened Results
  import opened Arithmetic
  import opened OrderedMap
  import opened Database
  import opened DepositTree
  import opened MerkleTree
  import opened Eth1Blocks
  import opened Eth1Cache
  import opened Eth1Deposits

  const DEPOSIT_BATCH_SIZE: nat := 1000

  // --- The log -----------------------------------------------------------------------------------

  /** A deposit and the block it was made in. The index of a deposit is its position in the log. */
  datatype LogEntry<T> = LogEntry(block: nat, data: T)

  ghost predicate IsLog<T>(log: seq<LogEntry<T>>) {
    |log| <= MAX_DEPOSITS && forall i, j | 0 <= i < j < |log| :: log[i].block <= log[j].block
  }

  function DataOf<T>(log: seq<LogEntry<T>>): (r: seq<T>)
    ensures |r| == |log|
  {
    seq(|log|, i requires 0 <= i < |log| => log[i].data)
  }

  /** The number of deposits made up to a block. */
  function UpTo<T>(log: seq<LogEntry<T>>, block: nat): (r: nat)
    ensures r <= |log|
  {
    if log == [] then 0
    else if log[|log| - 1].block <= block then |log|
    else UpTo(log[..|log| - 1], block)
  }

  lemma {:induction false} UpToSplits<T>(log: seq<LogEntry<T>>, block: nat)
    requires IsLog(log)
    ensures forall i | 0 <= i < |log| :: log[i].block <= block <==> i < UpTo(log, block)
  {
    hide Pow2;
    if log != [] && log[|log| - 1].block > block {
      UpToSplits(log[..|log| - 1], block);
      assert forall i | 0 <= i < |log| - 1 :: log[..|log| - 1][i] == log[i];
    }
  }

  lemma UpToGrows<T>(log: seq<LogEntry<T>>, a: nat, b: nat)
    requires IsLog(log) && a <= b
    ensures UpTo(log, a) <= UpTo(log, b)
  {
    hide UpTo, Pow2;
    UpToSplits(log, a);
    UpToSplits(log, b);
    if UpTo(log, a) > 0 {
      assert log[UpTo(log, a) - 1].block <= a <= b;
    }
  }

  /** The events that the API returns for a range of blocks: those of the log, in any order. */
  ghost predicate IsAnswer<T>(events: seq<DepositEvent<T>>, log: seq<LogEntry<T>>, from: nat, to: nat) {
    && (forall i | 0 <= i < |events| ::
          && events[i].index < |log| && events[i].data == log[events[i].index].data
          && from <= log[events[i].index].block <= to)
    && (forall j: nat | j < |log| && from <= log[j].block <= to :: HasIndex(events, j))
  }

  lemma AnswerIsFromLog<T>(events: seq<DepositEvent<T>>, log: seq<LogEntry<T>>, from: nat, to: nat)
    requires IsAnswer(events, log, from, to)
    ensures FromLog(events, DataOf(log))
  {
  }

  lemma AnswerIndices<T>(events: seq<DepositEvent<T>>, log: seq<LogEntry<T>>, before: nat, to: nat)
    requires IsLog(log) && IsAnswer(events, log, before + 1, to)
    ensures forall j: nat :: HasIndex(events, j) <==> UpTo(log, before) <= j < UpTo(log, to)
  {
    hide UpTo, Pow2;
    UpToSplits(log, before);
    UpToSplits(log, to);
  }

  /** A tree that has all deposits before the range gets those of the range. One that lacks an earlier deposit gets
      none, and is then accepted exactly when the range has none. */
  lemma BatchOutcome<T>(events: seq<DepositEvent<T>>, log: seq<LogEntry<T>>, before: nat, to: nat, count: nat)
    requires IsLog(log) && before < to && IsAnswer(events, log, before + 1, to) && count <= UpTo(log, before)
    ensures count == UpTo(log, before) ==> NoGap(events, count) && NextMissing(events, count) == UpTo(log, to)
    ensures count < UpTo(log, before) ==>
      NextMissing(events, count) == count && (NoGap(events, count) <==> UpTo(log, before) == UpTo(log, to))
  {
    hide UpTo, Pow2, IsAnswer, NextMissing;
    UpToGrows(log, before, to);
    AnswerIndices(events, log, before, to);
    EventsHaveIndices(events);
    if count == UpTo(log, before) {
      NextMissingIs(events, count, UpTo(log, to));
    } else {
      NextMissingIs(events, count, count);
      if UpTo(log, before) < UpTo(log, to) {
        assert HasIndex(events, UpTo(log, before)) && !HasIndex(events, count);
        var i :| 0 <= i < |events| && events[i].index == UpTo(log, before);
      }
    }
  }

  lemma EventsHaveIndices<T>(events: seq<DepositEvent<T>>)
    ensures forall i | 0 <= i < |events| :: HasIndex(events, events[i].index)
  {
  }

  // --- One download ------------------------------------------------------------------------------

  /** The tree holds exactly the deposits of the blocks up to its last added one. */
  predicate IsComplete<T>(log: seq<LogEntry<T>>, progress: Progress) {
    progress.depositCount == UpTo(log, progress.lastAddedBlockNumber)
  }

  /** The block after which the next download starts. */
  function StartAfter(progress: Progress, earliest: nat): nat {
    Max(progress.lastAddedBlockNumber, earliest)
  }

  /** Some deposit that the tree lacks lies in a block that no download asks for. */
  predicate IsStuck<T>(log: seq<LogEntry<T>>, earliest: nat, progress: Progress) {
    progress.depositCount < UpTo(log, StartAfter(progress, earliest))
  }

  predicate IsOnTrack<T>(log: seq<LogEntry<T>>, earliest: nat, progress: Progress) {
    progress.depositCount == UpTo(log, StartAfter(progress, earliest))
  }

  /** A deposit was made after the last added block, but not after the first block that can be asked for. */
  predicate Skips<T>(log: seq<LogEntry<T>>, earliest: nat, progress: Progress) {
    UpTo(log, progress.lastAddedBlockNumber) < UpTo(log, earliest)
  }

  /** What is stuck is decided by a deposit that lies in the skipped blocks. */
  lemma StuckExactlyWhenSkipping<T>(log: seq<LogEntry<T>>, earliest: nat, progress: Progress)
    requires IsLog(log) && IsComplete(log, progress)
    ensures IsStuck(log, earliest, progress) <==> Skips(log, earliest, progress)
    ensures IsOnTrack(log, earliest, progress) <==> !Skips(log, earliest, progress)
    ensures Skips(log, earliest, progress) <==>
      exists i :: 0 <= i < |log| && progress.lastAddedBlockNumber < log[i].block <= earliest
  {
    hide UpTo, Pow2;
    var last := progress.lastAddedBlockNumber;
    UpToGrows(log, Min(last, earliest), Max(last, earliest));
    UpToSplits(log, last);
    UpToSplits(log, earliest);
    if Skips(log, earliest, progress) {
      assert last < log[UpTo(log, last)].block <= earliest;
    }
  }

  /** On track means complete, once a download has gone through. */
  lemma OnTrackIsComplete<T>(log: seq<LogEntry<T>>, earliest: nat, progress: Progress)
    requires earliest <= progress.lastAddedBlockNumber
    ensures IsOnTrack(log, earliest, progress) <==> IsComplete(log, progress)
    ensures IsStuck(log, earliest, progress) ==> !IsComplete(log, progress)
  {
  }

  function LastOfDeposits(from: nat, latest: nat): (r: nat)
    requires from <= latest < U64_MAX
    ensures from <= r <= latest
  {
    Min(latest, SaturatingSub(SaturatingAdd(from, DEPOSIT_BATCH_SIZE), 1))
  }

  /** What the API answers to the request that starts at a block: an error, or the events of the log. */
  type Responses<!T> = nat -> Option<seq<DepositEvent<T>>>

  ghost predicate AnswersFromLog<T>(log: seq<LogEntry<T>>, latest: nat, responses: Responses<T>)
    requires latest < U64_MAX
  {
    forall from: nat | from <= latest && responses(from).Some? ::
      IsAnswer(responses(from).value, log, from, LastOfDeposits(from, latest))
  }

  lemma AnswerAt<T>(log: seq<LogEntry<T>>, latest: nat, responses: Responses<T>, from: nat)
    requires latest < U64_MAX && AnswersFromLog(log, latest, responses) && from <= latest && responses(from).Some?
    ensures IsAnswer(responses(from).value, log, from, LastOfDeposits(from, latest))
    ensures FromLog(responses(from).value, DataOf(log))
  {
    AnswerIsFromLog(responses(from).value, log, from, LastOfDeposits(from, latest));
  }

  /** What a download makes of the progress of a tree that is on track or stuck. */
  ghost predicate Advances<T>(log: seq<LogEntry<T>>, earliest: nat, latest: nat, before: Progress, after: Progress) {
    && (IsOnTrack(log, earliest, before) ==> IsOnTrack(log, earliest, after))
    && (IsStuck(log, earliest, before) ==>
          IsStuck(log, earliest, after) && after.depositCount == before.depositCount)
    && (after == before || StartAfter(before, earliest) < after.lastAddedBlockNumber <= latest)
  }

  /** A cache whose tree in memory is the persisted one. */
  ghost predicate InSync<T>(cache: Eth1Cache<T>)
    reads cache, cache.depositTree
  {
    && cache.persistedDeposits == cache.depositTree.deposits
    && cache.persisted.lastAddedBlockNumber == cache.depositTree.lastAddedBlockNumber
  }

  ghost function ProgressIn<T>(cache: Eth1Cache<T>): Progress
    reads cache, cache.depositTree
  {
    Progress(|cache.depositTree.deposits|, cache.depositTree.lastAddedBlockNumber)
  }

  /** `download_and_store_deposits`. A tree on track stays so and ends at the latest block if every request is answered.
      A stuck one never gets another deposit, although its last added block may move on. */
  method DownloadAndStoreDeposits<T>(
    cache: Eth1Cache<T>, earliest: nat, latest: nat, responses: Responses<T>, ghost log: seq<LogEntry<T>>)
    returns (r: Option<nat>)
    requires cache.Valid() && InSync(cache) && cache.depositTree.deposits <= DataOf(log)
    requires latest < U64_MAX && StartAfter(ProgressIn(cache), earliest) < U64_MAX
    requires IsLog(log) && AnswersFromLog(log, latest, responses)
    requires ProgressIn(cache).depositCount <= UpTo(log, StartAfter(ProgressIn(cache), earliest))
    modifies cache, cache.database, cache.depositTree
    modifies cache.depositTree.merkleTree, cache.depositTree.merkleTree.siblings
    ensures cache.Valid() && InSync(cache) && cache.depositTree.deposits <= DataOf(log)
    ensures Advances(log, earliest, latest, old(ProgressIn(cache)), ProgressIn(cache))
    ensures r.Some? ==> r.value == StartAfter(ProgressIn(cache), earliest)
    ensures var before := old(ProgressIn(cache));
      var start := StartAfter(before, earliest);
      && (r.None? ==> exists k: nat :: start < k <= latest && responses(k).None?)
      && (r.Some? && start < latest && (IsOnTrack(log, earliest, before) || UpTo(log, start) == UpTo(log, latest)) ==>
            ProgressIn(cache).lastAddedBlockNumber == latest)
  {
    hide Eth1Cache.Valid, UpTo, Pow2, IsAnswer, AnswersFromLog, FromLog, NoGap, NextMissing, IsSnapshotOf, IsLog;
    var tree := cache.GetDepositTree();
    ghost var before := ProgressIn(cache);
    var start := Max(tree.value.lastAddedBlockNumber, earliest);
    var fromBlock := SaturatingAdd(start, 1);
    ghost var onTrack := IsOnTrack(log, earliest, before);
    while fromBlock <= latest
      invariant cache.Valid() && InSync(cache) && cache.depositTree.deposits <= DataOf(log)
      invariant start < fromBlock <= Max(start, latest) + 1
      invariant if fromBlock == start + 1 then ProgressIn(cache) == before
        else ProgressIn(cache).lastAddedBlockNumber == fromBlock - 1
      invariant if onTrack then ProgressIn(cache).depositCount == UpTo(log, fromBlock - 1)
        else ProgressIn(cache).depositCount == before.depositCount < UpTo(log, fromBlock - 1)
      decreases latest + 1 - fromBlock
    {
      var toBlock := LastOfDeposits(fromBlock, latest);
      var events := responses(fromBlock);
      if events.None? {
        return None;
      }
      AnswerAt(log, latest, responses, fromBlock);
      BatchOutcome(events.value, log, fromBlock - 1, toBlock, |cache.depositTree.deposits|);
      UpToBetween(log, start, fromBlock - 1, toBlock, latest);
      var error := cache.AddDeposits(events.value, toBlock, DataOf(log));
      if error.Some? {
        break;
      }
      fromBlock := SaturatingAdd(toBlock, 1);
    }
    r := Some(SaturatingSub(fromBlock, 1));
  }

  /** If nothing happens up to the latest block, nothing happens in between. */
  lemma UpToBetween<T>(log: seq<LogEntry<T>>, start: nat, before: nat, to: nat, latest: nat)
    requires IsLog(log) && start <= before <= to <= latest
    ensures UpTo(log, start) <= UpTo(log, before) <= UpTo(log, to) <= UpTo(log, latest)
  {
    UpToGrows(log, start, before);
    UpToGrows(log, before, to);
    UpToGrows(log, to, latest);
  }

  // --- Whole runs --------------------------------------------------------------------------------

  datatype DownloadCall<!T> = Download(latest: nat, responses: Responses<T>) | Restarted

  ghost predicate IsCall<T>(log: seq<LogEntry<T>>, call: DownloadCall<T>) {
    call.Download? ==> call.latest < U64_MAX && AnswersFromLog(log, call.latest, call.responses)
  }

  /** Over any number of downloads, answered or not, and restarts: the blocks asked for never go back, a tree on track
      stays so, and a stuck one never gets another deposit. */
  ghost predicate HasAdvanced<T>(log: seq<LogEntry<T>>, earliest: nat, start: Progress, now: Progress) {
    && (IsOnTrack(log, earliest, start) ==> IsOnTrack(log, earliest, now))
    && (IsStuck(log, earliest, start) ==> IsStuck(log, earliest, now) && now.depositCount == start.depositCount)
    && (now == start || StartAfter(start, earliest) < now.lastAddedBlockNumber)
  }

  /** What a call makes of the progress. If every request is answered and the tree is on track, or nothing happens up to
      the latest block, the tree ends there. */
  ghost predicate IsDownloadStep<T>(
    log: seq<LogEntry<T>>, earliest: nat, before: Progress, call: DownloadCall<T>, after: Progress)
  {
    match call
    case Restarted => after == before
    case Download(latest, responses) =>
      var start := StartAfter(before, earliest);
      && Advances(log, earliest, latest, before, after)
      && ((forall k: nat | start < k <= latest :: responses(k).Some?) && start < latest
          && (IsOnTrack(log, earliest, before) || UpTo(log, start) == UpTo(log, latest)) ==>
            after.lastAddedBlockNumber == latest)
  }

  lemma AdvancesOnce<T>(
    log: seq<LogEntry<T>>, earliest: nat, latest: nat, start: Progress, before: Progress, after: Progress)
    requires HasAdvanced(log, earliest, start, before) && Advances(log, earliest, latest, before, after)
    ensures HasAdvanced(log, earliest, start, after)
  {
    hide UpTo;
  }

  /** The tree holds exactly the deposits up to its last added block if and only if no deposit was skipped at the start,
      or nothing has been added since. */
  lemma CompleteExactlyWhen<T>(log: seq<LogEntry<T>>, earliest: nat, start: Progress, now: Progress)
    requires IsLog(log) && IsComplete(log, start) && HasAdvanced(log, earliest, start, now)
    ensures IsComplete(log, now) <==>
      !Skips(log, earliest, start) || now.lastAddedBlockNumber == start.lastAddedBlockNumber
    ensures Skips(log, earliest, start) ==> now.depositCount == start.depositCount
  {
    hide UpTo, Pow2;
    StuckExactlyWhenSkipping(log, earliest, start);
    if now != start {
      OnTrackIsComplete(log, earliest, now);
    }
  }

  /** Runs downloads and restarts from the default tree, which has all deposits up to its last added block. The
      persisted tree is at every end that of a prefix of the log, and it is complete if and only if no deposit lies
      between the start and the first block that can be asked for, or nothing was ever added. */
  method RunDownloads<T>(
    hash: Hash, leafOf: T -> Chunk, defaultTree: Option<Snapshot>, earliest: nat, calls: seq<DownloadCall<T>>,
    ghost log: seq<LogEntry<T>>)
    returns (stored: Snapshot, ghost trail: seq<Progress>)
    requires IsLog(log) && IsComplete(log, StartOf(defaultTree)) && StartAfter(StartOf(defaultTree), earliest) < U64_MAX
    requires defaultTree.Some? ==>
      IsSnapshotOf(defaultTree.value, hash, leafOf, DataOf(log)[..defaultTree.value.depositCount])
    requires forall i | 0 <= i < |calls| :: IsCall(log, calls[i])
    ensures stored.depositCount <= |log|
    ensures IsSnapshotOf(stored, hash, leafOf, DataOf(log)[..stored.depositCount])
    ensures HasAdvanced(log, earliest, StartOf(defaultTree), ProgressOf(stored))
    ensures |trail| == |calls| + 1 && trail[0] == StartOf(defaultTree) && trail[|calls|] == ProgressOf(stored)
    ensures forall n | 0 <= n < |calls| :: IsDownloadStep(log, earliest, trail[n], calls[n], trail[n + 1])
    ensures IsComplete(log, ProgressOf(stored)) <==>
      || !Skips(log, earliest, StartOf(defaultTree))
      || stored.lastAddedBlockNumber == StartOf(defaultTree).lastAddedBlockNumber
  {
    hide Holds, Lists, Tree.Valid, IsSnapshotOf, DepositTree.Valid, StoresSiblings, UpTo, Pow2, IsLog, HasAdvanced;
    hide Advances, AnswersFromLog, IsDownloadStep;
    ghost var start := StartOf(defaultTree);
    var database := new Persistent<Stored>();
    NothingStored();
    var cache := new Eth1Cache<T>(
      database, hash, leafOf, defaultTree, map[], None, DataOf(log)[..StartOf(defaultTree).depositCount]);
    NotYetAdvanced(log, earliest, start);
    trail := [start];
    SnapshotCounts(cache.persisted, hash, leafOf, cache.persistedDeposits);
    for n := 0 to |calls|
      invariant cache.Valid() && InSync(cache) && cache.database == database
      invariant cache.depositTree.deposits <= DataOf(log)
      invariant cache.depositTree.leafOf == leafOf && cache.depositTree.merkleTree.hash == hash
      invariant fresh(database) && fresh(cache) && fresh(cache.depositTree)
      invariant fresh(cache.depositTree.merkleTree) && fresh(cache.depositTree.merkleTree.siblings)
      invariant |trail| == n + 1 && trail[0] == start && trail[n] == ProgressIn(cache)
      invariant forall i | 0 <= i < n :: IsDownloadStep(log, earliest, trail[i], calls[i], trail[i + 1])
      invariant HasAdvanced(log, earliest, start, ProgressIn(cache))
      invariant StartAfter(ProgressIn(cache), earliest) < U64_MAX
    {
      match calls[n]
      case Download(latest, responses) =>
        ghost var before := ProgressIn(cache);
        assert IsCall(log, calls[n]);
        NotAhead(log, earliest, start, before);
        var _ := DownloadAndStoreDeposits(cache, earliest, latest, responses, log);
        DownloadIsStep(log, earliest, before, latest, responses, ProgressIn(cache));
        trail := trail + [ProgressIn(cache)];
        AdvancesOnce(log, earliest, latest, start, before, ProgressIn(cache));
        StaysInU64(log, earliest, latest, before, ProgressIn(cache));
      case Restarted =>
        cache := new Eth1Cache<T>(
          database, hash, leafOf, defaultTree, cache.blocks, Some(cache.persisted), cache.persistedDeposits);
        RestartIsStep<T>(log, earliest, trail[n]);
        trail := trail + [trail[n]];
    }
    SnapshotCounts(cache.persisted, hash, leafOf, cache.persistedDeposits);
    var found := cache.GetDepositTree();
    stored := found.value;
    CompleteExactlyWhen(log, earliest, start, ProgressOf(stored));
    assert DataOf(log)[..stored.depositCount] == cache.persistedDeposits;
  }

  lemma DownloadIsStep<T>(
    log: seq<LogEntry<T>>, earliest: nat, before: Progress, latest: nat, responses: Responses<T>, after: Progress)
    requires Advances(log, earliest, latest, before, after)
    requires var start := StartAfter(before, earliest);
      || (exists k: nat :: start < k <= latest && responses(k).None?)
      || (start < latest && (IsOnTrack(log, earliest, before) || UpTo(log, start) == UpTo(log, latest)) ==>
            after.lastAddedBlockNumber == latest)
    ensures IsDownloadStep(log, earliest, before, Download(latest, responses), after)
  {
    hide Advances, UpTo;
  }

  lemma RestartIsStep<T>(log: seq<LogEntry<T>>, earliest: nat, progress: Progress)
    ensures IsDownloadStep(log, earliest, progress, Restarted, progress)
  {
  }

  lemma NotYetAdvanced<T>(log: seq<LogEntry<T>>, earliest: nat, start: Progress)
    ensures HasAdvanced(log, earliest, start, start)
  {
  }

  lemma NotAhead<T>(log: seq<LogEntry<T>>, earliest: nat, start: Progress, now: Progress)
    requires IsLog(log) && IsComplete(log, start) && HasAdvanced(log, earliest, start, now)
    ensures now.depositCount <= UpTo(log, StartAfter(now, earliest))
  {
    hide UpTo, Pow2;
    StuckExactlyWhenSkipping(log, earliest, start);
  }

  lemma StaysInU64<T>(log: seq<LogEntry<T>>, earliest: nat, latest: nat, before: Progress, after: Progress)
    requires Advances(log, earliest, latest, before, after) && latest < U64_MAX
    requires StartAfter(before, earliest) < U64_MAX
    ensures StartAfter(after, earliest) < U64_MAX
  {
    hide UpTo;
  }

  // --- The first deposit -------------------------------------------------------------------------

  /** A log with one deposit, in the first block with a log of the contract. Without a configured starting block that is
      the earliest block, and no download asks for it. */
  lemma FirstDepositIsSkipped<T>(data: T)
    ensures var log := [LogEntry(10, data)];
      && IsLog(log) && IsComplete(log, Progress(0, 0)) && Skips(log, 10, Progress(0, 0))
      && UpTo(log, 10) == UpTo(log, 1010) == 1
  {
    assert [LogEntry(10, data)][..0] == [];
    OneDepositFits();
  }

  lemma OneDepositFits()
    ensures 1 <= MAX_DEPOSITS
  {
    Pow2IsPositive(DEPTH);
  }

  lemma {:induction false} Pow2IsPositive(n: nat)
    ensures Pow2(n) > 0
  {
    if n > 0 {
      Pow2IsPositive(n - 1);
    }
  }

  /** Starting with the empty tree, a download of the thousand blocks after that one, with every request answered,
      succeeds. It persists an empty tree as if it had the deposits up to block 1010. */
  method DownloadAfterFirstDeposit<T>(hash: Hash, leafOf: T -> Chunk, data: T) returns (stored: Snapshot)
    ensures ProgressOf(stored) == Progress(0, 1010) && !IsComplete([LogEntry(10, data)], ProgressOf(stored))
  {
    hide Holds, Lists, Tree.Valid, DepositTree.Valid, UpTo, Pow2, IsLog, IsSnapshotOf, AnswersFromLog;
    ghost var log := [LogEntry(10, data)];
    FirstDepositIsSkipped(data);
    var responses: Responses<T> := (k: nat) => if k <= 10 then Some([DepositEvent(0, data)]) else Some([]);
    AnswersOfOneDeposit(data, responses);
    var database := new Persistent<Stored>();
    NothingStored();
    var cache := new Eth1Cache<T>(database, hash, leafOf, None, map[], None, []);
    var r := DownloadAndStoreDeposits(cache, 10, 1010, responses, log);
    assert r.Some?;
    SnapshotCounts(cache.persisted, hash, leafOf, cache.persistedDeposits);
    var found := cache.GetDepositTree();
    stored := found.value;
  }

  lemma AnswersOfOneDeposit<T>(data: T, responses: Responses<T>)
    requires forall k :: responses(k) == if k <= 10 then Some([DepositEvent(0, data)]) else Some([])
    ensures AnswersFromLog([LogEntry(10, data)], 1010, responses)
  {
    var log := [LogEntry(10, data)];
    forall from: nat | from <= 1010 ensures IsAnswer(responses(from).value, log, from, LastOfDeposits(from, 1010)) {
      if from <= 10 {
        assert [DepositEvent(0, data)][0].index == 0;
        assert HasIndex([DepositEvent(0, data)], 0);
      }
    }
  }
}
