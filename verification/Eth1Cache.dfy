/** The Eth1 cache: blocks and a deposit tree, kept in memory and in the database. */
module Eth1Cache {
  import opened Results
  import opened ByteOrder
  import opened OrderedMap
  import opened BlockKeys
  import opened Database
  import opened Eth1Blocks
  import opened DepositTree
  import opened MerkleTree

  datatype DepositEvent<T> = DepositEvent(index: nat, data: T)

  // --- Deposit events ----------------------------------------------------------------------------

  /** All events come from one deposit log. */
  ghost predicate FromLog<T>(events: seq<DepositEvent<T>>, log: seq<T>) {
    forall i | 0 <= i < |events| :: events[i].index < |log| && events[i].data == log[events[i].index]
  }

  ghost predicate HasIndex<T>(events: seq<DepositEvent<T>>, index: nat) {
    exists i :: 0 <= i < |events| && events[i].index == index
  }

  /** Nothing is missing between the deposits already there and the events, and everything fits the tree. */
  ghost predicate NoGap<T>(events: seq<DepositEvent<T>>, count: nat) {
    forall i | 0 <= i < |events| && events[i].index >= count ::
      events[i].index < MAX_DEPOSITS && forall j: nat | count <= j < events[i].index :: HasIndex(events, j)
  }

  /** The next deposit that neither the tree nor the events have, or the capacity of the tree. */
  ghost function NextMissing<T>(events: seq<DepositEvent<T>>, count: nat): (r: nat)
    ensures count <= r
    decreases MAX_DEPOSITS - count
  {
    if count < MAX_DEPOSITS && HasIndex(events, count) then NextMissing(events, count + 1) else count
  }

  lemma {:induction false} NextMissingIs<T>(events: seq<DepositEvent<T>>, count: nat, missing: nat)
    requires count <= missing && (count < missing ==> missing <= MAX_DEPOSITS)
    requires forall j: nat | count <= j < missing :: HasIndex(events, j)
    requires missing < MAX_DEPOSITS ==> !HasIndex(events, missing)
    ensures NextMissing(events, count) == missing
    decreases missing - count
  {
    hide HasIndex, Pow2;
    if count < missing {
      NextMissingIs(events, count + 1, missing);
    }
  }

  /** The events have everything up to the next missing deposit, and nothing is left over exactly when there is no
      gap. */
  lemma {:induction false} NextMissingMeans<T>(events: seq<DepositEvent<T>>, count: nat)
    ensures var missing := NextMissing(events, count);
      && (count < missing ==> missing <= MAX_DEPOSITS)
      && (forall j: nat | count <= j < missing :: HasIndex(events, j))
      && (missing < MAX_DEPOSITS ==> !HasIndex(events, missing))
      && (NoGap(events, count) <==> forall i | 0 <= i < |events| :: events[i].index < missing)
    decreases MAX_DEPOSITS - count
  {
    hide Pow2;
    if count < MAX_DEPOSITS && HasIndex(events, count) {
      NextMissingMeans(events, count + 1);
    }
  }

  ghost predicate SortedByIndex<T>(events: seq<DepositEvent<T>>) {
    forall i, j | 0 <= i < j < |events| :: events[i].index <= events[j].index
  }

  /** `sort_by_key`. */
  method SortByIndex<T>(events: seq<DepositEvent<T>>) returns (r: seq<DepositEvent<T>>)
    ensures SortedByIndex(r) && multiset(r) == multiset(events)
  {
    hide SortedByIndex;
    r := [];
    NothingUnsorted<T>();
    for n := 0 to |events|
      invariant SortedByIndex(r) && multiset(r) == multiset(events[..n])
    {
      var at: nat := |r|;
      while at > 0 && r[at - 1].index > events[n].index
        invariant at <= |r| && (at < |r| ==> r[at].index > events[n].index)
      {
        at := at - 1;
      }
      assert events[..n + 1] == events[..n] + [events[n]];
      InsertSorts(r, at, events[n]);
      r := r[..at] + [events[n]] + r[at..];
    }
    assert events[..|events|] == events;
  }

  lemma NothingUnsorted<T>()
    ensures SortedByIndex<T>([])
  {
  }

  lemma InsertSorts<T>(r: seq<DepositEvent<T>>, at: nat, event: DepositEvent<T>)
    requires SortedByIndex(r) && at <= |r|
    requires at > 0 ==> r[at - 1].index <= event.index
    requires at < |r| ==> event.index <= r[at].index
    ensures SortedByIndex(r[..at] + [event] + r[at..])
    ensures multiset(r[..at] + [event] + r[at..]) == multiset(r) + multiset{event}
  {
    hide SortedByIndex;
    InsertKeepsOrder(r, at, event);
    assert r == r[..at] + r[at..];
  }

  lemma InsertKeepsOrder<T>(r: seq<DepositEvent<T>>, at: nat, event: DepositEvent<T>)
    requires SortedByIndex(r) && at <= |r|
    requires at > 0 ==> r[at - 1].index <= event.index
    requires at < |r| ==> event.index <= r[at].index
    ensures SortedByIndex(r[..at] + [event] + r[at..])
  {
  }

  lemma SortedMeansSame<T>(events: seq<DepositEvent<T>>, sorted: seq<DepositEvent<T>>, log: seq<T>, count: nat)
    requires multiset(events) == multiset(sorted) && FromLog(events, log)
    ensures FromLog(sorted, log)
    ensures NoGap(sorted, count) <==> NoGap(events, count)
    ensures forall j: nat :: HasIndex(events, j) <==> HasIndex(sorted, j)
    ensures NextMissing(sorted, count) == NextMissing(events, count)
    ensures forall i | 0 <= i < |events| :: events[i] in sorted
  {
    assert forall i | 0 <= i < |sorted| :: sorted[i] in multiset(events);
    assert forall i | 0 <= i < |events| :: events[i] in multiset(sorted);
    forall j: nat ensures HasIndex(events, j) <==> HasIndex(sorted, j) {
    }
    SameMissing(events, sorted, count);
  }

  lemma {:induction false} SameMissing<T>(a: seq<DepositEvent<T>>, b: seq<DepositEvent<T>>, count: nat)
    requires forall j: nat :: HasIndex(a, j) <==> HasIndex(b, j)
    ensures NextMissing(a, count) == NextMissing(b, count)
    decreases MAX_DEPOSITS - count
  {
    hide HasIndex, Pow2;
    if count < MAX_DEPOSITS {
      SameMissing(a, b, count + 1);
    }
  }

  /** Sorted events that go past the next index leave a gap there. */
  lemma GapFound<T>(events: seq<DepositEvent<T>>, n: nat, before: nat, count: nat)
    requires SortedByIndex(events) && n < |events| && before <= count <= events[n].index
    requires forall i | 0 <= i < n :: events[i].index < count
    requires events[n].index >= MAX_DEPOSITS || events[n].index != count
    ensures !NoGap(events, before) && (count < MAX_DEPOSITS ==> !HasIndex(events, count))
  {
    hide Pow2;
    if events[n].index < MAX_DEPOSITS {
      assert !HasIndex(events, count);
    }
  }

  // --- The cache ---------------------------------------------------------------------------------

  class Eth1Cache<T> {
    const database: Persistent<Stored>
    const depositTree: DepositTree<T>
    // The blocks in the database, the deposit tree in the database, and the deposits of that tree.
    ghost var blocks: map<nat, Eth1Block>
    ghost var persisted: Snapshot
    ghost var persistedDeposits: seq<T>

    ghost predicate Valid()
      reads this, database, depositTree, depositTree.merkleTree, depositTree.merkleTree.siblings
    {
      && database.Valid() && depositTree.Valid()
      && Holds(database.contents, blocks, Some(persisted))
      && IsSnapshotOf(persisted, depositTree.merkleTree.hash, depositTree.leafOf, persistedDeposits)
      && persistedDeposits <= depositTree.deposits
    }

    /** Reads the deposit tree from the database, or stores the default tree there, which is empty unless one is
        given. After a restart the tree in memory is the one last persisted. */
    constructor (database: Persistent<Stored>, hash: Hash, leafOf: T -> Chunk, defaultTree: Option<Snapshot>,
                 ghost blocks: map<nat, Eth1Block>, ghost stored: Option<Snapshot>, ghost deposits: seq<T>)
      requires database.Valid() && Holds(database.contents, blocks, stored)
      requires if stored.Some? then IsSnapshotOf(stored.value, hash, leafOf, deposits)
               else if defaultTree.Some? then IsSnapshotOf(defaultTree.value, hash, leafOf, deposits)
               else deposits == []
      modifies database
      ensures Valid() && this.database == database && this.blocks == blocks
      ensures depositTree.deposits == persistedDeposits == deposits
      ensures fresh(depositTree) && fresh(depositTree.merkleTree) && fresh(depositTree.merkleTree.siblings)
      ensures persisted == depositTree.TakeSnapshot()
      ensures if stored.Some? then persisted == stored.value
              else if defaultTree.Some? then persisted == defaultTree.value
              else persisted.depositCount == persisted.lastAddedBlockNumber == 0
      ensures depositTree.leafOf == leafOf && depositTree.merkleTree.hash == hash
    {
      hide Holds, DepositTree.Valid, Lists, WithPairs;
      TreeIsStored(database.contents, blocks, stored);
      var found := database.Get(DEPOSIT_TREE_KEY);
      var tree;
      if found.Some? {
        tree := new DepositTree.Load(hash, leafOf, found.value.tree, deposits);
      } else {
        if defaultTree.Some? {
          tree := new DepositTree.Load(hash, leafOf, defaultTree.value, deposits);
        } else {
          tree := new DepositTree(hash, leafOf);
        }
        var snapshot := tree.TakeSnapshot();
        OnePair(database.contents, DEPOSIT_TREE_KEY, TreeValue(snapshot));
        HoldsPutTree(database.contents, blocks, stored, snapshot);
        database.PutBatch([Pair(DEPOSIT_TREE_KEY, TreeValue(snapshot))]);
      }
      this.database, depositTree := database, tree;
      this.blocks, persisted, persistedDeposits := blocks, tree.TakeSnapshot(), deposits;
    }

    /** Appends the deposits that the tree does not have yet. It succeeds exactly when none is missing in between;
        then the new tree is persisted. Either way the tree holds a prefix of the log, and a failed call leaves
        the persisted tree and the last added block number as they were. */
    method AddDeposits(events: seq<DepositEvent<T>>, blockNumber: nat, ghost log: seq<T>) returns (r: Option<Error>)
      requires Valid() && FromLog(events, log) && depositTree.deposits <= log
      modifies this, database, depositTree, depositTree.merkleTree, depositTree.merkleTree.siblings
      ensures Valid() && blocks == old(blocks) && old(depositTree.deposits) <= depositTree.deposits <= log
      ensures r.None? <==> NoGap(events, |old(depositTree.deposits)|)
      ensures |depositTree.deposits| == NextMissing(events, |old(depositTree.deposits)|)
      ensures r.None? ==>
        && depositTree.lastAddedBlockNumber == blockNumber
        && persisted == depositTree.TakeSnapshot() && persistedDeposits == depositTree.deposits
        && forall i | 0 <= i < |events| :: events[i].index < |depositTree.deposits|
      ensures r.Some? ==>
        && depositTree.lastAddedBlockNumber == old(depositTree.lastAddedBlockNumber)
        && persisted == old(persisted) && persistedDeposits == old(persistedDeposits)
        && database.contents == old(database.contents)
        && (|depositTree.deposits| < MAX_DEPOSITS ==> !HasIndex(events, |depositTree.deposits|))
    {
      hide Holds, Tree.Valid, Leaves, Lists, Pow2, FromLog, NoGap, HasIndex, NextMissing, IsSnapshotOf, WithPairs;
      var sorted := SortByIndex(events);
      SortedMeansSame(events, sorted, log, depositTree.depositCount);
      r := PushAll(sorted, log);
      if r.Some? {
        return;
      }
      depositTree.lastAddedBlockNumber := blockNumber;
      var snapshot := depositTree.TakeSnapshot();
      OnePair(database.contents, DEPOSIT_TREE_KEY, TreeValue(snapshot));
      HoldsPutTree(database.contents, blocks, Some(persisted), snapshot);
      database.PutBatch([Pair(DEPOSIT_TREE_KEY, TreeValue(snapshot))]);
      persisted, persistedDeposits := snapshot, depositTree.deposits;
    }

    /** The loop of `add_deposits`. */
    method PushAll(events: seq<DepositEvent<T>>, ghost log: seq<T>) returns (r: Option<Error>)
      requires depositTree.Valid() && FromLog(events, log) && SortedByIndex(events) && depositTree.deposits <= log
      modifies depositTree`depositCount, depositTree`deposits, depositTree.merkleTree, depositTree.merkleTree.siblings
      ensures depositTree.Valid() && old(depositTree.deposits) <= depositTree.deposits <= log
      ensures r.None? <==> NoGap(events, |old(depositTree.deposits)|)
      ensures |depositTree.deposits| == NextMissing(events, |old(depositTree.deposits)|)
      ensures r.None? ==> forall i | 0 <= i < |events| :: events[i].index < |depositTree.deposits|
      ensures r.Some? && |depositTree.deposits| < MAX_DEPOSITS ==> !HasIndex(events, |depositTree.deposits|)
    {
      hide DepositTree.Valid, Pow2, NextMissing;
      CountIsLength(depositTree);
      ghost var before := |depositTree.deposits|;
      for n := 0 to |events|
        invariant depositTree.Valid() && depositTree.depositCount == |depositTree.deposits|
        invariant old(depositTree.deposits) <= depositTree.deposits <= log
        invariant forall i | 0 <= i < n :: events[i].index < depositTree.depositCount
        invariant forall j: nat | before <= j < depositTree.depositCount :: HasIndex(events, j)
        invariant depositTree.depositCount > before ==> depositTree.depositCount <= MAX_DEPOSITS
      {
        if depositTree.depositCount <= events[n].index {
          ghost var count := depositTree.depositCount;
          r := depositTree.Push(events[n].index, events[n].data);
          if r.Some? {
            GapFound(events, n, before, count);
            CountIsLength(depositTree);
            NextMissingIs(events, before, depositTree.depositCount);
            return;
          }
          CountIsLength(depositTree);
        }
      }
      NextMissingIs(events, before, depositTree.depositCount);
      r := None;
    }

    /** The persisted tree. */
    method GetDepositTree() returns (r: Option<Snapshot>)
      requires Valid()
      ensures r == Some(persisted)
    {
      hide Holds, DepositTree.Valid, Lists, IsSnapshotOf;
      TreeIsStored(database.contents, blocks, Some(persisted));
      var found := database.Get(DEPOSIT_TREE_KEY);
      r := if found.Some? then Some(found.value.tree) else None;
    }

    /** The block with the greatest number. */
    method GetLatestBlock() returns (r: Option<Eth1Block>)
      requires Valid()
      ensures IsLatest(blocks, r)
    {
      hide Holds, DepositTree.Valid, Lists, Prev, BlockKey, IsSnapshotOf;
      LatestIsPrevOfMax(database.contents, blocks, Some(persisted));
      var entry := database.Prev(BlockKey(U64_MAX));
      r := if entry.Some? && BLOCK_KEY_PREFIX <= entry.value.key then Some(entry.value.value.block) else None;
    }

    /** The first `max` blocks numbered at least `from`, ascending. */
    method GetBlocksFrom(from: nat, max: nat) returns (r: seq<Eth1Block>)
      requires Valid() && from <= U64_MAX
      ensures IsFirstBlocks(blocks, from, max, r)
    {
      hide Holds, DepositTree.Valid, Lists, BlockKey, IsSnapshotOf, Ascending;
      AscendingFromBlockKey(database.contents, blocks, Some(persisted), from);
      DepositTreeKeyIsLast(from);
      var entries := database.IteratorAscending(BlockKey(from));
      r := TakeBlocks(entries, max, blocks, from);
    }

    method PutBlocks(list: seq<Eth1Block>)
      requires Valid() && forall i | 0 <= i < |list| :: list[i].number <= U64_MAX
      modifies this`blocks, database
      ensures Valid() && blocks == WithBlocks(old(blocks), list)
      ensures forall i | 0 <= i < |list| && IsLastNumbered(list, i) :: blocks[list[i].number] == list[i]
    {
      hide Holds, DepositTree.Valid, Lists, BlockKey, IsSnapshotOf, WithPairs;
      HoldsPutBlocks(database.contents, blocks, Some(persisted), list);
      database.PutBatch(BlockPairs(list));
      blocks := WithBlocks(blocks, list);
      forall i | 0 <= i < |list| && IsLastNumbered(list, i) ensures blocks[list[i].number] == list[i] {
        LastBlockWins(old(blocks), list, i);
      }
    }
  }

  lemma CountIsLength<T>(tree: DepositTree<T>)
    requires tree.Valid()
    ensures tree.depositCount == |tree.deposits|
  {
  }

  lemma TreeIsStored(contents: map<Key, Stored>, blocks: map<nat, Eth1Block>, tree: Option<Snapshot>)
    requires Holds(contents, blocks, tree)
    ensures DEPOSIT_TREE_KEY in contents <==> tree.Some?
    ensures tree.Some? ==> contents[DEPOSIT_TREE_KEY] == TreeValue(tree.value)
  {
  }

  lemma OnePair(contents: map<Key, Stored>, key: Key, value: Stored)
    ensures WithPairs(contents, [Pair(key, value)]) == contents[key := value]
  {
  }

  /** `take_while` on the key prefix, then `take`. */
  method TakeBlocks(entries: seq<Pair<Stored>>, max: nat, ghost blocks: map<nat, Eth1Block>, ghost from: nat)
    returns (r: seq<Eth1Block>)
    requires BlocksThenTree(blocks, from, entries, BlockCount(entries)) && !(BLOCK_KEY_PREFIX <= DEPOSIT_TREE_KEY)
    ensures IsFirstBlocks(blocks, from, max, r)
  {
    hide IsFirstBlocks, BlockCount;
    r := [];
    ghost var count := BlockCount(entries);
    while |r| < max && |r| < |entries| && BLOCK_KEY_PREFIX <= entries[|r|].key
      invariant |r| <= count && |r| <= max
      invariant forall i | 0 <= i < |r| :: r[i] == entries[i].value.block
    {
      r := r + [entries[|r|].value.block];
    }
    TakenAreFirst(entries, max, blocks, from, r);
  }

  lemma TakenAreFirst(
    entries: seq<Pair<Stored>>, max: nat, blocks: map<nat, Eth1Block>, from: nat, r: seq<Eth1Block>)
    requires BlocksThenTree(blocks, from, entries, BlockCount(entries))
    requires |r| <= BlockCount(entries) && |r| <= max && (|r| == max || |r| == BlockCount(entries))
    requires forall i | 0 <= i < |r| :: r[i] == entries[i].value.block
    ensures IsFirstBlocks(blocks, from, max, r)
  {
    hide BlockCount;
    forall n | n in blocks && from <= n
      ensures HasNumber(r, n) || (|r| == max && forall i | 0 <= i < |r| :: r[i].number < n)
    {
      var i :| 0 <= i < BlockCount(entries) && entries[i].value.block.number == n;
      assert i < |r| ==> r[i].number == n;
    }
  }
}
