/** The Eth1 blocks and the deposit tree as they lie in the database, under their string keys. */
module Eth1Blocks {
  import opened Results
  import opened ByteOrder
  import opened OrderedMap
  import opened BlockKeys
  import opened Database
  import DepositTree

  datatype Eth1Block = Eth1Block(hash: nat, parentHash: nat, number: nat, timestamp: nat)

  /** What is stored under a key, after decoding. */
  datatype Stored = BlockValue(block: Eth1Block) | TreeValue(tree: DepositTree.Snapshot)

  /** The database holds the given blocks, the given deposit tree, and nothing else. */
  ghost predicate Holds(contents: map<Key, Stored>, blocks: map<nat, Eth1Block>, tree: Option<DepositTree.Snapshot>) {
    && (forall n | n in blocks ::
          && n <= U64_MAX && blocks[n].number == n
          && BlockKey(n) in contents && contents[BlockKey(n)] == BlockValue(blocks[n]))
    && (forall key | key in contents :: key == DEPOSIT_TREE_KEY || exists n :: n in blocks && key == BlockKey(n))
    && (DEPOSIT_TREE_KEY in contents <==> tree.Some?)
    && (tree.Some? ==> contents[DEPOSIT_TREE_KEY] == TreeValue(tree.value))
  }

  lemma HoldsPutBlock(
    contents: map<Key, Stored>, blocks: map<nat, Eth1Block>, tree: Option<DepositTree.Snapshot>, block: Eth1Block)
    requires Holds(contents, blocks, tree) && block.number <= U64_MAX
    ensures Holds(contents[BlockKey(block.number) := BlockValue(block)], blocks[block.number := block], tree)
  {
    hide BlockKey;
    DepositTreeKeyIsLast(block.number);
    forall n | n in blocks ensures BlockKey(n) == BlockKey(block.number) <==> n == block.number {
      BlockKeyOrder(n, block.number);
    }
    var after := blocks[block.number := block];
    forall key | key in contents && key != DEPOSIT_TREE_KEY ensures exists n :: n in after && key == BlockKey(n) {
      var n :| n in blocks && key == BlockKey(n);
      assert n in after;
    }
  }

  lemma HoldsPutTree(
    contents: map<Key, Stored>, blocks: map<nat, Eth1Block>, tree: Option<DepositTree.Snapshot>,
    added: DepositTree.Snapshot)
    requires Holds(contents, blocks, tree)
    ensures Holds(contents[DEPOSIT_TREE_KEY := TreeValue(added)], blocks, Some(added))
  {
  }

  function BlockPairs(list: seq<Eth1Block>): (r: seq<Pair<Stored>>) {
    seq(|list|, i requires 0 <= i < |list| => Pair(BlockKey(list[i].number), BlockValue(list[i])))
  }

  /** Later blocks with the same number replace earlier ones. */
  function WithBlocks(blocks: map<nat, Eth1Block>, list: seq<Eth1Block>): (r: map<nat, Eth1Block>)
    ensures forall n :: n in r <==> n in blocks || exists i :: 0 <= i < |list| && list[i].number == n
    ensures forall n | n in r :: (n in blocks && r[n] == blocks[n]) || (r[n] in list && r[n].number == n)
    ensures forall n | n in blocks && (forall i | 0 <= i < |list| :: list[i].number != n) :: r[n] == blocks[n]
  {
    if list == [] then blocks else
      var last := |list| - 1;
      assert forall i | 0 <= i < last :: list[..last][i] == list[i];
      WithBlocks(blocks, list[..last])[list[last].number := list[last]]
  }

  /** No later block of the list has the number of this one. */
  ghost predicate IsLastNumbered(list: seq<Eth1Block>, i: nat)
    requires i < |list|
  {
    forall j | i < j < |list| :: list[j].number != list[i].number
  }

  /** Of the blocks with one number the last one is stored. */
  lemma {:induction false} LastBlockWins(blocks: map<nat, Eth1Block>, list: seq<Eth1Block>, i: nat)
    requires i < |list| && IsLastNumbered(list, i)
    ensures WithBlocks(blocks, list)[list[i].number] == list[i]
  {
    var last := |list| - 1;
    if i < last {
      LastBlockWins(blocks, list[..last], i);
    }
  }

  lemma {:induction false} HoldsPutBlocks(
    contents: map<Key, Stored>, blocks: map<nat, Eth1Block>, tree: Option<DepositTree.Snapshot>, list: seq<Eth1Block>)
    requires Holds(contents, blocks, tree) && forall i | 0 <= i < |list| :: list[i].number <= U64_MAX
    ensures Holds(WithPairs(contents, BlockPairs(list)), WithBlocks(blocks, list), tree)
  {
    hide Holds, BlockKey;
    if list != [] {
      var last := |list| - 1;
      HoldsPutBlocks(contents, blocks, tree, list[..last]);
      assert BlockPairs(list)[..last] == BlockPairs(list[..last]);
      HoldsPutBlock(
        WithPairs(contents, BlockPairs(list[..last])), WithBlocks(blocks, list[..last]), tree, list[last]);
    }
  }

  // --- The latest block --------------------------------------------------------------------------

  ghost predicate IsLatest(blocks: map<nat, Eth1Block>, r: Option<Eth1Block>) {
    && (r.None? <==> blocks == map[])
    && (r.Some? ==> r.value.number in blocks && blocks[r.value.number] == r.value &&
                    forall n | n in blocks :: n <= r.value.number)
  }

  /** The entry found backwards from the greatest possible block key is that of the block with the greatest number. */
  lemma LatestIsPrevOfMax(contents: map<Key, Stored>, blocks: map<nat, Eth1Block>, tree: Option<DepositTree.Snapshot>)
    requires Holds(contents, blocks, tree)
    ensures var entry := Prev(contents, BlockKey(U64_MAX));
      if entry.None? then blocks == map[]
      else BLOCK_KEY_PREFIX <= entry.value.key && entry.value.value.BlockValue? &&
           IsLatest(blocks, Some(entry.value.value.block))
  {
    hide BlockKey, Prev;
    var entry := Prev(contents, BlockKey(U64_MAX));
    PrevMeans(contents, BlockKey(U64_MAX));
    forall n | n in blocks ensures AtMost(BlockKey(n), BlockKey(U64_MAX)) {
      BlockKeyOrder(U64_MAX, n);
    }
    DepositTreeKeyIsLast(U64_MAX);
    if entry.None? {
      assert forall n :: n !in blocks;
    } else {
      var n :| n in blocks && entry.value.key == BlockKey(n);
      forall k | k in blocks ensures k <= n {
        BlockKeyOrder(n, k);
      }
    }
  }

  lemma PrevMeans(contents: map<Key, Stored>, key: Key)
    ensures var r := Prev(contents, key);
      && (r.None? <==> forall k | k in contents :: Less(key, k))
      && (r.Some? ==>
            && r.value.key in contents && contents[r.value.key] == r.value.value && AtMost(r.value.key, key)
            && forall k | k in contents && AtMost(k, key) :: AtMost(k, r.value.key))
  {
  }

  // --- The blocks from a number on ---------------------------------------------------------------

  ghost predicate AscendingNumbers(list: seq<Eth1Block>) {
    forall i, j | 0 <= i < j < |list| :: list[i].number < list[j].number
  }

  ghost predicate HasNumber(list: seq<Eth1Block>, n: nat) {
    exists i :: 0 <= i < |list| && list[i].number == n
  }

  /** The first `max` stored blocks numbered at least `from`. */
  ghost predicate IsFirstBlocks(blocks: map<nat, Eth1Block>, from: nat, max: nat, r: seq<Eth1Block>) {
    && |r| <= max && AscendingNumbers(r)
    && (forall i | 0 <= i < |r| :: from <= r[i].number && r[i].number in blocks && blocks[r[i].number] == r[i])
    && (forall n | n in blocks && from <= n ::
          HasNumber(r, n) || (|r| == max && forall i | 0 <= i < |r| :: r[i].number < n))
  }

  /** The entries from a block key on: blocks with ascending numbers, then at most the deposit tree. */
  ghost predicate BlocksThenTree(blocks: map<nat, Eth1Block>, from: nat, entries: seq<Pair<Stored>>, count: nat) {
    && count <= |entries| <= count + 1
    && (count < |entries| ==> entries[count].key == DEPOSIT_TREE_KEY)
    && (forall i | 0 <= i < count ::
          && BLOCK_KEY_PREFIX <= entries[i].key && entries[i].value.BlockValue?
          && entries[i].value.block.number in blocks
          && blocks[entries[i].value.block.number] == entries[i].value.block
          && from <= entries[i].value.block.number)
    && (forall i, j | 0 <= i < j < count :: entries[i].value.block.number < entries[j].value.block.number)
    && (forall n | n in blocks && from <= n ::
          exists i :: 0 <= i < count && entries[i].value.block.number == n)
  }

  lemma EntryIsBlock(
    contents: map<Key, Stored>, blocks: map<nat, Eth1Block>, tree: Option<DepositTree.Snapshot>, from: nat, key: Key)
    requires Holds(contents, blocks, tree) && from <= U64_MAX
    requires key in contents && key != DEPOSIT_TREE_KEY && AtMost(BlockKey(from), key)
    ensures contents[key].BlockValue? && BLOCK_KEY_PREFIX <= key
    ensures var block := contents[key].block;
      block.number in blocks && blocks[block.number] == block && from <= block.number && key == BlockKey(block.number)
  {
    hide Less;
    var n :| n in blocks && key == BlockKey(n);
    BlockKeyOrder(n, from);
  }

  /** Nothing comes after the deposit tree. */
  lemma TreeIsLast(
    contents: map<Key, Stored>, blocks: map<nat, Eth1Block>, tree: Option<DepositTree.Snapshot>, key: Key)
    requires Holds(contents, blocks, tree) && key in contents
    ensures !Less(DEPOSIT_TREE_KEY, key)
  {
  }

  ghost function BlockCount(entries: seq<Pair<Stored>>): (r: nat)
    ensures r <= |entries|
  {
    if entries != [] && entries[|entries| - 1].key == DEPOSIT_TREE_KEY then |entries| - 1 else |entries|
  }

  lemma EntriesAreBlocks(
    contents: map<Key, Stored>, blocks: map<nat, Eth1Block>, tree: Option<DepositTree.Snapshot>, from: nat,
    entries: seq<Pair<Stored>>)
    requires Holds(contents, blocks, tree) && from <= U64_MAX && Lists(entries, From(contents, BlockKey(from)))
    ensures forall i | 0 <= i < BlockCount(entries) ::
      && BLOCK_KEY_PREFIX <= entries[i].key && entries[i].value.BlockValue?
      && entries[i].value.block.number in blocks
      && blocks[entries[i].value.block.number] == entries[i].value.block
      && from <= entries[i].value.block.number && entries[i].key == BlockKey(entries[i].value.block.number)
    ensures forall i, j | 0 <= i < j < BlockCount(entries) ::
      entries[i].value.block.number < entries[j].value.block.number
  {
    hide Less, BlockKey, Holds;
    var count := BlockCount(entries);
    forall i | 0 <= i < count
      ensures
        && BLOCK_KEY_PREFIX <= entries[i].key && entries[i].value.BlockValue?
        && entries[i].value.block.number in blocks
        && blocks[entries[i].value.block.number] == entries[i].value.block
        && from <= entries[i].value.block.number && entries[i].key == BlockKey(entries[i].value.block.number)
        && entries[i].value.block.number <= U64_MAX
    {
      if i + 1 < |entries| {
        TreeIsLast(contents, blocks, tree, entries[i + 1].key);
      }
      EntryIsBlock(contents, blocks, tree, from, entries[i].key);
      NumbersFit(contents, blocks, tree, entries[i].value.block.number);
    }
    forall i, j | 0 <= i < j < count ensures entries[i].value.block.number < entries[j].value.block.number {
      BlockKeyOrder(entries[i].value.block.number, entries[j].value.block.number);
    }
  }

  lemma NumbersFit(contents: map<Key, Stored>, blocks: map<nat, Eth1Block>, tree: Option<DepositTree.Snapshot>, n: nat)
    requires Holds(contents, blocks, tree) && n in blocks
    ensures n <= U64_MAX && BlockKey(n) in contents && contents[BlockKey(n)] == BlockValue(blocks[n])
    ensures blocks[n].number == n
  {
  }

  lemma AscendingFromBlockKey(
    contents: map<Key, Stored>, blocks: map<nat, Eth1Block>, tree: Option<DepositTree.Snapshot>, from: nat)
    requires Holds(contents, blocks, tree) && from <= U64_MAX
    ensures var entries := Ascending(From(contents, BlockKey(from)));
      BlocksThenTree(blocks, from, entries, BlockCount(entries))
  {
    hide Less, BlockKey, Holds, Lists;
    var part := From(contents, BlockKey(from));
    var entries := Ascending(part);
    EntriesAreBlocks(contents, blocks, tree, from, entries);
    forall n | n in blocks && from <= n
      ensures exists i :: 0 <= i < BlockCount(entries) && entries[i].value.block.number == n
    {
      NumbersFit(contents, blocks, tree, n);
      BlockKeyOrder(n, from);
      assert BlockKey(n) in part;
      var i := ListedAt(entries, part, BlockKey(n));
      DepositTreeKeyIsLast(n);
    }
  }

  lemma ListedAt(entries: seq<Pair<Stored>>, part: map<Key, Stored>, key: Key) returns (i: nat)
    requires Lists(entries, part) && key in part
    ensures i < |entries| && entries[i] == Pair(key, part[key])
  {
    assert HasKey(entries, key);
    i :| 0 <= i < |entries| && entries[i].key == key;
  }
}
