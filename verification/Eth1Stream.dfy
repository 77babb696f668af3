/** Streaming Eth1 blocks from the cache while a downloader stores more of them. */
module Eth1Stream {
  import opened Results
  import opened Arithmetic
  import opened Eth1Blocks
  import opened Eth1Cache

  const BLOCK_BATCH_SIZE: nat := 1000
  const STREAM_BATCH_SIZE: nat := 1000
  const DOWNLOAD_DISTANCE_FROM_HEAD: nat := 5000

  // --- Downloading -------------------------------------------------------------------------------

  /** Each block names the one before it as its parent. */
  ghost predicate IsChain(blocks: seq<Eth1Block>) {
    forall i | 0 < i < |blocks| :: blocks[i].parentHash == blocks[i - 1].hash
  }

  method VerifyBlocks(blocks: seq<Eth1Block>) returns (r: bool)
    ensures r <==> IsChain(blocks)
    ensures r <==> forall i | 0 < i < |blocks| :: blocks[i].parentHash == blocks[i - 1].hash
  {
    if |blocks| == 0 {
      return true;
    }
    var at := |blocks| - 1;
    var block := blocks[at];
    while at > 0
      invariant 0 <= at < |blocks| && block == blocks[at]
      invariant forall i | at < i < |blocks| :: blocks[i].parentHash == blocks[i - 1].hash
    {
      var parentBlock := blocks[at - 1];
      if block.parentHash != parentBlock.hash {
        return false;
      }
      block := parentBlock;
      at := at - 1;
    }
    r := true;
  }

  function LastOfBatch(from: nat, latest: nat): (r: nat)
    requires from <= latest < U64_MAX
    ensures from <= r <= latest
    ensures r == if from + 999 <= latest then from + 999 else latest
  {
    Min(latest, SaturatingSub(SaturatingAdd(from, BLOCK_BATCH_SIZE), 1))
  }

  /** Where a download starts: after the latest stored block, but not too far from the head. */
  function FirstToDownload(stored: Option<Eth1Block>, earliest: nat, latest: nat): (r: nat) {
    var start := if stored.Some? then SaturatingAdd(stored.value.number, 1) else earliest;
    Max(start, SaturatingAdd(SaturatingSub(latest, DOWNLOAD_DISTANCE_FROM_HEAD), 1))
  }

  /** The answer of the API to one request: an error, or blocks. */
  type Response = Option<seq<Eth1Block>>

  ghost predicate InRange(blocks: seq<Eth1Block>, from: nat, to: nat) {
    forall i | 0 <= i < |blocks| :: from <= blocks[i].number <= to
  }

  /** The requests of a download, by the numbers they start at: each starts after the one before it, and only the last
      one may fail or bring blocks that do not form a chain. */
  ghost function Requests(from: nat, latest: nat, responses: nat -> Response): (r: seq<nat>)
    requires latest < U64_MAX
    decreases latest + 1 - from
  {
    if from > latest then []
    else if !Accepted(responses(from)) then [from]
    else [from] + Requests(LastOfBatch(from, latest) + 1, latest, responses)
  }

  ghost predicate Accepted(response: Response) {
    response.Some? && IsChain(response.value)
  }

  /** The blocks stored by a whole download. */
  ghost function Downloaded(blocks: map<nat, Eth1Block>, from: nat, latest: nat, responses: nat -> Response):
    (r: map<nat, Eth1Block>)
    requires latest < U64_MAX
    decreases latest + 1 - from
  {
    if from > latest || !Accepted(responses(from)) then blocks
    else Downloaded(
           WithBlocks(blocks, responses(from).value), LastOfBatch(from, latest) + 1, latest, responses)
  }

  ghost predicate AnswersInRange(latest: nat, responses: nat -> Response)
    requires latest < U64_MAX
  {
    forall from: nat | from <= latest && responses(from).Some? ::
      InRange(responses(from).value, from, LastOfBatch(from, latest))
  }

  /** The block is in an accepted answer to one of the requests. */
  ghost predicate IsFetched(from: nat, latest: nat, responses: nat -> Response, block: Eth1Block)
    requires latest < U64_MAX
  {
    exists k :: k in Requests(from, latest, responses) && Accepted(responses(k)) && block in responses(k).value
  }

  lemma FetchedStep(from: nat, latest: nat, responses: nat -> Response, block: Eth1Block)
    requires latest < U64_MAX
    ensures IsFetched(from, latest, responses, block) <==>
      && from <= latest && Accepted(responses(from))
      && (block in responses(from).value || IsFetched(LastOfBatch(from, latest) + 1, latest, responses, block))
  {
    hide IsChain;
    if from <= latest && Accepted(responses(from)) {
      var next := LastOfBatch(from, latest) + 1;
      assert from in Requests(from, latest, responses);
      if IsFetched(next, latest, responses, block) {
        var k :| k in Requests(next, latest, responses) && Accepted(responses(k)) && block in responses(k).value;
        assert k in Requests(from, latest, responses);
      }
    }
  }

  /** All blocks are kept, and the added ones are stored under their numbers, which lie in the given range. */
  ghost predicate Extends(before: map<nat, Eth1Block>, after: map<nat, Eth1Block>, from: nat, to: nat) {
    && (forall n | n in before :: n in after && after[n] == before[n])
    && (forall n | n in after && n !in before :: from <= n <= to && after[n].number == n)
  }

  lemma ExtendsTwice(
    a: map<nat, Eth1Block>, b: map<nat, Eth1Block>, c: map<nat, Eth1Block>, from: nat, middle: nat, to: nat)
    requires Extends(a, b, from, middle) && Extends(b, c, middle + 1, to) && from <= middle <= to
    ensures Extends(a, c, from, to)
  {
  }

  lemma ExtendedStaysBelow(before: map<nat, Eth1Block>, after: map<nat, Eth1Block>, from: nat, to: nat)
    requires Extends(before, after, from, to) && from <= to && forall n | n in before :: n < from
    ensures forall n | n in after :: n < to + 1
  {
  }

  /** A download from beyond the stored blocks keeps them all. What it adds has numbers from the first one requested up
      to the latest. */
  lemma {:induction false} DownloadKeeps(
    blocks: map<nat, Eth1Block>, from: nat, latest: nat, responses: nat -> Response)
    requires latest < U64_MAX && AnswersInRange(latest, responses) && forall n | n in blocks :: n < from
    ensures Extends(blocks, Downloaded(blocks, from, latest, responses), from, latest)
    decreases latest + 1 - from
  {
    hide IsChain, WithBlocks, InRange, Downloaded, Requests, LastOfBatch, AnswersInRange, Extends;
    NothingAdded(blocks, from, latest);
    if from > latest {
      DownloadEnds(blocks, from, latest, responses);
    } else {
      DownloadStep(blocks, from, latest, responses);
      if Accepted(responses(from)) {
        var to := LastOfBatch(from, latest);
        var middle := WithBlocks(blocks, responses(from).value);
        AnswerInRange(latest, responses, from);
        AddedInRange(blocks, responses(from).value, from, to);
        ExtendedStaysBelow(blocks, middle, from, to);
        DownloadKeeps(middle, to + 1, latest, responses);
        ExtendsTwice(blocks, middle, Downloaded(blocks, from, latest, responses), from, to, latest);
      }
    }
  }

  lemma NothingAdded(blocks: map<nat, Eth1Block>, from: nat, to: nat)
    ensures Extends(blocks, blocks, from, to)
  {
  }

  /** What a download adds are blocks of accepted answers. */
  lemma {:induction false} AddedIsFetched(
    blocks: map<nat, Eth1Block>, from: nat, latest: nat, responses: nat -> Response, n: nat)
    requires latest < U64_MAX && AnswersInRange(latest, responses) && forall n | n in blocks :: n < from
    requires n in Downloaded(blocks, from, latest, responses) && n !in blocks
    ensures IsFetched(from, latest, responses, Downloaded(blocks, from, latest, responses)[n])
    decreases latest + 1 - from
  {
    hide IsChain, WithBlocks, InRange, Downloaded, Requests, IsFetched, LastOfBatch, AnswersInRange;
    if from > latest {
      DownloadEnds(blocks, from, latest, responses);
    } else {
      DownloadStep(blocks, from, latest, responses);
      FetchedStep(from, latest, responses, Downloaded(blocks, from, latest, responses)[n]);
      if Accepted(responses(from)) {
        var list, next := responses(from).value, LastOfBatch(from, latest) + 1;
        AnswerInRange(latest, responses, from);
        AddedInRange(blocks, list, from, next - 1);
        DownloadKeeps(WithBlocks(blocks, list), next, latest, responses);
        if n !in WithBlocks(blocks, list) {
          AddedIsFetched(WithBlocks(blocks, list), next, latest, responses, n);
        }
      }
    }
  }

  /** No number of an accepted answer is left out. */
  lemma {:induction false} FetchedIsAdded(
    blocks: map<nat, Eth1Block>, from: nat, latest: nat, responses: nat -> Response, block: Eth1Block)
    requires latest < U64_MAX && AnswersInRange(latest, responses) && forall n | n in blocks :: n < from
    requires IsFetched(from, latest, responses, block)
    ensures block.number in Downloaded(blocks, from, latest, responses)
    decreases latest + 1 - from
  {
    hide IsChain, WithBlocks, InRange, Downloaded, Requests, IsFetched, LastOfBatch, AnswersInRange;
    FetchedStep(from, latest, responses, block);
    DownloadStep(blocks, from, latest, responses);
    var list, next := responses(from).value, LastOfBatch(from, latest) + 1;
    AnswerInRange(latest, responses, from);
    AddedInRange(blocks, list, from, next - 1);
    if block in list {
      DownloadKeeps(WithBlocks(blocks, list), next, latest, responses);
    } else {
      FetchedIsAdded(WithBlocks(blocks, list), next, latest, responses, block);
    }
  }

  /** Both together: what a download from beyond the stored blocks adds is exactly what it fetched. */
  lemma DownloadOnlyAdds(blocks: map<nat, Eth1Block>, from: nat, latest: nat, responses: nat -> Response)
    requires latest < U64_MAX && AnswersInRange(latest, responses)
    requires from <= latest ==> forall n | n in blocks :: n < from
    ensures var after := Downloaded(blocks, from, latest, responses);
      && (forall n | n in blocks :: n in after && after[n] == blocks[n])
      && (forall n | n in after && n !in blocks ::
            from <= n <= latest && after[n].number == n && IsFetched(from, latest, responses, after[n]))
      && (forall block | IsFetched(from, latest, responses, block) :: block.number in after)
  {
    hide AnswersInRange, Downloaded, IsFetched;
    var after := Downloaded(blocks, from, latest, responses);
    if from > latest {
      DownloadEnds(blocks, from, latest, responses);
      forall block ensures !IsFetched(from, latest, responses, block) {
        FetchedStep(from, latest, responses, block);
      }
      return;
    }
    DownloadKeeps(blocks, from, latest, responses);
    forall n | n in after && n !in blocks ensures IsFetched(from, latest, responses, after[n]) {
      AddedIsFetched(blocks, from, latest, responses, n);
    }
    forall block | IsFetched(from, latest, responses, block) ensures block.number in after {
      FetchedIsAdded(blocks, from, latest, responses, block);
    }
  }

  lemma AnswerInRange(latest: nat, responses: nat -> Response, from: nat)
    requires latest < U64_MAX && AnswersInRange(latest, responses) && from <= latest && responses(from).Some?
    ensures InRange(responses(from).value, from, LastOfBatch(from, latest))
  {
  }

  lemma AddedInRange(blocks: map<nat, Eth1Block>, list: seq<Eth1Block>, from: nat, to: nat)
    requires InRange(list, from, to) && forall n | n in blocks :: n < from
    ensures var after := WithBlocks(blocks, list);
      && Extends(blocks, after, from, to)
      && (forall n | n in after && n !in blocks :: after[n] in list)
      && (forall block | block in list :: block.number in after)
  {
  }

  /** `download_and_store_blocks`. `responses` gives the answer to the request that starts at a number. Every stored
      block is kept, and exactly the blocks of the accepted answers are added. The download ends with a connection
      error exactly when a request failed. */
  method DownloadAndStoreBlocks<T>(
    cache: Eth1Cache<T>, earliest: nat, latest: nat, responses: nat -> Response)
    returns (connected: bool, ghost stored: Option<Eth1Block>)
    requires cache.Valid() && latest < U64_MAX && AnswersInRange(latest, responses)
    modifies cache`blocks, cache.database
    ensures cache.Valid() && IsLatest(old(cache.blocks), stored)
    ensures var first := FirstToDownload(stored, earliest, latest);
      && cache.blocks == Downloaded(old(cache.blocks), first, latest, responses)
      && (forall n | n in old(cache.blocks) :: n in cache.blocks && cache.blocks[n] == old(cache.blocks)[n])
      && (forall n | n in cache.blocks && n !in old(cache.blocks) ::
            first <= n <= latest && IsFetched(first, latest, responses, cache.blocks[n]))
      && (forall block | IsFetched(first, latest, responses, block) :: block.number in cache.blocks)
      && (connected <==> forall k | k in Requests(first, latest, responses) :: responses(k).Some?)
      && (AnswersInFull(first, latest, responses) ==> forall n: nat | first <= n <= latest :: n in cache.blocks)
  {
    hide Eth1Cache.Valid, WithBlocks, IsChain, AnswersInRange, Downloaded, Requests, IsFetched, AnswersInFull;
    var latestBlock := cache.GetLatestBlock();
    stored := latestBlock;
    var fromBlock := FirstToDownload(latestBlock, earliest, latest);
    ghost var first := fromBlock;
    StartsBeyond(cache.blocks, latestBlock, earliest, latest);
    DownloadOnlyAdds(cache.blocks, first, latest, responses);
    forall n: nat | AnswersInFull(first, latest, responses) && first <= n <= latest
      ensures n in Downloaded(cache.blocks, first, latest, responses)
    {
      DownloadsAll(cache.blocks, first, latest, responses, n);
    }
    ghost var requested: seq<nat> := [];
    while fromBlock <= latest
      invariant cache.Valid()
      invariant Downloaded(cache.blocks, fromBlock, latest, responses) ==
        Downloaded(old(cache.blocks), first, latest, responses)
      invariant Requests(first, latest, responses) == requested + Requests(fromBlock, latest, responses)
      invariant forall k | k in requested :: responses(k).Some?
      decreases latest + 1 - fromBlock
    {
      DownloadStep(cache.blocks, fromBlock, latest, responses);
      var toBlock := LastOfBatch(fromBlock, latest);
      var response := responses(fromBlock);
      if response.None? {
        assert fromBlock in Requests(fromBlock, latest, responses);
        return false, stored;
      }
      var valid := VerifyBlocks(response.value);
      if !valid {
        return true, stored;
      }
      AnswersInU64(latest, responses, fromBlock);
      cache.PutBlocks(response.value);
      requested := requested + [fromBlock];
      fromBlock := SaturatingAdd(toBlock, 1);
    }
    DownloadEnds(cache.blocks, fromBlock, latest, responses);
    connected := true;
  }

  lemma DownloadStep(blocks: map<nat, Eth1Block>, from: nat, latest: nat, responses: nat -> Response)
    requires from <= latest < U64_MAX
    ensures !Accepted(responses(from)) ==>
      Downloaded(blocks, from, latest, responses) == blocks && Requests(from, latest, responses) == [from]
    ensures Accepted(responses(from)) ==>
      var next := LastOfBatch(from, latest) + 1;
      && Downloaded(blocks, from, latest, responses) ==
         Downloaded(WithBlocks(blocks, responses(from).value), next, latest, responses)
      && Requests(from, latest, responses) == [from] + Requests(next, latest, responses)
  {
  }

  lemma DownloadEnds(blocks: map<nat, Eth1Block>, from: nat, latest: nat, responses: nat -> Response)
    requires latest < U64_MAX && from > latest
    ensures Downloaded(blocks, from, latest, responses) == blocks && Requests(from, latest, responses) == []
  {
  }

  lemma AnswersInU64(latest: nat, responses: nat -> Response, from: nat)
    requires latest < U64_MAX && AnswersInRange(latest, responses) && from <= latest && responses(from).Some?
    ensures forall i | 0 <= i < |responses(from).value| :: responses(from).value[i].number <= U64_MAX
  {
  }

  /** A download starts beyond every stored block. */
  lemma StartsBeyond(blocks: map<nat, Eth1Block>, stored: Option<Eth1Block>, earliest: nat, latest: nat)
    requires IsLatest(blocks, stored) && latest < U64_MAX
    ensures var first := FirstToDownload(stored, earliest, latest);
      first <= latest ==> forall n | n in blocks :: n < first
  {
  }

  /** No number is skipped: a download starts with the first number that comes after the latest stored block, or is the
      earliest one if nothing is stored, and that is among the last 5000 up to the latest. Number 0 is never asked
      for. */
  lemma StartsExactlyAt(stored: Option<Eth1Block>, earliest: nat, latest: nat, n: nat)
    requires n <= latest < U64_MAX
    ensures n >= FirstToDownload(stored, earliest, latest) <==>
      && (if stored.Some? then n >= stored.value.number + 1 else n >= earliest)
      && n + 5000 >= latest + 1 && n >= 1
  {
  }

  lemma StartIsGreater(stored: Option<Eth1Block>, earliest: nat, latest: nat)
    requires latest < U64_MAX && (stored.Some? ==> stored.value.number < U64_MAX)
    ensures FirstToDownload(stored, earliest, latest) ==
      Max(if stored.Some? then stored.value.number + 1 else earliest, if latest >= 5000 then latest - 4999 else 1)
  {
  }

  /** Every answer is accepted and holds all numbers that were asked for. */
  ghost predicate AnswersInFull(from: nat, latest: nat, responses: nat -> Response)
    requires latest < U64_MAX
  {
    forall k | k in Requests(from, latest, responses) && k <= latest ::
      && Accepted(responses(k))
      && forall n: nat | k <= n <= LastOfBatch(k, latest) :: HasNumber(responses(k).value, n)
  }

  lemma AnswersInFullStep(from: nat, latest: nat, responses: nat -> Response)
    requires from <= latest < U64_MAX && AnswersInFull(from, latest, responses)
    ensures Accepted(responses(from)) && AnswersInFull(LastOfBatch(from, latest) + 1, latest, responses)
    ensures forall n: nat | from <= n <= LastOfBatch(from, latest) :: HasNumber(responses(from).value, n)
  {
    hide IsChain, HasNumber, LastOfBatch;
    DownloadStep(map[], from, latest, responses);
    assert from in Requests(from, latest, responses);
    var next := LastOfBatch(from, latest) + 1;
    assert forall k | k in Requests(next, latest, responses) :: k in Requests(from, latest, responses);
  }

  /** A download that is answered in full stores every number from its start up to the latest. */
  lemma {:induction false} DownloadsAll(
    blocks: map<nat, Eth1Block>, from: nat, latest: nat, responses: nat -> Response, n: nat)
    requires latest < U64_MAX && AnswersInRange(latest, responses) && forall n | n in blocks :: n < from
    requires AnswersInFull(from, latest, responses) && from <= n <= latest
    ensures n in Downloaded(blocks, from, latest, responses)
    decreases latest + 1 - from
  {
    hide IsChain, WithBlocks, InRange, Downloaded, Requests, LastOfBatch, AnswersInRange, AnswersInFull, HasNumber;
    AnswersInFullStep(from, latest, responses);
    DownloadStep(blocks, from, latest, responses);
    var list, to := responses(from).value, LastOfBatch(from, latest);
    AnswerInRange(latest, responses, from);
    AddedInRange(blocks, list, from, to);
    ExtendedStaysBelow(blocks, WithBlocks(blocks, list), from, to);
    if n <= to {
      NumberIsAdded(list, n);
      DownloadKeeps(WithBlocks(blocks, list), to + 1, latest, responses);
    } else {
      DownloadsAll(WithBlocks(blocks, list), to + 1, latest, responses, n);
    }
  }

  lemma NumberIsAdded(list: seq<Eth1Block>, n: nat)
    requires HasNumber(list, n)
    ensures exists block :: block in list && block.number == n
  {
    var i :| 0 <= i < |list| && list[i].number == n;
    assert list[i] in list;
  }

  // --- Streaming ---------------------------------------------------------------------------------

  class BlockStream<T> {
    const cache: Eth1Cache<T>
    var lastStreamedBlockNumber: nat

    constructor (cache: Eth1Cache<T>)
      ensures this.cache == cache && lastStreamedBlockNumber == cache.depositTree.lastAddedBlockNumber
    {
      this.cache := cache;
      lastStreamedBlockNumber := cache.depositTree.lastAddedBlockNumber;
    }

    /** One batch: the next blocks after the last one streamed. */
    method Poll() returns (batch: seq<Eth1Block>)
      requires cache.Valid() && lastStreamedBlockNumber <= U64_MAX
      modifies this
      ensures IsFirstBlocks(cache.blocks, SaturatingAdd(old(lastStreamedBlockNumber), 1), STREAM_BATCH_SIZE, batch)
      ensures lastStreamedBlockNumber == LastNumber(batch, old(lastStreamedBlockNumber))
      ensures |batch| <= 1000
      ensures batch == [] ==> lastStreamedBlockNumber == old(lastStreamedBlockNumber)
      ensures batch != [] ==> lastStreamedBlockNumber == batch[|batch| - 1].number
    {
      hide Eth1Cache.Valid;
      batch := cache.GetBlocksFrom(SaturatingAdd(lastStreamedBlockNumber, 1), STREAM_BATCH_SIZE);
      if |batch| > 0 {
        lastStreamedBlockNumber := batch[|batch| - 1].number;
      }
    }
  }

  function LastNumber(batch: seq<Eth1Block>, otherwise: nat): nat {
    if batch == [] then otherwise else batch[|batch| - 1].number
  }

  // --- Interleaved runs --------------------------------------------------------------------------

  datatype Downloader = Idle | Downloading(from: nat, latest: nat)

  datatype State = State(
    blocks: map<nat, Eth1Block>, downloader: Downloader, initial: nat, lastStreamed: nat, streamed: seq<Eth1Block>)

  datatype Step =
    | Start(stored: Option<Eth1Block>, earliest: nat, latest: nat)
    | Store(response: Response)
    | Poll(batch: seq<Eth1Block>)

  /** A download starts only after the one before it ended, and the API stays inside the requested range. */
  ghost predicate Enabled(s: State, step: Step) {
    match step
    case Start(stored, _, latest) => s.downloader.Idle? && latest < U64_MAX && IsLatest(s.blocks, stored)
    case Store(response) =>
      && s.downloader.Downloading? && s.downloader.from <= s.downloader.latest < U64_MAX
      && (response.Some? ==>
            InRange(response.value, s.downloader.from, LastOfBatch(s.downloader.from, s.downloader.latest)))
    case Poll(batch) => IsFirstBlocks(s.blocks, SaturatingAdd(s.lastStreamed, 1), STREAM_BATCH_SIZE, batch)
  }

  function Continue(from: nat, latest: nat): Downloader {
    if from <= latest then Downloading(from, latest) else Idle
  }

  ghost function Apply(s: State, step: Step): (r: State)
    requires Enabled(s, step)
  {
    match step
    case Start(stored, earliest, latest) =>
      s.(downloader := Continue(FirstToDownload(stored, earliest, latest), latest))
    case Store(response) =>
      var Downloading(from, latest) := s.downloader;
      if response.None? || !IsChain(response.value) then s.(downloader := Idle)
      else s.(blocks := WithBlocks(s.blocks, response.value),
              downloader := Continue(LastOfBatch(from, latest) + 1, latest))
    case Poll(batch) =>
      s.(lastStreamed := LastNumber(batch, s.lastStreamed), streamed := s.streamed + batch)
  }

  ghost predicate Initial(s: State) {
    && s.downloader == Idle && s.streamed == [] && s.lastStreamed == s.initial < U64_MAX
    && forall n | n in s.blocks :: n < U64_MAX && s.blocks[n].number == n
  }

  /** Streamed numbers are strictly ascending, and every stored block above the initial position and at most the
      last streamed number has been streamed exactly once. */
  ghost predicate StreamedOnce(s: State) {
    && AscendingNumbers(s.streamed)
    && (forall i | 0 <= i < |s.streamed| ::
          && s.initial < s.streamed[i].number <= s.lastStreamed
          && s.streamed[i].number in s.blocks && s.blocks[s.streamed[i].number] == s.streamed[i])
    && (forall n | n in s.blocks && s.initial < n <= s.lastStreamed :: HasNumber(s.streamed, n))
  }

  ghost predicate Inv(s: State) {
    && StreamedOnce(s)
    && (forall n | n in s.blocks :: n < U64_MAX && s.blocks[n].number == n)
    && s.initial <= s.lastStreamed < U64_MAX
    && (s.lastStreamed == s.initial || s.lastStreamed in s.blocks)
    && (s.downloader.Downloading? ==>
          && s.downloader.from <= s.downloader.latest < U64_MAX
          && forall n | n in s.blocks :: n < s.downloader.from)
  }

  /** New blocks come after all stored ones, so they cannot be behind the stream. */
  lemma StoreKeepsInv(s: State, response: Response)
    requires Inv(s) && Enabled(s, Store(response))
    ensures Inv(Apply(s, Store(response)))
  {
    hide HasNumber, AscendingNumbers, IsChain;
    var Downloading(from, latest) := s.downloader;
    if response.Some? && IsChain(response.value) {
      var after := WithBlocks(s.blocks, response.value);
      forall n | n in s.blocks ensures n in after && after[n] == s.blocks[n] {
      }
      forall n | n in after && n !in s.blocks ensures from <= n <= LastOfBatch(from, latest) && after[n].number == n {
      }
    }
  }

  lemma AppendAscends(streamed: seq<Eth1Block>, batch: seq<Eth1Block>, last: nat)
    requires AscendingNumbers(streamed) && AscendingNumbers(batch)
    requires forall i | 0 <= i < |streamed| :: streamed[i].number <= last
    requires forall i | 0 <= i < |batch| :: last < batch[i].number
    ensures AscendingNumbers(streamed + batch)
    ensures forall i | 0 <= i < |batch| :: batch[i].number <= batch[|batch| - 1].number
  {
  }

  lemma AppendHas(streamed: seq<Eth1Block>, batch: seq<Eth1Block>, n: nat)
    requires HasNumber(streamed, n) || HasNumber(batch, n)
    ensures HasNumber(streamed + batch, n)
  {
    var all := streamed + batch;
    if HasNumber(streamed, n) {
      var i :| 0 <= i < |streamed| && streamed[i].number == n;
      assert all[i].number == n;
    } else {
      var i :| 0 <= i < |batch| && batch[i].number == n;
      assert all[|streamed| + i].number == n;
    }
  }

  lemma PollKeepsInv(s: State, batch: seq<Eth1Block>)
    requires Inv(s) && Enabled(s, Poll(batch))
    ensures Inv(Apply(s, Poll(batch)))
  {
    hide HasNumber, AscendingNumbers;
    if batch == [] {
      assert s.streamed + batch == s.streamed;
    } else {
      AppendAscends(s.streamed, batch, s.lastStreamed);
      var last := batch[|batch| - 1].number;
      forall n | n in s.blocks && s.initial < n <= last ensures HasNumber(s.streamed + batch, n) {
        AppendHas(s.streamed, batch, n);
      }
    }
  }

  lemma StepKeepsInv(s: State, step: Step)
    requires Inv(s) && Enabled(s, step)
    ensures Inv(Apply(s, step))
  {
    hide HasNumber, AscendingNumbers, StreamedOnce, IsFirstBlocks, IsChain, WithBlocks;
    match step
    case Start(stored, earliest, latest) => StartKeepsInv(s, stored, earliest, latest);
    case Store(response) => StoreKeepsInv(s, response);
    case Poll(batch) => PollKeepsInv(s, batch);
  }

  lemma StartKeepsInv(s: State, stored: Option<Eth1Block>, earliest: nat, latest: nat)
    requires Inv(s) && Enabled(s, Start(stored, earliest, latest))
    ensures Inv(Apply(s, Start(stored, earliest, latest)))
  {
  }

  ghost predicate IsSegment(states: seq<State>, steps: seq<Step>) {
    && |states| == |steps| + 1
    && forall i | 0 <= i < |steps| :: Enabled(states[i], steps[i]) && states[i + 1] == Apply(states[i], steps[i])
  }

  ghost predicate IsRun(states: seq<State>, steps: seq<Step>) {
    IsSegment(states, steps) && Initial(states[0])
  }

  /** In every interleaving of downloads and polls. */
  lemma {:induction false} RunsStreamOnce(states: seq<State>, steps: seq<Step>, n: nat)
    requires IsRun(states, steps) && n <= |steps|
    ensures Inv(states[n])
  {
    hide Inv, Apply, Enabled;
    if n == 0 {
      InitialInv(states[0]);
    } else {
      RunsStreamOnce(states, steps, n - 1);
      StepKeepsInv(states[n - 1], steps[n - 1]);
    }
  }

  lemma InitialInv(s: State)
    requires Initial(s)
    ensures Inv(s)
  {
  }

  /** An empty batch means that nothing stored is left to stream. */
  lemma EmptyBatchMeansDone(s: State)
    requires Inv(s) && Enabled(s, Poll([]))
    ensures forall n | n in s.blocks && s.initial < n :: HasNumber(s.streamed, n)
  {
  }

  // --- The downloader's steps --------------------------------------------------------------------

  /** The steps of a whole download that begins with the request at `from`. */
  ghost function StoreSteps(from: nat, latest: nat, responses: nat -> Response): (r: seq<Step>)
    requires latest < U64_MAX
    ensures forall i | 0 <= i < |r| :: r[i].Store?
    decreases latest + 1 - from
  {
    if from > latest then []
    else if !Accepted(responses(from)) then [Store(responses(from))]
    else [Store(responses(from))] + StoreSteps(LastOfBatch(from, latest) + 1, latest, responses)
  }

  lemma {:induction false} StoresAreSegment(s: State, from: nat, latest: nat, responses: nat -> Response)
    returns (states: seq<State>)
    requires latest < U64_MAX && AnswersInRange(latest, responses) && s.downloader == Continue(from, latest)
    ensures IsSegment(states, StoreSteps(from, latest, responses)) && states[0] == s
    ensures states[|states| - 1] ==
      s.(blocks := Downloaded(s.blocks, from, latest, responses), downloader := Idle)
    decreases latest + 1 - from
  {
    hide IsChain, WithBlocks;
    if from > latest {
      states := [s];
    } else {
      var step := Store(responses(from));
      var after := Apply(s, step);
      if Accepted(responses(from)) {
        var next := LastOfBatch(from, latest) + 1;
        var rest := StoresAreSegment(after, next, latest, responses);
        states := [s] + rest;
        SegmentPrepend(s, step, rest, StoreSteps(next, latest, responses));
      } else {
        states := [s, after];
      }
    }
  }

  lemma SegmentPrepend(s: State, step: Step, states: seq<State>, steps: seq<Step>)
    requires IsSegment(states, steps) && Enabled(s, step) && states[0] == Apply(s, step)
    ensures IsSegment([s] + states, [step] + steps)
  {
    hide Enabled, Apply;
    var all, moves := [s] + states, [step] + steps;
    forall i | 0 <= i < |moves| ensures Enabled(all[i], moves[i]) && all[i + 1] == Apply(all[i], moves[i]) {
      if i > 0 {
        assert all[i] == states[i - 1] && all[i + 1] == states[i] && moves[i] == steps[i - 1];
      }
    }
  }

  /** A download is a stretch of a run: one start and then the answers to its requests, one store step each, after which
      the blocks are those that the download stores and the downloader is idle. */
  lemma DownloadIsSegment(
    s: State, stored: Option<Eth1Block>, earliest: nat, latest: nat, responses: nat -> Response)
    returns (states: seq<State>, steps: seq<Step>)
    requires s.downloader.Idle? && latest < U64_MAX && AnswersInRange(latest, responses) && IsLatest(s.blocks, stored)
    ensures IsSegment(states, steps) && states[0] == s && steps != []
    ensures steps[0] == Start(stored, earliest, latest) && forall i | 1 <= i < |steps| :: steps[i].Store?
    ensures states[|states| - 1] ==
      s.(blocks := Downloaded(s.blocks, FirstToDownload(stored, earliest, latest), latest, responses))
  {
    hide IsChain, Downloaded, StoreSteps, IsLatest, FirstToDownload, IsSegment, AnswersInRange;
    var first := FirstToDownload(stored, earliest, latest);
    var start := Start(stored, earliest, latest);
    var after := Apply(s, start);
    var rest := StoresAreSegment(after, first, latest, responses);
    SegmentPrepend(s, start, rest, StoreSteps(first, latest, responses));
    SegmentEnds(rest, StoreSteps(first, latest, responses));
    states, steps := [s] + rest, [start] + StoreSteps(first, latest, responses);
  }

  lemma SegmentEnds(states: seq<State>, steps: seq<Step>)
    requires IsSegment(states, steps)
    ensures |states| == |steps| + 1
  {
  }
}
