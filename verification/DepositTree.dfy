/**
 The deposit tree: a Merkle tree of depth 32 over deposit data that only accepts the next index, used to
 compute the deposit root and to construct proofs of deposits.
*/
module DepositTree {
  import opened Results
  import opened MerkleTree

  const DEPTH: nat := 32

  const MAX_DEPOSITS: nat := Pow2(DEPTH)

  datatype Error = Full | UnexpectedIndex | InvalidIndexRanges | CountMismatch

  datatype Deposit<T> = Deposit(proof: seq<Chunk>, data: T)

  lemma {:induction false} ShrZeroBelowPow2(n: nat, height: nat)
    ensures Shr(n, height) == 0 <==> n < Pow2(height)
    decreases height
  {
    if height > 0 {
      ShrOfHalf(n, height - 1);
      ShrZeroBelowPow2(n / 2, height - 1);
    }
  }

  /** The chunks of the tree that holds the given deposits. */
  function Leaves<T>(leafOf: T -> Chunk, deposits: seq<T>): (r: seq<Chunk>)
    ensures |r| == |deposits| && forall i | 0 <= i < |r| :: r[i] == leafOf(deposits[i])
  {
    seq(|deposits|, i requires 0 <= i < |deposits| => leafOf(deposits[i]))
  }

  lemma LeavesAppend<T>(leafOf: T -> Chunk, deposits: seq<T>, more: seq<T>)
    ensures |Leaves(leafOf, deposits)| == |deposits|
    ensures Leaves(leafOf, deposits + more) == Leaves(leafOf, deposits) + Leaves(leafOf, more)
  {
  }

  lemma LeavesPush<T>(leafOf: T -> Chunk, deposits: seq<T>, data: T)
    ensures Leaves(leafOf, deposits + [data]) == Leaves(leafOf, deposits) + [leafOf(data)]
  {
  }

  /** The deposit root: the Merkle root with the number of deposits mixed in. */
  function DepositRoot<T>(hash: Hash, leafOf: T -> Chunk, deposits: seq<T>): Chunk {
    MixInLength(hash, Root(hash, Leaves(leafOf, deposits), DEPTH), |deposits|)
  }

  datatype Snapshot = Snapshot(siblings: seq<Chunk>, depositCount: nat, lastAddedBlockNumber: nat)

  /** The snapshot is that of a tree which holds exactly the given deposits. */
  ghost predicate IsSnapshotOf<T>(snapshot: Snapshot, hash: Hash, leafOf: T -> Chunk, deposits: seq<T>) {
    && |snapshot.siblings| == DEPTH && snapshot.depositCount == |deposits| && Fits(|deposits|, DEPTH)
    && StoresSiblings(hash, Leaves(leafOf, deposits), snapshot.siblings)
  }

  class DepositTree<T> {
    const leafOf: T -> Chunk
    const merkleTree: Tree
    var depositCount: nat
    var lastAddedBlockNumber: nat
    // The data of every deposit pushed so far.
    ghost var deposits: seq<T>

    ghost predicate Valid()
      reads this, merkleTree, merkleTree.siblings
    {
      && merkleTree.Valid() && merkleTree.depth == DEPTH
      && depositCount == |deposits|
      && merkleTree.chunks == Leaves(leafOf, deposits)
    }

    /** The default tree: no deposits, and every stored hash zero. */
    constructor (hash: Hash, leafOf: T -> Chunk)
      ensures Valid() && deposits == [] && lastAddedBlockNumber == 0
      ensures merkleTree.hash == hash && this.leafOf == leafOf
      ensures fresh(merkleTree) && fresh(merkleTree.siblings)
    {
      this.leafOf := leafOf;
      merkleTree := new Tree(hash, DEPTH);
      depositCount, lastAddedBlockNumber, deposits := 0, 0, [];
    }

    /** A tree read back from what was persisted. */
    constructor Load(hash: Hash, leafOf: T -> Chunk, snapshot: Snapshot, ghost deposits: seq<T>)
      requires IsSnapshotOf(snapshot, hash, leafOf, deposits)
      ensures Valid() && this.deposits == deposits && TakeSnapshot() == snapshot
      ensures merkleTree.hash == hash && this.leafOf == leafOf
      ensures fresh(merkleTree) && fresh(merkleTree.siblings)
    {
      this.leafOf := leafOf;
      merkleTree := new Tree.Load(hash, DEPTH, snapshot.siblings, Leaves(leafOf, deposits));
      depositCount, lastAddedBlockNumber := snapshot.depositCount, snapshot.lastAddedBlockNumber;
      this.deposits := deposits;
    }

    /** The part of the tree that is persisted: everything but the ghost state. */
    function TakeSnapshot(): (r: Snapshot)
      requires Valid()
      reads this, merkleTree, merkleTree.siblings
      ensures IsSnapshotOf(r, merkleTree.hash, leafOf, deposits)
    {
      Snapshot(merkleTree.siblings[..], depositCount, lastAddedBlockNumber)
    }

    function ValidateIndex(index: nat): (r: Option<Error>)
      reads this
      ensures r.None? <==> index < MAX_DEPOSITS && index == depositCount
      ensures r == Some(Full) <==> index >= MAX_DEPOSITS
      ensures r == Some(UnexpectedIndex) <==> index < MAX_DEPOSITS && index != depositCount
    {
      if index >= MAX_DEPOSITS then Some(Full)
      else if index != depositCount then Some(UnexpectedIndex)
      else None
    }

    method Push(index: nat, data: T) returns (r: Option<Error>)
      requires Valid()
      modifies this`depositCount, this`deposits, merkleTree, merkleTree.siblings
      ensures Valid() && r == old(ValidateIndex(index))
      ensures deposits == if r.None? then old(deposits) + [data] else old(deposits)
      ensures r.Some? ==> merkleTree.siblings[..] == old(merkleTree.siblings[..])
    {
      hide Node, Shr, StoresSiblings, BinaryCarry, Pow2, Leaves, Tree.Valid;
      r := ValidateIndex(index);
      if r.Some? {
        return;
      }
      ShrZeroBelowPow2(index, DEPTH);
      LeavesAppend(leafOf, deposits, []);
      LeavesPush(leafOf, deposits, data);
      var _, _ := merkleTree.Push(index, leafOf(data));
      depositCount, deposits := depositCount + 1, deposits + [data];
    }

    /** Returns the deposit root over every deposit pushed so far. */
    method PushAndComputeRoot(index: nat, data: T) returns (r: Result<Chunk, Error>)
      requires Valid()
      modifies this`depositCount, this`deposits, merkleTree, merkleTree.siblings
      ensures Valid()
      ensures r.Ok? <==> old(ValidateIndex(index)).None?
      ensures r.Err? ==> old(ValidateIndex(index)) == Some(r.error) && deposits == old(deposits)
      ensures r.Ok? ==> && deposits == old(deposits) + [data]
                        && r.value == DepositRoot(merkleTree.hash, leafOf, deposits)
                        && r.value == merkleTree.hash(
                             Root(merkleTree.hash, Leaves(leafOf, deposits), 32), |deposits|)
    {
      hide Node, Shr, StoresSiblings, BinaryCarry, Pow2, Leaves, Tree.Valid, Root;
      var invalid := ValidateIndex(index);
      if invalid.Some? {
        return Err(invalid.value);
      }
      ShrZeroBelowPow2(index, DEPTH);
      LeavesAppend(leafOf, deposits, []);
      LeavesPush(leafOf, deposits, data);
      var root := merkleTree.PushAndComputeRoot(index, leafOf(data));
      depositCount, deposits := depositCount + 1, deposits + [data];
      return Ok(MixInLength(merkleTree.hash, root, index + 1));
    }

    /** Appends `data` as the deposits `start..end` and returns those in `proofStart..proofEnd`, each with
        a branch that leads from its leaf to the deposit root. Nothing changes when it fails. */
    method ExtendAndConstructProofs(data: seq<T>, start: nat, end: nat, proofStart: nat, proofEnd: nat)
      returns (r: Result<seq<Deposit<T>>, Error>)
      requires Valid()
      modifies this`depositCount, this`deposits, merkleTree, merkleTree.siblings
      ensures Valid()
      ensures r.Ok? <==> && start <= proofStart < proofEnd <= end && end - 1 < MAX_DEPOSITS
                         && start == old(depositCount) && |data| == end - start
      ensures r.Err? ==> deposits == old(deposits)
      ensures r.Err? ==> r.error == if !(start <= proofStart < proofEnd <= end) then InvalidIndexRanges
                                    else if end - 1 >= MAX_DEPOSITS then Full
                                    else if start != old(depositCount) then UnexpectedIndex
                                    else CountMismatch
      ensures r.Ok? ==> deposits == old(deposits) + data && |r.value| == proofEnd - proofStart
      ensures r.Ok? ==> var root := DepositRoot(merkleTree.hash, leafOf, deposits);
                        forall i | 0 <= i < |r.value| ::
                          && r.value[i].data == deposits[proofStart + i]
                          && BranchRoot(merkleTree.hash, leafOf(r.value[i].data), r.value[i].proof, proofStart + i)
                             == root
    {
      hide Node, Shr, BranchRoot, Root, IsProof, MixInLength, StoresSiblings, Tree.Valid, Pow2;
      if !(start <= proofStart < proofEnd <= end) {
        return Err(InvalidIndexRanges);
      }
      if end - 1 >= MAX_DEPOSITS {
        return Err(Full);
      }
      if start != depositCount {
        return Err(UnexpectedIndex);
      }
      if |data| != end - start {
        return Err(CountMismatch);
      }
      ShrZeroBelowPow2(end - 1, DEPTH);
      LeavesAppend(leafOf, deposits, data);
      LeavesAppend(leafOf, data, []);
      var proofs := merkleTree.ExtendAndConstructProofs(Leaves(leafOf, data), start, end, proofStart, proofEnd);
      depositCount, deposits := end, deposits + data;
      return Ok(seq(|proofs|, i requires 0 <= i < |proofs| => Deposit(proofs[i], data[proofStart + i - start])));
    }
  }
}
