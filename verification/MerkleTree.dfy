/**
 The incremental Merkle tree: it keeps one hash per height and still computes the root of, and proofs
 for, the whole zero-padded binary tree over every chunk pushed so far.

 The hash function is a parameter, so every result holds for any hash. Shifting an index right by a
 height is `Shr`; a node is addressed by its height and its index at that height, as in the source.
*/
module MerkleTree {
  import opened Results

  /** A 32-byte chunk, read as a little-endian number. */
  type Chunk = nat

  type Hash = (Chunk, Chunk) -> Chunk

  // --- Bits of an index -----------------------------------------------------------------------

  function Pow2(n: nat): nat {
    if n == 0 then 1 else 2 * Pow2(n - 1)
  }

  function Shr(n: nat, height: nat): nat {
    if height == 0 then n else Shr(n, height - 1) / 2
  }

  predicate Bit(n: nat, height: nat) {
    Shr(n, height) % 2 == 1
  }

  /** `index ^ 1`: the other child of the same parent. */
  function Sibling(index: nat): nat {
    if index % 2 == 0 then index + 1 else index - 1
  }

  function TrailingZeros(n: nat): nat
    requires n > 0
  {
    if n % 2 == 1 then 0 else 1 + TrailingZeros(n / 2)
  }

  /** The position of the hash that a push at `index` has to update. */
  function BinaryCarry(index: nat): nat {
    TrailingZeros(index + 1)
  }

  /** The number of one bits at the top of a word of `width` bits. */
  function LeadingOnes(n: nat, width: nat): nat {
    if width == 0 || !Bit(n, width - 1) then 0 else 1 + LeadingOnes(n, width - 1)
  }

  function Log2(n: nat): nat
    requires n > 0
  {
    if n == 1 then 0 else 1 + Log2(n / 2)
  }

  lemma {:induction false} ShrOfHalf(n: nat, height: nat)
    ensures Shr(n, height + 1) == Shr(n / 2, height)
  {
    if height > 0 {
      ShrOfHalf(n, height - 1);
    }
  }

  lemma {:induction false} ShrMonotone(a: nat, b: nat, height: nat)
    requires a <= b
    ensures Shr(a, height) <= Shr(b, height)
  {
    if height > 0 {
      ShrMonotone(a, b, height - 1);
    }
  }

  lemma {:induction false} ShrStaysZero(n: nat, low: nat, high: nat)
    requires low <= high && Shr(n, low) == 0
    ensures Shr(n, high) == 0
  {
    if low < high {
      ShrStaysZero(n, low, high - 1);
    }
  }

  /** An index has bits up to its logarithm, and none past it. */
  lemma {:induction false} ShrPastLog(n: nat, height: nat)
    requires n > 0
    ensures Shr(n, height) == 0 <==> height > Log2(n)
    decreases n
  {
    if height > 0 {
      ShrOfHalf(n, height - 1);
      if n == 1 {
        ShrStaysZero(0, 0, height - 1);
      } else {
        ShrPastLog(n / 2, height - 1);
      }
    }
  }

  /** Adding one flips the trailing ones of an index and the zero above them, and nothing else. */
  lemma {:induction false} ShrIncrement(n: nat, height: nat)
    ensures height <= BinaryCarry(n) ==> Shr(n + 1, height) == Shr(n, height) + 1
    ensures height < BinaryCarry(n) ==> Shr(n, height) % 2 == 1
    ensures height == BinaryCarry(n) ==> Shr(n, height) % 2 == 0
    ensures height > BinaryCarry(n) ==> Shr(n + 1, height) == Shr(n, height)
    decreases height
  {
    if height > 0 {
      ShrOfHalf(n, height - 1);
      ShrOfHalf(n + 1, height - 1);
      if n % 2 == 1 {
        ShrIncrement(n / 2, height - 1);
      }
    }
  }

  // --- The full tree --------------------------------------------------------------------------

  function ZeroHash(hash: Hash, height: nat): Chunk {
    if height == 0 then 0 else hash(ZeroHash(hash, height - 1), ZeroHash(hash, height - 1))
  }

  /** A node of the infinite binary tree over `chunks`, padded with zero chunks. */
  function Node(hash: Hash, chunks: seq<Chunk>, height: nat, index: nat): Chunk
    decreases height
  {
    if height == 0 then (if index < |chunks| then chunks[index] else 0)
    else hash(Node(hash, chunks, height - 1, 2 * index), Node(hash, chunks, height - 1, 2 * index + 1))
  }

  function Root(hash: Hash, chunks: seq<Chunk>, depth: nat): Chunk {
    Node(hash, chunks, depth, 0)
  }

  function MixInLength(hash: Hash, root: Chunk, length: nat): Chunk {
    hash(root, length)
  }

  /** `chunks` fit in a tree of the given depth. */
  predicate Fits(count: nat, depth: nat) {
    count == 0 || Shr(count - 1, depth) == 0
  }

  /** A node that lies past the last chunk is a zero hash. */
  lemma {:induction false} EmptyNode(hash: Hash, chunks: seq<Chunk>, height: nat, index: nat)
    requires |chunks| == 0 || Shr(|chunks| - 1, height) < index
    ensures Node(hash, chunks, height, index) == ZeroHash(hash, height)
    decreases height
  {
    if height > 0 {
      EmptyNode(hash, chunks, height - 1, 2 * index);
      EmptyNode(hash, chunks, height - 1, 2 * index + 1);
    }
  }

  /** A node filled by a prefix of the chunks does not change when more are appended. */
  lemma {:induction false} FullNode(hash: Hash, chunks: seq<Chunk>, more: seq<Chunk>, height: nat, index: nat)
    requires index < Shr(|chunks|, height)
    ensures Node(hash, chunks + more, height, index) == Node(hash, chunks, height, index)
    decreases height
  {
    if height > 0 {
      FullNode(hash, chunks, more, height - 1, 2 * index);
      FullNode(hash, chunks, more, height - 1, 2 * index + 1);
    }
  }

  /** The parent of a node hashes the node with its sibling. */
  lemma Parent(hash: Hash, chunks: seq<Chunk>, height: nat, index: nat)
    ensures Node(hash, chunks, height + 1, index / 2) ==
            if index % 2 == 1
            then hash(Node(hash, chunks, height, index - 1), Node(hash, chunks, height, index))
            else hash(Node(hash, chunks, height, index), Node(hash, chunks, height, index + 1))
  {
  }

  lemma Leaf(hash: Hash, chunks: seq<Chunk>, index: nat)
    requires index < |chunks|
    ensures Shr(index, 0) == index && Node(hash, chunks, 0, Shr(index, 0)) == chunks[index]
  {
  }

  /** Padding with zero chunks does not change the root. */
  lemma {:induction false} PaddingIsZero(hash: Hash, chunks: seq<Chunk>, count: nat, depth: nat)
    ensures Root(hash, chunks + seq(count, _ => 0), depth) == Root(hash, chunks, depth)
  {
    PaddedNode(hash, chunks, count, depth, 0);
  }

  lemma {:induction false} PaddedNode(hash: Hash, chunks: seq<Chunk>, count: nat, height: nat, index: nat)
    ensures Node(hash, chunks + seq(count, _ => 0), height, index) == Node(hash, chunks, height, index)
    decreases height
  {
    if height > 0 {
      PaddedNode(hash, chunks, count, height - 1, 2 * index);
      PaddedNode(hash, chunks, count, height - 1, 2 * index + 1);
    }
  }

  /** What a Merkle root is, without the tree: the root of one chunk is the chunk, and the root of the full left half
      and the rest is the hash of both roots. */
  lemma {:induction false} RootOfHalves(hash: Hash, left: seq<Chunk>, right: seq<Chunk>, depth: nat)
    ensures Root(hash, [], 0) == 0 && forall c: Chunk :: Root(hash, [c], 0) == c
    ensures |left| == Pow2(depth) ==>
      Root(hash, left + right, depth + 1) == hash(Root(hash, left, depth), Root(hash, right, depth))
    ensures |left| <= Pow2(depth) ==>
      Root(hash, left, depth + 1) == hash(Root(hash, left, depth), Root(hash, [], depth))
  {
    if |left| == Pow2(depth) {
      LeftHalf(hash, left, right, depth, depth, 0);
      RightHalf(hash, left, right, depth, depth, 0);
    }
    if |left| <= Pow2(depth) {
      var zeros: seq<Chunk> := seq(Pow2(depth) - |left|, _ => 0);
      PaddingIsZero(hash, left, |zeros|, depth);
      PaddingIsZero(hash, left, |zeros|, depth + 1);
      LeftHalf(hash, left + zeros, [], depth, depth, 0);
      RightHalf(hash, left + zeros, [], depth, depth, 0);
      assert left + zeros + [] == left + zeros;
    }
  }

  lemma {:induction false} LeftHalf(
    hash: Hash, left: seq<Chunk>, right: seq<Chunk>, depth: nat, height: nat, index: nat)
    requires |left| == Pow2(depth) && height <= depth && index < Pow2(depth - height)
    ensures Node(hash, left + right, height, index) == Node(hash, left, height, index)
    decreases height
  {
    if height > 0 {
      LeftHalf(hash, left, right, depth, height - 1, 2 * index);
      LeftHalf(hash, left, right, depth, height - 1, 2 * index + 1);
    }
  }

  lemma {:induction false} RightHalf(
    hash: Hash, left: seq<Chunk>, right: seq<Chunk>, depth: nat, height: nat, index: nat)
    requires |left| == Pow2(depth) && height <= depth
    ensures Node(hash, left + right, height, Pow2(depth - height) + index) == Node(hash, right, height, index)
    decreases height
  {
    if height > 0 {
      RightHalf(hash, left, right, depth, height - 1, 2 * index);
      RightHalf(hash, left, right, depth, height - 1, 2 * index + 1);
    }
  }

  lemma ShrStep(n: nat, height: nat)
    ensures Shr(n, height + 1) == Shr(n, height) / 2
  {
  }

  // --- Proofs ---------------------------------------------------------------------------------

  /** The root a Merkle branch leads to, as `is_valid_merkle_branch` computes it. */
  function BranchRoot(hash: Hash, leaf: Chunk, branch: seq<Chunk>, index: nat): Chunk {
    if |branch| == 0 then leaf
    else
      var height := |branch| - 1;
      var below := BranchRoot(hash, leaf, branch[..height], index);
      if Bit(index, height) then hash(branch[height], below) else hash(below, branch[height])
  }

  /** A branch made of the siblings on the way up leads to the node above the leaf. */
  lemma {:induction false} SiblingsProveNode(hash: Hash, chunks: seq<Chunk>, branch: seq<Chunk>, index: nat)
    requires index < |chunks|
    requires forall height | 0 <= height < |branch| ::
               branch[height] == Node(hash, chunks, height, Sibling(Shr(index, height)))
    ensures BranchRoot(hash, chunks[index], branch, index)
         == Node(hash, chunks, |branch|, Shr(index, |branch|))
  {
    hide Node, Shr;
    if |branch| == 0 {
      Leaf(hash, chunks, index);
    } else {
      var height := |branch| - 1;
      ShrStep(index, height);
      Parent(hash, chunks, height, Shr(index, height));
      SiblingsProveNode(hash, chunks, branch[..height], index);
    }
  }

  /** What a proof of a chunk at `index` has to consist of. */
  ghost predicate IsProof(hash: Hash, chunks: seq<Chunk>, depth: nat, index: nat, proof: seq<Chunk>) {
    && |proof| == depth + 1
    && proof[depth] == |chunks|
    && forall height | 0 <= height < depth ::
         proof[height] == Node(hash, chunks, height, Sibling(Shr(index, height)))
  }

  /** Such a proof is a valid Merkle branch to the root with the length mixed in. */
  lemma ProofIsValid(hash: Hash, chunks: seq<Chunk>, depth: nat, index: nat, proof: seq<Chunk>)
    requires index < |chunks| && Fits(|chunks|, depth)
    requires IsProof(hash, chunks, depth, index, proof)
    ensures BranchRoot(hash, chunks[index], proof, index)
         == MixInLength(hash, Root(hash, chunks, depth), |chunks|)
  {
    hide Node, Shr;
    ShrMonotone(index, |chunks| - 1, depth);
    SiblingsProveNode(hash, chunks, proof[..depth], index);
  }

  // --- The incremental tree -------------------------------------------------------------------

  /** The stored hashes are the left siblings on the path of the next chunk. */
  ghost predicate StoresSiblings(hash: Hash, chunks: seq<Chunk>, siblings: seq<Chunk>) {
    forall height | 0 <= height < |siblings| && Bit(|chunks|, height) ::
      siblings[height] == Node(hash, chunks, height, Shr(|chunks|, height) - 1)
  }

  lemma CarryWithinDepth(index: nat, depth: nat)
    requires Shr(index, depth) == 0
    ensures BinaryCarry(index) <= depth
  {
    ShrIncrement(index, depth);
  }

  lemma StoredSibling(hash: Hash, chunks: seq<Chunk>, siblings: seq<Chunk>, height: nat)
    requires StoresSiblings(hash, chunks, siblings) && height < |siblings| && Bit(|chunks|, height)
    ensures siblings[height] == Node(hash, chunks, height, Shr(|chunks|, height) - 1)
  {
  }

  /** Combining the stored hash or a zero hash with the hash below gives the parent on the path. */
  lemma PathStep(hash: Hash, chunks: seq<Chunk>, chunk: Chunk, height: nat)
    ensures var index, all := |chunks|, chunks + [chunk];
            var node := Node(hash, all, height, Shr(index, height));
            Node(hash, all, height + 1, Shr(index, height + 1)) ==
            if Bit(index, height) then hash(Node(hash, chunks, height, Shr(index, height) - 1), node)
            else hash(node, ZeroHash(hash, height))
  {
    var index, all := |chunks|, chunks + [chunk];
    hide Node, Shr, ZeroHash;
    var node := Shr(index, height);
    ShrStep(index, height);
    Parent(hash, all, height, node);
    if node % 2 == 1 {
      FullNode(hash, chunks, [chunk], height, node - 1);
    } else {
      EmptyNode(hash, all, height, node + 1);
    }
  }

  /** A stored hash whose height lies above the carry stays right when a chunk is added. */
  lemma OldSiblingStaysRight(hash: Hash, chunks: seq<Chunk>, chunk: Chunk, stored: Chunk, height: nat)
    requires height > BinaryCarry(|chunks|) && Bit(|chunks| + 1, height)
    requires Bit(|chunks|, height) ==> stored == Node(hash, chunks, height, Shr(|chunks|, height) - 1)
    ensures stored == Node(hash, chunks + [chunk], height, Shr(|chunks| + 1, height) - 1)
  {
    hide Node, Shr, BinaryCarry;
    ShrIncrement(|chunks|, height);
    FullNode(hash, chunks, [chunk], height, Shr(|chunks|, height) - 1);
  }

  /** Storing the hash reached after the carry restores the invariant for one more chunk. */
  lemma PushKeepsSiblings(
    hash: Hash, chunks: seq<Chunk>, chunk: Chunk, node: Chunk, before: seq<Chunk>, after: seq<Chunk>)
    requires StoresSiblings(hash, chunks, before)
    requires var carry := BinaryCarry(|chunks|);
             && node == Node(hash, chunks + [chunk], carry, Shr(|chunks|, carry))
             && after == if carry < |before| then before[carry := node] else before
    ensures StoresSiblings(hash, chunks + [chunk], after)
  {
    hide Node, Shr, BinaryCarry;
    var carry := BinaryCarry(|chunks|);
    forall height | 0 <= height < |after| && Bit(|chunks + [chunk]|, height)
      ensures after[height] == Node(hash, chunks + [chunk], height, Shr(|chunks + [chunk]|, height) - 1)
    {
      ShrIncrement(|chunks|, height);
      if height > carry {
        OldSiblingStaysRight(hash, chunks, chunk, after[height], height);
      }
    }
  }

  // --- The nodes touched by an extension -------------------------------------------------------

  /** `index & !1`: the left node of a pair. */
  function Left(index: nat): nat {
    index - index % 2
  }

  /** The nodes kept for a height when the chunks from `start` on are new: from the left sibling of the
      first new node up to the last node. */
  ghost predicate IsLevel(hash: Hash, all: seq<Chunk>, start: nat, height: nat, level: seq<Chunk>)
    requires |all| > 0
  {
    && Left(Shr(start, height)) <= Shr(|all| - 1, height)
    && |level| == Shr(|all| - 1, height) - Left(Shr(start, height)) + 1
    && forall i | 0 <= i < |level| :: level[i] == Node(hash, all, height, Left(Shr(start, height)) + i)
  }

  function Pairs(hash: Hash, nodes: seq<Chunk>): seq<Chunk> {
    seq(|nodes| / 2, i requires 0 <= i < |nodes| / 2 => hash(nodes[2 * i], nodes[2 * i + 1]))
  }

  /** The nodes of a height from the nodes of the height below. */
  function LevelAbove(hash: Hash, start: nat, end: nat, height: nat, stored: Chunk, lower: seq<Chunk>): seq<Chunk>
    requires height > 0 && end > 0
  {
    var padding := if Bit(end - 1, height - 1) then [] else [ZeroHash(hash, height - 1)];
    (if Bit(start, height) then [stored] else []) + Pairs(hash, lower + padding)
  }

  lemma LowestIsLevel(hash: Hash, chunks: seq<Chunk>, added: seq<Chunk>, siblings: seq<Chunk>)
    requires |added| > 0 && |siblings| > 0 && StoresSiblings(hash, chunks, siblings)
    ensures IsLevel(hash, chunks + added, |chunks|, 0, (if Bit(|chunks|, 0) then [siblings[0]] else []) + added)
  {
  }

  /** The pairs of a padded level are the nodes above it, from the parent of the first new node on. */
  lemma PairsAreParents(hash: Hash, all: seq<Chunk>, start: nat, height: nat, lower: seq<Chunk>, i: nat)
    requires |all| > 0 && IsLevel(hash, all, start, height, lower)
    requires i <= Shr(|all| - 1, height + 1) - Shr(start, height + 1)
    ensures var padding := if Bit(|all| - 1, height) then [] else [ZeroHash(hash, height)];
            var padded := lower + padding;
            && |padded| / 2 == Shr(|all| - 1, height + 1) - Shr(start, height + 1) + 1
            && Pairs(hash, padded)[i] == Node(hash, all, height + 1, Shr(start, height + 1) + i)
  {
    hide Node, Shr, ZeroHash;
    ShrStep(|all| - 1, height);
    ShrStep(start, height);
    var first, last := Left(Shr(start, height)), Shr(|all| - 1, height);
    var padding := if Bit(|all| - 1, height) then [] else [ZeroHash(hash, height)];
    var padded := lower + padding;
    var index := first + 2 * i;
    assert index / 2 == Shr(start, height + 1) + i;
    Parent(hash, all, height, index);
    assert padded[2 * i] == Node(hash, all, height, index);
    if index == last {
      EmptyNode(hash, all, height, index + 1);
    }
    assert padded[2 * i + 1] == Node(hash, all, height, index + 1);
  }

  lemma LevelAboveIsLevel(hash: Hash, chunks: seq<Chunk>, added: seq<Chunk>, siblings: seq<Chunk>,
                          height: nat, lower: seq<Chunk>)
    requires |added| > 0 && height + 1 < |siblings| && StoresSiblings(hash, chunks, siblings)
    requires IsLevel(hash, chunks + added, |chunks|, height, lower)
    ensures IsLevel(hash, chunks + added, |chunks|, height + 1,
                    LevelAbove(hash, |chunks|, |chunks + added|, height + 1, siblings[height + 1], lower))
  {
    var all, start := chunks + added, |chunks|;
    hide Node, Shr, ZeroHash, Pairs, IsLevel, StoresSiblings;
    var padding := if Bit(|all| - 1, height) then [] else [ZeroHash(hash, height)];
    var parents := Pairs(hash, lower + padding);
    var first, last := Shr(start, height + 1), Shr(|all| - 1, height + 1);
    ShrMonotone(start, |all| - 1, height + 1);
    PairsAreParents(hash, all, start, height, lower, 0);
    PairsLength(hash, lower + padding);
    forall i | 0 <= i < |parents|
      ensures parents[i] == Node(hash, all, height + 1, first + i)
    {
      PairsAreParents(hash, all, start, height, lower, i);
    }
    if Bit(start, height + 1) {
      StoredSibling(hash, chunks, siblings, height + 1);
      FullNode(hash, chunks, added, height + 1, first - 1);
    }
    JoinLevel(hash, all, start, height + 1,
              if Bit(start, height + 1) then [siblings[height + 1]] else [], parents);
  }

  lemma PairsLength(hash: Hash, nodes: seq<Chunk>)
    ensures |Pairs(hash, nodes)| == |nodes| / 2
  {
  }

  lemma JoinLevel(hash: Hash, all: seq<Chunk>, start: nat, height: nat, stored: seq<Chunk>, parents: seq<Chunk>)
    requires |all| > 0 && Shr(start, height) <= Shr(|all| - 1, height)
    requires |parents| == Shr(|all| - 1, height) - Shr(start, height) + 1
    requires forall i | 0 <= i < |parents| :: parents[i] == Node(hash, all, height, Shr(start, height) + i)
    requires |stored| == Shr(start, height) % 2
    requires |stored| == 1 ==> stored[0] == Node(hash, all, height, Shr(start, height) - 1)
    ensures IsLevel(hash, all, start, height, stored + parents)
  {
  }

  /** The hash to store after an extension is among the nodes of its height. */
  lemma NewSibling(hash: Hash, all: seq<Chunk>, start: nat, height: nat, level: seq<Chunk>)
    requires |all| > 0 && IsLevel(hash, all, start, height, level) && Bit(|all|, height)
    ensures Left(Shr(start, height)) <= Left(Shr(|all| - 1, height))
    ensures Left(Shr(|all| - 1, height)) - Left(Shr(start, height)) < |level|
    ensures level[Left(Shr(|all| - 1, height)) - Left(Shr(start, height))]
         == Node(hash, all, height, Shr(|all|, height) - 1)
  {
    hide Node, Shr, BinaryCarry;
    ShrIncrement(|all| - 1, height);
  }

  /** So is each node a proof needs, unless it is empty. */
  lemma ProofNode(hash: Hash, all: seq<Chunk>, start: nat, height: nat, level: seq<Chunk>, index: nat)
    requires start <= index < |all| && IsLevel(hash, all, start, height, level)
    ensures Left(Shr(start, height)) <= Shr(index, height) <= Shr(|all| - 1, height)
    ensures Left(Shr(start, height)) <= Sibling(Shr(index, height))
    ensures Node(hash, all, height, Sibling(Shr(index, height))) ==
            var i := Sibling(Shr(index, height)) - Left(Shr(start, height));
            if i < |level| then level[i] else ZeroHash(hash, height)
  {
    hide Node, Shr, ZeroHash;
    ShrMonotone(start, index, height);
    ShrMonotone(index, |all| - 1, height);
    var sibling := Sibling(Shr(index, height));
    if sibling > Shr(|all| - 1, height) {
      EmptyNode(hash, all, height, sibling);
    }
  }

  /** At the heights above every chunk, the sibling on a path is empty. */
  lemma ProofNodeAboveTree(hash: Hash, all: seq<Chunk>, height: nat, index: nat)
    requires index < |all| && Shr(|all|, height) == 0
    ensures Shr(index, height) == 0
    ensures Node(hash, all, height, Sibling(Shr(index, height))) == ZeroHash(hash, height)
  {
    hide Node, Shr, ZeroHash;
    ShrMonotone(index, |all|, height);
    ShrMonotone(|all| - 1, |all|, height);
    EmptyNode(hash, all, height, 1);
  }

  /** The heights below `cutoff` hold their nodes; the others are empty. */
  ghost predicate HoldsLevels(hash: Hash, all: seq<Chunk>, start: nat, cutoff: nat, nodes: seq<seq<Chunk>>)
    requires |all| > 0
  {
    && cutoff <= |nodes|
    && (forall height | 0 <= height < cutoff :: IsLevel(hash, all, start, height, nodes[height]))
    && (forall height | cutoff <= height < |nodes| :: nodes[height] == [])
  }

  lemma NoLeadingOnes(index: nat, depth: nat)
    requires Shr(index, depth) == 0 && depth < 64
    ensures LeadingOnes(index, 64) == 0
  {
    ShrStaysZero(index, depth, 63);
  }

  /** Nodes past this height are neither part of proofs nor stored. */
  function CutoffHeight(end: nat, depth: nat): nat
    requires end > 0
  {
    if Log2(end) + 1 <= depth then Log2(end) + 1 else depth
  }

  lemma AboveCutoff(end: nat, depth: nat, height: nat)
    requires end > 0 && height < depth
    ensures CutoffHeight(end, depth) <= height <==> Shr(end, height) == 0
  {
    ShrPastLog(end, height);
  }

  /** One proof, read off the nodes of the extension. */
  method ConstructProof(hash: Hash, depth: nat, ghost all: seq<Chunk>, start: nat, end: nat, index: nat,
                        nodes: seq<seq<Chunk>>)
    returns (proof: seq<Chunk>)
    requires start <= index < end == |all| && |nodes| == depth
    requires HoldsLevels(hash, all, start, CutoffHeight(end, depth), nodes)
    ensures IsProof(hash, all, depth, index, proof)
  {
    hide Node, Shr, ZeroHash, IsLevel, CutoffHeight;
    proof := [];
    for height := 0 to depth
      invariant |proof| == height
      invariant forall k | 0 <= k < height :: proof[k] == Node(hash, all, k, Sibling(Shr(index, k)))
    {
      if height < CutoffHeight(end, depth) {
        ProofNode(hash, all, start, height, nodes[height], index);
      } else {
        AboveCutoff(end, depth, height);
        ProofNodeAboveTree(hash, all, height, index);
      }
      var node := SaturatingSub(Sibling(Shr(index, height)), Left(Shr(start, height)));
      proof := proof + [if node < |nodes[height]| then nodes[height][node] else ZeroHash(hash, height)];
    }
    proof := proof + [end];
  }

  class Tree {
    const hash: Hash
    const depth: nat
    const siblings: array<Chunk>
    // Every chunk pushed so far.
    ghost var chunks: seq<Chunk>

    ghost predicate Valid()
      reads this, siblings
    {
      siblings.Length == depth && Fits(|chunks|, depth) && StoresSiblings(hash, chunks, siblings[..])
    }

    constructor (hash: Hash, depth: nat)
      ensures Valid() && chunks == [] && fresh(siblings)
      ensures this.hash == hash && this.depth == depth
    {
      this.hash, this.depth, chunks := hash, depth, [];
      siblings := new Chunk[depth](_ => 0);
      new;
      forall height: nat
        ensures !Bit(0, height)
      {
        ShrStaysZero(0, 0, height);
      }
    }

    /** A tree read back from its stored siblings. */
    constructor Load(hash: Hash, depth: nat, stored: seq<Chunk>, ghost chunks: seq<Chunk>)
      requires |stored| == depth && Fits(|chunks|, depth) && StoresSiblings(hash, chunks, stored)
      ensures Valid() && this.chunks == chunks && siblings[..] == stored && fresh(siblings)
      ensures this.hash == hash && this.depth == depth
    {
      this.hash, this.depth, this.chunks := hash, depth, chunks;
      siblings := new Chunk[depth](i requires 0 <= i < depth => stored[i]);
      new;
      assert siblings[..] == stored;
    }

    method Push(index: nat, chunk: Chunk) returns (updated: nat, node: Chunk)
      requires Valid() && index == |chunks| && Shr(index, depth) == 0
      modifies this, siblings
      ensures Valid() && chunks == old(chunks) + [chunk]
      ensures updated == BinaryCarry(index) <= depth
      ensures node == Node(hash, chunks, updated, Shr(index, updated))
      ensures forall height | 0 <= height < depth && height != updated :: siblings[height] == old(siblings[height])
    {
      hide Node, Shr, BinaryCarry, StoresSiblings;
      CarryWithinDepth(index, depth);
      Leaf(hash, chunks + [chunk], index);
      updated := BinaryCarry(index);
      node := chunk;
      ghost var before := siblings[..];
      for height := 0 to updated
        invariant node == Node(hash, chunks + [chunk], height, Shr(index, height))
        invariant siblings[..] == before && chunks == old(chunks)
      {
        ShrIncrement(index, height);
        PathStep(hash, chunks, chunk, height);
        StoredSibling(hash, chunks, siblings[..], height);
        node := hash(siblings[height], node);
      }
      if updated < depth {
        siblings[updated] := node;
      }
      PushKeepsSiblings(hash, chunks, chunk, node, before, siblings[..]);
      chunks := chunks + [chunk];
    }

    /** The root of the whole tree over every chunk pushed so far. */
    method PushAndComputeRoot(index: nat, chunk: Chunk) returns (root: Chunk)
      requires Valid() && index == |chunks| && Shr(index, depth) == 0
      modifies this, siblings
      ensures Valid() && chunks == old(chunks) + [chunk]
      ensures root == Root(hash, chunks, depth)
    {
      hide Node, Shr, BinaryCarry, StoresSiblings;
      ghost var before := chunks;
      ghost var stored := siblings[..];
      var updated;
      updated, root := Push(index, chunk);
      for height := updated to depth
        invariant root == Node(hash, before + [chunk], height, Shr(index, height))
        invariant Valid() && chunks == before + [chunk]
        invariant forall k | 0 <= k < depth && k != updated :: siblings[k] == stored[k]
      {
        PathStep(hash, before, chunk, height);
        ShrIncrement(index, height);
        if Bit(index, height) {
          StoredSibling(hash, before, stored, height);
          root := hash(siblings[height], root);
        } else {
          root := hash(root, ZeroHash(hash, height));
        }
      }
    }

    /** The nodes, height by height, that the new chunks touch. */
    method ComputeNodes(added: seq<Chunk>, start: nat, end: nat) returns (nodes: seq<seq<Chunk>>)
      requires Valid() && start == |chunks| && end == start + |added| && |added| > 0
      ensures |nodes| == depth
      ensures HoldsLevels(hash, chunks + added, start, CutoffHeight(end, depth), nodes)
    {
      hide Node, Shr, ZeroHash, IsLevel, LevelAbove, StoresSiblings;
      ghost var all := chunks + added;
      nodes := seq(depth, _ => []);
      for height := 0 to CutoffHeight(end, depth)
        invariant |nodes| == depth && HoldsLevels(hash, all, start, height, nodes)
      {
        var level;
        if height == 0 {
          level := (if Bit(start, 0) then [siblings[0]] else []) + added;
          LowestIsLevel(hash, chunks, added, siblings[..]);
        } else {
          level := LevelAbove(hash, start, end, height, siblings[height], nodes[height - 1]);
          LevelAboveIsLevel(hash, chunks, added, siblings[..], height - 1, nodes[height - 1]);
        }
        nodes := nodes[height := level];
      }
    }

    /** `extend_and_construct_proofs`: append several chunks at once and prove some of them. The depth is
        below the width of an index, 64 bits, so that no index has leading ones. */
    method ExtendAndConstructProofs(added: seq<Chunk>, start: nat, end: nat, proofStart: nat, proofEnd: nat)
      returns (proofs: seq<seq<Chunk>>)
      requires Valid() && start == |chunks| && |added| == end - start
      requires start <= proofStart < proofEnd <= end && Fits(end, depth) && depth < 64
      modifies this, siblings
      ensures Valid() && chunks == old(chunks) + added
      ensures |proofs| == proofEnd - proofStart
      ensures forall i | 0 <= i < |proofs| :: IsProof(hash, chunks, depth, proofStart + i, proofs[i])
      ensures var root := MixInLength(hash, Root(hash, chunks, depth), |chunks|);
              forall i | 0 <= i < |proofs| ::
                BranchRoot(hash, chunks[proofStart + i], proofs[i], proofStart + i) == root
    {
      hide Node, Shr, ZeroHash, IsLevel, LevelAbove, StoresSiblings, BranchRoot, IsProof, CutoffHeight;
      ghost var all := chunks + added;
      var nodes := ComputeNodes(added, start, end);
      ShrMonotone(start, end - 1, depth);
      StoreNewSiblings(all, start, end, nodes);
      chunks := all;
      proofs := [];
      for index := proofStart to proofEnd
        invariant |proofs| == index - proofStart && Valid() && chunks == all
        invariant forall i | 0 <= i < |proofs| :: IsProof(hash, all, depth, proofStart + i, proofs[i])
      {
        var proof := ConstructProof(hash, depth, all, start, end, index, nodes);
        proofs := proofs + [proof];
      }
      forall i | 0 <= i < |proofs|
        ensures BranchRoot(hash, all[proofStart + i], proofs[i], proofStart + i)
             == MixInLength(hash, Root(hash, all, depth), |all|)
      {
        ProofIsValid(hash, all, depth, proofStart + i, proofs[i]);
      }
    }

    /** The stored hashes after an extension, read off its nodes. */
    method StoreNewSiblings(ghost all: seq<Chunk>, start: nat, end: nat, nodes: seq<seq<Chunk>>)
      requires Valid() && |nodes| == depth && start <= end == |all| && end > 0
      requires Fits(end, depth) && depth < 64 && Shr(start, depth) == 0
      requires HoldsLevels(hash, all, start, CutoffHeight(end, depth), nodes)
      modifies siblings
      ensures StoresSiblings(hash, all, siblings[..])
    {
      hide Node, Shr, ZeroHash, IsLevel, CutoffHeight;
      NoLeadingOnes(start, depth);
      var filled := 64 - LeadingOnes(start, 64);
      for height := 0 to depth
        invariant forall k | 0 <= k < height && Bit(end, k) :: siblings[k] == Node(hash, all, k, Shr(end, k) - 1)
      {
        if Bit(end, height) && height < filled {
          if CutoffHeight(end, depth) <= height {
            AboveCutoff(end, depth, height);
          }
          NewSibling(hash, all, start, height, nodes[height]);
          var last := Left(Shr(end - 1, height));
          siblings[height] := nodes[height][last - Left(Shr(start, height))];
        }
      }
    }
  }

  /** `merkleize_chunks`: the root of a list of chunks, by pushing them one at a time. */
  method MerkleizeChunks(hash: Hash, depth: nat, chunks: seq<Chunk>) returns (root: Chunk)
    requires Fits(|chunks|, depth)
    ensures root == Root(hash, chunks, depth)
  {
    if |chunks| == 0 {
      EmptyNode(hash, chunks, depth, 0);
      return ZeroHash(hash, depth);
    }
    var last := |chunks| - 1;
    var tree := new Tree(hash, depth);
    for index := 0 to last
      invariant tree.Valid() && tree.chunks == chunks[..index]
      invariant tree.hash == hash && tree.depth == depth && fresh(tree) && fresh(tree.siblings)
    {
      ShrMonotone(index, last, depth);
      var _, _ := tree.Push(index, chunks[index]);
    }
    root := tree.PushAndComputeRoot(last, chunks[last]);
    assert tree.chunks == chunks;
  }
}
