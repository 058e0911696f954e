/** The transaction tree of a block, defined on its own, against the fold of a coinbase over Merkle branches. */
module MerkleTree {
  import opened Bytes
  import opened Civiclight
  import opened Header
  import opened Hex
  import opened Stratum

  ghost function Leaves(p: Primitives, txs: seq<seq<Byte>>): (level: seq<seq<Byte>>)
    requires Civiclight.Usable(p)
    ensures |level| == |txs|
  {
    seq(|txs|, i requires 0 <= i < |txs| => Sha(p, Sha(p, txs[i])))
  }

  /** The level above: every node is the double hash of two neighbours, the last one of an odd level being its own
      neighbour. */
  ghost function Parents(p: Primitives, level: seq<seq<Byte>>): (above: seq<seq<Byte>>)
    requires Civiclight.Usable(p)
    ensures |above| == (|level| + 1) / 2
  {
    seq((|level| + 1) / 2, i requires 0 <= i < (|level| + 1) / 2 =>
      Sha(p, Sha(p, level[2 * i] + level[if 2 * i + 1 < |level| then 2 * i + 1 else 2 * i])))
  }

  ghost function Root(p: Primitives, level: seq<seq<Byte>>): seq<Byte>
    requires Civiclight.Usable(p) && level != []
    decreases |level|
  {
    if |level| == 1 then level[0] else Root(p, Parents(p, level))
  }

  /** The siblings on the way from node 0 of a level to the root. */
  ghost function Siblings(p: Primitives, level: seq<seq<Byte>>): seq<seq<Byte>>
    requires Civiclight.Usable(p) && level != []
    decreases |level|
  {
    if |level| == 1 then [] else [level[1]] + Siblings(p, Parents(p, level))
  }

  /** What a pool sends for a block: the branches of its first transaction. */
  ghost function BranchesOf(p: Primitives, txs: seq<seq<Byte>>): seq<seq<Byte>>
    requires Civiclight.Usable(p) && txs != []
  {
    Siblings(p, Leaves(p, txs))
  }

  /** The Merkle root of a block. */
  ghost function BlockRoot(p: Primitives, txs: seq<seq<Byte>>): seq<Byte>
    requires Civiclight.Usable(p) && txs != []
  {
    Root(p, Leaves(p, txs))
  }

  /** Node 0 has no part in its own siblings. */
  lemma {:induction false} SiblingsIgnoreFirst(p: Primitives, level: seq<seq<Byte>>, other: seq<seq<Byte>>)
    requires Civiclight.Usable(p) && |level| == |other| > 0
    requires forall i :: 1 <= i < |level| ==> level[i] == other[i]
    ensures Siblings(p, level) == Siblings(p, other)
    decreases |level|
  {
    hide Civiclight.Usable;
    if |level| > 1 {
      SiblingsIgnoreFirst(p, Parents(p, level), Parents(p, other));
    }
  }

  lemma FoldOnce(p: Primitives, coinbase: seq<Byte>, below: seq<seq<Byte>>, b: seq<Byte>)
    requires Civiclight.Usable(p)
    ensures MerkleRoot(p, coinbase, below + [b]) == Sha(p, Sha(p, MerkleRoot(p, coinbase, below) + b))
  {
    hide Sha, Civiclight.Usable;
    var all := below + [b];
    assert all[..|all| - 1] == below;
  }

  /** A fold that has reached node 0 of a level reaches the root over that node's siblings. */
  lemma {:induction false} FoldReachesRoot(p: Primitives, coinbase: seq<Byte>, below: seq<seq<Byte>>,
                                           level: seq<seq<Byte>>)
    requires Civiclight.Usable(p) && level != [] && MerkleRoot(p, coinbase, below) == level[0]
    ensures MerkleRoot(p, coinbase, below + Siblings(p, level)) == Root(p, level)
    decreases |level|
  {
    hide Civiclight.Usable, MerkleRoot, Sha;
    if |level| == 1 {
      assert below + [] == below;
    } else {
      var further := below + [level[1]];
      FoldOnce(p, coinbase, below, level[1]);
      FoldReachesRoot(p, coinbase, further, Parents(p, level));
      assert further + Siblings(p, Parents(p, level)) == below + Siblings(p, level);
    }
  }

  /** For every block and every coinbase put in the place of its first transaction: folding the coinbase over the
      block's branches gives the root of the block with that coinbase. */
  lemma FoldIsBlockRoot(p: Primitives, txs: seq<seq<Byte>>, coinbase: seq<Byte>)
    requires Civiclight.Usable(p) && txs != []
    ensures MerkleRoot(p, coinbase, BranchesOf(p, txs)) == BlockRoot(p, txs[0 := coinbase])
  {
    hide Siblings, Root, Civiclight.Usable;
    var level := Leaves(p, txs[0 := coinbase]);
    SiblingsIgnoreFirst(p, Leaves(p, txs), level);
    FoldReachesRoot(p, coinbase, [], level);
    assert [] + Siblings(p, level) == Siblings(p, level);
  }

  lemma {:induction false} DecodeAllIs(m: seq<seq<Byte>>, branches: seq<seq<Byte>>)
    requires |m| == |branches| && forall i :: 0 <= i < |m| ==> HexOf(m[i], 32) && Decode(m[i]) == branches[i]
    ensures DecodeAll(m) == branches
  {
    hide HexOf, Decode;
    if m != [] {
      DecodeAllIs(m[..|m| - 1], branches[..|m| - 1]);
    }
  }

  /** The job is that of the block: its branches, in hex, are those of the block's first transaction. */
  ghost predicate JobOf(p: Primitives, m: Notify, txs: seq<seq<Byte>>)
    requires Civiclight.Usable(p)
  {
    WellFormed(m) && txs != [] && |m.merkle| == |BranchesOf(p, txs)|
    && forall i :: 0 <= i < |m.merkle| ==> Decode(m.merkle[i]) == BranchesOf(p, txs)[i]
  }

  /** The header that is hashed for the job of a block holds, at bytes 36 to 67, the root of the block with the
      miner's own coinbase. */
  lemma HeaderHoldsBlockRoot(p: Primitives, m: Notify, xnonce1: seq<Byte>, xnonce2: seq<Byte>, n: U32,
                             txs: seq<seq<Byte>>)
    requires Civiclight.Usable(p) && JobOf(p, m, txs)
    ensures HeaderAt(WorkData(p, m, xnonce1, xnonce2), false, n)[36..68] ==
            BlockRoot(p, txs[0 := Decode(m.coinb1) + xnonce1 + xnonce2 + Decode(m.coinb2)])
  {
    hide MerkleRoot, DecodeAll, Decode, AllHex, HeaderAt, Le32, SwapWords, WorkData, BranchesOf, BlockRoot,
         Civiclight.Usable;
    WorkImage(p, m, xnonce1, xnonce2, n);
    DecodeAllIs(m.merkle, BranchesOf(p, txs));
    FoldIsBlockRoot(p, txs, Coinbase(m, xnonce1, xnonce2));
  }
}
