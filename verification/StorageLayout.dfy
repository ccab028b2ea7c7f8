/**
 Where core/tee/tee_ree_fs.c puts each element version in the backing file:
 get_offs_size().  Different elements, or different versions of one, never overlap.
 */
module StorageLayout {
  import opened Division

  const BLOCK_SIZE: nat := 4096
  /** struct tee_fs_htree_image: iv, tag, wrapped key, sealed imeta, counter. */
  const HEAD_SIZE: nat := 16 + 16 + 16 + 16 + 4

  /** struct tee_fs_htree_node_image: hash, iv, tag, flags. */
  const NODE_SIZE: nat := 32 + 16 + 16 + 2

  datatype Slot = HeadSlot(vers: nat) | NodeSlot(idx: nat, vers: nat) | BlockSlot(idx: nat, vers: nat)

  /** Sizes of a head and of a node, and how many pairs of nodes go in a block. */
  datatype Sizes = Sizes(head: nat, node: nat, pairs: nat) {
    /** Two heads fit in a block, and so do all the nodes put in one. */
    predicate Fit() { 0 < head && 2 * head <= BLOCK_SIZE && 0 < node && 0 < pairs && 2 * node * pairs <= BLOCK_SIZE }
  }

  /** The layout for given structure sizes: BLOCK_SIZE / (node_size * 2) pairs of nodes per block. */
  function SizesOf(head: nat, node: nat): (z: Sizes)
    requires 0 < head && 2 * head <= BLOCK_SIZE && 0 < node && 2 * node <= BLOCK_SIZE
    ensures z.Fit() && z.head == head && z.node == node && 2 * node * (z.pairs + 1) > BLOCK_SIZE
  {
    DivBounds(2 * node);
    Sizes(head, node, BLOCK_SIZE / (node * 2))
  }

  lemma DivBounds(d: nat)
    requires 0 < d <= BLOCK_SIZE
    ensures 1 <= BLOCK_SIZE / d && d * (BLOCK_SIZE / d) <= BLOCK_SIZE < d * (BLOCK_SIZE / d + 1)
  {
  }

  const SIZES: Sizes := SizesOf(HEAD_SIZE, NODE_SIZE)

  predicate ValidSlot(s: Slot) { s.vers <= 1 }

  function Size(z: Sizes, s: Slot): nat {
    match s
    case HeadSlot(_) => z.head
    case NodeSlot(_, _) => z.node
    case BlockSlot(_, _) => BLOCK_SIZE
  }

  /** The physical block of a slot, with n pairs of nodes per block. */
  function PhysBlock(n: nat, s: Slot): nat
    requires n > 0
  {
    match s
    case HeadSlot(_) => 0
    case NodeSlot(idx, _) => 1 + idx / n * n * 2
    case BlockSlot(idx, vers) => 2 + (2 * idx + vers) + (2 * idx + vers) / (n * 2 - 1)
  }

  /** The offset of a slot inside its physical block. */
  function Inner(z: Sizes, s: Slot): nat
    requires z.Fit()
  {
    match s
    case HeadSlot(vers) => z.head * vers
    case NodeSlot(idx, vers) => 2 * z.node * (idx % z.pairs) + z.node * vers
    case BlockSlot(_, _) => 0
  }

  /** get_offs_size() */
  function Offset(z: Sizes, s: Slot): nat
    requires z.Fit()
  {
    PhysBlock(z.pairs, s) * BLOCK_SIZE + Inner(z, s)
  }

  predicate Disjoint(z: Sizes, a: Slot, b: Slot)
    requires z.Fit()
  {
    Offset(z, a) + Size(z, a) <= Offset(z, b) || Offset(z, b) + Size(z, b) <= Offset(z, a)
  }

  // ---------------------------------------------------------------- arithmetic

  lemma DataPlace(bidx: nat, m: nat)
    requires m > 0
    ensures (1 + bidx + bidx / m) % (m + 1) != 0
  {
    var q, r := bidx / m, bidx % m;
    assert bidx == q * m + r;
    assert q * (m + 1) == q * m + q;
    DivUnique(1 + bidx + bidx / m, m + 1, q, r + 1);
  }

  lemma NodePlace(idx: nat, n: nat)
    requires n > 0
    ensures (idx / n * n * 2) % (2 * n) == 0 && idx / n * n * 2 / (2 * n) == idx / n
  {
    assert idx / n * n * 2 == idx / n * (2 * n);
    DivUnique(idx / n * n * 2, 2 * n, idx / n, 0);
  }

  lemma NodeOrder(w: nat, ra: nat, va: nat, rb: nat)
    requires ra < rb && va <= 1
    ensures 2 * w * ra + w * va + w <= 2 * w * rb
  {
    MulMono(ra + 1, rb, 2 * w);
    MulStep(ra, 2 * w);
    assert w * va <= w;
    assert 2 * w * rb == rb * (2 * w) && 2 * w * ra == ra * (2 * w);
  }

  // ---------------------------------------------------------------- slots within blocks

  lemma InnerFits(z: Sizes, s: Slot)
    requires z.Fit() && ValidSlot(s)
    ensures Inner(z, s) + Size(z, s) <= BLOCK_SIZE
  {
    match s
    case HeadSlot(vers) => assert z.head * vers <= z.head;
    case NodeSlot(idx, vers) =>
      var n, w := z.pairs, 2 * z.node;
      MulMono(idx % n + 1, n, w);
      assert (idx % n + 1) * w == w * (idx % n) + w;
      assert n * w == 2 * z.node * n;
      assert z.node * vers <= z.node;
    case BlockSlot(_, _) =>
  }

  /** Slots in different physical blocks are disjoint. */
  lemma DifferentBlocks(z: Sizes, a: Slot, b: Slot)
    requires z.Fit() && ValidSlot(a) && ValidSlot(b) && PhysBlock(z.pairs, a) != PhysBlock(z.pairs, b)
    ensures Disjoint(z, a, b)
  {
    InnerFits(z, a);
    InnerFits(z, b);
  }

  /** Data blocks keep clear of the physical blocks 1, 1 + 2n, 1 + 4n, ... that hold nodes. */
  lemma DataBlockPlace(n: nat, s: Slot)
    requires n > 0 && s.BlockSlot?
    ensures PhysBlock(n, s) >= 2
    ensures (PhysBlock(n, s) - 1) % (2 * n) != 0
  {
    var b, m := 2 * s.idx + s.vers, n * 2 - 1;
    DataPlace(b, m);
    assert PhysBlock(n, s) - 1 == 1 + b + b / m;
  }

  lemma NodeBlockPlace(n: nat, s: Slot)
    requires n > 0 && s.NodeSlot?
    ensures PhysBlock(n, s) >= 1
    ensures (PhysBlock(n, s) - 1) % (2 * n) == 0
    ensures (PhysBlock(n, s) - 1) / (2 * n) == s.idx / n
  {
    NodePlace(s.idx, n);
  }

  lemma NodesDisjoint(z: Sizes, a: Slot, b: Slot)
    requires z.Fit() && ValidSlot(a) && ValidSlot(b) && a.NodeSlot? && b.NodeSlot? && a != b
    ensures Disjoint(z, a, b)
  {
    var n := z.pairs;
    NodeBlockPlace(z.pairs, a);
    NodeBlockPlace(z.pairs, b);
    if a.idx / n != b.idx / n {
      DifferentBlocks(z, a, b);
    } else {
      SameBlockNodes(z, a, b);
    }
  }

  lemma SameBlockNodes(z: Sizes, a: Slot, b: Slot)
    requires z.Fit() && ValidSlot(a) && ValidSlot(b) && a.NodeSlot? && b.NodeSlot? && a != b
    requires a.idx / z.pairs == b.idx / z.pairs
    ensures Disjoint(z, a, b)
  {
    var n := z.pairs;
    var ra, rb := a.idx % n, b.idx % n;
    if ra == rb {
      SameQuotient(a.idx, b.idx, n);
    }
    if ra < rb {
      NodeOrder(z.node, ra, a.vers, rb);
    } else if rb < ra {
      NodeOrder(z.node, rb, b.vers, ra);
    }
  }

  /** Data blocks are laid out in the order of 2 * idx + vers. */
  lemma BlocksOrdered(z: Sizes, a: Slot, b: Slot)
    requires z.Fit() && a.BlockSlot? && b.BlockSlot? && 2 * a.idx + a.vers < 2 * b.idx + b.vers
    ensures Offset(z, a) + Size(z, a) <= Offset(z, b)
  {
    DivMono(2 * a.idx + a.vers, 2 * b.idx + b.vers, z.pairs * 2 - 1);
  }

  /** Element `a` comes before `b` of the same kind: by index, then version. */
  predicate Earlier(a: Slot, b: Slot) {
    match (a, b)
    case (HeadSlot(v), HeadSlot(w)) => v < w
    case (NodeSlot(i, v), NodeSlot(j, w)) => i < j || (i == j && v < w)
    case (BlockSlot(i, v), BlockSlot(j, w)) => i < j || (i == j && v < w)
    case _ => false
  }

  lemma NodesOrdered(z: Sizes, a: Slot, b: Slot)
    requires z.Fit() && ValidSlot(a) && ValidSlot(b) && a.NodeSlot? && b.NodeSlot? && Earlier(a, b)
    ensures Offset(z, a) + Size(z, a) <= Offset(z, b)
  {
    var n := z.pairs;
    var qa, qb := a.idx / n, b.idx / n;
    DivMono(a.idx, b.idx, n);
    if qa < qb {
      InnerFits(z, a);
      NodeBlockPlace(n, a);
      NodeBlockPlace(n, b);
      MulMono(qa + 1, qb, n * 2);
      assert qa * n * 2 == qa * (n * 2) && qb * n * 2 == qb * (n * 2);
      assert PhysBlock(n, a) + 1 <= PhysBlock(n, b);
    } else if a.idx < b.idx {
      SmallerRest(a.idx, b.idx, n);
      NodeOrder(z.node, a.idx % n, a.vers, b.idx % n);
    }
  }

  lemma SmallerRest(a: nat, b: nat, n: nat)
    requires n > 0 && a < b && a / n == b / n
    ensures a % n < b % n
  {
    assert a == a / n * n + a % n && b == b / n * n + b % n;
  }

  /** Elements of a kind are laid out in order, the two versions of each side by side. */
  lemma SlotsOrdered(z: Sizes, a: Slot, b: Slot)
    requires z.Fit() && ValidSlot(a) && ValidSlot(b) && Earlier(a, b)
    ensures Offset(z, a) + Size(z, a) <= Offset(z, b)
  {
    hide PhysBlock;
    if a.NodeSlot? {
      NodesOrdered(z, a, b);
    } else if a.BlockSlot? {
      BlocksOrdered(z, a, b);
    } else {
      HeadsOrdered(z);
    }
  }

  lemma HeadsOrdered(z: Sizes)
    requires z.Fit()
    ensures Offset(z, HeadSlot(0)) == 0 && Offset(z, HeadSlot(1)) == z.head
  {
  }

  /** get_offs_size() gives disjoint byte ranges to all distinct slots. */
  lemma SlotsDisjoint(z: Sizes, a: Slot, b: Slot)
    requires z.Fit() && ValidSlot(a) && ValidSlot(b) && a != b
    ensures Disjoint(z, a, b)
  {
    if a.HeadSlot? && b.HeadSlot? {
      assert {a.vers, b.vers} == {0, 1};
    } else if a.NodeSlot? && b.NodeSlot? {
      NodesDisjoint(z, a, b);
    } else if a.BlockSlot? && b.BlockSlot? {
      if 2 * a.idx + a.vers < 2 * b.idx + b.vers {
        BlocksOrdered(z, a, b);
      } else {
        BlocksOrdered(z, b, a);
      }
    } else {
      if a.NodeSlot? { NodeBlockPlace(z.pairs, a); }
      if b.NodeSlot? { NodeBlockPlace(z.pairs, b); }
      if a.BlockSlot? { DataBlockPlace(z.pairs, a); }
      if b.BlockSlot? { DataBlockPlace(z.pairs, b); }
      DifferentBlocks(z, a, b);
    }
  }

  lemma NodeBlockAt(n: nat, q: nat)
    requires n > 0
    ensures PhysBlock(n, NodeSlot(q * n, 0)) == 1 + q * (2 * n)
  {
    DivUnique(q * n, n, q, 0);
    assert q * n * 2 == q * (2 * n);
  }

  lemma DataBlockAt(n: nat, q: nat, r: nat) returns (s: Slot)
    requires n > 0 && 1 <= r < 2 * n
    ensures ValidSlot(s) && PhysBlock(n, s) == 1 + q * (2 * n) + r
  {
    var m := n * 2 - 1;
    var b := q * m + (r - 1);
    DivUnique(b, m, q, r - 1);
    assert q * (2 * n) == q * m + q;
    assert b == 2 * (b / 2) + b % 2;
    s := BlockSlot(b / 2, b % 2);
  }

  /** No physical block is left over: each is that of the heads, of some nodes or of one data block. */
  lemma EveryBlockUsed(n: nat, p: nat) returns (s: Slot)
    requires n > 0
    ensures ValidSlot(s) && PhysBlock(n, s) == p
  {
    hide PhysBlock;
    if p == 0 {
      HeadBlock(n);
      s := HeadSlot(0);
    } else {
      var q, r := Parts(p - 1, 2 * n);
      if r == 0 {
        NodeBlockAt(n, q);
        s := NodeSlot(q * n, 0);
      } else {
        s := DataBlockAt(n, q, r);
      }
    }
  }

  lemma Parts(a: nat, d: nat) returns (q: nat, r: nat)
    requires d > 0
    ensures a == q * d + r && r < d
  {
    q, r := a / d, a % d;
  }

  lemma HeadBlock(n: nat)
    requires n > 0
    ensures PhysBlock(n, HeadSlot(0)) == 0
  {
  }

  // ---------------------------------------------------------------- a flat file

  /** Writing `data` at `offs` in a file of bytes, which grows with zeros as needed. */
  function WriteAt(file: seq<bv8>, offs: nat, data: seq<bv8>): (r: seq<bv8>)
    ensures |r| == if offs + |data| > |file| then offs + |data| else |file|
    ensures r[offs..offs + |data|] == data
    ensures forall i :: 0 <= i < |file| && (i < offs || offs + |data| <= i) ==> r[i] == file[i]
  {
    var f := if |file| < offs + |data| then file + seq(offs + |data| - |file|, _ => 0) else file;
    f[..offs] + data + f[offs + |data|..]
  }

  /** In the flat file a slot reads back what was written to it, and keeps it when another is written. */
  lemma SlotReadBack(z: Sizes, file: seq<bv8>, a: Slot, data: seq<bv8>, b: Slot, data': seq<bv8>)
    requires z.Fit() && ValidSlot(a) && ValidSlot(b) && a != b
    requires |data| == Size(z, a) && |data'| == Size(z, b)
    ensures var f := WriteAt(WriteAt(file, Offset(z, a), data), Offset(z, b), data');
            Offset(z, a) + Size(z, a) <= |f| && f[Offset(z, a)..Offset(z, a) + Size(z, a)] == data
  {
    SlotsDisjoint(z, a, b);
    var f1 := WriteAt(file, Offset(z, a), data);
    var f := WriteAt(f1, Offset(z, b), data');
    forall i | 0 <= i < |data| ensures f[Offset(z, a) + i] == data[i] {
      assert f1[Offset(z, a)..Offset(z, a) + |data|][i] == data[i];
    }
  }
}
