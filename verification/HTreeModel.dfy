/**
 Value model of the hash tree of core/tee/fs_htree.c.

 A tree lives in memory as nodes 1..n (node i is a child of node i/2) and on
 storage as two versions of each head, node and block.  SHA-256, AES-GCM and the
 key wrapping are parameters: the only laws asked of them are in `Sound`.
 */
module HTreeModel {
  import opened Prelude

  const HASH_SIZE: nat := 32
  const UINT32_MAX: nat := 0xFFFF_FFFF

  // ---------------------------------------------------------------- on-storage data

  datatype Meta = Meta(length: nat)
  datatype Imeta = Imeta(meta: Meta, maxNodeId: nat)

  /** The three bits of tee_fs_htree_node_image.flags that the tree uses. */
  datatype Flags = Flags(block: bool, child0: bool, child1: bool) {
    function Child(right: bool): bool { if right then child1 else child0 }

    function ToggleChild(right: bool): Flags {
      if right then this.(child1 := !child1) else this.(child0 := !child0)
    }

    function ToggleBlock(): Flags { this.(block := !block) }
  }

  datatype NodeImage = NodeImage(hash: Bytes, iv: Bytes, tag: Bytes, flags: Flags)

  datatype Head = Head(iv: Bytes, tag: Bytes, encFek: Bytes, imeta: Bytes, counter: nat)

  /** Storage: version `true` is version 1 of an element, `false` is version 0. */
  datatype Disk = Disk(heads: map<bool, Head>,
                       nodes: map<(nat, bool), NodeImage>,
                       blocks: map<(nat, bool), Bytes>)

  datatype Write =
    | WriteHead(vers: bool, head: Head)
    | WriteNode(id: nat, vers: bool, image: NodeImage)
    | WriteBlock(num: nat, vers: bool, cipher: Bytes)

  function Apply(disk: Disk, w: Write): Disk {
    match w
    case WriteHead(v, h) => disk.(heads := disk.heads[v := h])
    case WriteNode(id, v, image) => disk.(nodes := disk.nodes[(id, v) := image])
    case WriteBlock(num, v, cipher) => disk.(blocks := disk.blocks[(num, v) := cipher])
  }

  function ApplyAll(disk: Disk, ws: seq<Write>): Disk
    decreases |ws|
  {
    if ws == [] then disk else Apply(ApplyAll(disk, ws[..|ws| - 1]), ws[|ws| - 1])
  }

  lemma {:induction false} ApplyAllConcat(disk: Disk, a: seq<Write>, b: seq<Write>)
    ensures ApplyAll(disk, a + b) == ApplyAll(ApplyAll(disk, a), b)
    decreases |b|
  {
    if b == [] {
      assert a + b == a;
    } else {
      var b' := b[..|b| - 1];
      assert (a + b)[..|a + b| - 1] == a + b';
      ApplyAllConcat(disk, a, b');
    }
  }

  // ---------------------------------------------------------------- cryptography

  /** What calc_node_hash() feeds to SHA-256, field by field. */
  datatype HashInput = HashInput(iv: Bytes, tag: Bytes, flags: Flags, meta: Option<Meta>,
                                 child0: Option<Bytes>, child1: Option<Bytes>)

  /** What authenc_init() authenticates besides the IV; of the root hash that is its first half. */
  datatype Aad =
    | HeadAad(rootPart: Bytes, counter: nat, encFek: Bytes)
    | BlockAad(encFek: Bytes)

  function HeadData(rootHash: Bytes, counter: nat, encFek: Bytes): Aad {
    HeadAad(if |rootHash| > 16 then rootHash[..16] else rootHash, counter, encFek)
  }

  datatype Plain = PlainImeta(imeta: Imeta) | PlainBlock(bytes: Bytes)
  datatype Sealed = Sealed(cipher: Bytes, tag: Bytes)

  datatype Crypto = Crypto(
    digest: HashInput -> Bytes,
    wrap: Bytes -> Bytes,
    unwrap: Bytes -> Bytes,
    seal: (Bytes, Bytes, Aad, Plain) -> Sealed,
    unseal: (Bytes, Bytes, Aad, Sealed) -> Option<Plain>)

  /** Decryption undoes encryption, key unwrapping undoes wrapping, digests have 32 bytes. */
  ghost predicate Sound(c: Crypto) {
    && (forall k :: c.unwrap(c.wrap(k)) == k)
    && (forall k, iv, aad, p :: c.unseal(k, iv, aad, c.seal(k, iv, aad, p)) == Some(p))
    && (forall x :: |c.digest(x)| == HASH_SIZE)
  }

  /** These two hash inputs do not collide: asked for only where a tree is told by its root hash. */
  predicate NoCollision(c: Crypto, x: HashInput, y: HashInput) {
    c.digest(x) == c.digest(y) ==> x == y
  }

  // ---------------------------------------------------------------- in-memory tree

  datatype NodeState = NodeState(dirty: bool, updated: bool, image: NodeImage)

  /** `nodes[i - 1]` is the node with id i. */
  datatype Tree = Tree(nodes: seq<NodeState>, head: Head, fek: Bytes, imeta: Imeta, dirty: bool)

  const NO_FLAGS := Flags(false, false, false)

  /** A node fresh from calloc(). */
  const FRESH_NODE := NodeState(false, false, NodeImage(Zeros(HASH_SIZE), Zeros(16), Zeros(16), NO_FLAGS))

  const ZERO_HEAD := Head(Zeros(16), Zeros(16), Zeros(16), Zeros(16), 0)

  /** Node 1 is part of struct tee_fs_htree and exists even when max_node_id is 0. */
  function NodeCount(maxNodeId: nat): nat { if maxNodeId == 0 then 1 else maxNodeId }

  function ChildHash(images: seq<NodeImage>, id: nat): Option<Bytes>
    requires id > 0
  {
    if id <= |images| then Some(images[id - 1].hash) else None
  }

  /** The bytes hashed by calc_node_hash() for node `id`. */
  function NodeInput(images: seq<NodeImage>, meta: Meta, id: nat): HashInput
    requires 1 <= id <= |images|
  {
    var n := images[id - 1];
    HashInput(n.iv, n.tag, n.flags, if id == 1 then Some(meta) else None,
              ChildHash(images, 2 * id), ChildHash(images, 2 * id + 1))
  }

  /** The version of node `id` that counts, given its parent's flags or the head counter. */
  function NodeVers(images: seq<NodeImage>, counter: nat, id: nat): bool
    requires 1 <= id <= |images|
  {
    if id == 1 then Odd(counter) else images[id / 2 - 1].flags.Child(Odd(id))
  }

  function Images(nodes: seq<NodeState>): (images: seq<NodeImage>)
    ensures |images| == |nodes|
    ensures forall i :: 0 <= i < |nodes| ==> images[i] == nodes[i].image
  {
    seq(|nodes|, i requires 0 <= i < |nodes| => nodes[i].image)
  }

  function Clean(images: seq<NodeImage>): (nodes: seq<NodeState>)
    ensures |nodes| == |images|
    ensures forall i :: 0 <= i < |nodes| ==> nodes[i] == NodeState(false, false, images[i])
  {
    seq(|images|, i requires 0 <= i < |images| => NodeState(false, false, images[i]))
  }

  // ---------------------------------------------------------------- block access

  /** get_node() with create: the nodes missing up to `id` are added, blank. */
  function Grow(t: Tree, id: nat): (r: Tree)
    ensures |r.nodes| == if id <= |t.nodes| then |t.nodes| else id
  {
    if id <= |t.nodes| then t
    else
      t.(nodes := t.nodes + seq(id - |t.nodes|, _ => FRESH_NODE),
         imeta := t.imeta.(maxNodeId := if id > t.imeta.maxNodeId then id else t.imeta.maxNodeId))
  }

  /** tee_fs_htree_write_block(), with the random IV as a parameter. */
  function WriteBlockTree(c: Crypto, t: Tree, num: nat, block: Bytes, iv: Bytes): (r: (Tree, Write)) {
    var g := Grow(t, num + 1);
    var n := g.nodes[num];
    var flags := if n.updated then n.image.flags else n.image.flags.ToggleBlock();
    var sealed := c.seal(g.fek, iv, BlockAad(g.head.encFek), PlainBlock(block));
    var image := n.image.(flags := flags, iv := iv, tag := sealed.tag);
    (g.(nodes := g.nodes[num := NodeState(true, true, image)], dirty := true),
     WriteBlock(num, flags.block, sealed.cipher))
  }

  /** Decrypts the version of block `num` that node image `n` points to. */
  function BlockOnDisk(c: Crypto, disk: Disk, fek: Bytes, encFek: Bytes, n: NodeImage, num: nat): Option<Bytes> {
    if (num, n.flags.block) !in disk.blocks then None
    else
      match c.unseal(fek, n.iv, BlockAad(encFek), Sealed(disk.blocks[(num, n.flags.block)], n.tag))
      case Some(PlainBlock(b)) => Some(b)
      case _ => None
  }

  /** tee_fs_htree_read_block(). */
  function ReadBlockTree(c: Crypto, disk: Disk, t: Tree, num: nat): Option<Bytes> {
    if num >= |t.nodes| then None
    else BlockOnDisk(c, disk, t.fek, t.head.encFek, t.nodes[num].image, num)
  }

  /** Assigning meta.length followed by tee_fs_htree_meta_set_dirty(). */
  function SetMetaTree(t: Tree, meta: Meta): Tree
    requires t.nodes != []
  {
    t.(imeta := t.imeta.(meta := meta), dirty := true,
       nodes := t.nodes[0 := t.nodes[0].(dirty := true)])
  }

  /** tee_fs_htree_truncate(): drops the nodes beyond that of block `num`. */
  function TruncateTree(t: Tree, num: nat): Tree
    requires |t.nodes| == NodeCount(t.imeta.maxNodeId)
  {
    if num + 1 >= t.imeta.maxNodeId then t
    else t.(nodes := t.nodes[..num + 1], imeta := t.imeta.(maxNodeId := num + 1), dirty := true)
  }

  // ---------------------------------------------------------------- sync

  /** A node is written by a sync when it or a node below it is dirty. */
  predicate MustWrite(nodes: seq<NodeState>, id: nat)
    requires id > 0
    decreases |nodes| + 1 - id
  {
    id <= |nodes| && (nodes[id - 1].dirty || MustWrite(nodes, 2 * id) || MustWrite(nodes, 2 * id + 1))
  }

  /** Flags after a sync: the bit of each rewritten child has been toggled. */
  function SyncedFlags(nodes: seq<NodeState>, id: nat): Flags
    requires 1 <= id <= |nodes|
  {
    var f := nodes[id - 1].image.flags;
    Flags(f.block, f.child0 != MustWrite(nodes, 2 * id), f.child1 != MustWrite(nodes, 2 * id + 1))
  }

  function SyncedHash(c: Crypto, nodes: seq<NodeState>, meta: Meta, id: nat): Option<Bytes>
    requires id > 0
    decreases |nodes| + 1 - id, 0
  {
    if id > |nodes| then None
    else if !MustWrite(nodes, id) then Some(nodes[id - 1].image.hash)
    else
      var n := nodes[id - 1].image;
      Some(c.digest(HashInput(n.iv, n.tag, SyncedFlags(nodes, id), if id == 1 then Some(meta) else None,
                              SyncedHash(c, nodes, meta, 2 * id), SyncedHash(c, nodes, meta, 2 * id + 1))))
  }

  function SyncedImage(c: Crypto, nodes: seq<NodeState>, meta: Meta, id: nat): NodeImage
    requires 1 <= id <= |nodes|
  {
    nodes[id - 1].image.(flags := SyncedFlags(nodes, id), hash := SyncedHash(c, nodes, meta, id).value)
  }

  function SyncedImages(c: Crypto, nodes: seq<NodeState>, meta: Meta): (images: seq<NodeImage>)
    ensures |images| == |nodes|
    ensures forall i :: 0 <= i < |nodes| ==> images[i] == SyncedImage(c, nodes, meta, i + 1)
  {
    seq(|nodes|, i requires 0 <= i < |nodes| => SyncedImage(c, nodes, meta, i + 1))
  }

  /** The version of node `id` a sync writes to. */
  function SyncedVers(nodes: seq<NodeState>, counter: nat, id: nat): bool
    requires 1 <= id <= |nodes|
  {
    if id == 1 then !Odd(counter) else SyncedFlags(nodes, id / 2).Child(Odd(id))
  }

  function NodeWrite(c: Crypto, t: Tree, id: nat): Write
    requires 1 <= id <= |t.nodes|
  {
    WriteNode(id, SyncedVers(t.nodes, t.head.counter, id), SyncedImage(c, t.nodes, t.imeta.meta, id))
  }

  /** The storage writes of a post-order traversal with htree_sync_node_to_storage(). */
  function NodeWrites(c: Crypto, t: Tree, id: nat): seq<Write>
    requires id > 0
    decreases |t.nodes| + 1 - id
  {
    if id > |t.nodes| then []
    else
      NodeWrites(c, t, 2 * id) + NodeWrites(c, t, 2 * id + 1) +
      (if MustWrite(t.nodes, id) then [NodeWrite(c, t, id)] else [])
  }

  // The traversal itself, node by node, as traverse_post_order() performs it.

  ghost predicate UpdatedIsDirty(nodes: seq<NodeState>) {
    forall i :: 0 <= i < |nodes| ==> nodes[i].updated ==> nodes[i].dirty
  }

  /** The parent of node `id`, told that `id` is being written: dirty, its bit for `id` flipped. */
  function Flipped(p: NodeState, id: nat): NodeState {
    p.(dirty := true, image := p.image.(flags := p.image.flags.ToggleChild(Odd(id))))
  }

  function FlipParent(t: Tree, id: nat): (r: Tree)
    requires 1 <= id <= |t.nodes|
    ensures |r.nodes| == |t.nodes|
  {
    if id == 1 then t else t.(nodes := t.nodes[id / 2 - 1 := Flipped(t.nodes[id / 2 - 1], id)])
  }

  function SetCleanTree(t: Tree, id: nat, digest: Bytes): (r: Tree)
    requires 1 <= id <= |t.nodes|
    ensures |r.nodes| == |t.nodes|
  {
    t.(nodes := t.nodes[id - 1 := NodeState(false, false, t.nodes[id - 1].image.(hash := digest))])
  }

  /** A tree and the storage writes made so far. */
  datatype Pass = Pass(tree: Tree, writes: seq<Write>)

  /** htree_sync_node_to_storage() on a dirty node: the version written is the flipped one. */
  function WriteDirty(c: Crypto, t: Tree, id: nat): (r: Pass)
    requires 1 <= id <= |t.nodes|
    ensures |r.tree.nodes| == |t.nodes|
  {
    var t1 := FlipParent(t, id);
    var t2 := SetCleanTree(t1, id, c.digest(NodeInput(Images(t.nodes), t.imeta.meta, id)));
    Pass(t2, [WriteNode(id, NodeVers(Images(t1.nodes), t.head.counter + 1, id), t2.nodes[id - 1].image)])
  }

  function SyncOne(c: Crypto, t: Tree, id: nat): (r: Pass)
    requires 1 <= id <= |t.nodes|
    ensures |r.tree.nodes| == |t.nodes|
  {
    if t.nodes[id - 1].dirty then WriteDirty(c, t, id) else Pass(t, [])
  }

  /** traverse_post_order() with htree_sync_node_to_storage(), from node `id` down. */
  function SyncAll(c: Crypto, t: Tree, id: nat): (r: Pass)
    requires id > 0
    ensures |r.tree.nodes| == |t.nodes|
    decreases |t.nodes| + 1 - id
  {
    if id > |t.nodes| then Pass(t, [])
    else
      var left := SyncAll(c, t, 2 * id);
      var right := SyncAll(c, left.tree, 2 * id + 1);
      var node := SyncOne(c, right.tree, id);
      Pass(node.tree, left.writes + right.writes + node.writes)
  }

  /** update_root(): the next counter value, the new imeta sealed with a fresh IV. */
  function SealHead(c: Crypto, head: Head, fek: Bytes, imeta: Imeta, rootHash: Bytes, iv: Bytes): Head {
    var counter := head.counter + 1;
    var s := c.seal(fek, iv, HeadData(rootHash, counter, head.encFek), PlainImeta(imeta));
    Head(iv, s.tag, head.encFek, s.cipher, counter)
  }

  function SyncTree(c: Crypto, t: Tree, iv: Bytes): Tree
    requires t.nodes != []
  {
    if !t.dirty then t
    else
      var images := SyncedImages(c, t.nodes, t.imeta.meta);
      t.(nodes := Clean(images), head := SealHead(c, t.head, t.fek, t.imeta, images[0].hash, iv), dirty := false)
  }

  /** The storage writes of tee_fs_htree_sync_to_storage(): nodes first, the head last. */
  function SyncWrites(c: Crypto, t: Tree, iv: Bytes): seq<Write>
    requires t.nodes != []
  {
    if !t.dirty then []
    else
      var head := SyncTree(c, t, iv).head;
      NodeWrites(c, t, 1) + [WriteHead(Odd(head.counter), head)]
  }

  // ---------------------------------------------------------------- open

  /** The tree inside open(create) when it first syncs. */
  function NewTree(c: Crypto, fek: Bytes): Tree {
    var blank := FRESH_NODE.image;
    var image := blank.(hash := c.digest(NodeInput([blank], Meta(0), 1)));
    Tree([NodeState(true, false, image)], ZERO_HEAD.(encFek := c.wrap(fek)),
         fek, Imeta(Meta(0), 0), true)
  }

  /** get_idx_from_counter(): the head to use, or None when neither parity fits. */
  function IdxFromCounters(counter0: nat, counter1: nat): Option<bool> {
    if !Odd(counter0) then
      if !Odd(counter1) then Some(false)
      else if counter0 > counter1 then Some(false)
      else Some(true)
    else if Odd(counter1) then Some(true)
    else None
  }

  /** init_head_from_data(): root node image and head, by newest counter or by root hash. */
  function InitHead(disk: Disk, hash: Option<Bytes>): Option<(NodeImage, Head)> {
    match hash
    case Some(h) =>
      if (1, false) !in disk.nodes then None
      else if disk.nodes[(1, false)].hash == h then
        if false in disk.heads then Some((disk.nodes[(1, false)], disk.heads[false])) else None
      else if (1, true) !in disk.nodes then None
      else if disk.nodes[(1, true)].hash == h then
        if true in disk.heads then Some((disk.nodes[(1, true)], disk.heads[true])) else None
      else None
    case None =>
      if false !in disk.heads || true !in disk.heads then None
      else
        match IdxFromCounters(disk.heads[false].counter, disk.heads[true].counter)
        case None => None
        case Some(idx) =>
          if (1, idx) !in disk.nodes then None else Some((disk.nodes[(1, idx)], disk.heads[idx]))
  }

  /** verify_root(): unwraps the file key and authenticates and decrypts the imeta. */
  function VerifyRoot(c: Crypto, root: NodeImage, head: Head): Option<Imeta> {
    match c.unseal(c.unwrap(head.encFek), head.iv, HeadData(root.hash, head.counter, head.encFek),
                   Sealed(head.imeta, head.tag))
    case Some(PlainImeta(im)) => Some(im)
    case _ => None
  }

  /** init_tree_from_data(): reads nodes |images|+1..max, each in the version its parent names. */
  function LoadNodes(disk: Disk, images: seq<NodeImage>, max: nat): Option<seq<NodeImage>>
    requires images != []
    decreases max - |images|
  {
    var id := |images| + 1;
    if id > max then Some(images)
    else
      var key := (id, images[id / 2 - 1].flags.Child(Odd(id)));
      if key !in disk.nodes then None else LoadNodes(disk, images + [disk.nodes[key]], max)
  }

  /** verify_tree(): every node carries the hash of its own data and of its children's hashes. */
  predicate HashesCurrent(c: Crypto, images: seq<NodeImage>, meta: Meta) {
    forall id :: 1 <= id <= |images| ==> HashCurrent(c, images, meta, id)
  }

  predicate HashCurrent(c: Crypto, images: seq<NodeImage>, meta: Meta, id: nat)
    requires 1 <= id <= |images|
  {
    images[id - 1].hash == c.digest(NodeInput(images, meta, id))
  }

  /** tee_fs_htree_open() of an existing tree. */
  function OpenTree(c: Crypto, disk: Disk, hash: Option<Bytes>): Option<Tree> {
    match InitHead(disk, hash)
    case None => None
    case Some((root, head)) =>
      match VerifyRoot(c, root, head)
      case None => None
      case Some(imeta) =>
        match LoadNodes(disk, [root], imeta.maxNodeId)
        case None => None
        case Some(images) =>
          if HashesCurrent(c, images, imeta.meta)
          then Some(Tree(Clean(images), head, c.unwrap(head.encFek), imeta, false))
          else None
  }
}
