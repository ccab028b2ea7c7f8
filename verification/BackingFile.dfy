/** What cutting the backing file at a byte offset leaves of the elements in it. */
module BackingFile {
  import opened Prelude
  import opened HTreeModel
  import opened HTreeTransaction
  import L = StorageLayout

  function Vers(v: bool): nat { if v then 1 else 0 }

  function SlotEnd(s: L.Slot): nat {
    L.Offset(L.SIZES, s) + L.Size(L.SIZES, s)
  }

  /** tee_fs_rpc_truncate(): element versions that end beyond `size` are gone. */
  function CutDisk(disk: Disk, size: nat): Disk {
    disk.(nodes := map key | key in disk.nodes && (key.0 == 0 || SlotEnd(L.NodeSlot(key.0 - 1, Vers(key.1))) <= size)
                     :: disk.nodes[key],
          blocks := map key | key in disk.blocks && SlotEnd(L.BlockSlot(key.0, Vers(key.1))) <= size
                      :: disk.blocks[key])
  }

  /** Cutting after version 1 of block `last` keeps all blocks up to it. */
  lemma CutKeepsLive(c: Crypto, disk: Disk, t: Tree, cur: seq<Bytes>, last: nat)
    requires Live(c, disk, t, cur) && |cur| <= last + 1
    ensures Live(c, CutDisk(disk, SlotEnd(L.BlockSlot(last, 1))), t, cur)
  {
    var d := CutDisk(disk, SlotEnd(L.BlockSlot(last, 1)));
    forall num | 0 <= num < |cur| ensures ReadBlockTree(c, d, t, num) == Some(cur[num]) {
      assert ReadBlockTree(c, disk, t, num) == Some(cur[num]);
      BlockSurvives(num, t.nodes[num].image.flags.block, last);
    }
  }

  lemma BlockSurvives(num: nat, v: bool, last: nat)
    requires num <= last
    ensures SlotEnd(L.BlockSlot(num, Vers(v))) <= SlotEnd(L.BlockSlot(last, 1))
  {
    if num < last || !v {
      L.BlocksOrdered(L.SIZES, L.BlockSlot(num, Vers(v)), L.BlockSlot(last, 1));
    }
  }
}
