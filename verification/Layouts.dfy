/** Every on-disk structure the reader looks into, byte by byte: instances whose fields hold different
    values, so that each field shows at its place. */
module Layouts {
  import opened Bytes
  import opened Keys
  import opened Chunks
  import opened Striping
  import opened SysArray
  import opened Bootstrap
  import opened Directory
  import opened FileRead
  import opened NodeBytes

  /** The eight bytes of a small number. */
  lemma SmallFields(n: byte)
    ensures Store16(n) == [n, 0]
    ensures Store32(n) == [n, 0, 0, 0]
    ensures Store64(n) == [n, 0, 0, 0, 0, 0, 0, 0]
  {}

  lemma WideFields()
    ensures Store16(0x0201) == [1, 2]
    ensures Store32(0x0403_0201) == [1, 2, 3, 4]
    ensures Store64(0x0807_0605_0403_0201) == [1, 2, 3, 4, 5, 6, 7, 8]
  {}

  lemma KeyLayout()
    ensures StoreKey(Key(1, 2, 3)) == [1, 0, 0, 0, 0, 0, 0, 0, 2, 3, 0, 0, 0, 0, 0, 0, 0]
  {
    hide Store64;
    SmallFields(1);
    SmallFields(3);
  }

  lemma ItemLayout()
    ensures StoreItemHead(ItemHead(Key(1, 2, 3), 4, 5))
         == [1, 0, 0, 0, 0, 0, 0, 0, 2, 3, 0, 0, 0, 0, 0, 0, 0, 4, 0, 0, 0, 5, 0, 0, 0]
  {
    hide StoreKey, Store32;
    KeyLayout();
    SmallFields(4);
    SmallFields(5);
  }

  lemma PointerLayout()
    ensures StorePointerHead(PointerHead(Key(1, 2, 3), [9, 9, 9, 9, 9, 9, 9], 4, 5))
         == [1, 0, 0, 0, 0, 0, 0, 0, 2, 3, 0, 0, 0, 0, 0, 0, 0] + [9, 9, 9, 9, 9, 9, 9]
            + [4, 0, 0, 0, 0, 0, 0, 0, 5, 0, 0, 0, 0, 0, 0, 0]
  {
    hide StoreKey, Store64;
    KeyLayout();
    SmallFields(4);
    SmallFields(5);
  }

  lemma HeaderLayout(csum: seq<byte>, fsid: seq<byte>, uuid: seq<byte>)
    requires |csum| == 32 && |fsid| == 16 && |uuid| == 16
    ensures StoreHeader(Prefix(csum, fsid, 1, 2, uuid, 3, 4), 5, 6)
         == csum + (fsid + ([1, 0, 0, 0, 0, 0, 0, 0] + ([2, 0, 0, 0, 0, 0, 0, 0] + (uuid
            + ([3, 0, 0, 0, 0, 0, 0, 0] + ([4, 0, 0, 0, 0, 0, 0, 0] + ([5, 0, 0, 0] + [6])))))))
  {
    hide Store64, Store32;
    SmallFields(1);
    SmallFields(2);
    SmallFields(3);
    SmallFields(4);
    SmallFields(5);
  }

  lemma DirItemLayout(name: seq<byte>)
    requires |name| < 0x100
    ensures StoreDirItem(Key(1, 2, 3), 4, 5, 6, name)
         == [1, 0, 0, 0, 0, 0, 0, 0, 2, 3, 0, 0, 0, 0, 0, 0, 0] + [4, 0, 0, 0, 0, 0, 0, 0] + [5, 0]
            + [|name|, 0] + [6] + name
  {
    hide StoreKey, Store64, Store16;
    KeyLayout();
    SmallFields(4);
    SmallFields(5);
    SmallFields(|name|);
  }

  lemma RootItemLayout(inode: seq<byte>)
    requires |inode| == 160
    ensures StoreRootItem(inode, 1, 2, 3)
         == inode + [1, 0, 0, 0, 0, 0, 0, 0, 2, 0, 0, 0, 0, 0, 0, 0] + [3, 0, 0, 0, 0, 0, 0, 0]
  {
    hide Store64;
    SmallFields(1);
    SmallFields(2);
    SmallFields(3);
  }

  lemma ExtentLayout()
    ensures StoreExtentHead(1, 2, 3, 4, 5, 6) == [1, 0, 0, 0, 0, 0, 0, 0, 2, 0, 0, 0, 0, 0, 0, 0, 3, 4, 5, 0, 6]
  {
    hide Store64, Store16;
    SmallFields(1);
    SmallFields(2);
    SmallFields(5);
  }

  lemma StripeLayout(uuid: seq<byte>)
    requires |uuid| == 16
    ensures StoreStripe(Stripe(1, 2, uuid)) == [1, 0, 0, 0, 0, 0, 0, 0, 2, 0, 0, 0, 0, 0, 0, 0] + uuid
  {
    hide Store64;
    SmallFields(1);
    SmallFields(2);
  }

  lemma ChunkHeadLayout(stripe: Stripe)
    ensures StoreChunkHead(Chunk(1, 2, 3, 4, 5, 6, 7, 8, 9, stripe))
         == [1, 0, 0, 0, 0, 0, 0, 0] + ([2, 0, 0, 0, 0, 0, 0, 0] + ([3, 0, 0, 0, 0, 0, 0, 0]
            + ([4, 0, 0, 0, 0, 0, 0, 0] + ([5, 0, 0, 0] + ([6, 0, 0, 0] + ([7, 0, 0, 0] + ([8, 0] + [9, 0])))))))
  {
    hide Store64, Store32, Store16;
    SmallFields(1);
    SmallFields(2);
    SmallFields(3);
    SmallFields(4);
    SmallFields(5);
    SmallFields(6);
    SmallFields(7);
    SmallFields(8);
    SmallFields(9);
  }
}
