/**
 * The key-value store of core/kv.go over the in-memory page store: Get,
 * Set and Del forward to the B+tree, and the meta page records the root
 * page id and the flushed counter in a fixed little-endian layout after
 * the signature.
 */
module KV {
  import opened Bytes
  import opened Node
  import opened NodeWrite
  import opened Tree
  import TreeDelete
  import opened MemStore
  import opened PagedTree
  import FreeList

  /** DB_SIG, the 16 ASCII bytes at the head of the meta page. */
  const DB_SIG: seq<Byte> := Ascii("BuildYourOwnDB06")

  /** The two numbers the meta page carries. */
  datatype Meta = Meta(root: U64, flushed: U64)

  /**
   * The meta page for m: the signature, root and flushed as 64-bit
   * little-endian numbers, zeros to the end of the page.
   */
  function MetaPage(m: Meta): (r: seq<Byte>)
    ensures |r| == BTREE_PAGE_SIZE
  {
    DB_SIG + LE64(m.root) + LE64(m.flushed) + Zeros(BTREE_PAGE_SIZE - 32)
  }

  /**
   * What loadMetaFromBytes reads: nothing from fewer than 32 bytes,
   * otherwise root from bytes 16..24 and flushed from bytes 24..32; the
   * signature is not looked at.
   */
  function ReadMeta(data: seq<Byte>): (r: Option<Meta>)
    ensures r.None? <==> |data| < 32
  {
    if |data| < 32 then None
    else
      FromLEBound(data[16..24]);
      FromLEBound(data[24..32]);
      Some(Meta(FromLE(data[16..24]), FromLE(data[24..32])))
  }

  /** Loading the page saveMetaInBytes writes gives back the same root and flushed. */
  lemma MetaRoundTrip(m: Meta)
    ensures ReadMeta(MetaPage(m)) == Some(m)
  {
    var p := MetaPage(m);
    assert p[16..24] == LE64(m.root);
    assert p[24..32] == LE64(m.flushed);
    LE64RoundTrip(m.root);
    LE64RoundTrip(m.flushed);
  }

  /** The meta page starts with the signature and is zero after byte 32. */
  lemma MetaLayout(m: Meta)
    ensures MetaPage(m)[..16] == DB_SIG
    ensures forall k :: 32 <= k < BTREE_PAGE_SIZE ==> MetaPage(m)[k] == 0
  {
    var p := MetaPage(m);
    assert p[..16] == DB_SIG;
    forall k | 32 <= k < BTREE_PAGE_SIZE
      ensures p[k] == 0
    {
      assert p[k] == Zeros(BTREE_PAGE_SIZE - 32)[k - 32];
    }
  }

  /** The three copies saveMetaInBytes makes into a zeroed page build the meta page. */
  lemma MetaWritten(root: U64, flushed: U64)
    ensures Write(Write(Write(Zeros(BTREE_PAGE_SIZE), 0, DB_SIG), 16, LE64(root)), 24, LE64(flushed))
         == MetaPage(Meta(root, flushed))
  {
    var z := Zeros(BTREE_PAGE_SIZE);
    WriteAdjacent(z, 0, DB_SIG, LE64(root));
    WriteAdjacent(z, 0, DB_SIG + LE64(root), LE64(flushed));
    var d := DB_SIG + LE64(root) + LE64(flushed);
    var w, p := Write(z, 0, d), MetaPage(Meta(root, flushed));
    WriteAt(z, 0, d);
    assert forall k :: 0 <= k < BTREE_PAGE_SIZE ==> w[k] == p[k];
  }

  /** Two buffers that agree on bytes 16..32 load the same meta, whatever their signature. */
  lemma SignatureIgnored(data: seq<Byte>, other: seq<Byte>)
    requires |data| >= 32 && |other| >= 32 && data[16..32] == other[16..32]
    ensures ReadMeta(data) == ReadMeta(other)
  {
    assert data[16..24] == data[16..32][..8] == other[16..32][..8] == other[16..24];
    assert data[24..32] == data[16..32][8..] == other[16..32][8..] == other[24..32];
  }

  class KV {
    /** The page store behind the tree. */
    const mem: MemPages
    const tree: BTree
    const free: FreeList.FreeList
    /** page.flushed */
    var flushed: nat

    ghost predicate Valid()
      reads this, tree, mem
    {
      tree.mem == mem && tree.Valid() && flushed < U64_LIMIT
    }

    /** The key-value pairs of the store, in key order. */
    ghost function Pairs(): seq<Entry>
      reads this, tree
    {
      tree.Pairs()
    }

    /** NewKVWithMem: flushed starts at 1, over an empty tree and an empty free list on mem. */
    constructor (mem: MemPages)
      requires mem.Valid()
      ensures Valid() && this.mem == mem && flushed == 1 && tree.root == 0 && Pairs() == []
      ensures fresh(tree) && fresh(free) && free.mem == mem && free.Valid() && free.items == []
    {
      this.mem := mem;
      flushed := 1;
      tree := new BTree(mem);
      free := new FreeList.FreeList(mem);
    }

    /** Get: the tree's lookup of key. */
    method Get(key: seq<Byte>) returns (val: seq<Byte>, found: bool)
      requires Valid()
      ensures found <==> Find(Pairs(), key).Some?
      ensures found ==> val == Find(Pairs(), key).value
      ensures !found ==> val == []
    {
      val, found := tree.Get(key);
    }

    /**
     * Set: checkLimit refuses a key or a value over its limit before the
     * tree is called; otherwise the pair is inserted.
     */
    method Set(key: seq<Byte>, val: seq<Byte>) returns (st: Status)
      requires Valid() && tree.Room()
      modifies tree, mem
      ensures Valid() && st == CheckLimit(key, val)
      ensures st == ErrKeyTooLarge ==>
        tree.root == old(tree.root) && Pairs() == old(Pairs()) && mem.pages == old(mem.pages) && mem.next == old(mem.next)
      ensures st == Ok ==> Pairs() == Upsert(if old(tree.root) == 0 then [SENTINEL] else old(Pairs()), key, val)
    {
      st := CheckLimit(key, val);
      if st != Ok {
        return;
      }
      st := tree.Insert(key, val);
    }

    /** Del: the tree's Delete, whose error is always nil. */
    method Del(key: seq<Byte>) returns (deleted: bool)
      requires Valid() && tree.Room()
      requires tree.root != 0 && key != [] ==> !TreeDelete.Del(tree.tree, tree.height, key, mem.next).Overflow?
      modifies tree, mem
      ensures Valid()
      ensures deleted <==> key != [] && Find(old(Pairs()), key).Some?
      ensures !deleted ==> Pairs() == old(Pairs()) && mem.pages == old(mem.pages) && mem.next == old(mem.next)
      ensures deleted ==> Pairs() == Remove(old(Pairs()), key)
    {
      deleted := tree.Delete(key);
    }

    /** saveMetaInBytes: a page-sized buffer with the signature, the root page id and flushed. */
    method SaveMeta() returns (r: seq<Byte>)
      requires Valid()
      ensures r == MetaPage(Meta(tree.root, flushed))
    {
      var buf := new Byte[BTREE_PAGE_SIZE](_ => 0);
      assert buf[..] == Zeros(BTREE_PAGE_SIZE);
      CopyInto(buf, 0, DB_SIG);
      CopyInto(buf, 16, LE64(tree.root));
      CopyInto(buf, 24, LE64(flushed));
      r := buf[..];
      MetaWritten(tree.root, flushed);
    }

    /**
     * loadMetaFromBytes: an error, with nothing changed, for fewer than 32
     * bytes; otherwise the tree's root and flushed are set from bytes
     * 16..32.
     */
    method LoadMeta(data: seq<Byte>) returns (err: bool)
      modifies this, tree
      ensures err <==> ReadMeta(data).None?
      ensures err ==> unchanged(this, tree)
      ensures !err ==> tree.root == ReadMeta(data).value.root && flushed == ReadMeta(data).value.flushed
      ensures !err ==> tree.tree == old(tree.tree) && tree.height == old(tree.height)
    {
      if |data| < 32 {
        return true;
      }
      FromLEBound(data[16..24]);
      FromLEBound(data[24..32]);
      tree.root := FromLE(data[16..24]);
      flushed := FromLE(data[24..32]);
      err := false;
    }
  }
}
