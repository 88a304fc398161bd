/**
 * The on-page layout of a B+tree node (core/btree.go): a 4-byte header
 * (type, number of keys), a table of 8-byte child pointers, a table of
 * 2-byte cumulative offsets, then the packed entries klen|vlen|key|val.
 *
 * A node is modelled abstractly as a type and a sequence of entries;
 * Encode gives its bytes. The accessors of the source read a buffer; the
 * lemmas here show that they read back what Encode (or a run of
 * nodeAppendKV calls) wrote. The writers work in place on an array.
 */
module Node {
  import opened Bytes

  const BNODE_NODE := 1
  const BNODE_LEAF := 2
  const BTREE_PAGE_SIZE := 4096
  const BTREE_MAX_KEY_SIZE := 1000
  const BTREE_MAX_VAL_SIZE := 3000

  /** The largest scratch buffer the tree code allocates (two pages). */
  const MAX_BUFFER := 2 * BTREE_PAGE_SIZE

  /** One slot of a node: child pointer (0 in a leaf), key, value (empty in an internal node). */
  datatype Entry = Entry(ptr: U64, key: seq<Byte>, val: seq<Byte>)

  /** The decoded view of a page. */
  datatype Node = Node(btype: nat, entries: seq<Entry>)

  /** Bytes an entry takes in the packed area: two length prefixes, key and value. */
  function KvSize(e: Entry): nat
  {
    4 + |e.key| + |e.val|
  }

  /** Bytes the packed area of these entries takes; the offset table stores its prefix sums. */
  function DataSize(es: seq<Entry>): nat
  {
    if es == [] then 0 else DataSize(es[..|es| - 1]) + KvSize(es[|es| - 1])
  }

  /** Encoded size of a node: header, 8-byte pointer and 2-byte offset per entry, packed area. */
  function NodeSize(node: Node): nat
  {
    4 + 10 * |node.entries| + DataSize(node.entries)
  }

  /** The node's fields fit the widths of the layout, so Encode is faithful. */
  predicate Encodable(node: Node)
  {
    node.btype < U16_LIMIT && NodeSize(node) < U16_LIMIT
  }

  function PtrTable(es: seq<Entry>): (r: seq<Byte>)
    ensures |r| == 8 * |es|
  {
    if es == [] then [] else PtrTable(es[..|es| - 1]) + LE64(es[|es| - 1].ptr)
  }

  /** Offsets of entries 1 .. |es| (the offset of entry 0 is 0 and is not stored). */
  function OffTable(es: seq<Entry>): (r: seq<Byte>)
    requires DataSize(es) < U16_LIMIT
    ensures |r| == 2 * |es|
  {
    if es == [] then [] else OffTable(es[..|es| - 1]) + LE16(DataSize(es))
  }

  function KvBytes(e: Entry): (r: seq<Byte>)
    requires KvSize(e) < U16_LIMIT
    ensures |r| == KvSize(e)
  {
    LE16(|e.key|) + LE16(|e.val|) + e.key + e.val
  }

  function Data(es: seq<Entry>): (r: seq<Byte>)
    requires DataSize(es) < U16_LIMIT
    ensures |r| == DataSize(es)
  {
    if es == [] then [] else Data(es[..|es| - 1]) + KvBytes(es[|es| - 1])
  }

  /** The bytes of a node, as the source lays them out. */
  function Encode(node: Node): (r: seq<Byte>)
    requires Encodable(node)
    ensures |r| == NodeSize(node)
  {
    LE16(node.btype) + LE16(|node.entries|) + PtrTable(node.entries)
    + OffTable(node.entries) + Data(node.entries)
  }

  /** The buffer s starts with the encoding of node. */
  ghost predicate Encodes(s: seq<Byte>, node: Node)
  {
    Encodable(node) && NodeSize(node) <= |s| && s[..NodeSize(node)] == Encode(node)
  }

  // ---------------------------------------------------------------------
  // Accessors (btype, nkeys, getPtr, getOffset, kvPos, getKey, getVal, nbytes)
  // ---------------------------------------------------------------------

  function BType(s: seq<Byte>): nat
    requires |s| >= 4
  {
    U16At(s, 0)
  }

  function NKeys(s: seq<Byte>): nat
    requires |s| >= 4
  {
    U16At(s, 2)
  }

  /** getPtr panics when idx >= nkeys. */
  function GetPtr(s: seq<Byte>, idx: nat): nat
    requires |s| >= 4 && idx < NKeys(s) && 4 + 8 * idx + 8 <= |s|
  {
    FromLE(s[4 + 8 * idx..4 + 8 * idx + 8])
  }

  /** getOffset panics when idx > nkeys; offset 0 is not stored. */
  predicate OffsetReadable(s: seq<Byte>, idx: nat)
  {
    |s| >= 4 && idx <= NKeys(s) && (idx > 0 ==> 4 + 8 * NKeys(s) + 2 * idx <= |s|)
  }

  function GetOffset(s: seq<Byte>, idx: nat): nat
    requires OffsetReadable(s, idx)
  {
    if idx == 0 then 0 else U16At(s, 4 + 8 * NKeys(s) + 2 * (idx - 1))
  }

  function KvPos(s: seq<Byte>, idx: nat): nat
    requires OffsetReadable(s, idx)
  {
    4 + 10 * NKeys(s) + GetOffset(s, idx)
  }

  predicate LensReadable(s: seq<Byte>, idx: nat)
  {
    OffsetReadable(s, idx) && idx < NKeys(s) && KvPos(s, idx) + 4 <= |s|
  }

  function KLen(s: seq<Byte>, idx: nat): nat
    requires LensReadable(s, idx)
  {
    U16At(s, KvPos(s, idx))
  }

  function VLen(s: seq<Byte>, idx: nat): nat
    requires LensReadable(s, idx)
  {
    U16At(s, KvPos(s, idx) + 2)
  }

  predicate KeyReadable(s: seq<Byte>, idx: nat)
  {
    LensReadable(s, idx) && KvPos(s, idx) + 4 + KLen(s, idx) <= |s|
  }

  predicate ValReadable(s: seq<Byte>, idx: nat)
  {
    KeyReadable(s, idx) && KvPos(s, idx) + 4 + KLen(s, idx) + VLen(s, idx) <= |s|
  }

  /** getKey returns nil for idx >= nkeys. */
  function GetKey(s: seq<Byte>, idx: nat): seq<Byte>
    requires |s| >= 4 && (idx < NKeys(s) ==> KeyReadable(s, idx))
  {
    if idx >= NKeys(s) then [] else s[KvPos(s, idx) + 4..KvPos(s, idx) + 4 + KLen(s, idx)]
  }

  /** getVal returns nil for idx >= nkeys. */
  function GetVal(s: seq<Byte>, idx: nat): seq<Byte>
    requires |s| >= 4 && (idx < NKeys(s) ==> ValReadable(s, idx))
  {
    if idx >= NKeys(s) then []
    else s[KvPos(s, idx) + 4 + KLen(s, idx)..KvPos(s, idx) + 4 + KLen(s, idx) + VLen(s, idx)]
  }

  /** getPtr, getKey and getVal of entry idx are all defined. */
  predicate EntryReadable(s: seq<Byte>, idx: nat)
  {
    ValReadable(s, idx) && 4 + 8 * idx + 8 <= |s|
  }

  /** Entry idx of the buffer, as the three accessors return it. */
  function EntryOf(s: seq<Byte>, idx: nat): Entry
    requires EntryReadable(s, idx)
  {
    Entry(GetPtr(s, idx), GetKey(s, idx), GetVal(s, idx))
  }

  function NBytes(s: seq<Byte>): nat
    requires |s| >= 4 && OffsetReadable(s, NKeys(s))
  {
    KvPos(s, NKeys(s))
  }

  // ---------------------------------------------------------------------
  // Facts about the tables
  // ---------------------------------------------------------------------

  lemma {:induction false} DataSizePrefix(es: seq<Entry>, i: nat)
    requires i <= |es|
    ensures DataSize(es[..i]) <= DataSize(es)
    ensures i < |es| ==> DataSize(es[..i + 1]) == DataSize(es[..i]) + KvSize(es[i])
  {
    if i < |es| {
      assert es[..i + 1][..i] == es[..i];
    }
    if i < |es| {
      DataSizePrefix(es[..|es| - 1], i);
      assert es[..|es| - 1][..i] == es[..i];
    } else {
      assert es[..i] == es;
    }
  }

  lemma DataSizeAppend(es: seq<Entry>, e: Entry)
    ensures DataSize(es + [e]) == DataSize(es) + KvSize(e)
  {
    assert (es + [e])[..|es|] == es;
  }

  lemma {:induction false} DataSizeConcat(a: seq<Entry>, b: seq<Entry>)
    ensures DataSize(a + b) == DataSize(a) + DataSize(b)
  {
    if b != [] {
      var b' := b[..|b| - 1];
      assert (a + b)[..|a + b| - 1] == a + b';
      DataSizeConcat(a, b');
    } else {
      assert a + b == a;
    }
  }

  lemma {:induction false} PtrTableAt(es: seq<Entry>, i: nat)
    requires i < |es|
    ensures PtrTable(es)[8 * i..8 * i + 8] == LE64(es[i].ptr)
  {
    var init := es[..|es| - 1];
    if i < |es| - 1 {
      PtrTableAt(init, i);
    }
  }

  lemma {:induction false} OffTableAt(es: seq<Entry>, i: nat)
    requires DataSize(es) < U16_LIMIT && i < |es|
    ensures DataSize(es[..i + 1]) < U16_LIMIT
    ensures OffTable(es)[2 * i..2 * i + 2] == LE16(DataSize(es[..i + 1]))
  {
    DataSizePrefix(es, i + 1);
    var init := es[..|es| - 1];
    if i < |es| - 1 {
      OffTableAt(init, i);
      assert init[..i + 1] == es[..i + 1];
    } else {
      assert es[..i + 1] == es;
    }
  }

  lemma {:induction false} DataAt(es: seq<Entry>, i: nat)
    requires DataSize(es) < U16_LIMIT && i < |es|
    ensures DataSize(es[..i]) + KvSize(es[i]) <= DataSize(es)
    ensures Data(es)[DataSize(es[..i])..DataSize(es[..i]) + KvSize(es[i])] == KvBytes(es[i])
  {
    var init, last := es[..|es| - 1], es[|es| - 1];
    var a := DataSize(es[..i]);
    if i < |es| - 1 {
      assert init[..i] == es[..i];
      DataAt(init, i);
      PrefixSlice(Data(init), KvBytes(last), a, a + KvSize(es[i]));
    } else {
      assert init == es[..i];
      SuffixSlice(Data(init), KvBytes(last));
    }
  }

  lemma KvBytesParts(e: Entry)
    requires KvSize(e) < U16_LIMIT
    ensures KvBytes(e)[0..2] == LE16(|e.key|)
    ensures KvBytes(e)[2..4] == LE16(|e.val|)
    ensures KvBytes(e)[4..4 + |e.key|] == e.key
    ensures KvBytes(e)[4 + |e.key|..KvSize(e)] == e.val
  {
    var r := KvBytes(e);
    assert r == LE16(|e.key|) + LE16(|e.val|) + e.key + e.val;
  }

  // ---------------------------------------------------------------------
  // Partially built buffers
  // ---------------------------------------------------------------------

  /** First byte after what the appended entries occupy. */
  function Frontier(n: nat, es: seq<Entry>): nat
  {
    4 + 10 * n + DataSize(es)
  }

  ghost predicate HeaderIs(s: seq<Byte>, t: nat, n: nat)
  {
    t < U16_LIMIT && n < U16_LIMIT && |s| >= 4 && s[0..2] == LE16(t) && s[2..4] == LE16(n)
  }

  ghost predicate PtrsAre(s: seq<Byte>, es: seq<Entry>)
  {
    4 + 8 * |es| <= |s| && s[4..4 + 8 * |es|] == PtrTable(es)
  }

  ghost predicate OffsAre(s: seq<Byte>, n: nat, es: seq<Entry>)
  {
    DataSize(es) < U16_LIMIT && 4 + 8 * n + 2 * |es| <= |s|
    && s[4 + 8 * n..4 + 8 * n + 2 * |es|] == OffTable(es)
  }

  ghost predicate DataIs(s: seq<Byte>, n: nat, es: seq<Entry>)
  {
    DataSize(es) < U16_LIMIT && 4 + 10 * n + DataSize(es) <= |s|
    && s[4 + 10 * n..4 + 10 * n + DataSize(es)] == Data(es)
  }

  /**
   * s holds the header of a node of type t with n entries, and the first
   * |es| entries have been appended: their pointers, their offsets and
   * their packed bytes are in place.
   */
  ghost predicate Built(s: seq<Byte>, t: nat, n: nat, es: seq<Entry>)
  {
    && |es| <= n && Frontier(n, es) < U16_LIMIT
    && HeaderIs(s, t, n) && PtrsAre(s, es) && OffsAre(s, n, es) && DataIs(s, n, es)
  }

  lemma BuiltHeader(s: seq<Byte>, t: nat, n: nat, es: seq<Entry>)
    requires HeaderIs(s, t, n)
    ensures |s| >= 4 && BType(s) == t && NKeys(s) == n
  {
    ReadU16(s, 0, t);
    ReadU16(s, 2, n);
  }

  /** Pointer slot i of a built buffer holds the little-endian pointer of entry i. */
  lemma ReadPtrSlot(s: seq<Byte>, es: seq<Entry>, i: nat)
    requires PtrsAre(s, es) && i < |es|
    ensures 4 + 8 * i + 8 <= |s| && FromLE(s[4 + 8 * i..4 + 8 * i + 8]) == es[i].ptr
  {
    PtrTableAt(es, i);
    SliceWindow(s, 4, 4 + 8 * |es|, PtrTable(es), 8 * i, 8 * i + 8, LE64(es[i].ptr));
    LE64RoundTrip(es[i].ptr);
  }

  lemma ReadPtrBuilt(s: seq<Byte>, t: nat, n: nat, es: seq<Entry>, i: nat)
    requires Built(s, t, n, es) && i < |es|
    ensures |s| >= 4 && i < NKeys(s) && 4 + 8 * i + 8 <= |s|
    ensures GetPtr(s, i) == es[i].ptr
  {
    BuiltHeader(s, t, n, es);
    ReadPtrSlot(s, es, i);
  }

  /** Offset slot j of a built buffer holds the data size of the first j + 1 entries. */
  lemma ReadOffsetSlot(s: seq<Byte>, n: nat, es: seq<Entry>, j: nat)
    requires OffsAre(s, n, es) && j < |es|
    ensures DataSize(es[..j + 1]) < U16_LIMIT && 4 + 8 * n + 2 * j + 2 <= |s|
    ensures U16At(s, 4 + 8 * n + 2 * j) == DataSize(es[..j + 1])
  {
    OffTableAt(es, j);
    SliceWindow(s, 4 + 8 * n, 4 + 8 * n + 2 * |es|, OffTable(es), 2 * j, 2 * j + 2, LE16(DataSize(es[..j + 1])));
    ReadU16(s, 4 + 8 * n + 2 * j, DataSize(es[..j + 1]));
  }

  lemma ReadOffsetBuilt(s: seq<Byte>, t: nat, n: nat, es: seq<Entry>, i: nat)
    requires Built(s, t, n, es) && i <= |es|
    ensures OffsetReadable(s, i) && GetOffset(s, i) == DataSize(es[..i])
  {
    BuiltHeader(s, t, n, es);
    if i > 0 {
      ReadOffsetSlot(s, n, es, i - 1);
      assert i - 1 + 1 == i;
    }
  }

  /** The length prefixes of a packed entry. */
  lemma ReadKvLens(s: seq<Byte>, pos: nat, e: Entry)
    requires KvSize(e) < U16_LIMIT && pos + KvSize(e) <= |s|
    requires s[pos..pos + KvSize(e)] == KvBytes(e)
    ensures U16At(s, pos) == |e.key| && U16At(s, pos + 2) == |e.val|
  {
    KvBytesParts(e);
    SliceOfSlice(s, pos, pos + KvSize(e), 0, 2);
    SliceOfSlice(s, pos, pos + KvSize(e), 2, 4);
    ReadU16(s, pos, |e.key|);
    ReadU16(s, pos + 2, |e.val|);
  }

  /** The key and value bytes of a packed entry. */
  lemma ReadKvBytes(s: seq<Byte>, pos: nat, e: Entry)
    requires KvSize(e) < U16_LIMIT && pos + KvSize(e) <= |s|
    requires s[pos..pos + KvSize(e)] == KvBytes(e)
    ensures s[pos + 4..pos + 4 + |e.key|] == e.key
    ensures s[pos + 4 + |e.key|..pos + KvSize(e)] == e.val
  {
    KvBytesParts(e);
    SliceOfSlice(s, pos, pos + KvSize(e), 4, 4 + |e.key|);
    SliceOfSlice(s, pos, pos + KvSize(e), 4 + |e.key|, KvSize(e));
  }

  lemma KvReadable(s: seq<Byte>, kp: nat, i: nat, e: Entry)
    requires OffsetReadable(s, i) && i < NKeys(s) && kp == KvPos(s, i)
    requires kp + KvSize(e) <= |s|
    requires U16At(s, kp) == |e.key| && U16At(s, kp + 2) == |e.val|
    ensures ValReadable(s, i)
  {
  }

  lemma KeyAt(s: seq<Byte>, kp: nat, i: nat, e: Entry)
    requires ValReadable(s, i) && kp == KvPos(s, i) && U16At(s, kp) == |e.key|
    requires s[kp + 4..kp + 4 + |e.key|] == e.key
    ensures GetKey(s, i) == e.key
  {
  }

  lemma ValAt(s: seq<Byte>, kp: nat, i: nat, e: Entry)
    requires ValReadable(s, i) && kp == KvPos(s, i)
    requires U16At(s, kp) == |e.key| && U16At(s, kp + 2) == |e.val|
    requires s[kp + 4 + |e.key|..kp + 4 + |e.key| + |e.val|] == e.val
    ensures GetVal(s, i) == e.val
  {
  }

  /** An entry whose packed bytes sit at its kvPos reads back as that entry. */
  lemma ReadEntryAt(s: seq<Byte>, i: nat, e: Entry)
    requires OffsetReadable(s, i) && i < NKeys(s)
    requires KvSize(e) < U16_LIMIT && KvPos(s, i) + KvSize(e) <= |s|
    requires s[KvPos(s, i)..KvPos(s, i) + KvSize(e)] == KvBytes(e)
    ensures ValReadable(s, i)
    ensures GetKey(s, i) == e.key
    ensures GetVal(s, i) == e.val
  {
    var kp := KvPos(s, i);
    ReadKvLens(s, kp, e);
    ReadKvBytes(s, kp, e);
    KvReadable(s, kp, i, e);
    KeyAt(s, kp, i, e);
    ValAt(s, kp, i, e);
  }

  lemma EntryBytesBuilt(s: seq<Byte>, t: nat, n: nat, es: seq<Entry>, i: nat)
    requires Built(s, t, n, es) && i < |es|
    ensures KvSize(es[i]) < U16_LIMIT
    ensures Frontier(n, es[..i]) + KvSize(es[i]) <= |s|
    ensures s[Frontier(n, es[..i])..Frontier(n, es[..i]) + KvSize(es[i])] == KvBytes(es[i])
  {
    DataAt(es, i);
    var off := DataSize(es[..i]);
    SliceWindow(s, 4 + 10 * n, 4 + 10 * n + DataSize(es), Data(es), off, off + KvSize(es[i]), KvBytes(es[i]));
  }

  lemma ReadEntryBuilt(s: seq<Byte>, t: nat, n: nat, es: seq<Entry>, i: nat)
    requires Built(s, t, n, es) && i < |es|
    ensures |s| >= 4 && NKeys(s) == n
    ensures ValReadable(s, i)
    ensures GetKey(s, i) == es[i].key
    ensures GetVal(s, i) == es[i].val
  {
    BuiltHeader(s, t, n, es);
    ReadOffsetBuilt(s, t, n, es, i);
    EntryBytesBuilt(s, t, n, es, i);
    ReadEntryAt(s, i, es[i]);
  }

  /** The accessors read back the appended entries of a partially built buffer. */
  lemma ReadBuilt(s: seq<Byte>, t: nat, n: nat, es: seq<Entry>, i: nat)
    requires Built(s, t, n, es) && i < |es|
    ensures |s| >= 4 && NKeys(s) == n && BType(s) == t
    ensures OffsetReadable(s, i) && GetOffset(s, i) == DataSize(es[..i])
    ensures OffsetReadable(s, i + 1) && GetOffset(s, i + 1) == DataSize(es[..i + 1])
    ensures ValReadable(s, i)
    ensures GetPtr(s, i) == es[i].ptr
    ensures GetKey(s, i) == es[i].key
    ensures GetVal(s, i) == es[i].val
  {
    BuiltHeader(s, t, n, es);
    ReadPtrBuilt(s, t, n, es, i);
    ReadOffsetBuilt(s, t, n, es, i);
    ReadOffsetBuilt(s, t, n, es, i + 1);
    ReadEntryBuilt(s, t, n, es, i);
  }

  /** Writing the header of an empty buffer starts a build. */
  lemma BuiltStart(s: seq<Byte>, t: nat, n: nat)
    requires 4 + 10 * n <= |s| && 4 + 10 * n < U16_LIMIT
    requires HeaderIs(s, t, n)
    ensures Built(s, t, n, [])
  {
  }

  /** The five parts of an encoding. */
  lemma EncodeParts(node: Node)
    requires Encodable(node)
    ensures var enc, n := Encode(node), |node.entries|;
      && enc[0..2] == LE16(node.btype) && enc[2..4] == LE16(n)
      && enc[4..4 + 8 * n] == PtrTable(node.entries)
      && enc[4 + 8 * n..4 + 10 * n] == OffTable(node.entries)
      && enc[4 + 10 * n..] == Data(node.entries)
  {
    var n := |node.entries|;
    var a, b, c := LE16(node.btype), LE16(n), PtrTable(node.entries);
    var d, e := OffTable(node.entries), Data(node.entries);
    var enc := Encode(node);
    assert enc == (((a + b) + c) + d) + e;
    AppendSlices(a, b);
    AppendSlices(a + b, c);
    AppendSlices(a + b + c, d);
    AppendSlices(a + b + c + d, e);
  }

  lemma EncodesBuilt(s: seq<Byte>, node: Node)
    requires Encodes(s, node)
    ensures Built(s, node.btype, |node.entries|, node.entries)
  {
    var n, es := |node.entries|, node.entries;
    var enc := Encode(node);
    var ns := NodeSize(node);
    EncodeParts(node);
    SliceOfPrefix(s, enc, 0, 2);
    SliceOfPrefix(s, enc, 2, 4);
    SliceOfPrefix(s, enc, 4, 4 + 8 * n);
    SliceOfPrefix(s, enc, 4 + 8 * n, 4 + 10 * n);
    SliceOfPrefix(s, enc, 4 + 10 * n, ns);
  }

  /** With all n entries appended, the offset table ends where the packed area starts. */
  lemma OffsAll(s: seq<Byte>, es: seq<Entry>)
    requires OffsAre(s, |es|, es)
    ensures s[4 + 8 * |es|..4 + 10 * |es|] == OffTable(es)
  {
    var n := |es|;
    var a, b, c := 4 + 8 * n, 4 + 8 * n + 2 * n, 4 + 10 * n;
    SliceSame(s, a, b, a, c);
  }

  lemma BuiltEncodes(s: seq<Byte>, node: Node)
    requires Built(s, node.btype, |node.entries|, node.entries)
    ensures Encodes(s, node)
  {
    var t, es := node.btype, node.entries;
    var n := |es|;
    OffsAll(s, es);
    Concat5(s, 2, 4, 4 + 8 * n, 4 + 10 * n, 4 + 10 * n + DataSize(es),
            LE16(t), LE16(n), PtrTable(es), OffTable(es), Data(es));
  }

  /** A buffer in which all n entries are built encodes the node, and conversely. */
  lemma BuiltIffEncodes(s: seq<Byte>, node: Node)
    ensures Built(s, node.btype, |node.entries|, node.entries) <==> Encodes(s, node)
  {
    if Built(s, node.btype, |node.entries|, node.entries) {
      BuiltEncodes(s, node);
    }
    if Encodes(s, node) {
      EncodesBuilt(s, node);
    }
  }

  /** The accessors read back an encoded node. */
  lemma ReadBack(s: seq<Byte>, node: Node, i: nat)
    requires Encodes(s, node) && i < |node.entries|
    ensures |s| >= 4 && BType(s) == node.btype && NKeys(s) == |node.entries|
    ensures OffsetReadable(s, i) && GetOffset(s, i) == DataSize(node.entries[..i])
    ensures ValReadable(s, i)
    ensures GetPtr(s, i) == node.entries[i].ptr
    ensures GetKey(s, i) == node.entries[i].key
    ensures GetVal(s, i) == node.entries[i].val
  {
    EncodesBuilt(s, node);
    ReadBuilt(s, node.btype, |node.entries|, node.entries, i);
  }

  /** The header of an encoded node, and nbytes = 4 + 10 n + sum of (4 + |key| + |val|). */
  lemma ReadHeader(s: seq<Byte>, node: Node)
    requires Encodes(s, node)
    ensures |s| >= 4 && BType(s) == node.btype && NKeys(s) == |node.entries|
    ensures OffsetReadable(s, NKeys(s)) && NBytes(s) == NodeSize(node)
  {
    EncodesBuilt(s, node);
    var n := |node.entries|;
    BuiltHeader(s, node.btype, n, node.entries);
    ReadOffsetBuilt(s, node.btype, n, node.entries, n);
    assert node.entries[..n] == node.entries;
  }

  // ---------------------------------------------------------------------
  // Appending one entry (nodeAppendKV)
  // ---------------------------------------------------------------------

  /** nodeAppendKV's writes stay inside the buffer and its 16-bit fields do not wrap. */
  predicate AppendFits(s: seq<Byte>, idx: nat, e: Entry)
  {
    && OffsetReadable(s, idx) && idx < NKeys(s)
    && GetOffset(s, idx) + KvSize(e) < U16_LIMIT
    && KvPos(s, idx) + KvSize(e) <= |s|
  }

  /** The byte ranges nodeAppendKV writes for entry idx of n, whose data starts at offset off. */
  predicate SlotsFit(size: nat, n: nat, idx: nat, off: nat, e: Entry)
  {
    idx < n && 4 + 10 * n + off + KvSize(e) <= size && off + KvSize(e) < U16_LIMIT
  }

  /**
   * r is s after appending e as entry idx of an n-entry node whose entry
   * idx starts at data offset off: pointer slot idx holds e.ptr, stored
   * offset idx + 1 is off plus the entry's size, the packed entry sits at
   * off, and every other byte is unchanged.
   */
  ghost predicate AppendedAt(s: seq<Byte>, r: seq<Byte>, n: nat, idx: nat, off: nat, e: Entry)
    requires SlotsFit(|s|, n, idx, off, e)
  {
    && |r| == |s|
    && r[..4 + 8 * idx] == s[..4 + 8 * idx]
    && r[4 + 8 * idx..4 + 8 * idx + 8] == LE64(e.ptr)
    && r[4 + 8 * idx + 8..4 + 8 * n + 2 * idx] == s[4 + 8 * idx + 8..4 + 8 * n + 2 * idx]
    && r[4 + 8 * n + 2 * idx..4 + 8 * n + 2 * idx + 2] == LE16(off + KvSize(e))
    && r[4 + 8 * n + 2 * idx + 2..4 + 10 * n + off] == s[4 + 8 * n + 2 * idx + 2..4 + 10 * n + off]
    && r[4 + 10 * n + off..4 + 10 * n + off + KvSize(e)] == KvBytes(e)
    && r[4 + 10 * n + off + KvSize(e)..] == s[4 + 10 * n + off + KvSize(e)..]
  }

  lemma AppendFitsSlots(s: seq<Byte>, idx: nat, e: Entry)
    requires AppendFits(s, idx, e)
    ensures SlotsFit(|s|, NKeys(s), idx, GetOffset(s, idx), e)
  {
  }

  /** r is s after nodeAppendKV(idx, e.ptr, e.key, e.val). */
  ghost predicate AppendedKV(s: seq<Byte>, r: seq<Byte>, idx: nat, e: Entry)
    requires AppendFits(s, idx, e)
  {
    AppendFitsSlots(s, idx, e);
    AppendedAt(s, r, NKeys(s), idx, GetOffset(s, idx), e)
  }

  /** The buffer after nodeAppendKV(idx, e.ptr, e.key, e.val): its three writes, in the source's order. */
  function AppendKV(s: seq<Byte>, idx: nat, e: Entry): (r: seq<Byte>)
    requires AppendFits(s, idx, e)
    ensures |r| == |s|
  {
    Write(Write(Write(s, 4 + 8 * idx, LE64(e.ptr)), KvPos(s, idx), KvBytes(e)),
          4 + 8 * NKeys(s) + 2 * idx, LE16(GetOffset(s, idx) + KvSize(e)))
  }

  /** The pointer write, the packed-entry write and the offset write land in disjoint slots. */
  lemma AppendedByWrites(s: seq<Byte>, s1: seq<Byte>, s2: seq<Byte>, r: seq<Byte>, n: nat, idx: nat, off: nat, e: Entry)
    requires SlotsFit(|s|, n, idx, off, e)
    requires s1 == Write(s, 4 + 8 * idx, LE64(e.ptr))
    requires s2 == Write(s1, 4 + 10 * n + off, KvBytes(e))
    requires r == Write(s2, 4 + 8 * n + 2 * idx, LE16(off + KvSize(e)))
    ensures AppendedAt(s, r, n, idx, off, e)
  {
    DisjointWrites(s, r, 4 + 8 * idx, 8, LE64(e.ptr), 4 + 8 * n + 2 * idx, 2, LE16(off + KvSize(e)),
                   4 + 10 * n + off, KvSize(e), KvBytes(e));
  }

  /** AppendKV writes exactly the pointer, offset and packed entry of e, and nothing else. */
  lemma AppendKVSpec(s: seq<Byte>, idx: nat, e: Entry)
    requires AppendFits(s, idx, e)
    ensures AppendedKV(s, AppendKV(s, idx, e), idx, e)
  {
    AppendFitsSlots(s, idx, e);
    var s1 := Write(s, 4 + 8 * idx, LE64(e.ptr));
    var s2 := Write(s1, KvPos(s, idx), KvBytes(e));
    AppendedByWrites(s, s1, s2, AppendKV(s, idx, e), NKeys(s), idx, GetOffset(s, idx), e);
  }

  /** The header and the pointer slots before idx are unchanged. */
  lemma AppendedHead(s: seq<Byte>, r: seq<Byte>, n: nat, idx: nat, off: nat, e: Entry)
    requires SlotsFit(|s|, n, idx, off, e) && AppendedAt(s, r, n, idx, off, e)
    ensures |r| == |s| && r[0..4] == s[0..4]
    ensures r[4..4 + 8 * idx] == s[4..4 + 8 * idx]
  {
    var pp := 4 + 8 * idx;
    SliceOfSlice(r, 0, pp, 0, 4);
    SliceOfSlice(s, 0, pp, 0, 4);
    SliceOfSlice(r, 0, pp, 4, pp);
    SliceOfSlice(s, 0, pp, 4, pp);
  }

  /** The offset slots before idx are unchanged. */
  lemma AppendedOffs(s: seq<Byte>, r: seq<Byte>, n: nat, idx: nat, off: nat, e: Entry)
    requires SlotsFit(|s|, n, idx, off, e) && AppendedAt(s, r, n, idx, off, e)
    ensures r[4 + 8 * n..4 + 8 * n + 2 * idx] == s[4 + 8 * n..4 + 8 * n + 2 * idx]
  {
    var pp, op := 4 + 8 * idx, 4 + 8 * n + 2 * idx;
    SliceOfSlice(r, pp + 8, op, 4 + 8 * n - (pp + 8), op - (pp + 8));
    SliceOfSlice(s, pp + 8, op, 4 + 8 * n - (pp + 8), op - (pp + 8));
  }

  /** The offset slot idx - 1, which getOffset(idx) reads, is unchanged. */
  lemma AppendedLastOff(s: seq<Byte>, r: seq<Byte>, n: nat, idx: nat, off: nat, e: Entry)
    requires SlotsFit(|s|, n, idx, off, e) && AppendedAt(s, r, n, idx, off, e) && idx > 0
    ensures r[4 + 8 * n + 2 * idx - 2..4 + 8 * n + 2 * idx] == s[4 + 8 * n + 2 * idx - 2..4 + 8 * n + 2 * idx]
  {
    var pp, op := 4 + 8 * idx, 4 + 8 * n + 2 * idx;
    SliceOfSlice(r, pp + 8, op, op - 2 - (pp + 8), op - (pp + 8));
    SliceOfSlice(s, pp + 8, op, op - 2 - (pp + 8), op - (pp + 8));
  }

  /** The packed entries before idx are unchanged. */
  lemma AppendedData(s: seq<Byte>, r: seq<Byte>, n: nat, idx: nat, off: nat, e: Entry)
    requires SlotsFit(|s|, n, idx, off, e) && AppendedAt(s, r, n, idx, off, e)
    ensures r[4 + 10 * n..4 + 10 * n + off] == s[4 + 10 * n..4 + 10 * n + off]
  {
    var op, kp := 4 + 8 * n + 2 * idx, 4 + 10 * n + off;
    SliceOfSlice(r, op + 2, kp, 4 + 10 * n - (op + 2), kp - (op + 2));
    SliceOfSlice(s, op + 2, kp, 4 + 10 * n - (op + 2), kp - (op + 2));
  }

  /** The new pointer, offset and packed entry are where the layout puts them. */
  lemma AppendedNew(s: seq<Byte>, r: seq<Byte>, n: nat, idx: nat, off: nat, e: Entry)
    requires SlotsFit(|s|, n, idx, off, e) && AppendedAt(s, r, n, idx, off, e)
    ensures r[4 + 8 * idx..4 + 8 * idx + 8] == LE64(e.ptr)
    ensures r[4 + 8 * n + 2 * idx..4 + 8 * n + 2 * idx + 2] == LE16(off + KvSize(e))
    ensures r[4 + 10 * n + off..4 + 10 * n + off + KvSize(e)] == KvBytes(e)
  {
  }

  /** Buffers that agree on the header agree on the node type and key count. */
  lemma HeaderSame(s: seq<Byte>, r: seq<Byte>)
    requires |s| >= 4 && |r| >= 4 && r[0..4] == s[0..4]
    ensures BType(r) == BType(s) && NKeys(r) == NKeys(s)
  {
    assert forall k :: 0 <= k < 4 ==> r[k] == r[0..4][k] && s[k] == s[0..4][k];
  }

  lemma AppendKVHeader(s: seq<Byte>, r: seq<Byte>, idx: nat, e: Entry)
    requires AppendFits(s, idx, e) && AppendedKV(s, r, idx, e)
    ensures |r| == |s| && NKeys(r) == NKeys(s) && BType(r) == BType(s)
  {
    AppendFitsSlots(s, idx, e);
    AppendedHead(s, r, NKeys(s), idx, GetOffset(s, idx), e);
    HeaderSame(s, r);
  }

  lemma AppendKVOffset(s: seq<Byte>, r: seq<Byte>, idx: nat, e: Entry)
    requires AppendFits(s, idx, e) && AppendedKV(s, r, idx, e)
    ensures OffsetReadable(r, idx) && GetOffset(r, idx) == GetOffset(s, idx)
  {
    AppendKVHeader(s, r, idx, e);
    if idx > 0 {
      AppendFitsSlots(s, idx, e);
      var n := NKeys(s);
      AppendedLastOff(s, r, n, idx, GetOffset(s, idx), e);
      U16Same(s, r, 4 + 8 * n + 2 * idx - 2);
    }
  }

  lemma AppendKVNextOffset(s: seq<Byte>, r: seq<Byte>, idx: nat, e: Entry)
    requires AppendFits(s, idx, e) && AppendedKV(s, r, idx, e)
    ensures OffsetReadable(r, idx + 1) && GetOffset(r, idx + 1) == GetOffset(s, idx) + KvSize(e)
  {
    AppendKVHeader(s, r, idx, e);
    AppendFitsSlots(s, idx, e);
    ReadU16(r, 4 + 8 * NKeys(s) + 2 * idx, GetOffset(s, idx) + KvSize(e));
  }

  lemma AppendKVPtr(s: seq<Byte>, r: seq<Byte>, idx: nat, e: Entry)
    requires AppendFits(s, idx, e) && AppendedKV(s, r, idx, e)
    ensures |r| >= 4 && idx < NKeys(r) && 4 + 8 * idx + 8 <= |r| && GetPtr(r, idx) == e.ptr
  {
    AppendKVHeader(s, r, idx, e);
    AppendFitsSlots(s, idx, e);
    LE64RoundTrip(e.ptr);
  }

  lemma AppendKVEntry(s: seq<Byte>, r: seq<Byte>, idx: nat, e: Entry)
    requires AppendFits(s, idx, e) && AppendedKV(s, r, idx, e)
    ensures ValReadable(r, idx) && GetKey(r, idx) == e.key && GetVal(r, idx) == e.val
  {
    AppendKVHeader(s, r, idx, e);
    AppendKVOffset(s, r, idx, e);
    AppendFitsSlots(s, idx, e);
    assert KvPos(r, idx) == KvPos(s, idx);
    ReadEntryAt(r, idx, e);
  }

  /** nodeAppendKV makes entry idx read back as e and sets the offset after it; header and offset idx stay. */
  lemma AppendKVReadBack(s: seq<Byte>, r: seq<Byte>, idx: nat, e: Entry)
    requires AppendFits(s, idx, e) && AppendedKV(s, r, idx, e)
    ensures |r| >= 4 && NKeys(r) == NKeys(s) && BType(r) == BType(s)
    ensures OffsetReadable(r, idx) && GetOffset(r, idx) == GetOffset(s, idx)
    ensures OffsetReadable(r, idx + 1) && GetOffset(r, idx + 1) == GetOffset(s, idx) + KvSize(e)
    ensures 4 + 8 * idx + 8 <= |r| && GetPtr(r, idx) == e.ptr
    ensures ValReadable(r, idx) && GetKey(r, idx) == e.key && GetVal(r, idx) == e.val
  {
    AppendKVHeader(s, r, idx, e);
    AppendKVOffset(s, r, idx, e);
    AppendKVNextOffset(s, r, idx, e);
    AppendKVPtr(s, r, idx, e);
    AppendKVEntry(s, r, idx, e);
  }

  // ---------------------------------------------------------------------
  // A run of appends fills the node slot by slot
  // ---------------------------------------------------------------------

  /** Slot i of an n-entry node holds e, whose packed bytes start at data offset off. */
  ghost predicate SlotHolds(s: seq<Byte>, n: nat, i: nat, off: nat, e: Entry)
  {
    && i < n && off + KvSize(e) < U16_LIMIT && 4 + 10 * n + off + KvSize(e) <= |s|
    && s[4 + 8 * i..4 + 8 * i + 8] == LE64(e.ptr)
    && s[4 + 8 * n + 2 * i..4 + 8 * n + 2 * i + 2] == LE16(off + KvSize(e))
    && s[4 + 10 * n + off..4 + 10 * n + off + KvSize(e)] == KvBytes(e)
  }

  /** Slot i holds entry i of es, packed after the entries before it. */
  ghost predicate Slot(s: seq<Byte>, n: nat, es: seq<Entry>, i: nat)
  {
    i < |es| && SlotHolds(s, n, i, DataSize(es[..i]), es[i])
  }

  /**
   * s holds the header of a node of type t with n entries, and its first
   * |es| slots hold es: the pointer, the stored offset and the packed
   * bytes of each.
   */
  ghost predicate Filled(s: seq<Byte>, t: nat, n: nat, es: seq<Entry>)
  {
    && |es| <= n && HeaderIs(s, t, n) && Frontier(n, es) <= |s| && Frontier(n, es) < U16_LIMIT
    && forall i {:trigger Slot(s, n, es, i)} :: 0 <= i < |es| ==> Slot(s, n, es, i)
  }

  /** setHeader on a buffer with room for the tables starts a fill. */
  lemma FilledStart(s: seq<Byte>, t: nat, n: nat)
    requires HeaderIs(s, t, n) && 4 + 10 * n <= |s| && 4 + 10 * n < U16_LIMIT
    ensures Filled(s, t, n, [])
  {
  }

  lemma HeaderKept(s: seq<Byte>, r: seq<Byte>, t: nat, n: nat)
    requires HeaderIs(s, t, n) && |r| >= 4 && r[0..4] == s[0..4]
    ensures HeaderIs(r, t, n)
  {
    assert r[0..2] == r[0..4][0..2] && s[0..2] == s[0..4][0..2];
    assert r[2..4] == r[0..4][2..4] && s[2..4] == s[0..4][2..4];
  }

  /** The first m slots of a filled buffer are filled. */
  lemma FilledPrefix(s: seq<Byte>, t: nat, n: nat, es: seq<Entry>, m: nat)
    requires Filled(s, t, n, es) && m <= |es|
    ensures Filled(s, t, n, es[..m])
  {
    DataSizePrefix(es, m);
    forall i | 0 <= i < m
      ensures Slot(s, n, es[..m], i)
    {
      assert Slot(s, n, es, i);
      assert es[..m][..i] == es[..i];
    }
  }

  /** getOffset of a filled slot is the size of the entries before it. */
  lemma FilledOffset(s: seq<Byte>, t: nat, n: nat, es: seq<Entry>, i: nat)
    requires Filled(s, t, n, es) && i <= |es|
    ensures |s| >= 4 && BType(s) == t && NKeys(s) == n
    ensures OffsetReadable(s, i) && GetOffset(s, i) == DataSize(es[..i])
  {
    BuiltHeader(s, t, n, es);
    if i == 0 {
      assert es[..0] == [];
    } else {
      var j := i - 1;
      assert Slot(s, n, es, j);
      DataSizePrefix(es, j);
      assert es[..j + 1] == es[..i];
      DataSizePrefix(es, i);
      ReadU16(s, 4 + 8 * n + 2 * j, DataSize(es[..i]));
    }
  }

  /** The accessors read back every filled slot. */
  lemma ReadFilled(s: seq<Byte>, t: nat, n: nat, es: seq<Entry>, i: nat)
    requires Filled(s, t, n, es) && i < |es|
    ensures EntryReadable(s, i) && EntryOf(s, i) == es[i]
  {
    FilledOffset(s, t, n, es, i);
    assert Slot(s, n, es, i);
    var e, off := es[i], DataSize(es[..i]);
    var kp, a := KvPos(s, i), 4 + 10 * n + off;
    SliceSame(s, a, a + KvSize(e), kp, kp + KvSize(e));
    ReadEntryAt(s, i, e);
    LE64RoundTrip(e.ptr);
  }

  /** nbytes of a buffer whose n slots are all filled is the encoded size. */
  lemma FilledNBytes(s: seq<Byte>, t: nat, es: seq<Entry>)
    requires Filled(s, t, |es|, es)
    ensures |s| >= 4 && OffsetReadable(s, NKeys(s)) && NBytes(s) == NodeSize(Node(t, es))
  {
    FilledOffset(s, t, |es|, es, |es|);
    assert es[..|es|] == es;
  }

  /** The three windows of slot i lie inside windows the append of slot k leaves alone. */
  lemma SlotWindowsKept(s: seq<Byte>, r: seq<Byte>, n: nat, k: nat, off: nat, i: nat, oi: nat, len: nat)
    requires i < k < n && 4 + 10 * n + off <= |s| && |r| == |s| && oi + len <= off
    requires r[..4 + 8 * k] == s[..4 + 8 * k]
    requires r[4 + 8 * k + 8..4 + 8 * n + 2 * k] == s[4 + 8 * k + 8..4 + 8 * n + 2 * k]
    requires r[4 + 8 * n + 2 * k + 2..4 + 10 * n + off] == s[4 + 8 * n + 2 * k + 2..4 + 10 * n + off]
    ensures r[4 + 8 * i..4 + 8 * i + 8] == s[4 + 8 * i..4 + 8 * i + 8]
    ensures r[4 + 8 * n + 2 * i..4 + 8 * n + 2 * i + 2] == s[4 + 8 * n + 2 * i..4 + 8 * n + 2 * i + 2]
    ensures r[4 + 10 * n + oi..4 + 10 * n + oi + len] == s[4 + 10 * n + oi..4 + 10 * n + oi + len]
  {
    assert r[0..4 + 8 * k] == r[..4 + 8 * k] && s[0..4 + 8 * k] == s[..4 + 8 * k];
    SliceInside(s, r, 0, 4 + 8 * k, 4 + 8 * i, 4 + 8 * i + 8);
    SliceInside(s, r, 4 + 8 * k + 8, 4 + 8 * n + 2 * k, 4 + 8 * n + 2 * i, 4 + 8 * n + 2 * i + 2);
    SliceInside(s, r, 4 + 8 * n + 2 * k + 2, 4 + 10 * n + off, 4 + 10 * n + oi, 4 + 10 * n + oi + len);
  }

  /** Slot i, which the append of slot k leaves alone, keeps what it holds. */
  lemma SlotKept(s: seq<Byte>, r: seq<Byte>, n: nat, k: nat, off: nat, e: Entry, i: nat, oi: nat, ei: Entry)
    requires SlotsFit(|s|, n, k, off, e) && AppendedAt(s, r, n, k, off, e)
    requires i < k && SlotHolds(s, n, i, oi, ei) && oi + KvSize(ei) <= off
    ensures SlotHolds(r, n, i, oi, ei)
  {
    SlotWindowsKept(s, r, n, k, off, i, oi, KvSize(ei));
  }

  /** Slot i of es + [e] after the append: an old slot kept, or the new one. */
  lemma SlotAfter(s: seq<Byte>, r: seq<Byte>, n: nat, es: seq<Entry>, e: Entry, i: nat)
    requires |es| < n && (Slot(s, n, es, i) || i == |es|)
    requires SlotsFit(|s|, n, |es|, DataSize(es), e) && AppendedAt(s, r, n, |es|, DataSize(es), e)
    ensures Slot(r, n, es + [e], i)
  {
    var es' := es + [e];
    if i < |es| {
      SlotAfterKept(s, r, n, es, e, i);
    } else {
      assert es'[..i] == es;
    }
  }

  /** An old slot of es survives the append of e. */
  lemma SlotAfterKept(s: seq<Byte>, r: seq<Byte>, n: nat, es: seq<Entry>, e: Entry, i: nat)
    requires |es| < n && i < |es| && Slot(s, n, es, i)
    requires SlotsFit(|s|, n, |es|, DataSize(es), e) && AppendedAt(s, r, n, |es|, DataSize(es), e)
    ensures Slot(r, n, es + [e], i)
  {
    assert (es + [e])[..i] == es[..i];
    DataSizePrefix(es, i);
    DataSizePrefix(es, i + 1);
    SlotKept(s, r, n, |es|, DataSize(es), e, i, DataSize(es[..i]), es[i]);
  }

  /**
   * nodeAppendKV of e into the next slot of a filled buffer with room for
   * it fits, and fills one more slot.
   */
  lemma FilledAppend(s: seq<Byte>, t: nat, n: nat, es: seq<Entry>, e: Entry)
    requires Filled(s, t, n, es) && |es| < n
    requires Frontier(n, es) + KvSize(e) <= |s| && Frontier(n, es) + KvSize(e) < U16_LIMIT
    ensures AppendFits(s, |es|, e)
    ensures Filled(AppendKV(s, |es|, e), t, n, es + [e])
  {
    var k := |es|;
    FilledOffset(s, t, n, es, k);
    assert es[..k] == es;
    AppendKVSpec(s, k, e);
    var r := AppendKV(s, k, e);
    AppendFitsSlots(s, k, e);
    AppendedHead(s, r, n, k, DataSize(es), e);
    HeaderKept(s, r, t, n);
    DataSizeAppend(es, e);
    forall i | 0 <= i < k + 1
      ensures Slot(r, n, es + [e], i)
    {
      if i < k {
        assert Slot(s, n, es, i);
      }
      SlotAfter(s, r, n, es, e, i);
    }
  }

  /** The tables of a buffer whose first |es| slots are filled. */
  lemma FilledBuilt(s: seq<Byte>, t: nat, n: nat, es: seq<Entry>)
    requires Filled(s, t, n, es)
    ensures Built(s, t, n, es)
  {
    FilledPtrs(s, t, n, es);
    FilledOffs(s, t, n, es);
    FilledData(s, t, n, es);
  }

  lemma {:induction false} FilledPtrs(s: seq<Byte>, t: nat, n: nat, es: seq<Entry>)
    requires Filled(s, t, n, es)
    ensures PtrsAre(s, es)
    decreases |es|
  {
    if es != [] {
      var m := |es| - 1;
      FilledPrefix(s, t, n, es, m);
      FilledPtrs(s, t, n, es[..m]);
      assert Slot(s, n, es, m);
      PtrsStep(s, m, |es|, PtrTable(es[..m]), LE64(es[m].ptr), PtrTable(es));
    }
  }

  lemma {:induction false} FilledOffs(s: seq<Byte>, t: nat, n: nat, es: seq<Entry>)
    requires Filled(s, t, n, es)
    ensures OffsAre(s, n, es)
    decreases |es|
  {
    if es != [] {
      var m := |es| - 1;
      FilledPrefix(s, t, n, es, m);
      FilledOffs(s, t, n, es[..m]);
      assert Slot(s, n, es, m);
      TablesSnoc(es, m);
      OffsStep(s, n, m, |es|, OffTable(es[..m]), LE16(DataSize(es)), OffTable(es));
    }
  }

  lemma {:induction false} FilledData(s: seq<Byte>, t: nat, n: nat, es: seq<Entry>)
    requires Filled(s, t, n, es)
    ensures DataIs(s, n, es)
    decreases |es|
  {
    if es != [] {
      var m := |es| - 1;
      FilledPrefix(s, t, n, es, m);
      FilledData(s, t, n, es[..m]);
      assert Slot(s, n, es, m);
      TablesSnoc(es, m);
      DataStep(s, n, DataSize(es[..m]), KvSize(es[m]), DataSize(es), Data(es[..m]), KvBytes(es[m]), Data(es));
    }
  }

  /** The tables of es extend those of its first m = |es| - 1 entries by entry m. */
  lemma TablesSnoc(es: seq<Entry>, m: nat)
    requires |es| == m + 1 && DataSize(es[..m]) + KvSize(es[m]) < U16_LIMIT
    ensures DataSize(es) == DataSize(es[..m]) + KvSize(es[m])
    ensures PtrTable(es) == PtrTable(es[..m]) + LE64(es[m].ptr)
    ensures OffTable(es) == OffTable(es[..m]) + LE16(DataSize(es))
    ensures Data(es) == Data(es[..m]) + KvBytes(es[m])
  {
  }

  lemma PtrsStep(s: seq<Byte>, m: nat, k: nat, init: seq<Byte>, p: seq<Byte>, all: seq<Byte>)
    requires k == m + 1 && 4 + 8 * m + 8 <= |s| && s[4..4 + 8 * m] == init && s[4 + 8 * m..4 + 8 * m + 8] == p
    requires all == init + p
    ensures s[4..4 + 8 * k] == all
  {
    var p0, p1, p2 := 4, 4 + 8 * m, 4 + 8 * m + 8;
    SliceSplit(s, p0, p1, p2);
    SliceSame(s, p0, p2, 4, 4 + 8 * k);
  }

  lemma OffsStep(s: seq<Byte>, n: nat, m: nat, k: nat, init: seq<Byte>, o: seq<Byte>, all: seq<Byte>)
    requires k == m + 1 && 4 + 8 * n + 2 * m + 2 <= |s| && s[4 + 8 * n..4 + 8 * n + 2 * m] == init
    requires s[4 + 8 * n + 2 * m..4 + 8 * n + 2 * m + 2] == o && all == init + o
    ensures s[4 + 8 * n..4 + 8 * n + 2 * k] == all
  {
    var o0, o1, o2 := 4 + 8 * n, 4 + 8 * n + 2 * m, 4 + 8 * n + 2 * m + 2;
    SliceSplit(s, o0, o1, o2);
    SliceSame(s, o0, o2, 4 + 8 * n, 4 + 8 * n + 2 * k);
  }

  lemma DataStep(s: seq<Byte>, n: nat, d: nat, len: nat, c: nat, init: seq<Byte>, kv: seq<Byte>, all: seq<Byte>)
    requires c == d + len && 4 + 10 * n + c <= |s| && s[4 + 10 * n..4 + 10 * n + d] == init
    requires s[4 + 10 * n + d..4 + 10 * n + d + len] == kv && all == init + kv
    ensures s[4 + 10 * n..4 + 10 * n + c] == all
  {
    var d0, d1, d2 := 4 + 10 * n, 4 + 10 * n + d, 4 + 10 * n + d + len;
    SliceSplit(s, d0, d1, d2);
    SliceSame(s, d0, d2, 4 + 10 * n, 4 + 10 * n + c);
  }

  /** A buffer whose n slots are all filled encodes the node. */
  lemma FilledEncodes(s: seq<Byte>, t: nat, es: seq<Entry>)
    requires Filled(s, t, |es|, es)
    ensures Encodes(s, Node(t, es))
  {
    FilledBuilt(s, t, |es|, es);
    BuiltEncodes(s, Node(t, es));
  }

  lemma PtrWindow(s: seq<Byte>, es: seq<Entry>, i: nat)
    requires PtrsAre(s, es) && i < |es|
    ensures 4 + 8 * i + 8 <= |s| && s[4 + 8 * i..4 + 8 * i + 8] == LE64(es[i].ptr)
  {
    PtrTableAt(es, i);
    SliceWindow(s, 4, 4 + 8 * |es|, PtrTable(es), 8 * i, 8 * i + 8, LE64(es[i].ptr));
  }

  lemma OffWindow(s: seq<Byte>, n: nat, es: seq<Entry>, i: nat)
    requires OffsAre(s, n, es) && i < |es|
    ensures DataSize(es[..i]) + KvSize(es[i]) < U16_LIMIT && 4 + 8 * n + 2 * i + 2 <= |s|
    ensures s[4 + 8 * n + 2 * i..4 + 8 * n + 2 * i + 2] == LE16(DataSize(es[..i]) + KvSize(es[i]))
  {
    OffTableAt(es, i);
    DataSizePrefix(es, i);
    DataSizePrefix(es, i + 1);
    SliceWindow(s, 4 + 8 * n, 4 + 8 * n + 2 * |es|, OffTable(es), 2 * i, 2 * i + 2, LE16(DataSize(es[..i + 1])));
  }

  /** Cutting a buffer anywhere past the frontier keeps every slot. */
  lemma FilledTruncate(s: seq<Byte>, t: nat, n: nat, es: seq<Entry>, len: nat)
    requires Filled(s, t, n, es) && Frontier(n, es) <= len <= |s|
    ensures Filled(s[..len], t, n, es)
  {
    var p := s[..len];
    SliceOfPrefix(s, p, 0, 2);
    SliceOfPrefix(s, p, 2, 4);
    forall i | 0 <= i < |es|
      ensures Slot(p, n, es, i)
    {
      assert Slot(s, n, es, i);
      var off, e := DataSize(es[..i]), es[i];
      DataSizePrefix(es, i);
      DataSizePrefix(es, i + 1);
      SliceOfPrefix(s, p, 4 + 8 * i, 4 + 8 * i + 8);
      SliceOfPrefix(s, p, 4 + 8 * n + 2 * i, 4 + 8 * n + 2 * i + 2);
      SliceOfPrefix(s, p, 4 + 10 * n + off, 4 + 10 * n + off + KvSize(e));
    }
  }

  /** Slot i of a buffer with the tables of es holds entry i. */
  lemma SlotOfBuilt(s: seq<Byte>, t: nat, n: nat, es: seq<Entry>, i: nat)
    requires Built(s, t, n, es) && i < |es|
    ensures Slot(s, n, es, i)
  {
    PtrWindow(s, es, i);
    OffWindow(s, n, es, i);
    EntryBytesBuilt(s, t, n, es, i);
  }

  lemma BuiltFilled(s: seq<Byte>, t: nat, n: nat, es: seq<Entry>)
    requires Built(s, t, n, es)
    ensures Filled(s, t, n, es)
  {
    forall i | 0 <= i < |es|
      ensures Slot(s, n, es, i)
    {
      SlotOfBuilt(s, t, n, es, i);
    }
  }

  /**
   * s holds node: its header and every one of its slots. This is the form
   * the operations state their results in; IsNodeIffEncodes ties it to
   * Encode.
   */
  ghost predicate IsNode(s: seq<Byte>, node: Node)
  {
    Filled(s, node.btype, |node.entries|, node.entries)
  }

  /** A buffer holds a node exactly when it starts with the node's encoding. */
  lemma IsNodeIffEncodes(s: seq<Byte>, node: Node)
    ensures IsNode(s, node) <==> Encodes(s, node)
  {
    if IsNode(s, node) {
      FilledEncodes(s, node.btype, node.entries);
    }
    if Encodes(s, node) {
      EncodesBuilt(s, node);
      BuiltFilled(s, node.btype, |node.entries|, node.entries);
    }
  }
}
