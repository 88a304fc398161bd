/**
 * The node-level operations of core/btree.go. Each builds a fresh
 * destination buffer from ranges of one or two old nodes: setHeader,
 * then nodeAppendRange and nodeAppendKV calls. Each is proved to leave in
 * the destination the encoding of a node whose entries are a sequence
 * operation on the old entries (insert, replace or remove at an index,
 * concatenation).
 */
module NodeOps {
  import opened Bytes
  import opened Node
  import opened NodeWrite

  // ---------------------------------------------------------------------
  // Sequence-level specifications
  // ---------------------------------------------------------------------

  /** es with e inserted at idx. */
  function Inserted(es: seq<Entry>, idx: nat, e: Entry): (r: seq<Entry>)
    requires idx <= |es|
    ensures |r| == |es| + 1 && r[idx] == e
    ensures forall j :: 0 <= j < idx ==> r[j] == es[j]
    ensures forall j :: idx < j < |r| ==> r[j] == es[j - 1]
  {
    es[..idx] + [e] + es[idx..]
  }

  /** es with entry idx replaced by e. */
  function Updated(es: seq<Entry>, idx: nat, e: Entry): (r: seq<Entry>)
    requires idx < |es|
    ensures |r| == |es| && r[idx] == e
    ensures forall j :: 0 <= j < |r| && j != idx ==> r[j] == es[j]
  {
    es[..idx] + [e] + es[idx + 1..]
  }

  /** es with entry idx removed. */
  function Removed(es: seq<Entry>, idx: nat): (r: seq<Entry>)
    requires idx < |es|
    ensures |r| == |es| - 1
    ensures forall j :: 0 <= j < idx ==> r[j] == es[j]
    ensures forall j :: idx <= j < |r| ==> r[j] == es[j + 1]
  {
    es[..idx] + es[idx + 1..]
  }

  /** es with the two entries idx and idx + 1 replaced by the single entry e. */
  function Replaced2(es: seq<Entry>, idx: nat, e: Entry): (r: seq<Entry>)
    requires idx + 1 < |es|
    ensures |r| == |es| - 1 && r[idx] == e
    ensures forall j :: 0 <= j < idx ==> r[j] == es[j]
    ensures forall j :: idx < j < |r| ==> r[j] == es[j + 1]
  {
    es[..idx] + [e] + es[idx + 2..]
  }

  // ---------------------------------------------------------------------
  // Building a destination node piece by piece
  // ---------------------------------------------------------------------

  /** The frontier of a concatenation. */
  lemma FrontierGrows(n: nat, a: seq<Entry>, b: seq<Entry>)
    ensures Frontier(n, a + b) == Frontier(n, a) + DataSize(b)
  {
    DataSizeConcat(a, b);
  }

  /** Sizes for a node built as the range a, the entry e, then the range b. */
  lemma ThreePieces(n: nat, a: seq<Entry>, e: Entry, b: seq<Entry>, len: nat)
    requires n == |a| + 1 + |b| && NodeSize(Node(0, (a + [e]) + b)) <= len <= MAX_BUFFER
    ensures 4 + 10 * n <= len && n < U16_LIMIT && [] + a == a
    ensures Frontier(n, a) + KvSize(e) <= Frontier(n, (a + [e]) + b) <= len
  {
    assert [] + a == a;
    FrontierGrows(n, a + [e], b);
    DataSizeAppend(a, e);
  }

  /** Sizes for a node built as the range a, then the range b. */
  lemma TwoPieces(n: nat, a: seq<Entry>, b: seq<Entry>, len: nat)
    requires n == |a| + |b| && NodeSize(Node(0, a + b)) <= len <= MAX_BUFFER
    ensures 4 + 10 * n <= len && n < U16_LIMIT && [] + a == a
    ensures Frontier(n, a) <= Frontier(n, a + b) <= len
  {
    assert [] + a == a;
    FrontierGrows(n, a, b);
  }

  /** leafInsert: a leaf with (key, val) inserted at idx, the old entries before and after it in order. */
  method LeafInsert(dst: array<Byte>, src: seq<Byte>, idx: nat, key: seq<Byte>, val: seq<Byte>, ghost node: Node)
    requires IsNode(src, node) && idx <= |node.entries|
    requires NodeSize(Node(BNODE_LEAF, Inserted(node.entries, idx, Entry(0, key, val)))) <= dst.Length <= MAX_BUFFER
    modifies dst
    ensures IsNode(dst[..], Node(BNODE_LEAF, Inserted(node.entries, idx, Entry(0, key, val))))
  {
    ghost var es, e := node.entries, Entry(0, key, val);
    ghost var n := |es| + 1;
    IsNodeHeader(src, node);
    assert Inserted(es, idx, e) == (es[..idx] + [e]) + es[idx..];
    ThreePieces(n, es[..idx], e, es[idx..], dst.Length);
    Ranges(es, idx);
    HeaderWritten(dst[..], BNODE_LEAF, NKeys(src) + 1);
    SetHeader(dst, BNODE_LEAF, NKeys(src) + 1);
    IsNodeHolds(src, node, 0, idx);
    NodeAppendRange(dst, src, 0, 0, idx, BNODE_LEAF, n, [], es[..idx]);
    FilledAppend(dst[..], BNODE_LEAF, n, es[..idx], e);
    NodeAppendKV(dst, idx, 0, key, val);
    IsNodeHolds(src, node, idx, |es| - idx);
    NodeAppendRange(dst, src, idx + 1, idx, NKeys(src) - idx, BNODE_LEAF, n, es[..idx] + [e], es[idx..]);
  }

  /** leafUpdate: the same leaf with entry idx replaced by (key, val). */
  method LeafUpdate(dst: array<Byte>, src: seq<Byte>, idx: nat, key: seq<Byte>, val: seq<Byte>, ghost node: Node)
    requires IsNode(src, node) && idx < |node.entries|
    requires NodeSize(Node(BNODE_LEAF, Updated(node.entries, idx, Entry(0, key, val)))) <= dst.Length <= MAX_BUFFER
    modifies dst
    ensures IsNode(dst[..], Node(BNODE_LEAF, Updated(node.entries, idx, Entry(0, key, val))))
  {
    ghost var es, e := node.entries, Entry(0, key, val);
    ghost var n := |es|;
    IsNodeHeader(src, node);
    assert Updated(es, idx, e) == (es[..idx] + [e]) + es[idx + 1..];
    ThreePieces(n, es[..idx], e, es[idx + 1..], dst.Length);
    Ranges(es, idx);
    Ranges(es, idx + 1);
    HeaderWritten(dst[..], BNODE_LEAF, NKeys(src));
    SetHeader(dst, BNODE_LEAF, NKeys(src));
    IsNodeHolds(src, node, 0, idx);
    NodeAppendRange(dst, src, 0, 0, idx, BNODE_LEAF, n, [], es[..idx]);
    FilledAppend(dst[..], BNODE_LEAF, n, es[..idx], e);
    NodeAppendKV(dst, idx, 0, key, val);
    IsNodeHolds(src, node, idx + 1, |es| - (idx + 1));
    NodeAppendRange(dst, src, idx + 1, idx + 1, NKeys(src) - (idx + 1), BNODE_LEAF, n, es[..idx] + [e], es[idx + 1..]);
  }

  /** leafDelete: the leaf with entry idx removed. */
  method LeafDelete(dst: array<Byte>, src: seq<Byte>, idx: nat, ghost node: Node)
    requires IsNode(src, node) && idx < |node.entries|
    requires NodeSize(Node(BNODE_LEAF, Removed(node.entries, idx))) <= dst.Length <= MAX_BUFFER
    modifies dst
    ensures IsNode(dst[..], Node(BNODE_LEAF, Removed(node.entries, idx)))
  {
    ghost var es := node.entries;
    ghost var n := |es| - 1;
    IsNodeHeader(src, node);
    assert Removed(es, idx) == es[..idx] + es[idx + 1..];
    TwoPieces(n, es[..idx], es[idx + 1..], dst.Length);
    Ranges(es, idx);
    Ranges(es, idx + 1);
    HeaderWritten(dst[..], BNODE_LEAF, NKeys(src) - 1);
    SetHeader(dst, BNODE_LEAF, NKeys(src) - 1);
    IsNodeHolds(src, node, 0, idx);
    NodeAppendRange(dst, src, 0, 0, idx, BNODE_LEAF, n, [], es[..idx]);
    IsNodeHolds(src, node, idx + 1, |es| - (idx + 1));
    NodeAppendRange(dst, src, idx, idx + 1, NKeys(src) - (idx + 1), BNODE_LEAF, n, es[..idx], es[idx + 1..]);
  }

  /** nodeMerge: the entries of left followed by those of right, with left's type. */
  method NodeMerge(dst: array<Byte>, left: seq<Byte>, right: seq<Byte>, ghost lnode: Node, ghost rnode: Node)
    requires IsNode(left, lnode) && IsNode(right, rnode)
    requires NodeSize(Node(lnode.btype, lnode.entries + rnode.entries)) <= dst.Length <= MAX_BUFFER
    modifies dst
    ensures IsNode(dst[..], Node(lnode.btype, lnode.entries + rnode.entries))
  {
    ghost var ls, rs := lnode.entries, rnode.entries;
    ghost var n := |ls| + |rs|;
    IsNodeHeader(left, lnode);
    IsNodeHeader(right, rnode);
    TwoPieces(n, ls, rs, dst.Length);
    Ranges(ls, 0);
    Ranges(rs, 0);
    HeaderWritten(dst[..], BType(left), NKeys(left) + NKeys(right));
    SetHeader(dst, BType(left), NKeys(left) + NKeys(right));
    IsNodeHolds(left, lnode, 0, |ls|);
    NodeAppendRange(dst, left, 0, 0, NKeys(left), lnode.btype, n, [], ls);
    IsNodeHolds(right, rnode, 0, |rs|);
    NodeAppendRange(dst, right, NKeys(left), 0, NKeys(right), lnode.btype, n, ls, rs);
  }

  /** nodeReplace2Kid: the internal node with children idx and idx + 1 replaced by one link (ptr, key). */
  method NodeReplace2Kid(dst: array<Byte>, src: seq<Byte>, idx: nat, ptr: U64, key: seq<Byte>, ghost node: Node)
    requires IsNode(src, node) && idx + 1 < |node.entries|
    requires NodeSize(Node(BNODE_NODE, Replaced2(node.entries, idx, Entry(ptr, key, [])))) <= dst.Length <= MAX_BUFFER
    modifies dst
    ensures IsNode(dst[..], Node(BNODE_NODE, Replaced2(node.entries, idx, Entry(ptr, key, []))))
  {
    ghost var es, e := node.entries, Entry(ptr, key, []);
    ghost var n := |es| - 1;
    IsNodeHeader(src, node);
    assert Replaced2(es, idx, e) == (es[..idx] + [e]) + es[idx + 2..];
    ThreePieces(n, es[..idx], e, es[idx + 2..], dst.Length);
    Ranges(es, idx);
    Ranges(es, idx + 2);
    HeaderWritten(dst[..], BNODE_NODE, NKeys(src) - 1);
    SetHeader(dst, BNODE_NODE, NKeys(src) - 1);
    IsNodeHolds(src, node, 0, idx);
    NodeAppendRange(dst, src, 0, 0, idx, BNODE_NODE, n, [], es[..idx]);
    FilledAppend(dst[..], BNODE_NODE, n, es[..idx], e);
    NodeAppendKV(dst, idx, ptr, key, []);
    IsNodeHolds(src, node, idx + 2, |es| - (idx + 2));
    NodeAppendRange(dst, src, idx + 1, idx + 2, NKeys(src) - (idx + 2), BNODE_NODE, n, es[..idx] + [e], es[idx + 2..]);
  }

  // ---------------------------------------------------------------------
  // nodeLookupLE
  // ---------------------------------------------------------------------

  /** The keys of a node are strictly increasing, as the tree keeps them. */
  ghost predicate KeysSorted(es: seq<Entry>)
  {
    forall i, j :: 0 <= i < j < |es| ==> Compare(es[i].key, es[j].key) < 0
  }

  /**
   * The scan of nodeLookupLE from position i: the first key at or above
   * key decides; an equal key is the answer, a larger one means the entry
   * before it (or 0); when every key is below, the last entry.
   */
  function LookupFrom(es: seq<Entry>, key: seq<Byte>, i: nat): (r: nat)
    requires i <= |es|
    ensures |es| > 0 ==> r < |es|
    decreases |es| - i
  {
    if |es| == 0 then 0
    else if i == |es| then |es| - 1
    else if Compare(es[i].key, key) == 0 then i
    else if Compare(es[i].key, key) > 0 then (if i == 0 then 0 else i - 1)
    else LookupFrom(es, key, i + 1)
  }

  /** The index nodeLookupLE returns. */
  function LookupLE(es: seq<Entry>, key: seq<Byte>): nat
  {
    LookupFrom(es, key, 0)
  }

  /**
   * Scanning from i over keys that are all below key up to i: the result
   * has a key at most key, and the key after it (if any) is above key.
   */
  lemma {:induction false} LookupFromBounds(es: seq<Entry>, key: seq<Byte>, i: nat)
    requires i <= |es| && |es| > 0
    requires forall j :: 0 <= j < i ==> Compare(es[j].key, key) < 0
    requires i == 0 ==> Compare(es[0].key, key) <= 0
    ensures Compare(es[LookupFrom(es, key, i)].key, key) <= 0
    ensures LookupFrom(es, key, i) + 1 < |es| && Compare(es[LookupFrom(es, key, i)].key, key) < 0 ==>
      Compare(es[LookupFrom(es, key, i) + 1].key, key) > 0
    decreases |es| - i
  {
    if i < |es| && Compare(es[i].key, key) < 0 {
      LookupFromBounds(es, key, i + 1);
    }
  }

  /**
   * When the first key is at most key (the tree's empty-key sentinel makes
   * it so), nodeLookupLE finds an entry whose key is at most key; unless it
   * is key itself, the next key is above key.
   */
  lemma LookupLEBounds(es: seq<Entry>, key: seq<Byte>)
    requires |es| > 0 && Compare(es[0].key, key) <= 0
    ensures LookupLE(es, key) < |es| && Compare(es[LookupLE(es, key)].key, key) <= 0
    ensures LookupLE(es, key) + 1 < |es| && es[LookupLE(es, key)].key != key ==>
      Compare(es[LookupLE(es, key) + 1].key, key) > 0
  {
    LookupFromBounds(es, key, 0);
  }

  /**
   * When no key is at most key (or there is none), nodeLookupLE still
   * answers 0: the first entry, never an index before it.
   */
  lemma LookupLEClamped(es: seq<Entry>, key: seq<Byte>)
    requires |es| == 0 || Compare(es[0].key, key) > 0
    ensures LookupLE(es, key) == 0
  {
  }

  /**
   * In a sorted node whose first key is at most key, nodeLookupLE finds
   * the last entry with a key at most key, and finds key itself whenever
   * it is present.
   */
  lemma LookupLEIsLast(es: seq<Entry>, key: seq<Byte>)
    requires KeysSorted(es) && |es| > 0 && Compare(es[0].key, key) <= 0
    ensures forall j :: LookupLE(es, key) < j < |es| ==> Compare(es[j].key, key) > 0
    ensures (exists j :: 0 <= j < |es| && es[j].key == key) <==> es[LookupLE(es, key)].key == key
  {
    var r := LookupLE(es, key);
    LookupLEBounds(es, key);
    forall j | r < j < |es|
      ensures Compare(es[j].key, key) > 0
    {
      CompareAntisymmetric(es[j].key, key);
      if es[r].key != key {
        CompareAntisymmetric(es[r + 1].key, key);
        if j > r + 1 {
          CompareTransitive(key, es[r + 1].key, es[j].key);
        }
      }
    }
    if j :| 0 <= j < |es| && es[j].key == key {
      CompareAntisymmetric(es[r].key, key);
      assert j == r;
    }
  }

  /**
   * nodeLookupLE: the index of the last key at most key, by a linear scan
   * of the keys read back from the node.
   */
  method NodeLookupLE(src: seq<Byte>, key: seq<Byte>, ghost node: Node) returns (idx: nat)
    requires IsNode(src, node)
    ensures idx == LookupLE(node.entries, key)
  {
    ghost var es := node.entries;
    IsNodeHeader(src, node);
    IsNodeHoldsAll(src, node);
    var n := NKeys(src);
    if n == 0 {
      return 0;
    }
    var i := 0;
    while i < n
      invariant i <= n && LookupFrom(es, key, i) == LookupLE(es, key)
      decreases n - i
    {
      assert ReadsAt(src, 0, i, es[i]);
      var cmp := Compare(GetKey(src, i), key);
      if cmp == 0 {
        return i;
      }
      if cmp > 0 {
        if i == 0 {
          return 0;
        }
        return i - 1;
      }
      i := i + 1;
    }
    return n - 1;
  }
}
