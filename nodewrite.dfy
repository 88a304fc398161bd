/**
 * The writers of core/btree.go: setHeader, setPtr, setOffset,
 * nodeAppendKV and nodeAppendRange, which fill a destination buffer in
 * place. Each is proved against Write (a byte splice) and against the
 * Built/AppendedKV predicates of module Node, so a run of appends into a
 * buffer whose header is set yields the encoding of the node.
 */
module NodeWrite {
  import opened Bytes
  import opened Node

  /** copy(a[pos:], d), and binary.LittleEndian.PutUintN when d is LE16 or LE64 of a value. */
  method CopyInto(a: array<Byte>, pos: nat, d: seq<Byte>)
    requires pos + |d| <= a.Length
    modifies a
    ensures a[..] == Write(old(a[..]), pos, d)
  {
    forall k | pos <= k < pos + |d| {
      a[k] := d[k - pos];
    }
    WriteAt(old(a[..]), pos, d);
  }

  method SetHeader(a: array<Byte>, btype: nat, nkeys: nat)
    requires a.Length >= 4 && btype < U16_LIMIT && nkeys < U16_LIMIT
    modifies a
    ensures a[..] == Write(old(a[..]), 0, LE16(btype) + LE16(nkeys))
  {
    CopyInto(a, 0, LE16(btype));
    CopyInto(a, 2, LE16(nkeys));
    WriteAdjacent(old(a[..]), 0, LE16(btype), LE16(nkeys));
  }

  /** setHeader then btype and nkeys read back the header; with room for the tables, a fill starts. */
  lemma HeaderWritten(s: seq<Byte>, btype: nat, nkeys: nat)
    requires |s| >= 4 && btype < U16_LIMIT && nkeys < U16_LIMIT
    ensures HeaderIs(Write(s, 0, LE16(btype) + LE16(nkeys)), btype, nkeys)
    ensures BType(Write(s, 0, LE16(btype) + LE16(nkeys))) == btype
    ensures NKeys(Write(s, 0, LE16(btype) + LE16(nkeys))) == nkeys
    ensures 4 + 10 * nkeys <= |s| && 4 + 10 * nkeys < U16_LIMIT ==>
      Filled(Write(s, 0, LE16(btype) + LE16(nkeys)), btype, nkeys, [])
  {
    var h := LE16(btype) + LE16(nkeys);
    var r := Write(s, 0, h);
    WriteInside(s, 0, h);
    assert r[0..2] == h[0..2] == LE16(btype);
    assert r[2..4] == h[2..4] == LE16(nkeys);
    ReadU16(r, 0, btype);
    ReadU16(r, 2, nkeys);
  }

  /** setPtr panics unless idx < nkeys. */
  method SetPtr(a: array<Byte>, idx: nat, ptr: U64)
    requires a.Length >= 4 && idx < NKeys(a[..]) && 4 + 8 * idx + 8 <= a.Length
    modifies a
    ensures a[..] == Write(old(a[..]), 4 + 8 * idx, LE64(ptr))
  {
    CopyInto(a, 4 + 8 * idx, LE64(ptr));
  }

  /** setPtr then getPtr reads back the pointer, and the header is unchanged. */
  lemma SetPtrReadBack(s: seq<Byte>, idx: nat, ptr: U64)
    requires |s| >= 4 && idx < NKeys(s) && 4 + 8 * idx + 8 <= |s|
    ensures NKeys(Write(s, 4 + 8 * idx, LE64(ptr))) == NKeys(s)
    ensures GetPtr(Write(s, 4 + 8 * idx, LE64(ptr)), idx) == ptr
  {
    var r := Write(s, 4 + 8 * idx, LE64(ptr));
    WriteOutside(s, 4 + 8 * idx, LE64(ptr), 0, 4);
    HeaderSame(s, r);
    WriteInside(s, 4 + 8 * idx, LE64(ptr));
    LE64RoundTrip(ptr);
  }

  /**
   * setOffset stores offset idx (for idx >= 1; offset 0 is implicit, and
   * idx = 0 would address the slot before the table).
   */
  method SetOffset(a: array<Byte>, idx: nat, offset: nat)
    requires a.Length >= 4 && idx >= 1 && 4 + 8 * NKeys(a[..]) + 2 * idx <= a.Length
    requires offset < U16_LIMIT
    modifies a
    ensures a[..] == Write(old(a[..]), 4 + 8 * NKeys(old(a[..])) + 2 * (idx - 1), LE16(offset))
  {
    var pos := 4 + 8 * NKeys(a[..]) + 2 * (idx - 1);
    CopyInto(a, pos, LE16(offset));
  }

  /** setOffset then getOffset reads back the offset, and the header is unchanged. */
  lemma SetOffsetReadBack(s: seq<Byte>, idx: nat, offset: nat)
    requires |s| >= 4 && 1 <= idx <= NKeys(s) && 4 + 8 * NKeys(s) + 2 * idx <= |s| && offset < U16_LIMIT
    ensures var r := Write(s, 4 + 8 * NKeys(s) + 2 * (idx - 1), LE16(offset));
      NKeys(r) == NKeys(s) && OffsetReadable(r, idx) && GetOffset(r, idx) == offset
  {
    var pos := 4 + 8 * NKeys(s) + 2 * (idx - 1);
    var r := Write(s, pos, LE16(offset));
    WriteOutside(s, pos, LE16(offset), 0, 4);
    HeaderSame(s, r);
    WriteInside(s, pos, LE16(offset));
    ReadU16(r, pos, offset);
  }

  /** A header and an offset slot that are unchanged give the same getOffset. */
  lemma OffsetKept(s: seq<Byte>, r: seq<Byte>, idx: nat)
    requires OffsetReadable(s, idx) && |r| == |s| && r[0..4] == s[0..4]
    requires idx > 0 ==>
      r[4 + 8 * NKeys(s) + 2 * (idx - 1)..4 + 8 * NKeys(s) + 2 * idx]
      == s[4 + 8 * NKeys(s) + 2 * (idx - 1)..4 + 8 * NKeys(s) + 2 * idx]
    ensures NKeys(r) == NKeys(s) && BType(r) == BType(s)
    ensures OffsetReadable(r, idx) && GetOffset(r, idx) == GetOffset(s, idx)
  {
    HeaderSame(s, r);
    if idx > 0 {
      U16Same(s, r, 4 + 8 * NKeys(s) + 2 * (idx - 1));
    }
  }

  /** A write that misses the header and offset slot idx - 1 keeps getOffset(idx). */
  lemma WriteKeepsOffset(s: seq<Byte>, pos: nat, d: seq<Byte>, idx: nat)
    requires OffsetReadable(s, idx) && pos + |d| <= |s| && 4 <= pos
    requires idx > 0 ==> pos + |d| <= 4 + 8 * NKeys(s) + 2 * (idx - 1) || 4 + 8 * NKeys(s) + 2 * idx <= pos
    ensures NKeys(Write(s, pos, d)) == NKeys(s)
    ensures OffsetReadable(Write(s, pos, d), idx) && GetOffset(Write(s, pos, d), idx) == GetOffset(s, idx)
  {
    WriteOutside(s, pos, d, 0, 4);
    if idx > 0 {
      WriteOutside(s, pos, d, 4 + 8 * NKeys(s) + 2 * (idx - 1), 4 + 8 * NKeys(s) + 2 * idx);
    }
    OffsetKept(s, Write(s, pos, d), idx);
  }

  /** The length prefixes, key and value of one entry, written at pos as the four writes of nodeAppendKV. */
  method WriteKV(a: array<Byte>, pos: nat, key: seq<Byte>, val: seq<Byte>)
    requires |key| < U16_LIMIT && |val| < U16_LIMIT && pos + 4 + |key| + |val| <= a.Length
    modifies a
    ensures a[..] == Write(old(a[..]), pos, LE16(|key|) + LE16(|val|) + key + val)
  {
    ghost var s := a[..];
    CopyInto(a, pos, LE16(|key|));
    CopyInto(a, pos + 2, LE16(|val|));
    WriteAdjacent(s, pos, LE16(|key|), LE16(|val|));
    CopyInto(a, pos + 4, key);
    WriteAdjacent(s, pos, LE16(|key|) + LE16(|val|), key);
    CopyInto(a, pos + 4 + |key|, val);
    WriteAdjacent(s, pos, LE16(|key|) + LE16(|val|) + key, val);
  }

  /** After setPtr, kvPos(idx) is where it was and the packed entry fits there. */
  lemma AfterSetPtr(s: seq<Byte>, idx: nat, ptr: U64, key: seq<Byte>, val: seq<Byte>)
    requires AppendFits(s, idx, Entry(ptr, key, val))
    ensures |s| >= 4 && idx < NKeys(s) && 4 + 8 * idx + 8 <= |s|
    ensures OffsetReadable(Write(s, 4 + 8 * idx, LE64(ptr)), idx)
    ensures KvPos(Write(s, 4 + 8 * idx, LE64(ptr)), idx) == KvPos(s, idx)
    ensures KvPos(s, idx) + 4 + |key| + |val| <= |s| && |key| < U16_LIMIT && |val| < U16_LIMIT
  {
    AppendFitsSlots(s, idx, Entry(ptr, key, val));
    WriteKeepsOffset(s, 4 + 8 * idx, LE64(ptr), idx);
  }

  /** After the packed entry is written, getOffset(idx) is where it was and offset idx + 1 fits. */
  lemma AfterWriteKV(s: seq<Byte>, s1: seq<Byte>, idx: nat, ptr: U64, key: seq<Byte>, val: seq<Byte>, pos: nat)
    requires AppendFits(s, idx, Entry(ptr, key, val))
    requires s1 == Write(s, 4 + 8 * idx, LE64(ptr)) && pos == KvPos(s, idx)
    ensures pos + 4 + |key| + |val| <= |s1|
    ensures OffsetReadable(Write(s1, pos, LE16(|key|) + LE16(|val|) + key + val), idx)
    ensures GetOffset(Write(s1, pos, LE16(|key|) + LE16(|val|) + key + val), idx) == GetOffset(s, idx)
    ensures NKeys(Write(s1, pos, LE16(|key|) + LE16(|val|) + key + val)) == NKeys(s)
    ensures 4 + 8 * NKeys(s) + 2 * (idx + 1) <= |s| && GetOffset(s, idx) + 4 + |key| + |val| < U16_LIMIT
  {
    AppendFitsSlots(s, idx, Entry(ptr, key, val));
    WriteKeepsOffset(s, 4 + 8 * idx, LE64(ptr), idx);
    WriteKeepsOffset(s1, pos, LE16(|key|) + LE16(|val|) + key + val, idx);
  }

  /** The last write, at the offset slot of the original header, completes AppendKV. */
  lemma AppendKVIs(s: seq<Byte>, s1: seq<Byte>, s2: seq<Byte>, idx: nat, ptr: U64, key: seq<Byte>, val: seq<Byte>)
    requires AppendFits(s, idx, Entry(ptr, key, val))
    requires s1 == Write(s, 4 + 8 * idx, LE64(ptr))
    requires s2 == Write(s1, KvPos(s, idx), LE16(|key|) + LE16(|val|) + key + val)
    ensures Write(s2, 4 + 8 * NKeys(s) + 2 * idx, LE16(GetOffset(s, idx) + 4 + |key| + |val|))
            == AppendKV(s, idx, Entry(ptr, key, val))
  {
  }

  method NodeAppendKV(a: array<Byte>, idx: nat, ptr: U64, key: seq<Byte>, val: seq<Byte>)
    requires AppendFits(a[..], idx, Entry(ptr, key, val))
    modifies a
    ensures a[..] == AppendKV(old(a[..]), idx, Entry(ptr, key, val))
  {
    ghost var s := a[..];
    AfterSetPtr(s, idx, ptr, key, val);
    SetPtr(a, idx, ptr);
    ghost var s1 := a[..];
    var pos := KvPos(a[..], idx);
    AfterWriteKV(s, s1, idx, ptr, key, val, pos);
    WriteKV(a, pos, key, val);
    ghost var s2 := a[..];
    var next := GetOffset(a[..], idx) + 4 + |key| + |val|;
    SetOffset(a, idx + 1, next);
    AppendKVIs(s, s1, s2, idx, ptr, key, val);
  }

  /** The accessors of src read entry e at index from + i. */
  ghost predicate ReadsAt(src: seq<Byte>, from: nat, i: nat, e: Entry)
  {
    EntryReadable(src, from + i) && EntryOf(src, from + i) == e
  }

  /** The accessors of src read the entries es at from, from + 1, and so on. */
  ghost predicate Holds(src: seq<Byte>, from: nat, es: seq<Entry>)
  {
    forall i {:trigger ReadsAt(src, from, i, es[i])} :: 0 <= i < |es| ==> ReadsAt(src, from, i, es[i])
  }

  /** A buffer that holds a node reads back all of its entries. */
  lemma IsNodeHoldsAll(src: seq<Byte>, node: Node)
    requires IsNode(src, node)
    ensures Holds(src, 0, node.entries)
  {
    forall i | 0 <= i < |node.entries|
      ensures ReadsAt(src, 0, i, node.entries[i])
    {
      ReadFilled(src, node.btype, |node.entries|, node.entries, i);
    }
  }

  /** Reading back a run of entries reads back every part of it. */
  lemma HoldsSlice(src: seq<Byte>, es: seq<Entry>, from: nat, n: nat)
    requires Holds(src, 0, es) && from + n <= |es|
    ensures Holds(src, from, es[from..from + n])
  {
    var part := es[from..from + n];
    forall i | 0 <= i < |part|
      ensures ReadsAt(src, from, i, part[i])
    {
      assert part[i] == es[from + i];
      assert ReadsAt(src, 0, from + i, es[from + i]);
    }
  }

  /** A buffer that holds a node reads back every range of its entries. */
  lemma IsNodeHolds(src: seq<Byte>, node: Node, from: nat, n: nat)
    requires IsNode(src, node) && from + n <= |node.entries|
    ensures Holds(src, from, node.entries[from..from + n])
  {
    IsNodeHoldsAll(src, node);
    HoldsSlice(src, node.entries, from, n);
  }

  /** A buffer that holds a node reads back its first k entries. */
  lemma IsNodeHoldsPrefix(src: seq<Byte>, node: Node, k: nat)
    requires IsNode(src, node) && k <= |node.entries|
    ensures Holds(src, 0, node.entries[..k])
  {
    IsNodeHolds(src, node, 0, k);
    assert node.entries[0..0 + k] == node.entries[..k];
  }

  /** A buffer that holds a node reads back its entries from k on. */
  lemma IsNodeHoldsSuffix(src: seq<Byte>, node: Node, k: nat)
    requires IsNode(src, node) && k <= |node.entries|
    ensures Holds(src, k, node.entries[k..])
  {
    IsNodeHolds(src, node, k, |node.entries| - k);
    assert node.entries[k..k + (|node.entries| - k)] == node.entries[k..];
  }

  /** The header of a buffer that holds a node. */
  lemma IsNodeHeader(src: seq<Byte>, node: Node)
    requires IsNode(src, node)
    ensures |src| >= 4 && BType(src) == node.btype && NKeys(src) == |node.entries|
    ensures OffsetReadable(src, NKeys(src)) && NBytes(src) == NodeSize(node)
  {
    FilledNBytes(src, node.btype, node.entries);
    FilledOffset(src, node.btype, |node.entries|, node.entries, 0);
  }

  /** The ranges nodeAppendRange reads, written as the slices the specifications use. */
  lemma Ranges(es: seq<Entry>, i: nat)
    requires i <= |es|
    ensures es[0..0 + i] == es[..i] && es[i..i + (|es| - i)] == es[i..]
  {
  }

  /** Entry i of es fits after built + es[..i] when all of built + es fits. */
  lemma RoomFor(nkeys: nat, built: seq<Entry>, es: seq<Entry>, i: nat)
    requires i < |es| && |built| + |es| <= nkeys
    ensures |built + es[..i]| == |built| + i < nkeys
    ensures Frontier(nkeys, built + es[..i]) + KvSize(es[i]) <= Frontier(nkeys, built + es)
    ensures (built + es[..i]) + [es[i]] == built + es[..i + 1]
  {
    var target, k := built + es, |built| + i;
    assert target[..k] == built + es[..i];
    assert target[k] == es[i];
    DataSizePrefix(target, k);
    DataSizePrefix(target, k + 1);
    assert (built + es[..i]) + [es[i]] == built + es[..i + 1];
  }

  /**
   * One step of nodeAppendRange: entry srcIdx of src, read with getPtr,
   * getKey and getVal, is appended as entry dstIdx of dst.
   */
  method AppendFrom(dst: array<Byte>, src: seq<Byte>, dstIdx: nat, srcIdx: nat,
                    ghost t: nat, ghost nkeys: nat, ghost cur: seq<Entry>, ghost e: Entry)
    requires EntryReadable(src, srcIdx) && EntryOf(src, srcIdx) == e
    requires Filled(dst[..], t, nkeys, cur) && |cur| == dstIdx < nkeys
    requires Frontier(nkeys, cur) + KvSize(e) <= dst.Length && dst.Length <= MAX_BUFFER
    modifies dst
    ensures Filled(dst[..], t, nkeys, cur + [e])
  {
    var ptr, key, val := GetPtr(src, srcIdx), GetKey(src, srcIdx), GetVal(src, srcIdx);
    FilledAppend(dst[..], t, nkeys, cur, e);
    NodeAppendKV(dst, dstIdx, ptr, key, val);
  }

  /**
   * nodeAppendRange: the n entries es that src holds from index srcOld on
   * are appended after the dstNew entries dst holds already.
   */
  method NodeAppendRange(dst: array<Byte>, src: seq<Byte>, dstNew: nat, srcOld: nat, n: nat,
                         ghost t: nat, ghost nkeys: nat, ghost built: seq<Entry>, ghost es: seq<Entry>)
    requires Holds(src, srcOld, es) && |es| == n
    requires |built| == dstNew && dstNew + n <= nkeys
    requires Filled(dst[..], t, nkeys, built) && dst.Length <= MAX_BUFFER
    requires Frontier(nkeys, built + es) <= dst.Length
    modifies dst
    ensures Filled(dst[..], t, nkeys, built + es)
  {
    assert built + es[..0] == built;
    for i := 0 to n
      invariant Filled(dst[..], t, nkeys, built + es[..i])
    {
      assert ReadsAt(src, srcOld, i, es[i]);
      RoomFor(nkeys, built, es, i);
      AppendFrom(dst, src, dstNew + i, srcOld + i, t, nkeys, built + es[..i], es[i]);
    }
    assert es[..n] == es;
  }
}
