/**
 * The B+tree of core/btree.go as a value, and what it stores.
 *
 * A Tree is the ghost picture of the pages under one page id: a leaf with
 * its key-value entries, or an internal node with its entries (child page
 * id and the child's first key) and one subtree per entry. Contents lists
 * the key-value pairs of the leaves from left to right; the operations of
 * the tree are specified against three reference operations on such a
 * list: Find (the value of a key), Upsert (a key set to a value) and
 * Remove (a key taken out), all defined by filtering and independently of
 * the page layout.
 */
module Tree {
  import opened Bytes
  import opened Node
  import opened NodeOps
  import opened Split

  datatype Option<T> = None | Some(value: T)

  datatype Tree = Leaf(entries: seq<Entry>) | Inner(entries: seq<Entry>, kids: seq<Tree>)

  /** The node a tree page holds. */
  function NodeOf(t: Tree): Node
  {
    Node(if t.Leaf? then BNODE_LEAF else BNODE_NODE, t.entries)
  }

  /** The key-value pairs under t, in leaf order. */
  function Contents(t: Tree): seq<Entry>
    decreases t
  {
    match t
    case Leaf(es) => es
    case Inner(_, kids) => ContentsOf(kids)
  }

  /** The key-value pairs under a run of subtrees, in order. */
  function ContentsOf(kids: seq<Tree>): seq<Entry>
    decreases kids
  {
    if kids == [] then [] else ContentsOf(kids[..|kids| - 1]) + Contents(kids[|kids| - 1])
  }

  /** getKey(0) of the node: its first key, or nil when it has none. */
  function FirstKey(t: Tree): seq<Byte>
  {
    if |t.entries| > 0 then t.entries[0].key else []
  }

  // ---------------------------------------------------------------------
  // The reference operations on a list of key-value pairs
  // ---------------------------------------------------------------------

  /** The entries of cs whose key compares to key as side (-1 below, +1 above), in order. */
  function Where(cs: seq<Entry>, key: seq<Byte>, side: int): (r: seq<Entry>)
    ensures |r| <= |cs|
  {
    if cs == [] then []
    else (if Compare(cs[0].key, key) == side then [cs[0]] else []) + Where(cs[1..], key, side)
  }

  /** Every key of cs is below key. */
  ghost predicate AllBelow(cs: seq<Entry>, key: seq<Byte>)
  {
    forall i :: 0 <= i < |cs| ==> Compare(cs[i].key, key) < 0
  }

  /** Every key of cs is above key. */
  ghost predicate AllAbove(cs: seq<Entry>, key: seq<Byte>)
  {
    forall i :: 0 <= i < |cs| ==> Compare(cs[i].key, key) > 0
  }

  /** The value stored under key: the first pair with that key. */
  function Find(cs: seq<Entry>, key: seq<Byte>): Option<seq<Byte>>
  {
    if cs == [] then None
    else if cs[0].key == key then Some(cs[0].val)
    else Find(cs[1..], key)
  }

  /** The pairs with key set to val: those below it, the new pair, those above it. */
  function Upsert(cs: seq<Entry>, key: seq<Byte>, val: seq<Byte>): seq<Entry>
  {
    Where(cs, key, -1) + [Entry(0, key, val)] + Where(cs, key, 1)
  }

  /** The pairs without key. */
  function Remove(cs: seq<Entry>, key: seq<Byte>): seq<Entry>
  {
    Where(cs, key, -1) + Where(cs, key, 1)
  }

  lemma {:induction false} WhereConcat(a: seq<Entry>, b: seq<Entry>, key: seq<Byte>, side: int)
    ensures Where(a + b, key, side) == Where(a, key, side) + Where(b, key, side)
  {
    if a != [] {
      assert (a + b)[1..] == a[1..] + b;
      WhereConcat(a[1..], b, key, side);
    } else {
      assert a + b == b;
    }
  }

  lemma {:induction false} WhereAll(cs: seq<Entry>, key: seq<Byte>, side: int)
    requires forall i :: 0 <= i < |cs| ==> Compare(cs[i].key, key) == side
    ensures Where(cs, key, side) == cs
  {
    if cs != [] {
      WhereAll(cs[1..], key, side);
    }
  }

  lemma {:induction false} WhereNone(cs: seq<Entry>, key: seq<Byte>, side: int)
    requires forall i :: 0 <= i < |cs| ==> Compare(cs[i].key, key) != side
    ensures Where(cs, key, side) == []
  {
    if cs != [] {
      WhereNone(cs[1..], key, side);
    }
  }

  /** Filtering keeps pairs of cs, and only those on the given side of key. */
  lemma {:induction false} WhereElems(cs: seq<Entry>, key: seq<Byte>, side: int)
    ensures forall x :: x in Where(cs, key, side) ==> x in cs && Compare(x.key, key) == side
  {
    if cs != [] {
      WhereElems(cs[1..], key, side);
    }
  }

  /** Filtering a sorted list leaves it sorted. */
  lemma {:induction false} WhereSorted(cs: seq<Entry>, key: seq<Byte>, side: int)
    requires KeysSorted(cs)
    ensures KeysSorted(Where(cs, key, side))
  {
    if cs != [] {
      var rest := Where(cs[1..], key, side);
      WhereSorted(cs[1..], key, side);
      WhereElems(cs[1..], key, side);
      if Compare(cs[0].key, key) == side {
        forall j | 0 <= j < |rest|
          ensures Compare(cs[0].key, rest[j].key) < 0
        {
          assert rest[j] in cs[1..];
          var k :| 0 <= k < |cs[1..]| && cs[1..][k] == rest[j];
          assert cs[k + 1] == rest[j];
        }
        SortedCons(cs[0], rest);
      }
    }
  }

  lemma SortedCons(x: Entry, cs: seq<Entry>)
    requires KeysSorted(cs) && forall j :: 0 <= j < |cs| ==> Compare(x.key, cs[j].key) < 0
    ensures KeysSorted([x] + cs)
  {
    var r := [x] + cs;
    forall i, j | 0 <= i < j < |r|
      ensures Compare(r[i].key, r[j].key) < 0
    {
      if i > 0 {
        assert r[i] == cs[i - 1] && r[j] == cs[j - 1];
      } else {
        assert r[j] == cs[j - 1];
      }
    }
  }

  /** Two sorted lists, every key of the first below every key of the second. */
  lemma SortedConcat(a: seq<Entry>, b: seq<Entry>)
    requires KeysSorted(a) && KeysSorted(b)
    requires forall i, j :: 0 <= i < |a| && 0 <= j < |b| ==> Compare(a[i].key, b[j].key) < 0
    ensures KeysSorted(a + b)
  {
    var r := a + b;
    forall i, j | 0 <= i < j < |r|
      ensures Compare(r[i].key, r[j].key) < 0
    {
      if j < |a| {
        assert r[i] == a[i] && r[j] == a[j];
      } else if i >= |a| {
        assert r[i] == b[i - |a|] && r[j] == b[j - |a|];
      } else {
        assert r[i] == a[i] && r[j] == b[j - |a|];
      }
    }
  }

  lemma {:induction false} FindConcat(a: seq<Entry>, b: seq<Entry>, key: seq<Byte>)
    ensures Find(a + b, key) == if Find(a, key).Some? then Find(a, key) else Find(b, key)
  {
    if a != [] {
      assert (a + b)[1..] == a[1..] + b;
      FindConcat(a[1..], b, key);
    } else {
      assert a + b == b;
    }
  }

  /** Finding in a filtered list: the same answer on the kept side of key, nothing elsewhere. */
  lemma {:induction false} FindWhere(cs: seq<Entry>, key: seq<Byte>, side: int, k: seq<Byte>)
    ensures Find(Where(cs, key, side), k) == if Compare(k, key) == side then Find(cs, k) else None
  {
    if cs != [] {
      FindWhere(cs[1..], key, side, k);
      var head := if Compare(cs[0].key, key) == side then [cs[0]] else [];
      FindConcat(head, Where(cs[1..], key, side), k);
      if head != [] {
        assert head[1..] == [];
      }
    }
  }

  /** A key none of whose pairs has is not found. */
  lemma {:induction false} FindMissing(cs: seq<Entry>, key: seq<Byte>)
    requires forall i :: 0 <= i < |cs| ==> cs[i].key != key
    ensures Find(cs, key) == None
  {
    if cs != [] {
      FindMissing(cs[1..], key);
    }
  }

  /** After Upsert, key holds val and every other key holds what it held before. */
  lemma FindUpsert(cs: seq<Entry>, key: seq<Byte>, val: seq<Byte>, k: seq<Byte>)
    ensures Find(Upsert(cs, key, val), k) == if k == key then Some(val) else Find(cs, k)
  {
    var lo, hi := Where(cs, key, -1), Where(cs, key, 1);
    FindConcat(lo + [Entry(0, key, val)], hi, k);
    FindConcat(lo, [Entry(0, key, val)], k);
    FindWhere(cs, key, -1, k);
    FindWhere(cs, key, 1, k);
    assert [Entry(0, key, val)][1..] == [];
  }

  /** After Remove, key is not found and every other key holds what it held before. */
  lemma FindRemove(cs: seq<Entry>, key: seq<Byte>, k: seq<Byte>)
    ensures Find(Remove(cs, key), k) == if k == key then None else Find(cs, k)
  {
    FindConcat(Where(cs, key, -1), Where(cs, key, 1), k);
    FindWhere(cs, key, -1, k);
    FindWhere(cs, key, 1, k);
  }

  /** Upsert keeps a sorted list sorted. */
  lemma UpsertSorted(cs: seq<Entry>, key: seq<Byte>, val: seq<Byte>)
    requires KeysSorted(cs)
    ensures KeysSorted(Upsert(cs, key, val))
  {
    var lo, hi, e := Where(cs, key, -1), Where(cs, key, 1), Entry(0, key, val);
    WhereSorted(cs, key, -1);
    WhereSorted(cs, key, 1);
    WhereElems(cs, key, -1);
    WhereElems(cs, key, 1);
    assert forall i :: 0 <= i < |lo| ==> lo[i] in lo;
    assert forall j :: 0 <= j < |hi| ==> hi[j] in hi;
    forall j | 0 <= j < |hi|
      ensures Compare(e.key, hi[j].key) < 0
    {
      CompareAntisymmetric(hi[j].key, key);
    }
    SortedCons(e, hi);
    forall i, j | 0 <= i < |lo| && 0 <= j < |[e] + hi|
      ensures Compare(lo[i].key, ([e] + hi)[j].key) < 0
    {
      if j > 0 {
        CompareTransitive(lo[i].key, key, hi[j - 1].key);
      }
    }
    SortedConcat(lo, [e] + hi);
    assert lo + [e] + hi == lo + ([e] + hi);
  }

  /** Remove keeps a sorted list sorted. */
  lemma RemoveSorted(cs: seq<Entry>, key: seq<Byte>)
    requires KeysSorted(cs)
    ensures KeysSorted(Remove(cs, key))
  {
    var lo, hi := Where(cs, key, -1), Where(cs, key, 1);
    WhereSorted(cs, key, -1);
    WhereSorted(cs, key, 1);
    WhereElems(cs, key, -1);
    WhereElems(cs, key, 1);
    assert forall i :: 0 <= i < |lo| ==> lo[i] in lo;
    assert forall j :: 0 <= j < |hi| ==> hi[j] in hi;
    forall i, j | 0 <= i < |lo| && 0 <= j < |hi|
      ensures Compare(lo[i].key, hi[j].key) < 0
    {
      CompareAntisymmetric(hi[j].key, key);
      CompareTransitive(lo[i].key, key, hi[j].key);
    }
    SortedConcat(lo, hi);
  }

  // ---------------------------------------------------------------------
  // Runs of subtrees
  // ---------------------------------------------------------------------

  lemma {:induction false} ContentsOfConcat(a: seq<Tree>, b: seq<Tree>)
    ensures ContentsOf(a + b) == ContentsOf(a) + ContentsOf(b)
    decreases |b|
  {
    if b == [] {
      assert a + b == a;
    } else {
      assert (a + b)[..|a + b| - 1] == a + b[..|b| - 1];
      ContentsOfConcat(a, b[..|b| - 1]);
    }
  }

  lemma ContentsOfOne(t: Tree)
    ensures ContentsOf([t]) == Contents(t)
  {
    assert [t][..0] == [];
  }

  /** The contents of a run of subtrees around the subtree at idx. */
  lemma ContentsAround(kids: seq<Tree>, idx: nat)
    requires idx < |kids|
    ensures ContentsOf(kids) == ContentsOf(kids[..idx]) + Contents(kids[idx]) + ContentsOf(kids[idx + 1..])
  {
    var a, m, b := kids[..idx], [kids[idx]], kids[idx + 1..];
    ContentsOfConcat(a + m, b);
    ContentsOfConcat(a, m);
    ContentsOfOne(kids[idx]);
    Around(kids, idx);
  }

  /** The contents of a run of subtrees with the one at idx replaced by a run. */
  lemma ContentsReplaced(kids: seq<Tree>, idx: nat, mid: seq<Tree>)
    requires idx < |kids|
    ensures ContentsOf(kids[..idx] + mid + kids[idx + 1..])
         == ContentsOf(kids[..idx]) + ContentsOf(mid) + ContentsOf(kids[idx + 1..])
  {
    ContentsOfConcat(kids[..idx] + mid, kids[idx + 1..]);
    ContentsOfConcat(kids[..idx], mid);
  }

  // ---------------------------------------------------------------------
  // Well-formed trees
  // ---------------------------------------------------------------------

  /** The bounds checkLimit puts on a key and a value. */
  predicate InLimits(e: Entry)
  {
    |e.key| <= BTREE_MAX_KEY_SIZE && |e.val| <= BTREE_MAX_VAL_SIZE
  }

  ghost predicate AllInLimits(es: seq<Entry>)
  {
    forall i :: 0 <= i < |es| ==> InLimits(es[i])
  }

  /**
   * A tree of height h: leaves at height 0 with pairs within the limits;
   * internal nodes with one subtree per entry as KidAt describes. The size
   * of the top node is left to the caller: the insertion builds nodes of
   * up to two pages before splitting them.
   */
  ghost predicate Good(t: Tree, h: nat)
    decreases t, 0
  {
    match t
    case Leaf(es) => h == 0 && AllInLimits(es)
    case Inner(es, kids) =>
      && h > 0 && |kids| == |es|
      && forall i :: 0 <= i < |kids| ==> KidAt(es, kids, i, h)
  }

  /**
   * Entry i of an internal node of height h and the subtree under it: of
   * height h - 1, fitting a page, not empty, with the entry holding its
   * first key and an empty value.
   */
  ghost predicate KidAt(es: seq<Entry>, kids: seq<Tree>, i: nat, h: nat)
    decreases kids, 1
  {
    && i < |es| && i < |kids| && h > 0
    && Good(kids[i], h - 1) && NodeSize(NodeOf(kids[i])) <= BTREE_PAGE_SIZE
    && |kids[i].entries| > 0 && es[i].key == FirstKey(kids[i]) && es[i].val == []
  }

  /** Leaves are exactly the well-formed trees of height 0. */
  lemma LeafHeight(t: Tree, h: nat)
    requires Good(t, h)
    ensures t.Leaf? <==> h == 0
  {
  }

  /** Every entry of a well-formed node is within the limits. */
  lemma EntriesInLimits(t: Tree, h: nat)
    requires Good(t, h)
    ensures AllInLimits(t.entries)
    decreases t
  {
    if t.Inner? {
      forall i | 0 <= i < |t.entries|
        ensures InLimits(t.entries[i])
      {
        assert KidAt(t.entries, t.kids, i, h);
        EntriesInLimits(t.kids[i], h - 1);
      }
    }
  }

  /** Entries within the limits each fit a page alone. */
  lemma LimitsFitAlone(es: seq<Entry>)
    requires AllInLimits(es)
    ensures AllFitAlone(es)
  {
    forall i | 0 <= i < |es|
      ensures FitsAlone(es[i])
    {
      DataSizeAppend([], es[i]);
      assert [] + [es[i]] == [es[i]];
    }
  }

  /** A well-formed node with entries holds pairs, the first of them under its first key. */
  lemma {:induction false} FirstKeyFirst(t: Tree, h: nat)
    requires Good(t, h) && |t.entries| > 0
    ensures Contents(t) != [] && Contents(t)[0].key == FirstKey(t)
    decreases t
  {
    if t.Inner? {
      assert KidAt(t.entries, t.kids, 0, h);
      FirstKeyFirst(t.kids[0], h - 1);
      ContentsAround(t.kids, 0);
      assert t.kids[..0] == [];
    }
  }

  /** A well-formed node holds pairs exactly when it has entries. */
  lemma EmptyContents(t: Tree, h: nat)
    requires Good(t, h)
    ensures Contents(t) == [] <==> |t.entries| == 0
  {
    if |t.entries| > 0 {
      FirstKeyFirst(t, h);
    } else if t.Inner? {
      assert t.kids == [];
    }
  }

  /** Every pair of a well-formed tree is within the limits. */
  lemma {:induction false} ContentsInLimits(t: Tree, h: nat)
    requires Good(t, h)
    ensures AllInLimits(Contents(t))
    decreases t
  {
    if t.Inner? {
      KidsInLimits(t.kids, t.entries, h);
    }
  }

  lemma {:induction false} KidsInLimits(kids: seq<Tree>, es: seq<Entry>, h: nat)
    requires |kids| == |es| && forall i :: 0 <= i < |kids| ==> KidAt(es, kids, i, h)
    ensures AllInLimits(ContentsOf(kids))
    decreases kids
  {
    if kids != [] {
      var n := |kids| - 1;
      assert KidAt(es, kids, n, h);
      forall i | 0 <= i < n
        ensures KidAt(es[..n], kids[..n], i, h)
      {
        assert KidAt(es, kids, i, h);
      }
      KidsInLimits(kids[..n], es[..n], h);
      ContentsInLimits(kids[n], h - 1);
    }
  }


  // ---------------------------------------------------------------------
  // nodeSplit3 on trees
  // ---------------------------------------------------------------------

  /** The entries a..b of a node, with their subtrees when it is internal. */
  function Slice(t: Tree, a: nat, b: nat): (r: Tree)
    requires a <= b <= |t.entries| && (t.Inner? ==> |t.kids| == |t.entries|)
    ensures NodeOf(r) == Node(NodeOf(t).btype, t.entries[a..b])
    ensures r.Inner? ==> |r.kids| == |r.entries|
  {
    match t
    case Leaf(es) => Leaf(es[a..b])
    case Inner(es, kids) => Inner(es[a..b], kids[a..b])
  }

  /** The pieces nodeSplit3 cuts a node into, each with its subtrees. */
  function SplitTree(t: Tree): (r: seq<Tree>)
    requires t.Inner? ==> |t.kids| == |t.entries|
    ensures 1 <= |r| <= 3
    ensures forall i :: 0 <= i < |r| ==> r[i].Inner? ==> |r[i].kids| == |r[i].entries|
  {
    var es := t.entries;
    if NodeSize(NodeOf(t)) <= BTREE_PAGE_SIZE then
      [t]
    else
      var k := SplitPoint(es);
      if SizeOf(es[..k]) <= BTREE_PAGE_SIZE then
        [Slice(t, 0, k), Slice(t, k, |es|)]
      else
        var k2 := SplitPoint(es[..k]);
        [Slice(t, 0, k2), Slice(t, k2, k), Slice(t, k, |es|)]
  }

  /** The pieces hold the nodes of Split3Nodes. */
  lemma SplitTreeNodes(t: Tree)
    requires t.Inner? ==> |t.kids| == |t.entries|
    ensures |SplitTree(t)| == |Split3Nodes(NodeOf(t))|
    ensures forall i :: 0 <= i < |SplitTree(t)| ==> NodeOf(SplitTree(t)[i]) == Split3Nodes(NodeOf(t))[i]
  {
    var es, n := t.entries, |t.entries|;
    var r, ns := SplitTree(t), Split3Nodes(NodeOf(t));
    if NodeSize(NodeOf(t)) > BTREE_PAGE_SIZE {
      var k := SplitPoint(es);
      if SizeOf(es[..k]) <= BTREE_PAGE_SIZE {
        assert es[0..k] == es[..k];
        assert r == [Slice(t, 0, k), Slice(t, k, n)];
      } else {
        var k2 := SplitPoint(es[..k]);
        assert es[..k][..k2] == es[0..k2] && es[..k][k2..] == es[k2..k];
        assert r == [Slice(t, 0, k2), Slice(t, k2, k), Slice(t, k, n)];
      }
    }
  }

  lemma ContentsOfTwo(x: Tree, y: Tree)
    ensures ContentsOf([x, y]) == Contents(x) + Contents(y)
  {
    assert [x, y][..1] == [x];
    ContentsOfOne(x);
  }

  lemma ContentsOfThree(x: Tree, y: Tree, z: Tree)
    ensures ContentsOf([x, y, z]) == Contents(x) + Contents(y) + Contents(z)
  {
    assert [x, y, z][..2] == [x, y];
    ContentsOfTwo(x, y);
  }

  /** Two adjacent slices hold the pairs of the slice they make up. */
  lemma ContentsSlices(t: Tree, a: nat, b: nat, c: nat)
    requires a <= b <= c <= |t.entries| && (t.Inner? ==> |t.kids| == |t.entries|)
    ensures Contents(Slice(t, a, b)) + Contents(Slice(t, b, c)) == Contents(Slice(t, a, c))
  {
    if t.Inner? {
      assert t.kids[a..c] == t.kids[a..b] + t.kids[b..c];
      ContentsOfConcat(t.kids[a..b], t.kids[b..c]);
    } else {
      assert t.entries[a..c] == t.entries[a..b] + t.entries[b..c];
    }
  }

  /** The pieces hold the pairs of the tree, in order. */
  lemma SplitContents(t: Tree)
    requires t.Inner? ==> |t.kids| == |t.entries|
    ensures ContentsOf(SplitTree(t)) == Contents(t)
  {
    var es, n := t.entries, |t.entries|;
    assert Slice(t, 0, n) == t by {
      assert es[0..n] == es;
      if t.Inner? {
        assert t.kids[0..n] == t.kids;
      }
    }
    if NodeSize(NodeOf(t)) <= BTREE_PAGE_SIZE {
      ContentsOfOne(t);
    } else {
      var k := SplitPoint(es);
      ContentsSlices(t, 0, k, n);
      if SizeOf(es[..k]) <= BTREE_PAGE_SIZE {
        ContentsOfTwo(Slice(t, 0, k), Slice(t, k, n));
      } else {
        var k2 := SplitPoint(es[..k]);
        ContentsSlices(t, 0, k2, k);
        ContentsOfThree(Slice(t, 0, k2), Slice(t, k2, k), Slice(t, k, n));
      }
    }
  }

  /** A slice of a well-formed node is well formed. */
  lemma GoodSlice(t: Tree, h: nat, a: nat, b: nat)
    requires Good(t, h) && a <= b <= |t.entries|
    ensures Good(Slice(t, a, b), h)
  {
    if t.Inner? {
      var r := Slice(t, a, b);
      forall i | 0 <= i < |r.kids|
        ensures KidAt(r.entries, r.kids, i, h)
      {
        assert KidAt(t.entries, t.kids, a + i, h);
      }
    }
  }

  /**
   * Splitting a well-formed node of at most two pages less one header
   * leaves well-formed pieces that each fit a page and hold entries.
   */
  lemma SplitGood(t: Tree, h: nat)
    requires Good(t, h) && |t.entries| > 0 && NodeSize(NodeOf(t)) <= 2 * BTREE_PAGE_SIZE - 4
    ensures forall i :: 0 <= i < |SplitTree(t)| ==>
      Good(SplitTree(t)[i], h) && NodeSize(NodeOf(SplitTree(t)[i])) <= BTREE_PAGE_SIZE
      && |SplitTree(t)[i].entries| > 0
  {
    var r, es := SplitTree(t), t.entries;
    EntriesInLimits(t, h);
    LimitsFitAlone(es);
    Split3Fits(NodeOf(t));
    Split3Shape(NodeOf(t));
    SplitTreeNodes(t);
    if NodeSize(NodeOf(t)) > BTREE_PAGE_SIZE {
      var k := SplitPoint(es);
      GoodSlice(t, h, 0, k);
      GoodSlice(t, h, k, |es|);
      if SizeOf(es[..k]) > BTREE_PAGE_SIZE {
        var k2 := SplitPoint(es[..k]);
        GoodSlice(t, h, 0, k2);
        GoodSlice(t, h, k2, k);
      }
    }
  }

  // ---------------------------------------------------------------------
  // Positions in sorted lists and in rebuilt nodes
  // ---------------------------------------------------------------------

  /** The parts of a sorted list: each sorted, and each below the next. */
  lemma SortedParts(a: seq<Entry>, b: seq<Entry>, c: seq<Entry>)
    requires KeysSorted(a + b + c)
    ensures KeysSorted(b) && KeysSorted(c)
    ensures forall i, j :: 0 <= i < |a| && 0 <= j < |b| ==> Compare(a[i].key, b[j].key) < 0
    ensures forall i, j :: 0 <= i < |b| && 0 <= j < |c| ==> Compare(b[i].key, c[j].key) < 0
  {
    var s := a + b + c;
    assert forall j :: 0 <= j < |b| ==> s[|a| + j] == b[j];
    assert forall i :: 0 <= i < |a| ==> s[i] == a[i];
    assert forall j :: 0 <= j < |c| ==> s[|a| + |b| + j] == c[j];
  }

  /** Element i of a sequence whose element idx was replaced by the run m. */
  lemma ReplacedAt<T>(s: seq<T>, idx: nat, m: seq<T>, i: nat)
    requires idx < |s| && i < |s| - 1 + |m|
    ensures |s[..idx] + m + s[idx + 1..]| == |s| - 1 + |m|
    ensures (s[..idx] + m + s[idx + 1..])[i]
         == if i < idx then s[i] else if i < idx + |m| then m[i - idx] else s[i - |m| + 1]
  {
  }

  lemma Around<T>(s: seq<T>, i: nat)
    requires i < |s|
    ensures s[..i] + [s[i]] + s[i + 1..] == s
  {
  }

  /** The prefix of s up to i + 1 ends with s[i]. */
  lemma TakeOneMore<T>(s: seq<T>, i: nat)
    requires i < |s|
    ensures s[..i + 1] == s[..i] + [s[i]]
  {
  }

  /** The suffix of s from i starts with s[i]. */
  lemma DropOne<T>(s: seq<T>, i: nat)
    requires i < |s|
    ensures s[i..] == [s[i]] + s[i + 1..]
  {
  }

  /** The size of a node whose entry idx was replaced by the run m. */
  lemma SizeReplaced(es: seq<Entry>, idx: nat, m: seq<Entry>)
    requires idx < |es|
    ensures SizeOf(es[..idx] + m + es[idx + 1..]) + 10 + KvSize(es[idx]) == SizeOf(es) + 10 * |m| + DataSize(m)
  {
    var p, x, q := es[..idx], es[idx], es[idx + 1..];
    DataSizeConcat(p + m, q);
    DataSizeConcat(p, m);
    DataSizeConcat(p + [x], q);
    DataSizeAppend(p, x);
    Around(es, idx);
  }

  lemma {:induction false} DataSizeBound(es: seq<Entry>, m: nat)
    requires forall i :: 0 <= i < |es| ==> KvSize(es[i]) <= m
    ensures DataSize(es) <= |es| * m
  {
    if es != [] {
      DataSizeBound(es[..|es| - 1], m);
    }
  }

  /** With every key of a below key and every key of c above it, Upsert only touches b. */
  lemma UpsertMiddle(a: seq<Entry>, b: seq<Entry>, c: seq<Entry>, key: seq<Byte>, val: seq<Byte>)
    requires AllBelow(a, key) && AllAbove(c, key)
    ensures Upsert(a + b + c, key, val) == a + Upsert(b, key, val) + c
  {
    var lo, hi, e := Where(b, key, -1), Where(b, key, 1), Entry(0, key, val);
    WhereParts(a, b, c, key);
    assert (a + lo) + [e] + (hi + c) == a + (lo + [e] + hi) + c;
  }

  /** With every key of a below key and every key of c above it, Remove only touches b. */
  lemma RemoveMiddle(a: seq<Entry>, b: seq<Entry>, c: seq<Entry>, key: seq<Byte>)
    requires AllBelow(a, key) && AllAbove(c, key)
    ensures Remove(a + b + c, key) == a + Remove(b, key) + c
  {
    var lo, hi := Where(b, key, -1), Where(b, key, 1);
    WhereParts(a, b, c, key);
    assert (a + lo) + (hi + c) == a + (lo + hi) + c;
  }

  lemma WhereParts(a: seq<Entry>, b: seq<Entry>, c: seq<Entry>, key: seq<Byte>)
    requires AllBelow(a, key) && AllAbove(c, key)
    ensures Where(a + b + c, key, -1) == a + Where(b, key, -1)
    ensures Where(a + b + c, key, 1) == Where(b, key, 1) + c
  {
    WhereConcat(a + b, c, key, -1);
    WhereConcat(a, b, key, -1);
    WhereConcat(a + b, c, key, 1);
    WhereConcat(a, b, key, 1);
    WhereAll(a, key, -1);
    WhereNone(a, key, 1);
    WhereNone(c, key, -1);
    WhereAll(c, key, 1);
    assert Where(b, key, -1) + [] == Where(b, key, -1);
    assert [] + Where(b, key, 1) == Where(b, key, 1);
  }

  // ---------------------------------------------------------------------
  // The descent
  // ---------------------------------------------------------------------

  /**
   * Below an internal node, the child that nodeLookupLE picks (the last
   * whose key is at most key, as LookupLEBounds states it) is the only one whose pairs can hold key: the pairs
   * of the children before it are below key, those after it above key.
   */
  lemma Route(t: Tree, h: nat, key: seq<Byte>, idx: nat)
    requires Good(t, h) && t.Inner? && |t.entries| > 0
    requires KeysSorted(Contents(t))
    requires idx < |t.entries| && Compare(t.entries[idx].key, key) <= 0
    requires idx + 1 < |t.entries| && t.entries[idx].key != key ==> Compare(t.entries[idx + 1].key, key) > 0
    ensures idx < |t.kids|
    ensures Contents(t) == ContentsOf(t.kids[..idx]) + Contents(t.kids[idx]) + ContentsOf(t.kids[idx + 1..])
    ensures AllBelow(ContentsOf(t.kids[..idx]), key) && AllAbove(ContentsOf(t.kids[idx + 1..]), key)
    ensures KeysSorted(Contents(t.kids[idx])) && Compare(FirstKey(t.kids[idx]), key) <= 0
  {
    var es, kids := t.entries, t.kids;
    var a, b, c := ContentsOf(kids[..idx]), Contents(kids[idx]), ContentsOf(kids[idx + 1..]);
    ContentsAround(kids, idx);
    assert KidAt(es, kids, idx, h);
    FirstKeyFirst(kids[idx], h - 1);
    if idx + 1 < |kids| {
      assert KidAt(es, kids, idx + 1, h);
      FirstOfRun(kids[idx + 1..], h - 1, es[idx + 1]);
    } else {
      assert kids[idx + 1..] == [];
    }
    Bracket(a, b, c, key);
  }

  /** The part of Route about the chosen child alone. */
  lemma RouteKid(t: Tree, h: nat, key: seq<Byte>, idx: nat)
    requires Good(t, h) && t.Inner? && |t.entries| > 0
    requires KeysSorted(Contents(t))
    requires idx < |t.entries| && Compare(t.entries[idx].key, key) <= 0
    requires idx + 1 < |t.entries| && t.entries[idx].key != key ==> Compare(t.entries[idx + 1].key, key) > 0
    ensures idx < |t.kids| && KeysSorted(Contents(t.kids[idx])) && Compare(FirstKey(t.kids[idx]), key) <= 0
  {
    Route(t, h, key, idx);
  }

  /**
   * A sorted list cut into a, b and c, where b starts at or below key and
   * c, unless b starts with key, starts above it: a is below key, c above.
   */
  lemma Bracket(a: seq<Entry>, b: seq<Entry>, c: seq<Entry>, key: seq<Byte>)
    requires KeysSorted(a + b + c) && b != [] && Compare(b[0].key, key) <= 0
    requires c != [] && b[0].key != key ==> Compare(c[0].key, key) > 0
    ensures KeysSorted(b) && AllBelow(a, key) && AllAbove(c, key)
  {
    SortedParts(a, b, c);
    BelowVia(a, b, key);
    if c != [] {
      if b[0].key == key {
        AboveVia(b, c, key);
      } else {
        AboveSorted(c, key);
      }
    }
  }

  lemma BelowVia(a: seq<Entry>, b: seq<Entry>, key: seq<Byte>)
    requires b != [] && Compare(b[0].key, key) <= 0
    requires forall i, j :: 0 <= i < |a| && 0 <= j < |b| ==> Compare(a[i].key, b[j].key) < 0
    ensures AllBelow(a, key)
  {
    forall i | 0 <= i < |a|
      ensures Compare(a[i].key, key) < 0
    {
      CompareTransitiveLe(a[i].key, b[0].key, key);
    }
  }

  lemma AboveVia(b: seq<Entry>, c: seq<Entry>, key: seq<Byte>)
    requires b != [] && b[0].key == key
    requires forall i, j :: 0 <= i < |b| && 0 <= j < |c| ==> Compare(b[i].key, c[j].key) < 0
    ensures AllAbove(c, key)
  {
    forall j | 0 <= j < |c|
      ensures Compare(c[j].key, key) > 0
    {
      CompareAntisymmetric(b[0].key, c[j].key);
    }
  }

  lemma AboveSorted(c: seq<Entry>, key: seq<Byte>)
    requires KeysSorted(c) && c != [] && Compare(c[0].key, key) > 0
    ensures AllAbove(c, key)
  {
    forall j | 0 < j < |c|
      ensures Compare(c[j].key, key) > 0
    {
      CompareAntisymmetric(c[0].key, key);
      CompareTransitive(key, c[0].key, c[j].key);
      CompareAntisymmetric(c[j].key, key);
    }
  }

  /** The pairs under a run of subtrees start with the first key of the first of them. */
  lemma FirstOfRun(kids: seq<Tree>, h: nat, e: Entry)
    requires kids != [] && Good(kids[0], h) && |kids[0].entries| > 0 && e.key == FirstKey(kids[0])
    ensures ContentsOf(kids) != [] && ContentsOf(kids)[0].key == e.key
  {
    FirstKeyFirst(kids[0], h);
    ContentsAround(kids, 0);
    assert kids[..0] == [];
  }

  // ---------------------------------------------------------------------
  // treeInsert
  // ---------------------------------------------------------------------

  /** A rebuilt node with its subtrees, and the page-id counter after the pages it took. */
  datatype Grown = Grown(tree: Tree, next: nat)

  /** The entries nodeReplaceKidN writes for children stored at next, next + 1, ...: each child's first key. */
  function KidEntries(kids: seq<Tree>, next: nat): (r: seq<Entry>)
    requires next + |kids| <= U64_LIMIT
    ensures |r| == |kids|
    ensures forall i :: 0 <= i < |kids| ==> r[i] == Entry(next + i, FirstKey(kids[i]), [])
  {
    seq(|kids|, i requires 0 <= i < |kids| => Entry(next + i, FirstKey(kids[i]), []))
  }

  /**
   * treeInsert: the node it returns for t, with the subtrees below it, when
   * the store hands out ids from next. A leaf gets the pair updated or
   * inserted after the last key at most key; an internal node gets the
   * child nodeLookupLE picks rebuilt, split into up to three pieces that
   * are stored in order, and its entry replaced by theirs.
   */
  function Ins(t: Tree, h: nat, key: seq<Byte>, val: seq<Byte>, next: nat): (g: Grown)
    requires Good(t, h) && |t.entries| > 0 && next + 3 * h <= U64_LIMIT
    ensures next <= g.next <= next + 3 * h
    ensures g.tree.Leaf? == t.Leaf? && |g.tree.entries| > 0
    ensures g.tree.Inner? ==> |g.tree.kids| == |g.tree.entries|
    decreases t
  {
    var es := t.entries;
    var idx := LookupLE(es, key);
    var e := Entry(0, key, val);
    if t.Leaf? then
      if es[idx].key == key then Grown(Leaf(Updated(es, idx, e)), next)
      else Grown(Leaf(Inserted(es, idx + 1, e)), next)
    else
      assert KidAt(es, t.kids, idx, h);
      var g := Ins(t.kids[idx], h - 1, key, val, next);
      var pieces := SplitTree(g.tree);
      Grown(Inner(es[..idx] + KidEntries(pieces, g.next) + es[idx + 1..], t.kids[..idx] + pieces + t.kids[idx + 1..]),
            g.next + |pieces|)
  }

  /**
   * An internal node with the child at idx replaced by pieces stored at
   * next, next + 1, ...: well formed when the pieces are, and larger by at
   * most one key-sized entry per piece, less the entry it replaces.
   */
  lemma GoodReplaced(t: Tree, h: nat, idx: nat, pieces: seq<Tree>, next: nat)
    requires Good(t, h) && t.Inner? && idx < |t.kids| && next + |pieces| <= U64_LIMIT
    requires forall i :: 0 <= i < |pieces| ==>
      Good(pieces[i], h - 1) && NodeSize(NodeOf(pieces[i])) <= BTREE_PAGE_SIZE && |pieces[i].entries| > 0
    ensures Good(Inner(t.entries[..idx] + KidEntries(pieces, next) + t.entries[idx + 1..],
                       t.kids[..idx] + pieces + t.kids[idx + 1..]), h)
    ensures SizeOf(t.entries[..idx] + KidEntries(pieces, next) + t.entries[idx + 1..]) + 14
         <= SizeOf(t.entries) + |pieces| * (14 + BTREE_MAX_KEY_SIZE)
  {
    var es, kids, m := t.entries, t.kids, KidEntries(pieces, next);
    var es', kids' := es[..idx] + m + es[idx + 1..], kids[..idx] + pieces + kids[idx + 1..];
    forall i | 0 <= i < |kids'|
      ensures KidAt(es', kids', i, h)
    {
      ReplacedAt(es, idx, m, i);
      ReplacedAt(kids, idx, pieces, i);
      if i < idx {
        assert KidAt(es, kids, i, h);
      } else if i >= idx + |pieces| {
        assert KidAt(es, kids, i - |m| + 1, h);
      }
    }
    forall i | 0 <= i < |m|
      ensures KvSize(m[i]) <= 4 + BTREE_MAX_KEY_SIZE
    {
      EntriesInLimits(pieces[i], h - 1);
    }
    DataSizeBound(m, 4 + BTREE_MAX_KEY_SIZE);
    SizeReplaced(es, idx, m);
  }

  /**
   * On a sorted leaf whose first key is at most key, Upsert is leafUpdate
   * at the index nodeLookupLE finds when it holds key, and leafInsert just
   * after it otherwise.
   */
  lemma LeafUpsert(es: seq<Entry>, key: seq<Byte>, val: seq<Byte>)
    requires |es| > 0 && KeysSorted(es) && Compare(es[0].key, key) <= 0
    ensures LookupLE(es, key) < |es|
    ensures es[LookupLE(es, key)].key == key ==>
      Upsert(es, key, val) == Updated(es, LookupLE(es, key), Entry(0, key, val))
    ensures es[LookupLE(es, key)].key != key ==>
      Upsert(es, key, val) == Inserted(es, LookupLE(es, key) + 1, Entry(0, key, val))
  {
    var e, idx := Entry(0, key, val), LookupLE(es, key);
    LookupLEBounds(es, key);
    LookupLEIsLast(es, key);
    var a, x, c := es[..idx], es[idx], es[idx + 1..];
    Around(es, idx);
    SortedParts(a, [x], c);
    BelowVia(a, [x], key);
    assert AllAbove(c, key) by {
      assert forall j :: 0 <= j < |c| ==> c[j] == es[idx + 1 + j];
    }
    UpsertMiddle(a, [x], c, key, val);
    UpsertOne(x, key, val);
    if x.key != key {
      AppendAfter(es, idx, e);
    }
  }

  /** The leaf treeInsert builds stays within the limits and within two pages less one header. */
  lemma LeafGrows(es: seq<Entry>, idx: nat, e: Entry)
    requires idx < |es| && AllInLimits(es) && InLimits(e) && SizeOf(es) <= BTREE_PAGE_SIZE
    ensures AllInLimits(Updated(es, idx, e)) && SizeOf(Updated(es, idx, e)) <= 2 * BTREE_PAGE_SIZE - 4
    ensures AllInLimits(Inserted(es, idx + 1, e)) && SizeOf(Inserted(es, idx + 1, e)) <= 2 * BTREE_PAGE_SIZE - 4
  {
    var x := es[idx];
    SizeReplaced(es, idx, [e]);
    LimitsReplaced(es, idx, [e]);
    AppendAfter(es, idx, e);
    SizeReplaced(es, idx, [x, e]);
    LimitsReplaced(es, idx, [x, e]);
    DataSizeAppend([x], e);
    DataSizeAppend([], x);
    assert [] + [x] == [x] && [x] + [e] == [x, e];
  }

  /** treeInsert on a leaf: the pairs become Upsert of them, within two pages less one header. */
  lemma InsLeaf(t: Tree, key: seq<Byte>, val: seq<Byte>, next: nat)
    requires t.Leaf? && Good(t, 0) && |t.entries| > 0 && next <= U64_LIMIT
    requires NodeSize(NodeOf(t)) <= BTREE_PAGE_SIZE && InLimits(Entry(0, key, val))
    requires KeysSorted(t.entries) && Compare(FirstKey(t), key) <= 0
    ensures Contents(Ins(t, 0, key, val, next).tree) == Upsert(Contents(t), key, val)
    ensures Good(Ins(t, 0, key, val, next).tree, 0)
    ensures NodeSize(NodeOf(Ins(t, 0, key, val, next).tree)) <= 2 * BTREE_PAGE_SIZE - 4
  {
    LeafUpsert(t.entries, key, val);
    LeafGrows(t.entries, LookupLE(t.entries, key), Entry(0, key, val));
  }

  /** Upsert of a single pair: the new pair replaces it or follows it. */
  lemma UpsertOne(x: Entry, key: seq<Byte>, val: seq<Byte>)
    ensures x.key == key ==> Upsert([x], key, val) == [Entry(0, key, val)]
    ensures Compare(x.key, key) < 0 ==> Upsert([x], key, val) == [x, Entry(0, key, val)]
  {
    assert [x][1..] == [];
  }

  /** Inserting after entry idx is replacing entry idx by itself and the new entry. */
  lemma AppendAfter<T>(s: seq<T>, idx: nat, e: T)
    requires idx < |s|
    ensures s[..idx + 1] + [e] + s[idx + 1..] == s[..idx] + [s[idx], e] + s[idx + 1..]
  {
    assert s[..idx + 1] == s[..idx] + [s[idx]];
  }

  /** Replacing entry idx by a run within the limits keeps every entry within them. */
  lemma LimitsReplaced(es: seq<Entry>, idx: nat, m: seq<Entry>)
    requires idx < |es| && AllInLimits(es) && AllInLimits(m)
    ensures AllInLimits(es[..idx] + m + es[idx + 1..])
  {
    var r := es[..idx] + m + es[idx + 1..];
    forall i | 0 <= i < |r|
      ensures InLimits(r[i])
    {
      ReplacedAt(es, idx, m, i);
    }
  }

  /**
   * treeInsert: under a well-formed sorted tree whose first key is at
   * most key, the pairs of the node it returns are Upsert of the old
   * pairs; the node is well formed and at most two pages less one header,
   * so nodeSplit3 can always cut it into pieces that fit a page.
   */
  lemma {:induction false} InsSpec(t: Tree, h: nat, key: seq<Byte>, val: seq<Byte>, next: nat)
    requires Good(t, h) && |t.entries| > 0 && next + 3 * h <= U64_LIMIT
    requires NodeSize(NodeOf(t)) <= BTREE_PAGE_SIZE && InLimits(Entry(0, key, val))
    requires KeysSorted(Contents(t)) && Compare(FirstKey(t), key) <= 0
    ensures Contents(Ins(t, h, key, val, next).tree) == Upsert(Contents(t), key, val)
    ensures Good(Ins(t, h, key, val, next).tree, h)
    ensures NodeSize(NodeOf(Ins(t, h, key, val, next).tree)) <= 2 * BTREE_PAGE_SIZE - 4
    decreases t, 2
  {
    if t.Leaf? {
      InsLeaf(t, key, val, next);
    } else {
      InsInner(t, h, key, val, next);
    }
  }

  lemma {:induction false} InsInner(t: Tree, h: nat, key: seq<Byte>, val: seq<Byte>, next: nat)
    requires t.Inner? && Good(t, h) && |t.entries| > 0 && next + 3 * h <= U64_LIMIT
    requires NodeSize(NodeOf(t)) <= BTREE_PAGE_SIZE && InLimits(Entry(0, key, val))
    requires KeysSorted(Contents(t)) && Compare(FirstKey(t), key) <= 0
    ensures Contents(Ins(t, h, key, val, next).tree) == Upsert(Contents(t), key, val)
    ensures Good(Ins(t, h, key, val, next).tree, h)
    ensures NodeSize(NodeOf(Ins(t, h, key, val, next).tree)) <= 2 * BTREE_PAGE_SIZE - 4
    decreases t, 1
  {
    var es := t.entries;
    var idx := LookupLE(es, key);
    LookupLEBounds(es, key);
    RouteKid(t, h, key, idx);
    assert KidAt(es, t.kids, idx, h);
    InsDescend(t, h, key, val, next, idx);
  }

  /** treeInsert into the child at idx, then the rebuilt node. */
  lemma {:induction false} InsDescend(t: Tree, h: nat, key: seq<Byte>, val: seq<Byte>, next: nat, idx: nat)
    requires t.Inner? && Good(t, h) && |t.entries| > 0 && next + 3 * h <= U64_LIMIT
    requires NodeSize(NodeOf(t)) <= BTREE_PAGE_SIZE && InLimits(Entry(0, key, val)) && KeysSorted(Contents(t))
    requires idx == LookupLE(t.entries, key) && idx < |t.entries| && Compare(t.entries[idx].key, key) <= 0
    requires idx + 1 < |t.entries| && t.entries[idx].key != key ==> Compare(t.entries[idx + 1].key, key) > 0
    requires idx < |t.kids| && Good(t.kids[idx], h - 1) && |t.kids[idx].entries| > 0
    requires NodeSize(NodeOf(t.kids[idx])) <= BTREE_PAGE_SIZE
    requires KeysSorted(Contents(t.kids[idx])) && Compare(FirstKey(t.kids[idx]), key) <= 0
    ensures Contents(Ins(t, h, key, val, next).tree) == Upsert(Contents(t), key, val)
    ensures Good(Ins(t, h, key, val, next).tree, h)
    ensures NodeSize(NodeOf(Ins(t, h, key, val, next).tree)) <= 2 * BTREE_PAGE_SIZE - 4
    decreases t, 0
  {
    var kid := t.kids[idx];
    var g := Ins(kid, h - 1, key, val, next);
    assert Good(g.tree, h - 1) && |g.tree.entries| > 0 && NodeSize(NodeOf(g.tree)) <= 2 * BTREE_PAGE_SIZE - 4
      && Contents(g.tree) == Upsert(Contents(kid), key, val) && g.next + 3 <= U64_LIMIT by {
      InsSpec(kid, h - 1, key, val, next);
    }
    var r := Ins(t, h, key, val, next).tree;
    assert r == Inner(t.entries[..idx] + KidEntries(SplitTree(g.tree), g.next) + t.entries[idx + 1..],
                      t.kids[..idx] + SplitTree(g.tree) + t.kids[idx + 1..]) by {
      InsUnfold(t, h, key, val, next);
    }
    InsGlue(t, h, key, val, idx, g, r);
  }

  /** The child's result, cut by nodeSplit3, completes the internal-node step. */
  lemma InsGlue(t: Tree, h: nat, key: seq<Byte>, val: seq<Byte>, idx: nat, g: Grown, r: Tree)
    requires t.Inner? && Good(t, h) && |t.entries| > 0 && g.next + 3 <= U64_LIMIT
    requires NodeSize(NodeOf(t)) <= BTREE_PAGE_SIZE && KeysSorted(Contents(t))
    requires idx < |t.entries| && Compare(t.entries[idx].key, key) <= 0
    requires idx + 1 < |t.entries| && t.entries[idx].key != key ==> Compare(t.entries[idx + 1].key, key) > 0
    requires Good(g.tree, h - 1) && |g.tree.entries| > 0 && NodeSize(NodeOf(g.tree)) <= 2 * BTREE_PAGE_SIZE - 4
    requires Contents(g.tree) == Upsert(Contents(t.kids[idx]), key, val)
    requires r == Inner(t.entries[..idx] + KidEntries(SplitTree(g.tree), g.next) + t.entries[idx + 1..],
                        t.kids[..idx] + SplitTree(g.tree) + t.kids[idx + 1..])
    ensures Contents(r) == Upsert(Contents(t), key, val)
    ensures Good(r, h)
    ensures NodeSize(NodeOf(r)) <= 2 * BTREE_PAGE_SIZE - 4
  {
    SplitContents(g.tree);
    SplitGood(g.tree, h - 1);
    InsStep(t, h, key, val, idx, SplitTree(g.tree), g.next);
  }

  /**
   * The internal-node step of treeInsert, for any pieces that hold Upsert
   * of the pairs of the child at idx: the rebuilt node holds Upsert of the
   * node's pairs.
   */
  lemma InsStep(t: Tree, h: nat, key: seq<Byte>, val: seq<Byte>, idx: nat, pieces: seq<Tree>, next: nat)
    requires t.Inner? && Good(t, h) && |t.entries| > 0 && next + |pieces| <= U64_LIMIT && |pieces| <= 3
    requires NodeSize(NodeOf(t)) <= BTREE_PAGE_SIZE && KeysSorted(Contents(t))
    requires idx < |t.entries| && Compare(t.entries[idx].key, key) <= 0
    requires idx + 1 < |t.entries| && t.entries[idx].key != key ==> Compare(t.entries[idx + 1].key, key) > 0
    requires ContentsOf(pieces) == Upsert(Contents(t.kids[idx]), key, val)
    requires forall i :: 0 <= i < |pieces| ==>
      Good(pieces[i], h - 1) && NodeSize(NodeOf(pieces[i])) <= BTREE_PAGE_SIZE && |pieces[i].entries| > 0
    ensures Contents(Inner(t.entries[..idx] + KidEntries(pieces, next) + t.entries[idx + 1..],
                           t.kids[..idx] + pieces + t.kids[idx + 1..])) == Upsert(Contents(t), key, val)
    ensures Good(Inner(t.entries[..idx] + KidEntries(pieces, next) + t.entries[idx + 1..],
                       t.kids[..idx] + pieces + t.kids[idx + 1..]), h)
    ensures NodeSize(NodeOf(Inner(t.entries[..idx] + KidEntries(pieces, next) + t.entries[idx + 1..],
                                  t.kids[..idx] + pieces + t.kids[idx + 1..]))) <= 2 * BTREE_PAGE_SIZE - 4
  {
    var kids := t.kids;
    Route(t, h, key, idx);
    var a, b, c := ContentsOf(kids[..idx]), Contents(kids[idx]), ContentsOf(kids[idx + 1..]);
    ContentsReplaced(kids, idx, pieces);
    UpsertMiddle(a, b, c, key, val);
    GoodReplaced(t, h, idx, pieces, next);
  }

  /** One step of treeInsert on an internal node. */
  lemma InsUnfold(t: Tree, h: nat, key: seq<Byte>, val: seq<Byte>, next: nat)
    requires t.Inner? && Good(t, h) && |t.entries| > 0 && next + 3 * h <= U64_LIMIT
    ensures var idx := LookupLE(t.entries, key);
      && idx < |t.kids| && Good(t.kids[idx], h - 1) && |t.kids[idx].entries| > 0
      && var g := Ins(t.kids[idx], h - 1, key, val, next);
      && Ins(t, h, key, val, next).tree
         == Inner(t.entries[..idx] + KidEntries(SplitTree(g.tree), g.next) + t.entries[idx + 1..],
                  t.kids[..idx] + SplitTree(g.tree) + t.kids[idx + 1..])
  {
    var idx := LookupLE(t.entries, key);
    assert KidAt(t.entries, t.kids, idx, h);
  }
}
