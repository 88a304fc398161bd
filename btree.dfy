/**
 * The B+tree of core/btree.go over the page store: the root page id, and
 * Get, Insert and Delete with treeInsert, treeDelete, nodeReplaceKidN and
 * shouldMerge. Pages are read, allocated and freed through MemPages (the
 * get, new and del callbacks of the source). The tree of nodes the pages
 * hold is ghost state; Valid ties it to the pages, and the operations are
 * proved against the abstract Ins and Del of modules Tree and TreeDelete,
 * whose pairs are Upsert and Remove of the old ones.
 */
module PagedTree {
  import opened Bytes
  import opened Node
  import opened NodeWrite
  import opened NodeOps
  import opened Split
  import opened Tree
  import opened TreeDelete
  import opened PageIds
  import opened MemStore
  import opened TreeStore
  import opened DeleteStore

  /** The error Insert returns (nil or ErrKeyTooLarge). */
  datatype Status = Ok | ErrKeyTooLarge

  /** The pair the first leaf starts with: the empty key with an empty value, below every other key. */
  const SENTINEL := Entry(0, [], [])

  /** checkLimit: a key or a value over its limit is refused. */
  function CheckLimit(key: seq<Byte>, val: seq<Byte>): (r: Status)
    ensures r == Ok <==> InLimits(Entry(0, key, val))
  {
    if |key| > BTREE_MAX_KEY_SIZE || |val| > BTREE_MAX_VAL_SIZE then ErrKeyTooLarge else Ok
  }

  /**
   * The value Get finds under t: the child nodeLookupLE picks at each
   * internal node, down to a leaf, and there the entry nodeLookupLE picks
   * if its key is key.
   */
  function Lookup(t: Tree, key: seq<Byte>): Option<seq<Byte>>
    decreases t
  {
    var es, idx := t.entries, LookupLE(t.entries, key);
    if t.Leaf? then
      if idx < |es| && es[idx].key == key then Some(es[idx].val) else None
    else if idx < |t.kids| then Lookup(t.kids[idx], key)
    else None
  }

  /** On a sorted leaf whose first key is at most key, the lookup finds the value Find gives. */
  lemma LeafFind(es: seq<Entry>, key: seq<Byte>)
    requires KeysSorted(es) && (es != [] ==> Compare(es[0].key, key) <= 0)
    ensures Lookup(Leaf(es), key) == Find(es, key)
  {
    if es != [] {
      var idx := LookupLE(es, key);
      LookupLEBounds(es, key);
      var a, x, c := es[..idx], es[idx], es[idx + 1..];
      Around(es, idx);
      if c != [] {
        assert c[0] == es[idx + 1];
      }
      Bracket(a, [x], c, key);
      FindMiddle(a, [x], c, key);
      RemoveOne(x, key);
    }
  }

  /**
   * Get's descent is a search of the pairs: under a well-formed sorted
   * tree whose first key is at most key, it finds exactly the value Find
   * gives for key.
   */
  lemma {:induction false} LookupFind(t: Tree, h: nat, key: seq<Byte>)
    requires Good(t, h) && (t.Inner? ==> |t.entries| > 0)
    requires KeysSorted(Contents(t)) && Compare(FirstKey(t), key) <= 0
    ensures Lookup(t, key) == Find(Contents(t), key)
    decreases t
  {
    if t.Leaf? {
      LeafFind(t.entries, key);
    } else {
      var es, kids := t.entries, t.kids;
      var idx := LookupLE(es, key);
      LookupLEBounds(es, key);
      Route(t, h, key, idx);
      assert KidAt(es, kids, idx, h);
      FindMiddle(ContentsOf(kids[..idx]), Contents(kids[idx]), ContentsOf(kids[idx + 1..]), key);
      LookupFind(kids[idx], h - 1, key);
    }
  }

  /** The empty key is at most every key. */
  lemma EmptyFirst(key: seq<Byte>)
    ensures Compare([], key) <= 0
  {
  }

  /**
   * With the sentinel first, Upsert keeps a pair with the empty key first,
   * and so does Remove of any other key.
   */
  lemma SentinelKept(cs: seq<Entry>, key: seq<Byte>, val: seq<Byte>)
    requires cs != [] && cs[0].key == []
    ensures Upsert(cs, key, val) != [] && Upsert(cs, key, val)[0].key == []
    ensures key != [] ==> Remove(cs, key) != [] && Remove(cs, key)[0].key == []
  {
    if key == [] {
      forall i | 0 <= i < |cs|
        ensures Compare(cs[i].key, key) != -1
      {
      }
      WhereNone(cs, key, -1);
    } else {
      assert Compare(cs[0].key, key) == -1;
    }
  }

  /** Upsert of a pair into the sentinel alone: the pair replaces it (empty key) or follows it. */
  lemma FirstPairs(key: seq<Byte>, val: seq<Byte>)
    ensures key == [] ==> Upsert([SENTINEL], key, val) == [Entry(0, key, val)]
    ensures key != [] ==> Upsert([SENTINEL], key, val) == [SENTINEL, Entry(0, key, val)]
  {
    UpsertOne(SENTINEL, key, val);
  }

  // ---------------------------------------------------------------------
  // The tree in the store
  // ---------------------------------------------------------------------

  /**
   * The tree t of height h is stored with its root at page root of p: a
   * well-formed root that fits a page, page ids apart and handed out
   * before next, and sorted pairs that start with the empty key.
   */
  ghost predicate Rooted(p: Pages, next: nat, root: nat, t: Tree, h: nat)
  {
    && Stored(p, root, t) && Good(t, h) && NodeSize(NodeOf(t)) <= BTREE_PAGE_SIZE && |t.entries| > 0
    && Apart(t) && root !in Below(t) && IdsBelow({root} + Below(t), next)
    && KeysSorted(Contents(t)) && Contents(t) != [] && Contents(t)[0].key == []
  }

  /** The pieces nodeSplit3 cuts a node into have their subtrees stored when the node has. */
  lemma SplitStored(p: Pages, g: Tree)
    requires KidsStored(p, g) && (g.Inner? ==> |g.kids| == |g.entries|)
    ensures forall j :: 0 <= j < |SplitTree(g)| ==> KidsStored(p, SplitTree(g)[j])
  {
    var es, len := g.entries, |g.entries|;
    if NodeSize(NodeOf(g)) <= BTREE_PAGE_SIZE {
      assert SplitTree(g) == [g];
    } else {
      var k := SplitPoint(es);
      KidsSlice(p, g, k, len);
      if SizeOf(es[..k]) <= BTREE_PAGE_SIZE {
        KidsSlice(p, g, 0, k);
        assert SplitTree(g) == [Slice(g, 0, k), Slice(g, k, len)];
      } else {
        var k2 := SplitPoint(es[..k]);
        KidsSlice(p, g, 0, k2);
        KidsSlice(p, g, k2, k);
        assert SplitTree(g) == [Slice(g, 0, k2), Slice(g, k2, k), Slice(g, k, len)];
      }
    }
  }

  /** What Get reads of the node nodeLookupLE chose an entry of. */
  lemma ReadAt(t: Tree, node: seq<Byte>, key: seq<Byte>, idx: nat)
    requires |t.entries| > 0 && IsNode(node, NodeOf(t)) && idx == LookupLE(t.entries, key)
    ensures |node| >= 4 && BType(node) == NodeOf(t).btype && (BType(node) == BNODE_LEAF <==> t.Leaf?)
    ensures NKeys(node) == |t.entries|
    ensures idx < |t.entries| && EntryReadable(node, idx) && EntryOf(node, idx) == t.entries[idx]
  {
    IsNodeHeader(node, NodeOf(t));
    ReadFilled(node, NodeOf(t).btype, |t.entries|, t.entries, idx);
  }

  /** One step of Get's descent: the child page the chosen pointer names holds the chosen child. */
  lemma StepDown(p: Pages, t: Tree, h: nat, node: seq<Byte>, key: seq<Byte>, idx: nat)
    requires Good(t, h) && t.Inner? && |t.entries| > 0 && KidsStored(p, t) && idx == LookupLE(t.entries, key)
    requires idx < |t.entries| && EntryReadable(node, idx) && EntryOf(node, idx) == t.entries[idx]
    ensures h > 0 && idx < |t.kids| && Good(t.kids[idx], h - 1) && |t.kids[idx].entries| > 0
    ensures GetPtr(node, idx) in p && IsNode(p[GetPtr(node, idx)], NodeOf(t.kids[idx]))
    ensures KidsStored(p, t.kids[idx]) && Lookup(t, key) == Lookup(t.kids[idx], key)
  {
    assert KidAt(t.entries, t.kids, idx, h);
    assert Stored(p, t.entries[idx].ptr, t.kids[idx]);
  }

  /** getKey(0) of a page holding the node of t is t's first key. */
  lemma FirstKeyRead(s: seq<Byte>, t: Tree)
    requires IsNode(s, NodeOf(t))
    ensures |s| >= 4 && (0 < NKeys(s) ==> KeyReadable(s, 0)) && GetKey(s, 0) == FirstKey(t)
  {
    IsNodeHeader(s, NodeOf(t));
    if |t.entries| > 0 {
      ReadFilled(s, NodeOf(t).btype, |t.entries|, t.entries, 0);
    }
  }

  /** nodeAppendKV of the entry for a child page: its id, its first key and no value. */
  method AppendKid(dst: array<Byte>, idx: nat, ptr: U64, kid: seq<Byte>, ghost t: Tree,
                   ghost btype: nat, ghost nkeys: nat, ghost cur: seq<Entry>, ghost e: Entry)
    requires IsNode(kid, NodeOf(t)) && e == Entry(ptr, FirstKey(t), [])
    requires Filled(dst[..], btype, nkeys, cur) && idx == |cur| < nkeys
    requires Frontier(nkeys, cur) + KvSize(e) <= dst.Length <= MAX_BUFFER
    modifies dst
    ensures Filled(dst[..], btype, nkeys, cur + [e])
  {
    FirstKeyRead(kid, t);
    FilledAppend(dst[..], btype, nkeys, cur, e);
    NodeAppendKV(dst, idx, ptr, GetKey(kid, 0), []);
  }

  /** A buffer filled with as many entries as its header counts holds that node. */
  lemma FilledNode(s: seq<Byte>, btype: nat, nkeys: nat, es: seq<Entry>)
    requires Filled(s, btype, nkeys, es) && nkeys == |es|
    ensures IsNode(s, Node(btype, es))
  {
  }

  /**
   * The start of nodeReplaceKidN: the header of an internal node with inc
   * entries in place of the one at idx, and the entries before idx copied.
   */
  method ReplaceHead(dst: array<Byte>, src: seq<Byte>, idx: nat, inc: nat, ghost node: Node, ghost m: seq<Entry>)
      returns (nkeys: nat)
    requires IsNode(src, node) && idx < |node.entries| && |m| == inc
    requires NodeSize(Node(BNODE_NODE, node.entries[..idx] + m + node.entries[idx + 1..])) <= dst.Length <= MAX_BUFFER
    modifies dst
    ensures nkeys == |node.entries| + inc - 1 && idx + inc <= nkeys
    ensures Filled(dst[..], BNODE_NODE, nkeys, node.entries[..idx])
    ensures Frontier(nkeys, node.entries[..idx] + m) <= Frontier(nkeys, node.entries[..idx] + m + node.entries[idx + 1..])
    ensures Frontier(nkeys, node.entries[..idx] + m + node.entries[idx + 1..]) <= dst.Length
  {
    ghost var es := node.entries;
    IsNodeHeader(src, node);
    nkeys := NKeys(src) + inc - 1;
    TwoPieces(nkeys, es[..idx] + m, es[idx + 1..], dst.Length);
    FrontierGrows(nkeys, es[..idx], m);
    assert [] + es[..idx] == es[..idx];
    Ranges(es, idx);
    HeaderWritten(dst[..], BNODE_NODE, nkeys);
    SetHeader(dst, BNODE_NODE, nkeys);
    IsNodeHolds(src, node, 0, idx);
    NodeAppendRange(dst, src, 0, 0, idx, BNODE_NODE, nkeys, [], es[..idx]);
  }

  /** The end of nodeReplaceKidN: the entries after idx copied after the inc new ones. */
  method ReplaceTail(dst: array<Byte>, src: seq<Byte>, idx: nat, inc: nat, nkeys: nat, ghost node: Node, ghost m: seq<Entry>)
    requires IsNode(src, node) && idx < |node.entries| && |m| == inc && nkeys == |node.entries| + inc - 1
    requires Filled(dst[..], BNODE_NODE, nkeys, node.entries[..idx] + m) && dst.Length <= MAX_BUFFER
    requires Frontier(nkeys, node.entries[..idx] + m + node.entries[idx + 1..]) <= dst.Length
    modifies dst
    ensures IsNode(dst[..], Node(BNODE_NODE, node.entries[..idx] + m + node.entries[idx + 1..]))
  {
    ghost var es := node.entries;
    IsNodeHeader(src, node);
    Ranges(es, idx + 1);
    IsNodeHolds(src, node, idx + 1, |es| - (idx + 1));
    NodeAppendRange(dst, src, idx + inc, idx + 1, NKeys(src) - (idx + 1), BNODE_NODE, nkeys, es[..idx] + m, es[idx + 1..]);
    FilledNode(dst[..], BNODE_NODE, nkeys, es[..idx] + m + es[idx + 1..]);
  }

  // ---------------------------------------------------------------------
  // treeInsert
  // ---------------------------------------------------------------------

  /**
   * What treeInsert needs of the node t of height h in the store p with
   * the counter at next: a well-formed stored node that fits a page, ids
   * apart and handed out, room for the ids it will take, sorted pairs from
   * a first key at most key, and a pair within the limits.
   */
  ghost predicate InsReady(p: Pages, next: nat, t: Tree, h: nat, key: seq<Byte>, val: seq<Byte>)
  {
    KidsStored(p, t) && InsTree(next, t, h, key, val)
  }

  /** The part of InsReady about the tree alone. */
  ghost predicate InsTree(next: nat, t: Tree, h: nat, key: seq<Byte>, val: seq<Byte>)
  {
    && Good(t, h) && |t.entries| > 0 && next + 3 * h <= U64_LIMIT
    && NodeSize(NodeOf(t)) <= BTREE_PAGE_SIZE && Apart(t) && IdsBelow(Below(t), next)
    && KeysSorted(Contents(t)) && Compare(FirstKey(t), key) <= 0 && InLimits(Entry(0, key, val))
  }

  /** The child treeInsert descends to is ready too, and its page is the one the chosen pointer names. */
  lemma KidReady(p: Pages, next: nat, node: seq<Byte>, t: Tree, h: nat, key: seq<Byte>, val: seq<Byte>, idx: nat)
    requires InsReady(p, next, t, h, key, val) && IsNode(node, NodeOf(t)) && t.Inner? && idx == LookupLE(t.entries, key)
    ensures h > 0 && idx < |t.kids| && |node| >= 4 && idx < NKeys(node) && 4 + 8 * idx + 8 <= |node|
    ensures GetPtr(node, idx) == t.entries[idx].ptr
    ensures IsNode(PageIn(p, t.entries[idx].ptr), NodeOf(t.kids[idx]))
    ensures InsReady(p, next, t.kids[idx], h - 1, key, val) && KidGrows(t, h, key, next, idx)
  {
    var es, kids := t.entries, t.kids;
    ReadAt(t, node, key, idx);
    LookupLEBounds(es, key);
    RouteKid(t, h, key, idx);
    assert KidAt(es, kids, idx, h);
    UnderIn(es, kids, idx);
    assert KidsStored(p, t);
    assert StoredRun(p, es, kids);
    assert Stored(p, es[idx].ptr, kids[idx]);
  }

  /** The node treeInsert returns for an internal node: the child's entry replaced by the pieces' entries. */
  lemma InsShape(t: Tree, h: nat, key: seq<Byte>, val: seq<Byte>, next: nat, idx: nat)
    requires InsTree(next, t, h, key, val) && KidGrows(t, h, key, next, idx)
    ensures var g := Ins(t.kids[idx], h - 1, key, val, next);
      var pieces := SplitTree(g.tree);
      && g.next + |pieces| <= U64_LIMIT && Ins(t, h, key, val, next).next == g.next + |pieces|
      && Ins(t, h, key, val, next).tree
         == Inner(t.entries[..idx] + KidEntries(pieces, g.next) + t.entries[idx + 1..], t.kids[..idx] + pieces + t.kids[idx + 1..])
      && NodeSize(Node(BNODE_NODE, t.entries[..idx] + KidEntries(pieces, g.next) + t.entries[idx + 1..])) <= MAX_BUFFER
  {
    InsUnfold(t, h, key, val, next);
    InsSpec(t, h, key, val, next);
  }

  /** The node treeInsert built for the child can be cut by nodeSplit3. */
  lemma GrownSplits(kid: Tree, h: nat, key: seq<Byte>, val: seq<Byte>, next: nat)
    requires InsTree(next, kid, h, key, val)
    ensures var g := Ins(kid, h, key, val, next);
      NodeSize(NodeOf(g.tree)) <= 2 * BTREE_PAGE_SIZE - 4 && AllFitAlone(NodeOf(g.tree).entries)
  {
    var g := Ins(kid, h, key, val, next);
    InsSpec(kid, h, key, val, next);
    EntriesInLimits(g.tree, h);
    LimitsFitAlone(g.tree.entries);
  }

  /** The pages nodeSplit3 returns hold the pieces SplitTree cuts the node into. */
  lemma PiecesHeld(split: seq<seq<Byte>>, g: Tree)
    requires PagesHold(split, Split3Nodes(NodeOf(g))) && (g.Inner? ==> |g.kids| == |g.entries|)
    ensures |split| == |SplitTree(g)|
    ensures forall j :: 0 <= j < |split| ==> |split[j]| >= BTREE_PAGE_SIZE && IsNode(split[j], NodeOf(SplitTree(g)[j]))
  {
    SplitTreeNodes(g);
  }

  /**
   * The pieces of the child's new node stored from id n on, after the old
   * child page ptr was freed: they form a stored run.
   */
  lemma PiecesStored(p1: Pages, g: Tree, ptr: nat, split: seq<seq<Byte>>, n: nat)
    requires KidsStored(p1, g) && (g.Inner? ==> |g.kids| == |g.entries|) && ptr !in Below(g) && IdsBelow(Below(g), n)
    requires |split| == |SplitTree(g)| && n + |split| <= U64_LIMIT
    requires forall j :: 0 <= j < |split| ==> |split[j]| >= BTREE_PAGE_SIZE && IsNode(split[j], NodeOf(SplitTree(g)[j]))
    ensures StoredRun(Stacked(p1 - {ptr}, split, |split|, n), KidEntries(SplitTree(g), n), SplitTree(g))
  {
    var p3 := Stacked(p1 - {ptr}, split, |split|, n);
    DelStacked(p1, ptr, split, n);
    RewrittenAgree(p1, p3, {ptr}, n, n + |split|, Below(g));
    KidsFrame(p1, p3, g);
    SplitStored(p3, g);
    StackedRun(p1 - {ptr}, split, SplitTree(g), n);
  }

  /**
   * The child at idx of a node that treeInsert can rebuild (Ins's own
   * demands), with page ids apart and handed out before next.
   */
  ghost predicate KidGrows(t: Tree, h: nat, key: seq<Byte>, next: nat, idx: nat)
  {
    && t.Inner? && Good(t, h) && |t.entries| > 0 && next + 3 * h <= U64_LIMIT
    && Apart(t) && IdsBelow(Below(t), next) && idx == LookupLE(t.entries, key)
    && h > 0 && idx < |t.kids| && Good(t.kids[idx], h - 1) && |t.kids[idx].entries| > 0
  }

  /** The ids the child's new node uses avoid the old child page, and were handed out before g.next. */
  lemma GrownIds(t: Tree, h: nat, key: seq<Byte>, val: seq<Byte>, next: nat, idx: nat)
    requires KidGrows(t, h, key, next, idx)
    ensures var g := Ins(t.kids[idx], h - 1, key, val, next);
      t.entries[idx].ptr !in Below(g.tree) && IdsBelow(Below(g.tree), g.next)
  {
    var es, kids := t.entries, t.kids;
    var kid := kids[idx];
    var g := Ins(kid, h - 1, key, val, next);
    UnderIn(es, kids, idx);
    KidIdsBelow(Below(kid), Under(es[idx], kid), Below(t), next);
    InsIds(kid, h - 1, key, val, next);
    GrownApart(Below(g.tree), Below(kid), Descent(kid, key), Below(t), es[idx].ptr, next, g.next);
  }

  /** The path to key below the child at idx, with the child's page, lies under the child's entry. */
  lemma PathIds(t: Tree, h: nat, key: seq<Byte>, val: seq<Byte>, next: nat, idx: nat)
    requires KidGrows(t, h, key, next, idx)
    ensures Descent(t.kids[idx], key) + {t.entries[idx].ptr} <= BelowOf(t.entries[idx..idx + 1], t.kids[idx..idx + 1])
    ensures Descent(t, key) == Descent(t.kids[idx], key) + {t.entries[idx].ptr}
  {
    var es, kids := t.entries, t.kids;
    var kid := kids[idx];
    UnderIn(es, kids, idx);
    InsIds(kid, h - 1, key, val, next);
    assert es[idx..idx + 1] == [es[idx]] && kids[idx..idx + 1] == [kid];
    BelowOfOne(es[idx], kid);
  }

  /** Ids below a child are ids below its parent. */
  lemma KidIdsBelow(bk: set<nat>, under: set<nat>, bt: set<nat>, next: nat)
    requires bk <= under <= bt && IdsBelow(bt, next)
    ensures IdsBelow(bk, next)
  {
  }

  /** Set facts behind GrownIds. */
  lemma GrownApart(bg: set<nat>, bk: set<nat>, d: set<nat>, bt: set<nat>, ptr: nat, next: nat, hi: nat)
    requires Within(bg, bk - d, next, hi) && next <= hi && ptr !in bk && {ptr} + bk <= bt && IdsBelow(bt, next)
    ensures ptr !in bg && IdsBelow(bg, hi)
  {
  }

  /**
   * treeInsert's internal-node step in the store: the child at idx rebuilt
   * as g (freeing d), its pieces stored from g.next on, the old child page
   * freed, and the rest of the node kept.
   */
  lemma InsStored(p0: Pages, p1: Pages, t: Tree, idx: nat, g: Grown, d: set<nat>, split: seq<seq<Byte>>, next: nat)
    requires t.Inner? && |t.entries| == |t.kids| && idx < |t.kids| && KidsStored(p0, t) && Apart(t) && IdsBelow(Below(t), next)
    requires (g.tree.Inner? ==> |g.tree.kids| == |g.tree.entries|) && next <= g.next
    requires KidsStored(p1, g.tree) && Rewritten(p0, p1, d, next, g.next)
    requires t.entries[idx].ptr !in Below(g.tree) && IdsBelow(Below(g.tree), g.next)
    requires d + {t.entries[idx].ptr} <= BelowOf(t.entries[idx..idx + 1], t.kids[idx..idx + 1])
    requires |split| == |SplitTree(g.tree)| && g.next + |split| <= U64_LIMIT
    requires forall j :: 0 <= j < |split| ==> |split[j]| >= BTREE_PAGE_SIZE && IsNode(split[j], NodeOf(SplitTree(g.tree)[j]))
    ensures var ptr, pieces := t.entries[idx].ptr, SplitTree(g.tree);
      var p3 := Stacked(p1 - {ptr}, split, |split|, g.next);
      && KidsStored(p3, Inner(t.entries[..idx] + KidEntries(pieces, g.next) + t.entries[idx + 1..],
                              t.kids[..idx] + pieces + t.kids[idx + 1..]))
      && Rewritten(p0, p3, d + {ptr}, next, g.next + |split|)
  {
    var ptr, pieces := t.entries[idx].ptr, SplitTree(g.tree);
    var p3 := Stacked(p1 - {ptr}, split, |split|, g.next);
    PiecesStored(p1, g.tree, ptr, split, g.next);
    DelStacked(p1, ptr, split, g.next);
    RewrittenTrans(p0, p1, p3, d, {ptr}, next, g.next, g.next + |split|);
    ReplaceStored(p0, p3, t, idx, idx + 1, KidEntries(pieces, g.next), pieces, d + {ptr}, next, g.next + |split|);
  }

  /**
   * treeInsert's leaf case: the pair updated in place when the key is at
   * idx, inserted after idx otherwise.
   */
  method InsertLeaf(dst: array<Byte>, node: seq<Byte>, idx: nat, ghost t: Tree, ghost h: nat, key: seq<Byte>, val: seq<Byte>, ghost next: nat)
    requires InsTree(next, t, h, key, val) && t.Leaf? && IsNode(node, NodeOf(t))
    requires idx == LookupLE(t.entries, key) && dst.Length == MAX_BUFFER
    modifies dst
    ensures var g := Ins(t, h, key, val, next);
      g.next == next && g.tree.Leaf? && IsNode(dst[..], NodeOf(g.tree))
  {
    ReadAt(t, node, key, idx);
    InsSpec(t, h, key, val, next);
    LeafHeight(t, h);
    if idx < NKeys(node) && GetKey(node, idx) == key {
      LeafUpdate(dst, node, idx, key, val, NodeOf(t));
    } else {
      LeafInsert(dst, node, idx + 1, key, val, NodeOf(t));
    }
  }

  // ---------------------------------------------------------------------
  // Insert at the root
  // ---------------------------------------------------------------------

  /**
   * Insert's first leaf as core/btree.go writes it: a page with the
   * sentinel pair, then the pair inserted, whatever its key.
   */
  method FirstLeafAsWritten(key: seq<Byte>, val: seq<Byte>) returns (page: seq<Byte>)
    requires InLimits(Entry(0, key, val))
    ensures |page| == BTREE_PAGE_SIZE && IsNode(page, Node(BNODE_LEAF, [SENTINEL, Entry(0, key, val)]))
  {
    var a := new Byte[BTREE_PAGE_SIZE](_ => 0);
    HeaderWritten(a[..], BNODE_LEAF, 2);
    SetHeader(a, BNODE_LEAF, 2);
    FilledAppend(a[..], BNODE_LEAF, 2, [], SENTINEL);
    NodeAppendKV(a, 0, 0, [], []);
    assert [] + [SENTINEL] == [SENTINEL];
    FilledAppend(a[..], BNODE_LEAF, 2, [SENTINEL], Entry(0, key, val));
    NodeAppendKV(a, 1, 0, key, val);
    assert [SENTINEL] + [Entry(0, key, val)] == [SENTINEL, Entry(0, key, val)];
    page := a[..];
  }

  /**
   * With the empty key, the leaf written above holds the empty key twice,
   * out of the strict key order every node keeps, where Upsert into the
   * sentinel alone keeps one pair.
   */
  lemma FirstLeafDuplicate(val: seq<Byte>)
    ensures var es := [SENTINEL, Entry(0, [], val)]; es[0].key == es[1].key && !KeysSorted(es)
    ensures Upsert([SENTINEL], [], val) == [Entry(0, [], val)]
  {
    FirstPairs([], val);
  }

  /**
   * Insert's first leaf, corrected: Upsert of the pair into the sentinel
   * alone, so the empty key replaces the sentinel's value instead of
   * following it.
   */
  method FirstLeaf(key: seq<Byte>, val: seq<Byte>) returns (page: seq<Byte>)
    requires InLimits(Entry(0, key, val))
    ensures |page| == BTREE_PAGE_SIZE && IsNode(page, Node(BNODE_LEAF, Upsert([SENTINEL], key, val)))
  {
    FirstPairs(key, val);
    if |key| > 0 {
      page := FirstLeafAsWritten(key, val);
    } else {
      var a := new Byte[BTREE_PAGE_SIZE](_ => 0);
      HeaderWritten(a[..], BNODE_LEAF, 1);
      SetHeader(a, BNODE_LEAF, 1);
      FilledAppend(a[..], BNODE_LEAF, 1, [], Entry(0, key, val));
      NodeAppendKV(a, 0, 0, key, val);
      assert [] + [Entry(0, key, val)] == [Entry(0, key, val)];
      page := a[..];
    }
  }

  /** The first leaf, stored under id n, is a rooted tree of height 0 whose pairs start with the empty key. */
  lemma FirstRooted(p: Pages, n: nat, key: seq<Byte>, val: seq<Byte>, page: seq<Byte>)
    requires InLimits(Entry(0, key, val)) && |page| >= BTREE_PAGE_SIZE
    requires IsNode(page, Node(BNODE_LEAF, Upsert([SENTINEL], key, val)))
    ensures Rooted(p[n := page], n + 1, n, Leaf(Upsert([SENTINEL], key, val)), 0)
  {
    var es := Upsert([SENTINEL], key, val);
    FirstPairs(key, val);
    UpsertSorted([SENTINEL], key, val);
    SentinelKept([SENTINEL], key, val);
    if key == [] {
      assert DataSize(es) == KvSize(es[0]) by {
        assert es[..0] == [];
      }
    } else {
      assert es[..1] == [SENTINEL];
      assert DataSize([SENTINEL]) == KvSize(SENTINEL) by {
        assert [SENTINEL][..0] == [];
      }
    }
  }

  /**
   * The root Insert publishes: the one piece nodeSplit3 left, or a new
   * internal node over the pieces stored from id n on.
   */
  function NewRoot(pieces: seq<Tree>, n: nat): (r: Tree)
    requires 1 <= |pieces| && n + |pieces| <= U64_LIMIT
    ensures Contents(r) == ContentsOf(pieces)
    ensures |pieces| > 1 ==> r.Inner? && NodeOf(r) == Node(BNODE_NODE, KidEntries(pieces, n))
  {
    ContentsOfOne(pieces[0]);
    if |pieces| == 1 then pieces[0] else Inner(KidEntries(pieces, n), pieces)
  }

  /**
   * treeInsert from the root of a rooted tree: the rebuilt root holds
   * Upsert of the pairs, is well formed and at most two pages less one
   * header, and uses the ids of the tree off the path to key and ids
   * handed out from next on, each once.
   */
  lemma RootGrows(p: Pages, root: nat, t: Tree, h: nat, key: seq<Byte>, val: seq<Byte>, next: nat)
    requires Rooted(p, next, root, t, h) && next + 3 * h + 4 <= U64_LIMIT && InLimits(Entry(0, key, val))
    ensures var g := Ins(t, h, key, val, next);
      && Good(g.tree, h) && |g.tree.entries| > 0 && NodeSize(NodeOf(g.tree)) <= 2 * BTREE_PAGE_SIZE - 4
      && Contents(g.tree) == Upsert(Contents(t), key, val)
      && Apart(g.tree) && Within(Below(g.tree), Below(t) - Descent(t, key), next, g.next)
  {
    FirstKeyFirst(t, h);
    EmptyFirst(key);
    InsSpec(t, h, key, val, next);
    InsIds(t, h, key, val, next);
  }

  /**
   * Insert's root step on the tree: the rebuilt root g, well formed and at
   * most two pages less one header, cut into pieces that hold Upsert of
   * the old pairs, still sorted and led by the empty key; the pieces are
   * well formed and fit a page.
   */
  lemma RootPieces(cs: seq<Entry>, g: Grown, h: nat, key: seq<Byte>, val: seq<Byte>)
    requires Good(g.tree, h) && |g.tree.entries| > 0 && NodeSize(NodeOf(g.tree)) <= 2 * BTREE_PAGE_SIZE - 4
    requires KeysSorted(cs) && cs != [] && cs[0].key == [] && Contents(g.tree) == Upsert(cs, key, val)
    ensures var pieces := SplitTree(g.tree);
      && (forall i :: 0 <= i < |pieces| ==>
            Good(pieces[i], h) && NodeSize(NodeOf(pieces[i])) <= BTREE_PAGE_SIZE && |pieces[i].entries| > 0)
      && ContentsOf(pieces) == Upsert(cs, key, val)
      && KeysSorted(ContentsOf(pieces)) && ContentsOf(pieces) != [] && ContentsOf(pieces)[0].key == []
  {
    SplitGood(g.tree, h);
    SplitContents(g.tree);
    UpsertSorted(cs, key, val);
    SentinelKept(cs, key, val);
  }

  /**
   * The ids of Insert's root step: the pieces of the rebuilt root g,
   * stored from g.next on, use ids of the old tree and ids handed out
   * from next on, each once.
   */
  lemma RootIds(g: Grown, below: set<nat>, next: nat)
    requires (g.tree.Inner? ==> |g.tree.kids| == |g.tree.entries|) && next <= g.next && g.next + 3 <= U64_LIMIT
    requires Apart(g.tree) && Within(Below(g.tree), below, next, g.next) && IdsBelow(below, next)
    ensures var pieces, n := SplitTree(g.tree), g.next;
      && IdsBelow(Below(g.tree), n)
      && ApartOf(KidEntries(pieces, n), pieces) && IdsBelow(BelowOf(KidEntries(pieces, n), pieces), n + |pieces|)
  {
    var pieces := SplitTree(g.tree);
    SplitIds(g.tree, g.next);
    WithinBelow(BelowOf(KidEntries(pieces, g.next), pieces), Below(g.tree), below, next, g.next, g.next + |pieces|);
  }

  /** Ids kept from b or handed out from lo to mid, and then from mid to hi, are all below hi. */
  lemma WithinBelow(s: set<nat>, a: set<nat>, b: set<nat>, lo: nat, mid: nat, hi: nat)
    requires Within(s, a, mid, hi) && Within(a, b, lo, mid) && IdsBelow(b, lo) && lo <= mid <= hi
    ensures IdsBelow(s, hi)
  {
  }

  /**
   * Insert's root step in the store: with the child trees of the rebuilt
   * root g stored after freeing the path d, the old root page freed and
   * the pieces stored from g.next on, the pieces form a stored run, and
   * only the path and the root were freed.
   */
  lemma RootStored(p0: Pages, p1: Pages, root: nat, g: Grown, d: set<nat>, below: set<nat>, split: seq<seq<Byte>>, next: nat)
    requires (g.tree.Inner? ==> |g.tree.kids| == |g.tree.entries|) && next <= g.next
    requires KidsStored(p1, g.tree) && Rewritten(p0, p1, d, next, g.next)
    requires root < next && root !in below && IdsBelow(below, next) && Within(Below(g.tree), below, next, g.next)
    requires |split| == |SplitTree(g.tree)| && g.next + |split| <= U64_LIMIT
    requires forall j :: 0 <= j < |split| ==> |split[j]| >= BTREE_PAGE_SIZE && IsNode(split[j], NodeOf(SplitTree(g.tree)[j]))
    ensures var p2 := Stacked(p1 - {root}, split, |split|, g.next);
      && StoredRun(p2, KidEntries(SplitTree(g.tree), g.next), SplitTree(g.tree))
      && Rewritten(p0, p2, d + {root}, next, g.next + |split|)
  {
    PiecesStored(p1, g.tree, root, split, g.next);
    DelStacked(p1, root, split, g.next);
    RewrittenTrans(p0, p1, Stacked(p1 - {root}, split, |split|, g.next), d, {root}, next, g.next, g.next + |split|);
  }

  /**
   * The pieces of Insert's root step, ready to be published from the
   * store p with the counter at n: each page holds its piece, the pieces
   * are well formed and fit a page, stored in order from n on they form a
   * stored run with ids apart and below the next id, and their pairs are
   * sorted and led by the empty key.
   */
  ghost predicate PiecesReady(p: Pages, split: seq<seq<Byte>>, pieces: seq<Tree>, h: nat, n: nat)
  {
    && 1 <= |split| == |pieces| <= 3 && n + |pieces| + 1 <= U64_LIMIT
    && (forall j :: 0 <= j < |split| ==> |split[j]| >= BTREE_PAGE_SIZE && IsNode(split[j], NodeOf(pieces[j])))
    && (forall i :: 0 <= i < |pieces| ==>
          Good(pieces[i], h) && NodeSize(NodeOf(pieces[i])) <= BTREE_PAGE_SIZE && |pieces[i].entries| > 0)
    && StoredRun(Stacked(p, split, |split|, n), KidEntries(pieces, n), pieces)
    && ApartOf(KidEntries(pieces, n), pieces) && IdsBelow(BelowOf(KidEntries(pieces, n), pieces), n + |pieces|)
    && KeysSorted(ContentsOf(pieces)) && ContentsOf(pieces) != [] && ContentsOf(pieces)[0].key == []
  }

  /**
   * Insert's root step: after treeInsert from the root, nodeSplit3 and
   * del(root), the pieces are ready to be published, hold Upsert of the
   * old pairs, and only the path to key and the old root page were freed.
   */
  lemma RootReady(p0: Pages, p1: Pages, root: nat, t: Tree, h: nat, key: seq<Byte>, val: seq<Byte>, next: nat,
                  g: Grown, split: seq<seq<Byte>>)
    requires Rooted(p0, next, root, t, h) && next <= g.next && g.next + 4 <= U64_LIMIT
    requires Good(g.tree, h) && |g.tree.entries| > 0 && NodeSize(NodeOf(g.tree)) <= 2 * BTREE_PAGE_SIZE - 4
    requires Contents(g.tree) == Upsert(Contents(t), key, val) && (g.tree.Inner? ==> |g.tree.kids| == |g.tree.entries|)
    requires Apart(g.tree) && Within(Below(g.tree), Below(t) - Descent(t, key), next, g.next)
    requires KidsStored(p1, g.tree) && Rewritten(p0, p1, Descent(t, key), next, g.next)
    requires |split| == |SplitTree(g.tree)|
    requires forall j :: 0 <= j < |split| ==> |split[j]| >= BTREE_PAGE_SIZE && IsNode(split[j], NodeOf(SplitTree(g.tree)[j]))
    ensures PiecesReady(p1 - {root}, split, SplitTree(g.tree), h, g.next)
    ensures ContentsOf(SplitTree(g.tree)) == Upsert(Contents(t), key, val)
    ensures Rewritten(p0, Stacked(p1 - {root}, split, |split|, g.next), Descent(t, key) + {root}, next, g.next + |split|)
  {
    RootPieces(Contents(t), g, h, key, val);
    RootIds(g, Below(t) - Descent(t, key), next);
    RootStored(p0, p1, root, g, Descent(t, key), Below(t) - Descent(t, key), split, next);
  }

  /** A single piece stored as a run under id n: stored under n, its ids apart and below n + 1. */
  lemma KeptPiece(p: Pages, pieces: seq<Tree>, n: nat)
    requires |pieces| == 1 && n + 1 <= U64_LIMIT
    requires StoredRun(p, KidEntries(pieces, n), pieces)
    requires ApartOf(KidEntries(pieces, n), pieces) && IdsBelow(BelowOf(KidEntries(pieces, n), pieces), n + 1)
    ensures Stored(p, n, pieces[0]) && Apart(pieces[0]) && n !in Below(pieces[0]) && IdsBelow({n} + Below(pieces[0]), n + 1)
    ensures Contents(pieces[0]) == ContentsOf(pieces)
  {
    var x, e := pieces[0], KidEntries(pieces, n)[0];
    assert pieces == [x] && KidEntries(pieces, n) == [e];
    ContentsOfOne(x);
    BelowOfOne(e, x);
  }

  /**
   * The single piece of the root step, stored as a page under id n: a
   * rooted tree under n, and the pages rewritten as before.
   */
  lemma KeptRooted(p: Pages, split: seq<seq<Byte>>, pieces: seq<Tree>, h: nat, n: nat,
                   p0: Pages, n0: nat, d: set<nat>)
    requires PiecesReady(p, split, pieces, h, n) && |split| == 1
    requires Rewritten(p0, Stacked(p, split, |split|, n), d, n0, n + |split|)
    ensures Rooted(p[n := Padded(split[0])], n + 1, n, pieces[0], h) && Contents(pieces[0]) == ContentsOf(pieces)
    ensures Rewritten(p0, p[n := Padded(split[0])], d, n0, n + 1)
  {
    StackedOne(p, split, n);
    KeptPiece(Stacked(p, split, 1, n), pieces, n);
  }

  /**
   * Several pieces left by the root step, stored at n, n + 1, ..., under a
   * new internal root page stored at the next id: a rooted tree one level
   * higher.
   */
  lemma RaisedRooted(p: Pages, split: seq<seq<Byte>>, pieces: seq<Tree>, h: nat, n: nat, page: seq<Byte>)
    requires PiecesReady(p, split, pieces, h, n) && |split| > 1
    requires |page| >= BTREE_PAGE_SIZE && IsNode(page, Node(BNODE_NODE, KidEntries(pieces, n)))
    ensures Rooted(Stacked(p, split, |split|, n)[n + |pieces| := page], n + |pieces| + 1, n + |pieces|,
                   Inner(KidEntries(pieces, n), pieces), h + 1)
  {
    RaisedGood(pieces, h, n);
    ghost var p2 := Stacked(p, split, |split|, n);
    RunFrame(p2, p2[n + |pieces| := page], KidEntries(pieces, n), pieces);
  }

  /**
   * A new internal node over up to three well-formed pieces, each fitting
   * a page: well formed one level higher, and fitting a page itself, as
   * each of its entries holds no more than a key.
   */
  lemma RaisedGood(pieces: seq<Tree>, h: nat, n: nat)
    requires 1 <= |pieces| <= 3 && n + |pieces| <= U64_LIMIT
    requires forall i :: 0 <= i < |pieces| ==>
      Good(pieces[i], h) && NodeSize(NodeOf(pieces[i])) <= BTREE_PAGE_SIZE && |pieces[i].entries| > 0
    ensures Good(Inner(KidEntries(pieces, n), pieces), h + 1)
    ensures NodeSize(Node(BNODE_NODE, KidEntries(pieces, n))) <= BTREE_PAGE_SIZE
  {
    var es, h1 := KidEntries(pieces, n), h + 1;
    forall i | 0 <= i < |pieces|
      ensures KidAt(es, pieces, i, h1)
    {
    }
    forall i | 0 <= i < |es|
      ensures KvSize(es[i]) <= 4 + BTREE_MAX_KEY_SIZE
    {
      EntriesInLimits(pieces[i], h);
    }
    DataSizeBound(es, 4 + BTREE_MAX_KEY_SIZE);
    assert Good(Inner(es, pieces), h1);
  }

  // ---------------------------------------------------------------------
  // treeDelete and Delete
  // ---------------------------------------------------------------------

  /**
   * treeDelete's step when shouldMerge keeps the rebuilt child u: its
   * page, stored under n after the old child page was freed, takes the
   * old entry's place, and the pages freed are the child's and those
   * freed below it.
   */
  lemma KeptStored(p0: Pages, p1: Pages, t: Tree, h: nat, idx: nat, u: Tree, n0: nat, n: nat, d: set<nat>,
                   updated: seq<Byte>)
    requires Shrunk(p0, p1, t, h, idx, u, n0, n, d) && MergeDir(t, idx, u) == 0 && |u.entries| > 0
    requires |updated| >= BTREE_PAGE_SIZE && IsNode(updated, NodeOf(u))
    ensures SplitTree(u) == [u]
    ensures Rebalanced(t, h, idx, u, n)
         == Grown(Inner(t.entries[..idx] + KidEntries([u], n) + t.entries[idx + 1..], t.kids[..idx] + [u] + t.kids[idx + 1..]), n + 1)
    ensures var p3 := Stacked(p1 - {t.entries[idx].ptr}, [updated], 1, n);
      && KidsStored(p3, Rebalanced(t, h, idx, u, n).tree)
      && Rewritten(p0, p3, {t.entries[idx].ptr} + d + MergedAway(t, idx, u), n0, n + 1)
  {
    var es, kids, ptr := t.entries, t.kids, t.entries[idx].ptr;
    assert es[idx..idx + 1] == [es[idx]] && kids[idx..idx + 1] == [kids[idx]];
    BelowOfOne(es[idx], kids[idx]);
    GrownApart(Below(u), Below(kids[idx]), d, Below(t), ptr, n0, n);
    InsStored(p0, p1, t, idx, Grown(u, n), d, [updated], n0);
    assert d + {ptr} == {ptr} + d + MergedAway(t, idx, u);
  }

  /**
   * treeDelete's step when the only child became empty and is not
   * merged: an internal node with no entries, nothing stored, and only
   * the child's page and those freed below it freed.
   */
  lemma EmptiedStored(p0: Pages, p1: Pages, t: Tree, h: nat, idx: nat, u: Tree, n0: nat, n: nat, d: set<nat>)
    requires Shrunk(p0, p1, t, h, idx, u, n0, n, d) && MergeDir(t, idx, u) == 0 && |u.entries| == 0
    ensures Rebalanced(t, h, idx, u, n) == Grown(Inner([], []), n)
    ensures KidsStored(p1 - {t.entries[idx].ptr}, Inner([], []))
    ensures Rewritten(p0, p1 - {t.entries[idx].ptr}, {t.entries[idx].ptr} + d + MergedAway(t, idx, u), n0, n)
  {
    var ptr := t.entries[idx].ptr;
    SiblingsKept(p0, p1, t, h, idx, u, n0, n, d);
    assert d + {ptr} == {ptr} + d + MergedAway(t, idx, u);
  }

  /**
   * Delete's treeDelete from the root of a rooted tree with an id per
   * level left: what treeDelete needs holds, when no rebuilt node
   * overflows its page.
   */
  lemma RootShrinks(p: Pages, next: nat, root: nat, t: Tree, h: nat, key: seq<Byte>)
    requires Rooted(p, next, root, t, h) && next + h <= U64_LIMIT && !Del(t, h, key, next).Overflow?
    ensures DelReady(p, next, t, h, key)
    ensures Del(t, h, key, next).NotFound? <==> Find(Contents(t), key) == None
  {
    FirstKeyFirst(t, h);
    EmptyFirst(key);
    DelSpec(t, h, key, next);
  }

  /**
   * Delete's treeDelete from the root, on the tree: the rebuilt root is
   * well formed, fits a page and holds Remove of the pairs, still sorted
   * and led by the empty key; its ids are apart, avoid the old root page
   * and were handed out before the counter treeDelete leaves.
   */
  lemma DeletedTree(t: Tree, h: nat, key: seq<Byte>, n0: nat, root: nat)
    requires Good(t, h) && NodeSize(NodeOf(t)) <= BTREE_PAGE_SIZE && |t.entries| > 0
    requires Apart(t) && root !in Below(t) && IdsBelow({root} + Below(t), n0)
    requires KeysSorted(Contents(t)) && Contents(t) != [] && Contents(t)[0].key == []
    requires n0 + h <= U64_LIMIT && key != [] && Del(t, h, key, n0).Rebuilt?
    ensures var o := Del(t, h, key, n0);
      && Good(o.tree, h) && NodeSize(NodeOf(o.tree)) <= BTREE_PAGE_SIZE && |o.tree.entries| > 0
      && Apart(o.tree) && root !in Below(o.tree) && IdsBelow(Below(o.tree), o.next)
      && Contents(o.tree) == Remove(Contents(t), key)
      && KeysSorted(Contents(o.tree)) && Contents(o.tree) != [] && Contents(o.tree)[0].key == []
  {
    var o := Del(t, h, key, n0);
    FirstKeyFirst(t, h);
    EmptyFirst(key);
    DelSpec(t, h, key, n0);
    DelIds(t, h, key, n0);
    RemoveSorted(Contents(t), key);
    SentinelKept(Contents(t), key, []);
    EmptyContents(o.tree, h);
  }

  /**
   * Delete's root step in the store: a rebuilt root u that meets
   * DeletedTree, with its subtrees stored in p1, stored as a page under id
   * n once the old root page is freed, is a rooted tree of the same
   * height, and the old root joins the pages freed.
   */
  lemma RootReplaced(p0: Pages, p1: Pages, root: nat, u: Tree, h: nat, n0: nat, n: nat, freed: set<nat>, page: seq<Byte>)
    requires Good(u, h) && NodeSize(NodeOf(u)) <= BTREE_PAGE_SIZE && |u.entries| > 0
    requires Apart(u) && root !in Below(u) && IdsBelow(Below(u), n) && root < n0 <= n
    requires KeysSorted(Contents(u)) && Contents(u) != [] && Contents(u)[0].key == []
    requires KidsStored(p1, u) && Rewritten(p0, p1, freed, n0, n)
    requires |page| >= BTREE_PAGE_SIZE && IsNode(page, NodeOf(u))
    ensures Rooted((p1 - {root})[n := page], n + 1, n, u, h)
    ensures Rewritten(p0, (p1 - {root})[n := page], freed + {root}, n0, n + 1)
  {
    var p2 := (p1 - {root})[n := page];
    DelStacked(p1, root, [page], n);
    StackedOne(p1 - {root}, [page], n);
    RewrittenTrans(p0, p1, p2, freed, {root}, n0, n, n + 1);
    RewrittenAgree(p1, p2, {root}, n, n + 1, Below(u));
    KidsFrame(p1, p2, u);
  }

  /**
   * treeDelete as core/btree.go writes it takes the empty key like any
   * other: from the leaf ["" , "b"] it removes the sentinel, and a later
   * treeInsert of "a", below every key left, lands after "b" (lookupLE
   * clamps to 0 and the leaf insert goes at 1), out of key order.
   */
  lemma SentinelDeletedAsWritten()
    ensures var b, a := Entry(0, [98], []), Entry(0, [97], []);
      && Del(Leaf([SENTINEL, b]), 0, [], 1) == Rebuilt(Leaf([b]), 1)
      && Ins(Leaf([b]), 0, a.key, a.val, 1).tree == Leaf([b, a])
      && !KeysSorted([b, a])
  {
    var b, a := Entry(0, [98], []), Entry(0, [97], []);
    assert AllInLimits([SENTINEL, b]) && AllInLimits([b]);
    assert Compare([98], []) > 0 && Compare([98], [97]) > 0;
    assert LookupLE([SENTINEL, b], []) == 0;
    assert Removed([SENTINEL, b], 0) == [b];
    LookupLEClamped([b], a.key);
    assert Inserted([b], 1, a) == [b, a];
  }

  /** A key of n + 1 bytes: b, then n zero bytes. */
  function Wide(b: Byte, n: nat): (k: seq<Byte>)
    ensures |k| == n + 1 && k[0] == b && k[1..] == Zeros(n)
  {
    [b] + Zeros(n)
  }

  /**
   * The leaves of OverflowTree: the sentinel, [1] with a 1000-byte key
   * above it, three 1000-byte keys and a 30-byte key.
   */
  function OverflowLeaves(): seq<Tree>
  {
    [Leaf([SENTINEL]),
     Leaf([Entry(0, [1], []), Entry(0, Wide(1, 999), Zeros(100))]),
     Leaf([Entry(0, Wide(2, 999), [])]), Leaf([Entry(0, Wide(3, 999), [])]),
     Leaf([Entry(0, Wide(4, 999), [])]), Leaf([Entry(0, Wide(5, 29), [])])]
  }

  /** A two-level tree over OverflowLeaves, stored under ids 1 to 6. */
  function OverflowTree(): Tree
  {
    Inner(KidEntries(OverflowLeaves(), 1), OverflowLeaves())
  }

  lemma OverflowLeavesGood(i: nat)
    requires i < 6
    ensures Good(OverflowLeaves()[i], 0) && NodeSize(NodeOf(OverflowLeaves()[i])) <= BTREE_PAGE_SIZE
    ensures |OverflowLeaves()[i].entries| > 0
  {
    var ks := OverflowLeaves()[i].entries;
    assert AllInLimits(ks);
    DataSizeAppend([], ks[0]);
    assert [] + [ks[0]] == ks[..1];
    if |ks| == 2 {
      DataSizeAppend(ks[..1], ks[1]);
      assert ks[..1] + [ks[1]] == ks;
    } else {
      assert ks[..1] == ks;
    }
  }

  /** OverflowTree is well formed, and its root page is 3119 bytes. */
  lemma OverflowGood()
    ensures Good(OverflowTree(), 1) && NodeSize(NodeOf(OverflowTree())) == 3119
  {
    var t := OverflowTree();
    var es, kids := t.entries, t.kids;
    forall i | 0 <= i < 6
      ensures KidAt(es, kids, i, 1)
    {
      OverflowLeavesGood(i);
    }
    SixSize(es);
  }

  /** The record bytes of six entries without values. */
  lemma SixSize(es: seq<Entry>)
    requires |es| == 6 && forall i :: 0 <= i < 6 ==> es[i].val == []
    ensures DataSize(es) == 24 + |es[0].key| + |es[1].key| + |es[2].key| + |es[3].key| + |es[4].key| + |es[5].key|
  {
    DataSizePrefix(es, 0);
    DataSizePrefix(es, 1);
    DataSizePrefix(es, 2);
    DataSizePrefix(es, 3);
    DataSizePrefix(es, 4);
    DataSizePrefix(es, 5);
    assert es[..6] == es;
  }

  /** The pairs of OverflowTree, in key order. */
  lemma OverflowContents()
    ensures var ls := OverflowLeaves();
      Contents(OverflowTree()) == ls[0].entries + ls[1].entries + ls[2].entries + ls[3].entries + ls[4].entries + ls[5].entries
  {
    var ls := OverflowLeaves();
    assert ls[..1][..0] == [];
    assert ContentsOf(ls[..1]) == ls[0].entries;
    assert ls[..2][..1] == ls[..1];
    assert ContentsOf(ls[..2]) == ContentsOf(ls[..1]) + ls[1].entries;
    assert ls[..3][..2] == ls[..2];
    assert ContentsOf(ls[..3]) == ContentsOf(ls[..2]) + ls[2].entries;
    assert ls[..4][..3] == ls[..3];
    assert ContentsOf(ls[..4]) == ContentsOf(ls[..3]) + ls[3].entries;
    assert ls[..5][..4] == ls[..4];
    assert ContentsOf(ls[..5]) == ContentsOf(ls[..4]) + ls[4].entries;
    assert ls[..6][..5] == ls[..5];
    assert ls[..6] == ls;
    assert ContentsOf(ls) == ContentsOf(ls[..5]) + ls[5].entries;
  }

  /** A key whose first byte is lower is below. */
  lemma CompareHead(a: seq<Byte>, b: seq<Byte>)
    requires |a| > 0 && |b| > 0 && a[0] < b[0]
    ensures Compare(a, b) < 0
  {
  }

  /**
   * Seven pairs are in key order when the keys are the empty key, [1], a
   * longer key starting with 1, then keys starting with 2, 3, 4 and 5.
   */
  lemma SevenSorted(cs: seq<Entry>)
    requires |cs| == 7 && cs[0].key == [] && cs[1].key == [1]
    requires |cs[2].key| > 1 && cs[2].key[0] == 1
    requires forall i :: 3 <= i < 7 ==> |cs[i].key| > 0 && cs[i].key[0] as int == i - 1
    ensures KeysSorted(cs)
  {
    assert Compare(cs[1].key, cs[2].key) < 0 by {
      assert cs[2].key[1..] != [];
    }
    forall i, j | 0 <= i < j < 7
      ensures Compare(cs[i].key, cs[j].key) < 0
    {
      if i > 0 && j > 2 {
        CompareHead(cs[i].key, cs[j].key);
      }
    }
  }

  /** The pairs of OverflowTree are in key order, start with the empty key and hold [1]. */
  lemma OverflowSorted()
    ensures KeysSorted(Contents(OverflowTree())) && FirstKey(OverflowTree()) == []
    ensures Find(Contents(OverflowTree()), [1]) == Some([])
  {
    OverflowContents();
    var cs := Contents(OverflowTree());
    SevenSorted(cs);
    assert cs[1..][0].key == [1];
  }

  /**
   * treeDelete can overflow its one-page buffer. Deleting [1] from
   * OverflowTree leaves its leaf at 1118 bytes, over a quarter page, so
   * the leaf is not merged; the parent entry's key grows from 1 byte to
   * 1000, and the rebuilt root needs 4118 bytes. core/btree.go:366 writes
   * it into a 4096-byte buffer, and nodeAppendKV slices past the end.
   */
  lemma DeleteOverflows()
    ensures var t := OverflowTree();
      && Good(t, 1) && NodeSize(NodeOf(t)) <= BTREE_PAGE_SIZE
      && KeysSorted(Contents(t)) && FirstKey(t) == [] && Find(Contents(t), [1]) == Some([])
      && Del(t, 1, [1], 7) == Overflow
  {
    OverflowGood();
    OverflowSorted();
    OverflowLookup();
    OverflowLeafDeleted();
    OverflowRebalanced();
  }

  /** nodeLookupLE of [1] in the root of OverflowTree is 1. */
  lemma OverflowLookup()
    ensures LookupLE(OverflowTree().entries, [1]) == 1
  {
    var es := OverflowTree().entries;
    assert es[0].key == [] && es[1].key == [1];
  }

  /** Deleting [1] from its leaf leaves the 1000-byte key alone, in 1118 bytes. */
  lemma OverflowLeafDeleted()
    ensures var l := OverflowLeaves()[1];
      && Del(l, 0, [1], 7) == Rebuilt(Leaf([l.entries[1]]), 7)
      && NodeSize(NodeOf(Leaf([l.entries[1]]))) == 1118
  {
    var ks := OverflowLeaves()[1].entries;
    assert AllInLimits(ks);
    assert Removed(ks, 0) == [ks[1]];
    DataSizeAppend([], ks[1]);
    assert [] + [ks[1]] == [ks[1]];
  }

  /** The leaf is not merged, and the rebuilt root is 4118 bytes, over a page. */
  lemma OverflowRebalanced()
    requires Good(OverflowTree(), 1)
    ensures var u := Leaf([OverflowLeaves()[1].entries[1]]);
      NodeSize(NodeOf(Rebalanced(OverflowTree(), 1, 1, u, 7).tree)) == 4118
  {
    var t, u := OverflowTree(), Leaf([OverflowLeaves()[1].entries[1]]);
    DataSizeAppend([], u.entries[0]);
    assert [] + [u.entries[0]] == u.entries;
    assert MergeDir(t, 1, u) == 0;
    SixSize(Rebalanced(t, 1, 1, u, 7).tree.entries);
  }

  /**
   * The node treeDelete returns for a rooted tree, when the key was there,
   * fits a page and its entries fit alone, which is what nodeSplit3 asks.
   */
  lemma DeletedFits(p: Pages, root: nat, t: Tree, h: nat, key: seq<Byte>, n0: nat)
    requires Rooted(p, n0, root, t, h) && n0 + h <= U64_LIMIT && key != [] && Del(t, h, key, n0).Rebuilt?
    ensures var o := Del(t, h, key, n0);
      && NodeSize(NodeOf(o.tree)) <= BTREE_PAGE_SIZE && AllFitAlone(o.tree.entries)
      && (o.tree.Inner? ==> |o.tree.kids| == |o.tree.entries|)
  {
    var o := Del(t, h, key, n0);
    DeletedTree(t, h, key, n0, root);
    EntriesInLimits(o.tree, h);
    LimitsFitAlone(o.tree.entries);
  }

  /**
   * Delete's last step in the store: the page of the node treeDelete
   * rebuilt from a rooted tree, stored under the id treeDelete leaves once
   * the old root page is freed, is a rooted tree of the same height
   * holding Remove of the pairs, and the old root joins the pages freed.
   */
  lemma RootDeleted(p0: Pages, p1: Pages, p2: Pages, n: nat, u: Tree, root: nat, t: Tree, h: nat, key: seq<Byte>,
                    n0: nat, page: seq<Byte>)
    requires Rooted(p0, n0, root, t, h) && n0 + h <= U64_LIMIT && key != [] && Del(t, h, key, n0).Rebuilt?
    requires u == Del(t, h, key, n0).tree && n == Del(t, h, key, n0).next && p2 == p1 - {root}
    requires KidsStored(p1, u) && Rewritten(p0, p1, DelFreed(t, h, key, n0), n0, n)
    requires |page| >= BTREE_PAGE_SIZE && IsNode(page, NodeOf(u))
    ensures Contents(u) == Remove(Contents(t), key)
    ensures Rooted(p2[n := Padded(page)], n + 1, n, u, h)
    ensures Rewritten(p0, p2[n := Padded(page)], DelFreed(t, h, key, n0) + {root}, n0, n + 1)
  {
    var o := Del(t, h, key, n0);
    DeletedTree(t, h, key, n0, root);
    RootReplaced(p0, p1, root, o.tree, h, n0, o.next, DelFreed(t, h, key, n0), page);
  }

  class BTree {
    /** The page id of the root node; 0 for an empty tree. */
    var root: nat
    /** The page store behind the get, new and del callbacks. */
    const mem: MemPages
    /** The tree of nodes the pages hold, and its height. */
    ghost var tree: Tree
    ghost var height: nat

    ghost predicate Valid()
      reads this, mem
    {
      && mem.Valid() && root < U64_LIMIT
      && (root != 0 ==> Rooted(mem.pages, mem.next, root, tree, height))
    }

    /** The key-value pairs of the tree, in key order. */
    ghost function Pairs(): seq<Entry>
      reads this
    {
      if root == 0 then [] else Contents(tree)
    }

    /** NewBTree: an empty tree over the store. */
    constructor (mem: MemPages)
      requires mem.Valid()
      ensures Valid() && this.mem == mem && root == 0 && Pairs() == []
    {
      this.mem := mem;
      root := 0;
      tree, height := Leaf([]), 0;
    }

    /**
     * Get: the value of key, found by following nodeLookupLE from the root
     * page down to a leaf; nil and false when the tree is empty or the
     * leaf lacks key.
     */
    method Get(key: seq<Byte>) returns (val: seq<Byte>, found: bool)
      requires Valid()
      ensures found <==> Find(Pairs(), key).Some?
      ensures found ==> val == Find(Pairs(), key).value
      ensures !found ==> val == []
    {
      if root == 0 {
        return [], false;
      }
      FirstKeyFirst(tree, height);
      LookupFind(tree, height, key);
      var node := mem.Get(root);
      ghost var t, h, want := tree, height, Find(Pairs(), key);
      while true
        invariant Good(t, h) && |t.entries| > 0 && IsNode(node, NodeOf(t)) && KidsStored(mem.pages, t)
        invariant Lookup(t, key) == want
        decreases h
      {
        var idx := NodeLookupLE(node, key, NodeOf(t));
        ReadAt(t, node, key, idx);
        if BType(node) == BNODE_LEAF {
          if idx < NKeys(node) && GetKey(node, idx) == key {
            return GetVal(node, idx), true;
          }
          return [], false;
        }
        StepDown(mem.pages, t, h, node, key, idx);
        var ptr := GetPtr(node, idx);
        node := mem.Get(ptr);
        t, h := t.kids[idx], h - 1;
      }
    }

    /**
     * The loop of nodeReplaceKidN (and of Insert's new root): each page of
     * kids stored with new, and an entry with its id and first key
     * appended to dst at position at and on, after the entries built.
     */
    method StoreKids(dst: array<Byte>, at: nat, kids: seq<seq<Byte>>, ghost trees: seq<Tree>,
                     ghost btype: nat, ghost nkeys: nat, ghost built: seq<Entry>)
      requires mem.Valid() && |kids| == |trees| && mem.next + |kids| <= U64_LIMIT
      requires forall j :: 0 <= j < |kids| ==> |kids[j]| >= BTREE_PAGE_SIZE && IsNode(kids[j], NodeOf(trees[j]))
      requires Filled(dst[..], btype, nkeys, built) && at == |built| && at + |kids| <= nkeys && dst.Length <= MAX_BUFFER
      requires Frontier(nkeys, built + KidEntries(trees, mem.next)) <= dst.Length
      modifies dst, mem
      ensures mem.Valid() && mem.next == old(mem.next) + |kids|
      ensures mem.pages == Stacked(old(mem.pages), kids, |kids|, old(mem.next))
      ensures Filled(dst[..], btype, nkeys, built + KidEntries(trees, old(mem.next)))
    {
      ghost var n0, p0 := mem.next, mem.pages;
      ghost var m := KidEntries(trees, n0);
      assert built + m[..0] == built;
      for i := 0 to |kids|
        invariant mem.Valid() && mem.next == n0 + i && mem.pages == Stacked(p0, kids, i, n0)
        invariant Filled(dst[..], btype, nkeys, built + m[..i])
      {
        StoreKid(dst, at, i, kids, trees, btype, nkeys, built, n0, p0);
      }
      assert m[..|m|] == m;
    }

    /** One round of the loop of StoreKids: page i stored under the next id, and its entry appended. */
    method StoreKid(dst: array<Byte>, at: nat, i: nat, kids: seq<seq<Byte>>, ghost trees: seq<Tree>,
                    ghost btype: nat, ghost nkeys: nat, ghost built: seq<Entry>, ghost n0: nat, ghost p0: Pages)
      requires mem.Valid() && i < |kids| == |trees| && n0 + |kids| <= U64_LIMIT && IsNode(kids[i], NodeOf(trees[i]))
      requires at == |built| && at + |kids| <= nkeys && dst.Length <= MAX_BUFFER
      requires Frontier(nkeys, built + KidEntries(trees, n0)) <= dst.Length
      requires mem.next == n0 + i && mem.pages == Stacked(p0, kids, i, n0)
      requires Filled(dst[..], btype, nkeys, built + KidEntries(trees, n0)[..i])
      modifies dst, mem
      ensures mem.Valid() && mem.next == n0 + i + 1 && mem.pages == Stacked(p0, kids, i + 1, n0)
      ensures Filled(dst[..], btype, nkeys, built + KidEntries(trees, n0)[..i + 1])
    {
      ghost var m := KidEntries(trees, n0);
      var ptr := mem.New(kids[i]);
      RoomFor(nkeys, built, m, i);
      AppendKid(dst, at + i, ptr, kids[i], trees[i], btype, nkeys, built + m[..i], m[i]);
    }

    /**
     * nodeReplaceKidN: dst gets the entries of src with the one at idx
     * replaced by one entry per page of kids, each page stored under a new
     * id in order.
     */
    method NodeReplaceKidN(dst: array<Byte>, src: seq<Byte>, idx: nat, kids: seq<seq<Byte>>,
                           ghost node: Node, ghost trees: seq<Tree>)
      requires mem.Valid() && IsNode(src, node) && idx < |node.entries|
      requires |kids| == |trees| && mem.next + |kids| <= U64_LIMIT
      requires forall j :: 0 <= j < |kids| ==> |kids[j]| >= BTREE_PAGE_SIZE && IsNode(kids[j], NodeOf(trees[j]))
      requires NodeSize(Node(BNODE_NODE, node.entries[..idx] + KidEntries(trees, mem.next) + node.entries[idx + 1..]))
        <= dst.Length <= MAX_BUFFER
      modifies dst, mem
      ensures mem.Valid() && mem.next == old(mem.next) + |kids|
      ensures mem.pages == Stacked(old(mem.pages), kids, |kids|, old(mem.next))
      ensures IsNode(dst[..], Node(BNODE_NODE, node.entries[..idx] + KidEntries(trees, old(mem.next)) + node.entries[idx + 1..]))
    {
      ghost var m := KidEntries(trees, mem.next);
      var nkeys := ReplaceHead(dst, src, idx, |kids|, node, m);
      StoreKids(dst, idx, kids, trees, BNODE_NODE, nkeys, node.entries[..idx]);
      ReplaceTail(dst, src, idx, |kids|, nkeys, node, m);
    }

    /**
     * treeInsert: the node of t, read from node, with the pair inserted or
     * updated, in a new buffer of two pages; on the way the child pages on
     * the path to key are freed and the pieces of their rebuilt nodes
     * stored under new ids. The result is the node Ins builds.
     */
    method TreeInsert(node: seq<Byte>, ghost t: Tree, ghost h: nat, key: seq<Byte>, val: seq<Byte>) returns (r: seq<Byte>)
      requires mem.Valid() && InsReady(mem.pages, mem.next, t, h, key, val) && IsNode(node, NodeOf(t))
      modifies mem
      ensures mem.Valid()
      ensures var g := Ins(t, h, key, val, old(mem.next));
        && mem.next == g.next && |r| == MAX_BUFFER && IsNode(r, NodeOf(g.tree)) && KidsStored(mem.pages, g.tree)
        && Rewritten(old(mem.pages), mem.pages, Descent(t, key), old(mem.next), mem.next)
      decreases h, 2
    {
      var dst := new Byte[MAX_BUFFER](_ => 0);
      var idx := NodeLookupLE(node, key, NodeOf(t));
      ReadAt(t, node, key, idx);
      if BType(node) == BNODE_LEAF {
        InsertLeaf(dst, node, idx, t, h, key, val, mem.next);
        RewrittenNone(mem.pages, mem.next);
      } else if BType(node) == BNODE_NODE {
        InsertKid(dst, node, idx, t, h, key, val);
      } else {
        assert false;
      }
      r := dst[..];
    }

    /**
     * treeInsert's recursion into the child at idx: insert into the child
     * page, split the result with nodeSplit3 and free the old child page.
     */
    method GrowKid(node: seq<Byte>, idx: nat, ghost t: Tree, ghost h: nat, key: seq<Byte>, val: seq<Byte>)
      returns (split: seq<seq<Byte>>, ghost g: Grown, ghost p1: Pages)
      requires mem.Valid() && InsReady(mem.pages, mem.next, t, h, key, val) && IsNode(node, NodeOf(t))
      requires t.Inner? && idx == LookupLE(t.entries, key)
      modifies mem
      ensures mem.Valid() && KidGrows(t, h, key, old(mem.next), idx) && g == Ins(t.kids[idx], h - 1, key, val, old(mem.next))
      ensures mem.next == g.next && mem.pages == p1 - {t.entries[idx].ptr}
      ensures KidsStored(p1, g.tree) && Rewritten(old(mem.pages), p1, Descent(t.kids[idx], key), old(mem.next), g.next)
      ensures |split| == |SplitTree(g.tree)|
      ensures forall j :: 0 <= j < |split| ==> |split[j]| >= BTREE_PAGE_SIZE && IsNode(split[j], NodeOf(SplitTree(g.tree)[j]))
      decreases h, 0
    {
      ghost var n0 := mem.next;
      KidReady(mem.pages, n0, node, t, h, key, val, idx);
      ghost var kid := t.kids[idx];
      var ptr := GetPtr(node, idx);
      var knode := mem.Get(ptr);
      var kn := TreeInsert(knode, kid, h - 1, key, val);
      g := Ins(kid, h - 1, key, val, n0);
      p1 := mem.pages;
      GrownSplits(kid, h - 1, key, val, n0);
      var nsplit;
      nsplit, split := NodeSplit3(kn, NodeOf(g.tree));
      mem.Del(ptr);
      PiecesHeld(split, g.tree);
    }

    /** treeInsert's internal-node case: the child at idx replaced by its split pieces. */
    method InsertKid(dst: array<Byte>, node: seq<Byte>, idx: nat, ghost t: Tree, ghost h: nat, key: seq<Byte>, val: seq<Byte>)
      requires mem.Valid() && InsReady(mem.pages, mem.next, t, h, key, val) && IsNode(node, NodeOf(t))
      requires t.Inner? && idx == LookupLE(t.entries, key) && dst.Length == MAX_BUFFER
      modifies dst, mem
      ensures mem.Valid()
      ensures var g := Ins(t, h, key, val, old(mem.next));
        && mem.next == g.next && IsNode(dst[..], NodeOf(g.tree)) && KidsStored(mem.pages, g.tree)
        && Rewritten(old(mem.pages), mem.pages, Descent(t, key), old(mem.next), mem.next)
      decreases h, 1
    {
      ghost var p0, n0 := mem.pages, mem.next;
      KidReady(p0, n0, node, t, h, key, val, idx);
      var split, g, p1 := GrowKid(node, idx, t, h, key, val);
      InsShape(t, h, key, val, n0, idx);
      GrownIds(t, h, key, val, n0, idx);
      PathIds(t, h, key, val, n0, idx);
      NodeReplaceKidN(dst, node, idx, split, NodeOf(t), SplitTree(g.tree));
      InsStored(p0, p1, t, idx, g, Descent(t.kids[idx], key), split, n0);
    }

    /** Ids are left for an insertion: one root-to-leaf path of splits and a new root. */
    ghost predicate Room()
      reads this, mem
    {
      mem.next + 3 * height + 4 <= U64_LIMIT
    }

    /**
     * Insert: checkLimit refuses a pair over the limits before anything is
     * touched. Otherwise an empty tree gets its first leaf, and a tree
     * gets the pair through treeInsert, the old root page freed and the
     * rebuilt root published: the one piece nodeSplit3 leaves or a new
     * internal node over its pieces. Either way the pairs become Upsert of
     * the old ones, the sentinel standing for the empty tree; the pages on
     * the path to key are freed, the new root is the last page stored,
     * and no other page changes.
     */
    method Insert(key: seq<Byte>, val: seq<Byte>) returns (st: Status)
      requires Valid() && Room()
      modifies this, mem
      ensures Valid() && st == CheckLimit(key, val)
      ensures st == ErrKeyTooLarge ==>
        root == old(root) && Pairs() == old(Pairs()) && mem.pages == old(mem.pages) && mem.next == old(mem.next)
      ensures st == Ok ==> root != 0 && root == mem.next - 1
      ensures st == Ok ==> Pairs() == Upsert(if old(root) == 0 then [SENTINEL] else old(Pairs()), key, val)
      ensures st == Ok ==>
        Rewritten(old(mem.pages), mem.pages, if old(root) == 0 then {} else Descent(old(tree), key) + {old(root)},
                  old(mem.next), mem.next)
    {
      st := CheckLimit(key, val);
      if st != Ok {
        return;
      }
      if root == 0 {
        var page := FirstLeaf(key, val);
        ghost var p0 := mem.pages;
        root := mem.New(page);
        FirstRooted(p0, root, key, val, page);
        tree, height := Leaf(Upsert([SENTINEL], key, val)), 0;
      } else {
        InsertRoot(key, val);
      }
    }

    /** Insert into a tree that has a root. */
    method InsertRoot(key: seq<Byte>, val: seq<Byte>)
      requires Valid() && Room() && root != 0 && InLimits(Entry(0, key, val))
      modifies this, mem
      ensures Valid() && root != 0 && root == mem.next - 1 && Pairs() == Upsert(old(Pairs()), key, val)
      ensures Rewritten(old(mem.pages), mem.pages, Descent(old(tree), key) + {old(root)}, old(mem.next), mem.next)
    {
      ghost var p0, n0, d := mem.pages, mem.next, Descent(tree, key) + {root};
      var nsplit, split, pieces := GrowRoot(key, val);
      if nsplit > 1 {
        PublishRaised(split, pieces, height, p0, n0, d);
      } else {
        KeptRooted(mem.pages, split, pieces, height, mem.next, p0, n0, d);
        PublishKept(split[0], pieces[0], height, p0, n0, d);
      }
    }

    /** The end of Insert when nodeSplit3 left one piece: it becomes the root, stored last. */
    method PublishKept(page: seq<Byte>, ghost t: Tree, ghost h: nat, ghost p0: Pages, ghost n0: nat, ghost d: set<nat>)
      requires mem.Valid() && n0 <= mem.next < U64_LIMIT
      requires Rooted(mem.pages[mem.next := Padded(page)], mem.next + 1, mem.next, t, h)
      requires Rewritten(p0, mem.pages[mem.next := Padded(page)], d, n0, mem.next + 1)
      modifies this, mem
      ensures Valid() && root != 0 && root == mem.next - 1 && Pairs() == Contents(t)
      ensures Rewritten(p0, mem.pages, d, n0, mem.next)
    {
      root := mem.New(page);
      tree, height := t, h;
    }

    /**
     * The start of Insert on a tree with a root: treeInsert from the root
     * page, nodeSplit3 of the node it returns, and the old root page
     * freed; the pieces hold Upsert of the pairs and are ready to be
     * stored from the next id on.
     */
    method GrowRoot(key: seq<Byte>, val: seq<Byte>) returns (nsplit: nat, split: seq<seq<Byte>>, ghost pieces: seq<Tree>)
      requires Valid() && Room() && root != 0 && InLimits(Entry(0, key, val))
      modifies mem
      ensures mem.Valid() && nsplit == |split| && old(mem.next) <= mem.next
      ensures PiecesReady(mem.pages, split, pieces, height, mem.next)
      ensures ContentsOf(pieces) == Upsert(Contents(tree), key, val)
      ensures Rewritten(old(mem.pages), Stacked(mem.pages, split, |split|, mem.next), Descent(tree, key) + {root},
                        old(mem.next), mem.next + |split|)
    {
      ghost var p0, n0 := mem.pages, mem.next;
      FirstKeyFirst(tree, height);
      EmptyFirst(key);
      var node := mem.Get(root);
      var kn := TreeInsert(node, tree, height, key, val);
      ghost var g := Ins(tree, height, key, val, n0);
      ghost var p1 := mem.pages;
      GrownSplits(tree, height, key, val, n0);
      nsplit, split := NodeSplit3(kn, NodeOf(g.tree));
      mem.Del(root);
      PiecesHeld(split, g.tree);
      pieces := SplitTree(g.tree);
      RootGrows(p0, root, tree, height, key, val, n0);
      RootReady(p0, p1, root, tree, height, key, val, n0, g, split);
    }

    /**
     * The end of Insert when nodeSplit3 left several pieces: they are
     * stored in order under a new internal root page, stored last, one
     * level above them.
     */
    method PublishRaised(split: seq<seq<Byte>>, ghost pieces: seq<Tree>, ghost h: nat, ghost p0: Pages, ghost n0: nat, ghost d: set<nat>)
      requires mem.Valid() && PiecesReady(mem.pages, split, pieces, h, mem.next) && |split| > 1 && n0 <= mem.next
      requires Rewritten(p0, Stacked(mem.pages, split, |split|, mem.next), d, n0, mem.next + |split|)
      modifies this, mem
      ensures Valid() && root != 0 && root == mem.next - 1 && Pairs() == ContentsOf(pieces)
      ensures Rewritten(p0, mem.pages, d, n0, mem.next)
    {
      ghost var p1, n := mem.pages, mem.next;
      var page := RootNode(split, pieces, h);
      RaisedRooted(p1, split, pieces, h, n, page);
      ghost var p2 := mem.pages;
      root := mem.New(page);
      tree, height := NewRoot(pieces, n), h + 1;
      assert root == n + |pieces| && tree == Inner(KidEntries(pieces, n), pieces);
      assert mem.pages == Stacked(p1, split, |split|, n)[n + |pieces| := page];
      assert Rooted(mem.pages, mem.next, root, tree, height);
      RewrittenNew(p0, p2, d, n0, n + |split|, page);
    }

    /**
     * Insert's new internal root: a page with one entry per piece, each
     * piece stored under a new id in order, as nodeAppendKV writes them.
     */
    method RootNode(split: seq<seq<Byte>>, ghost pieces: seq<Tree>, ghost h: nat) returns (page: seq<Byte>)
      requires mem.Valid() && 2 <= |split| == |pieces| <= 3 && mem.next + |split| <= U64_LIMIT
      requires forall j :: 0 <= j < |split| ==> |split[j]| >= BTREE_PAGE_SIZE && IsNode(split[j], NodeOf(pieces[j]))
      requires forall i :: 0 <= i < |pieces| ==> Good(pieces[i], h) && |pieces[i].entries| > 0
      modifies mem
      ensures mem.Valid() && mem.next == old(mem.next) + |split|
      ensures mem.pages == Stacked(old(mem.pages), split, |split|, old(mem.next))
      ensures |page| == BTREE_PAGE_SIZE && IsNode(page, Node(BNODE_NODE, KidEntries(pieces, old(mem.next))))
    {
      ghost var es := KidEntries(pieces, mem.next);
      forall i | 0 <= i < |es|
        ensures KvSize(es[i]) <= 4 + BTREE_MAX_KEY_SIZE
      {
        EntriesInLimits(pieces[i], h);
      }
      DataSizeBound(es, 4 + BTREE_MAX_KEY_SIZE);
      var a := new Byte[BTREE_PAGE_SIZE](_ => 0);
      HeaderWritten(a[..], BNODE_NODE, |split|);
      SetHeader(a, BNODE_NODE, |split|);
      assert [] + es == es;
      StoreKids(a, 0, split, pieces, BNODE_NODE, |split|, []);
      FilledNode(a[..], BNODE_NODE, |split|, es);
      page := a[..];
    }

    // -------------------------------------------------------------------
    // treeDelete
    // -------------------------------------------------------------------

    /**
     * treeDelete: the node of t, read from node, without key, in a new
     * one-page buffer, or nil when key is missing, and then no page is
     * touched. On the way the child pages on the path to key are freed,
     * with a sibling merged away at each level, and the rebuilt children
     * stored under new ids. The result is the node Del builds.
     */
    method TreeDelete(node: seq<Byte>, ghost t: Tree, ghost h: nat, key: seq<Byte>) returns (r: seq<Byte>)
      requires mem.Valid() && DelReady(mem.pages, mem.next, t, h, key) && IsNode(node, NodeOf(t))
      modifies mem
      ensures mem.Valid()
      ensures var o := Del(t, h, key, old(mem.next));
        && (o.NotFound? <==> r == [])
        && (o.NotFound? ==> mem.pages == old(mem.pages) && mem.next == old(mem.next))
        && (o.Rebuilt? ==>
              && mem.next == o.next && |r| == BTREE_PAGE_SIZE && IsNode(r, NodeOf(o.tree)) && KidsStored(mem.pages, o.tree)
              && Rewritten(old(mem.pages), mem.pages, DelFreed(t, h, key, old(mem.next)), old(mem.next), mem.next))
      decreases h, 2
    {
      IsNodeHeader(node, NodeOf(t));
      if BType(node) == BNODE_LEAF {
        var idx := NodeLookupLE(node, key, NodeOf(t));
        r := DeleteLeaf(node, idx, t, h, key, mem.next);
        RewrittenNone(mem.pages, mem.next);
      } else {
        r := DeleteKid(node, t, h, key);
      }
    }

    /**
     * treeDelete's internal-node case: delete from the child page
     * nodeLookupLE picks; nil when the child returns nil, otherwise the
     * old child page freed and the node rebuilt by the rebalancing step.
     */
    method DeleteKid(node: seq<Byte>, ghost t: Tree, ghost h: nat, key: seq<Byte>) returns (r: seq<Byte>)
      requires mem.Valid() && DelReady(mem.pages, mem.next, t, h, key) && IsNode(node, NodeOf(t)) && t.Inner?
      modifies mem
      ensures mem.Valid()
      ensures var o := Del(t, h, key, old(mem.next));
        && (o.NotFound? <==> r == [])
        && (o.NotFound? ==> mem.pages == old(mem.pages) && mem.next == old(mem.next))
        && (o.Rebuilt? ==>
              && mem.next == o.next && |r| == BTREE_PAGE_SIZE && IsNode(r, NodeOf(o.tree)) && KidsStored(mem.pages, o.tree)
              && Rewritten(old(mem.pages), mem.pages, DelFreed(t, h, key, old(mem.next)), old(mem.next), mem.next))
      decreases h, 1
    {
      ghost var p0, n0 := mem.pages, mem.next;
      var idx := NodeLookupLE(node, key, NodeOf(t));
      KidRead(p0, node, t, h, key, idx);
      KidShrinks(n0, t, h, key, idx);
      ghost var kid := t.kids[idx];
      var kptr := GetPtr(node, idx);
      var updated := TreeDelete(mem.Get(kptr), kid, h - 1, key);
      if |updated| == 0 {
        return [];
      }
      ghost var p1 := mem.pages;
      mem.Del(kptr);
      ShrunkReady(t, h, key, n0, idx);
      ghost var o := Del(kid, h - 1, key, n0);
      r := Rebalance(node, idx, updated, t, h, o.tree, p0, p1, n0, DelFreed(kid, h - 1, key, n0));
    }

    /**
     * The rest of treeDelete's internal-node case, once the child at idx
     * came back rebuilt as u in updated and its old page was freed: a new
     * one-page node as shouldMerge directs, merging the child with a
     * sibling, emptied, or with the child's entry replaced.
     */
    method Rebalance(node: seq<Byte>, idx: nat, updated: seq<Byte>, ghost t: Tree, ghost h: nat, ghost u: Tree,
                     ghost p0: Pages, ghost p1: Pages, ghost n0: nat, ghost d: set<nat>) returns (r: seq<Byte>)
      requires mem.Valid() && Shrunk(p0, p1, t, h, idx, u, n0, mem.next, d) && mem.pages == p1 - {t.entries[idx].ptr}
      requires IsNode(node, NodeOf(t)) && |updated| == BTREE_PAGE_SIZE && IsNode(updated, NodeOf(u))
      modifies mem
      ensures mem.Valid()
      ensures var g := Rebalanced(t, h, idx, u, old(mem.next));
        && mem.next == g.next && |r| == BTREE_PAGE_SIZE && IsNode(r, NodeOf(g.tree)) && KidsStored(mem.pages, g.tree)
        && Rewritten(p0, mem.pages, {t.entries[idx].ptr} + d + MergedAway(t, idx, u), n0, mem.next)
    {
      SiblingsKept(p0, p1, t, h, idx, u, n0, mem.next, d);
      var dst := new Byte[BTREE_PAGE_SIZE](_ => 0);
      var dir, sibling := ShouldMerge(node, idx, updated, t, u);
      IsNodeHeader(updated, NodeOf(u));
      if dir < 0 {
        MergeLeft(dst, node, idx, updated, sibling, t, h, u, p0, p1, n0, d);
      } else if dir > 0 {
        MergeRight(dst, node, idx, updated, sibling, t, h, u, p0, p1, n0, d);
      } else if NKeys(updated) == 0 {
        EmptiedStored(p0, p1, t, h, idx, u, n0, mem.next, d);
        HeaderWritten(dst[..], BNODE_NODE, 0);
        SetHeader(dst, BNODE_NODE, 0);
        FilledNode(dst[..], BNODE_NODE, 0, []);
      } else {
        ghost var n := mem.next;
        KeptStored(p0, p1, t, h, idx, u, n0, n, d, updated);
        NodeReplaceKidN(dst, node, idx, [updated], NodeOf(t), [u]);
      }
      r := dst[..];
    }

    /**
     * shouldMerge: no merge when the rebuilt child is over a quarter page;
     * otherwise the left sibling when the two fit a page, then the right
     * one, read from their pages.
     */
    method ShouldMerge(node: seq<Byte>, idx: nat, updated: seq<Byte>, ghost t: Tree, ghost u: Tree)
      returns (dir: int, sibling: seq<Byte>)
      requires t.Inner? && |t.kids| == |t.entries| && idx < |t.kids|
      requires IsNode(node, NodeOf(t)) && IsNode(updated, NodeOf(u))
      requires idx > 0 ==> Stored(mem.pages, t.entries[idx - 1].ptr, t.kids[idx - 1])
      requires idx + 1 < |t.kids| ==> Stored(mem.pages, t.entries[idx + 1].ptr, t.kids[idx + 1])
      ensures dir == MergeDir(t, idx, u)
      ensures dir < 0 ==> idx > 0 && IsNode(sibling, NodeOf(t.kids[idx - 1]))
      ensures dir > 0 ==> idx + 1 < |t.kids| && IsNode(sibling, NodeOf(t.kids[idx + 1]))
    {
      IsNodeHeader(node, NodeOf(t));
      IsNodeHeader(updated, NodeOf(u));
      if NBytes(updated) > BTREE_PAGE_SIZE / 4 {
        return 0, [];
      }
      if idx > 0 {
        PtrRead(node, t, idx - 1);
        var sib := mem.Get(GetPtr(node, idx - 1));
        IsNodeHeader(sib, NodeOf(t.kids[idx - 1]));
        var merged := NBytes(sib) + NBytes(updated) - 4;
        if merged <= BTREE_PAGE_SIZE {
          return -1, sib;
        }
      }
      if idx + 1 < NKeys(node) {
        PtrRead(node, t, idx + 1);
        var sib := mem.Get(GetPtr(node, idx + 1));
        IsNodeHeader(sib, NodeOf(t.kids[idx + 1]));
        var merged := NBytes(sib) + NBytes(updated) - 4;
        if merged <= BTREE_PAGE_SIZE {
          return 1, sib;
        }
      }
      return 0, [];
    }

    /**
     * The merge to the left: nodeMerge of the sibling and the rebuilt
     * child into a new page, the sibling's page freed, the merged page
     * stored, and nodeReplace2Kid putting its entry in place of both.
     */
    method MergeLeft(dst: array<Byte>, node: seq<Byte>, idx: nat, updated: seq<Byte>, sibling: seq<Byte>,
                     ghost t: Tree, ghost h: nat, ghost u: Tree, ghost p0: Pages, ghost p1: Pages, ghost n0: nat, ghost d: set<nat>)
      requires mem.Valid() && Shrunk(p0, p1, t, h, idx, u, n0, mem.next, d) && MergeDir(t, idx, u) < 0
      requires mem.pages == p1 - {t.entries[idx].ptr} && dst.Length == BTREE_PAGE_SIZE
      requires IsNode(node, NodeOf(t)) && IsNode(updated, NodeOf(u)) && IsNode(sibling, NodeOf(t.kids[idx - 1]))
      modifies dst, mem
      ensures mem.Valid()
      ensures var g := Rebalanced(t, h, idx, u, old(mem.next));
        && mem.next == g.next && IsNode(dst[..], NodeOf(g.tree)) && KidsStored(mem.pages, g.tree)
        && Rewritten(p0, mem.pages, {t.entries[idx].ptr} + d + MergedAway(t, idx, u), n0, mem.next)
    {
      ghost var n := mem.next;
      LeftShape(p0, p1, t, h, idx, u, n0, n, d);
      ghost var j := idx - 1;
      ghost var m := MergeTrees(t.kids[j], u);
      var merged := new Byte[BTREE_PAGE_SIZE](_ => 0);
      NodeMerge(merged, sibling, updated, NodeOf(t.kids[j]), NodeOf(u));
      PtrRead(node, t, idx - 1);
      mem.Del(GetPtr(node, idx - 1));
      var ptr := mem.New(merged[..]);
      FirstKeyRead(merged[..], m);
      NodeReplace2Kid(dst, node, idx - 1, ptr, GetKey(merged[..], 0), NodeOf(t));
      LeftMerged(p0, p1, mem.pages, t, h, idx, u, n0, n, d, merged[..]);
    }

    /**
     * The merge to the right: nodeMerge of the rebuilt child and its right
     * sibling into a new page, the sibling's page freed, the merged page
     * stored, and nodeReplace2Kid putting its entry in place of both.
     */
    method MergeRight(dst: array<Byte>, node: seq<Byte>, idx: nat, updated: seq<Byte>, sibling: seq<Byte>,
                      ghost t: Tree, ghost h: nat, ghost u: Tree, ghost p0: Pages, ghost p1: Pages, ghost n0: nat, ghost d: set<nat>)
      requires mem.Valid() && Shrunk(p0, p1, t, h, idx, u, n0, mem.next, d) && MergeDir(t, idx, u) > 0
      requires mem.pages == p1 - {t.entries[idx].ptr} && dst.Length == BTREE_PAGE_SIZE
      requires IsNode(node, NodeOf(t)) && IsNode(updated, NodeOf(u)) && IsNode(sibling, NodeOf(t.kids[idx + 1]))
      modifies dst, mem
      ensures mem.Valid()
      ensures var g := Rebalanced(t, h, idx, u, old(mem.next));
        && mem.next == g.next && IsNode(dst[..], NodeOf(g.tree)) && KidsStored(mem.pages, g.tree)
        && Rewritten(p0, mem.pages, {t.entries[idx].ptr} + d + MergedAway(t, idx, u), n0, mem.next)
    {
      ghost var n := mem.next;
      RightShape(p0, p1, t, h, idx, u, n0, n, d);
      ghost var j := idx + 1;
      ghost var m := MergeTrees(u, t.kids[j]);
      var merged := new Byte[BTREE_PAGE_SIZE](_ => 0);
      NodeMerge(merged, updated, sibling, NodeOf(u), NodeOf(t.kids[j]));
      PtrRead(node, t, idx + 1);
      mem.Del(GetPtr(node, idx + 1));
      var ptr := mem.New(merged[..]);
      FirstKeyRead(merged[..], m);
      NodeReplace2Kid(dst, node, idx, ptr, GetKey(merged[..], 0), NodeOf(t));
      RightMerged(p0, p1, mem.pages, t, h, idx, u, n0, n, d, merged[..]);
    }

    // -------------------------------------------------------------------
    // Delete
    // -------------------------------------------------------------------

    /**
     * Delete: false for an empty tree or a missing key, with nothing
     * touched; otherwise treeDelete from the root, the old root page freed
     * and the rebuilt root stored under the next id. The pairs become
     * Remove of the old ones; the pages freed are those DelFreed names and
     * the old root. The empty key, which the sentinel holds, is refused
     * like a missing one.
     */
    method Delete(key: seq<Byte>) returns (deleted: bool)
      requires Valid() && Room()
      requires root != 0 && key != [] ==> !Del(tree, height, key, mem.next).Overflow?
      modifies this, mem
      ensures Valid()
      ensures deleted <==> key != [] && Find(old(Pairs()), key).Some?
      ensures !deleted ==>
        root == old(root) && Pairs() == old(Pairs()) && mem.pages == old(mem.pages) && mem.next == old(mem.next)
      ensures deleted ==> old(root) != 0 && root != 0 && root == mem.next - 1 && Pairs() == Remove(old(Pairs()), key)
      ensures deleted ==>
        Rewritten(old(mem.pages), mem.pages, DelFreed(old(tree), old(height), key, old(mem.next)) + {old(root)},
                  old(mem.next), mem.next)
    {
      if root == 0 || |key| == 0 {
        return false;
      }
      ghost var p0, n0, d := mem.pages, mem.next, DelFreed(tree, height, key, mem.next) + {root};
      var page, u := ShrinkRoot(key);
      if |page| == 0 {
        return false;
      }
      PublishKept(page, u, height, p0, n0, d);
      deleted := true;
    }

    /**
     * The start of Delete on a tree with a root and a non-empty key:
     * treeDelete from the root page, nil when key is missing, and then
     * nothing is touched; otherwise nodeSplit3 of the node it returns,
     * which leaves it whole as it fits a page, and the old root page
     * freed. The page left holds the rebuilt root, ready to be stored
     * under the next id as a rooted tree of the same height.
     */
    method ShrinkRoot(key: seq<Byte>) returns (page: seq<Byte>, ghost u: Tree)
      requires Valid() && Room() && root != 0 && key != [] && !Del(tree, height, key, mem.next).Overflow?
      modifies mem
      ensures mem.Valid()
      ensures page == [] <==> Find(Pairs(), key) == None
      ensures page == [] ==> mem.pages == old(mem.pages) && mem.next == old(mem.next)
      ensures page != [] ==>
        && old(mem.next) <= mem.next < U64_LIMIT && Contents(u) == Remove(Pairs(), key)
        && Rooted(mem.pages[mem.next := Padded(page)], mem.next + 1, mem.next, u, height)
        && Rewritten(old(mem.pages), mem.pages[mem.next := Padded(page)],
                     DelFreed(tree, height, key, old(mem.next)) + {root}, old(mem.next), mem.next + 1)
    {
      ghost var p0, n0 := mem.pages, mem.next;
      RootShrinks(p0, n0, root, tree, height, key);
      var node := mem.Get(root);
      var updated := TreeDelete(node, tree, height, key);
      if |updated| == 0 {
        return [], tree;
      }
      ghost var o := Del(tree, height, key, n0);
      ghost var p1 := mem.pages;
      DeletedFits(p0, root, tree, height, key, n0);
      var nsplit, split := NodeSplit3(updated, NodeOf(o.tree));
      PiecesHeld(split, o.tree);
      mem.Del(root);
      if nsplit > 1 {
        // the rebuilt root fits a page, so nodeSplit3 leaves it whole
        assert false;
      }
      page, u := split[0], o.tree;
      RootDeleted(p0, p1, mem.pages, mem.next, u, root, tree, height, key, n0, page);
    }
  }
}
