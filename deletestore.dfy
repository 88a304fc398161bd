/**
 * treeDelete of core/btree.go in the page store: what the recursion needs
 * of a node and its stored subtrees, the leaf case, and how each case of
 * the rebalancing step (shouldMerge's merge to the left or to the right,
 * the emptied node) leaves the pages.
 */
module DeleteStore {
  import opened Bytes
  import opened Node
  import opened NodeWrite
  import opened NodeOps
  import opened Tree
  import opened TreeDelete
  import opened PageIds
  import opened MemStore
  import opened TreeStore

  /**
   * What treeDelete needs of the node t of height h with the counter at
   * next: a well-formed node that fits a page, ids apart and handed out,
   * room for an id per level, sorted pairs from a first key at most key,
   * and no rebuilt node on the way up that overflows its page.
   */
  ghost predicate DelTree(next: nat, t: Tree, h: nat, key: seq<Byte>)
  {
    && Good(t, h) && (t.Inner? ==> |t.entries| > 0) && next + h <= U64_LIMIT
    && NodeSize(NodeOf(t)) <= BTREE_PAGE_SIZE && Apart(t) && IdsBelow(Below(t), next)
    && KeysSorted(Contents(t)) && Compare(FirstKey(t), key) <= 0 && !Del(t, h, key, next).Overflow?
  }

  /** DelTree, with the subtrees of t stored in p. */
  ghost predicate DelReady(p: Pages, next: nat, t: Tree, h: nat, key: seq<Byte>)
  {
    KidsStored(p, t) && DelTree(next, t, h, key)
  }

  /** The child at idx that treeDelete descends to from the internal node t. */
  ghost predicate KidDel(t: Tree, h: nat, key: seq<Byte>, next: nat, idx: nat)
  {
    && t.Inner? && Good(t, h) && |t.entries| > 0 && next + h <= U64_LIMIT && idx == LookupLE(t.entries, key)
    && h > 0 && idx < |t.kids| && Good(t.kids[idx], h - 1) && |t.kids[idx].entries| > 0
  }

  /**
   * The rebalancing step is ready to run in the store: the child at idx
   * of t came back rebuilt as u, freeing d, with the pages p and the
   * counter at n, from the pages p0 and the counter n0 treeDelete
   * started with; the node it builds fits a page.
   */
  ghost predicate Shrunk(p0: Pages, p: Pages, t: Tree, h: nat, idx: nat, u: Tree, n0: nat, n: nat, d: set<nat>)
  {
    && StepReady(t, h, idx, u, n, n0, d) && Good(u, h - 1) && NodeSize(NodeOf(u)) <= BTREE_PAGE_SIZE
    && NodeSize(NodeOf(Rebalanced(t, h, idx, u, n).tree)) <= BTREE_PAGE_SIZE
    && KidsStored(p0, t) && KidsStored(p, u) && Rewritten(p0, p, d, n0, n)
  }

  // ---------------------------------------------------------------------
  // Reading a node
  // ---------------------------------------------------------------------

  /** getPtr(i) of a page holding the node of t is the pointer of t's entry i. */
  lemma PtrRead(node: seq<Byte>, t: Tree, i: nat)
    requires IsNode(node, NodeOf(t)) && i < |t.entries|
    ensures |node| >= 4 && i < NKeys(node) && 4 + 8 * i + 8 <= |node| && GetPtr(node, i) == t.entries[i].ptr
  {
    IsNodeHeader(node, NodeOf(t));
    ReadFilled(node, NodeOf(t).btype, |t.entries|, t.entries, i);
  }

  // ---------------------------------------------------------------------
  // The leaf
  // ---------------------------------------------------------------------

  /**
   * treeDelete's leaf case: nil when the entry nodeLookupLE picks does not
   * hold key, otherwise a page with leafDelete of that entry.
   */
  method DeleteLeaf(node: seq<Byte>, idx: nat, ghost t: Tree, ghost h: nat, key: seq<Byte>, ghost next: nat)
      returns (r: seq<Byte>)
    requires DelTree(next, t, h, key) && t.Leaf? && IsNode(node, NodeOf(t)) && idx == LookupLE(t.entries, key)
    ensures Del(t, h, key, next).NotFound? <==> r == []
    ensures Del(t, h, key, next).Rebuilt? ==>
      Del(t, h, key, next).next == next && |r| == BTREE_PAGE_SIZE && IsNode(r, NodeOf(Del(t, h, key, next).tree))
  {
    IsNodeHeader(node, NodeOf(t));
    LeafHeight(t, h);
    if idx < |t.entries| {
      ReadFilled(node, BNODE_LEAF, |t.entries|, t.entries, idx);
    }
    if idx >= NKeys(node) || GetKey(node, idx) != key {
      r := [];
    } else {
      DelSpec(t, h, key, next);
      var dst := new Byte[BTREE_PAGE_SIZE](_ => 0);
      LeafDelete(dst, node, idx, NodeOf(t));
      r := dst[..];
    }
  }

  // ---------------------------------------------------------------------
  // The descent
  // ---------------------------------------------------------------------

  /** The child treeDelete descends to: its page is the one the chosen pointer names, and its subtrees are stored. */
  lemma KidRead(p: Pages, node: seq<Byte>, t: Tree, h: nat, key: seq<Byte>, idx: nat)
    requires t.Inner? && Good(t, h) && |t.entries| > 0 && KidsStored(p, t) && IsNode(node, NodeOf(t))
    requires idx == LookupLE(t.entries, key)
    ensures idx < |t.kids| && |node| >= 4 && idx < NKeys(node) && 4 + 8 * idx + 8 <= |node|
    ensures GetPtr(node, idx) == t.entries[idx].ptr
    ensures IsNode(PageIn(p, t.entries[idx].ptr), NodeOf(t.kids[idx])) && KidsStored(p, t.kids[idx])
  {
    var es, kids := t.entries, t.kids;
    PtrRead(node, t, idx);
    assert StoredRun(p, es, kids);
    assert Stored(p, es[idx].ptr, kids[idx]);
  }

  /**
   * The child treeDelete descends to meets DelTree too, and a key missing
   * below is missing here, with nothing freed.
   */
  lemma KidShrinks(next: nat, t: Tree, h: nat, key: seq<Byte>, idx: nat)
    requires DelTree(next, t, h, key) && t.Inner? && idx == LookupLE(t.entries, key)
    ensures KidDel(t, h, key, next, idx) && (t.kids[idx].Leaf? <==> h == 1)
    ensures DelTree(next, t.kids[idx], h - 1, key)
    ensures Del(t.kids[idx], h - 1, key, next).NotFound? ==> Del(t, h, key, next).NotFound? && DelFreed(t, h, key, next) == {}
  {
    var es, kids := t.entries, t.kids;
    LookupLEBounds(es, key);
    RouteKid(t, h, key, idx);
    assert KidAt(es, kids, idx, h);
    LeafHeight(kids[idx], h - 1);
    UnderIn(es, kids, idx);
  }

  /**
   * The child at idx came back rebuilt: the rebalancing step is ready, the
   * node it builds fits a page, it is the node treeDelete returns, and
   * the pages freed are the child's page, those freed below it and a
   * sibling merged away.
   */
  lemma ShrunkReady(t: Tree, h: nat, key: seq<Byte>, next: nat, idx: nat)
    requires KidDel(t, h, key, next, idx) && (t.kids[idx].Leaf? <==> h == 1) && !Del(t, h, key, next).Overflow?
    requires Apart(t) && IdsBelow(Below(t), next)
    requires KeysSorted(Contents(t.kids[idx])) && Compare(FirstKey(t.kids[idx]), key) <= 0
    requires Del(t.kids[idx], h - 1, key, next).Rebuilt?
    ensures var o, dk := Del(t.kids[idx], h - 1, key, next), DelFreed(t.kids[idx], h - 1, key, next);
      && StepReady(t, h, idx, o.tree, o.next, next, dk) && Good(o.tree, h - 1) && NodeSize(NodeOf(o.tree)) <= BTREE_PAGE_SIZE
      && var g := Rebalanced(t, h, idx, o.tree, o.next);
         && NodeSize(NodeOf(g.tree)) <= BTREE_PAGE_SIZE && Del(t, h, key, next) == Rebuilt(g.tree, g.next)
         && DelFreed(t, h, key, next) == {t.entries[idx].ptr} + dk + MergedAway(t, idx, o.tree)
  {
    var es, kids := t.entries, t.kids;
    var kid := kids[idx];
    assert KidAt(es, kids, idx, h);
    UnderIn(es, kids, idx);
    DelSpec(kid, h - 1, key, next);
    DelIds(kid, h - 1, key, next);
  }

  // ---------------------------------------------------------------------
  // The rebalancing step in the store
  // ---------------------------------------------------------------------

  /**
   * After del of the rebuilt child's old page, the siblings of the child
   * are still stored, and the pages are a rewrite that freed that page
   * too.
   */
  lemma SiblingsKept(p0: Pages, p1: Pages, t: Tree, h: nat, idx: nat, u: Tree, n0: nat, n: nat, d: set<nat>)
    requires Shrunk(p0, p1, t, h, idx, u, n0, n, d)
    ensures Rewritten(p0, p1 - {t.entries[idx].ptr}, d + {t.entries[idx].ptr}, n0, n)
    ensures idx > 0 ==> Stored(p1 - {t.entries[idx].ptr}, t.entries[idx - 1].ptr, t.kids[idx - 1])
    ensures idx + 1 < |t.kids| ==> Stored(p1 - {t.entries[idx].ptr}, t.entries[idx + 1].ptr, t.kids[idx + 1])
  {
    var es, kids, ptr := t.entries, t.kids, t.entries[idx].ptr;
    var p := p1 - {ptr};
    assert Rewritten(p1, p, {ptr}, n, n);
    RewrittenTrans(p0, p1, p, d, {ptr}, n0, n, n);
    assert es[idx..idx + 1] == [es[idx]] && kids[idx..idx + 1] == [kids[idx]];
    BelowOfOne(es[idx], kids[idx]);
    KeptAround(p0, p, t, idx, idx + 1, d + {ptr}, n0, n);
    if idx > 0 {
      assert es[..idx][idx - 1] == es[idx - 1] && kids[..idx][idx - 1] == kids[idx - 1];
    }
    if idx + 1 < |kids| {
      assert es[idx + 1..][0] == es[idx + 1] && kids[idx + 1..][0] == kids[idx + 1];
    }
  }

  /** The subtrees of nodeMerge's node are stored when those of both halves are. */
  lemma MergeStored(p: Pages, l: Tree, r: Tree)
    requires l.Leaf? == r.Leaf? && KidsStored(p, l) && KidsStored(p, r)
    ensures KidsStored(p, MergeTrees(l, r))
  {
    if l.Inner? {
      RunConcat(p, l.entries, l.kids, r.entries, r.kids, [], []);
      assert l.entries + r.entries + [] == l.entries + r.entries && l.kids + r.kids + [] == l.kids + r.kids;
    }
  }

  /**
   * A merge in the store: the sibling s stored at sp kept as it was, the
   * child kid at kp rebuilt as u (freeing d), both old pages freed and
   * the merged page stored under n. The subtrees of both halves are still
   * stored, and only the freed pages are gone.
   */
  lemma MergedKids(p0: Pages, p1: Pages, p2: Pages, s: Tree, sp: nat, kid: Tree, kp: nat, u: Tree,
                   d: set<nat>, n0: nat, n: nat, page: seq<Byte>)
    requires Stored(p0, sp, s) && sp !in Below(s) && kp !in Below(kid) && ({sp} + Below(s)) !! ({kp} + Below(kid))
    requires IdsBelow({sp} + Below(s) + ({kp} + Below(kid)), n0) && n0 <= n
    requires d <= Below(kid) && Within(Below(u), Below(kid) - d, n0, n) && KidsStored(p1, u)
    requires Rewritten(p0, p1, d, n0, n) && p2 == ((p1 - {kp}) - {sp})[n := page]
    ensures KidsStored(p2, s) && KidsStored(p2, u) && Rewritten(p0, p2, {kp} + d + {sp}, n0, n + 1)
    ensures {kp} + d + {sp} <= {sp} + Below(s) + ({kp} + Below(kid))
  {
    assert Rewritten(p1, p2, {sp, kp}, n, n + 1);
    RewrittenTrans(p0, p1, p2, d, {sp, kp}, n0, n, n + 1);
    assert d + {sp, kp} == {kp} + d + {sp};
    RewrittenAgree(p0, p2, d + {sp, kp}, n0, n + 1, Below(s));
    KidsFrame(p0, p2, s);
    assert Agree(p1, p2, Below(u));
    KidsFrame(p1, p2, u);
  }

  /**
   * The node Rebalanced builds when u is merged into its left sibling:
   * the two entries replaced by one for the merged node, stored under n;
   * the merged node fits a page, and the sibling's page is merged away.
   */
  lemma LeftShape(p0: Pages, p: Pages, t: Tree, h: nat, idx: nat, u: Tree, n0: nat, n: nat, d: set<nat>)
    requires Shrunk(p0, p, t, h, idx, u, n0, n, d) && MergeDir(t, idx, u) < 0
    ensures idx > 0 && t.kids[idx - 1].Leaf? == u.Leaf? && MergedAway(t, idx, u) == {t.entries[idx - 1].ptr}
    ensures var m := MergeTrees(t.kids[idx - 1], u);
      && NodeSize(NodeOf(m)) <= BTREE_PAGE_SIZE
      && Rebalanced(t, h, idx, u, n)
         == Grown(Inner(Replaced2(t.entries, idx - 1, Entry(n, FirstKey(m), [])), t.kids[..idx - 1] + [m] + t.kids[idx + 1..]), n + 1)
  {
    assert KidAt(t.entries, t.kids, idx - 1, h);
    LeafHeight(t.kids[idx - 1], h - 1);
    MergeSpec(t.kids[idx - 1], u, h - 1);
  }

  /**
   * The node Rebalanced builds when its right sibling is merged into u:
   * the two entries replaced by one for the merged node, stored under n;
   * the merged node fits a page, and the sibling's page is merged away.
   */
  lemma RightShape(p0: Pages, p: Pages, t: Tree, h: nat, idx: nat, u: Tree, n0: nat, n: nat, d: set<nat>)
    requires Shrunk(p0, p, t, h, idx, u, n0, n, d) && MergeDir(t, idx, u) > 0
    ensures idx + 1 < |t.kids| && u.Leaf? == t.kids[idx + 1].Leaf? && MergedAway(t, idx, u) == {t.entries[idx + 1].ptr}
    ensures var m := MergeTrees(u, t.kids[idx + 1]);
      && NodeSize(NodeOf(m)) <= BTREE_PAGE_SIZE
      && Rebalanced(t, h, idx, u, n)
         == Grown(Inner(Replaced2(t.entries, idx, Entry(n, FirstKey(m), [])), t.kids[..idx] + [m] + t.kids[idx + 2..]), n + 1)
  {
    assert KidAt(t.entries, t.kids, idx + 1, h);
    LeafHeight(t.kids[idx + 1], h - 1);
    MergeSpec(u, t.kids[idx + 1], h - 1);
  }

  /**
   * The entries j and j + 1 of t replaced by one for the merge of l and
   * r, stored under n: when the pages freed lie under those two entries,
   * every subtree of the new node is stored.
   */
  lemma PlaceMerged(p0: Pages, p2: Pages, t: Tree, j: nat, l: Tree, r: Tree, freed: set<nat>, n0: nat, n: nat)
    requires t.Inner? && KidsStored(p0, t) && Apart(t) && IdsBelow(Below(t), n0) && j + 1 < |t.kids| == |t.entries|
    requires freed <= BelowOf(t.entries[j..j + 2], t.kids[j..j + 2]) && Rewritten(p0, p2, freed, n0, n + 1)
    requires l.Leaf? == r.Leaf? && KidsStored(p2, l) && KidsStored(p2, r)
    requires n in p2 && IsNode(p2[n], NodeOf(MergeTrees(l, r))) && n < U64_LIMIT
    ensures var m := MergeTrees(l, r);
      KidsStored(p2, Inner(Replaced2(t.entries, j, Entry(n, FirstKey(m), [])), t.kids[..j] + [m] + t.kids[j + 2..]))
  {
    var m := MergeTrees(l, r);
    var e := Entry(n, FirstKey(m), []);
    MergeStored(p2, l, r);
    assert Stored(p2, n, m);
    assert StoredRun(p2, [e], [m]);
    ReplaceStored(p0, p2, t, j, j + 2, [e], [m], freed, n0, n + 1);
  }

  /**
   * The left merge in the store: the rebuilt child's old page and its
   * left sibling's page freed and the merged node stored under n. The
   * new node has its subtrees stored, and the pages freed are the
   * child's, those freed below it and the sibling's.
   */
  lemma MergedLeftStored(p0: Pages, p1: Pages, p2: Pages, t: Tree, j: nat, idx: nat, u: Tree, n0: nat, n: nat,
                         d: set<nat>, mpage: seq<Byte>)
    requires t.Inner? && |t.kids| == |t.entries| && j + 1 == idx < |t.kids| && Apart(t) && IdsBelow(Below(t), n0) && n0 <= n < U64_LIMIT
    requires KidsStored(p0, t) && KidsStored(p1, u) && Rewritten(p0, p1, d, n0, n)
    requires d <= Below(t.kids[idx]) && Within(Below(u), Below(t.kids[idx]) - d, n0, n) && t.kids[j].Leaf? == u.Leaf?
    requires p2 == ((p1 - {t.entries[idx].ptr}) - {t.entries[j].ptr})[n := Padded(mpage)]
    requires |mpage| >= BTREE_PAGE_SIZE && IsNode(mpage, NodeOf(MergeTrees(t.kids[j], u)))
    ensures var m := MergeTrees(t.kids[j], u);
      KidsStored(p2, Inner(Replaced2(t.entries, j, Entry(n, FirstKey(m), [])), t.kids[..j] + [m] + t.kids[idx + 1..]))
    ensures Rewritten(p0, p2, {t.entries[idx].ptr} + d + {t.entries[j].ptr}, n0, n + 1)
  {
    var es, kids := t.entries, t.kids;
    TwoIn(es, kids, j);
    assert Stored(p0, es[j].ptr, kids[j]);
    MergedKids(p0, p1, p2, kids[j], es[j].ptr, kids[idx], es[idx].ptr, u, d, n0, n, Padded(mpage));
    var freed: set<nat> := {es[idx].ptr} + d + {es[j].ptr};
    PlaceMerged(p0, p2, t, j, kids[j], u, freed, n0, n);
  }

  /**
   * The right merge in the store: the rebuilt child's old page and its
   * right sibling's page freed and the merged node stored under n. The
   * new node has its subtrees stored, and the pages freed are the
   * child's, those freed below it and the sibling's.
   */
  lemma MergedRightStored(p0: Pages, p1: Pages, p2: Pages, t: Tree, idx: nat, j: nat, u: Tree, n0: nat, n: nat,
                          d: set<nat>, mpage: seq<Byte>)
    requires t.Inner? && |t.kids| == |t.entries| && idx + 1 == j < |t.kids| && Apart(t) && IdsBelow(Below(t), n0) && n0 <= n < U64_LIMIT
    requires KidsStored(p0, t) && KidsStored(p1, u) && Rewritten(p0, p1, d, n0, n)
    requires d <= Below(t.kids[idx]) && Within(Below(u), Below(t.kids[idx]) - d, n0, n) && u.Leaf? == t.kids[j].Leaf?
    requires p2 == ((p1 - {t.entries[idx].ptr}) - {t.entries[j].ptr})[n := Padded(mpage)]
    requires |mpage| >= BTREE_PAGE_SIZE && IsNode(mpage, NodeOf(MergeTrees(u, t.kids[j])))
    ensures var m := MergeTrees(u, t.kids[j]);
      KidsStored(p2, Inner(Replaced2(t.entries, idx, Entry(n, FirstKey(m), [])), t.kids[..idx] + [m] + t.kids[idx + 2..]))
    ensures Rewritten(p0, p2, {t.entries[idx].ptr} + d + {t.entries[j].ptr}, n0, n + 1)
  {
    var es, kids := t.entries, t.kids;
    TwoIn(es, kids, idx);
    assert Stored(p0, es[j].ptr, kids[j]);
    MergedKids(p0, p1, p2, kids[j], es[j].ptr, kids[idx], es[idx].ptr, u, d, n0, n, Padded(mpage));
    var freed: set<nat> := {es[idx].ptr} + d + {es[j].ptr};
    PlaceMerged(p0, p2, t, idx, u, kids[j], freed, n0, n);
  }

  /**
   * Rebalance's merge to the left, in the store: with the sibling's page
   * freed and the merged page stored under n, the node Rebalanced builds
   * has its subtrees stored, its page is the parent's node with the two
   * entries replaced by one for the merged page, and the pages freed are
   * the child's, those d names and the sibling's.
   */
  lemma LeftMerged(p0: Pages, p1: Pages, p2: Pages, t: Tree, h: nat, idx: nat, u: Tree, n0: nat, n: nat,
                   d: set<nat>, mpage: seq<Byte>)
    requires Shrunk(p0, p1, t, h, idx, u, n0, n, d) && MergeDir(t, idx, u) < 0 && 0 < idx
    requires p2 == ((p1 - {t.entries[idx].ptr}) - {t.entries[idx - 1].ptr})[n := Padded(mpage)]
    requires t.kids[idx - 1].Leaf? == u.Leaf? && |mpage| >= BTREE_PAGE_SIZE && IsNode(mpage, NodeOf(MergeTrees(t.kids[idx - 1], u)))
    ensures var g := Rebalanced(t, h, idx, u, n);
      && g.next == n + 1 && KidsStored(p2, g.tree)
      && NodeOf(g.tree) == Node(BNODE_NODE, Replaced2(t.entries, idx - 1, Entry(n, FirstKey(MergeTrees(t.kids[idx - 1], u)), [])))
      && Rewritten(p0, p2, {t.entries[idx].ptr} + d + MergedAway(t, idx, u), n0, n + 1)
  {
    LeftShape(p0, p1, t, h, idx, u, n0, n, d);
    MergedLeftStored(p0, p1, p2, t, idx - 1, idx, u, n0, n, d, mpage);
  }

  /** Rebalance's merge to the right, in the store, as LeftMerged. */
  lemma RightMerged(p0: Pages, p1: Pages, p2: Pages, t: Tree, h: nat, idx: nat, u: Tree, n0: nat, n: nat,
                    d: set<nat>, mpage: seq<Byte>)
    requires Shrunk(p0, p1, t, h, idx, u, n0, n, d) && MergeDir(t, idx, u) > 0 && idx + 1 < |t.entries|
    requires p2 == ((p1 - {t.entries[idx].ptr}) - {t.entries[idx + 1].ptr})[n := Padded(mpage)]
    requires u.Leaf? == t.kids[idx + 1].Leaf? && |mpage| >= BTREE_PAGE_SIZE && IsNode(mpage, NodeOf(MergeTrees(u, t.kids[idx + 1])))
    ensures var g := Rebalanced(t, h, idx, u, n);
      && g.next == n + 1 && KidsStored(p2, g.tree)
      && NodeOf(g.tree) == Node(BNODE_NODE, Replaced2(t.entries, idx, Entry(n, FirstKey(MergeTrees(u, t.kids[idx + 1])), [])))
      && Rewritten(p0, p2, {t.entries[idx].ptr} + d + MergedAway(t, idx, u), n0, n + 1)
  {
    RightShape(p0, p1, t, h, idx, u, n0, n, d);
    MergedRightStored(p0, p1, p2, t, idx, idx + 1, u, n0, n, d, mpage);
  }
}
