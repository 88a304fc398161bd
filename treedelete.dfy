/**
 * The deletion path of core/btree.go on the abstract tree: leafDelete,
 * nodeMerge, shouldMerge and treeDelete, with the page ids the rebuilt
 * nodes receive. treeDelete writes every rebuilt internal node into a
 * one-page buffer; a node that does not fit is the Overflow outcome, where
 * nodeAppendKV slices past the end of the buffer (PagedTree.DeleteOverflows
 * gives such a tree).
 */
module TreeDelete {
  import opened Bytes
  import opened Node
  import opened NodeOps
  import opened Split
  import opened Tree

  /** What treeDelete returns: nil for a missing key, a panic, or the rebuilt node and the next free id. */
  datatype Outcome = NotFound | Overflow | Rebuilt(tree: Tree, next: nat)

  /**
   * nodeMerge: the entries of l followed by those of r (and their
   * subtrees), with the type of l.
   */
  function MergeTrees(l: Tree, r: Tree): (m: Tree)
    requires l.Leaf? == r.Leaf?
    ensures NodeOf(m) == Node(NodeOf(l).btype, l.entries + r.entries)
    ensures m.Inner? ==> m.kids == l.kids + r.kids
  {
    if l.Leaf? then Leaf(l.entries + r.entries) else Inner(l.entries + r.entries, l.kids + r.kids)
  }

  /**
   * shouldMerge: -1 to merge the updated child at idx into its left
   * sibling, +1 to merge its right sibling into it, 0 for no merge.
   */
  function MergeDir(t: Tree, idx: nat, u: Tree): (d: int)
    requires t.Inner? && idx < |t.kids|
    ensures -1 <= d <= 1
    ensures d != 0 ==> NodeSize(NodeOf(u)) <= BTREE_PAGE_SIZE / 4
    ensures d == -1 ==> idx > 0 && NodeSize(NodeOf(t.kids[idx - 1])) + NodeSize(NodeOf(u)) - 4 <= BTREE_PAGE_SIZE
    ensures d == 1 ==> idx + 1 < |t.kids| && NodeSize(NodeOf(t.kids[idx + 1])) + NodeSize(NodeOf(u)) - 4 <= BTREE_PAGE_SIZE
    ensures d == 0 && NodeSize(NodeOf(u)) <= BTREE_PAGE_SIZE / 4 ==>
      && (idx > 0 ==> NodeSize(NodeOf(t.kids[idx - 1])) + NodeSize(NodeOf(u)) - 4 > BTREE_PAGE_SIZE)
      && (idx + 1 < |t.kids| ==> NodeSize(NodeOf(t.kids[idx + 1])) + NodeSize(NodeOf(u)) - 4 > BTREE_PAGE_SIZE)
  {
    if NodeSize(NodeOf(u)) > BTREE_PAGE_SIZE / 4 then 0
    else if idx > 0 && NodeSize(NodeOf(t.kids[idx - 1])) + NodeSize(NodeOf(u)) - 4 <= BTREE_PAGE_SIZE then -1
    else if idx + 1 < |t.kids| && NodeSize(NodeOf(t.kids[idx + 1])) + NodeSize(NodeOf(u)) - 4 <= BTREE_PAGE_SIZE then 1
    else 0
  }

  /**
   * The internal node treeDelete builds once the child at idx came back
   * rebuilt as u, when the store hands out ids from next: the child merged
   * with a sibling into one page, an empty node when the only child became
   * empty, or the child's entry replaced by u's.
   */
  function Rebalanced(t: Tree, h: nat, idx: nat, u: Tree, next: nat): (g: Grown)
    requires t.Inner? && Good(t, h) && idx < |t.kids| && (u.Leaf? <==> h == 1) && next < U64_LIMIT
    ensures g.tree.Inner? && |g.tree.kids| == |g.tree.entries| && next <= g.next <= next + 1
  {
    var es, kids := t.entries, t.kids;
    var d := MergeDir(t, idx, u);
    if d < 0 then
      assert KidAt(es, kids, idx - 1, h);
      LeafHeight(kids[idx - 1], h - 1);
      var m := MergeTrees(kids[idx - 1], u);
      Grown(Inner(Replaced2(es, idx - 1, Entry(next, FirstKey(m), [])), kids[..idx - 1] + [m] + kids[idx + 1..]), next + 1)
    else if d > 0 then
      assert KidAt(es, kids, idx + 1, h);
      LeafHeight(kids[idx + 1], h - 1);
      var m := MergeTrees(u, kids[idx + 1]);
      Grown(Inner(Replaced2(es, idx, Entry(next, FirstKey(m), [])), kids[..idx] + [m] + kids[idx + 2..]), next + 1)
    else if |u.entries| == 0 then
      Grown(Inner([], []), next)
    else
      Grown(Inner(es[..idx] + KidEntries([u], next) + es[idx + 1..], kids[..idx] + [u] + kids[idx + 1..]), next + 1)
  }

  /**
   * treeDelete: NotFound when the leaf nodeLookupLE reaches lacks key;
   * otherwise the leaf without it, and each internal node on the way up
   * rebuilt by Rebalanced, or Overflow when one of them exceeds a page.
   */
  function Del(t: Tree, h: nat, key: seq<Byte>, next: nat): (o: Outcome)
    requires Good(t, h) && (t.Inner? ==> |t.entries| > 0) && next + h <= U64_LIMIT
    ensures o.Rebuilt? ==> next <= o.next <= next + h && o.tree.Leaf? == t.Leaf?
    ensures o.Rebuilt? && o.tree.Inner? ==> |o.tree.kids| == |o.tree.entries|
    ensures o.Rebuilt? && t.Inner? ==> NodeSize(NodeOf(o.tree)) <= BTREE_PAGE_SIZE
    decreases t
  {
    var es := t.entries;
    var idx := LookupLE(es, key);
    if t.Leaf? then
      if idx < |es| && es[idx].key == key then Rebuilt(Leaf(Removed(es, idx)), next) else NotFound
    else
      assert KidAt(es, t.kids, idx, h);
      LeafHeight(t.kids[idx], h - 1);
      Up(t, h, idx, Del(t.kids[idx], h - 1, key, next))
  }

  /**
   * One level of treeDelete on the way up: a missing key or a panic below
   * is passed on; a rebuilt child at idx is rebalanced into this node,
   * which panics when it does not fit the one-page buffer.
   */
  function Up(t: Tree, h: nat, idx: nat, o: Outcome): (r: Outcome)
    requires t.Inner? && Good(t, h) && idx < |t.kids|
    requires o.Rebuilt? ==> (o.tree.Leaf? <==> h == 1) && o.next < U64_LIMIT
    ensures r.NotFound? <==> o.NotFound?
    ensures r.Rebuilt? ==> r.tree.Inner? && |r.tree.kids| == |r.tree.entries| && o.Rebuilt?
    ensures r.Rebuilt? ==> o.next <= r.next <= o.next + 1 && NodeSize(NodeOf(r.tree)) <= BTREE_PAGE_SIZE
  {
    match o
    case NotFound => NotFound
    case Overflow => Overflow
    case Rebuilt(u, n) =>
      var g := Rebalanced(t, h, idx, u, n);
      if NodeSize(NodeOf(g.tree)) > BTREE_PAGE_SIZE then Overflow else Rebuilt(g.tree, g.next)
  }

  // ---------------------------------------------------------------------
  // Merging
  // ---------------------------------------------------------------------

  /** nodeMerge keeps the pairs in order, the size less one header, and a well-formed node. */
  lemma MergeSpec(l: Tree, r: Tree, h: nat)
    requires Good(l, h) && Good(r, h)
    ensures l.Leaf? == r.Leaf?
    ensures Contents(MergeTrees(l, r)) == Contents(l) + Contents(r)
    ensures NodeSize(NodeOf(MergeTrees(l, r))) == NodeSize(NodeOf(l)) + NodeSize(NodeOf(r)) - 4
    ensures Good(MergeTrees(l, r), h)
  {
    var m := MergeTrees(l, r);
    DataSizeConcat(l.entries, r.entries);
    if l.Inner? {
      ContentsOfConcat(l.kids, r.kids);
      forall i | 0 <= i < |m.kids|
        ensures KidAt(m.entries, m.kids, i, h)
      {
        if i < |l.kids| {
          assert KidAt(l.entries, l.kids, i, h);
        } else {
          assert KidAt(r.entries, r.kids, i - |l.kids|, h);
        }
      }
    } else {
      forall i | 0 <= i < |m.entries|
        ensures InLimits(m.entries[i])
      {
        if i >= |l.entries| {
          assert m.entries[i] == r.entries[i - |l.entries|];
        }
      }
    }
  }

  /**
   * shouldMerge always merges an empty child that has a sibling: an empty
   * node fits beside any sibling of a page or less.
   */
  lemma EmptyMerges(t: Tree, h: nat, idx: nat, u: Tree)
    requires t.Inner? && Good(t, h) && idx < |t.kids| && |u.entries| == 0 && |t.kids| > 1
    ensures MergeDir(t, idx, u) != 0
  {
    if idx > 0 {
      assert KidAt(t.entries, t.kids, idx - 1, h);
    } else {
      assert KidAt(t.entries, t.kids, idx + 1, h);
    }
  }

  // ---------------------------------------------------------------------
  // Runs of subtrees after a merge
  // ---------------------------------------------------------------------

  /** The pairs under kids with u merged into the sibling before idx. */
  lemma ContentsMergedLeft(kids: seq<Tree>, idx: nat, u: Tree, m: Tree)
    requires 0 < idx < |kids| && Contents(m) == Contents(kids[idx - 1]) + Contents(u)
    ensures ContentsOf(kids[..idx - 1] + [m] + kids[idx + 1..])
         == ContentsOf(kids[..idx]) + Contents(u) + ContentsOf(kids[idx + 1..])
  {
    var p, q, l := kids[..idx - 1], kids[idx + 1..], kids[idx - 1];
    calc {
      ContentsOf(p + [m] + q);
    == { ContentsOfConcat(p + [m], q); }
      ContentsOf(p + [m]) + ContentsOf(q);
    == { ContentsOfConcat(p, [m]); ContentsOfOne(m); }
      ContentsOf(p) + (Contents(l) + Contents(u)) + ContentsOf(q);
    ==
      (ContentsOf(p) + Contents(l)) + Contents(u) + ContentsOf(q);
    == { TakeOneMore(kids, idx - 1); ContentsOfConcat(p, [l]); ContentsOfOne(l); }
      ContentsOf(kids[..idx]) + Contents(u) + ContentsOf(q);
    }
  }

  /** The pairs under kids with the sibling after idx merged into u. */
  lemma ContentsMergedRight(kids: seq<Tree>, idx: nat, u: Tree, m: Tree)
    requires idx + 1 < |kids| && Contents(m) == Contents(u) + Contents(kids[idx + 1])
    ensures ContentsOf(kids[..idx] + [m] + kids[idx + 2..])
         == ContentsOf(kids[..idx]) + Contents(u) + ContentsOf(kids[idx + 1..])
  {
    var p, q, r := kids[..idx], kids[idx + 2..], kids[idx + 1];
    calc {
      ContentsOf(p + [m] + q);
    == { ContentsOfConcat(p + [m], q); }
      ContentsOf(p + [m]) + ContentsOf(q);
    == { ContentsOfConcat(p, [m]); ContentsOfOne(m); }
      ContentsOf(p) + (Contents(u) + Contents(r)) + ContentsOf(q);
    ==
      ContentsOf(p) + Contents(u) + (Contents(r) + ContentsOf(q));
    == { DropOne(kids, idx + 1); ContentsOfConcat([r], q); ContentsOfOne(r); }
      ContentsOf(p) + Contents(u) + ContentsOf(kids[idx + 1..]);
    }
  }

  /** The pairs under kids with the child at idx replaced by u. */
  lemma ContentsSwapped(kids: seq<Tree>, idx: nat, u: Tree)
    requires idx < |kids|
    ensures ContentsOf(kids[..idx] + [u] + kids[idx + 1..])
         == ContentsOf(kids[..idx]) + Contents(u) + ContentsOf(kids[idx + 1..])
  {
    ContentsReplaced(kids, idx, [u]);
    ContentsOfOne(u);
  }

  /** Element i of a sequence whose elements j and j + 1 were replaced by x. */
  lemma CollapsedAt<T>(s: seq<T>, j: nat, x: T, i: nat)
    requires j + 1 < |s| && i < |s| - 1
    ensures |s[..j] + [x] + s[j + 2..]| == |s| - 1
    ensures (s[..j] + [x] + s[j + 2..])[i] == if i < j then s[i] else if i == j then x else s[i + 1]
  {
  }

  /**
   * An internal node whose children j and j + 1 were replaced by one
   * well-formed child m stored under e: still well formed.
   */
  lemma GoodCollapsed(t: Tree, h: nat, j: nat, m: Tree, e: Entry)
    requires t.Inner? && Good(t, h) && j + 1 < |t.kids|
    requires Good(m, h - 1) && NodeSize(NodeOf(m)) <= BTREE_PAGE_SIZE && |m.entries| > 0
    requires e.key == FirstKey(m) && e.val == []
    ensures Good(Inner(Replaced2(t.entries, j, e), t.kids[..j] + [m] + t.kids[j + 2..]), h)
  {
    var es, kids := t.entries, t.kids;
    var es', kids' := Replaced2(es, j, e), kids[..j] + [m] + kids[j + 2..];
    forall i | 0 <= i < |kids'|
      ensures KidAt(es', kids', i, h)
    {
      CollapsedAt(kids, j, m, i);
      if i < j {
        assert KidAt(es, kids, i, h);
      } else if i > j {
        assert KidAt(es, kids, i + 1, h);
      }
    }
  }

  // ---------------------------------------------------------------------
  // treeDelete
  // ---------------------------------------------------------------------

  /** With every key of a below key and every key of c above it, only b can hold key. */
  lemma FindMiddle(a: seq<Entry>, b: seq<Entry>, c: seq<Entry>, key: seq<Byte>)
    requires AllBelow(a, key) && AllAbove(c, key)
    ensures Find(a + b + c, key) == Find(b, key)
  {
    FindConcat(a + b, c, key);
    FindConcat(a, b, key);
    FindMissing(a, key);
    FindMissing(c, key);
  }

  /** On a sorted leaf, leafDelete at the index nodeLookupLE finds is Remove, and it happens just when key is there. */
  lemma LeafRemove(es: seq<Entry>, key: seq<Byte>)
    requires KeysSorted(es) && (es != [] ==> Compare(es[0].key, key) <= 0)
    ensures (LookupLE(es, key) < |es| && es[LookupLE(es, key)].key == key) <==> Find(es, key).Some?
    ensures LookupLE(es, key) < |es| && es[LookupLE(es, key)].key == key ==>
      Removed(es, LookupLE(es, key)) == Remove(es, key)
  {
    if es != [] {
      var idx := LookupLE(es, key);
      LookupLEBounds(es, key);
      var a, x, c := es[..idx], es[idx], es[idx + 1..];
      Around(es, idx);
      if c != [] {
        assert c[0] == es[idx + 1];
      }
      Bracket(a, [x], c, key);
      FindMiddle(a, [x], c, key);
      RemoveMiddle(a, [x], c, key);
      RemoveOne(x, key);
      if x.key == key {
        EmptyMiddle(a, c);
        assert Removed(es, idx) == a + c;
      }
    }
  }

  /** Find and Remove on a single pair. */
  lemma RemoveOne(x: Entry, key: seq<Byte>)
    ensures Find([x], key) == if x.key == key then Some(x.val) else None
    ensures Remove([x], key) == if x.key == key then [] else [x]
  {
    assert [x][1..] == [];
    if x.key == key {
      WhereNone([x], key, -1);
      WhereNone([x], key, 1);
    } else if Compare(x.key, key) < 0 {
      WhereAll([x], key, -1);
      WhereNone([x], key, 1);
    } else {
      WhereNone([x], key, -1);
      WhereAll([x], key, 1);
    }
  }

  lemma EmptyMiddle<T>(a: seq<T>, c: seq<T>)
    ensures a + [] + c == a + c
  {
  }

  // ---------------------------------------------------------------------
  // treeDelete: correctness
  // ---------------------------------------------------------------------

  /**
   * treeDelete under a well-formed sorted tree whose first key is at most
   * key: it reports a missing key exactly when key has no pair; when it
   * rebuilds the node, the node holds Remove of the old pairs, is well
   * formed and fits a page.
   */
  lemma {:induction false} DelSpec(t: Tree, h: nat, key: seq<Byte>, next: nat)
    requires Good(t, h) && (t.Inner? ==> |t.entries| > 0) && next + h <= U64_LIMIT
    requires NodeSize(NodeOf(t)) <= BTREE_PAGE_SIZE && KeysSorted(Contents(t)) && Compare(FirstKey(t), key) <= 0
    ensures Del(t, h, key, next).NotFound? <==> Find(Contents(t), key) == None
    ensures Del(t, h, key, next).Rebuilt? ==>
      && Contents(Del(t, h, key, next).tree) == Remove(Contents(t), key)
      && Good(Del(t, h, key, next).tree, h)
      && NodeSize(NodeOf(Del(t, h, key, next).tree)) <= BTREE_PAGE_SIZE
    decreases t, 1
  {
    if t.Leaf? {
      DelLeaf(t, key, next);
    } else {
      DelInner(t, h, key, next);
    }
  }

  lemma DelLeaf(t: Tree, key: seq<Byte>, next: nat)
    requires t.Leaf? && Good(t, 0) && next <= U64_LIMIT
    requires NodeSize(NodeOf(t)) <= BTREE_PAGE_SIZE && KeysSorted(t.entries) && Compare(FirstKey(t), key) <= 0
    ensures Del(t, 0, key, next).NotFound? <==> Find(t.entries, key) == None
    ensures Del(t, 0, key, next).Rebuilt? ==>
      && Del(t, 0, key, next).tree.entries == Remove(t.entries, key)
      && Good(Del(t, 0, key, next).tree, 0)
      && NodeSize(NodeOf(Del(t, 0, key, next).tree)) <= BTREE_PAGE_SIZE
  {
    var es := t.entries;
    var idx := LookupLE(es, key);
    LeafRemove(es, key);
    if idx < |es| && es[idx].key == key {
      SizeReplaced(es, idx, []);
      EmptyMiddle(es[..idx], es[idx + 1..]);
    }
  }

  lemma {:induction false} DelInner(t: Tree, h: nat, key: seq<Byte>, next: nat)
    requires t.Inner? && Good(t, h) && |t.entries| > 0 && next + h <= U64_LIMIT
    requires NodeSize(NodeOf(t)) <= BTREE_PAGE_SIZE && KeysSorted(Contents(t)) && Compare(FirstKey(t), key) <= 0
    ensures Del(t, h, key, next).NotFound? <==> Find(Contents(t), key) == None
    ensures Del(t, h, key, next).Rebuilt? ==>
      && Contents(Del(t, h, key, next).tree) == Remove(Contents(t), key)
      && Good(Del(t, h, key, next).tree, h)
    decreases t, 0
  {
    var es, kids := t.entries, t.kids;
    var idx := LookupLE(es, key);
    LookupLEBounds(es, key);
    RouteKid(t, h, key, idx);
    assert KidAt(es, kids, idx, h);
    DelSpec(kids[idx], h - 1, key, next);
    LeafHeight(kids[idx], h - 1);
    DelStep(t, h, key, idx, Del(kids[idx], h - 1, key, next));
  }

  /**
   * The step of treeDelete at an internal node, for any outcome of the
   * child at idx that meets DelSpec.
   */
  lemma DelStep(t: Tree, h: nat, key: seq<Byte>, idx: nat, o: Outcome)
    requires t.Inner? && Good(t, h) && |t.entries| > 0 && KeysSorted(Contents(t))
    requires idx < |t.entries| && Compare(t.entries[idx].key, key) <= 0
    requires idx + 1 < |t.entries| && t.entries[idx].key != key ==> Compare(t.entries[idx + 1].key, key) > 0
    requires o.NotFound? <==> Find(Contents(t.kids[idx]), key) == None
    requires o.Rebuilt? ==>
      && Contents(o.tree) == Remove(Contents(t.kids[idx]), key) && Good(o.tree, h - 1)
      && NodeSize(NodeOf(o.tree)) <= BTREE_PAGE_SIZE && o.next < U64_LIMIT && (o.tree.Leaf? <==> h == 1)
    ensures Up(t, h, idx, o).NotFound? <==> Find(Contents(t), key) == None
    ensures Up(t, h, idx, o).Rebuilt? ==>
      Contents(Up(t, h, idx, o).tree) == Remove(Contents(t), key) && Good(Up(t, h, idx, o).tree, h)
  {
    var kids := t.kids;
    Route(t, h, key, idx);
    var a, b, c := ContentsOf(kids[..idx]), Contents(kids[idx]), ContentsOf(kids[idx + 1..]);
    FindMiddle(a, b, c, key);
    if o.Rebuilt? {
      RemoveMiddle(a, b, c, key);
      RebalancedSpec(t, h, idx, o.tree, o.next);
    }
  }

  /**
   * The node Rebalanced builds holds the pairs of the children before idx,
   * then those of u, then those of the children after idx, and is well
   * formed.
   */
  lemma RebalancedSpec(t: Tree, h: nat, idx: nat, u: Tree, next: nat)
    requires t.Inner? && Good(t, h) && idx < |t.kids| && (u.Leaf? <==> h == 1) && next < U64_LIMIT
    requires Good(u, h - 1) && NodeSize(NodeOf(u)) <= BTREE_PAGE_SIZE
    ensures Contents(Rebalanced(t, h, idx, u, next).tree)
         == ContentsOf(t.kids[..idx]) + Contents(u) + ContentsOf(t.kids[idx + 1..])
    ensures Good(Rebalanced(t, h, idx, u, next).tree, h)
  {
    var d := MergeDir(t, idx, u);
    if d < 0 {
      RebalancedLeft(t, h, idx, u, next);
    } else if d > 0 {
      RebalancedRight(t, h, idx, u, next);
    } else if |u.entries| == 0 {
      RebalancedEmpty(t, h, idx, u, next);
    } else {
      RebalancedKept(t, h, idx, u, next);
    }
  }

  /** Merging the shrunk kid into its left sibling. */
  lemma RebalancedLeft(t: Tree, h: nat, idx: nat, u: Tree, next: nat)
    requires t.Inner? && Good(t, h) && idx < |t.kids| && (u.Leaf? <==> h == 1) && next < U64_LIMIT
    requires Good(u, h - 1) && NodeSize(NodeOf(u)) <= BTREE_PAGE_SIZE
    requires MergeDir(t, idx, u) < 0
    ensures Contents(Rebalanced(t, h, idx, u, next).tree)
         == ContentsOf(t.kids[..idx]) + Contents(u) + ContentsOf(t.kids[idx + 1..])
    ensures Good(Rebalanced(t, h, idx, u, next).tree, h)
  {
    var es, kids := t.entries, t.kids;
    assert KidAt(es, kids, idx - 1, h);
    MergeSpec(kids[idx - 1], u, h - 1);
    var m := MergeTrees(kids[idx - 1], u);
    ContentsMergedLeft(kids, idx, u, m);
    GoodCollapsed(t, h, idx - 1, m, Entry(next, FirstKey(m), []));
  }

  /** Merging the shrunk kid with its right sibling. */
  lemma RebalancedRight(t: Tree, h: nat, idx: nat, u: Tree, next: nat)
    requires t.Inner? && Good(t, h) && idx < |t.kids| && (u.Leaf? <==> h == 1) && next < U64_LIMIT
    requires Good(u, h - 1) && NodeSize(NodeOf(u)) <= BTREE_PAGE_SIZE
    requires MergeDir(t, idx, u) > 0
    ensures Contents(Rebalanced(t, h, idx, u, next).tree)
         == ContentsOf(t.kids[..idx]) + Contents(u) + ContentsOf(t.kids[idx + 1..])
    ensures Good(Rebalanced(t, h, idx, u, next).tree, h)
  {
    var es, kids := t.entries, t.kids;
    assert KidAt(es, kids, idx + 1, h);
    MergeSpec(u, kids[idx + 1], h - 1);
    var m := MergeTrees(u, kids[idx + 1]);
    ContentsMergedRight(kids, idx, u, m);
    GoodCollapsed(t, h, idx, m, Entry(next, FirstKey(m), []));
  }

  /** An only kid that became empty leaves an empty internal node. */
  lemma RebalancedEmpty(t: Tree, h: nat, idx: nat, u: Tree, next: nat)
    requires t.Inner? && Good(t, h) && idx < |t.kids| && (u.Leaf? <==> h == 1) && next < U64_LIMIT
    requires Good(u, h - 1) && NodeSize(NodeOf(u)) <= BTREE_PAGE_SIZE
    requires MergeDir(t, idx, u) == 0 && |u.entries| == 0
    ensures Contents(Rebalanced(t, h, idx, u, next).tree)
         == ContentsOf(t.kids[..idx]) + Contents(u) + ContentsOf(t.kids[idx + 1..])
    ensures Good(Rebalanced(t, h, idx, u, next).tree, h)
  {
    var kids := t.kids;
    if |kids| > 1 {
      EmptyMerges(t, h, idx, u);
    }
    EmptyContents(u, h - 1);
    assert kids[..idx] == [] && kids[idx + 1..] == [];
  }

  /** Without a merge the shrunk kid takes its old place. */
  lemma RebalancedKept(t: Tree, h: nat, idx: nat, u: Tree, next: nat)
    requires t.Inner? && Good(t, h) && idx < |t.kids| && (u.Leaf? <==> h == 1) && next < U64_LIMIT
    requires Good(u, h - 1) && NodeSize(NodeOf(u)) <= BTREE_PAGE_SIZE
    requires MergeDir(t, idx, u) == 0 && |u.entries| > 0
    ensures Contents(Rebalanced(t, h, idx, u, next).tree)
         == ContentsOf(t.kids[..idx]) + Contents(u) + ContentsOf(t.kids[idx + 1..])
    ensures Good(Rebalanced(t, h, idx, u, next).tree, h)
  {
    ContentsSwapped(t.kids, idx, u);
    GoodReplaced(t, h, idx, [u], next);
  }
}
