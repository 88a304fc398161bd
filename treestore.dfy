/**
 * How a tree sits in the page store of core/btree.go. The store is a map
 * from page id to page bytes; a tree is stored when the page its root
 * lives at holds the root node, and the page each child pointer names
 * holds that child, all the way down. Rewritten and Stacked describe how
 * treeInsert and treeDelete change the store: the pages they free, the
 * pages they add under fresh ids, and every other page kept as it was.
 */
module TreeStore {
  import opened Bytes
  import opened Node
  import opened Tree
  import opened PageIds
  import opened MemStore

  type Pages = map<nat, seq<Byte>>

  /** Page ptr holds the node of t, and the pages t's entries name hold its subtrees. */
  ghost predicate Stored(p: Pages, ptr: nat, t: Tree)
    decreases t, 2
  {
    ptr in p && IsNode(p[ptr], NodeOf(t)) && KidsStored(p, t)
  }

  /** The subtrees of t are stored under the pointers of its entries. */
  ghost predicate KidsStored(p: Pages, t: Tree)
    decreases t, 1
  {
    t.Inner? ==> StoredRun(p, t.entries, t.kids)
  }

  /** Each child of a run is stored under the pointer of its entry. */
  ghost predicate StoredRun(p: Pages, es: seq<Entry>, kids: seq<Tree>)
    decreases kids, 0
  {
    |es| == |kids| && forall i :: 0 <= i < |kids| ==> Stored(p, es[i].ptr, kids[i])
  }

  /** The pages of s that p has are in p' with the same bytes. */
  ghost predicate Agree(p: Pages, p': Pages, s: set<nat>)
  {
    forall q :: q in s && q in p ==> q in p' && p'[q] == p[q]
  }

  /**
   * p' is p after freeing the pages freed and adding pages under the ids
   * lo .. hi - 1: every other page is kept, no freed page is left (unless
   * its id was handed out again), and no other page appears.
   */
  ghost predicate Rewritten(p: Pages, p': Pages, freed: set<nat>, lo: nat, hi: nat)
  {
    && (forall q :: q in p && q !in freed && !(lo <= q < hi) ==> q in p' && p'[q] == p[q])
    && (forall q :: q in freed && q in p' ==> lo <= q < hi)
    && (forall q :: q in p' ==> q in p || lo <= q < hi)
  }

  /** The store after New of each of the first k of ps in turn, starting with id n. */
  ghost function Stacked(p: Pages, ps: seq<seq<Byte>>, k: nat, n: nat): Pages
    requires k <= |ps|
  {
    if k == 0 then p else Stacked(p, ps, k - 1, n)[n + k - 1 := Padded(ps[k - 1])]
  }

  // ---------------------------------------------------------------------
  // Frames
  // ---------------------------------------------------------------------

  /** A stored tree stays stored when its pages are kept. */
  lemma {:induction false} StoredFrame(p: Pages, p': Pages, ptr: nat, t: Tree)
    requires Stored(p, ptr, t) && Agree(p, p', {ptr} + Below(t))
    ensures Stored(p', ptr, t)
    decreases t, 1
  {
    if t.Inner? {
      RunFrame(p, p', t.entries, t.kids);
    }
  }

  /** A stored run stays stored when its pages are kept. */
  lemma {:induction false} RunFrame(p: Pages, p': Pages, es: seq<Entry>, kids: seq<Tree>)
    requires StoredRun(p, es, kids) && Agree(p, p', BelowOf(es, kids))
    ensures StoredRun(p', es, kids)
    decreases kids, 0
  {
    forall i | 0 <= i < |kids|
      ensures Stored(p', es[i].ptr, kids[i])
    {
      UnderIn(es, kids, i);
      StoredFrame(p, p', es[i].ptr, kids[i]);
    }
  }

  /** The subtrees of a node stay stored when the pages below it are kept. */
  lemma KidsFrame(p: Pages, p': Pages, t: Tree)
    requires KidsStored(p, t) && Agree(p, p', Below(t))
    ensures KidsStored(p', t)
  {
    if t.Inner? {
      RunFrame(p, p', t.entries, t.kids);
    }
  }

  /** Pages that were neither freed nor handed out again are kept. */
  lemma RewrittenAgree(p: Pages, p': Pages, freed: set<nat>, lo: nat, hi: nat, s: set<nat>)
    requires Rewritten(p, p', freed, lo, hi) && s !! freed && IdsBelow(s, lo)
    ensures Agree(p, p', s)
  {
  }

  /** Two rewrites in a row free both sets and add pages over both ranges of ids. */
  lemma RewrittenTrans(p0: Pages, p1: Pages, p2: Pages, f1: set<nat>, f2: set<nat>, lo: nat, mid: nat, hi: nat)
    requires lo <= mid <= hi && Rewritten(p0, p1, f1, lo, mid) && Rewritten(p1, p2, f2, mid, hi)
    ensures Rewritten(p0, p2, f1 + f2, lo, hi)
  {
  }

  /** One page stacked is one page stored. */
  lemma StackedOne(p: Pages, ps: seq<seq<Byte>>, n: nat)
    requires |ps| >= 1
    ensures Stacked(p, ps, 1, n) == p[n := Padded(ps[0])]
  {
  }

  /** One more page stored under the next id extends a rewrite by that id. */
  lemma RewrittenNew(p0: Pages, p: Pages, freed: set<nat>, lo: nat, n: nat, page: seq<Byte>)
    requires lo <= n && Rewritten(p0, p, freed, lo, n)
    ensures Rewritten(p0, p[n := page], freed, lo, n + 1)
  {
  }

  /** Nothing changed is a rewrite that frees nothing. */
  lemma RewrittenNone(p: Pages, n: nat)
    ensures Rewritten(p, p, {}, n, n)
  {
  }

  // ---------------------------------------------------------------------
  // Stacked pages
  // ---------------------------------------------------------------------

  /** The first k of ps stored from id n on, and every other page as before. */
  lemma {:induction false} StackedAt(p: Pages, ps: seq<seq<Byte>>, k: nat, n: nat)
    requires k <= |ps|
    ensures forall q :: q in Stacked(p, ps, k, n) <==> q in p || n <= q < n + k
    ensures forall j :: 0 <= j < k ==> Stacked(p, ps, k, n)[n + j] == Padded(ps[j])
    ensures forall q :: q in p && !(n <= q < n + k) ==> Stacked(p, ps, k, n)[q] == p[q]
  {
    if k > 0 {
      StackedAt(p, ps, k - 1, n);
    }
  }

  /** Freeing ptr and storing ps from n on is a rewrite of the store. */
  lemma DelStacked(p: Pages, ptr: nat, ps: seq<seq<Byte>>, n: nat)
    ensures Rewritten(p, Stacked(p - {ptr}, ps, |ps|, n), {ptr}, n, n + |ps|)
  {
    StackedAt(p - {ptr}, ps, |ps|, n);
  }

  /**
   * Pieces stored as whole pages from id n on, each holding its node,
   * with their subtrees stored, form a stored run under KidEntries.
   */
  lemma StackedRun(base: Pages, ps: seq<seq<Byte>>, kids: seq<Tree>, n: nat)
    requires |ps| == |kids| && n + |kids| <= U64_LIMIT
    requires forall j :: 0 <= j < |ps| ==> |ps[j]| >= BTREE_PAGE_SIZE && IsNode(ps[j], NodeOf(kids[j]))
    requires forall j :: 0 <= j < |kids| ==> KidsStored(Stacked(base, ps, |ps|, n), kids[j])
    ensures StoredRun(Stacked(base, ps, |ps|, n), KidEntries(kids, n), kids)
  {
    var p, es := Stacked(base, ps, |ps|, n), KidEntries(kids, n);
    StackedAt(base, ps, |ps|, n);
    forall j | 0 <= j < |kids|
      ensures Stored(p, es[j].ptr, kids[j])
    {
      assert es[j].ptr == n + j && p[n + j] == Padded(ps[j]) == ps[j];
    }
  }

  // ---------------------------------------------------------------------
  // Runs
  // ---------------------------------------------------------------------

  /** A part of a stored run is stored. */
  lemma RunSlice(p: Pages, es: seq<Entry>, kids: seq<Tree>, a: nat, b: nat)
    requires StoredRun(p, es, kids) && a <= b <= |kids|
    ensures StoredRun(p, es[a..b], kids[a..b])
  {
    forall i | 0 <= i < b - a
      ensures Stored(p, es[a..b][i].ptr, kids[a..b][i])
    {
      assert es[a..b][i] == es[a + i] && kids[a..b][i] == kids[a + i];
    }
  }

  /** Three stored runs in a row are a stored run. */
  lemma RunConcat(p: Pages, e1: seq<Entry>, k1: seq<Tree>, e2: seq<Entry>, k2: seq<Tree>, e3: seq<Entry>, k3: seq<Tree>)
    requires StoredRun(p, e1, k1) && StoredRun(p, e2, k2) && StoredRun(p, e3, k3)
    ensures StoredRun(p, e1 + e2 + e3, k1 + k2 + k3)
  {
    var es, kids := e1 + e2 + e3, k1 + k2 + k3;
    forall i | 0 <= i < |kids|
      ensures Stored(p, es[i].ptr, kids[i])
    {
      if i < |k1| {
        assert es[i] == e1[i] && kids[i] == k1[i];
      } else if i < |k1| + |k2| {
        assert es[i] == e2[i - |k1|] && kids[i] == k2[i - |k1|];
      } else {
        assert es[i] == e3[i - |k1| - |k2|] && kids[i] == k3[i - |k1| - |k2|];
      }
    }
  }

  /** The subtrees of a slice of a node are stored when the node's are. */
  lemma KidsSlice(p: Pages, t: Tree, a: nat, b: nat)
    requires KidsStored(p, t) && a <= b <= |t.entries| && (t.Inner? ==> |t.kids| == |t.entries|)
    ensures KidsStored(p, Slice(t, a, b))
  {
    if t.Inner? {
      RunSlice(p, t.entries, t.kids, a, b);
    }
  }

  // ---------------------------------------------------------------------
  // Runs kept around a rewritten part
  // ---------------------------------------------------------------------

  /** Set facts behind KeptAround: the parts beside the freed part are apart from it and below lo. */
  lemma SidesApart(s1: set<nat>, s2: set<nat>, s3: set<nat>, freed: set<nat>, lo: nat)
    requires freed <= s2 && s1 !! s2 && s2 !! s3 && IdsBelow(s1 + s2 + s3, lo)
    ensures s1 !! freed && s3 !! freed && IdsBelow(s1, lo) && IdsBelow(s3, lo)
  {
  }

  /** A stored run none of whose pages was freed or handed out again stays stored. */
  lemma KeptRun(p: Pages, p': Pages, es: seq<Entry>, kids: seq<Tree>, freed: set<nat>, lo: nat, hi: nat)
    requires StoredRun(p, es, kids) && BelowOf(es, kids) !! freed && IdsBelow(BelowOf(es, kids), lo)
    requires Rewritten(p, p', freed, lo, hi)
    ensures StoredRun(p', es, kids)
  {
    RewrittenAgree(p, p', freed, lo, hi, BelowOf(es, kids));
    RunFrame(p, p', es, kids);
  }

  /** The children before a and from b on of a stored run are stored runs. */
  lemma RunSides(p: Pages, es: seq<Entry>, kids: seq<Tree>, a: nat, b: nat)
    requires StoredRun(p, es, kids) && a <= b <= |kids|
    ensures StoredRun(p, es[..a], kids[..a]) && StoredRun(p, es[b..], kids[b..])
  {
    RunSlice(p, es, kids, 0, a);
    RunSlice(p, es, kids, b, |kids|);
    assert es[0..a] == es[..a] && kids[0..a] == kids[..a];
    assert es[b..|kids|] == es[b..] && kids[b..|kids|] == kids[b..];
  }

  /** The children a .. b - 1 of a stored node, when only their pages were freed: the others stay stored. */
  lemma KeptAround(p: Pages, p': Pages, t: Tree, a: nat, b: nat, freed: set<nat>, lo: nat, hi: nat)
    requires t.Inner? && KidsStored(p, t) && Apart(t) && IdsBelow(Below(t), lo) && a <= b <= |t.kids|
    requires freed <= BelowOf(t.entries[a..b], t.kids[a..b]) && Rewritten(p, p', freed, lo, hi)
    ensures StoredRun(p', t.entries[..a], t.kids[..a]) && StoredRun(p', t.entries[b..], t.kids[b..])
  {
    var es, kids := t.entries, t.kids;
    Cut(es, kids, a, b);
    Parts3(es[..a], kids[..a], es[a..b], kids[a..b], es[b..], kids[b..]);
    var s1, s2, s3 := BelowOf(es[..a], kids[..a]), BelowOf(es[a..b], kids[a..b]), BelowOf(es[b..], kids[b..]);
    SidesApart(s1, s2, s3, freed, lo);
    RunSides(p, es, kids, a, b);
    KeptRun(p, p', es[..a], kids[..a], freed, lo, hi);
    KeptRun(p, p', es[b..], kids[b..], freed, lo, hi);
  }

  /** Children a .. b - 1 replaced by a stored run, the others' pages kept: the subtrees are stored. */
  lemma ReplaceStored(p: Pages, p': Pages, t: Tree, a: nat, b: nat, es2: seq<Entry>, kids2: seq<Tree>,
                      freed: set<nat>, lo: nat, hi: nat)
    requires t.Inner? && KidsStored(p, t) && Apart(t) && IdsBelow(Below(t), lo) && a <= b <= |t.kids|
    requires freed <= BelowOf(t.entries[a..b], t.kids[a..b]) && Rewritten(p, p', freed, lo, hi)
    requires StoredRun(p', es2, kids2)
    ensures KidsStored(p', Inner(t.entries[..a] + es2 + t.entries[b..], t.kids[..a] + kids2 + t.kids[b..]))
  {
    KeptAround(p, p', t, a, b, freed, lo, hi);
    RunConcat(p', t.entries[..a], t.kids[..a], es2, kids2, t.entries[b..], t.kids[b..]);
  }
}
