/**
 * The page ids a tree occupies in the page store of core/btree.go. An
 * internal node names each child page by the ptr field of its entry; the
 * tree is kept so that no id is named twice (Apart). treeInsert and
 * treeDelete free the pages of the nodes they rebuild (t.del) and store
 * the rebuilt ones under fresh ids (t.new); Descent and DelFreed say which
 * ids are freed, and InsIds and DelIds that the rebuilt tree uses only
 * ids it kept or took fresh, each once.
 */
module PageIds {
  import opened Bytes
  import opened Node
  import opened NodeOps
  import opened Tree
  import opened TreeDelete

  /** The ids of the pages below t: each child page and everything under it. */
  ghost function Below(t: Tree): set<nat>
    decreases t, 1
  {
    if t.Leaf? || |t.entries| != |t.kids| then {} else BelowOf(t.entries, t.kids)
  }

  /** The ids of a run of children stored under the entries es, and of everything under them. */
  ghost function BelowOf(es: seq<Entry>, kids: seq<Tree>): set<nat>
    requires |es| == |kids|
    decreases kids, 0
  {
    if kids == [] then {}
    else BelowOf(es[..|es| - 1], kids[..|kids| - 1]) + Under(es[|es| - 1], kids[|kids| - 1])
  }

  /** The id of one child page and the ids under it. */
  ghost function Under(e: Entry, kid: Tree): set<nat>
    decreases kid, 2
  {
    {e.ptr} + Below(kid)
  }

  /** No page id occurs twice under t. */
  ghost predicate Apart(t: Tree)
    decreases t, 1
  {
    t.Leaf? || (|t.entries| == |t.kids| && ApartOf(t.entries, t.kids))
  }

  ghost predicate ApartOf(es: seq<Entry>, kids: seq<Tree>)
    requires |es| == |kids|
    decreases kids, 0
  {
    kids == [] || (
      && ApartOf(es[..|es| - 1], kids[..|kids| - 1])
      && ApartOne(es[|es| - 1], kids[|kids| - 1])
      && Under(es[|es| - 1], kids[|kids| - 1]) !! BelowOf(es[..|es| - 1], kids[..|kids| - 1]))
  }

  ghost predicate ApartOne(e: Entry, kid: Tree)
    decreases kid, 2
  {
    Apart(kid) && e.ptr !in Below(kid)
  }

  /** Every id of s was handed out before n. */
  ghost predicate IdsBelow(s: set<nat>, n: nat)
  {
    forall q :: q in s ==> q < n
  }

  /** Every id of s is one of kept or was handed out by the counter from lo to hi. */
  ghost predicate Within(s: set<nat>, kept: set<nat>, lo: nat, hi: nat)
  {
    forall q :: q in s ==> q in kept || lo <= q < hi
  }

  // ---------------------------------------------------------------------
  // Runs of children
  // ---------------------------------------------------------------------

  lemma {:induction false} BelowOfConcat(e1: seq<Entry>, k1: seq<Tree>, e2: seq<Entry>, k2: seq<Tree>)
    requires |e1| == |k1| && |e2| == |k2|
    ensures BelowOf(e1 + e2, k1 + k2) == BelowOf(e1, k1) + BelowOf(e2, k2)
    decreases |k2|
  {
    if k2 == [] {
      assert e1 + e2 == e1 && k1 + k2 == k1;
    } else {
      assert (e1 + e2)[..|e1 + e2| - 1] == e1 + e2[..|e2| - 1];
      assert (k1 + k2)[..|k1 + k2| - 1] == k1 + k2[..|k2| - 1];
      BelowOfConcat(e1, k1, e2[..|e2| - 1], k2[..|k2| - 1]);
    }
  }

  lemma {:induction false} ApartOfConcat(e1: seq<Entry>, k1: seq<Tree>, e2: seq<Entry>, k2: seq<Tree>)
    requires |e1| == |k1| && |e2| == |k2|
    ensures ApartOf(e1 + e2, k1 + k2)
        <==> ApartOf(e1, k1) && ApartOf(e2, k2) && BelowOf(e1, k1) !! BelowOf(e2, k2)
    decreases |k2|
  {
    if k2 == [] {
      assert e1 + e2 == e1 && k1 + k2 == k1;
    } else {
      var e2', k2' := e2[..|e2| - 1], k2[..|k2| - 1];
      assert (e1 + e2)[..|e1 + e2| - 1] == e1 + e2';
      assert (k1 + k2)[..|k1 + k2| - 1] == k1 + k2';
      ApartOfConcat(e1, k1, e2', k2');
      BelowOfConcat(e1, k1, e2', k2');
    }
  }

  lemma BelowOfOne(e: Entry, kid: Tree)
    ensures BelowOf([e], [kid]) == Under(e, kid)
    ensures ApartOf([e], [kid]) <==> ApartOne(e, kid)
  {
    assert [e][..0] == [] && [kid][..0] == [];
  }

  /** A run cut into three parts: its ids are theirs, apart exactly when each part is and no two share an id. */
  lemma Parts3(e1: seq<Entry>, k1: seq<Tree>, e2: seq<Entry>, k2: seq<Tree>, e3: seq<Entry>, k3: seq<Tree>)
    requires |e1| == |k1| && |e2| == |k2| && |e3| == |k3|
    ensures BelowOf(e1 + e2 + e3, k1 + k2 + k3) == BelowOf(e1, k1) + BelowOf(e2, k2) + BelowOf(e3, k3)
    ensures ApartOf(e1 + e2 + e3, k1 + k2 + k3) <==>
      && ApartOf(e1, k1) && ApartOf(e2, k2) && ApartOf(e3, k3)
      && BelowOf(e1, k1) !! BelowOf(e2, k2) && BelowOf(e1, k1) !! BelowOf(e3, k3)
      && BelowOf(e2, k2) !! BelowOf(e3, k3)
  {
    BelowOfConcat(e1 + e2, k1 + k2, e3, k3);
    BelowOfConcat(e1, k1, e2, k2);
    ApartOfConcat(e1 + e2, k1 + k2, e3, k3);
    ApartOfConcat(e1, k1, e2, k2);
  }

  /** A node's children cut at a and b. */
  lemma Cut(es: seq<Entry>, kids: seq<Tree>, a: nat, b: nat)
    requires |es| == |kids| && a <= b <= |kids|
    ensures es == es[..a] + es[a..b] + es[b..] && kids == kids[..a] + kids[a..b] + kids[b..]
  {
  }

  /** Child i of a run, with its page id, is part of the run's ids. */
  lemma UnderIn(es: seq<Entry>, kids: seq<Tree>, i: nat)
    requires |es| == |kids| && i < |kids|
    ensures Under(es[i], kids[i]) <= BelowOf(es, kids)
    ensures ApartOf(es, kids) ==> ApartOne(es[i], kids[i])
  {
    Cut(es, kids, i, i + 1);
    Parts3(es[..i], kids[..i], es[i..i + 1], kids[i..i + 1], es[i + 1..], kids[i + 1..]);
    assert es[i..i + 1] == [es[i]] && kids[i..i + 1] == [kids[i]];
    BelowOfOne(es[i], kids[i]);
  }

  /** Two adjacent children j and j + 1. */
  lemma BelowOfTwo(es: seq<Entry>, kids: seq<Tree>, j: nat)
    requires |es| == |kids| && j + 1 < |kids|
    ensures BelowOf(es[j..j + 2], kids[j..j + 2]) == Under(es[j], kids[j]) + Under(es[j + 1], kids[j + 1])
    ensures ApartOf(es[j..j + 2], kids[j..j + 2]) ==>
      ApartOne(es[j], kids[j]) && ApartOne(es[j + 1], kids[j + 1]) && Under(es[j], kids[j]) !! Under(es[j + 1], kids[j + 1])
  {
    var e, k := es[j..j + 2], kids[j..j + 2];
    assert e[..1] == [es[j]] && k[..1] == [kids[j]];
    BelowOfOne(es[j], kids[j]);
  }

  /** A node's children cut at a, b and c. */
  lemma Cut3(es: seq<Entry>, kids: seq<Tree>, a: nat, b: nat, c: nat)
    requires |es| == |kids| && a <= b <= c <= |kids|
    ensures es[a..c] == es[a..b] + es[b..c] && kids[a..c] == kids[a..b] + kids[b..c]
  {
  }

  // ---------------------------------------------------------------------
  // Rebuilding a node
  // ---------------------------------------------------------------------

  /**
   * Children a .. b - 1 of a node replaced by a run that uses only their
   * ids less freed, or ids handed out from lo to hi, each once: the node
   * keeps every id apart and uses only its old ids less freed, or fresh
   * ones.
   */
  lemma ReplaceIds(t: Tree, a: nat, b: nat, es2: seq<Entry>, kids2: seq<Tree>, lo: nat, hi: nat, freed: set<nat>)
    requires t.Inner? && |t.entries| == |t.kids| && a <= b <= |t.kids| && |es2| == |kids2|
    requires Apart(t) && IdsBelow(Below(t), lo)
    requires freed <= BelowOf(t.entries[a..b], t.kids[a..b])
    requires ApartOf(es2, kids2)
    requires Within(BelowOf(es2, kids2), BelowOf(t.entries[a..b], t.kids[a..b]) - freed, lo, hi)
    ensures Apart(Inner(t.entries[..a] + es2 + t.entries[b..], t.kids[..a] + kids2 + t.kids[b..]))
    ensures Within(Below(Inner(t.entries[..a] + es2 + t.entries[b..], t.kids[..a] + kids2 + t.kids[b..])),
                   Below(t) - freed, lo, hi)
  {
    var es, kids := t.entries, t.kids;
    Cut(es, kids, a, b);
    Parts3(es[..a], kids[..a], es[a..b], kids[a..b], es[b..], kids[b..]);
    Parts3(es[..a], kids[..a], es2, kids2, es[b..], kids[b..]);
  }

  /** The ids under node t that treeInsert frees on its way down to key: each child page it rebuilds. */
  ghost function Descent(t: Tree, key: seq<Byte>): set<nat>
    decreases t
  {
    if t.Leaf? || |t.entries| != |t.kids| || |t.entries| == 0 then {}
    else
      var idx := LookupLE(t.entries, key);
      {t.entries[idx].ptr} + Descent(t.kids[idx], key)
  }

  /** A slice of a node uses the ids of the slice's children. */
  lemma SliceIds(g: Tree, a: nat, b: nat, c: nat)
    requires a <= b <= c <= |g.entries| && (g.Inner? ==> |g.kids| == |g.entries|)
    ensures Below(Slice(g, a, c)) == Below(Slice(g, a, b)) + Below(Slice(g, b, c))
    ensures Apart(Slice(g, a, c)) <==>
      Apart(Slice(g, a, b)) && Apart(Slice(g, b, c)) && Below(Slice(g, a, b)) !! Below(Slice(g, b, c))
  {
    if g.Inner? {
      Cut3(g.entries, g.kids, a, b, c);
      BelowOfConcat(g.entries[a..b], g.kids[a..b], g.entries[b..c], g.kids[b..c]);
      ApartOfConcat(g.entries[a..b], g.kids[a..b], g.entries[b..c], g.kids[b..c]);
    }
  }

  lemma SliceWhole(g: Tree)
    requires g.Inner? ==> |g.kids| == |g.entries|
    ensures Slice(g, 0, |g.entries|) == g
  {
    assert g.entries[0..|g.entries|] == g.entries;
    if g.Inner? {
      assert g.kids[0..|g.kids|] == g.kids;
    }
  }

  /** Two pieces stored at n and n + 1. */
  lemma PiecesTwo(p: Tree, q: Tree, n: nat)
    requires n + 2 <= U64_LIMIT
    ensures BelowOf(KidEntries([p, q], n), [p, q]) == {n} + Below(p) + {n + 1} + Below(q)
    ensures ApartOf(KidEntries([p, q], n), [p, q]) <==>
      Apart(p) && n !in Below(p) && Apart(q) && n + 1 !in Below(q) && ({n} + Below(p)) !! ({n + 1} + Below(q))
  {
    var es := KidEntries([p, q], n);
    assert es == [es[0]] + [es[1]] && [p, q] == [p] + [q];
    BelowOfConcat([es[0]], [p], [es[1]], [q]);
    ApartOfConcat([es[0]], [p], [es[1]], [q]);
    BelowOfOne(es[0], p);
    BelowOfOne(es[1], q);
  }

  /** Three pieces with ids apart and below n, stored at n, n + 1 and n + 2. */
  lemma PiecesThree(p: Tree, q: Tree, r: Tree, n: nat)
    requires n + 3 <= U64_LIMIT && Apart(p) && Apart(q) && Apart(r)
    requires Below(p) !! Below(q) && Below(p) !! Below(r) && Below(q) !! Below(r)
    requires IdsBelow(Below(p) + Below(q) + Below(r), n)
    ensures ApartOf(KidEntries([p, q, r], n), [p, q, r])
    ensures Within(BelowOf(KidEntries([p, q, r], n), [p, q, r]), Below(p) + Below(q) + Below(r), n, n + 3)
  {
    var es, kids := KidEntries([p, q, r], n), [p, q, r];
    assert es[..2] == KidEntries([p, q], n) && kids[..2] == [p, q];
    PiecesTwo(p, q, n);
    assert es[2].ptr == n + 2 && kids[2] == r;
    assert BelowOf(es, kids) == BelowOf(es[..2], kids[..2]) + Under(es[2], r);
    assert ApartOf(es, kids) <==>
      ApartOf(es[..2], kids[..2]) && ApartOne(es[2], r) && Under(es[2], r) !! BelowOf(es[..2], kids[..2]);
    PiecesSets(Below(p), Below(q), Below(r), n);
  }

  /** The set reasoning of PiecesThree. */
  lemma PiecesSets(bp: set<nat>, bq: set<nat>, br: set<nat>, n: nat)
    requires bp !! bq && bp !! br && bq !! br && IdsBelow(bp + bq + br, n)
    ensures n !in bp && n + 1 !in bq && n + 2 !in br && ({n} + bp) !! ({n + 1} + bq)
    ensures ({n + 2} + br) !! ({n} + bp + {n + 1} + bq)
    ensures Within({n} + bp + {n + 1} + bq + ({n + 2} + br), bp + bq + br, n, n + 3)
  {
  }

  /** One piece stored at n. */
  lemma PiecesOne(p: Tree, n: nat)
    requires n + 1 <= U64_LIMIT
    ensures BelowOf(KidEntries([p], n), [p]) == {n} + Below(p)
    ensures ApartOf(KidEntries([p], n), [p]) <==> Apart(p) && n !in Below(p)
  {
    var es := KidEntries([p], n);
    assert es == [es[0]];
    BelowOfOne(es[0], p);
  }

  /**
   * The pieces nodeSplit3 cuts g into, stored at n, n + 1, ...: together
   * they use the ids under g and the new ones, each once.
   */
  lemma SplitIds(g: Tree, n: nat)
    requires (g.Inner? ==> |g.kids| == |g.entries|) && n + 3 <= U64_LIMIT
    requires Apart(g) && IdsBelow(Below(g), n)
    ensures ApartOf(KidEntries(SplitTree(g), n), SplitTree(g))
    ensures Within(BelowOf(KidEntries(SplitTree(g), n), SplitTree(g)), Below(g), n, n + |SplitTree(g)|)
  {
    var es, len := g.entries, |g.entries|;
    if NodeSize(NodeOf(g)) <= BTREE_PAGE_SIZE {
      SplitIdsOne(g, n);
    } else {
      var k := Split.SplitPoint(es);
      if Split.SizeOf(es[..k]) <= BTREE_PAGE_SIZE {
        SplitIdsTwo(g, k, n);
      } else {
        SplitIdsThree(g, Split.SplitPoint(es[..k]), k, n);
      }
    }
  }

  lemma SplitIdsOne(g: Tree, n: nat)
    requires (g.Inner? ==> |g.kids| == |g.entries|) && n + 1 <= U64_LIMIT
    requires Apart(g) && IdsBelow(Below(g), n)
    ensures ApartOf(KidEntries([g], n), [g]) && Within(BelowOf(KidEntries([g], n), [g]), Below(g), n, n + 1)
  {
    PiecesOne(g, n);
  }

  lemma SplitIdsTwo(g: Tree, a: nat, n: nat)
    requires (g.Inner? ==> |g.kids| == |g.entries|) && a <= |g.entries| && n + 2 <= U64_LIMIT
    requires Apart(g) && IdsBelow(Below(g), n)
    ensures var ps := [Slice(g, 0, a), Slice(g, a, |g.entries|)];
      ApartOf(KidEntries(ps, n), ps) && Within(BelowOf(KidEntries(ps, n), ps), Below(g), n, n + 2)
  {
    var len := |g.entries|;
    var p, q := Slice(g, 0, a), Slice(g, a, len);
    SliceWhole(g);
    SliceIds(g, 0, a, len);
    assert Below(g) == Below(p) + Below(q) && Apart(p) && Apart(q) && Below(p) !! Below(q);
    PiecesTwo(p, q, n);
    PairSets(Below(p), Below(q), n);
  }

  /** The set reasoning of SplitIdsTwo. */
  lemma PairSets(bp: set<nat>, bq: set<nat>, n: nat)
    requires bp !! bq && IdsBelow(bp + bq, n)
    ensures n !in bp && n + 1 !in bq && ({n} + bp) !! ({n + 1} + bq)
    ensures Within({n} + bp + {n + 1} + bq, bp + bq, n, n + 2)
  {
  }

  lemma SplitIdsThree(g: Tree, a: nat, b: nat, n: nat)
    requires (g.Inner? ==> |g.kids| == |g.entries|) && a <= b <= |g.entries| && n + 3 <= U64_LIMIT
    requires Apart(g) && IdsBelow(Below(g), n)
    ensures var ps := [Slice(g, 0, a), Slice(g, a, b), Slice(g, b, |g.entries|)];
      ApartOf(KidEntries(ps, n), ps) && Within(BelowOf(KidEntries(ps, n), ps), Below(g), n, n + 3)
  {
    var len := |g.entries|;
    var p, q, r := Slice(g, 0, a), Slice(g, a, b), Slice(g, b, len);
    SliceWhole(g);
    SliceIds(g, 0, b, len);
    SliceIds(g, 0, a, b);
    PiecesThree(p, q, r, n);
  }

  /**
   * treeInsert frees the pages of the nodes on the path to key, and the
   * tree it builds uses the other ids it had and ids handed out from next
   * on, each once.
   */
  lemma {:induction false} InsIds(t: Tree, h: nat, key: seq<Byte>, val: seq<Byte>, next: nat)
    requires Good(t, h) && |t.entries| > 0 && next + 3 * h <= U64_LIMIT
    requires Apart(t) && IdsBelow(Below(t), next)
    ensures Descent(t, key) <= Below(t)
    ensures Apart(Ins(t, h, key, val, next).tree)
    ensures Within(Below(Ins(t, h, key, val, next).tree), Below(t) - Descent(t, key), next, Ins(t, h, key, val, next).next)
    decreases t
  {
    if t.Inner? {
      var es, kids := t.entries, t.kids;
      var idx := LookupLE(es, key);
      assert KidAt(es, kids, idx, h);
      var kid := kids[idx];
      UnderIn(es, kids, idx);
      InsIds(kid, h - 1, key, val, next);
      InsUnfold(t, h, key, val, next);
      InsIdsStep(t, h, idx, Ins(kid, h - 1, key, val, next), next, Descent(kid, key));
    }
  }

  /** The internal-node step of InsIds, for the grown child g at idx. */
  lemma InsIdsStep(t: Tree, h: nat, idx: nat, g: Grown, next: nat, d: set<nat>)
    requires t.Inner? && |t.entries| == |t.kids| && idx < |t.kids| && g.next + 3 <= U64_LIMIT && next <= g.next
    requires Apart(t) && IdsBelow(Below(t), next)
    requires Under(t.entries[idx], t.kids[idx]) <= Below(t) && ApartOne(t.entries[idx], t.kids[idx])
    requires d <= Below(t.kids[idx]) && (g.tree.Inner? ==> |g.tree.kids| == |g.tree.entries|)
    requires Apart(g.tree) && Within(Below(g.tree), Below(t.kids[idx]) - d, next, g.next)
    ensures {t.entries[idx].ptr} + d <= Below(t)
    ensures var ps := SplitTree(g.tree);
      var r := Inner(t.entries[..idx] + KidEntries(ps, g.next) + t.entries[idx + 1..], t.kids[..idx] + ps + t.kids[idx + 1..]);
      Apart(r) && Within(Below(r), Below(t) - ({t.entries[idx].ptr} + d), next, g.next + |ps|)
  {
    var es, kids := t.entries, t.kids;
    var ps := SplitTree(g.tree);
    SplitIds(g.tree, g.next);
    assert es[idx..idx + 1] == [es[idx]] && kids[idx..idx + 1] == [kids[idx]];
    BelowOfOne(es[idx], kids[idx]);
    ReplaceIds(t, idx, idx + 1, KidEntries(ps, g.next), ps, next, g.next + |ps|, {es[idx].ptr} + d);
  }

  // ---------------------------------------------------------------------
  // treeDelete
  // ---------------------------------------------------------------------

  /**
   * The ids under node t that treeDelete frees on its way down to key and
   * back: each child page it rebuilds and, where shouldMerge merges, the
   * page of the sibling merged away.
   */
  ghost function DelFreed(t: Tree, h: nat, key: seq<Byte>, next: nat): set<nat>
    requires Good(t, h) && (t.Inner? ==> |t.entries| > 0) && next + h <= U64_LIMIT
    decreases t
  {
    if t.Leaf? then {}
    else
      var es, kids := t.entries, t.kids;
      var idx := LookupLE(es, key);
      assert KidAt(es, kids, idx, h);
      LeafHeight(kids[idx], h - 1);
      var o := Del(kids[idx], h - 1, key, next);
      if !o.Rebuilt? then {}
      else
        {es[idx].ptr} + DelFreed(kids[idx], h - 1, key, next) + MergedAway(t, idx, o.tree)
  }

  /** The page of the sibling that shouldMerge merges the rebuilt child u at idx with, if any. */
  ghost function MergedAway(t: Tree, idx: nat, u: Tree): set<nat>
    requires t.Inner? && idx < |t.kids| && |t.kids| == |t.entries|
  {
    var d := MergeDir(t, idx, u);
    if d < 0 then {t.entries[idx - 1].ptr} else if d > 0 then {t.entries[idx + 1].ptr} else {}
  }

  /** nodeMerge uses the ids of both nodes. */
  lemma MergeIds(l: Tree, r: Tree)
    requires l.Leaf? == r.Leaf? && (l.Inner? ==> |l.kids| == |l.entries|) && (r.Inner? ==> |r.kids| == |r.entries|)
    ensures Below(MergeTrees(l, r)) == Below(l) + Below(r)
    ensures Apart(l) && Apart(r) && Below(l) !! Below(r) ==> Apart(MergeTrees(l, r))
  {
    if l.Inner? {
      BelowOfConcat(l.entries, l.kids, r.entries, r.kids);
      ApartOfConcat(l.entries, l.kids, r.entries, r.kids);
    }
  }

  /**
   * treeDelete frees the pages DelFreed names, and the tree it builds uses
   * the other ids it had and ids handed out from next on, each once.
   */
  lemma {:induction false} DelIds(t: Tree, h: nat, key: seq<Byte>, next: nat)
    requires Good(t, h) && (t.Inner? ==> |t.entries| > 0) && next + h <= U64_LIMIT
    requires Apart(t) && IdsBelow(Below(t), next)
    ensures DelFreed(t, h, key, next) <= Below(t)
    ensures Del(t, h, key, next).Rebuilt? ==>
      && Apart(Del(t, h, key, next).tree)
      && Within(Below(Del(t, h, key, next).tree), Below(t) - DelFreed(t, h, key, next), next, Del(t, h, key, next).next)
    decreases t
  {
    if t.Inner? {
      var es, kids := t.entries, t.kids;
      var idx := LookupLE(es, key);
      assert KidAt(es, kids, idx, h);
      LeafHeight(kids[idx], h - 1);
      UnderIn(es, kids, idx);
      DelIds(kids[idx], h - 1, key, next);
      var o := Del(kids[idx], h - 1, key, next);
      if o.Rebuilt? {
        DelIdsStep(t, h, idx, o.tree, o.next, next, DelFreed(kids[idx], h - 1, key, next));
      }
    }
  }

  /** The facts each case of DelIdsStep starts from. */
  ghost predicate StepReady(t: Tree, h: nat, idx: nat, u: Tree, n: nat, next: nat, d: set<nat>)
  {
    && t.Inner? && Good(t, h) && idx < |t.kids| && (u.Leaf? <==> h == 1) && next <= n < U64_LIMIT
    && Apart(t) && IdsBelow(Below(t), next)
    && Under(t.entries[idx], t.kids[idx]) <= Below(t) && ApartOne(t.entries[idx], t.kids[idx])
    && d <= Below(t.kids[idx]) && (u.Inner? ==> |u.kids| == |u.entries|)
    && Apart(u) && Within(Below(u), Below(t.kids[idx]) - d, next, n)
  }

  /**
   * After the rebalancing step for the rebuilt child u at idx, the node
   * frees that child's page, the pages freed below it and a sibling merged
   * away, and uses only its other ids or fresh ones from next on.
   */
  ghost predicate RebalancedIds(t: Tree, h: nat, idx: nat, u: Tree, n: nat, next: nat, d: set<nat>)
    requires StepReady(t, h, idx, u, n, next, d)
  {
    var g := Rebalanced(t, h, idx, u, n);
    var f := {t.entries[idx].ptr} + d + MergedAway(t, idx, u);
    f <= Below(t) && Apart(g.tree) && Within(Below(g.tree), Below(t) - f, next, g.next)
  }

  /** The rebalancing step of DelIds, for the rebuilt child u at idx. */
  lemma DelIdsStep(t: Tree, h: nat, idx: nat, u: Tree, n: nat, next: nat, d: set<nat>)
    requires StepReady(t, h, idx, u, n, next, d)
    ensures RebalancedIds(t, h, idx, u, n, next, d)
  {
    var dir := MergeDir(t, idx, u);
    if dir < 0 {
      DelIdsLeft(t, h, idx, u, n, next, d);
    } else if dir > 0 {
      DelIdsRight(t, h, idx, u, n, next, d);
    } else if |u.entries| == 0 {
      DelIdsEmptied(t, h, idx, u, n, next, d);
    } else {
      DelIdsKept(t, h, idx, u, n, next, d);
    }
  }

  /** Merged with the left sibling. */
  lemma DelIdsLeft(t: Tree, h: nat, idx: nat, u: Tree, n: nat, next: nat, d: set<nat>)
    requires StepReady(t, h, idx, u, n, next, d) && MergeDir(t, idx, u) < 0
    ensures RebalancedIds(t, h, idx, u, n, next, d)
  {
    var es, kids := t.entries, t.kids;
    assert KidAt(es, kids, idx - 1, h);
    LeafHeight(kids[idx - 1], h - 1);
    UnderIn(es, kids, idx - 1);
    assert {es[idx].ptr} + d + MergedAway(t, idx, u) == {es[idx - 1].ptr, es[idx].ptr} + {} + d;
    DelIdsMerged(t, h, idx - 1, kids[idx - 1], u, n, next, {}, d);
  }

  /** Merged with the right sibling. */
  lemma DelIdsRight(t: Tree, h: nat, idx: nat, u: Tree, n: nat, next: nat, d: set<nat>)
    requires StepReady(t, h, idx, u, n, next, d) && MergeDir(t, idx, u) > 0
    ensures RebalancedIds(t, h, idx, u, n, next, d)
  {
    var es, kids := t.entries, t.kids;
    assert KidAt(es, kids, idx + 1, h);
    LeafHeight(kids[idx + 1], h - 1);
    UnderIn(es, kids, idx + 1);
    assert {es[idx].ptr} + d + MergedAway(t, idx, u) == {es[idx].ptr, es[idx + 1].ptr} + d + {};
    DelIdsMerged(t, h, idx, u, kids[idx + 1], n, next, d, {});
  }

  /** The only child became empty: so does the node. */
  lemma DelIdsEmptied(t: Tree, h: nat, idx: nat, u: Tree, n: nat, next: nat, d: set<nat>)
    requires StepReady(t, h, idx, u, n, next, d) && MergeDir(t, idx, u) == 0 && |u.entries| == 0
    ensures RebalancedIds(t, h, idx, u, n, next, d)
  {
    assert Below(Inner([], [])) == {};
  }

  /**
   * Children j and j + 1 merged into one node stored at n, one of them
   * rebuilt and the other the untouched sibling: both old pages are freed.
   */
  lemma DelIdsMerged(t: Tree, h: nat, j: nat, l: Tree, r: Tree, n: nat, next: nat, dl: set<nat>, dr: set<nat>)
    requires t.Inner? && Good(t, h) && j + 1 < |t.kids| && next <= n < U64_LIMIT
    requires Apart(t) && IdsBelow(Below(t), next)
    requires l.Leaf? == r.Leaf? && (l.Inner? ==> |l.kids| == |l.entries|) && (r.Inner? ==> |r.kids| == |r.entries|)
    requires (l == t.kids[j] && dl == {}) || (r == t.kids[j + 1] && dr == {})
    requires dl <= Below(t.kids[j]) && dr <= Below(t.kids[j + 1]) && Apart(l) && Apart(r)
    requires Within(Below(l), Below(t.kids[j]) - dl, next, n)
    requires Within(Below(r), Below(t.kids[j + 1]) - dr, next, n)
    ensures var m := MergeTrees(l, r);
      var e := Entry(n, FirstKey(m), []);
      var f := {t.entries[j].ptr, t.entries[j + 1].ptr} + dl + dr;
      && f <= Below(t)
      && Apart(Inner(t.entries[..j] + [e] + t.entries[j + 2..], t.kids[..j] + [m] + t.kids[j + 2..]))
      && Within(Below(Inner(t.entries[..j] + [e] + t.entries[j + 2..], t.kids[..j] + [m] + t.kids[j + 2..])),
                Below(t) - f, next, n + 1)
  {
    var es, kids := t.entries, t.kids;
    var m := MergeTrees(l, r);
    var e := Entry(n, FirstKey(m), []);
    var f: set<nat> := {es[j].ptr, es[j + 1].ptr} + dl + dr;
    TwoIn(es, kids, j);
    MergeSets(es[j].ptr, Below(kids[j]), es[j + 1].ptr, Below(kids[j + 1]), Below(l), Below(r), dl, dr, next, n);
    MergeIds(l, r);
    BelowOfOne(e, m);
    ReplaceIds(t, j, j + 2, [e], [m], next, n + 1, f);
  }

  /** Two adjacent children j and j + 1 of an apart run. */
  lemma TwoIn(es: seq<Entry>, kids: seq<Tree>, j: nat)
    requires |es| == |kids| && j + 1 < |kids| && ApartOf(es, kids)
    ensures BelowOf(es[j..j + 2], kids[j..j + 2]) == Under(es[j], kids[j]) + Under(es[j + 1], kids[j + 1])
    ensures Under(es[j], kids[j]) + Under(es[j + 1], kids[j + 1]) <= BelowOf(es, kids)
    ensures ApartOne(es[j], kids[j]) && ApartOne(es[j + 1], kids[j + 1]) && Under(es[j], kids[j]) !! Under(es[j + 1], kids[j + 1])
  {
    Cut(es, kids, j, j + 2);
    Parts3(es[..j], kids[..j], es[j..j + 2], kids[j..j + 2], es[j + 2..], kids[j + 2..]);
    BelowOfTwo(es, kids, j);
  }

  /** The set reasoning of DelIdsMerged: pages pa over a and pb over b merged into one stored at n. */
  lemma MergeSets(pa: nat, a: set<nat>, pb: nat, b: set<nat>, l: set<nat>, r: set<nat>, dl: set<nat>, dr: set<nat>, next: nat, n: nat)
    requires pa !in a && pb !in b && ({pa} + a) !! ({pb} + b) && IdsBelow({pa, pb} + a + b, next) && next <= n
    requires dl <= a && dr <= b && ((l == a && dl == {}) || (r == b && dr == {}))
    requires Within(l, a - dl, next, n) && Within(r, b - dr, next, n)
    ensures l !! r && n !in l + r
    ensures {pa, pb} + dl + dr <= {pa} + a + ({pb} + b)
    ensures Within({n} + (l + r), {pa} + a + ({pb} + b) - ({pa, pb} + dl + dr), next, n + 1)
  {
  }

  /** The rebuilt child u keeps its place, stored at n. */
  lemma DelIdsKept(t: Tree, h: nat, idx: nat, u: Tree, n: nat, next: nat, d: set<nat>)
    requires StepReady(t, h, idx, u, n, next, d) && MergeDir(t, idx, u) == 0 && |u.entries| != 0
    ensures RebalancedIds(t, h, idx, u, n, next, d)
  {
    var es, kids := t.entries, t.kids;
    PiecesOne(u, n);
    assert es[idx..idx + 1] == [es[idx]] && kids[idx..idx + 1] == [kids[idx]];
    BelowOfOne(es[idx], kids[idx]);
    ReplaceIds(t, idx, idx + 1, KidEntries([u], n), [u], next, n + 1, {es[idx].ptr} + d);
  }
}
