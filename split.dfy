/**
 * Splitting an oversized node (core/btree.go, nodeSplit2 and nodeSplit3).
 *
 * nodeSplit2 picks the number of entries that go left with two loops:
 * starting from half of the entries it moves entries right while the left
 * half exceeds a page, then moves them back left while the right half
 * exceeds a page. Shrink, Grow and SplitPoint state those loops on the
 * entry sequence; the lemmas show the split point is inside the node and
 * the right half always fits a page. nodeSplit3 splits a node into one,
 * two or three pages; every piece fits a page whenever the node is at
 * most two pages less one header (which the tree's insertion guarantees).
 */
module Split {
  import opened Bytes
  import opened Node
  import opened NodeWrite

  // ---------------------------------------------------------------------
  // Sizes of pieces
  // ---------------------------------------------------------------------

  /** The encoded size of a node holding es (the type does not enter into it). */
  function SizeOf(es: seq<Entry>): nat
  {
    NodeSize(Node(0, es))
  }

  /** An entry that fits a page on its own, as checkLimit ensures for every stored entry. */
  predicate FitsAlone(e: Entry)
  {
    SizeOf([e]) <= BTREE_PAGE_SIZE
  }

  predicate AllFitAlone(es: seq<Entry>)
  {
    forall i {:trigger FitsAlone(es[i])} :: 0 <= i < |es| ==> FitsAlone(es[i])
  }

  /** Cutting at k: both halves carry a header, so together they are one header larger. */
  lemma SizeSplit(es: seq<Entry>, k: nat)
    requires k <= |es|
    ensures SizeOf(es[..k]) + SizeOf(es[k..]) == SizeOf(es) + 4
  {
    assert es[..k] + es[k..] == es;
    DataSizeConcat(es[..k], es[k..]);
  }

  /** A shorter suffix is no larger. */
  lemma SuffixShrinks(es: seq<Entry>, j: nat, k: nat)
    requires j <= k <= |es|
    ensures SizeOf(es[k..]) <= SizeOf(es[j..])
  {
    SizeSplit(es[j..], k - j);
    assert es[j..][k - j..] == es[k..];
  }

  // ---------------------------------------------------------------------
  // Choosing the split point
  // ---------------------------------------------------------------------

  /** The first loop of nodeSplit2: move entries right while the left half exceeds a page. */
  function Shrink(es: seq<Entry>, k: nat): (r: nat)
    requires k <= |es|
    ensures r <= k
    decreases k
  {
    if k == 0 || SizeOf(es[..k]) <= BTREE_PAGE_SIZE then k else Shrink(es, k - 1)
  }

  /** The second loop of nodeSplit2: move entries back left while the right half exceeds a page. */
  function Grow(es: seq<Entry>, k: nat): (r: nat)
    requires k <= |es|
    ensures k <= r <= |es|
    decreases |es| - k
  {
    if k == |es| || SizeOf(es[k..]) <= BTREE_PAGE_SIZE then k else Grow(es, k + 1)
  }

  /**
   * The first loop stops at the largest cut up to k whose left half fits a
   * page; the cut just after it does not fit.
   */
  lemma {:induction false} ShrinkStops(es: seq<Entry>, k: nat)
    requires k <= |es|
    ensures Shrink(es, k) <= k && SizeOf(es[..Shrink(es, k)]) <= BTREE_PAGE_SIZE
    ensures Shrink(es, k) < k ==> SizeOf(es[..Shrink(es, k) + 1]) > BTREE_PAGE_SIZE
    decreases k
  {
    if k == 0 {
      assert es[..k] == [];
    } else if SizeOf(es[..k]) > BTREE_PAGE_SIZE {
      ShrinkStops(es, k - 1);
    }
  }

  /**
   * The second loop stops at the smallest cut from k on whose right half
   * fits a page; when it moved, the cut just before it does not fit.
   */
  lemma {:induction false} GrowStops(es: seq<Entry>, k: nat)
    requires k <= |es|
    ensures k <= Grow(es, k) <= |es| && SizeOf(es[Grow(es, k)..]) <= BTREE_PAGE_SIZE
    ensures Grow(es, k) > k ==> SizeOf(es[Grow(es, k) - 1..]) > BTREE_PAGE_SIZE
    decreases |es| - k
  {
    if k == |es| {
      assert es[k..] == [];
    } else if SizeOf(es[k..]) > BTREE_PAGE_SIZE {
      GrowStops(es, k + 1);
    }
  }

  /** Cutting at either end leaves an empty half of header size. */
  lemma EmptyHalves(es: seq<Entry>)
    ensures SizeOf(es[..0]) == 4 && SizeOf(es[|es|..]) == 4
  {
    assert es[..0] == [] && es[|es|..] == [];
  }

  lemma ShrinkStep(es: seq<Entry>, k: nat)
    requires 0 < k <= |es| && SizeOf(es[..k]) > BTREE_PAGE_SIZE
    ensures Shrink(es, k) == Shrink(es, k - 1)
  {
  }

  lemma ShrinkAt(es: seq<Entry>, k: nat)
    requires k <= |es| && SizeOf(es[..k]) <= BTREE_PAGE_SIZE
    ensures Shrink(es, k) == k
  {
  }

  lemma GrowStep(es: seq<Entry>, k: nat)
    requires k < |es| && SizeOf(es[k..]) > BTREE_PAGE_SIZE
    ensures Grow(es, k) == Grow(es, k + 1)
  {
  }

  lemma GrowAt(es: seq<Entry>, k: nat)
    requires k <= |es| && SizeOf(es[k..]) <= BTREE_PAGE_SIZE
    ensures Grow(es, k) == k
  {
  }

  /** The number of entries nodeSplit2 leaves in the left half. */
  function SplitPoint(es: seq<Entry>): (r: nat)
    ensures r <= |es|
  {
    Grow(es, Shrink(es, |es| / 2))
  }

  lemma {:induction false} ShrinkPositive(es: seq<Entry>, k: nat)
    requires 1 <= k <= |es| && SizeOf(es[..1]) <= BTREE_PAGE_SIZE
    ensures Shrink(es, k) >= 1
    decreases k
  {
    if k > 1 && SizeOf(es[..k]) > BTREE_PAGE_SIZE {
      ShrinkPositive(es, k - 1);
    }
  }

  lemma {:induction false} GrowBelow(es: seq<Entry>, k: nat)
    requires k < |es| && SizeOf(es[|es| - 1..]) <= BTREE_PAGE_SIZE
    ensures Grow(es, k) < |es|
    decreases |es| - k
  {
    if k < |es| - 1 && SizeOf(es[k..]) > BTREE_PAGE_SIZE {
      GrowBelow(es, k + 1);
    }
  }

  /**
   * With at least two entries, each fitting a page alone, nodeSplit2 never
   * panics: both halves are non-empty, and the right half fits a page.
   */
  lemma SplitBounds(es: seq<Entry>)
    requires |es| >= 2 && AllFitAlone(es)
    ensures 0 < SplitPoint(es) < |es|
    ensures SizeOf(es[SplitPoint(es)..]) <= BTREE_PAGE_SIZE
  {
    assert es[..1] == [es[0]];
    assert FitsAlone(es[0]);
    ShrinkPositive(es, |es| / 2);
    assert es[|es| - 1..] == [es[|es| - 1]];
    assert FitsAlone(es[|es| - 1]);
    GrowBelow(es, Shrink(es, |es| / 2));
    GrowStops(es, Shrink(es, |es| / 2));
  }

  /** A node of at most one entry, each fitting a page alone, fits a page. */
  lemma SmallFits(es: seq<Entry>)
    requires AllFitAlone(es)
    ensures |es| <= 1 ==> SizeOf(es) <= BTREE_PAGE_SIZE
  {
    if |es| == 1 {
      assert es == [es[0]] && FitsAlone(es[0]);
    } else if |es| == 0 {
      assert es == [];
    }
  }

  lemma AllFitAlonePrefix(es: seq<Entry>, k: nat)
    requires AllFitAlone(es) && k <= |es|
    ensures AllFitAlone(es[..k])
  {
    assert forall i :: 0 <= i < k ==> es[..k][i] == es[i];
  }

  // ---------------------------------------------------------------------
  // nodeSplit3 on nodes
  // ---------------------------------------------------------------------

  /** The pieces nodeSplit3 leaves: the node itself, two halves, or the left half split again. */
  function Split3Nodes(node: Node): (r: seq<Node>)
    ensures 1 <= |r| <= 3
  {
    var es := node.entries;
    if NodeSize(node) <= BTREE_PAGE_SIZE then
      [node]
    else
      var k := SplitPoint(es);
      var left := es[..k];
      if SizeOf(left) <= BTREE_PAGE_SIZE then
        [Node(node.btype, left), Node(node.btype, es[k..])]
      else
        var k2 := SplitPoint(left);
        [Node(node.btype, left[..k2]), Node(node.btype, left[k2..]), Node(node.btype, es[k..])]
  }

  /**
   * nodeSplit3 returns the node whole exactly when it fits a page, and
   * three pieces exactly when the left half of the first split is still
   * over a page; every piece keeps the node's type.
   */
  lemma Split3Shape(node: Node)
    ensures |Split3Nodes(node)| == 1 <==> NodeSize(node) <= BTREE_PAGE_SIZE
    ensures |Split3Nodes(node)| == 1 ==> Split3Nodes(node)[0] == node
    ensures |Split3Nodes(node)| == 3 <==>
      NodeSize(node) > BTREE_PAGE_SIZE && SizeOf(node.entries[..SplitPoint(node.entries)]) > BTREE_PAGE_SIZE
    ensures forall i :: 0 <= i < |Split3Nodes(node)| ==> Split3Nodes(node)[i].btype == node.btype
  {
    var r, es, t := Split3Nodes(node), node.entries, node.btype;
    if NodeSize(node) <= BTREE_PAGE_SIZE {
      assert r == [node];
    } else {
      var k := SplitPoint(es);
      if SizeOf(es[..k]) <= BTREE_PAGE_SIZE {
        assert r == [Node(t, es[..k]), Node(t, es[k..])];
      } else {
        var k2 := SplitPoint(es[..k]);
        assert r == [Node(t, es[..k][..k2]), Node(t, es[..k][k2..]), Node(t, es[k..])];
      }
    }
  }

  /** The entries of all pieces, in order. */
  function Joined(ns: seq<Node>): seq<Entry>
  {
    if ns == [] then [] else Joined(ns[..|ns| - 1]) + ns[|ns| - 1].entries
  }

  lemma Halves(es: seq<Entry>, k: nat)
    requires k <= |es|
    ensures es[..k] + es[k..] == es
  {
  }

  lemma JoinedOne(a: Node)
    ensures Joined([a]) == a.entries
  {
    assert [a][..0] == [];
  }

  lemma JoinedTwo(a: Node, b: Node)
    ensures Joined([a, b]) == a.entries + b.entries
  {
    assert [a, b][..1] == [a];
    JoinedOne(a);
  }

  lemma JoinedThree(a: Node, b: Node, c: Node)
    ensures Joined([a, b, c]) == a.entries + b.entries + c.entries
  {
    assert [a, b, c][..2] == [a, b];
    JoinedTwo(a, b);
  }

  /** The pieces hold exactly the entries of the node, in order. */
  lemma Split3Joins(node: Node)
    ensures Joined(Split3Nodes(node)) == node.entries
  {
    var r, es, t := Split3Nodes(node), node.entries, node.btype;
    if NodeSize(node) <= BTREE_PAGE_SIZE {
      assert r == [node];
      JoinedOne(node);
    } else {
      var k := SplitPoint(es);
      var left := es[..k];
      Halves(es, k);
      if SizeOf(left) <= BTREE_PAGE_SIZE {
        assert r == [Node(t, left), Node(t, es[k..])];
        JoinedTwo(Node(t, left), Node(t, es[k..]));
      } else {
        var k2 := SplitPoint(left);
        Halves(left, k2);
        assert r == [Node(t, left[..k2]), Node(t, left[k2..]), Node(t, es[k..])];
        JoinedThree(Node(t, left[..k2]), Node(t, left[k2..]), Node(t, es[k..]));
      }
    }
  }

  /**
   * When the node is at most two pages less one header and every entry
   * fits a page alone, every piece of nodeSplit3 fits a page and holds at
   * least one entry (unless the node is returned whole).
   */
  lemma Split3Fits(node: Node)
    requires NodeSize(node) <= 2 * BTREE_PAGE_SIZE - 4 && AllFitAlone(node.entries)
    ensures PiecesFit(Split3Nodes(node))
  {
    var es, t := node.entries, node.btype;
    if NodeSize(node) > BTREE_PAGE_SIZE {
      var k := SplitPoint(es);
      FirstSplitFits(es);
      if SizeOf(es[..k]) <= BTREE_PAGE_SIZE {
        TwoFit(Node(t, es[..k]), Node(t, es[k..]));
      } else {
        var k2 := SplitPoint(es[..k]);
        SecondSplitFits(es);
        ThreeFit(Node(t, es[..k][..k2]), Node(t, es[..k][k2..]), Node(t, es[k..]));
      }
    }
  }

  /** The first split of an oversized node leaves two non-empty halves, the right one fitting a page. */
  lemma FirstSplitFits(es: seq<Entry>)
    requires AllFitAlone(es) && SizeOf(es) > BTREE_PAGE_SIZE
    ensures 0 < SplitPoint(es) < |es| && SizeOf(es[SplitPoint(es)..]) <= BTREE_PAGE_SIZE
  {
    SmallFits(es);
    SplitBounds(es);
  }

  /** When the left half is still over a page, splitting it again leaves two non-empty pieces that fit. */
  lemma SecondSplitFits(es: seq<Entry>)
    requires SizeOf(es) <= 2 * BTREE_PAGE_SIZE - 4 && AllFitAlone(es) && SizeOf(es) > BTREE_PAGE_SIZE
    requires SizeOf(es[..SplitPoint(es)]) > BTREE_PAGE_SIZE
    ensures var k := SplitPoint(es); var k2 := SplitPoint(es[..k]);
      && 0 < k2 < k
      && SizeOf(es[..k][..k2]) <= BTREE_PAGE_SIZE && SizeOf(es[..k][k2..]) <= BTREE_PAGE_SIZE
  {
    FirstSplitFits(es);
    var k := SplitPoint(es);
    var left := es[..k];
    AllFitAlonePrefix(es, k);
    SmallFits(left);
    SplitBounds(left);
    var k2 := SplitPoint(left);
    var a := Shrink(es, |es| / 2);
    ShrinkStops(es, |es| / 2);
    GrowStops(es, a);
    assert k == Grow(es, a);
    assert SizeOf(es[..a]) <= BTREE_PAGE_SIZE && SizeOf(es[..k]) > BTREE_PAGE_SIZE;
    LeftLeftFits(es, a, k, k2);
    assert left[..k2] == es[..k2];
  }

  /**
   * Every piece fits a page, and when there is more than one piece, each
   * holds at least one entry.
   */
  ghost predicate PiecesFit(ns: seq<Node>)
  {
    && (forall i :: 0 <= i < |ns| ==> NodeSize(ns[i]) <= BTREE_PAGE_SIZE)
    && (|ns| > 1 ==> forall i :: 0 <= i < |ns| ==> |ns[i].entries| > 0)
  }

  lemma TwoFit(a: Node, b: Node)
    requires NodeSize(a) <= BTREE_PAGE_SIZE && NodeSize(b) <= BTREE_PAGE_SIZE
    requires |a.entries| > 0 && |b.entries| > 0
    ensures PiecesFit([a, b])
  {
  }

  lemma ThreeFit(a: Node, b: Node, c: Node)
    requires NodeSize(a) <= BTREE_PAGE_SIZE && NodeSize(b) <= BTREE_PAGE_SIZE && NodeSize(c) <= BTREE_PAGE_SIZE
    requires |a.entries| > 0 && |b.entries| > 0 && |c.entries| > 0
    ensures PiecesFit([a, b, c])
  {
  }

  /**
   * The left piece of the second split fits. The second split happens only
   * when the first split's second loop moved (from a to b), so its last
   * left entry together with the right half exceeds a page; if the first
   * b2 entries exceeded a page as well, the whole node would exceed two
   * pages less one header.
   */
  lemma LeftLeftFits(es: seq<Entry>, a: nat, b: nat, b2: nat)
    requires a <= b <= |es| && 0 < b2 < b && SizeOf(es) <= 2 * BTREE_PAGE_SIZE - 4
    requires SizeOf(es[..a]) <= BTREE_PAGE_SIZE && SizeOf(es[..b]) > BTREE_PAGE_SIZE
    requires b > a ==> SizeOf(es[b - 1..]) > BTREE_PAGE_SIZE
    ensures SizeOf(es[..b2]) <= BTREE_PAGE_SIZE
  {
    SizeSplit(es, b2);
    SuffixShrinks(es, b2, b - 1);
  }

  // ---------------------------------------------------------------------
  // The methods
  // ---------------------------------------------------------------------

  /** leftBytes in nodeSplit2: the size of a node holding the first k entries of src. */
  function LeftBytes(src: seq<Byte>, k: nat): nat
    requires OffsetReadable(src, k)
  {
    4 + 8 * k + 2 * k + GetOffset(src, k)
  }

  /** rightBytes in nodeSplit2: the size of a node holding the remaining entries. */
  function RightBytes(src: seq<Byte>, k: nat): int
    requires |src| >= 4 && OffsetReadable(src, NKeys(src)) && OffsetReadable(src, k)
  {
    NBytes(src) - LeftBytes(src, k) + 4
  }

  /** At a cut k, the two closures of nodeSplit2 read the sizes of the two halves of es. */
  ghost predicate HalvesRead(src: seq<Byte>, es: seq<Entry>, k: nat)
  {
    && k <= |es| && |src| >= 4 && OffsetReadable(src, NKeys(src)) && OffsetReadable(src, k)
    && LeftBytes(src, k) == SizeOf(es[..k]) && RightBytes(src, k) == SizeOf(es[k..])
  }

  lemma HalfBytes(src: seq<Byte>, node: Node, k: nat)
    requires IsNode(src, node) && k <= |node.entries|
    ensures HalvesRead(src, node.entries, k)
  {
    IsNodeHeader(src, node);
    FilledOffset(src, node.btype, |node.entries|, node.entries, k);
    SizeSplit(node.entries, k);
  }

  /** Every cut of a buffer that holds a node reads the sizes of its halves. */
  lemma AllHalvesRead(src: seq<Byte>, node: Node)
    requires IsNode(src, node)
    ensures |src| >= 4 && NKeys(src) == |node.entries|
    ensures forall k {:trigger HalvesRead(src, node.entries, k)} :: 0 <= k <= |node.entries| ==> HalvesRead(src, node.entries, k)
  {
    IsNodeHeader(src, node);
    forall k | 0 <= k <= |node.entries|
      ensures HalvesRead(src, node.entries, k)
    {
      HalfBytes(src, node, k);
    }
  }

  /** The first loop of nodeSplit2: from cut k, move left while the left half exceeds a page. */
  method ShrinkLoop(src: seq<Byte>, ghost es: seq<Entry>, k: nat) returns (nleft: nat)
    requires k <= |es|
    requires forall k {:trigger HalvesRead(src, es, k)} :: 0 <= k <= |es| ==> HalvesRead(src, es, k)
    ensures nleft == Shrink(es, k)
  {
    nleft := k;
    assert HalvesRead(src, es, nleft);
    while LeftBytes(src, nleft) > BTREE_PAGE_SIZE
      invariant HalvesRead(src, es, nleft) && Shrink(es, nleft) == Shrink(es, k)
      decreases nleft
    {
      EmptyHalves(es);
      ShrinkStep(es, nleft);
      nleft := nleft - 1;
      assert HalvesRead(src, es, nleft);
    }
    ShrinkAt(es, nleft);
  }

  /** The second loop of nodeSplit2: from cut k, move right while the right half exceeds a page. */
  method GrowLoop(src: seq<Byte>, ghost es: seq<Entry>, k: nat) returns (nleft: nat)
    requires k <= |es|
    requires forall k {:trigger HalvesRead(src, es, k)} :: 0 <= k <= |es| ==> HalvesRead(src, es, k)
    ensures nleft == Grow(es, k)
  {
    nleft := k;
    assert HalvesRead(src, es, nleft);
    while RightBytes(src, nleft) > BTREE_PAGE_SIZE
      invariant HalvesRead(src, es, nleft) && Grow(es, nleft) == Grow(es, k)
      decreases |es| - nleft
    {
      EmptyHalves(es);
      GrowStep(es, nleft);
      nleft := nleft + 1;
      assert HalvesRead(src, es, nleft);
    }
    GrowAt(es, nleft);
  }

  /**
   * The two loops of nodeSplit2, which count the entries that stay left,
   * reading only the offset table and nbytes of src.
   */
  method SplitCount(src: seq<Byte>, ghost es: seq<Entry>) returns (nleft: nat)
    requires |src| >= 4 && NKeys(src) == |es|
    requires forall k {:trigger HalvesRead(src, es, k)} :: 0 <= k <= |es| ==> HalvesRead(src, es, k)
    ensures nleft == SplitPoint(es)
  {
    nleft := ShrinkLoop(src, es, NKeys(src) / 2);
    nleft := GrowLoop(src, es, nleft);
  }

  /**
   * nodeSplit2: the first SplitPoint entries of src go to left and the rest
   * to right, both with src's type. The source panics when src has fewer
   * than two keys or when no split fits; the requires exclude the former
   * and SplitBounds shows the latter cannot happen when every entry fits a
   * page alone.
   */
  method NodeSplit2(left: array<Byte>, right: array<Byte>, src: seq<Byte>, ghost node: Node)
    requires IsNode(src, node) && |node.entries| >= 2 && AllFitAlone(node.entries)
    requires left != right
    requires SizeOf(node.entries[..SplitPoint(node.entries)]) <= left.Length <= MAX_BUFFER
    requires SizeOf(node.entries[SplitPoint(node.entries)..]) <= right.Length <= MAX_BUFFER
    modifies left, right
    ensures IsNode(left[..], Node(node.btype, node.entries[..SplitPoint(node.entries)]))
    ensures IsNode(right[..], Node(node.btype, node.entries[SplitPoint(node.entries)..]))
  {
    ghost var es := node.entries;
    IsNodeHeader(src, node);
    AllHalvesRead(src, node);
    var nleft := SplitCount(src, es);
    SplitBounds(es);
    var nright := NKeys(src) - nleft;
    ghost var ls, rs := es[..nleft], es[nleft..];
    SizeSplit(es, nleft);
    HeaderWritten(left[..], BType(src), nleft);
    SetHeader(left, BType(src), nleft);
    HeaderWritten(right[..], BType(src), nright);
    SetHeader(right, BType(src), nright);
    assert [] + ls == ls && [] + rs == rs;
    IsNodeHoldsPrefix(src, node, nleft);
    IsNodeHoldsSuffix(src, node, nleft);
    ghost var r0 := right[..];
    NodeAppendRange(left, src, 0, 0, nleft, node.btype, nleft, [], ls);
    assert right[..] == r0;
    ghost var l1 := left[..];
    NodeAppendRange(right, src, 0, nleft, nright, node.btype, nright, [], rs);
    assert left[..] == l1;
  }

  /** Each page holds the corresponding node. */
  ghost predicate PagesHold(pages: seq<seq<Byte>>, nodes: seq<Node>)
  {
    && |pages| == |nodes|
    && forall i :: 0 <= i < |pages| ==> |pages[i]| == BTREE_PAGE_SIZE && IsNode(pages[i], nodes[i])
  }

  lemma PagesHoldTwo(p: seq<Byte>, q: seq<Byte>, a: Node, b: Node)
    requires |p| == |q| == BTREE_PAGE_SIZE && IsNode(p, a) && IsNode(q, b)
    ensures PagesHold([p, q], [a, b])
  {
  }

  lemma PagesHoldThree(p: seq<Byte>, q: seq<Byte>, r: seq<Byte>, a: Node, b: Node, c: Node)
    requires |p| == |q| == |r| == BTREE_PAGE_SIZE && IsNode(p, a) && IsNode(q, b) && IsNode(r, c)
    ensures PagesHold([p, q, r], [a, b, c])
  {
  }

  /**
   * nodeSplit3: the node itself cut to a page when it fits; otherwise
   * nodeSplit2 into a two-page left buffer and a one-page right buffer,
   * and, when the left half is still over a page, nodeSplit2 of it into
   * two more pages. The pages hold the pieces of Split3Nodes. The source
   * writes out of range (a panic) if a piece exceeds its buffer; the size
   * bound in the requires rules that out (Split3Fits).
   */
  method NodeSplit3(src: seq<Byte>, ghost node: Node) returns (count: nat, pages: seq<seq<Byte>>)
    requires IsNode(src, node) && BTREE_PAGE_SIZE <= |src|
    requires NodeSize(node) <= 2 * BTREE_PAGE_SIZE - 4 && AllFitAlone(node.entries)
    ensures count == |pages| && PagesHold(pages, Split3Nodes(node))
  {
    ghost var es, t := node.entries, node.btype;
    IsNodeHeader(src, node);
    if NBytes(src) <= BTREE_PAGE_SIZE {
      FilledTruncate(src, t, |es|, es, BTREE_PAGE_SIZE);
      return 1, [src[..BTREE_PAGE_SIZE]];
    }
    ghost var k := SplitPoint(es);
    FirstSplitFits(es);
    SizeSplit(es, k);
    var left := new Byte[2 * BTREE_PAGE_SIZE](_ => 0);
    var right := new Byte[BTREE_PAGE_SIZE](_ => 0);
    NodeSplit2(left, right, src, node);
    ghost var lnode := Node(t, es[..k]);
    IsNodeHeader(left[..], lnode);
    if NBytes(left[..]) <= BTREE_PAGE_SIZE {
      FilledTruncate(left[..], t, k, es[..k], BTREE_PAGE_SIZE);
      assert Split3Nodes(node) == [lnode, Node(t, es[k..])];
      PagesHoldTwo(left[..BTREE_PAGE_SIZE], right[..], lnode, Node(t, es[k..]));
      return 2, [left[..BTREE_PAGE_SIZE], right[..]];
    }
    SecondSplitFits(es);
    AllFitAlonePrefix(es, k);
    ghost var k2 := SplitPoint(es[..k]);
    var leftleft, middle := SplitAgain(left[..], lnode);
    assert Split3Nodes(node) == [Node(t, es[..k][..k2]), Node(t, es[..k][k2..]), Node(t, es[k..])];
    PagesHoldThree(leftleft, middle, right[..], Node(t, es[..k][..k2]), Node(t, es[..k][k2..]), Node(t, es[k..]));
    return 3, [leftleft, middle, right[..]];
  }

  /** The second cut of nodeSplit3: a left half still over a page, cut into two pages. */
  method SplitAgain(left: seq<Byte>, ghost node: Node) returns (leftleft: seq<Byte>, middle: seq<Byte>)
    requires IsNode(left, node) && |node.entries| >= 2 && AllFitAlone(node.entries)
    requires SizeOf(node.entries[..SplitPoint(node.entries)]) <= BTREE_PAGE_SIZE
    requires SizeOf(node.entries[SplitPoint(node.entries)..]) <= BTREE_PAGE_SIZE
    ensures |leftleft| == |middle| == BTREE_PAGE_SIZE
    ensures IsNode(leftleft, Node(node.btype, node.entries[..SplitPoint(node.entries)]))
    ensures IsNode(middle, Node(node.btype, node.entries[SplitPoint(node.entries)..]))
  {
    var a := new Byte[BTREE_PAGE_SIZE](_ => 0);
    var b := new Byte[BTREE_PAGE_SIZE](_ => 0);
    NodeSplit2(a, b, left, node);
    return a[..], b[..];
  }
}
