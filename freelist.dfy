/**
 * The free list of core/freelist.go: a FIFO of page ids kept in a chain
 * of list pages. Each list page holds the id of the next list page in its
 * first eight bytes and FREE_LIST_CAP slots of eight bytes after that.
 * Item number s of the queue (a sequence number) lives in slot s mod
 * FREE_LIST_CAP of the list page that s / FREE_LIST_CAP selects, counting
 * from the head page. The queue holds the items headSeq .. tailSeq - 1,
 * and only the items below the watermark maxSeq may be taken out.
 *
 * The chain of list pages and the queue are ghost state: the source
 * reaches the chain only by following the next links, and Holds says
 * which queue the pages hold.
 */
module FreeList {
  import opened Bytes
  import Node
  import opened MemStore

  const FREE_LIST_HEADER := 8
  /** The slots of a list page: (4096 - FREE_LIST_HEADER) / 8. */
  const FREE_LIST_CAP := 511

  /** The slot that sequence number s occupies in its list page. */
  function Seq2Idx(s: nat): (r: nat)
    ensures r < FREE_LIST_CAP == (Node.BTREE_PAGE_SIZE - FREE_LIST_HEADER) / 8
  {
    s % FREE_LIST_CAP
  }

  // ---------------------------------------------------------------------
  // LNode: one list page
  // ---------------------------------------------------------------------

  /** The id of the next list page, bytes 0 .. 8. */
  function GetNext(n: seq<Byte>): (x: U64)
    requires |n| >= 8
  {
    FromLEBound(n[0..8]);
    FromLE(n[0..8])
  }

  function SetNext(n: seq<Byte>, x: U64): (r: seq<Byte>)
    requires |n| >= 8
    ensures |r| == |n|
  {
    Write(n, 0, LE64(x))
  }

  /** Slot i, bytes 8 + 8i .. 16 + 8i. */
  function GetPtr(n: seq<Byte>, i: nat): (x: U64)
    requires i < FREE_LIST_CAP && |n| >= Node.BTREE_PAGE_SIZE
  {
    FromLEBound(n[8 + 8 * i..16 + 8 * i]);
    FromLE(n[8 + 8 * i..16 + 8 * i])
  }

  function SetPtr(n: seq<Byte>, i: nat, x: U64): (r: seq<Byte>)
    requires i < FREE_LIST_CAP && |n| >= Node.BTREE_PAGE_SIZE
    ensures |r| == |n|
  {
    Write(n, 8 + 8 * i, LE64(x))
  }

  /** setNext then getNext gives the id back, and leaves every slot as it was. */
  lemma NextRoundTrip(n: seq<Byte>, x: U64, i: nat)
    requires i < FREE_LIST_CAP && |n| >= Node.BTREE_PAGE_SIZE
    ensures GetNext(SetNext(n, x)) == x
    ensures GetPtr(SetNext(n, x), i) == GetPtr(n, i)
  {
    WriteInside(n, 0, LE64(x));
    LE64RoundTrip(x);
    WriteOutside(n, 0, LE64(x), 8 + 8 * i, 16 + 8 * i);
  }

  /** setPtr then getPtr of the same slot gives the id back; the next link and the other slots are kept. */
  lemma PtrRoundTrip(n: seq<Byte>, i: nat, x: U64, j: nat)
    requires i < FREE_LIST_CAP && j < FREE_LIST_CAP && |n| >= Node.BTREE_PAGE_SIZE
    ensures GetPtr(SetPtr(n, i, x), i) == x
    ensures j != i ==> GetPtr(SetPtr(n, i, x), j) == GetPtr(n, j)
    ensures GetNext(SetPtr(n, i, x)) == GetNext(n)
  {
    WriteInside(n, 8 + 8 * i, LE64(x));
    LE64RoundTrip(x);
    if j != i {
      WriteOutside(n, 8 + 8 * i, LE64(x), 8 + 8 * j, 16 + 8 * j);
    }
    WriteOutside(n, 8 + 8 * i, LE64(x), 0, 8);
  }

  // ---------------------------------------------------------------------
  // The queue that a chain of list pages holds
  // ---------------------------------------------------------------------

  /** The free list's fields with the page store's map and counter, and the ghost chain of list pages. */
  datatype View = View(pages: map<nat, seq<Byte>>, next: nat, chain: seq<nat>,
                       headSeq: nat, tailSeq: nat, maxSeq: nat)

  ghost predicate PagesOk(pages: map<nat, seq<Byte>>)
  {
    forall p :: p in pages ==> |pages[p]| >= Node.BTREE_PAGE_SIZE
  }

  /** The page of sequence number s, counted from the head page. */
  function PageNo(v: View, s: nat): int
  {
    s / FREE_LIST_CAP - v.headSeq / FREE_LIST_CAP
  }

  /**
   * The sequence numbers are ordered, and the chain is long enough for
   * every queued item and for the watermark.
   */
  ghost predicate Spans(v: View)
  {
    && v.headSeq <= v.maxSeq <= v.tailSeq && |v.chain| >= 1
    && (v.headSeq < v.tailSeq ==> PageNo(v, v.tailSeq - 1) < |v.chain|)
    && PageNo(v, v.maxSeq) < |v.chain|
  }

  lemma DivMono(a: nat, b: nat)
    requires a <= b
    ensures a / FREE_LIST_CAP <= b / FREE_LIST_CAP
  {
  }

  /** Item s of the queue: slot s mod FREE_LIST_CAP of its list page. */
  ghost function Item(v: View, s: nat): nat
    requires PagesOk(v.pages) && Spans(v) && v.headSeq <= s < v.tailSeq
  {
    DivMono(v.headSeq, s);
    DivMono(s, v.tailSeq - 1);
    GetPtr(PageIn(v.pages, v.chain[PageNo(v, s)]), Seq2Idx(s))
  }

  /** The pages hold the queue q, oldest item first. */
  ghost predicate Holds(v: View, q: seq<nat>)
  {
    && PagesOk(v.pages) && Spans(v) && |q| == v.tailSeq - v.headSeq
    && forall s :: v.headSeq <= s < v.tailSeq ==> Item(v, s) == q[s - v.headSeq]
  }

  ghost predicate Distinct(xs: seq<nat>)
  {
    forall i, j :: 0 <= i < j < |xs| ==> xs[i] != xs[j]
  }

  /** Each list page but the last links to the one after it. */
  ghost predicate Linked(pages: map<nat, seq<Byte>>, chain: seq<nat>)
    requires PagesOk(pages)
  {
    forall k :: 0 <= k < |chain| - 1 ==> GetNext(PageIn(pages, chain[k])) == chain[k + 1]
  }

  /**
   * The invariant of the list, also in the middle of PushTail: the pages
   * hold q; the list pages are linked and distinct; no id is queued
   * twice or is a list page; and every id was handed out by the store.
   */
  ghost predicate Core(v: View, q: seq<nat>)
  {
    && Holds(v, q) && Linked(v.pages, v.chain) && Distinct(v.chain)
    && (forall p :: p in v.chain ==> p < v.next)
    && Distinct(q) && (forall x :: x in q ==> x !in v.chain && x < v.next)
  }

  /** Between operations the last list page is the page of tailSeq. */
  predicate Full(v: View)
  {
    |v.chain| == v.tailSeq / FREE_LIST_CAP - v.headSeq / FREE_LIST_CAP + 1
  }

  /** The difference between the chain and the pages that the sequence numbers span. */
  function Gap(v: View): int
  {
    |v.chain| - (v.tailSeq / FREE_LIST_CAP - v.headSeq / FREE_LIST_CAP)
  }

  // ---------------------------------------------------------------------
  // Arithmetic on sequence numbers
  // ---------------------------------------------------------------------

  /** The page number grows by one exactly when the slot wraps to 0. */
  lemma DivStep(s: nat)
    ensures (s + 1) / FREE_LIST_CAP == s / FREE_LIST_CAP + (if Seq2Idx(s + 1) == 0 then 1 else 0)
  {
  }

  /** The slot after slot 0 is not slot 0 again. */
  lemma SlotAfterFirst(s: nat)
    requires Seq2Idx(s) == 0
    ensures Seq2Idx(s + 1) == 1
  {
  }

  /** Two sequence numbers on the same page sit in different slots. */
  lemma OtherSlot(s: nat, t: nat)
    requires s / FREE_LIST_CAP == t / FREE_LIST_CAP && s != t
    ensures Seq2Idx(s) != Seq2Idx(t)
  {
  }

  // ---------------------------------------------------------------------
  // The steps of the operations, on views
  // ---------------------------------------------------------------------

  /** The last list page of a chain. */
  function Last(chain: seq<nat>): nat
    requires |chain| >= 1
  {
    chain[|chain| - 1]
  }

  /** Slot Seq2Idx(tailSeq) of the last list page is set to x, and tailSeq advances. */
  function Pushed(v: View, x: U64): View
    requires PagesOk(v.pages) && |v.chain| >= 1
  {
    var tail := Last(v.chain);
    v.(pages := v.pages[tail := SetPtr(PageIn(v.pages, tail), Seq2Idx(v.tailSeq), x)], tailSeq := v.tailSeq + 1)
  }

  /** headSeq advances; when it reaches a new page, the head page leaves the chain. */
  function Popped(v: View): View
    requires |v.chain| >= 2 || Seq2Idx(v.headSeq + 1) != 0
  {
    if Seq2Idx(v.headSeq + 1) == 0 then v.(headSeq := v.headSeq + 1, chain := v.chain[1..])
    else v.(headSeq := v.headSeq + 1)
  }

  /** The last list page links to page n, which joins the chain. */
  function LinkedTo(v: View, n: U64): View
    requires PagesOk(v.pages) && |v.chain| >= 1
  {
    var tail := Last(v.chain);
    v.(pages := v.pages[tail := SetNext(PageIn(v.pages, tail), n)], chain := v.chain + [n])
  }

  /** The store hands out a zeroed page under the counter. */
  function Allocated(v: View): (r: View)
    ensures PagesOk(v.pages) ==> PagesOk(r.pages)
  {
    v.(pages := v.pages[v.next := Padded(Zeros(Node.BTREE_PAGE_SIZE))], next := v.next + 1)
  }

  /** Every page of p0 whose id is not in written has the same bytes in p1. */
  ghost predicate KeptOutside(p0: map<nat, seq<Byte>>, p1: map<nat, seq<Byte>>, written: seq<nat>)
  {
    forall q :: q in p0 && q !in written ==> q in p1 && p1[q] == p0[q]
  }

  /** A write to page p leaves every item on another page as it was. */
  lemma ItemElsewhere(v: View, w: View, s: nat)
    requires PagesOk(v.pages) && PagesOk(w.pages) && Spans(v) && Spans(w)
    requires w.chain == v.chain && w.headSeq == v.headSeq && v.headSeq <= s < v.tailSeq && s < w.tailSeq
    requires PageIn(w.pages, v.chain[PageNo(v, s)]) == PageIn(v.pages, v.chain[PageNo(v, s)])
    ensures Item(w, s) == Item(v, s)
  {
  }

  /** The chain's pages are distinct, and it spans every queued item. */
  ghost predicate Shaped(v: View)
  {
    PagesOk(v.pages) && Spans(v) && Distinct(v.chain)
  }

  /** Pushing keeps an earlier item. */
  lemma PushedKeeps(v: View, x: U64, s: nat)
    requires Shaped(v) && Full(v) && Shaped(Pushed(v, x)) && v.headSeq <= s < v.tailSeq
    ensures Item(Pushed(v, x), s) == Item(v, s)
  {
    var w := Pushed(v, x);
    var n := |v.chain| - 1;
    var tail, page := v.chain[n], PageIn(v.pages, v.chain[n]);
    assert PageIn(w.pages, tail) == SetPtr(page, Seq2Idx(v.tailSeq), x);
    DivMono(v.headSeq, s);
    DivMono(s, v.tailSeq);
    var k := PageNo(v, s);
    assert PageNo(w, s) == k;
    if k == n {
      OtherSlot(s, v.tailSeq);
      PtrRoundTrip(page, Seq2Idx(v.tailSeq), x, Seq2Idx(s));
    } else {
      assert v.chain[k] != tail;
      ItemElsewhere(v, w, s);
    }
  }

  /** The pushed id is the newest item. */
  lemma PushedNewest(v: View, x: U64)
    requires Shaped(v) && Full(v) && Shaped(Pushed(v, x))
    ensures Item(Pushed(v, x), v.tailSeq) == x
  {
    var w := Pushed(v, x);
    var n := |v.chain| - 1;
    var tail, page := v.chain[n], PageIn(v.pages, v.chain[n]);
    assert PageIn(w.pages, tail) == SetPtr(page, Seq2Idx(v.tailSeq), x);
    PtrRoundTrip(page, Seq2Idx(v.tailSeq), x, 0);
    assert PageNo(w, v.tailSeq) == n;
  }

  /** Pushing keeps the links. */
  lemma PushedLinked(v: View, x: U64)
    requires PagesOk(v.pages) && |v.chain| >= 1 && Distinct(v.chain) && Linked(v.pages, v.chain)
    ensures Linked(Pushed(v, x).pages, v.chain)
  {
    var w := Pushed(v, x);
    var n := |v.chain| - 1;
    forall k | 0 <= k < n
      ensures GetNext(PageIn(w.pages, v.chain[k])) == v.chain[k + 1]
    {
      assert v.chain[k] != v.chain[n];
    }
  }

  /** An id that is not yet queued can be appended without a repeat. */
  lemma DistinctAppend(xs: seq<nat>, x: nat)
    requires Distinct(xs) && x !in xs
    ensures Distinct(xs + [x])
  {
    forall i, j | 0 <= i < j < |xs| + 1
      ensures (xs + [x])[i] != (xs + [x])[j]
    {
      assert (xs + [x])[i] == xs[i];
      if j < |xs| {
        assert (xs + [x])[j] == xs[j];
      } else {
        assert xs[i] in xs;
      }
    }
  }

  /** A push keeps the sequence numbers spanned, and the tail page is full when the slot wraps. */
  lemma PushedSpans(v: View, x: U64)
    requires PagesOk(v.pages) && Spans(v) && Full(v)
    ensures PagesOk(Pushed(v, x).pages) && Spans(Pushed(v, x))
    ensures Gap(Pushed(v, x)) == (if Seq2Idx(v.tailSeq + 1) == 0 then 0 else 1)
  {
    DivStep(v.tailSeq);
  }

  /** Item s after a push: an earlier item, or x. */
  lemma PushedItem(v: View, q: seq<nat>, x: U64, s: nat)
    requires Holds(v, q) && Distinct(v.chain) && Full(v) && v.headSeq <= s <= v.tailSeq
    requires PagesOk(Pushed(v, x).pages) && Spans(Pushed(v, x))
    ensures Item(Pushed(v, x), s) == (q + [x])[s - v.headSeq]
  {
    if s < v.tailSeq {
      PushedKeeps(v, x, s);
      assert (q + [x])[s - v.headSeq] == q[s - v.headSeq];
    } else {
      PushedNewest(v, x);
    }
  }

  /** After a push the pages hold the queue with x appended. */
  lemma PushedHolds(v: View, q: seq<nat>, x: U64)
    requires Holds(v, q) && Distinct(v.chain) && Full(v)
    ensures Holds(Pushed(v, x), q + [x])
    ensures Gap(Pushed(v, x)) == (if Seq2Idx(v.tailSeq + 1) == 0 then 0 else 1)
  {
    PushedSpans(v, x);
    var w := Pushed(v, x);
    assert PagesOk(w.pages);
    forall s | w.headSeq <= s < w.tailSeq
      ensures Item(w, s) == (q + [x])[s - w.headSeq]
    {
      PushedItem(v, q, x, s);
    }
  }

  /** Pushing x appends it to the queue. */
  lemma PushedItems(v: View, q: seq<nat>, x: U64)
    requires Core(v, q) && Full(v) && x !in v.chain && x !in q && x < v.next
    ensures Core(Pushed(v, x), q + [x])
    ensures Gap(Pushed(v, x)) == (if Seq2Idx(v.tailSeq + 1) == 0 then 0 else 1)
  {
    PushedHolds(v, q, x);
    PushedLinked(v, x);
    DistinctAppend(q, x);
  }

  /** Popping within a page keeps every later item. */
  lemma PoppedKeepsSamePage(v: View, w: View, s: nat)
    requires Shaped(v) && v.headSeq < v.maxSeq && Seq2Idx(v.headSeq + 1) != 0
    requires w == v.(headSeq := v.headSeq + 1) && Shaped(w) && w.headSeq <= s < w.tailSeq
    ensures Item(w, s) == Item(v, s)
  {
    DivStep(v.headSeq);
    assert PageNo(w, s) == PageNo(v, s);
  }

  /** Popping the last item of the head page keeps every later item. */
  lemma PoppedKeepsNextPage(v: View, w: View, s: nat)
    requires Shaped(v) && v.headSeq < v.maxSeq && Seq2Idx(v.headSeq + 1) == 0 && |v.chain| >= 2
    requires w == v.(headSeq := v.headSeq + 1, chain := v.chain[1..]) && Shaped(w) && w.headSeq <= s < w.tailSeq
    ensures Item(w, s) == Item(v, s)
  {
    DivStep(v.headSeq);
    DivMono(w.headSeq, s);
    assert PageNo(w, s) + 1 == PageNo(v, s);
    assert w.chain[PageNo(w, s)] == v.chain[PageNo(v, s)];
  }

  /** Where the popped head page leaves the chain, its next link is the new head. */
  lemma PoppedSpans(v: View)
    requires Shaped(v) && Linked(v.pages, v.chain) && v.headSeq < v.maxSeq
    ensures |v.chain| >= 2 || Seq2Idx(v.headSeq + 1) != 0
    ensures Shaped(Popped(v)) && Linked(v.pages, Popped(v).chain) && Gap(Popped(v)) == Gap(v)
    ensures Seq2Idx(v.headSeq + 1) == 0 ==> GetNext(PageIn(v.pages, v.chain[0])) == v.chain[1]
  {
    DivStep(v.headSeq);
    DivMono(v.headSeq + 1, v.maxSeq);
    var w := Popped(v);
    assert Spans(w);
    if Seq2Idx(v.headSeq + 1) == 0 {
      forall k | 0 <= k < |w.chain| - 1
        ensures GetNext(PageIn(v.pages, w.chain[k])) == w.chain[k + 1]
      {
        assert w.chain[k] == v.chain[k + 1];
      }
    }
  }

  /** Dropping the first of distinct ids keeps the rest distinct, and the first is not among them. */
  lemma DistinctTail(xs: seq<nat>)
    requires Distinct(xs) && |xs| >= 1
    ensures Distinct(xs[1..]) && xs[0] !in xs[1..]
  {
    forall i, j | 0 <= i < j < |xs| - 1
      ensures xs[1..][i] != xs[1..][j]
    {
      assert xs[1..][i] == xs[i + 1] && xs[1..][j] == xs[j + 1];
    }
    forall j | 0 <= j < |xs| - 1
      ensures xs[1..][j] != xs[0]
    {
      assert xs[1..][j] == xs[j + 1];
    }
  }

  /** Popping drops the oldest item, slot Seq2Idx(headSeq) of the head page, from the queue the pages hold. */
  lemma PoppedHolds(v: View, q: seq<nat>)
    requires Holds(v, q) && Distinct(v.chain) && Linked(v.pages, v.chain) && v.headSeq < v.maxSeq
    ensures |v.chain| >= 2 || Seq2Idx(v.headSeq + 1) != 0
    ensures Holds(Popped(v), q[1..]) && Linked(v.pages, Popped(v).chain) && Gap(Popped(v)) == Gap(v)
    ensures q[0] == GetPtr(PageIn(v.pages, v.chain[0]), Seq2Idx(v.headSeq))
    ensures Seq2Idx(v.headSeq + 1) == 0 ==> GetNext(PageIn(v.pages, v.chain[0])) == v.chain[1]
  {
    PoppedSpans(v);
    PoppedQueue(v, q);
    assert Item(v, v.headSeq) == q[0];
  }

  /** After the pop, every item left is the one one place further along the old queue. */
  lemma PoppedQueue(v: View, q: seq<nat>)
    requires Holds(v, q) && Distinct(v.chain) && Linked(v.pages, v.chain) && v.headSeq < v.maxSeq
    requires PagesOk(Popped(v).pages) && Spans(Popped(v))
    ensures forall s :: Popped(v).headSeq <= s < Popped(v).tailSeq ==> Item(Popped(v), s) == q[1..][s - Popped(v).headSeq]
  {
    var w := Popped(v);
    forall s | w.headSeq <= s < w.tailSeq
      ensures Item(w, s) == q[1..][s - w.headSeq]
    {
      assert Item(v, s) == q[s - v.headSeq];
      if Seq2Idx(v.headSeq + 1) == 0 {
        PoppedKeepsNextPage(v, w, s);
      } else {
        PoppedKeepsSamePage(v, w, s);
      }
    }
  }

  /**
   * What the pop hands back leaves the list: the item and, when the head
   * page is used up, that page are neither queued nor list pages any
   * more; both are ids the store handed out.
   */
  lemma PoppedApart(v: View, q: seq<nat>)
    requires Core(v, q) && v.headSeq < v.maxSeq && (|v.chain| >= 2 || Seq2Idx(v.headSeq + 1) != 0)
    ensures Distinct(Popped(v).chain) && Distinct(q[1..])
    ensures forall p :: p in Popped(v).chain ==> p in v.chain
    ensures forall x :: x in q[1..] ==> x in q
    ensures q[0] !in Popped(v).chain && q[0] !in q[1..] && q[0] < v.next
    ensures Seq2Idx(v.headSeq + 1) == 0 ==> v.chain[0] !in Popped(v).chain && v.chain[0] !in q[1..] && v.chain[0] < v.next
  {
    var w := Popped(v);
    DistinctTail(q);
    assert q[0] in q;
    forall x | x in q[1..]
      ensures x in q
    {
    }
    if Seq2Idx(v.headSeq + 1) == 0 {
      DistinctTail(v.chain);
      assert v.chain[0] in v.chain;
    }
    forall p | p in w.chain
      ensures p in v.chain
    {
    }
  }

  /** Popping removes the oldest item and keeps the invariant. */
  lemma PoppedItems(v: View, q: seq<nat>)
    requires Core(v, q) && v.headSeq < v.maxSeq
    ensures |v.chain| >= 2 || Seq2Idx(v.headSeq + 1) != 0
    ensures Core(Popped(v), q[1..]) && Gap(Popped(v)) == Gap(v)
    ensures q[0] == GetPtr(PageIn(v.pages, v.chain[0]), Seq2Idx(v.headSeq))
    ensures q[0] !in Popped(v).chain && q[0] !in q[1..] && q[0] < v.next
    ensures Seq2Idx(v.headSeq + 1) == 0 ==>
              && GetNext(PageIn(v.pages, v.chain[0])) == v.chain[1]
              && v.chain[0] !in Popped(v).chain && v.chain[0] !in q[1..] && v.chain[0] < v.next
  {
    PoppedHolds(v, q);
    PoppedApart(v, q);
  }

  /** Linking to n keeps every item: only the next link of the tail page changes. */
  lemma LinkedHolds(v: View, q: seq<nat>, n: U64)
    requires Holds(v, q) && Distinct(v.chain) && Gap(v) == 0
    ensures Holds(LinkedTo(v, n), q) && Full(LinkedTo(v, n))
  {
    var w := LinkedTo(v, n);
    LinkedSpans(v, n);
    forall s | w.headSeq <= s < w.tailSeq
      ensures Item(w, s) == q[s - w.headSeq]
    {
      assert Item(v, s) == q[s - v.headSeq];
      LinkedItem(v, n, s);
    }
  }

  /** Linking to n keeps the pages whole and the chain spanning the sequence numbers. */
  lemma LinkedSpans(v: View, n: U64)
    requires PagesOk(v.pages) && Spans(v) && Gap(v) == 0
    ensures PagesOk(LinkedTo(v, n).pages) && Spans(LinkedTo(v, n)) && Full(LinkedTo(v, n))
  {
    var w := LinkedTo(v, n);
    var tail := v.chain[|v.chain| - 1];
    assert PageIn(w.pages, tail) == SetNext(PageIn(v.pages, tail), n);
    assert PagesOk(w.pages);
  }

  /** The item at s is read from the same slot of the same page after linking to n. */
  lemma LinkedItem(v: View, n: U64, s: nat)
    requires PagesOk(v.pages) && Spans(v) && Distinct(v.chain) && Gap(v) == 0 && v.headSeq <= s < v.tailSeq
    requires PagesOk(LinkedTo(v, n).pages) && Spans(LinkedTo(v, n))
    ensures Item(LinkedTo(v, n), s) == Item(v, s)
  {
    var w := LinkedTo(v, n);
    var last := |v.chain| - 1;
    var tail, page := v.chain[last], PageIn(v.pages, v.chain[last]);
    assert PageIn(w.pages, tail) == SetNext(page, n);
    DivMono(v.headSeq, s);
    DivMono(s, v.tailSeq - 1);
    var k := PageNo(v, s);
    assert PageNo(w, s) == k && w.chain[k] == v.chain[k];
    if k == last {
      NextRoundTrip(page, n, Seq2Idx(s));
    } else {
      assert v.chain[k] != tail;
    }
  }

  /** Linking to n extends the links of the chain by one. */
  lemma LinkedLinks(v: View, n: U64)
    requires PagesOk(v.pages) && |v.chain| >= 1 && Distinct(v.chain) && Linked(v.pages, v.chain)
    ensures Linked(LinkedTo(v, n).pages, LinkedTo(v, n).chain)
  {
    var w := LinkedTo(v, n);
    var last := |v.chain| - 1;
    var tail, page := v.chain[last], PageIn(v.pages, v.chain[last]);
    assert PageIn(w.pages, tail) == SetNext(page, n);
    forall k | 0 <= k < |w.chain| - 1
      ensures GetNext(PageIn(w.pages, w.chain[k])) == w.chain[k + 1]
    {
      if k == last {
        NextRoundTrip(page, n, 0);
      } else {
        assert v.chain[k] != tail;
      }
    }
  }

  /** Linking a page that holds no item and is not in the chain completes the chain. */
  lemma LinkedItems(v: View, q: seq<nat>, n: U64)
    requires Core(v, q) && Gap(v) == 0 && n !in v.chain && n !in q && n < v.next
    ensures Core(LinkedTo(v, n), q) && Full(LinkedTo(v, n))
  {
    LinkedHolds(v, q, n);
    LinkedLinks(v, n);
    DistinctAppend(v.chain, n);
  }

  /** Allocating a page that is not in the chain keeps every item. */
  lemma AllocatedHolds(v: View, q: seq<nat>)
    requires Holds(v, q) && v.next !in v.chain
    ensures Holds(Allocated(v), q) && Gap(Allocated(v)) == Gap(v)
  {
    var w := Allocated(v);
    assert PagesOk(w.pages) && Spans(w);
    forall s | w.headSeq <= s < w.tailSeq
      ensures Item(w, s) == q[s - w.headSeq]
    {
      assert Item(v, s) == q[s - v.headSeq];
      DivMono(v.headSeq, s);
      DivMono(s, v.tailSeq - 1);
      assert v.chain[PageNo(v, s)] in v.chain;
      assert PageNo(w, s) == PageNo(v, s);
    }
  }

  /** Allocating a page that is not in the chain keeps every link. */
  lemma AllocatedLinks(v: View)
    requires PagesOk(v.pages) && Linked(v.pages, v.chain) && v.next !in v.chain
    ensures Linked(Allocated(v).pages, v.chain)
  {
    var w := Allocated(v);
    forall k | 0 <= k < |v.chain| - 1
      ensures GetNext(PageIn(w.pages, v.chain[k])) == v.chain[k + 1]
    {
      assert v.chain[k] in v.chain;
    }
  }

  /** A freshly allocated page is neither a list page nor a queued id, and allocating it changes no item. */
  lemma AllocatedItems(v: View, q: seq<nat>)
    requires Core(v, q)
    ensures v.next !in v.chain && v.next !in q
    ensures Core(Allocated(v), q) && Gap(Allocated(v)) == Gap(v)
  {
    AllocatedHolds(v, q);
    AllocatedLinks(v);
  }

  /** The watermark plays no part in which items the pages hold. */
  lemma ItemsIgnoreMax(v: View, q: seq<nat>, m: nat)
    requires Core(v, q) && v.headSeq <= m <= v.tailSeq && PageNo(v, m) < |v.chain|
    ensures Core(v.(maxSeq := m), q)
  {
    var w := v.(maxSeq := m);
    assert Spans(w);
    forall s | w.headSeq <= s < w.tailSeq
      ensures Item(w, s) == Item(v, s)
    {
      assert PageNo(w, s) == PageNo(v, s);
    }
  }

  /**
   * What flPop needs of a list: the queue's length matches the sequence
   * numbers and, when an item is below the watermark, the head page's
   * slot holds the oldest item, and a used-up head page links to the
   * next list page.
   */
  ghost predicate Poppable(v: View, q: seq<nat>)
  {
    && PagesOk(v.pages) && |v.chain| >= 1 && v.headSeq <= v.maxSeq <= v.tailSeq && |q| == v.tailSeq - v.headSeq
    && (v.headSeq < v.maxSeq ==>
          && (Seq2Idx(v.headSeq + 1) == 0 ==> |v.chain| >= 2 && GetNext(PageIn(v.pages, v.chain[0])) == v.chain[1])
          && q[0] == GetPtr(PageIn(v.pages, v.chain[0]), Seq2Idx(v.headSeq)))
  }

  lemma CorePoppable(v: View, q: seq<nat>)
    requires Core(v, q)
    ensures Poppable(v, q)
  {
    if v.headSeq < v.maxSeq {
      PoppedItems(v, q);
    }
  }

  /**
   * PopHead on values: popping below the watermark keeps the invariant,
   * and a used-up head page other than 0 may be queued again.
   */
  lemma PoppedValid(v: View, q: seq<nat>)
    requires Core(v, q) && Full(v) && v.headSeq < v.maxSeq
    ensures Poppable(v, q) && |v.chain| >= 1 && |q| >= 1
    ensures Core(Popped(v), q[1..]) && Full(Popped(v))
    ensures Seq2Idx(v.headSeq + 1) == 0 && v.chain[0] != 0 ==>
              && v.chain[0] !in Popped(v).chain && v.chain[0] !in q[1..] && v.chain[0] < v.next
              && Seq2Idx(Popped(v).headSeq + 1) != 0
              && (|q| >= 2 ==> q[1..][1..] == q[2..])
  {
    CorePoppable(v, q);
    PoppedItems(v, q);
    if Seq2Idx(v.headSeq + 1) == 0 {
      SlotAfterFirst(v.headSeq + 1);
    }
  }

  /**
   * The queue after PushTail(x): x joins it, and when that fills the tail
   * page with an item below the watermark, the oldest item leaves it to
   * become the next list page.
   */
  function TailPushed(v: View, q: seq<nat>, x: nat): seq<nat>
    requires v.headSeq <= v.maxSeq <= v.tailSeq && |q| == v.tailSeq - v.headSeq
  {
    if Seq2Idx(v.tailSeq + 1) != 0 || v.headSeq == v.maxSeq then q + [x] else q[1..] + [x]
  }

  /** The queue after PopHead below the watermark: the oldest item leaves, and a used-up head page other than 0 is pushed back. */
  function HeadPopped(v: View, q: seq<nat>): seq<nat>
    requires v.headSeq < v.maxSeq <= v.tailSeq && |q| == v.tailSeq - v.headSeq && |v.chain| >= 1
  {
    if Seq2Idx(v.headSeq + 1) == 0 && v.chain[0] != 0 then TailPushed(v.(headSeq := v.headSeq + 1), q[1..], v.chain[0])
    else q[1..]
  }

  /** HeadPopped case by case: the item leaves the front, and a requeued head page joins the back, at the cost of a second item when the tail wraps. */
  lemma HeadPoppedCases(v: View, q: seq<nat>)
    requires v.headSeq < v.maxSeq <= v.tailSeq && |q| == v.tailSeq - v.headSeq && |v.chain| >= 1
    ensures Seq2Idx(v.headSeq + 1) != 0 || v.chain[0] == 0 ==> HeadPopped(v, q) == q[1..]
    ensures Seq2Idx(v.headSeq + 1) == 0 && v.chain[0] != 0 ==>
              HeadPopped(v, q) == if Seq2Idx(v.tailSeq + 1) != 0 || v.headSeq + 1 == v.maxSeq
                                  then q[1..] + [v.chain[0]]
                                  else q[2..] + [v.chain[0]]
  {
    if Seq2Idx(v.headSeq + 1) == 0 && v.chain[0] != 0 && Seq2Idx(v.tailSeq + 1) == 0 && v.headSeq + 1 < v.maxSeq {
      assert q[1..][1..] == q[2..];
    }
  }

  /** Linking a new page from the store keeps the queue and completes the chain. */
  lemma LinkedNewItems(v: View, q: seq<nat>)
    requires Core(v, q) && Gap(v) == 0 && v.next < U64_LIMIT
    ensures Core(LinkedTo(Allocated(v), v.next), q) && Full(LinkedTo(Allocated(v), v.next))
  {
    AllocatedItems(v, q);
    LinkedItems(Allocated(v), q, v.next);
  }

  /** GrowTail's link: the tail page links to ptr, or to a new page from the store when ptr is 0. */
  function Relinked(v: View, ptr: U64): (r: View)
    requires PagesOk(v.pages) && |v.chain| >= 1 && v.next < U64_LIMIT
    ensures PagesOk(r.pages) && r.chain == v.chain + [if ptr == 0 then v.next else ptr]
    ensures r.next == if ptr == 0 then v.next + 1 else v.next
  {
    if ptr == 0 then LinkedTo(Allocated(v), v.next) else LinkedTo(v, ptr)
  }

  /** Linking the tail to a queued id, or to a new page, completes the chain. */
  lemma RelinkedItems(v: View, q: seq<nat>, ptr: U64)
    requires Core(v, q) && Gap(v) == 0 && v.next < U64_LIMIT
    requires ptr != 0 ==> ptr !in v.chain && ptr !in q && ptr < v.next
    ensures Core(Relinked(v, ptr), q) && Full(Relinked(v, ptr))
  {
    if ptr == 0 {
      LinkedNewItems(v, q);
    } else {
      LinkedItems(v, q, ptr);
    }
  }

  /**
   * GrowTail when an item is below the watermark: the oldest item, ptr,
   * is popped; the tail links to it (or to a new page when it is 0); and
   * a used-up head page is queued in the first slot of the new tail.
   */
  function Regrown(v: View, ptr: U64): View
    requires PagesOk(v.pages) && v.next < U64_LIMIT && (|v.chain| >= 2 || Seq2Idx(v.headSeq + 1) != 0)
    requires |v.chain| >= 1 && v.chain[0] < U64_LIMIT
  {
    var l := Relinked(Popped(v), ptr);
    if Seq2Idx(v.headSeq + 1) == 0 && v.chain[0] != 0 then Pushed(l, v.chain[0]) else l
  }

  /** The queue after Regrown: the popped item leaves it, and a used-up head page joins it. */
  function RegrownQueue(v: View, q: seq<nat>): seq<nat>
    requires |v.chain| >= 1 && |q| >= 1
  {
    q[1..] + (if Seq2Idx(v.headSeq + 1) == 0 && v.chain[0] != 0 then [v.chain[0]] else [])
  }

  /** Regrown and RegrownQueue in the two cases: the used-up head page is queued or it is not. */
  lemma RegrownCases(v: View, q: seq<nat>, ptr: U64)
    requires PagesOk(v.pages) && v.next < U64_LIMIT && (|v.chain| >= 2 || Seq2Idx(v.headSeq + 1) != 0)
    requires |v.chain| >= 1 && v.chain[0] < U64_LIMIT && |q| >= 1
    ensures Seq2Idx(v.headSeq + 1) == 0 && v.chain[0] != 0 ==>
              && Regrown(v, ptr) == Pushed(Relinked(Popped(v), ptr), v.chain[0])
              && RegrownQueue(v, q) == q[1..] + [v.chain[0]]
    ensures !(Seq2Idx(v.headSeq + 1) == 0 && v.chain[0] != 0) ==>
              Regrown(v, ptr) == Relinked(Popped(v), ptr) && RegrownQueue(v, q) == q[1..]
  {
  }

  /** The head page neither is an item nor lies beyond the counter. */
  lemma HeadApart(v: View, q: seq<nat>)
    requires Core(v, q) && |q| >= 1
    ensures q[0] != v.chain[0] && v.chain[0] < v.next
  {
    assert q[0] in q && v.chain[0] in v.chain;
  }

  /** Regrowing a full tail keeps the invariant when the head page stays or is page 0. */
  lemma RegrownKept(v: View, q: seq<nat>)
    requires Core(v, q) && Gap(v) == 0 && v.next < U64_LIMIT && v.headSeq < v.maxSeq
    requires !(Seq2Idx(v.headSeq + 1) == 0 && v.chain[0] != 0)
    requires (|v.chain| >= 2 || Seq2Idx(v.headSeq + 1) != 0) && q[0] < v.next && v.chain[0] < v.next
    ensures Core(Regrown(v, q[0]), RegrownQueue(v, q)) && Full(Regrown(v, q[0]))
  {
    PoppedItems(v, q);
    HeadApart(v, q);
    RelinkedItems(Popped(v), q[1..], q[0]);
    RegrownCases(v, q, q[0]);
  }

  /** Regrowing a full tail keeps the invariant when the used-up head page is queued. */
  lemma RegrownRecycled(v: View, q: seq<nat>)
    requires Core(v, q) && Gap(v) == 0 && Seq2Idx(v.tailSeq) == 0 && v.next < U64_LIMIT && v.headSeq < v.maxSeq
    requires Seq2Idx(v.headSeq + 1) == 0 && v.chain[0] != 0
    requires |v.chain| >= 2 && q[0] < v.next && v.chain[0] < v.next
    ensures Core(Regrown(v, q[0]), RegrownQueue(v, q)) && Full(Regrown(v, q[0]))
  {
    PoppedItems(v, q);
    HeadApart(v, q);
    var p := Popped(v);
    RelinkedItems(p, q[1..], q[0]);
    var l := Relinked(p, q[0]);
    PushedItems(l, q[1..], v.chain[0]);
    RegrownCases(v, q, q[0]);
  }

  /**
   * A full tail page regrown from the queue keeps the invariant and
   * completes the chain; flPop can run first, and the ids it hands
   * back are in range.
   */
  lemma RegrownItems(v: View, q: seq<nat>)
    requires Core(v, q) && Gap(v) == 0 && Seq2Idx(v.tailSeq) == 0 && v.next < U64_LIMIT && v.headSeq < v.maxSeq
    ensures Poppable(v, q) && q[0] < v.next && v.chain[0] < v.next
    ensures |v.chain| >= 2 || Seq2Idx(v.headSeq + 1) != 0
    ensures Core(Regrown(v, q[0]), RegrownQueue(v, q)) && Full(Regrown(v, q[0]))
  {
    CorePoppable(v, q);
    PoppedItems(v, q);
    HeadApart(v, q);
    if Seq2Idx(v.headSeq + 1) == 0 && v.chain[0] != 0 {
      RegrownRecycled(v, q);
    } else {
      RegrownKept(v, q);
    }
  }

  /** PushTail(x) on values, when the tail page has room left: x joins the queue. */
  lemma TailPushedInPlace(v: View, q: seq<nat>, x: U64)
    requires Core(v, q) && Full(v) && x !in v.chain && x !in q && x < v.next
    requires Seq2Idx(v.tailSeq + 1) != 0
    ensures PagesOk(v.pages) && |v.chain| >= 1
    ensures Core(Pushed(v, x), q + [x]) && Full(Pushed(v, x))
  {
    PushedItems(v, q, x);
    DivStep(v.tailSeq);
  }

  // ---------------------------------------------------------------------
  // The free list
  // ---------------------------------------------------------------------

  class FreeList {
    var mem: MemPages
    var headPage: nat
    var headSeq: nat
    var tailPage: nat
    var tailSeq: nat
    var maxSeq: nat
    /** The list pages from headPage to tailPage. */
    ghost var chain: seq<nat>
    /** The queued page ids, oldest first. */
    ghost var items: seq<nat>

    ghost function State(): View
      reads this, mem
    {
      View(mem.pages, mem.next, chain, headSeq, tailSeq, maxSeq)
    }

    /** The chain runs from headPage to tailPage. */
    ghost predicate Ends()
      reads this
    {
      |chain| >= 1 && chain[0] == headPage && chain[|chain| - 1] == tailPage
    }

    ghost predicate Valid()
      reads this, mem
    {
      mem.Valid() && Core(State(), items) && Full(State()) && Ends()
    }

    /** NewFreeList: every field zero, so page 0 is both the head and the tail page, and the queue is empty. */
    constructor (mem: MemPages)
      requires mem.Valid()
      ensures Valid() && this.mem == mem && items == []
      ensures headPage == 0 && headSeq == 0 && tailPage == 0 && tailSeq == 0 && maxSeq == 0
    {
      this.mem := mem;
      headPage, headSeq, tailPage, tailSeq, maxSeq := 0, 0, 0, 0, 0;
      chain, items := [0], [];
    }

    /** LNode(fl.set(p)).setPtr(i, x): slot i of page p, created zeroed when missing, becomes x. */
    method SetPagePtr(p: nat, i: nat, x: U64)
      requires mem.Valid() && i < FREE_LIST_CAP
      modifies mem
      ensures mem.Valid() && mem.next == old(mem.next)
      ensures mem.pages == old(mem.pages)[p := SetPtr(PageIn(old(mem.pages), p), i, x)]
    {
      var page := mem.Write(p);
      mem.Update(p, SetPtr(page, i, x));
    }

    /** LNode(fl.set(p)).setNext(x): the next link of page p, created zeroed when missing, becomes x. */
    method SetPageNext(p: nat, x: U64)
      requires mem.Valid()
      modifies mem
      ensures mem.Valid() && mem.next == old(mem.next)
      ensures mem.pages == old(mem.pages)[p := SetNext(PageIn(old(mem.pages), p), x)]
    {
      var page := mem.Write(p);
      mem.Update(p, SetNext(page, x));
    }

    /**
     * flPop: nothing when the queue is empty up to the watermark;
     * otherwise the oldest item, and, when the head page has been used
     * up, that page's id, the head moving to the next list page.
     */
    method FlPop() returns (ptr: nat, head: nat)
      requires mem.Valid() && Ends() && Poppable(State(), items)
      modifies this
      ensures mem == old(mem) && Ends() && tailPage == old(tailPage)
      ensures tailSeq == old(tailSeq) && maxSeq == old(maxSeq)
      ensures old(headSeq) == old(maxSeq) ==>
                ptr == 0 && head == 0 && State() == old(State()) && items == old(items) && headPage == old(headPage)
      ensures old(headSeq) < old(maxSeq) ==>
                && (|old(chain)| >= 2 || Seq2Idx(old(headSeq) + 1) != 0)
                && State() == Popped(old(State())) && ptr == old(items)[0] && items == old(items)[1..]
                && head == if Seq2Idx(old(headSeq) + 1) == 0 then old(headPage) else 0
    {
      if headSeq == maxSeq {
        return 0, 0;
      }
      ptr, head := PopOldest();
    }

    /** flPop with an item below the watermark. */
    method PopOldest() returns (ptr: nat, head: nat)
      requires mem.Valid() && Ends() && Poppable(State(), items) && headSeq < maxSeq
      modifies this
      ensures mem == old(mem) && Ends() && tailPage == old(tailPage)
      ensures tailSeq == old(tailSeq) && maxSeq == old(maxSeq)
      ensures |old(chain)| >= 2 || Seq2Idx(old(headSeq) + 1) != 0
      ensures State() == Popped(old(State())) && ptr == old(items)[0] && items == old(items)[1..]
      ensures head == if Seq2Idx(old(headSeq) + 1) == 0 then old(headPage) else 0
    {
      ghost var v, q := State(), items;
      var node := mem.Get(headPage);
      ptr := GetPtr(node, Seq2Idx(headSeq));
      headSeq := headSeq + 1;
      head := 0;
      if Seq2Idx(headSeq) == 0 {
        head := headPage;
        headPage := GetNext(node);
        chain := chain[1..];
        assert State() == v.(headSeq := v.headSeq + 1, chain := v.chain[1..]);
      } else {
        assert State() == v.(headSeq := v.headSeq + 1);
      }
      items := q[1..];
    }

    /** One item x goes into the next free slot of the tail page. */
    method PushSlot(x: U64)
      requires mem.Valid() && Ends()
      modifies this, mem
      ensures mem == old(mem) && mem.Valid() && Ends() && State() == Pushed(old(State()), x)
      ensures headPage == old(headPage) && tailPage == old(tailPage) && items == old(items) + [x]
      ensures headSeq == old(headSeq) && maxSeq == old(maxSeq) && tailSeq == old(tailSeq) + 1
      ensures KeptOutside(old(mem.pages), mem.pages, [tailPage]) && mem.next == old(mem.next)
    {
      ghost var v := State();
      SetPagePtr(tailPage, Seq2Idx(tailSeq), x);
      tailSeq := tailSeq + 1;
      items := items + [x];
      assert State() == Pushed(v, x);
    }

    /** The tail page links to page n, which becomes the tail page. */
    method LinkPage(n: U64)
      requires mem.Valid() && Ends()
      modifies this, mem
      ensures mem == old(mem) && mem.Valid() && Ends() && State() == LinkedTo(old(State()), n)
      ensures headPage == old(headPage) && tailPage == n && items == old(items)
      ensures headSeq == old(headSeq) && maxSeq == old(maxSeq) && tailSeq == old(tailSeq)
      ensures KeptOutside(old(mem.pages), mem.pages, [old(tailPage)]) && mem.next == old(mem.next)
    {
      ghost var v := State();
      SetPageNext(tailPage, n);
      tailPage := n;
      chain := chain + [n];
      assert State() == LinkedTo(v, n);
    }

    /** A new zeroed page from the store, for the list itself. */
    method NewListPage() returns (n: nat)
      requires mem.Valid()
      modifies mem
      ensures mem.Valid() && State() == Allocated(old(State())) && n == old(mem.next) && mem.next == n + 1
      ensures KeptOutside(old(mem.pages), mem.pages, [n])
    {
      ghost var v := State();
      n := mem.New(Zeros(Node.BTREE_PAGE_SIZE));
      assert State() == Allocated(v);
    }

    /**
     * The tail page is full, so a new list page is linked after it. With
     * no item below the watermark flPop returns (0, 0) and changes nothing,
     * and the new list page comes from the store.
     */
    method GrowTail()
      requires mem.Valid() && Ends() && Core(State(), items) && Gap(State()) == 0 && Seq2Idx(tailSeq) == 0
      requires mem.next < U64_LIMIT
      modifies this, mem
      ensures mem == old(mem) && mem.Valid() && Ends() && Core(State(), items) && Full(State())
      ensures maxSeq == old(maxSeq)
      ensures old(headSeq) == old(maxSeq) ==> items == old(items)
      ensures old(headSeq) < old(maxSeq) ==> items == RegrownQueue(old(State()), old(items))
      ensures KeptOutside(old(mem.pages), mem.pages, [old(tailPage), tailPage]) && old(tailPage) in chain
      ensures old(mem.next) <= mem.next <= old(mem.next) + 1
    {
      if headSeq == maxSeq {
        LinkedNewItems(State(), items);
        var next := NewListPage();
        LinkPage(next);
      } else {
        RegrownItems(State(), items);
        GrowFromQueue();
      }
    }

    /**
     * The tail page is full and an item is below the watermark: the oldest
     * item becomes the next list page (a new page from the store when it
     * is 0), and a head page used up by that pop is queued in the first
     * slot of the new tail page.
     */
    method GrowFromQueue()
      requires mem.Valid() && Ends() && Poppable(State(), items) && headSeq < maxSeq
      requires |chain| >= 2 || Seq2Idx(headSeq + 1) != 0
      requires items[0] < mem.next < U64_LIMIT && headPage < mem.next
      modifies this, mem
      ensures mem == old(mem) && mem.Valid() && Ends() && maxSeq == old(maxSeq)
      ensures State() == Regrown(old(State()), old(items)[0]) && items == RegrownQueue(old(State()), old(items))
      ensures KeptOutside(old(mem.pages), mem.pages, [old(tailPage), tailPage]) && old(tailPage) in chain
      ensures old(mem.next) <= mem.next <= old(mem.next) + 1
    {
      ghost var v, q := State(), items;
      var next, head := FlPop();
      AppendListPage(next);
      if head != 0 {
        PushSlot(head);
      }
      assert State() == Regrown(v, q[0]) && items == RegrownQueue(v, q);
    }

    /** The tail page links to page ptr, or to a new page from the store when ptr is 0. */
    method AppendListPage(ptr: U64)
      requires mem.Valid() && Ends() && mem.next < U64_LIMIT
      modifies this, mem
      ensures mem == old(mem) && mem.Valid() && Ends() && State() == Relinked(old(State()), ptr)
      ensures headPage == old(headPage) && items == old(items)
      ensures headSeq == old(headSeq) && maxSeq == old(maxSeq) && tailSeq == old(tailSeq)
      ensures KeptOutside(old(mem.pages), mem.pages, [old(tailPage), tailPage]) && old(tailPage) in chain
      ensures old(mem.next) <= mem.next <= old(mem.next) + 1
    {
      var next := ptr;
      if next == 0 {
        next := NewListPage();
      }
      LinkPage(next);
    }

    /**
     * PushTail: ptr goes into the next free slot of the tail page, and a
     * page that this fills gets a successor through GrowTail.
     */
    method PushTail(ptr: U64)
      requires Valid() && ptr !in chain && ptr !in items && ptr < mem.next < U64_LIMIT
      modifies this, mem
      ensures mem == old(mem) && Valid() && maxSeq == old(maxSeq)
      ensures Seq2Idx(old(tailSeq) + 1) != 0 || old(headSeq) == old(maxSeq) ==> items == old(items) + [ptr]
      ensures Seq2Idx(old(tailSeq) + 1) == 0 && old(headSeq) < old(maxSeq) ==>
                items == old(items)[1..] + [ptr]
                         + (if Seq2Idx(old(headSeq) + 1) == 0 && old(headPage) != 0 then [old(headPage)] else [])
      ensures KeptOutside(old(mem.pages), mem.pages, chain) && old(mem.next) <= mem.next <= old(mem.next) + 1
    {
      if Seq2Idx(tailSeq + 1) != 0 {
        PushInPlace(ptr);
      } else {
        PushWrapping(ptr);
      }
    }

    /** PushTail when the tail page has a free slot after ptr's. */
    method PushInPlace(ptr: U64)
      requires Valid() && ptr !in chain && ptr !in items && ptr < mem.next
      requires Seq2Idx(tailSeq + 1) != 0
      modifies this, mem
      ensures mem == old(mem) && Valid() && maxSeq == old(maxSeq) && items == old(items) + [ptr]
      ensures KeptOutside(old(mem.pages), mem.pages, [tailPage]) && tailPage == old(tailPage) && mem.next == old(mem.next)
    {
      TailPushedInPlace(State(), items, ptr);
      PushSlot(ptr);
    }

    /** PushTail when ptr takes the last slot of the tail page. */
    method PushWrapping(ptr: U64)
      requires Valid() && ptr !in chain && ptr !in items && ptr < mem.next < U64_LIMIT
      requires Seq2Idx(tailSeq + 1) == 0
      modifies this, mem
      ensures mem == old(mem) && Valid() && maxSeq == old(maxSeq)
      ensures old(headSeq) == old(maxSeq) ==> items == old(items) + [ptr]
      ensures old(headSeq) < old(maxSeq) ==>
                items == old(items)[1..] + [ptr]
                         + (if Seq2Idx(old(headSeq) + 1) == 0 && old(headPage) != 0 then [old(headPage)] else [])
      ensures KeptOutside(old(mem.pages), mem.pages, [old(tailPage), tailPage]) && old(tailPage) in chain
      ensures old(mem.next) <= mem.next <= old(mem.next) + 1
    {
      ghost var v, q := State(), items;
      PushedItems(v, q, ptr);
      PushSlot(ptr);
      GrowTail();
      assert q != [] ==> (q + [ptr])[1..] == q[1..] + [ptr];
    }

    /**
     * PopHead: the oldest item; a head page used up by taking it is
     * queued again through PushTail.
     */
    method PopHead() returns (ptr: nat)
      requires Valid() && mem.next < U64_LIMIT
      modifies this, mem
      ensures mem == old(mem) && Valid() && maxSeq == old(maxSeq)
      ensures old(headSeq) == old(maxSeq) ==> ptr == 0 && State() == old(State()) && items == old(items)
      ensures old(headSeq) < old(maxSeq) ==> ptr == old(items)[0] && items == HeadPopped(old(State()), old(items))
      ensures KeptOutside(old(mem.pages), mem.pages, chain) && old(mem.next) <= mem.next <= old(mem.next) + 1
    {
      if headSeq == maxSeq {
        CorePoppable(State(), items);
        var head;
        ptr, head := FlPop();
      } else {
        ptr := PopBelowMax();
      }
    }

    /** PopHead with an item below the watermark. */
    method PopBelowMax() returns (ptr: nat)
      requires Valid() && mem.next < U64_LIMIT && headSeq < maxSeq
      modifies this, mem
      ensures mem == old(mem) && Valid() && maxSeq == old(maxSeq) && ptr == old(items)[0]
      ensures items == HeadPopped(old(State()), old(items))
      ensures KeptOutside(old(mem.pages), mem.pages, chain) && old(mem.next) <= mem.next <= old(mem.next) + 1
    {
      ghost var v, q := State(), items;
      PoppedValid(v, q);
      var head;
      ptr, head := FlPop();
      assert State() == Popped(v) && items == q[1..];
      if head != 0 {
        assert head == v.chain[0] && Seq2Idx(v.headSeq + 1) == 0;
        RequeueHead(head);
      } else {
        assert items == HeadPopped(v, q);
      }
    }

    /**
     * PushTail of a head page that the pop before it used up: the first
     * slot of the new head page is the next one to pop, so a wrap of the
     * tail only takes the oldest item off for the new list page.
     */
    method RequeueHead(head: U64)
      requires Valid() && head !in chain && head !in items && head < mem.next < U64_LIMIT
      requires Seq2Idx(headSeq + 1) != 0
      modifies this, mem
      ensures mem == old(mem) && Valid() && maxSeq == old(maxSeq)
      ensures items == TailPushed(old(State()), old(items), head)
      ensures KeptOutside(old(mem.pages), mem.pages, chain) && old(mem.next) <= mem.next <= old(mem.next) + 1
    {
      PushTail(head);
    }

    /** SetMaxSeq: every item queued so far may now be taken out. */
    method SetMaxSeq()
      requires Valid()
      modifies this
      ensures Valid() && maxSeq == tailSeq && items == old(items)
      ensures headPage == old(headPage) && headSeq == old(headSeq) && tailPage == old(tailPage)
      ensures tailSeq == old(tailSeq) && chain == old(chain)
    {
      ItemsIgnoreMax(State(), items, tailSeq);
      maxSeq := tailSeq;
    }
  }
}
