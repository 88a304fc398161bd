/**
 * The in-memory page store of core/memstore.go: a map from page id to
 * page bytes and a counter that hands out the next id. Both the B+tree and
 * the free list allocate, read and free their pages here.
 */
module MemStore {
  import opened Bytes
  import opened Node

  /** A fresh zeroed buffer of n bytes (Go's make([]byte, n)). */
  function Zeros(n: nat): (r: seq<Byte>)
    ensures |r| == n && forall k :: 0 <= k < n ==> r[k] == 0
  {
    seq(n, _ => 0)
  }

  /**
   * The copy New stores: the bytes of node, followed by zeros up to a
   * page when node is shorter than a page; a longer node is kept whole.
   */
  function Padded(node: seq<Byte>): (r: seq<Byte>)
    ensures |node| < BTREE_PAGE_SIZE ==> |r| == BTREE_PAGE_SIZE
    ensures |node| >= BTREE_PAGE_SIZE ==> r == node
    ensures r[..|node|] == node
    ensures forall k :: |node| <= k < |r| ==> r[k] == 0
  {
    if |node| < BTREE_PAGE_SIZE then node + Zeros(BTREE_PAGE_SIZE - |node|) else node
  }

  /**
   * The page ptr of a page map: the stored bytes, or a zeroed page when
   * ptr holds none.
   */
  function PageIn(pages: map<nat, seq<Byte>>, ptr: nat): (page: seq<Byte>)
    ensures ptr in pages ==> page == pages[ptr]
    ensures ptr !in pages ==> page == Zeros(BTREE_PAGE_SIZE)
  {
    if ptr in pages then pages[ptr] else Zeros(BTREE_PAGE_SIZE)
  }

  class MemPages {
    var pages: map<nat, seq<Byte>>
    var next: nat

    /** Ids start at 1, and every stored page is at least a page long. */
    ghost predicate Valid()
      reads this
    {
      next >= 1 && forall p :: p in pages ==> |pages[p]| >= BTREE_PAGE_SIZE
    }

    /** NewMemPages: no pages, and the first id handed out is 1. */
    constructor ()
      ensures Valid() && pages == map[] && next == 1
    {
      pages := map[];
      next := 1;
    }

    /** Get: the page that ptr names, as PageIn reads it; nothing is stored. */
    function Get(ptr: nat): (page: seq<Byte>)
      reads this
      ensures page == PageIn(pages, ptr)
    {
      PageIn(pages, ptr)
    }

    /**
     * New: stores a copy of node under the current counter, padded to a
     * page, and advances the counter, so that an id is never handed out
     * twice, not even after Del.
     */
    method New(node: seq<Byte>) returns (ptr: nat)
      requires Valid()
      modifies this
      ensures Valid() && ptr == old(next) >= 1 && next == old(next) + 1
      ensures pages == old(pages)[ptr := Padded(node)]
    {
      ptr := next;
      pages := pages[ptr := Padded(node)];
      next := next + 1;
    }

    /** Del: forgets the page ptr, if there is one; the counter is kept. */
    method Del(ptr: nat)
      requires Valid()
      modifies this
      ensures Valid() && pages == old(pages) - {ptr} && next == old(next)
    {
      pages := pages - {ptr};
    }

    /**
     * Write: the page ptr, to be changed in place. A missing page is
     * created zeroed and stored first.
     */
    method Write(ptr: nat) returns (page: seq<Byte>)
      requires Valid()
      modifies this
      ensures Valid() && next == old(next) && page == old(Get(ptr))
      ensures pages == old(pages)[ptr := page]
    {
      if ptr in pages {
        page := pages[ptr];
      } else {
        page := Zeros(BTREE_PAGE_SIZE);
        pages := pages[ptr := page];
      }
    }

    /**
     * The bytes of page ptr become page: the effect of writing through the
     * slice that Write returned.
     */
    method Update(ptr: nat, page: seq<Byte>)
      requires Valid() && ptr in pages && |page| == |pages[ptr]|
      modifies this
      ensures Valid() && next == old(next) && pages == old(pages)[ptr := page]
    {
      pages := pages[ptr := page];
    }

    /** PagesAllocated: the number of stored pages. */
    function PagesAllocated(): (n: nat)
      reads this
      ensures n == |pages.Keys|
    {
      |pages|
    }
  }
}
