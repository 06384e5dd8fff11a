/** The page allocator of freelist.go: a stack of released pages reused last-in first-out,
    and a high-water mark `maxPage` that grows when the stack is empty. Page 0 is the meta
    page and is never handed out while the mark does not wrap. Page numbers are `uint64`,
    so the increment wraps modulo 2^64. */
module Allocator {
  import opened Bytes

  /** The meta page's number, the initial high-water mark. */
  const MetaPage: u64 := 0

  datatype Freelist = Freelist(maxPage: u64, releasedPages: seq<u64>)

  /** The allocator after `getNextPage`, and the page it returned. */
  datatype Allocation = Allocation(list: Freelist, page: u64)

  /** `newFreelist`. */
  function NewFreelist(): (f: Freelist)
    ensures f.maxPage == MetaPage && f.releasedPages == []
  {
    Freelist(MetaPage, [])
  }

  /** `getNextPage`: the most recently released page if there is one, otherwise the next
      page past the high-water mark. */
  function GetNextPage(f: Freelist): (a: Allocation)
    ensures |f.releasedPages| > 0 ==>
      && a.page == f.releasedPages[|f.releasedPages| - 1]
      && a.list == Freelist(f.maxPage, f.releasedPages[..|f.releasedPages| - 1])
    ensures |f.releasedPages| == 0 ==>
      && a.list.releasedPages == []
      && a.page == a.list.maxPage
      && (f.maxPage + 1 < U64 ==> a.page == f.maxPage + 1)
  {
    if |f.releasedPages| != 0 then
      var n := |f.releasedPages|;
      Allocation(Freelist(f.maxPage, f.releasedPages[..n - 1]), f.releasedPages[n - 1])
    else
      var m := (f.maxPage + 1) % U64;
      Allocation(Freelist(m, f.releasedPages), m)
  }

  /** `releasePage`: pushes the page, leaving the high-water mark alone. */
  function ReleasePage(f: Freelist, page: u64): (f': Freelist)
    ensures f'.maxPage == f.maxPage
    ensures f'.releasedPages == f.releasedPages + [page]
  {
    Freelist(f.maxPage, f.releasedPages + [page])
  }

  /** Last in, first out: releasing a page and allocating again hands the same page back and
      restores the allocator. */
  lemma ReleaseThenAllocate(f: Freelist, page: u64)
    ensures GetNextPage(ReleasePage(f, page)) == Allocation(f, page)
  {
    assert (f.releasedPages + [page])[..|f.releasedPages|] == f.releasedPages;
  }

  /** A fresh allocation from a mark below 2^64 - 1 is never the meta page. */
  lemma FreshPageNotMeta(f: Freelist)
    requires |f.releasedPages| == 0 && f.maxPage + 1 < U64
    ensures GetNextPage(f).page >= 1 && GetNextPage(f).page != MetaPage
  {
  }

  /** The `uint64` increment wraps: from the largest mark the next fresh page is the meta
      page. */
  lemma FreshPageWraps(f: Freelist)
    requires |f.releasedPages| == 0 && f.maxPage == U64 - 1
    ensures GetNextPage(f).page == MetaPage && GetNextPage(f).list.maxPage == MetaPage
  {
  }

  /** The allocator's invariant against the set of pages in use: released pages are
      distinct, were handed out before (so lie in 1..maxPage), and none is in use; pages in
      use were handed out before too. */
  ghost predicate Valid(f: Freelist, live: set<u64>) {
    && (forall a, b :: 0 <= a < b < |f.releasedPages| ==> f.releasedPages[a] != f.releasedPages[b])
    && (forall j :: 0 <= j < |f.releasedPages| ==>
          1 <= f.releasedPages[j] <= f.maxPage && f.releasedPages[j] !in live)
    && (forall p :: p in live ==> 1 <= p <= f.maxPage)
  }

  lemma NewFreelistValid()
    ensures Valid(NewFreelist(), {})
  {
  }

  /** Under the invariant an allocation hands out a page that is not in use and is not the
      meta page, and the invariant holds with that page in use, as long as a fresh page does
      not wrap the mark. */
  lemma GetNextPageValid(f: Freelist, live: set<u64>)
    requires Valid(f, live)
    requires |f.releasedPages| == 0 ==> f.maxPage + 1 < U64
    ensures GetNextPage(f).page !in live && GetNextPage(f).page != MetaPage
    ensures Valid(GetNextPage(f).list, live + {GetNextPage(f).page})
  {
    var a := GetNextPage(f);
    var n := |f.releasedPages|;
    if n > 0 {
      forall j | 0 <= j < n - 1
        ensures a.list.releasedPages[j] != a.page
      {
        assert f.releasedPages[j] != f.releasedPages[n - 1];
      }
    }
  }

  /** Releasing a page in use keeps the invariant with that page no longer in use. */
  lemma ReleasePageValid(f: Freelist, live: set<u64>, page: u64)
    requires Valid(f, live) && page in live
    ensures Valid(ReleasePage(f, page), live - {page})
  {
    var f' := ReleasePage(f, page);
    forall a, b | 0 <= a < b < |f'.releasedPages|
      ensures f'.releasedPages[a] != f'.releasedPages[b]
    {
      if b == |f.releasedPages| {
        assert f'.releasedPages[a] == f.releasedPages[a];
      }
    }
  }
}
