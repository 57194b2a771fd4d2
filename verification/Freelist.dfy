/** The page allocator (core/freelist.cpp, core/freelist.h). */
module Freelists {

  /** The allocator's state: the last page number ever given out, and the returned pages. */
  datatype Free = Free(maxPage: nat, released: seq<nat>)

  /** The allocator after one allocation, and the page it gives: the last one returned, else a new one. */
  function NextPage(f: Free): (r: (Free, nat)) {
    if f.released != [] then (f.(released := f.released[..|f.released| - 1]), f.released[|f.released| - 1])
    else (f.(maxPage := f.maxPage + 1), f.maxPage + 1)
  }

  function ReleasePage(f: Free, page: nat): Free {
    f.(released := f.released + [page])
  }

  /** Pages 0 and 1 hold the meta data and the free list. */
  const FIRST_DATA_PAGE := 2

  /** No page is used twice, used and free, or free twice; all of them are data pages given out before. */
  ghost predicate Safe(f: Free, used: multiset<nat>) {
    && f.maxPage >= 1
    && (forall p :: (used + multiset(f.released))[p] <= 1)
    && (forall p :: p in used + multiset(f.released) ==> FIRST_DATA_PAGE <= p <= f.maxPage)
  }

  /** An allocated page was neither used nor reserved, and using it keeps the allocator safe. */
  lemma NextPageIsFresh(f: Free, used: multiset<nat>)
    requires Safe(f, used)
    ensures NextPage(f).1 !in used && FIRST_DATA_PAGE <= NextPage(f).1
    ensures Safe(NextPage(f).0, used + multiset{NextPage(f).1})
  {
    if f.released != [] {
      var n := |f.released| - 1;
      assert f.released == f.released[..n] + [f.released[n]];
      var all := used + multiset(f.released);
      assert all == used + multiset{f.released[n]} + multiset(f.released[..n]);
      assert all[f.released[n]] <= 1;
    } else {
      var q := f.maxPage + 1;
      var all := used + multiset(f.released);
      assert used + multiset{q} + multiset(f.released) == all + multiset{q};
      assert q !in all;
    }
  }

  /** Returning a used page only moves it from the used to the free pages. */
  lemma ReleaseIsSafe(f: Free, used: multiset<nat>, page: nat)
    requires Safe(f, used + multiset{page})
    ensures Safe(ReleasePage(f, page), used)
  {
    assert multiset(f.released + [page]) == multiset(f.released) + multiset{page};
    assert used + multiset{page} + multiset(f.released) == used + multiset(f.released + [page]);
  }

  /** Forgetting used pages (a leak) keeps the allocator safe. */
  lemma SafeSubset(f: Free, used: multiset<nat>, less: multiset<nat>)
    requires Safe(f, used) && less <= used
    ensures Safe(f, less)
  {
    forall p
      ensures (less + multiset(f.released))[p] <= (used + multiset(f.released))[p]
    {
      assert less[p] <= used[p];
    }
    forall p | p in less + multiset(f.released)
      ensures p in used + multiset(f.released)
    {
      assert (less + multiset(f.released))[p] <= (used + multiset(f.released))[p];
    }
    forall p
      ensures (less + multiset(f.released))[p] <= 1
    {
      assert (less + multiset(f.released))[p] <= (used + multiset(f.released))[p];
    }
  }

  class Freelist {
    var maxPage: nat
    var releasedPages: seq<nat>

    function State(): Free
      reads this
    {
      Free(maxPage, releasedPages)
    }

    constructor (maxPage: nat, releasedPages: seq<nat>)
      ensures State() == Free(maxPage, releasedPages)
    {
      this.maxPage := maxPage;
      this.releasedPages := releasedPages;
    }

    method GetNextPage() returns (page: nat)
      modifies this
      ensures (State(), page) == NextPage(old(State()))
      ensures old(releasedPages) != [] ==>
                && old(releasedPages) == releasedPages + [page] && maxPage == old(maxPage)
      ensures old(releasedPages) == [] ==>
                && page == maxPage == old(maxPage) + 1 && releasedPages == []
    {
      if releasedPages != [] {
        page := releasedPages[|releasedPages| - 1];
        releasedPages := releasedPages[..|releasedPages| - 1];
        return;
      }
      maxPage := maxPage + 1;
      page := maxPage;
    }

    method Release(page: nat)
      modifies this
      ensures State() == ReleasePage(old(State()), page)
      ensures releasedPages == old(releasedPages) + [page] && maxPage == old(maxPage)
    {
      releasedPages := releasedPages + [page];
    }
  }
}
