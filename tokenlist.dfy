/** components/bank/components/tokenList.tsx: the search filter over the
    combined balances, the page count and page slices, the page buttons of
    the pagination bar, and the `currentPage` / `searchTerm` state. */
module TokenList {
  import opened Common
  import opened Decimal
  import opened Text
  import opened Seqs
  import opened ChainTypes

  /* ---- search ---- */

  /** A balance matches a search when it has metadata whose display name,
      lower-cased, contains the lower-cased search term. */
  predicate MatchesSearch(b: CombinedBalance, searchTerm: string) {
    b.metadata.Some? && Contains(ToLower(b.metadata.value.display), ToLower(searchTerm))
  }

  /** `filteredBalances`: no list gives no balances; otherwise the matching
      ones, in their order. */
  function FilteredBalances(balances: Option<seq<CombinedBalance>>, searchTerm: string): (r: seq<CombinedBalance>)
    ensures balances.None? ==> r == []
  {
    match balances
    case None => []
    case Some(bs) => Filter(bs, (b: CombinedBalance) => MatchesSearch(b, searchTerm))
  }

  /** A balance is listed exactly when it is in the input and matches. */
  lemma FilteredBalancesMembership(bs: seq<CombinedBalance>, searchTerm: string, b: CombinedBalance)
    ensures b in FilteredBalances(Some(bs), searchTerm) <==> b in bs && MatchesSearch(b, searchTerm)
  {
    var r := FilteredBalances(Some(bs), searchTerm);
    if b in r {
      var i :| 0 <= i < |r| && r[i] == b;
    }
    if b in bs && MatchesSearch(b, searchTerm) {
      var i :| 0 <= i < |bs| && bs[i] == b;
    }
  }

  /** An empty search lists every balance that has metadata, and only those. */
  lemma FilteredBalancesEmptySearch(bs: seq<CombinedBalance>, b: CombinedBalance)
    ensures b in FilteredBalances(Some(bs), "") <==> b in bs && b.metadata.Some?
  {
    FilteredBalancesMembership(bs, "", b);
    if b.metadata.Some? {
      ContainsEmpty(ToLower(b.metadata.value.display));
      assert ToLower("") == "";
    }
  }

  /** The search ignores the case of the term. */
  lemma FilteredBalancesIgnoresCase(bs: seq<CombinedBalance>, searchTerm: string)
    ensures FilteredBalances(Some(bs), ToUpper(searchTerm)) == FilteredBalances(Some(bs), searchTerm)
  {
    assert ToLower(ToUpper(searchTerm)) == ToLower(searchTerm) by {
      forall i | 0 <= i < |searchTerm|
        ensures LowerChar(UpperChar(searchTerm[i])) == LowerChar(searchTerm[i])
      {
      }
    }
    FilterSamePredicate(bs, ToUpper(searchTerm), searchTerm);
  }

  lemma {:induction false} FilterSamePredicate(bs: seq<CombinedBalance>, t: string, u: string)
    requires ToLower(t) == ToLower(u)
    ensures Filter(bs, (b: CombinedBalance) => MatchesSearch(b, t)) ==
            Filter(bs, (b: CombinedBalance) => MatchesSearch(b, u))
  {
    if bs != [] {
      FilterSamePredicate(bs[1..], t, u);
    }
  }

  /* ---- pages ---- */

  /** `Math.max(1, Math.ceil(n / pageSize))`: the fewest pages of pageSize
      items that hold n items, and never fewer than one. */
  function TotalPages(n: nat, pageSize: nat): (t: nat)
    requires pageSize >= 1
    ensures t >= 1
    ensures n <= t * pageSize
    ensures n > 0 ==> (t - 1) * pageSize < n
    ensures n == 0 ==> t == 1
  {
    if n == 0 then 1
    else
      var t := (n + pageSize - 1) / pageSize;
      DivBounds(n + pageSize - 1, pageSize);
      assert (t - 1) * pageSize == t * pageSize - pageSize;
      t
  }

  /** The page count is the only one with those bounds: any count of at
      least one page that holds n items, with its last page non-empty when
      n > 0, is `TotalPages`. */
  lemma TotalPagesUnique(n: nat, pageSize: nat, t: nat)
    requires pageSize >= 1 && t >= 1
    requires n <= t * pageSize
    requires n > 0 ==> (t - 1) * pageSize < n
    requires n == 0 ==> t == 1
    ensures t == TotalPages(n, pageSize)
  {
    var u := TotalPages(n, pageSize);
    if n > 0 {
      if t < u {
        MulLe(t, u - 1, pageSize);
      } else if u < t {
        MulLe(u, t - 1, pageSize);
      }
    }
  }

  /** `filtered.slice((page - 1) * pageSize, page * pageSize)`, both ends
      clipped to the list. */
  function PageSlice<T>(s: seq<T>, page: nat, pageSize: nat): (r: seq<T>)
    requires page >= 1
    ensures |r| <= pageSize
    ensures forall i | 0 <= i < |r| :: (page - 1) * pageSize + i < |s| && r[i] == s[(page - 1) * pageSize + i]
    ensures (page - 1) * pageSize < |s| ==> |r| == Min(page * pageSize, |s|) - (page - 1) * pageSize
    ensures (page - 1) * pageSize >= |s| ==> r == []
  {
    PageEnd(page, pageSize);
    Clipped(s, (page - 1) * pageSize, page * pageSize)
  }

  /** `s.slice(lo, hi)` for 0 <= lo <= hi: both ends clipped to the list. */
  function Clipped<T>(s: seq<T>, lo: nat, hi: nat): (r: seq<T>)
    requires lo <= hi
    ensures |r| <= hi - lo
    ensures forall i | 0 <= i < |r| :: lo + i < |s| && r[i] == s[lo + i]
    ensures lo < |s| ==> |r| == Min(hi, |s|) - lo
    ensures lo >= |s| ==> r == []
  {
    s[Min(lo, |s|)..Min(hi, |s|)]
  }

  lemma PageEnd(page: nat, pageSize: nat)
    requires page >= 1
    ensures 0 <= (page - 1) * pageSize
    ensures page * pageSize == (page - 1) * pageSize + pageSize
  {
    MulLe(0, page - 1, pageSize);
  }

  /** Pages 1 to k, one after the other. */
  function PagesUpTo<T>(s: seq<T>, pageSize: nat, k: nat): seq<T> {
    if k == 0 then [] else PagesUpTo(s, pageSize, k - 1) + PageSlice(s, k, pageSize)
  }

  /** The first k pages are the first k * pageSize items. */
  lemma {:induction false} PagesUpToPrefix<T>(s: seq<T>, pageSize: nat, k: nat)
    ensures PagesUpTo(s, pageSize, k) == s[..Min(k * pageSize, |s|)]
  {
    if k > 0 {
      PagesUpToPrefix(s, pageSize, k - 1);
      var lo, hi := (k - 1) * pageSize, k * pageSize;
      PageEnd(k, pageSize);
      assert PageSlice(s, k, pageSize) == Clipped(s, lo, hi);
      var a, b := Min(lo, |s|), Min(hi, |s|);
      assert Clipped(s, lo, hi) == s[a..b];
      assert PagesUpTo(s, pageSize, k) == s[..a] + s[a..b];
      PrefixJoin(s, a, b);
    }
  }

  lemma PrefixJoin<T>(s: seq<T>, a: nat, b: nat)
    requires a <= b <= |s|
    ensures s[..a] + s[a..b] == s[..b]
  {
  }

  /** The pages 1..TotalPages hold the whole filtered list, in order, each
      item once. */
  lemma PagesCoverList<T>(s: seq<T>, pageSize: nat)
    requires pageSize >= 1
    ensures PagesUpTo(s, pageSize, TotalPages(|s|, pageSize)) == s
  {
    PagesUpToPrefix(s, pageSize, TotalPages(|s|, pageSize));
  }

  /** No page from 1 to TotalPages is empty while the list is not. */
  lemma PagesNonEmpty<T>(s: seq<T>, pageSize: nat, page: nat)
    requires pageSize >= 1 && s != []
    requires 1 <= page <= TotalPages(|s|, pageSize)
    ensures PageSlice(s, page, pageSize) != []
  {
    MulLe(page - 1, TotalPages(|s|, pageSize) - 1, pageSize);
  }

  /* ---- pagination bar ---- */

  /** What the bar shows for one page number. */
  datatype PageItem = PageButton | Ellipsis | Hidden

  /** Page k gets a button when it is the first page, the last page or next
      to the current page; an ellipsis when it is two away from the current
      page; nothing otherwise. */
  function PageItemFor(k: int, current: int, total: int): PageItem {
    if k == 1 || k == total || (current - 1 <= k <= current + 1) then PageButton
    else if k == current - 2 || k == current + 2 then Ellipsis
    else Hidden
  }

  function ButtonPages(current: int, total: nat): set<int> {
    set k | 1 <= k <= total && PageItemFor(k, current, total).PageButton?
  }

  function EllipsisPages(current: int, total: nat): set<int> {
    set k | 1 <= k <= total && PageItemFor(k, current, total).Ellipsis?
  }

  /** The bar shows at most five page buttons and at most two ellipses,
      whatever the number of pages. */
  lemma PageItemsBounded(current: int, total: nat)
    ensures |ButtonPages(current, total)| <= 5
    ensures |EllipsisPages(current, total)| <= 2
  {
    var near: set<int> := {1, total, current - 1, current, current + 1};
    assert ButtonPages(current, total) <= near;
    SubsetCard(ButtonPages(current, total), near);
    var far: set<int> := {current - 2, current + 2};
    assert EllipsisPages(current, total) <= far;
    SubsetCard(EllipsisPages(current, total), far);
  }

  lemma SubsetCard(a: set<int>, b: set<int>)
    requires a <= b
    ensures |a| <= |b|
  {
    assert b == a + (b - a);
  }

  /** The first, the last and the current page always have buttons. */
  lemma PageItemsAnchors(current: int, total: nat)
    requires 1 <= current <= total
    ensures PageItemFor(1, current, total) == PageButton
    ensures PageItemFor(total, current, total) == PageButton
    ensures PageItemFor(current, current, total) == PageButton
  {
  }

  /** Every hidden page lies beyond an ellipsis: between it and the current
      page there is a page marked "...". */
  lemma HiddenPagesMarked(k: int, current: int, total: nat)
    requires 1 <= k <= total && 1 <= current <= total
    requires PageItemFor(k, current, total) == Hidden
    ensures k < current ==> k < current - 2 && PageItemFor(current - 2, current, total) == Ellipsis
    ensures k > current ==> current + 2 < k && PageItemFor(current + 2, current, total) == Ellipsis
  {
  }

  /** The bar reads the same from either end: mirroring the pages mirrors
      the entries. */
  lemma PageItemsMirror(k: int, current: int, total: nat)
    ensures PageItemFor(total + 1 - k, total + 1 - current, total) == PageItemFor(k, current, total)
  {
  }

  /* ---- page state ---- */

  /** The component's `currentPage` and `searchTerm`. */
  class Pager {
    var currentPage: int
    var searchTerm: string

    ghost predicate Valid()
      reads this
    {
      currentPage >= 1
    }

    /** A new list starts on page 1 with no search. */
    constructor()
      ensures Valid()
      ensures currentPage == 1 && searchTerm == ""
    {
      currentPage := 1;
      searchTerm := "";
    }

    /** The "‹" button: one page back, never below page 1. */
    method Previous()
      requires Valid()
      modifies this
      ensures Valid()
      ensures currentPage == Max(1, old(currentPage) - 1)
      ensures old(currentPage) <= currentPage + 1 && currentPage <= old(currentPage)
      ensures searchTerm == old(searchTerm)
    {
      currentPage := Max(1, currentPage - 1);
    }

    /** The "›" button: one page on, never past the last page. */
    method Next(totalPages: int)
      requires Valid() && totalPages >= 1
      modifies this
      ensures Valid()
      ensures currentPage == Min(totalPages, old(currentPage) + 1)
      ensures currentPage <= totalPages
      ensures old(currentPage) <= totalPages ==> old(currentPage) <= currentPage
      ensures searchTerm == old(searchTerm)
    {
      currentPage := Min(totalPages, currentPage + 1);
    }

    /** A page button: jumps to its page. */
    method SelectPage(page: int)
      requires Valid() && page >= 1
      modifies this
      ensures Valid()
      ensures currentPage == page
      ensures searchTerm == old(searchTerm)
    {
      currentPage := page;
    }

    /** A new search term sends the list back to page 1; the same term
      leaves the page as it was. */
    method SetSearchTerm(term: string)
      requires Valid()
      modifies this
      ensures Valid()
      ensures searchTerm == term
      ensures currentPage == if term != old(searchTerm) then 1 else old(currentPage)
    {
      if term != searchTerm {
        currentPage := 1;
      }
      searchTerm := term;
    }

    /** `paginatedBalances`: the current page of the filtered balances. */
    function PaginatedBalances(balances: Option<seq<CombinedBalance>>, pageSize: nat): seq<CombinedBalance>
      reads this
      requires Valid()
    {
      var filtered := FilteredBalances(balances, searchTerm);
      PageSlice(filtered, currentPage, pageSize)
    }
  }
}
