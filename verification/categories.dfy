/** The admin categories list: a case-insensitive name search and pages of
    ten with Previous / Next controls. */
module Categories {
  import opened Common
  import opened Seqs
  import opened Text

  datatype Category = Category(id: string, name: string)

  const ItemsPerPage: int := 10

  /** The name contains the search term, both lower-cased. */
  predicate MatchesSearch(c: Category, search: string) {
    Contains(ToLower(c.name), ToLower(search))
  }

  /** `filteredCategories`: the categories matching the debounced search, in
      their original order. */
  function FilterCategories(categories: seq<Category>, search: string): (r: seq<Category>)
    ensures forall i :: 0 <= i < |r| ==> r[i] in categories && MatchesSearch(r[i], search)
    ensures forall i :: 0 <= i < |categories| && MatchesSearch(categories[i], search)
              ==> categories[i] in r
    ensures multiset(r) <= multiset(categories)
    ensures IsSubsequence(r, categories)
    ensures forall i :: 0 <= i < |categories| ==>
              multiset(r)[categories[i]] == if MatchesSearch(categories[i], search) then multiset(categories)[categories[i]] else 0
  {
    var p := (c: Category) => MatchesSearch(c, search);
    FilterIsSubsequence(categories, p);
    FilterCount(categories, p);
    Filter(categories, p)
  }

  /** An empty search lists every category. */
  lemma EmptySearchKeepsAll(categories: seq<Category>)
    ensures FilterCategories(categories, "") == categories
  {
    forall c: Category ensures MatchesSearch(c, "") {
      ContainsEmpty(ToLower(c.name));
    }
    FilterKeepsAll(categories, (c: Category) => MatchesSearch(c, ""));
  }

  /** The letter case of the search term does not matter. */
  lemma SearchIgnoresCase(categories: seq<Category>, search: string)
    ensures FilterCategories(categories, search) == FilterCategories(categories, ToLower(search))
  {
    ToLowerIdempotent(search);
    FilterAgrees(categories, (c: Category) => MatchesSearch(c, search),
                 (c: Category) => MatchesSearch(c, ToLower(search)));
  }

  /** A category whose name holds the term in any case is found. */
  lemma NameInfixFound(categories: seq<Category>, i: int, before: string, term: string, after: string)
    requires 0 <= i < |categories|
    requires ToLower(categories[i].name) == before + ToLower(term) + after
    ensures categories[i] in FilterCategories(categories, term)
  {
    ContainsInfix(before, ToLower(term), after);
  }

  /** `Math.ceil(count / itemsPerPage)`. */
  function TotalPages(count: nat): (t: nat)
    ensures count == 0 ==> t == 0
    ensures count > 0 ==> ItemsPerPage * (t - 1) < count <= ItemsPerPage * t
  {
    (count + ItemsPerPage - 1) / ItemsPerPage
  }

  /** Where `Array.prototype.slice` starts or ends for index `i` on a list of
      `len` items: negative indices count from the end, all are clamped. */
  function SliceIndex(len: nat, i: int): (k: nat)
    ensures k <= len
  {
    if i < 0 then (if len + i < 0 then 0 else len + i)
    else if i < len then i else len
  }

  /** `s.slice(start, end)`. */
  function JsSlice<T>(s: seq<T>, start: int, end: int): seq<T> {
    var a := SliceIndex(|s|, start);
    var b := SliceIndex(|s|, end);
    if a < b then s[a..b] else []
  }

  /** `paginatedCategories`: the slice of page `page`. */
  function PageItems<T>(items: seq<T>, page: int): (r: seq<T>)
    ensures |r| <= ItemsPerPage
  {
    JsSlice(items, (page - 1) * ItemsPerPage, page * ItemsPerPage)
  }

  function Min(a: int, b: int): int {
    if a < b then a else b
  }

  /** From page 1 on, page `p` holds items 10(p-1) to 10p - 1, as many of
      them as exist. */
  lemma PageWindow<T>(items: seq<T>, page: int)
    requires page >= 1
    ensures PageItems(items, page)
            == items[Min((page - 1) * ItemsPerPage, |items|)..Min(page * ItemsPerPage, |items|)]
  {
  }

  /** Every page up to the last is full but the last, which is not empty;
      a page after the last is empty. */
  lemma PageSizes<T>(items: seq<T>, page: int)
    requires page >= 1
    ensures page < TotalPages(|items|) ==> |PageItems(items, page)| == ItemsPerPage
    ensures page == TotalPages(|items|) ==> 0 < |PageItems(items, page)|
    ensures page > TotalPages(|items|) ==> PageItems(items, page) == []
  {
    PageWindow(items, page);
  }

  /** Pages 1 to `k` in order. */
  function FirstPages<T>(items: seq<T>, k: nat): seq<T> {
    if k == 0 then [] else FirstPages(items, k - 1) + PageItems(items, k)
  }

  /** The first `k` pages are the first `10k` items. */
  lemma {:induction false} FirstPagesArePrefix<T>(items: seq<T>, k: nat)
    ensures FirstPages(items, k) == items[..Min(k * ItemsPerPage, |items|)]
  {
    if k > 0 {
      FirstPagesArePrefix(items, k - 1);
      PageWindow(items, k);
      var a := Min((k - 1) * ItemsPerPage, |items|);
      var b := Min(k * ItemsPerPage, |items|);
      assert items[..a] + items[a..b] == items[..b];
    }
  }

  /** Paging through all pages shows every matching category once, in
      order. */
  lemma AllPagesShowEverything<T>(items: seq<T>)
    ensures FirstPages(items, TotalPages(|items|)) == items
  {
    FirstPagesArePrefix(items, TotalPages(|items|));
    assert items[..|items|] == items;
  }

  /** The Previous button: one page back, never before page 1. */
  function PreviousPage(page: int): (p: int)
    ensures p >= 1
    ensures page > 1 ==> p == page - 1
  {
    if page - 1 > 1 then page - 1 else 1
  }

  /** The Next button: one page on, never past the last page. */
  function NextPage(page: int, totalPages: int): (p: int)
    ensures p <= totalPages
    ensures page < totalPages ==> p == page + 1
  {
    if page + 1 < totalPages then page + 1 else totalPages
  }

  /** The controls are shown only when there is more than one page. */
  predicate ControlsShown(totalPages: int) {
    totalPages > 1
  }

  /** From a page in range, both buttons stay in range; each is disabled
      exactly when it would not move; and one step on and back returns. */
  lemma NavigationStaysInRange(page: int, totalPages: int)
    requires ControlsShown(totalPages) && 1 <= page <= totalPages
    ensures 1 <= PreviousPage(page) <= totalPages
    ensures 1 <= NextPage(page, totalPages) <= totalPages
    ensures PreviousPage(page) == page <==> page == 1
    ensures NextPage(page, totalPages) == page <==> page == totalPages
    ensures page < totalPages ==> PreviousPage(NextPage(page, totalPages)) == page
    ensures page > 1 ==> NextPage(PreviousPage(page), totalPages) == page
  {
  }

  /** The page state: the search term and the current page. */
  datatype ListState = ListState(search: string, page: int)

  /** A new debounced search term always returns to page 1. */
  function SearchChanged(st: ListState, search: string): (r: ListState)
    ensures r.page == 1 && r.search == search
  {
    ListState(search, 1)
  }

  /** After a new search the first page shows the first ten matches. */
  lemma NewSearchShowsFirstMatches(categories: seq<Category>, st: ListState, search: string)
    ensures PageItems(FilterCategories(categories, SearchChanged(st, search).search), SearchChanged(st, search).page)
            == FilterCategories(categories, search)[..Min(ItemsPerPage, |FilterCategories(categories, search)|)]
  {
    PageWindow(FilterCategories(categories, search), 1);
  }
}
