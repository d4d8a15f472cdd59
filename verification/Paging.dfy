/** Page and size as the services put them right, and what LIMIT and OFFSET select. */
module Paging {

  function Page(page: int): int { if page <= 0 then 1 else page }

  function PageSize(size: int, default: int): int {
    var s := if size <= 0 then default else size;
    if s > 100 then 100 else s
  }

  function Clip(n: int, limit: nat): nat {
    if n < 0 then 0 else if n > limit then limit else n
  }

  /** One page of a result: LIMIT size OFFSET (page - 1) * size. */
  function ListPage<T>(result: seq<T>, page: int, size: int, default: int): (list: seq<T>)
    requires default > 0
    ensures |list| <= PageSize(size, default)
  {
    var limit := PageSize(size, default);
    var offset := (Page(page) - 1) * limit;
    var from := Clip(offset, |result|);
    result[from..Clip(from + limit, |result|)]
  }

  /**
   A page number below 1 means the first page, a size below 1 the default and one above 100 a hundred.
   A page begins where the full pages before it end, and is as long as its size or as what is left.
   */
  lemma PageEntries<T>(result: seq<T>, page: int, size: int, default: int)
    requires 0 < default <= 100
    ensures var list, limit := ListPage(result, page, size, default), PageSize(size, default);
            var before := (if page < 1 then 0 else page - 1) * limit;
            && limit == (if size < 1 then default else if size > 100 then 100 else size)
            && before >= 0
            && list == if 0 <= before < |result|
                       then result[before..if before + limit < |result| then before + limit else |result|] else []
  {
    var limit := PageSize(size, default);
    var pages := Page(page) - 1;
    NoneBefore(pages, limit);
  }

  lemma NoneBefore(pages: nat, limit: nat)
    ensures pages * limit >= 0
  {
  }

  /** With pages of full size the next page continues where the first ones end. */
  lemma NextPage<T>(result: seq<T>, pages: nat)
    requires pages * 100 <= |result|
    ensures var list := ListPage(result, pages + 1, 100, 10);
            && result[..pages * 100] + list == result[..pages * 100 + |list|]
            && |list| == if pages * 100 + 100 <= |result| then 100 else |result| - pages * 100
  {
  }
}
