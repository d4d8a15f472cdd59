/** The fetch-all loops of the gateway over paged lists, and the options built from them. */
module CreateOptions {
  import opened Prelude
  import opened Paging
  import opened Tables

  const OPTIONS_PAGE_SIZE := 100

  /** The loop terminates and has then seen every row once, in order; an empty table costs one call. */
  method FetchAll<T>(table: seq<T>) returns (all: seq<T>, calls: nat)
    ensures all == table
    ensures (calls - 1) * OPTIONS_PAGE_SIZE < |table| <= calls * OPTIONS_PAGE_SIZE || (table == [] && calls == 1)
  {
    all := [];
    calls := 0;
    var page := 1;
    while true
      invariant page == calls + 1
      invariant |all| == calls * OPTIONS_PAGE_SIZE <= |table| && all == table[..|all|]
      invariant calls == 0 || |all| < |table|
      decreases |table| - |all|, 1 - calls
    {
      var list := ListPage(table, page, OPTIONS_PAGE_SIZE, 10);
      all := all + list;
      calls := calls + 1;
      if |list| == 0 || |all| >= |table| {
        return;
      }
      page := page + 1;
    }
  }

  /** The same loop over the pages the auction service returns for a shop. */
  method ListCreateOptionAuctions(table: AuctionTable, shopId: int) returns (all: seq<ListedRow>)
    requires Keyed(table.rows)
    ensures ShopListing(table.Listing(), shopId, all)
  {
    all := [];
    var list, total, whole := table.ListByShop(shopId, 1, OPTIONS_PAGE_SIZE);
    ghost var everything := whole;
    var page := 1;
    NextPage(everything, 0);
    all := all + list;
    while |list| > 0 && |all| < total
      invariant page >= 1 && total == |everything| && ShopListing(table.Listing(), shopId, everything)
      invariant |all| <= |everything| && all == everything[..|all|]
      invariant |all| == page * OPTIONS_PAGE_SIZE || |all| == total
      invariant |list| == 0 ==> |all| == total
      decreases total - |all|
    {
      page := page + 1;
      list, total, whole := table.ListByShop(shopId, page, OPTIONS_PAGE_SIZE);
      ShopListingIsUnique(table.Listing(), shopId, whole, everything);
      NextPage(everything, page - 1);
      all := all + list;
    }
    assert all == everything;
  }

  datatype Goods = Goods(id: int, title: string)

  /** Some undeleted auction of the shop sells these goods. */
  ghost predicate Used(table: set<ListedRow>, shopId: int, goodsId: int) {
    goodsId > 0 && exists row :: row in table && OfShop(row.auction, shopId) && row.auction.goodsId == goodsId
  }

  /** The goods without an auction, in their order. */
  ghost function Unused(goods: seq<Goods>, table: set<ListedRow>, shopId: int): seq<Goods> {
    if goods == [] then [] else
      var front, last := Unused(goods[..|goods| - 1], table, shopId), goods[|goods| - 1];
      if Used(table, shopId, last.id) then front else front + [last]
  }

  /** The goods numbers of the listed auctions. */
  method UsedGoods(list: seq<ListedRow>) returns (used: set<int>)
    ensures forall id :: id in used <==> id > 0 && exists row :: row in list && row.auction.goodsId == id
  {
    used := {};
    var k := 0;
    while k < |list|
      invariant 0 <= k <= |list|
      invariant forall id :: id in used <==> id > 0 && exists row :: row in list[..k] && row.auction.goodsId == id
    {
      assert list[..k + 1] == list[..k] + [list[k]];
      if list[k].auction.goodsId > 0 {
        used := used + {list[k].auction.goodsId};
      }
      k := k + 1;
    }
    assert list[..k] == list;
  }

  /** What the options offer: exactly the on-sale goods for which the shop has no undeleted auction. */
  method GoodsOptions(onSale: seq<Goods>, table: AuctionTable, shopId: int) returns (options: seq<Goods>)
    requires Keyed(table.rows)
    ensures options == Unused(onSale, table.Listing(), shopId)
  {
    var goodsList, calls := FetchAll(onSale);
    var auctionList := ListCreateOptionAuctions(table, shopId);
    var usedGoods := UsedGoods(auctionList);
    assert forall id :: id in usedGoods <==> Used(table.Listing(), shopId, id);
    options := [];
    var k := 0;
    while k < |goodsList|
      invariant 0 <= k <= |goodsList|
      invariant options == Unused(goodsList[..k], table.Listing(), shopId)
    {
      assert goodsList[..k + 1][..k] == goodsList[..k];
      if goodsList[k].id !in usedGoods {
        options := options + [goodsList[k]];
      }
      k := k + 1;
    }
    assert goodsList[..k] == goodsList;
  }

  /** The options are exactly the entries without an undeleted auction, in the order of the goods. */
  lemma {:induction false} UnusedKeepsOrder(goods: seq<Goods>, table: set<ListedRow>, shopId: int)
    returns (at: seq<nat>)
    ensures Picks(goods, at, Unused(goods, table, shopId))
    ensures forall k :: 0 <= k < |goods| ==> (k in at <==> !Used(table, shopId, goods[k].id))
  {
    at := [];
    if goods != [] {
      var n := |goods| - 1;
      var front, last := goods[..n], goods[n];
      at := UnusedKeepsOrder(front, table, shopId);
      PicksOneMore(front, at, Unused(front, table, shopId), last);
      assert goods == front + [last];
      assert n !in at;
      if !Used(table, shopId, last.id) {
        at := at + [n];
      }
    }
  }

  lemma {:induction false} UnusedMembers(goods: seq<Goods>, table: set<ListedRow>, shopId: int, g: Goods)
    ensures g in Unused(goods, table, shopId) <==> g in goods && !Used(table, shopId, g.id)
    ensures Used(table, shopId, g.id) <==>
            g.id > 0 && !(forall row :: row in table && row.auction.shopId == shopId && row.auction.goodsId == g.id ==>
                            row.auction.deleted)
  {
    if goods != [] {
      UnusedMembers(goods[..|goods| - 1], table, shopId, g);
      assert goods == goods[..|goods| - 1] + [goods[|goods| - 1]];
    }
  }
}
