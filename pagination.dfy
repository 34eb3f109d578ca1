/** Paging of `GET /meals`: the query's `page` and `limit` are parsed with a
    fallback default, turned into a skip count, and the collection is read
    from that offset in its natural order. */
module Pagination {
  import opened Documents

  const DefaultPage := 1
  const DefaultLimit := 100

  /** `parseInt(q) || d`. `parsed` is what `parseInt` produced, `None`
      standing for NaN; NaN and 0 are falsy and give way to `d`. */
  function OrDefault(parsed: Option<int>, d: int): (r: int)
    ensures d != 0 ==> r != 0
    ensures r == d || (parsed == Some(r) && r != 0)
    ensures parsed.Some? && parsed.value != 0 ==> r == parsed.value
  {
    if parsed.Some? && parsed.value != 0 then parsed.value else d
  }

  /** `(page - 1) * limit`. */
  function Skip(page: int, limit: int): (r: int)
    ensures page >= 1 && limit >= 1 ==> r >= 0 && r == (page - 1) * limit
  {
    (page - 1) * limit
  }

  function Min(a: int, b: int): int {
    if a < b then a else b
  }

  /** `find().skip(skip).limit(limit)` over the documents in natural order,
      for a positive limit (`limit(0)` would mean no limit at all). */
  function Window<T>(docs: seq<T>, skip: nat, limit: nat): (r: seq<T>)
    requires limit >= 1
    ensures |r| == if skip >= |docs| then 0 else Min(limit, |docs| - skip)
    ensures forall i :: 0 <= i < |r| ==> skip + i < |docs| && r[i] == docs[skip + i]
  {
    if skip >= |docs| then [] else docs[skip..Min(skip + limit, |docs|)]
  }

  /** Page `page` of `limit` documents, both positive. */
  function Page<T>(docs: seq<T>, page: int, limit: int): seq<T>
    requires page >= 1 && limit >= 1
  {
    Window(docs, Skip(page, limit), limit)
  }

  /** What `GET /meals` answers for the parsed `page` and `limit` queries. */
  function MealsPage<T>(docs: seq<T>, pageQuery: Option<int>, limitQuery: Option<int>): (r: seq<T>)
    requires OrDefault(pageQuery, DefaultPage) >= 1 && OrDefault(limitQuery, DefaultLimit) >= 1
    ensures |r| <= OrDefault(limitQuery, DefaultLimit)
    ensures var skip := Skip(OrDefault(pageQuery, DefaultPage), OrDefault(limitQuery, DefaultLimit));
      |r| == if skip >= |docs| then 0 else Min(OrDefault(limitQuery, DefaultLimit), |docs| - skip)
    ensures forall i :: 0 <= i < |r| ==>
      && Skip(OrDefault(pageQuery, DefaultPage), OrDefault(limitQuery, DefaultLimit)) + i < |docs|
      && r[i] == docs[Skip(OrDefault(pageQuery, DefaultPage), OrDefault(limitQuery, DefaultLimit)) + i]
  {
    var page, limit := OrDefault(pageQuery, DefaultPage), OrDefault(limitQuery, DefaultLimit);
    Window(docs, Skip(page, limit), limit)
  }

  /** Without queries the handler answers the first hundred documents. */
  lemma DefaultQueryIsFirstHundred<T>(docs: seq<T>)
    ensures MealsPage(docs, None, None) == docs[..Min(100, |docs|)]
  {
  }

  /** Pages 1 to `k`, one after the other. */
  function FirstPages<T>(docs: seq<T>, limit: int, k: nat): seq<T>
    requires limit >= 1
  {
    if k == 0 then [] else FirstPages(docs, limit, k - 1) + Page(docs, k, limit)
  }

  /** Pages tile the collection: the first `k` pages, read one after the
      other, are exactly its first `k * limit` documents, with no document
      skipped or repeated. */
  lemma {:induction false} PagesTile<T>(docs: seq<T>, limit: int, k: nat)
    requires limit >= 1
    ensures FirstPages(docs, limit, k) == docs[..Min(k * limit, |docs|)]
  {
    if k > 0 {
      PagesTile(docs, limit, k - 1);
      var skip := Skip(k, limit);
      assert skip == (k - 1) * limit;
      assert k * limit == skip + limit;
      var prefix := docs[..Min(skip, |docs|)];
      var page := Page(docs, k, limit);
      if skip >= |docs| {
        assert page == [];
      } else {
        assert page == docs[skip..Min(skip + limit, |docs|)];
        assert prefix + page == docs[..Min(skip + limit, |docs|)];
      }
    }
  }

  /** Every document is on exactly the page its position says: document `i`
      is entry `i % limit` of page `i / limit + 1`. */
  lemma DocumentOnItsPage<T>(docs: seq<T>, limit: int, i: nat)
    requires limit >= 1 && i < |docs|
    ensures i % limit < |Page(docs, i / limit + 1, limit)|
    ensures Page(docs, i / limit + 1, limit)[i % limit] == docs[i]
  {
  }
}
