/** The page envelope `{items, size, lastEvaluatedKey}` every paginated
    endpoint answers with, whichever DynamoDB API produced the page. */
module PagingResponse {
  import opened JavaLang
  import opened Attributes

  /** The flattened continuation key of the wire response. A value is `None`
      (`null`) where the key attribute has no string component. */
  type FlatKey = map<string, JString>

  /** One page of an enhanced-client result: its items and the key to resume
      after it, `None` when the page carries no key. */
  datatype Page<T> = Page(items: seq<T>, lastEvaluatedKey: Option<AttributeMap>)

  /** An enhanced-client `PageIterable`, as the pages its iterator yields in
      order. */
  type PageIterable<T> = seq<Page<T>>

  /** The envelope. Only the factories below build one. */
  datatype PaginationResponse<T> = PaginationResponse(items: seq<T>, size: nat, lastEvaluatedKey: FlatKey)
  {
    /** `size` counts `items`. */
    predicate Valid()
    {
      size == |items|
    }
  }

  /** `transformLastEvaluatedKey`: a fresh map with every entry's `s()`, and
      an empty map, never `null`, when there is no key. */
  function Flatten(key: Option<AttributeMap>): (r: FlatKey)
    ensures key.None? ==> r == map[]
    ensures key.Some? ==> r.Keys == key.value.Keys
    ensures key.Some? ==> forall k <- r.Keys :: r[k] == key.value[k].S()
  {
    if key.None? then map[] else map k | k in key.value :: key.value[k].S()
  }

  /** `transformLastEvaluatedKey` as written: `forEach` over the entries, each
      `put` into a fresh `HashMap`. */
  method TransformLastEvaluatedKey(key: Option<AttributeMap>) returns (keys: FlatKey)
    ensures keys == Flatten(key)
  {
    keys := map[];
    if key.Some? {
      var todo := key.value.Keys;
      while todo != {}
        invariant todo <= key.value.Keys
        invariant keys == map k | k in key.value.Keys - todo :: key.value[k].S()
        decreases |todo|
      {
        var k :| k in todo;
        keys := keys[k := key.value[k].S()];
        todo := todo - {k};
      }
    }
  }

  /** `from(Page)`: the page's own item list and its key. */
  function FromPage<T>(page: Page<T>): (r: PaginationResponse<T>)
    ensures r.Valid()
    ensures r.items == page.items
    ensures r.lastEvaluatedKey == Flatten(page.lastEvaluatedKey)
  {
    PaginationResponse(page.items, |page.items|, Flatten(page.lastEvaluatedKey))
  }

  /** `from(PageIterable)`: asks a new iterator for its first page, once for
      the items and once for the key; later pages are never read. With no
      page at all `next()` throws. */
  function FromPageIterable<T>(pages: PageIterable<T>): (r: Result<PaginationResponse<T>, Exception>)
    ensures |pages| == 0 <==> r.Failure?
    ensures r.Failure? ==> r.error == NoSuchElement
    ensures r.Success? ==> r.value.Valid()
    ensures r.Success? ==> r.value.items == pages[0].items
    ensures r.Success? ==> r.value.lastEvaluatedKey == Flatten(pages[0].lastEvaluatedKey)
  {
    if |pages| == 0 then Failure(NoSuchElement)
    else
      var items := pages[0].items;
      Success(PaginationResponse(items, |items|, Flatten(pages[0].lastEvaluatedKey)))
  }

  /** `of(List, Map)`: the given list, unchanged, and the given key. */
  function Of<T>(items: seq<T>, key: Option<AttributeMap>): (r: PaginationResponse<T>)
    ensures r.Valid()
    ensures r.items == items
    ensures r.lastEvaluatedKey == Flatten(key)
  {
    PaginationResponse(items, |items|, Flatten(key))
  }

  /** The three factories agree: the same items and key give the same
      envelope, whatever pages follow the first one. */
  lemma FactoriesAgree<T>(items: seq<T>, key: Option<AttributeMap>, later: PageIterable<T>)
    ensures FromPage(Page(items, key)) == Of(items, key)
    ensures FromPageIterable([Page(items, key)] + later) == Success(Of(items, key))
  {
  }

  /** An empty key map and a missing one both flatten to the empty map. */
  lemma EmptyKeyFlattensEmpty()
    ensures Flatten(Some(map[])) == map[]
    ensures Flatten(None) == map[]
  {
  }

  /** A key whose attributes are all strings flattens to exactly those strings. */
  lemma FlattenStrings(key: AttributeMap)
    requires forall k <- key.Keys :: key[k].Str?
    ensures Flatten(Some(key)) == map k | k in key :: Some(key[k].str)
  {
  }

  /** The key of the unit test: two string attributes flatten to their strings. */
  lemma FlattenTestKey()
    ensures Flatten(Some(map["firstName" := Str("Name"), "lastName" := Str("Lastname")]))
         == map["firstName" := Some("Name"), "lastName" := Some("Lastname")]
  {
    var r := Flatten(Some(map["firstName" := Str("Name"), "lastName" := Str("Lastname")]));
    assert r.Keys == {"firstName", "lastName"};
  }
}
