/**
 * The query string of one navigation link: the caller's extra parameters,
 * then `page`, `size` and, when the page is sorted, `sort`; the rewrite of
 * the sort's text form into the `sort` value; and the rendering of the
 * parameters after the request's base URI.
 */
module LinkQuery {
  import opened Wrappers
  import opened JavaLang

  /** Why building a link throws: `sortParams[1]` on a token array of this length. */
  datatype BuildError = SortTokenMissing(tokens: nat)

  /** One `key=value` pair of a query string. */
  type QueryParam = (string, string)

  /** A multi-value map in insertion order: each key with the values added under it. */
  type MultiValueMap = seq<(string, seq<string>)>

  // ---------------------------------------------------------------------
  // the sort parameter
  // ---------------------------------------------------------------------

  /**
   * The `sort` value for a sort whose text form is `sort`: split on `:`,
   * token 1 lower-cased and trimmed, all tokens re-joined with `,`. Token 1
   * must exist, otherwise the array access throws.
   */
  function SortValue(sort: string): (r: Result<string, BuildError>)
    ensures r.Failure? <==> |Split(sort, ':')| < 2
    ensures r.Failure? ==> r.error == SortTokenMissing(|Split(sort, ':')|)
  {
    var tokens := Split(sort, ':');
    if |tokens| < 2 then Failure(SortTokenMissing(|tokens|))
    else Success(Join(tokens[1 := Trim(ToLower(tokens[1]))], ','))
  }

  /** The rewrite throws exactly when no `:` is followed, somewhere later, by a character other than `:`. */
  lemma SortValueFails(sort: string)
    ensures SortValue(sort).Failure?
        <==> !exists i, j :: 0 <= i < j < |sort| && sort[i] == ':' && sort[j] != ':'
  {
    SplitHasSecondToken(sort, ':');
  }

  /** In particular a sort text without any `:` makes the rewrite throw. */
  lemma SortValueWithoutColon(sort: string)
    requires ':' !in sort
    ensures SortValue(sort).Failure?
  {
    SortValueFails(sort);
  }

  /** A sort text `field:direction` becomes `field,direction` with the direction lower-cased and trimmed. */
  lemma SortValueFieldDirection(field: string, direction: string)
    requires ':' !in field && ':' !in direction && direction != ""
    ensures SortValue(field + ":" + direction) == Success(field + "," + Trim(ToLower(direction)))
  {
    var parts := [field, direction];
    assert Join(parts, ':') == field + ":" + direction;
    SplitAllJoin(parts, ':');
    var tokens := Split(field + ":" + direction, ':');
    assert tokens == parts;
    var rewritten := tokens[1 := Trim(ToLower(direction))];
    assert rewritten == [field, Trim(ToLower(direction))];
    assert Join(rewritten, ',') == field + "," + Trim(ToLower(direction));
  }

  /** The text Spring prints for an ascending sort on `name`, `name: ASC`, gives `name,asc`. */
  lemma SortValueExample()
    ensures SortValue("name" + ":" + " ASC") == Success("name" + "," + "asc")
  {
    SortValueFieldDirection("name", " ASC");
    ToLowerExample();
    TrimExample();
  }

  /** The rewrite introduces no character except `,` and lower-case letters. */
  lemma SortValueExcludes(sort: string, c: char)
    requires c !in sort && c != ',' && !('a' <= c <= 'z')
    requires SortValue(sort).Success?
    ensures c !in SortValue(sort).value
  {
    var tokens := Split(sort, ':');
    var lowered := ToLower(tokens[1]);
    assert c !in tokens[1];
    forall i | 0 <= i < |lowered| ensures lowered[i] != c {
      if IsUpper(tokens[1][i]) {
        assert 'a' <= lowered[i] <= 'z';
      } else {
        assert lowered[i] == tokens[1][i];
      }
    }
    var rewritten := tokens[1 := Trim(lowered)];
    assert forall i :: 0 <= i < |rewritten| ==> c !in rewritten[i];
  }

  // ---------------------------------------------------------------------
  // the parameters of one link
  // ---------------------------------------------------------------------

  /** One pair per value of a key, in the order the values were added. */
  function Pairs(key: string, values: seq<string>): (q: seq<QueryParam>)
  {
    seq(|values|, j requires 0 <= j < |values| => (key, values[j]))
  }

  /** The pairs a multi-value map contributes, key by key, each key's values in order. */
  function Flatten(m: MultiValueMap): (q: seq<QueryParam>)
    ensures forall p :: p in q ==> exists k :: 0 <= k < |m| && p.0 == m[k].0 && p.1 in m[k].1
  {
    if |m| == 0 then [] else Pairs(m[0].0, m[0].1) + Flatten(m[1..])
  }

  /** The values of the pairs whose key is `key`, in order (what a reader of the query sees under `key`). */
  function ValuesOf(q: seq<QueryParam>, key: string): seq<string>
  {
    if |q| == 0 then []
    else (if q[0].0 == key then [q[0].1] else []) + ValuesOf(q[1..], key)
  }

  lemma {:induction false} ValuesOfAppend(a: seq<QueryParam>, b: seq<QueryParam>, key: string)
    ensures ValuesOf(a + b, key) == ValuesOf(a, key) + ValuesOf(b, key)
  {
    if |a| == 0 {
      assert a + b == b;
    } else {
      var ab := a + b;
      assert ab[0] == a[0];
      assert ab[1..] == a[1..] + b;
      ValuesOfAppend(a[1..], b, key);
      var head := if a[0].0 == key then [a[0].1] else [];
      assert ValuesOf(ab, key) == head + (ValuesOf(a[1..], key) + ValuesOf(b, key));
      assert ValuesOf(a, key) == head + ValuesOf(a[1..], key);
    }
  }

  lemma {:induction false} ValuesOfPairs(k: string, vs: seq<string>, key: string)
    ensures ValuesOf(Pairs(k, vs), key) == if k == key then vs else []
  {
    var q := Pairs(k, vs);
    if |vs| > 0 {
      ValuesOfPairs(k, vs[1..], key);
      assert q[1..] == Pairs(k, vs[1..]);
      if k == key {
        assert vs == [vs[0]] + vs[1..];
      }
    }
  }

  predicate DistinctKeys(m: MultiValueMap) {
    forall i, j :: 0 <= i < j < |m| ==> m[i].0 != m[j].0
  }

  /** A key that is absent from the map has no values in its pairs. */
  lemma {:induction false} FlattenAbsent(m: MultiValueMap, key: string)
    requires forall i :: 0 <= i < |m| ==> m[i].0 != key
    ensures ValuesOf(Flatten(m), key) == []
  {
    if |m| > 0 {
      ValuesOfPairs(m[0].0, m[0].1, key);
      FlattenAbsent(m[1..], key);
      ValuesOfAppend(Pairs(m[0].0, m[0].1), Flatten(m[1..]), key);
    }
  }

  /** Every value of a key of the map survives in its pairs, in order. */
  lemma {:induction false} FlattenValues(m: MultiValueMap, i: nat)
    requires DistinctKeys(m) && i < |m|
    ensures ValuesOf(Flatten(m), m[i].0) == m[i].1
  {
    ValuesOfAppend(Pairs(m[0].0, m[0].1), Flatten(m[1..]), m[i].0);
    ValuesOfPairs(m[0].0, m[0].1, m[i].0);
    if i == 0 {
      FlattenAbsent(m[1..], m[0].0);
    } else {
      FlattenValues(m[1..], i - 1);
    }
  }

  /**
   * The `page` and `size` pairs, then the `sort` pair when there is a sort;
   * the page and size values read back as the numbers they were made from.
   */
  function PagingParams(page: Int32, size: Int32, sortValue: Option<string>): (r: seq<QueryParam>)
    ensures |r| == 2 + (if sortValue.Some? then 1 else 0)
    ensures r[0].0 == "page" && ParseDecimal(r[0].1) == Some(page as int)
    ensures r[1].0 == "size" && ParseDecimal(r[1].1) == Some(size as int)
    ensures sortValue.Some? ==> r[2] == ("sort", sortValue.value)
  {
    IntToStringRoundTrip(page);
    IntToStringRoundTrip(size);
    [("page", IntToString(page)), ("size", IntToString(size))]
      + (match sortValue case None => [] case Some(v) => [("sort", v)])
  }

  /**
   * The query pairs of one link: the caller's pairs, then `page`, `size` and,
   * for a sorted page, `sort`. Throws when the sort text cannot be rewritten.
   */
  function PageQuery(queryParams: MultiValueMap, page: Int32, size: Int32, sort: Option<string>)
    : (r: Result<seq<QueryParam>, BuildError>)
    ensures r.Success? <==> SortParses(sort)
    ensures r.Failure? ==> r.error == SortValue(sort.value).error
  {
    match sort
    case None => Success(Flatten(queryParams) + PagingParams(page, size, None))
    case Some(s) =>
      var v :- SortValue(s);
      Success(Flatten(queryParams) + PagingParams(page, size, Some(v)))
  }

  /** The sort is absent or its text can be rewritten. */
  predicate SortParses(sort: Option<string>) {
    sort.None? || SortValue(sort.value).Success?
  }

  /** The `sort` values a link carries for a given sort: none when unsorted. */
  function SortValues(sort: Option<string>): seq<string>
    requires SortParses(sort)
  {
    if sort.None? then [] else [SortValue(sort.value).value]
  }

  predicate PagingKeysFree(m: MultiValueMap) {
    forall i :: 0 <= i < |m| ==> m[i].0 != "page" && m[i].0 != "size" && m[i].0 != "sort"
  }

  lemma ValuesOfSingle(pair: QueryParam, key: string)
    ensures ValuesOf([pair], key) == if pair.0 == key then [pair.1] else []
  {
    assert [pair][1..] == [];
  }

  /** The values the paging pairs hold under one key. */
  lemma PagingValuesOf(page: Int32, size: Int32, sortValue: Option<string>, key: string)
    ensures ValuesOf(PagingParams(page, size, sortValue), key)
         == (if key == "page" then [IntToString(page)] else [])
            + (if key == "size" then [IntToString(size)] else [])
            + (if key == "sort" && sortValue.Some? then [sortValue.value] else [])
  {
    var pagePair, sizePair := ("page", IntToString(page)), ("size", IntToString(size));
    var sortPairs: seq<QueryParam> := if sortValue.None? then [] else [("sort", sortValue.value)];
    assert PagingParams(page, size, sortValue) == [pagePair] + ([sizePair] + sortPairs);
    ValuesOfAppend([pagePair], [sizePair] + sortPairs, key);
    ValuesOfAppend([sizePair], sortPairs, key);
    ValuesOfSingle(pagePair, key);
    ValuesOfSingle(sizePair, key);
    if sortValue.Some? {
      ValuesOfSingle(("sort", sortValue.value), key);
    }
  }

  /** The paging pairs hold one `page`, one `size`, at most one `sort` value and nothing else. */
  lemma PagingValues(page: Int32, size: Int32, sortValue: Option<string>)
    ensures var paging := PagingParams(page, size, sortValue);
      && ValuesOf(paging, "page") == [IntToString(page)]
      && ValuesOf(paging, "size") == [IntToString(size)]
      && ValuesOf(paging, "sort") == (if sortValue.None? then [] else [sortValue.value])
      && forall key :: key != "page" && key != "size" && key != "sort" ==> ValuesOf(paging, key) == []
  {
    PagingValuesOf(page, size, sortValue, "page");
    PagingValuesOf(page, size, sortValue, "size");
    PagingValuesOf(page, size, sortValue, "sort");
    forall key | key != "page" && key != "size" && key != "sort"
      ensures ValuesOf(PagingParams(page, size, sortValue), key) == []
    {
      PagingValuesOf(page, size, sortValue, key);
    }
  }

  /** A key that the caller did not use has, in the whole query, only the values of the paging pairs. */
  lemma PagingKeyValues(queryParams: MultiValueMap, paging: seq<QueryParam>, key: string)
    requires forall i :: 0 <= i < |queryParams| ==> queryParams[i].0 != key
    ensures ValuesOf(Flatten(queryParams) + paging, key) == ValuesOf(paging, key)
  {
    FlattenAbsent(queryParams, key);
    ValuesOfAppend(Flatten(queryParams), paging, key);
  }

  /** A caller key has, in the whole query, exactly the values the caller gave it. */
  lemma CallerKeyValues(queryParams: MultiValueMap, paging: seq<QueryParam>, i: nat)
    requires DistinctKeys(queryParams) && i < |queryParams|
    requires ValuesOf(paging, queryParams[i].0) == []
    ensures ValuesOf(Flatten(queryParams) + paging, queryParams[i].0) == queryParams[i].1
  {
    FlattenValues(queryParams, i);
    ValuesOfAppend(Flatten(queryParams), paging, queryParams[i].0);
  }

  /**
   * The query of a link holds the caller's pairs first and unchanged; after
   * them exactly one `page` and one `size` value and, only for a sorted page,
   * one `sort` value; and every caller key keeps all of its values in order.
   */
  lemma PageQueryValues(queryParams: MultiValueMap, page: Int32, size: Int32, sort: Option<string>)
    requires DistinctKeys(queryParams) && PagingKeysFree(queryParams)
    requires PageQuery(queryParams, page, size, sort).Success?
    ensures var q := PageQuery(queryParams, page, size, sort).value;
      && q[..|Flatten(queryParams)|] == Flatten(queryParams)
      && q[|Flatten(queryParams)|..] == [("page", IntToString(page)), ("size", IntToString(size))]
                                        + (if sort.None? then [] else [("sort", SortValue(sort.value).value)])
      && |q| == |Flatten(queryParams)| + 2 + |SortValues(sort)|
      && ValuesOf(q, "page") == [IntToString(page)]
      && ValuesOf(q, "size") == [IntToString(size)]
      && ValuesOf(q, "sort") == SortValues(sort)
      && forall i :: 0 <= i < |queryParams| ==> ValuesOf(q, queryParams[i].0) == queryParams[i].1
  {
    var flat := Flatten(queryParams);
    var sortValue := if sort.None? then None else Some(SortValue(sort.value).value);
    var paging := PagingParams(page, size, sortValue);
    var q := PageQuery(queryParams, page, size, sort).value;
    assert q == flat + paging;
    assert q[..|flat|] == flat;
    assert q[|flat|..] == paging;
    assert paging == [("page", IntToString(page)), ("size", IntToString(size))]
                     + (if sort.None? then [] else [("sort", SortValue(sort.value).value)]);
    PagingValues(page, size, sortValue);
    PagingKeyValues(queryParams, paging, "page");
    PagingKeyValues(queryParams, paging, "size");
    PagingKeyValues(queryParams, paging, "sort");
    forall i | 0 <= i < |queryParams|
      ensures ValuesOf(q, queryParams[i].0) == queryParams[i].1
    {
      CallerKeyValues(queryParams, paging, i);
    }
  }

  /** With no sort the query is exactly the caller's pairs followed by `page` and `size`. */
  lemma PageQueryUnsorted(queryParams: MultiValueMap, page: Int32, size: Int32)
    ensures PageQuery(queryParams, page, size, None)
         == Success(Flatten(queryParams) + [("page", IntToString(page)), ("size", IntToString(size))])
  {
    assert PagingParams(page, size, None) == [("page", IntToString(page)), ("size", IntToString(size))];
  }

  /** With a sort whose text can be rewritten the query is the caller's pairs, then `page`, `size` and `sort`. */
  lemma PageQuerySorted(queryParams: MultiValueMap, page: Int32, size: Int32, sort: string)
    requires SortValue(sort).Success?
    ensures PageQuery(queryParams, page, size, Some(sort))
         == Success(Flatten(queryParams)
                    + [("page", IntToString(page)), ("size", IntToString(size)), ("sort", SortValue(sort).value)])
  {
    assert PagingParams(page, size, Some(SortValue(sort).value))
        == [("page", IntToString(page)), ("size", IntToString(size)), ("sort", SortValue(sort).value)];
  }

  // ---------------------------------------------------------------------
  // rendering the link and reading its query back
  // ---------------------------------------------------------------------

  /** The `key=value` text of each pair. */
  function Pieces(q: seq<QueryParam>): seq<string>
  {
    seq(|q|, i requires 0 <= i < |q| => q[i].0 + "=" + q[i].1)
  }

  /** `key=value` pairs joined with `&`. */
  function Render(q: seq<QueryParam>): string
  {
    Join(Pieces(q), '&')
  }

  /** The base URI, then `?` and the query when there is one: the href always starts with the base URI. */
  function Href(baseUri: string, q: seq<QueryParam>): (r: string)
    ensures |q| == 0 ==> r == baseUri
    ensures |q| >= 1 ==> |r| > |baseUri| && r[..|baseUri| + 1] == baseUri + "?"
  {
    if |q| == 0 then baseUri else baseUri + "?" + Render(q)
  }

  /** The part of a URI after its first `?`. */
  function QueryOf(href: string): string
  {
    Join(SplitAll(href, '?')[1..], '?')
  }

  /** Splits one `key=value` piece at its first `=`. */
  function ParsePair(piece: string): QueryParam
  {
    var parts := SplitAll(piece, '=');
    (parts[0], Join(parts[1..], '='))
  }

  /** Reads the pairs back from a query string. */
  function ParseQuery(query: string): seq<QueryParam>
  {
    var pieces := SplitAll(query, '&');
    seq(|pieces|, i requires 0 <= i < |pieces| => ParsePair(pieces[i]))
  }

  /** The pairs can be read back: no key holds `&` or `=`, no value holds `&`. */
  predicate Unambiguous(q: seq<QueryParam>) {
    forall i :: 0 <= i < |q| ==> '&' !in q[i].0 && '=' !in q[i].0 && '&' !in q[i].1
  }

  lemma ParsePairRender(key: string, value: string)
    requires '=' !in key
    ensures ParsePair(key + "=" + value) == (key, value)
  {
    assert key + "=" + value == key + (['='] + value);
    SplitAllPrefix(key, ['='] + value, '=');
    SplitAllSeparator(value, '=');
    JoinSplitAll(value, '=');
    assert key + "" == key;
  }

  /** Reading the rendered query gives back exactly the pairs, in order. */
  lemma ParseRender(q: seq<QueryParam>)
    requires |q| >= 1 && Unambiguous(q)
    ensures ParseQuery(Render(q)) == q
  {
    var pieces := Pieces(q);
    forall i | 0 <= i < |q| ensures '&' !in pieces[i] {
      assert pieces[i] == q[i].0 + "=" + q[i].1;
    }
    SplitAllJoin(pieces, '&');
    forall i | 0 <= i < |q| ensures ParsePair(pieces[i]) == q[i] {
      ParsePairRender(q[i].0, q[i].1);
    }
  }

  /** The query of a link is found again after the base URI, when the base holds no `?`. */
  lemma QueryOfHref(baseUri: string, q: seq<QueryParam>)
    requires '?' !in baseUri && |q| >= 1
    ensures QueryOf(Href(baseUri, q)) == Render(q)
  {
    var rendered := Render(q);
    assert Href(baseUri, q) == baseUri + (['?'] + rendered);
    SplitAllPrefix(baseUri, ['?'] + rendered, '?');
    SplitAllSeparator(rendered, '?');
    JoinSplitAll(rendered, '?');
  }

  /** The pairs of a link are read back from its href. */
  lemma HrefRoundTrip(baseUri: string, q: seq<QueryParam>)
    requires '?' !in baseUri && |q| >= 1 && Unambiguous(q)
    ensures ParseQuery(QueryOf(Href(baseUri, q))) == q
  {
    QueryOfHref(baseUri, q);
    ParseRender(q);
  }

  /** The query of a link can be read back when the caller's pairs and the sort text hold no `&` or stray `=`. */
  lemma PageQueryUnambiguous(queryParams: MultiValueMap, page: Int32, size: Int32, sort: Option<string>)
    requires Unambiguous(Flatten(queryParams))
    requires sort.Some? ==> '&' !in sort.value
    requires PageQuery(queryParams, page, size, sort).Success?
    ensures Unambiguous(PageQuery(queryParams, page, size, sort).value)
  {
    var flat := Flatten(queryParams);
    var sortValue := if sort.None? then None else Some(SortValue(sort.value).value);
    var paging := PagingParams(page, size, sortValue);
    assert PageQuery(queryParams, page, size, sort).value == flat + paging;
    if sort.Some? {
      SortValueExcludes(sort.value, '&');
    }
    PagingUnambiguous(page, size, sortValue);
    UnambiguousAppend(flat, paging);
  }

  /** The paging pairs can be read back when the sort value holds no `&`. */
  lemma PagingUnambiguous(page: Int32, size: Int32, sortValue: Option<string>)
    requires sortValue.Some? ==> '&' !in sortValue.value
    ensures Unambiguous(PagingParams(page, size, sortValue))
  {
    var paging := PagingParams(page, size, sortValue);
    assert '&' !in "page" && '=' !in "page" && '&' !in "size" && '=' !in "size" && '&' !in "sort" && '=' !in "sort";
    assert '&' !in IntToString(page) && '&' !in IntToString(size);
    forall i | 0 <= i < |paging|
      ensures '&' !in paging[i].0 && '=' !in paging[i].0 && '&' !in paging[i].1
    {
      assert paging[i] == ("page", IntToString(page)) || paging[i] == ("size", IntToString(size))
          || (sortValue.Some? && paging[i] == ("sort", sortValue.value));
    }
  }

  lemma UnambiguousAppend(a: seq<QueryParam>, b: seq<QueryParam>)
    requires Unambiguous(a) && Unambiguous(b)
    ensures Unambiguous(a + b)
  {
    forall i | 0 <= i < |a + b|
      ensures '&' !in (a + b)[i].0 && '=' !in (a + b)[i].0 && '&' !in (a + b)[i].1
    {
      if i < |a| {
        assert (a + b)[i] == a[i];
      } else {
        assert (a + b)[i] == b[i - |a|];
      }
    }
  }
}
