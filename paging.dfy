/**
 * A page of results decorated with hypermedia navigation links: previous
 * (when the page has one), next (when the page has one), first, last and
 * self, each pointing at the current request's URI with the caller's extra
 * query parameters and the paging parameters of the page it leads to.
 */
module Paging {
  import opened Wrappers
  import opened JavaLang
  import opened LinkQuery

  /**
   * The page of results being wrapped, as its own accessors report it. The
   * sort is given by its text form (`Sort.toString()`), absent when the page
   * reports no sort.
   */
  datatype Page<T> = Page(
    number: Int32,
    size: Int32,
    totalPages: Int32,
    totalElements: Int64,
    numberOfElements: Int32,
    hasPrevious: bool,
    hasNext: bool,
    isFirst: bool,
    isLast: bool,
    hasContent: bool,
    content: seq<T>,
    sort: Option<string>)

  /** A request for one page, as a page would describe its neighbours. */
  datatype Pageable = Pageable(pageNumber: Int32, pageSize: Int32, sort: Option<string>)

  /** The navigation relations. */
  datatype Rel = Previous | Next | First | Last | Self

  /** The relation names of Spring HATEOAS's `Link.REL_*` constants. */
  function RelName(rel: Rel): string
  {
    match rel
    case Previous => "prev"
    case Next => "next"
    case First => "first"
    case Last => "last"
    case Self => "self"
  }

  /** Different relations have different names, so a link's rel tells which relation it is. */
  lemma RelNameInjective(a: Rel, b: Rel)
    ensures RelName(a) == RelName(b) <==> a == b
  {
  }

  /** A hypermedia link: where it points and how it relates to the page. */
  datatype Link = Link(href: string, rel: string)

  /**
   * The page index a relation's link points to, computed in `int`
   * arithmetic and never clamped: the exact index, wrapped around into the
   * `int` range.
   */
  function PageIndex<T>(page: Page<T>, rel: Rel): (index: Int32)
    ensures index == Wrap32(match rel
                            case Previous => page.number - 1
                            case Next => page.number + 1
                            case First => 0
                            case Last => page.totalPages - 1
                            case Self => page.number)
  {
    WrapAround(page.number, 1);
    WrapAround(page.totalPages, 1);
    match rel
    case Previous => Sub32(page.number, 1)
    case Next => Add32(page.number, 1)
    case First => 0
    case Last => Sub32(page.totalPages, 1)
    case Self => page.number
  }

  /**
   * The relations the wrapper links, in the order it adds them: previous
   * exactly when the page has a previous page, next exactly when it has a
   * next page, and always first, last and self, at the end.
   */
  function Rels<T>(page: Page<T>): (rels: seq<Rel>)
    ensures |rels| == 3 + (if page.hasPrevious then 1 else 0) + (if page.hasNext then 1 else 0)
    ensures rels[|rels| - 3..] == [First, Last, Self]
    ensures Previous in rels <==> page.hasPrevious
    ensures Next in rels <==> page.hasNext
  {
    (if page.hasPrevious then [Previous] else [])
      + (if page.hasNext then [Next] else [])
      + [First, Last, Self]
  }

  /**
   * One link: the base URI with the caller's parameters, then `page`, `size`
   * and the rewritten `sort`, paired with the relation's name.
   */
  function BuildPageLink(
    page: Int32, size: Int32, sort: Option<string>, rel: Rel,
    queryParams: MultiValueMap, baseUri: string): (r: Result<Link, BuildError>)
    ensures r.Success? <==> SortParses(sort)
    ensures r.Success? ==> r.value.rel == RelName(rel)
    ensures r.Success? ==> |r.value.href| > |baseUri| && r.value.href[..|baseUri| + 1] == baseUri + "?"
    ensures r.Failure? ==> r.error == SortValue(sort.value).error
  {
    var q :- PageQuery(queryParams, page, size, sort);
    Success(Link(Href(baseUri, q), RelName(rel)))
  }

  /**
   * The link built for one relation of a page: it exists exactly when the
   * page's sort can be rewritten, carries the relation's name and points
   * below the base URI.
   */
  function LinkFor<T>(page: Page<T>, rel: Rel, queryParams: MultiValueMap, baseUri: string)
    : (r: Result<Link, BuildError>)
    ensures r.Success? <==> SortParses(page.sort)
    ensures r.Success? ==> r.value.rel == RelName(rel)
    ensures r.Success? ==> |r.value.href| > |baseUri| && r.value.href[..|baseUri| + 1] == baseUri + "?"
    ensures r.Failure? ==> r.error == SortValue(page.sort.value).error
  {
    BuildPageLink(PageIndex(page, rel), page.size, page.sort, rel, queryParams, baseUri)
  }

  /**
   * Every link the wrapper adds for a page, in the order it adds them, or
   * the failure that aborts the construction: every link shares the page's
   * sort, so either the sort text can be rewritten and every link is built,
   * or the first link already throws.
   */
  function PageLinks<T>(page: Page<T>, queryParams: MultiValueMap, baseUri: string): (r: Result<seq<Link>, BuildError>)
    ensures r.Success? <==> SortParses(page.sort)
    ensures r.Success? ==> |r.value| == |Rels(page)|
    ensures r.Failure? ==> r.error == SortValue(page.sort.value).error
  {
    if !SortParses(page.sort) then Failure(SortValue(page.sort.value).error)
    else
      var none: seq<Link> := [];
      var withPrevious := if page.hasPrevious then none + [LinkFor(page, Previous, queryParams, baseUri).value] else none;
      var withNext := if page.hasNext then withPrevious + [LinkFor(page, Next, queryParams, baseUri).value] else withPrevious;
      Success(withNext
              + [LinkFor(page, First, queryParams, baseUri).value]
              + [LinkFor(page, Last, queryParams, baseUri).value]
              + [LinkFor(page, Self, queryParams, baseUri).value])
  }

  /** Appending one element after `a + b` is appending it to `b`. */
  lemma AppendOne(a: seq<Link>, b: seq<Link>, x: Link)
    ensures a + b + [x] == a + (b + [x])
  {
  }

  /**
   * In a list shaped like the wrapper's (an optional previous, an optional
   * next, then first, last and self), position `i` holds the link of the
   * `i`-th relation of the matching relation list.
   */
  lemma LinkPositions(hasPrevious: bool, hasNext: bool, previous: Link, next: Link, first: Link, last: Link, self: Link)
    ensures var none: seq<Link> := [];
            var withPrevious := if hasPrevious then none + [previous] else none;
            var withNext := if hasNext then withPrevious + [next] else withPrevious;
            var links := withNext + [first] + [last] + [self];
            var rels := (if hasPrevious then [Previous] else []) + (if hasNext then [Next] else []) + [First, Last, Self];
      && |links| == |rels|
      && forall i :: 0 <= i < |rels| ==>
           links[i] == match rels[i]
                       case Previous => previous
                       case Next => next
                       case First => first
                       case Last => last
                       case Self => self
  {
  }

  /** The `i`-th link of a page is the link built for the `i`-th relation the wrapper adds. */
  lemma PageLinksByRel<T>(page: Page<T>, queryParams: MultiValueMap, baseUri: string)
    requires SortParses(page.sort)
    ensures |PageLinks(page, queryParams, baseUri).value| == |Rels(page)|
    ensures forall i :: 0 <= i < |Rels(page)| ==>
      LinkFor(page, Rels(page)[i], queryParams, baseUri) == Success(PageLinks(page, queryParams, baseUri).value[i])
  {
    var rels := Rels(page);
    var links := PageLinks(page, queryParams, baseUri).value;
    LinkPositions(page.hasPrevious, page.hasNext,
      LinkFor(page, Previous, queryParams, baseUri).value, LinkFor(page, Next, queryParams, baseUri).value,
      LinkFor(page, First, queryParams, baseUri).value, LinkFor(page, Last, queryParams, baseUri).value,
      LinkFor(page, Self, queryParams, baseUri).value);
    forall i | 0 <= i < |rels|
      ensures LinkFor(page, rels[i], queryParams, baseUri) == Success(links[i])
    {
      match rels[i]
      case Previous =>
      case Next =>
      case First =>
      case Last =>
      case Self =>
    }
  }

  /** The relation names of a list of links. */
  function RelsOf(links: seq<Link>): seq<string>
  {
    seq(|links|, i requires 0 <= i < |links| => links[i].rel)
  }

  /**
   * The wrapper: the page it was built from, and the links that were added to
   * it one at a time.
   */
  class PagedResources<T> {
    const page: Page<T>
    var links: seq<Link>

    /** A wrapper around `page` with no links yet. */
    constructor (page: Page<T>)
      ensures this.page == page && links == []
    {
      this.page := page;
      links := [];
    }

    /** Appends one link. */
    method Add(link: Link)
      modifies this
      ensures links == old(links) + [link]
    {
      links := links + [link];
    }

    /**
     * Builds the link for one relation and appends it; when building throws,
     * nothing is appended.
     */
    method AddPageLink(rel: Rel, queryParams: MultiValueMap, baseUri: string) returns (outcome: Outcome<BuildError>)
      modifies this
      ensures outcome.Pass? <==> SortParses(page.sort)
      ensures outcome.Pass? ==> links == old(links) + [LinkFor(page, rel, queryParams, baseUri).value]
      ensures outcome.Fail? ==> links == old(links) && outcome.error == SortValue(page.sort.value).error
    {
      var link := BuildPageLink(PageIndex(page, rel), page.size, page.sort, rel, queryParams, baseUri);
      if link.Failure? {
        return Fail(link.error);
      }
      Add(link.value);
      return Pass;
    }

    /**
     * Adds previous (if the page has a previous page), next (if it has a next
     * page), first, last and self, in that order. Building a link throws when
     * the sort text has no token after its first `:`; since every link shares
     * the sort, that happens at the first link and nothing is added.
     */
    method AddLinks(queryParams: MultiValueMap, baseUri: string) returns (outcome: Outcome<BuildError>)
      modifies this
      ensures outcome.Pass? <==> PageLinks(page, queryParams, baseUri).Success?
      ensures outcome.Pass? ==> links == old(links) + PageLinks(page, queryParams, baseUri).value
      ensures outcome.Fail? ==> links == old(links) && outcome.error == PageLinks(page, queryParams, baseUri).error
    {
      ghost var added: seq<Link> := [];
      assert links == old(links) + added;
      if page.hasPrevious {
        outcome := AddPageLink(Previous, queryParams, baseUri);
        if outcome.Fail? {
          return;
        }
        AppendOne(old(links), added, LinkFor(page, Previous, queryParams, baseUri).value);
        added := added + [LinkFor(page, Previous, queryParams, baseUri).value];
        assert links == old(links) + added;
      }
      if page.hasNext {
        outcome := AddPageLink(Next, queryParams, baseUri);
        if outcome.Fail? {
          return;
        }
        AppendOne(old(links), added, LinkFor(page, Next, queryParams, baseUri).value);
        added := added + [LinkFor(page, Next, queryParams, baseUri).value];
        assert links == old(links) + added;
      }
      outcome := AddPageLink(First, queryParams, baseUri);
      if outcome.Fail? {
        return;
      }
      AppendOne(old(links), added, LinkFor(page, First, queryParams, baseUri).value);
      added := added + [LinkFor(page, First, queryParams, baseUri).value];
      assert links == old(links) + added;
      // The remaining links share the sort that the first link just rewrote,
      // so building them cannot throw: no early return is needed.
      outcome := AddPageLink(Last, queryParams, baseUri);
      AppendOne(old(links), added, LinkFor(page, Last, queryParams, baseUri).value);
      added := added + [LinkFor(page, Last, queryParams, baseUri).value];
      assert links == old(links) + added;
      outcome := AddPageLink(Self, queryParams, baseUri);
      AppendOne(old(links), added, LinkFor(page, Self, queryParams, baseUri).value);
      added := added + [LinkFor(page, Self, queryParams, baseUri).value];
      assert links == old(links) + added;
      assert added == PageLinks(page, queryParams, baseUri).value;
    }

    /** Wraps a page with no extra query parameters; fails as the link building does. */
    static method Create(page: Page<T>, baseUri: string) returns (r: Result<PagedResources<T>, BuildError>)
      ensures r.Success? <==> PageLinks(page, [], baseUri).Success?
      ensures r.Success? ==> fresh(r.value) && r.value.page == page && r.value.links == PageLinks(page, [], baseUri).value
      ensures r.Failure? ==> r.error == PageLinks(page, [], baseUri).error
    {
      r := CreateWithParams(page, [], baseUri);
    }

    /** Wraps a page, repeating the caller's query parameters on every link; fails as the link building does. */
    static method CreateWithParams(page: Page<T>, queryParams: MultiValueMap, baseUri: string)
      returns (r: Result<PagedResources<T>, BuildError>)
      ensures r.Success? <==> PageLinks(page, queryParams, baseUri).Success?
      ensures r.Success? ==> fresh(r.value) && r.value.page == page
                             && r.value.links == PageLinks(page, queryParams, baseUri).value
      ensures r.Failure? ==> r.error == PageLinks(page, queryParams, baseUri).error
    {
      var resources := new PagedResources(page);
      var outcome := resources.AddLinks(queryParams, baseUri);
      if outcome.Fail? {
        return Failure(outcome.error);
      }
      return Success(resources);
    }

    // The accessors report the wrapped page unchanged.

    function Number(): (r: Int32)
      ensures r == page.number
    {
      page.number
    }

    function Size(): (r: Int32)
      ensures r == page.size
    {
      page.size
    }

    function TotalPages(): (r: Int32)
      ensures r == page.totalPages
    {
      page.totalPages
    }

    function NumberOfElements(): (r: Int32)
      ensures r == page.numberOfElements
    {
      page.numberOfElements
    }

    function TotalElements(): (r: Int64)
      ensures r == page.totalElements
    {
      page.totalElements
    }

    function HasPrevious(): (r: bool)
      ensures r == page.hasPrevious
    {
      page.hasPrevious
    }

    function HasNext(): (r: bool)
      ensures r == page.hasNext
    {
      page.hasNext
    }

    function IsFirst(): (r: bool)
      ensures r == page.isFirst
    {
      page.isFirst
    }

    function IsLast(): (r: bool)
      ensures r == page.isLast
    {
      page.isLast
    }

    function Content(): (r: seq<T>)
      ensures r == page.content
    {
      page.content
    }

    function HasContent(): (r: bool)
      ensures r == page.hasContent
    {
      page.hasContent
    }

    function Sort(): (r: Option<string>)
      ensures r == page.sort
    {
      page.sort
    }

    /** Mapping the content to another element type is not implemented: always null. */
    function Map<S>(converter: T -> S): (r: Option<Page<S>>)
      ensures r == None
    {
      None
    }

    /** Not implemented: always null. */
    function NextPageable(): (r: Option<Pageable>)
      ensures r == None
    {
      None
    }

    /** Not implemented: always null. */
    function PreviousPageable(): (r: Option<Pageable>)
      ensures r == None
    {
      None
    }
  }

  // ---------------------------------------------------------------------
  // what the links of a page are
  // ---------------------------------------------------------------------

  /** Building the links fails exactly when the page is sorted and its sort text cannot be rewritten. */
  lemma PageLinksFail<T>(page: Page<T>, queryParams: MultiValueMap, baseUri: string)
    ensures PageLinks(page, queryParams, baseUri).Failure?
        <==> page.sort.Some? && !(exists i, j :: 0 <= i < j < |page.sort.value|
                                   && page.sort.value[i] == ':' && page.sort.value[j] != ':')
  {
    if page.sort.Some? {
      SortValueFails(page.sort.value);
    }
  }

  /** The names of a list of relations. */
  function RelNames(rels: seq<Rel>): (names: seq<string>)
    ensures |names| == |rels|
  {
    seq(|rels|, i requires 0 <= i < |rels| => RelName(rels[i]))
  }

  /** The names of the relations the wrapper adds, written out. */
  lemma RelNamesOfPage<T>(page: Page<T>)
    ensures RelNames(Rels(page)) == (if page.hasPrevious then ["prev"] else [])
                                    + (if page.hasNext then ["next"] else [])
                                    + ["first", "last", "self"]
  {
    var names := RelNames(Rels(page));
    if page.hasPrevious && page.hasNext {
      assert names == ["prev", "next", "first", "last", "self"];
    } else if page.hasPrevious {
      assert names == ["prev", "first", "last", "self"];
    } else if page.hasNext {
      assert names == ["next", "first", "last", "self"];
    } else {
      assert names == ["first", "last", "self"];
    }
  }

  /**
   * The links are previous (only if the page has a previous page), next (only
   * if it has a next page), then always first, last and self, in that order.
   */
  lemma LinkOrder<T>(page: Page<T>, queryParams: MultiValueMap, baseUri: string)
    requires PageLinks(page, queryParams, baseUri).Success?
    ensures var links := PageLinks(page, queryParams, baseUri).value;
      && RelsOf(links) == (if page.hasPrevious then ["prev"] else [])
                          + (if page.hasNext then ["next"] else [])
                          + ["first", "last", "self"]
      && |links| == 3 + (if page.hasPrevious then 1 else 0) + (if page.hasNext then 1 else 0)
      && RelsOf(links)[|links| - 3..] == ["first", "last", "self"]
  {
    var links := PageLinks(page, queryParams, baseUri).value;
    PageLinksByRel(page, queryParams, baseUri);
    assert RelsOf(links) == RelNames(Rels(page));
    RelNamesOfPage(page);
  }

  /** A previous link appears exactly when the page has a previous page, a next link exactly when it has a next page. */
  lemma OptionalLinks<T>(page: Page<T>, queryParams: MultiValueMap, baseUri: string)
    requires PageLinks(page, queryParams, baseUri).Success?
    ensures "prev" in RelsOf(PageLinks(page, queryParams, baseUri).value) <==> page.hasPrevious
    ensures "next" in RelsOf(PageLinks(page, queryParams, baseUri).value) <==> page.hasNext
  {
    var links := PageLinks(page, queryParams, baseUri).value;
    PageLinksByRel(page, queryParams, baseUri);
    assert RelsOf(links) == RelNames(Rels(page));
    NameInRelNames(Rels(page), Previous);
    NameInRelNames(Rels(page), Next);
  }

  /** A relation's name is among the names of a list of relations exactly when the relation is in the list. */
  lemma NameInRelNames(rels: seq<Rel>, rel: Rel)
    ensures RelName(rel) in RelNames(rels) <==> rel in rels
  {
    var names := RelNames(rels);
    if RelName(rel) in names {
      var i :| 0 <= i < |names| && names[i] == RelName(rel);
      RelNameInjective(rels[i], rel);
    }
    if rel in rels {
      var i :| 0 <= i < |rels| && rels[i] == rel;
      assert names[i] == RelName(rel);
    }
  }

  /**
   * For a page in the range its accessors promise (a non-negative number
   * below the largest `int`, a non-negative page count), the page indices are
   * number - 1, number + 1, 0, totalPages - 1 and number: in particular a page
   * count of 0 gives a last link to page -1.
   */
  lemma PageIndices<T>(page: Page<T>)
    requires 0 <= page.number < INT_MAX && 0 <= page.totalPages
    ensures PageIndex(page, Previous) == page.number - 1
    ensures PageIndex(page, Next) == page.number + 1
    ensures PageIndex(page, First) == 0
    ensures PageIndex(page, Last) == page.totalPages - 1
    ensures PageIndex(page, Self) == page.number
  {
  }

  /**
   * What a reader finds in an href built for page `index`: the base URI and
   * `?`, then the caller's pairs first and unchanged (every caller key with
   * all its values), then `page`, `size` and, for a sorted page, `sort`, in
   * that order; `page` holds exactly the decimal index, `size` exactly the
   * decimal size.
   */
  predicate ReadsBackAs(
    href: string, baseUri: string, queryParams: MultiValueMap,
    index: Int32, size: Int32, sort: Option<string>)
  {
    var q := ParseQuery(QueryOf(href));
    var flat := Flatten(queryParams);
    && |href| > |baseUri| && href[..|baseUri| + 1] == baseUri + "?"
    && SortParses(sort)
    && |q| == |flat| + 2 + |SortValues(sort)|
    && q[..|flat|] == flat
    && q[|flat|..] == [("page", IntToString(index)), ("size", IntToString(size))]
                      + (if sort.None? then [] else [("sort", SortValue(sort.value).value)])
    && (forall k :: 0 <= k < |queryParams| ==> ValuesOf(q, queryParams[k].0) == queryParams[k].1)
    && ValuesOf(q, "page") == [IntToString(index)]
    && ParseDecimal(ValuesOf(q, "page")[0]) == Some(index as int)
    && ValuesOf(q, "size") == [IntToString(size)]
    && ParseDecimal(ValuesOf(q, "size")[0]) == Some(size as int)
    && ValuesOf(q, "sort") == SortValues(sort)
  }

  /** The href of one link reads back as the query built for its page index, size and sort. */
  lemma PageLinkQuery(
    index: Int32, size: Int32, sort: Option<string>, rel: Rel,
    queryParams: MultiValueMap, baseUri: string)
    requires DistinctKeys(queryParams) && PagingKeysFree(queryParams) && Unambiguous(Flatten(queryParams))
    requires '?' !in baseUri
    requires sort.Some? ==> '&' !in sort.value
    requires BuildPageLink(index, size, sort, rel, queryParams, baseUri).Success?
    ensures ReadsBackAs(BuildPageLink(index, size, sort, rel, queryParams, baseUri).value.href,
                        baseUri, queryParams, index, size, sort)
  {
    var pq := PageQuery(queryParams, index, size, sort);
    assert BuildPageLink(index, size, sort, rel, queryParams, baseUri).value.href == Href(baseUri, pq.value);
    PageQueryValues(queryParams, index, size, sort);
    PageQueryUnambiguous(queryParams, index, size, sort);
    HrefRoundTrip(baseUri, pq.value);
    IntToStringRoundTrip(index);
    IntToStringRoundTrip(size);
  }

  /**
   * Link `i` of a page carries the name of relation `i` and reads back as
   * the query for that relation's page index with the page's size and sort:
   * the same caller pairs, size and sort on every link, and links that
   * differ only in `page`.
   */
  lemma LinkQueries<T>(page: Page<T>, queryParams: MultiValueMap, baseUri: string, i: nat)
    requires DistinctKeys(queryParams) && PagingKeysFree(queryParams) && Unambiguous(Flatten(queryParams))
    requires '?' !in baseUri
    requires page.sort.Some? ==> '&' !in page.sort.value
    requires PageLinks(page, queryParams, baseUri).Success?
    requires i < |PageLinks(page, queryParams, baseUri).value|
    ensures var link := PageLinks(page, queryParams, baseUri).value[i];
            var rel := Rels(page)[i];
      && link.rel == RelName(rel)
      && ReadsBackAs(link.href, baseUri, queryParams, PageIndex(page, rel), page.size, page.sort)
  {
    PageLinksByRel(page, queryParams, baseUri);
    var rel := Rels(page)[i];
    PageLinkQuery(PageIndex(page, rel), page.size, page.sort, rel, queryParams, baseUri);
  }

  /** With no pages at all the last link still exists and points at page -1. */
  lemma LastLinkOfEmptyResult<T>(page: Page<T>, queryParams: MultiValueMap, baseUri: string)
    requires page.totalPages == 0
    requires PageLinks(page, queryParams, baseUri).Success?
    ensures var links := PageLinks(page, queryParams, baseUri).value;
      && links[|links| - 2].rel == "last"
      && links[|links| - 2] == LinkFor(page, Last, queryParams, baseUri).value
      && PageIndex(page, Last) == -1
  {
    LastLinkPosition(page, queryParams, baseUri);
  }

  /** The link second from the end is always the `last` link. */
  lemma LastLinkPosition<T>(page: Page<T>, queryParams: MultiValueMap, baseUri: string)
    requires PageLinks(page, queryParams, baseUri).Success?
    ensures var links := PageLinks(page, queryParams, baseUri).value;
      && |links| >= 3
      && links[|links| - 2].rel == "last"
      && links[|links| - 2] == LinkFor(page, Last, queryParams, baseUri).value
  {
    var rels := Rels(page);
    PageLinksByRel(page, queryParams, baseUri);
    assert rels[|rels| - 2] == Last;
  }
}
