# PagedResources — a verified model of paged hypermedia links

`PagedResources<T>` wraps a Spring Data `Page<T>` and, when it is
constructed, adds hypermedia navigation links to itself:

- `prev`, only when the page has a previous page;
- `next`, only when it has a next page;
- `first`, `last` and `self`, always.

Each link points at the current request URI. Its query is made of:

- the caller's extra query parameters, every value of every key, in order;
- then `page` (the target page index) and `size`;
- then, for a sorted page, `sort`.

The `sort` value is obtained from the sort's text form:

1. split it on `:`;
2. lower-case and trim token 1;
3. join the tokens again with `,`.

For example, `name: ASC` becomes `name,asc`. When there is no token 1, the
array access throws and construction fails. Apart from that, the wrapper only
delegates the `Page` accessors to the wrapped page. `map`, `nextPageable` and
`previousPageable` are stubs that return `null`.

The model has five modules:

- `Wrappers` holds `Option`, `Result` and `Outcome`, the outcome of a void
  call that may throw.
- `JavaLang` holds the pieces of the Java platform the code relies on, stated
  exactly:
  - 32-bit `int` addition and subtraction with wrap-around;
  - `Integer.toString`;
  - `String.split` with a one-character separator: trailing empty strings are
    removed, leading ones are kept, and a string with no separator gives a
    single token;
  - `String.join`;
  - `toLowerCase` and `trim` restricted to ASCII.
- `LinkQuery` covers the sort rewrite, the query pairs of one link, and the
  rendering of a link's href with its read-back.
- `Paging` holds:
  - the `Page` value;
  - the relations with their Spring HATEOAS names (`prev`, `next`, `first`,
    `last`, `self`);
  - `BuildPageLink`;
  - `PageLinks`, the specification of the links a page gets;
  - the `PagedResources` class. It holds the page and a `links` sequence that
    `AddLinks` appends to one link at a time.
- `PageExamples` works out one concrete link.

A Java constructor that throws becomes a static factory returning a `Result`:
`Create` for the one-argument constructor, `CreateWithParams` for the
two-argument one.

The model follows the code as written; in particular:

- Whether a previous or next link is added depends only on the page's own
  `hasPrevious()` and `hasNext()`. It does not depend on the page number or
  the page count.
- The last link points at `totalPages - 1` with no clamping. A result with
  no pages therefore gets a `last` link to page `-1` (`LastLinkOfEmptyResult`).
- The sort rewrite fails not only when the sort text has no `:`. It fails
  whenever no `:` is followed later by a character other than `:`. For
  example, `name:` fails as well, because `split` drops the trailing empty
  token (`SortValueFails`).
- The previous and next indices are computed in 32-bit `int` arithmetic and
  wrap around at the ends of the range (`PageIndex`, `WrapAround`).

## Model

| member | source | states |
|---|---|---|
| Paging.PagedResources.AddLinks | PagedResources.java:67-86 | Adds links only when the sort can be rewritten. It then appends exactly `PageLinks` (prev if `hasPrevious`, next if `hasNext`, then first, last, self, each built by `buildPageLink`) to the existing links. On failure it adds nothing and reports the rewrite's error. |
| Paging.PagedResources.AddPageLink | PagedResources.java:68-85 | One build-and-add step: it succeeds exactly when the sort can be rewritten. It then appends the link of that relation, and otherwise leaves the links unchanged and reports the error. |
| Paging.PagedResources.Add | PagedResources.java:70 | `add(link)` appends the link after those already present. |
| Paging.PagedResources.constructor | PagedResources.java:39-41 | A new wrapper holds the page and no links yet. |
| Paging.PagedResources.Create | PagedResources.java:39-44 | Construction without parameters succeeds exactly when `PageLinks(page, [])` does. The new object then holds the page and exactly those links; otherwise it fails with the same error. |
| Paging.PagedResources.CreateWithParams | PagedResources.java:52-57 | As `Create`, with the caller's query parameters repeated on every link. |
| Paging.BuildPageLink | PagedResources.java:97-122 | A link is built exactly when the sort is absent or its text can be rewritten. Its rel is the relation's name, its href starts with the base URI followed by `?`, and the error is the rewrite's. |
| Paging.PageLinksByRel | PagedResources.java:67-86 | There are as many links as relations, and link `i` is the link `buildPageLink` makes for relation `i` (its page index, the page's size and sort). |
| Paging.PageLinksFail | PagedResources.java:107-113 | The links cannot be built exactly when the page is sorted and its sort text has no `:` followed later by a non-`:` character. |
| Paging.LinkOrder | PagedResources.java:67-86 | The rel names are `prev` (only if `hasPrevious`), `next` (only if `hasNext`), then `first`, `last`, `self`. There are 3 to 5 links and the last three are always first, last, self. |
| Paging.OptionalLinks | PagedResources.java:68-76 | A `prev` link is present if and only if `hasPrevious()`; a `next` link if and only if `hasNext()`. |
| Paging.PageIndices | PagedResources.java:69-84 | For a page in its documented range, the links point at number-1, number+1, 0, totalPages-1 and number. |
| Paging.LastLinkOfEmptyResult | PagedResources.java:81-82 | With zero pages the last link is still added, second from the end, and it points at page -1. |
| Paging.LinkQueries | PagedResources.java:97-122 | Link `i`'s href is the base URI, `?`, then a query that reads back as: the caller's pairs first and unchanged, then `page` (that relation's index, parsed back), then `size` (the page size), then `sort` for a sorted page, and nothing else. Every caller key keeps all its values, and every link carries the same `sort` values. |
| Paging.RelNamesOfPage | PagedResources.java:67-86 | The names of the relations added, written out for each combination of `hasPrevious` and `hasNext`. |
| Paging.PageLinks | PagedResources.java:67-86 | The links of a page exist exactly when its sort can be rewritten, there is one per relation the page gets, and the failure is the rewrite's error. |
| Paging.Rels | PagedResources.java:67-86 | A page gets 3 to 5 relations, ending in first, last, self; `prev` is among them if and only if `hasPrevious()`, `next` if and only if `hasNext()`. |
| Paging.LinkFor | PagedResources.java:68-85 | One relation's link exists exactly when the sort can be rewritten; it then carries the relation's name and an href that starts with the base URI and `?`; otherwise the error is the rewrite's. |
| Paging.PageIndex | PagedResources.java:69-84 | The index a relation points at is the 32-bit `int` value of number-1, number+1, 0, totalPages-1 or number. |
| Paging.RelNameInjective | PagedResources.java:69-84 | The relation names (`Link.REL_PREVIOUS`, `REL_NEXT`, `REL_FIRST`, `REL_LAST`, `REL_SELF`) are pairwise distinct. |
| Paging.NameInRelNames | PagedResources.java:68-76 | A relation's name is among the names of a list of relations if and only if the relation is in the list. |
| Paging.LastLinkPosition | PagedResources.java:81-82 | The `last` link is always second from the end and is the link built for the last page. |
| Paging.PageLinkQuery | PagedResources.java:97-122 | Any link `buildPageLink` builds reads back as the caller's pairs, then the given `page`, `size` and `sort`, after the base URI and `?`. |
| Paging.PagedResources.Number | PagedResources.java:124-126 | Reports the wrapped page's number. |
| Paging.PagedResources.Size | PagedResources.java:128-130 | Reports the wrapped page's size. |
| Paging.PagedResources.TotalPages | PagedResources.java:132-134 | Reports the wrapped page's page count. |
| Paging.PagedResources.NumberOfElements | PagedResources.java:136-138 | Reports the wrapped page's element count. |
| Paging.PagedResources.TotalElements | PagedResources.java:140-142 | Reports the wrapped page's total element count (a `long`). |
| Paging.PagedResources.Map | PagedResources.java:144-146 | Always null, whatever the converter. |
| Paging.PagedResources.HasPrevious | PagedResources.java:148-150 | Reports the wrapped page's `hasPrevious`. |
| Paging.PagedResources.NextPageable | PagedResources.java:152-154 | Always null. |
| Paging.PagedResources.PreviousPageable | PagedResources.java:156-158 | Always null. |
| Paging.PagedResources.IsFirst | PagedResources.java:160-162 | Reports the wrapped page's `isFirst`. |
| Paging.PagedResources.HasNext | PagedResources.java:164-166 | Reports the wrapped page's `hasNext`. |
| Paging.PagedResources.IsLast | PagedResources.java:168-170 | Reports the wrapped page's `isLast`. |
| Paging.PagedResources.Content | PagedResources.java:176-178 | Reports the wrapped page's content. |
| Paging.PagedResources.HasContent | PagedResources.java:180-182 | Reports the wrapped page's `hasContent`. |
| Paging.PagedResources.Sort | PagedResources.java:184-186 | Reports the wrapped page's sort. |
| LinkQuery.SortValue | PagedResources.java:107-113 | The rewrite fails exactly when `split(":")` yields fewer than two tokens, and the error records the token count. |
| LinkQuery.SortValueFails | PagedResources.java:108-109 | The rewrite fails if and only if no `:` is followed later by a character other than `:`. |
| LinkQuery.SortValueWithoutColon | PagedResources.java:108-109 | A sort text without `:` makes the rewrite fail. |
| LinkQuery.SortValueFieldDirection | PagedResources.java:107-113 | `field:direction` becomes `field,` followed by the direction lower-cased and trimmed. |
| LinkQuery.SortValueExample | PagedResources.java:107-113 | `name: ASC` becomes `name,asc`. |
| LinkQuery.SortValueExcludes | PagedResources.java:107-113 | The rewrite introduces no character other than `,` and lower-case letters. In particular it adds no `&` to the query. |
| LinkQuery.PageQuery | PagedResources.java:100-117 | The query pairs exist exactly when the sort can be rewritten; otherwise the error is the rewrite's. |
| LinkQuery.PageQueryValues | PagedResources.java:100-117 | The query holds the caller's pairs first and unchanged, followed by exactly `page`, `size` and, for a sorted page only, the rewritten `sort`, in that order. Every caller key keeps all its values in order. |
| LinkQuery.PageQueryUnsorted | PagedResources.java:100-104 | Without a sort the query is the caller's pairs followed by `page` and `size`. |
| LinkQuery.PageQuerySorted | PagedResources.java:100-113 | With a sort that can be rewritten, the query is the caller's pairs followed by `page`, `size` and the rewritten `sort`, in that order. |
| LinkQuery.PagingValues | PagedResources.java:103-113 | The paging pairs hold one `page`, one `size`, at most one `sort` value and nothing under any other key. |
| LinkQuery.PagingValuesOf | PagedResources.java:103-113 | The values the paging pairs hold under any given key. |
| LinkQuery.PagingKeyValues | PagedResources.java:115-117 | A key the caller did not use holds only the paging values in the merged query. |
| LinkQuery.CallerKeyValues | PagedResources.java:115-117 | A caller key holds exactly the caller's values in the merged query. |
| LinkQuery.FlattenValues | PagedResources.java:116 | A multi-value map with distinct keys contributes all values of each key, in order. |
| LinkQuery.FlattenAbsent | PagedResources.java:116 | A key the map does not hold contributes no values. |
| LinkQuery.ValuesOfAppend | PagedResources.java:116-117 | The values under a key of two concatenated queries are the values of each, in order. |
| LinkQuery.ValuesOfPairs | PagedResources.java:116 | The pairs of one key hold that key's values and nothing under other keys. |
| LinkQuery.HrefRoundTrip | PagedResources.java:115-119 | The pairs rendered after a base URI without `?` parse back to the same pairs, provided the keys have no `=` or `&` and the values have no `&`. |
| LinkQuery.QueryOfHref | PagedResources.java:115-119 | The text after `?` in an href is the rendered query. |
| LinkQuery.ParseRender | PagedResources.java:118-119 | Rendering then parsing a non-empty list of unambiguous pairs gives back the same pairs. |
| LinkQuery.ParsePairRender | PagedResources.java:118-119 | `key=value` parses back to the pair when the key has no `=`. |
| LinkQuery.PageQueryUnambiguous | PagedResources.java:100-117 | With unambiguous caller pairs and a sort text without `&`, every link's query pairs are unambiguous. |
| LinkQuery.PagingUnambiguous | PagedResources.java:103-113 | The paging pairs are unambiguous when the sort value contains no `&`. |
| LinkQuery.UnambiguousAppend | PagedResources.java:115-117 | Appending the paging pairs to unambiguous caller pairs keeps the query unambiguous. |
| LinkQuery.PagingParams | PagedResources.java:103-113 | The paging pairs are `page` (reading back as the page index), then `size` (reading back as the size), then `sort` with the rewritten value only for a sorted page. |
| LinkQuery.Flatten | PagedResources.java:116 | Every pair of the flattened map is a key of the map with one of that key's values. |
| LinkQuery.Href | PagedResources.java:115-119 | With no pairs the href is the base URI; otherwise it is the base URI followed by `?` and is longer than it. |
| JavaLang.Add32 | PagedResources.java:74 | Java `int` addition: equal to the sum when the sum fits in 32 bits. |
| JavaLang.Sub32 | PagedResources.java:69 | Java `int` subtraction: equal to the difference when it fits in 32 bits. |
| JavaLang.Wrap32 | PagedResources.java:69-81 | The 32-bit reduction leaves in-range values alone and differs from its input by a multiple of 2^32. |
| JavaLang.WrapAround | PagedResources.java:69-81 | `Add32` and `Sub32` are the sum and the difference reduced to 32 bits, i.e. two's-complement wrap-around. |
| JavaLang.WrapUnique | PagedResources.java:69-81 | An `int` within one 2^32 step of `x` is `x`'s 32-bit reduction. |
| JavaLang.NatToDecimal | PagedResources.java:103-104 | The decimal digits of a natural number: non-empty, digits only, and starting with `0` only for zero. |
| JavaLang.NatToDecimalValue | PagedResources.java:103-104 | The decimal digits read back as the number. |
| JavaLang.IntToStringRoundTrip | PagedResources.java:103-104 | `Integer.toString` parses back to the same integer. |
| JavaLang.IntToString | PagedResources.java:103-104 | `Integer.toString` is non-empty, starts with `-` exactly for a negative number, and is otherwise made of digits. |
| JavaLang.DigitChar | PagedResources.java:103-104 | A digit value's character is a digit with that value. |
| JavaLang.ParseDecimal | PagedResources.java:103-104 | Reading back a numeral without a leading `-` gives a non-negative value. |
| JavaLang.SplitAll | PagedResources.java:108 | Splitting gives at least one piece; no piece contains the separator, and every piece's characters come from the input. |
| JavaLang.JoinSplitAll | PagedResources.java:108-112 | Joining the pieces with the separator gives back the input. |
| JavaLang.SplitAllJoin | PagedResources.java:108-112 | Splitting a join of separator-free pieces gives back the pieces. |
| JavaLang.SplitAllPrefix | PagedResources.java:108 | A separator-free prefix joins the first piece. |
| JavaLang.SplitAllSeparator | PagedResources.java:108 | A leading separator gives a leading empty piece. |
| JavaLang.SplitAllSomeNonEmpty | PagedResources.java:108 | Some piece is non-empty if and only if the input has a character other than the separator. |
| JavaLang.SplitAllLaterNonEmpty | PagedResources.java:108 | A piece after the first is non-empty if and only if some separator is followed later by another character. |
| JavaLang.DropTrailingEmpty | PagedResources.java:108 | Removes exactly the trailing empty strings: the result is a prefix that does not end in "" and everything dropped is "". |
| JavaLang.Split | PagedResources.java:108 | `String.split` tokens contain no separator, and their characters come from the input. |
| JavaLang.SplitHasSecondToken | PagedResources.java:108-109 | `split` yields at least two tokens if and only if some separator is followed later by another character. |
| JavaLang.Join | PagedResources.java:112 | `String.join` introduces no character other than the separator and those of the parts. |
| JavaLang.LowerChar | PagedResources.java:109 | ASCII `toLowerCase` of one character maps `A`-`Z` to `a`-`z` and leaves every other character alone. |
| JavaLang.ToLower | PagedResources.java:109 | `toLowerCase` keeps the length, leaves no upper-case letter, shifts upper-case letters by 32 and keeps every other character. |
| JavaLang.LeadingBlanks | PagedResources.java:109 | Counts exactly the leading characters at or below the space. |
| JavaLang.TrailingBlanks | PagedResources.java:109 | Counts exactly the trailing characters at or below the space. |
| JavaLang.Trim | PagedResources.java:109 | `trim` returns the infix `s[i..j]` left after removing every leading character before `i` and every trailing character from `j`, all at or below the space; neither end of the result is such a character. A string without such characters is unchanged, and one made only of them becomes empty. |
| JavaLang.ToLowerExample | PagedResources.java:109 | `" ASC"` lower-cases to `" asc"`. |
| JavaLang.TrimExample | PagedResources.java:109 | `" asc"` trims to `"asc"`. |
| PageExamples.ExampleQuery | PagedResources.java:100-104 | Page 2 of size 5, with no caller parameters and no sort, gives exactly the pairs `page=2`, `size=5`. |
| PageExamples.ExampleRender | PagedResources.java:115-119 | Those pairs render as `page=2&size=5`. |
| PageExamples.ExampleSelfLink | PagedResources.java:97-122 | The `self` link of that page under any base URI is that URI followed by `?page=2&size=5`, with rel `self`. |
| PageExamples.DigitText | PagedResources.java:103-104 | `Integer.toString` of a single digit is that digit's character. |

## Left out

- The current request URI, which `ServletUriComponentsBuilder.fromCurrentRequestUri()` reads from the servlet request, is a `baseUri` parameter of the model.
- `UriComponentsBuilder` is modelled as plain concatenation: the caller's pairs, then the paging pairs, joined with `&` after `?`.
  - Percent-encoding is not modelled.
  - Neither is the merging of a caller parameter named `page`, `size` or `sort` with the paging one. The lemmas about read-back values assume the caller uses none of those keys.
  - A key with an empty value list, which the builder renders as a bare key, contributes nothing here.
- `toLowerCase` and `trim` are restricted to ASCII: Unicode case mapping and locale rules are not modelled.
- `Sort.toString()`, and the page's accessors (`hasPrevious`, `isFirst`, `getTotalPages`, ...), are fields of the `Page` value. The model does not check that they agree with each other, as nothing in the wrapper does.
- `iterator()` (lines 172-174) is not modelled: it hands out the wrapped page's iterator, and the content is exposed as a sequence by `Content`.
- `ResourceSupport` (the link list's container, its `getLinks`, equality and JSON rendering) is not part of this model. The link list is the `links` field.
- `Link` is reduced to its href and rel.
- A failed `buildPageLink` is a `Result` failure, which the factories propagate in place of the Java exception (an `ArrayIndexOutOfBoundsException`). Because every link shares the page's sort, the failure always happens at the first link and no link is ever added before it.
- `createBuilder()` (lines 59-61) is not a separate member: its only effect is the base URI.
- Paging.PageIndices: the exact indices are stated only for pages whose number is below `Integer.MAX_VALUE` and whose page count is non-negative. For every page, `Paging.PageIndex` states the 32-bit wrapped value of each index.
- LinkQuery.Render carries no contract of its own: what it produces is stated by `LinkQuery.ParseRender`, which reads the rendered text back into the same pairs.
