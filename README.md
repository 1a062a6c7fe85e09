# SEO tools server: heading, meta-tag and canonical extraction

This project models the three pieces of logic in the SEO tools server's
`index.js` that do more than forward a request:

- the heading-tag checker, which folds the document's `h1`–`h6` elements into
  one group per tag name (`Headings`, in `headings.dfy`);
- the meta-tag analyzer, which turns each `<meta>` element into a
  `{name, content}` record and drops the records without a name
  (`MetaTags`, in `meta_tags.dfy`);
- the canonical-tag check, which returns the `href` of the first
  `link[rel="canonical"]` or a fixed message (`Canonical`, in `canonical.dfy`).

The DOM is abstracted away. The elements a selector query returns are the
inputs, as sequences of records in document order. An attribute that
`getAttribute` reports as `null` is `None` of the `Option` type in
`nullable.dfy`.

The grouping is a `reduce` that changes its accumulator in place, so
`Headings.GroupHeadings` is a method with a loop over a sequence accumulator.
Its postcondition equates the result with `Headings.Grouped`. That function
defines the result without any accumulator: the distinct tags in first-seen
order (`Tags`), and for each tag the inner HTML of its headings (`HtmlOf`).
The lemmas beside it prove the properties the endpoint promises.

The meta-tag and canonical code consists of `map`, `filter` and a single query,
so both are modelled as functions. JavaScript's `||` and truthiness are written
out: `null` and the empty string are falsy. A meta name is not simply the first
attribute that is present: `||` also skips an empty value, so an empty `name`
falls through to `property`.

## Model

| member | source | states |
|---|---|---|
| `Headings.GroupHeadings` | index.js:55-64 | the reduce over the matched headings returns exactly `Grouped(headings)`: one group per distinct tag in first-seen order, holding that tag's count and inner HTML list |
| `Headings.FindGroup` | index.js:56 | `acc.find` yields the first group carrying the tag; nothing is found exactly when no group carries it |
| `Headings.SeenTagStep` | index.js:56-59 | a heading whose tag already has a group adds no group and moves none; it only raises that group's count by one and appends its inner HTML |
| `Headings.NewTagStep` | index.js:60-61 | a heading whose tag has no group yet appends one group at the end, with count 1 and its inner HTML as the only entry |
| `Headings.GroupPerDistinctTag` | index.js:55-64 | no two groups share a tag; a tag has a group exactly when some heading carries it; the result is empty exactly when there are no headings |
| `Headings.GroupsInFirstSeenOrder` | index.js:56-61 | groups are ordered by the position of the first heading of their tag |
| `Headings.GroupCounts` | index.js:58-61 | each group's count is at least 1, equals the length of its inner HTML list, and equals the number of headings of that tag; the list is those headings' inner HTML in document order |
| `Headings.TotalCountIsHeadingCount` | index.js:47-64 | the counts of all groups add up to the number of headings |
| `Headings.PrefixGroupsStay` | index.js:55-64 | the groups built from a prefix of the headings keep their positions and tags in the final result, and their lists only grow at the end |
| `Headings.GroupingExample` | index.js:47-64 | headings H1 "A", H2 "B", H1 "C" group into H1 with count 2 and ["A", "C"], then H2 with count 1 and ["B"] |
| `MetaTags.Or` | index.js:87-89 | JavaScript `||` on a string or null: the result is one of its operands, and it is truthy exactly when either operand is |
| `MetaTags.ToEntry` | index.js:85-91 | the `map` callback: `content` is copied unchanged, and the name is truthy exactly when one of `name`, `property`, `charset` is; which one wins is given by `NamePriority` |
| `MetaTags.Entries` | index.js:84-91 | the `map`: one record per `<meta>` element, in order, with its content; each record is `ToEntry` of its element |
| `MetaTags.ExtractMetaTags` | index.js:84-92 | the whole analyzer: at most one record per element, every record named and built from some element; the exact result is given by `ExtractKeepsNamedInOrder` and `NamePriority` |
| `MetaTags.NamePriority` | index.js:86-90 | the resolved name is the first of `name`, `property`, `charset` that is present and non-empty; otherwise it is the `charset` value as given (null or empty); `content` is copied unchanged |
| `MetaTags.NamedOnly` | index.js:92 | the filter keeps only records whose name is truthy, and keeps nothing that was not in its input |
| `MetaTags.Kept` | index.js:84-92 | the surviving positions are ascending, and a position survives exactly when its element's resolved name is truthy |
| `MetaTags.NamedOnlyConcat` | index.js:92 | the filter keeps relative order, because filtering a concatenation is the concatenation of the filtered parts |
| `MetaTags.ExtractKeepsNamedInOrder` | index.js:84-92 | the result has one record per surviving element, in document order; record k is built from the k-th surviving element, so duplicate names stay and content passes through |
| `MetaTags.NamedOnlyKeepsAll` | index.js:92 | the filter returns its input unchanged exactly when every record has a truthy name |
| `MetaTags.AllNamedKeepsAll` | index.js:84-92 | nothing is dropped exactly when every element resolves to a non-empty name |
| `MetaTags.MetaExample` | index.js:84-92 | a `description` name, an `og:title` property and a bare `<meta>` give two records; the bare one is dropped |
| `Canonical.CanonicalTag` | index.js:140-145 | the result is the `href` of the first link whose rel is "canonical", null when that link has no `href`; with no such link it is "No canonical tag found" |
| `Canonical.IsCanonical` | index.js:140 | the selector `link[rel="canonical"]`: rel present and exactly "canonical"; its use is stated by `CanonicalTag` |
| `Canonical.CanonicalOfConcat` | index.js:140-145 | links after the first canonical one never affect the result; links before it are all non-canonical and are passed over |

## Left out

- Server setup, CORS, body parsers, the listening port and route registration (index.js:1-18) are framework wiring.
- The SSL Labs proxy (index.js:20-33), the alt-text proxy (index.js:159-172) and `fetchData` with its error message (index.js:124-134) are network calls to remote services.
- The redirect check (index.js:100-122) depends on how the HTTP client treats `maxRedirects: 0` and on one of the client's internal response fields. That behaviour lives in the client library.
- HTML parsing and the selector queries (index.js:44-48, 81-84, 137-140) are done by the DOM library. Their results are this model's inputs: element records in document order, with upper-case tag names.
- The 400 responses for a missing parameter, the 500 responses for any thrown error, and the async control flow are HTTP-layer plumbing.
- The `map` at index.js:49-53 that gives each heading `count: 1` is not modelled separately. The `reduce` overrides both that count and the inner HTML when it builds a group, so a `Heading` carries only the tag name and the inner HTML.
- Headings.GroupHeadings: the accumulator is a sequence of values. The in-place `count += 1` and `innerHTML.push` on the object that `find` returns become a replacement of the group at the found index. No other reference to that object exists, so no aliasing is lost.
- Headings.GroupCounts: counts are unbounded naturals. JavaScript numbers are exact up to 2^53, far beyond any document's heading count.
- Canonical.IsCanonical compares `rel` with "canonical" exactly, matching characters case-sensitively. HTML's rule that the selector matches some attribute values ASCII case-insensitively is the DOM library's behaviour and is not modelled.
- A second server variant whose heading endpoint only counts is not part of this model.
- Running an extraction twice on the same input gives the same output because every operation here is a function of its input. No separate lemma states this.
