# URL extraction from a JSON document, modelled in Dafny

The program reads one JSON document, walks its value tree depth first, and
collects every string leaf that parses as an absolute URL. It then reports:

- the total number of URLs found (duplicates included);
- the number of distinct URLs;
- the distinct "roots" of the web URLs (`http`/`https`), where a root is
  `scheme://host`, with `:port` only when the port is not the scheme's default;
- the non-web URLs, sorted by their text.

This project models that core. It is split into these modules:

- `JsonValue` (json.dfy): the parsed value tree, and its string leaves in visiting order.
- `Extraction` (extraction.dfy): the tree walk `ExtractUrls`. It is a recursive method
  whose loops append each child's list, as the source does. It is proved equal to a
  recursive specification `Extracted`, and that is proved equal to "the accepted string
  leaves, in order".
- `Urls` (urls.dfy): the URL record and the root rule. `GetRoot` builds the root with a
  conditional append. `ParseRoot` reads a root back; the round trip proves that a root
  determines scheme, host and shown port.
- `Decimal` (decimal.dfy): the decimal text of a port, and its inverse.
- `Sequences` (sequences.dfy): the first position of an element, shared by the root
  reader and the order statements.
- `Aggregation` (aggregation.dfy): the summary. It covers distinct in first-seen order,
  the web/non-web split, the distinct roots and the sort by text, with a worked
  three-URL example.

The absolute-URL parser is a parameter `parse: string -> Option<Url>`: it
maps a whole string to its URL or to None. A URL's text form, which the
sort uses as its key, is a parameter `show: Url -> string`. A URL is a record
of already-normalised scheme, host, port (-1 when absent) and the
rest (path, query, fragment). Record equality stands for URL equality.

Three behaviours of the code are worth stating outright:

- The web test compares the (already lower-cased) scheme exactly with `http` and `https`.
- An object keeps a repeated property name as a second property, and both values are walked.
- Roots are listed in the order their first web URL was found; they are not sorted.

A root can be read back only when its host is delimited: a host is either free of
colons (a name or an IPv4 address) or an IPv6 literal in brackets, as the parser gives
it. The scheme must be free of colons and the port at least -1.

## Model

| member | source | states |
|---|---|---|
| `Extraction.Extracted` | src/UrlFromJsonExtractor/Program.cs:76-109 | the walk's specification; its contract is carried by `Extraction.ExtractedIsAcceptedLeaves`, `Extraction.ExtractedCount` and `Extraction.ExtractedMembership` |
| `Extraction.ExtractUrls` | src/UrlFromJsonExtractor/Program.cs:76-109 | the list built by the walk equals the specification walk, and equals the URLs of the accepted string leaves in depth-first visiting order |
| `Extraction.ExtractedIsAcceptedLeaves` | src/UrlFromJsonExtractor/Program.cs:76-109 | the walk yields exactly one URL per string leaf the parser accepts and none for others, in visiting order (duplicates kept) |
| `Extraction.Accepted` | src/UrlFromJsonExtractor/Program.cs:94-99 | a string contributes at most one URL: none exactly when the parser rejects it, otherwise the URL it parses to |
| `Extraction.ExtractedScalar` | src/UrlFromJsonExtractor/Program.cs:80-106 | a string leaf gives a one-element list if the parser accepts it and an empty one otherwise; numbers, booleans and null give nothing |
| `Extraction.ExtractedItemsAppend` | src/UrlFromJsonExtractor/Program.cs:88-93 | array items are visited in sequence: the URLs of items `a + b` are those of `a` followed by those of `b` |
| `Extraction.ExtractedPropertiesAppend` | src/UrlFromJsonExtractor/Program.cs:82-87 | object property values are visited in enumeration order: the URLs of properties `a + b` are those of `a` followed by those of `b` |
| `Extraction.DuplicatesKept` | src/UrlFromJsonExtractor/Program.cs:88-99 | the same URL in two leaves is found twice; the walk does not deduplicate |
| `Extraction.ExtractedCount` | src/UrlFromJsonExtractor/Program.cs:76-109 | the number of URLs found equals the number of string leaves the parser accepts, so it is at most the number of string leaves |
| `Extraction.ExtractedMembership` | src/UrlFromJsonExtractor/Program.cs:94-99 | a URL is found exactly when some string leaf parses to it |
| `Extraction.AcceptAllCount` | src/UrlFromJsonExtractor/Program.cs:94-99 | accepting a list of strings yields as many URLs as strings accepted, never more than the strings |
| `Urls.IsWeb` | src/UrlFromJsonExtractor/Program.cs:51 | the web test; what it splits is carried by `Aggregation.Filter`, `Aggregation.Partition` and `Aggregation.PartitionMultiset` |
| `Urls.RootOf` | src/UrlFromJsonExtractor/Program.cs:115-123 | the root rule; its contract is carried by `Urls.GetRoot`, `Urls.RootRoundTrip`, `Urls.RootInjective` and `Urls.WebRootShape` |
| `Urls.GetRoot` | src/UrlFromJsonExtractor/Program.cs:112-126 | builds `scheme://host`, appending `:port` only when the port is present and not the scheme's default; when the scheme has no colon, the host is delimited (colon-free, or a bracketed IPv6 literal) and the port is at least -1, reading the root back gives scheme, host and shown port |
| `Urls.RootRoundTrip` | src/UrlFromJsonExtractor/Program.cs:115-123 | for a colon-free scheme, a delimited host (colon-free, or a bracketed IPv6 literal) and a port of at least -1, `ParseRoot` is a left inverse of the root rule: it recovers scheme, host and the port the root shows |
| `Urls.RootInjective` | src/UrlFromJsonExtractor/Program.cs:112-126 | for two URLs with colon-free scheme, delimited host and port of at least -1: they share a root if and only if they agree on scheme, host and shown port |
| `Urls.ParseAuthorityHost` | src/UrlFromJsonExtractor/Program.cs:115 | a delimited host is read back whole: a bracketed host up to its closing bracket, any other up to the first colon |
| `Urls.Ipv6RootExample` | src/UrlFromJsonExtractor/Program.cs:115-123 | the root of `http://[::1]:8080/` reads back as host `[::1]` with port 8080 |
| `Urls.UndelimitedHostAmbiguous` | src/UrlFromJsonExtractor/Program.cs:115-123 | a host with a bare colon, `a:1` with no port, has the same root as host `a` with port 1, though their origins differ |
| `Urls.RootIgnoresRest` | src/UrlFromJsonExtractor/Program.cs:112-126 | URLs that agree on scheme, host and port have the same root, whatever their path, query or fragment |
| `Urls.WebRootShape` | src/UrlFromJsonExtractor/Program.cs:117-123 | for a web URL the port suffix appears exactly when the port is present and differs from 80 (http) or 443 (https) |
| `Urls.NonWebRootHasNoPort` | src/UrlFromJsonExtractor/Program.cs:118-120 | the port condition names only http and https, so any other scheme's root has no port |
| `Urls.DefaultPortExamples` | src/UrlFromJsonExtractor/Program.cs:115-123 | http with port 80 or no port gives `http://example.com`; https with 443 drops the port |
| `Urls.ExplicitPortExample` | src/UrlFromJsonExtractor/Program.cs:115-123 | https with port 8443 gives `https://example.com:8443` |
| `Urls.ParseRootScheme` | src/UrlFromJsonExtractor/Program.cs:115 | a colon-free scheme is read back whole from a root: it ends at the root's first colon, and the rest after `://` is the authority |
| `Decimal.NatToDecimal` | src/UrlFromJsonExtractor/Program.cs:122 | the port's text is a non-empty run of digits without a leading zero |
| `Decimal.IntToDecimal` | src/UrlFromJsonExtractor/Program.cs:122 | a non-negative port is written as its digits, a negative one with a leading minus |
| `Decimal.DecimalRoundTrip` | src/UrlFromJsonExtractor/Program.cs:122 | reading back a port's decimal text gives the port |
| `Decimal.DecimalInjective` | src/UrlFromJsonExtractor/Program.cs:122 | different ports have different texts |
| `Aggregation.Distinct` | src/UrlFromJsonExtractor/Program.cs:46 | the distinct list has no duplicates, holds exactly the elements of the input, and is no longer than it |
| `Aggregation.DistinctCount` | src/UrlFromJsonExtractor/Program.cs:46-48 | the unique count is the number of different URLs, equal to the total exactly when nothing repeats |
| `Aggregation.DistinctOfDistinct` | src/UrlFromJsonExtractor/Program.cs:46 | a list without duplicates is its own distinct list |
| `Aggregation.DistinctFirstSeen` | src/UrlFromJsonExtractor/Program.cs:46 | the distinct list keeps first-seen order: of two distinct URLs, the one found first is listed first |
| `Aggregation.DistinctIdempotent` | src/UrlFromJsonExtractor/Program.cs:46 | taking distinct twice is the same as once |
| `Aggregation.Filter` | src/UrlFromJsonExtractor/Program.cs:50-63 | the web (or non-web) selection holds exactly the input URLs with that scheme kind |
| `Aggregation.FilterKeepsOrder` | src/UrlFromJsonExtractor/Program.cs:50-63 | the selection keeps the order of its (distinct) input |
| `Aggregation.FirstSeenTransitive` | src/UrlFromJsonExtractor/Program.cs:46-63 | a selection in the order of the distinct list is in the order the URLs were found |
| `Aggregation.StableTransfer` | src/UrlFromJsonExtractor/Program.cs:62-64 | a listing stable relative to the selection is stable relative to the URLs as found |
| `Aggregation.PartitionMultiset` | src/UrlFromJsonExtractor/Program.cs:50-63 | web and non-web selections together hold every URL exactly as often as the input |
| `Aggregation.Partition` | src/UrlFromJsonExtractor/Program.cs:50-63 | every URL is in exactly one group, and the group sizes add up to the whole |
| `Aggregation.FilterNoDuplicates` | src/UrlFromJsonExtractor/Program.cs:50-63 | selecting from distinct URLs keeps them distinct |
| `Aggregation.UniqueRoots` | src/UrlFromJsonExtractor/Program.cs:50-53 | the distinct roots of the web URLs; its contract is carried by `Aggregation.UniqueRootsSpec`, `Aggregation.UniqueRootsExact` and `Aggregation.AggregateRoots` |
| `Aggregation.UniqueRootsSpec` | src/UrlFromJsonExtractor/Program.cs:50-53 | the distinct roots are exactly the roots of the web URLs, and there are no more of them than web URLs |
| `Aggregation.UniqueRootsExact` | src/UrlFromJsonExtractor/Program.cs:50-56 | when every web URL has a colon-free scheme, a delimited host (colon-free, or a bracketed IPv6 literal) and a port of at least -1, distinct roots equal distinct web URLs in number exactly when no two web URLs share scheme, host and shown port |
| `Aggregation.Insert` | src/UrlFromJsonExtractor/Program.cs:62-64 | inserting a URL into a listing adds exactly that URL |
| `Aggregation.SortByText` | src/UrlFromJsonExtractor/Program.cs:62-64 | the sorted listing is a permutation of its input |
| `Aggregation.SortByTextSorted` | src/UrlFromJsonExtractor/Program.cs:62-64 | the sorted listing is in ascending order of the URLs' text |
| `Aggregation.SortByTextStable` | src/UrlFromJsonExtractor/Program.cs:62-64 | the sort is stable: URLs with equal text keep their order from the distinct list |
| `Aggregation.InsertStable` | src/UrlFromJsonExtractor/Program.cs:62-64 | inserting a URL that precedes every URL of equal text keeps a listing stable |
| `Aggregation.InsertSorted` | src/UrlFromJsonExtractor/Program.cs:62-64 | inserting into a sorted listing keeps it sorted |
| `Aggregation.TextLeReflexive` | src/UrlFromJsonExtractor/Program.cs:64 | every text is ordered before or equal to itself |
| `Aggregation.TextLeTotal` | src/UrlFromJsonExtractor/Program.cs:64 | any two texts are ordered one way or the other |
| `Aggregation.TextLeTransitive` | src/UrlFromJsonExtractor/Program.cs:64 | the text order is transitive |
| `Aggregation.Aggregate` | src/UrlFromJsonExtractor/Program.cs:44-64 | the summary; its contract is carried by `Aggregation.AggregateUnique`, `Aggregation.AggregateRoots`, `Aggregation.AggregateNonWeb` and `Aggregation.AggregateNonWebMembers` |
| `Aggregation.AggregateUnique` | src/UrlFromJsonExtractor/Program.cs:44-48 | total is the list length; unique has no duplicates, holds exactly the URLs found, in first-seen order, and its count is the number of different URLs, no larger than the total |
| `Aggregation.AggregateRoots` | src/UrlFromJsonExtractor/Program.cs:50-60 | the roots are distinct, are exactly the roots of the web URLs found, and are no more than the distinct web URLs; the web URLs are in the order found, and each root is listed where the first web URL with that root stands |
| `Aggregation.AggregateNonWeb` | src/UrlFromJsonExtractor/Program.cs:62-72 | the non-web listing is a permutation of the distinct non-web URLs, in ascending text order, with URLs of equal text in the order they were found |
| `Aggregation.AggregateNonWebMembers` | src/UrlFromJsonExtractor/Program.cs:62-64 | the non-web listing holds every non-web URL found, each exactly once |
| `Aggregation.Analyze` | src/UrlFromJsonExtractor/Program.cs:42-72 | the report is the summary of the walk's URLs, and its total is the number of string leaves that parse as URLs |
| `Aggregation.MixedDocumentWalk` | src/UrlFromJsonExtractor/Program.cs:76-109 | the three-URL sample document yields its URLs in visiting order |
| `Aggregation.MixedDocumentReport` | src/UrlFromJsonExtractor/Program.cs:42-72 | for the sample: total 3, unique 3, one root `https://example.com`, one non-web URL |
| `Aggregation.NoUrlExample` | src/UrlFromJsonExtractor/Program.cs:42-72 | a document that is one string that does not parse gives an empty report |

## Left out

- Urls.RootRoundTrip, Urls.RootInjective, Aggregation.UniqueRootsExact: a host holding a
  colon outside brackets is excluded. Its root is ambiguous: host `a:1` with no port and
  host `a` with port 1 give the same root (`Urls.UndelimitedHostAmbiguous`). The parser
  never yields such a host; it brackets IPv6 literals, and those are covered.

- Argument checking, `File.Exists` and reading the file (Program.cs:15-35) are I/O. The
  source prints an error and carries on in these paths.
- JSON text parsing (`JsonDocument.Parse`, Program.cs:39) is a library call. The model
  takes the parsed value tree as its input.
- `Uri.TryCreate` is the parameter `parse`. Its grammar and normalisation (scheme and
  host case, default path) belong to the .NET library and are not modelled.
- `Uri.Equals` is record equality. The library's own equality ignores the fragment and
  user info; that is not modelled.
- `Uri.ToString` is the parameter `show`.
- `GetRoot` returns `new Uri(baseUri)`, and the roots are deduplicated as URIs. The model
  keeps the root as its text, so the re-parse is not modelled: its normalisation (such as
  the trailing `/`) and URI equality on roots.
- `SortByText`: the sort key is compared ordinally, character by character. .NET's
  default string comparer for `OrderBy` is culture-sensitive.
- The unused `UrlRegex` and the commented-out regex matching (Program.cs:8-10, 100-104)
  are dead code.
- Console output (Program.cs:44-72) is left out. The model yields the counts and lists
  that would be printed, not the text.
- Recursion depth and stack exhaustion on deeply nested documents are not modelled.
  Integers and sequences are unbounded.
