/**
 * The summary computed from the extracted URLs: the total, the distinct
 * URLs, the distinct roots of the web URLs, and the non-web URLs sorted by
 * their text.
 */
module Aggregation {
  import opened Wrappers
  import opened JsonValue
  import opened Urls
  import opened Extraction
  import opened Sequences

  ghost predicate NoDuplicates<T>(s: seq<T>) {
    forall i, j :: 0 <= i < j < |s| ==> s[i] != s[j]
  }

  ghost function Elements<T>(s: seq<T>): set<T> {
    set x | x in s
  }

  /** The distinct elements of `xs`, each at the position of its first
      occurrence (the order in which a set-based distinct yields them). */
  function Distinct<T(==,!new)>(xs: seq<T>): (r: seq<T>)
    ensures NoDuplicates(r)
    ensures forall x :: x in r <==> x in xs
    ensures |r| <= |xs|
  {
    if xs == [] then []
    else
      var init, last := xs[..|xs| - 1], xs[|xs| - 1];
      assert xs == init + [last];
      var d := Distinct(init);
      if last in d then d else d + [last]
  }

  /** A sequence without duplicates is its own distinct list. */
  lemma {:induction false} DistinctOfDistinct<T(!new)>(xs: seq<T>)
    requires NoDuplicates(xs)
    ensures Distinct(xs) == xs
  {
    if xs != [] {
      var init := xs[..|xs| - 1];
      DistinctOfDistinct(init);
      assert xs[|xs| - 1] !in init;
    }
  }

  /** Distinct is idempotent. */
  lemma DistinctIdempotent<T(!new)>(xs: seq<T>)
    ensures Distinct(Distinct(xs)) == Distinct(xs)
  {
    DistinctOfDistinct(Distinct(xs));
  }

  /** Of two elements of `r`, the one that occurs first in `xs` comes
      first. */
  ghost predicate InFirstSeenOrder<T>(xs: seq<T>, r: seq<T>) {
    forall i, j :: 0 <= i < j < |r| ==> IndexOf(xs, r[i]) < IndexOf(xs, r[j])
  }

  /** The distinct list is in first-seen order. */
  lemma {:induction false} DistinctFirstSeen<T(!new)>(xs: seq<T>)
    ensures InFirstSeenOrder(xs, Distinct(xs))
  {
    if xs != [] {
      var init, last := xs[..|xs| - 1], xs[|xs| - 1];
      assert xs == init + [last];
      DistinctFirstSeen(init);
      FirstSeenExtend(init, last, Distinct(init));
    }
  }

  /** First-seen order survives appending to the input, and a new element
      appended to both stays in order. */
  lemma FirstSeenExtend<T>(init: seq<T>, last: T, d: seq<T>)
    requires InFirstSeenOrder(init, d)
    requires forall k :: 0 <= k < |d| ==> d[k] in init
    ensures InFirstSeenOrder(init + [last], d)
    ensures last !in init ==> InFirstSeenOrder(init + [last], d + [last])
  {
    var xs := init + [last];
    forall k | 0 <= k < |d|
      ensures IndexOf(xs, d[k]) == IndexOf(init, d[k]) < |init|
    {
      IndexOfBefore(init, [last], d[k]);
    }
    if last !in init {
      IndexOfAfter(init, [last], last);
      var r := d + [last];
      forall i, j | 0 <= i < j < |r|
        ensures IndexOf(xs, r[i]) < IndexOf(xs, r[j])
      {
        assert r[i] == d[i];
        if j < |d| {
          assert r[j] == d[j];
        }
      }
    }
  }

  /** Two elements in first-seen order relative to `xs` keep their relative
      order when looked up in `xs`. */
  lemma FirstSeenRanks<T>(xs: seq<T>, r: seq<T>, a: T, b: T)
    requires InFirstSeenOrder(xs, r) && a in r && b in r
    requires IndexOf(r, a) < IndexOf(r, b)
    ensures IndexOf(xs, a) < IndexOf(xs, b)
  {
    var i, j := IndexOf(r, a), IndexOf(r, b);
    assert r[i] == a && r[j] == b;
  }

  /** First-seen order composes: a list ordered as `ys` is, where `ys` is
      ordered as `xs` is, is ordered as `xs` is. */
  lemma FirstSeenTransitive<T>(xs: seq<T>, ys: seq<T>, r: seq<T>)
    requires InFirstSeenOrder(xs, ys) && InFirstSeenOrder(ys, r)
    requires forall k :: 0 <= k < |r| ==> r[k] in ys
    ensures InFirstSeenOrder(xs, r)
  {
    forall i, j | 0 <= i < j < |r|
      ensures IndexOf(xs, r[i]) < IndexOf(xs, r[j])
    {
      FirstSeenRanks(xs, ys, r[i], r[j]);
    }
  }

  /** A sequence has at least as many positions as distinct elements, and
      exactly as many when it has no duplicates. */
  lemma {:induction false} ElementsCount<T>(s: seq<T>)
    ensures |Elements(s)| <= |s|
    ensures |Elements(s)| == |s| <==> NoDuplicates(s)
  {
    if s != [] {
      var init, last := s[..|s| - 1], s[|s| - 1];
      ElementsCount(init);
      assert Elements(s) == Elements(init) + {last};
      if last in init {
        assert Elements(s) == Elements(init);
        var k :| 0 <= k < |init| && init[k] == last;
        assert s[k] == s[|s| - 1];
      } else {
        assert NoDuplicates(s) <==> NoDuplicates(init);
      }
    }
  }

  /** The number of distinct URLs is the number of different values in the
      list, and equals the list's length exactly when nothing repeats. */
  lemma DistinctCount<T(!new)>(xs: seq<T>)
    ensures |Distinct(xs)| == |Elements(xs)|
    ensures |Distinct(xs)| == |xs| <==> NoDuplicates(xs)
  {
    var d := Distinct(xs);
    assert Elements(d) == Elements(xs);
    ElementsCount(d);
    ElementsCount(xs);
  }

  /** The URLs of `us` that are web URLs (`web`) or that are not (`!web`),
      in their order in `us`. */
  function Filter(us: seq<Url>, web: bool): (r: seq<Url>)
    ensures forall u :: u in r <==> u in us && IsWeb(u) == web
    ensures |r| <= |us|
  {
    if us == [] then []
    else
      var init, last := us[..|us| - 1], us[|us| - 1];
      assert us == init + [last];
      Filter(init, web) + (if IsWeb(last) == web then [last] else [])
  }

  /** The web and non-web URLs split `us`: together they hold every URL of
      `us` as often as `us` does. */
  lemma {:induction false} PartitionMultiset(us: seq<Url>)
    ensures multiset(Filter(us, true)) + multiset(Filter(us, false)) == multiset(us)
  {
    if us != [] {
      var init, last := us[..|us| - 1], us[|us| - 1];
      PartitionMultiset(init);
      assert us == init + [last];
      assert Filter(us, IsWeb(last)) == Filter(init, IsWeb(last)) + [last];
      assert Filter(us, !IsWeb(last)) == Filter(init, !IsWeb(last));
    }
  }

  /** Every URL is in exactly one of the two groups, and the group sizes add
      up to the whole. */
  lemma Partition(us: seq<Url>)
    ensures |Filter(us, true)| + |Filter(us, false)| == |us|
    ensures forall u :: u in us ==> (u in Filter(us, true) <==> u !in Filter(us, false))
  {
    PartitionMultiset(us);
    assert |multiset(us)| == |us|;
  }

  /** Keeping some of the URLs keeps them distinct. */
  lemma {:induction false} FilterNoDuplicates(us: seq<Url>, web: bool)
    requires NoDuplicates(us)
    ensures NoDuplicates(Filter(us, web))
  {
    if us != [] {
      var init := us[..|us| - 1];
      FilterNoDuplicates(init, web);
      assert us[|us| - 1] !in init;
    }
  }

  /** Filtering keeps the order of the (duplicate-free) input. */
  lemma {:induction false} FilterKeepsOrder(us: seq<Url>, web: bool)
    requires NoDuplicates(us)
    ensures InFirstSeenOrder(us, Filter(us, web))
  {
    if us != [] {
      var init, last := us[..|us| - 1], us[|us| - 1];
      assert us == init + [last];
      assert last !in init;
      FilterKeepsOrder(init, web);
      var f := Filter(init, web);
      forall k | 0 <= k < |f|
        ensures f[k] in init
      {
        assert f[k] in f;
      }
      FirstSeenExtend(init, last, f);
    }
  }

  /** The root of each URL, position by position. */
  function RootsOf(ws: seq<Url>): (r: seq<string>)
    ensures |r| == |ws|
  {
    seq(|ws|, i requires 0 <= i < |ws| => RootOf(ws[i]))
  }

  /** The distinct roots of the web URLs among `unique`. */
  function UniqueRoots(unique: seq<Url>): seq<string> {
    Distinct(RootsOf(Filter(unique, true)))
  }

  /** Every distinct root is the root of some web URL, every web URL's root
      is listed, and there are no more roots than web URLs. */
  lemma UniqueRootsSpec(unique: seq<Url>)
    ensures |UniqueRoots(unique)| <= |Filter(unique, true)|
    ensures forall r :: r in UniqueRoots(unique) <==> exists u :: u in unique && IsWeb(u) && RootOf(u) == r
  {
    var web := Filter(unique, true);
    var roots := RootsOf(web);
    forall r
      ensures r in roots <==> exists u :: u in unique && IsWeb(u) && RootOf(u) == r
    {
      if r in roots {
        var i :| 0 <= i < |roots| && roots[i] == r;
        assert web[i] in web;
      }
      if exists u :: u in unique && IsWeb(u) && RootOf(u) == r {
        var u :| u in unique && IsWeb(u) && RootOf(u) == r;
        var i :| 0 <= i < |web| && web[i] == u;
        assert roots[i] == r;
      }
    }
  }

  /** With roots read back unambiguously, there are exactly as many distinct
      roots as distinct web URLs if and only if no two of those URLs share
      scheme, host and shown port. */
  lemma UniqueRootsExact(unique: seq<Url>)
    requires forall u :: u in unique && IsWeb(u) ==> Delimited(u)
    ensures var web := Filter(unique, true);
            |UniqueRoots(unique)| == |web| <==>
              forall i, j :: 0 <= i < j < |web| ==> OriginOf(web[i]) != OriginOf(web[j])
  {
    var web := Filter(unique, true);
    var roots := RootsOf(web);
    DistinctCount(roots);
    forall i, j | 0 <= i < j < |web|
      ensures roots[i] == roots[j] <==> OriginOf(web[i]) == OriginOf(web[j])
    {
      assert web[i] in web && web[j] in web;
      RootInjective(web[i], web[j]);
    }
  }

  /** Ordinal order on text: a prefix comes first, otherwise the first
      differing character decides. */
  predicate TextLe(a: string, b: string) {
    a == [] || (b != [] && (a[0] < b[0] || (a[0] == b[0] && TextLe(a[1..], b[1..]))))
  }

  lemma {:induction false} TextLeTotal(a: string, b: string)
    ensures TextLe(a, b) || TextLe(b, a)
  {
    if a != [] && b != [] && a[0] == b[0] {
      TextLeTotal(a[1..], b[1..]);
    }
  }

  lemma {:induction false} TextLeTransitive(a: string, b: string, c: string)
    requires TextLe(a, b) && TextLe(b, c)
    ensures TextLe(a, c)
  {
    if a != [] && b != [] && c != [] && a[0] == b[0] == c[0] {
      TextLeTransitive(a[1..], b[1..], c[1..]);
    }
  }

  lemma {:induction false} TextLeReflexive(a: string)
    ensures TextLe(a, a)
  {
    if a != [] {
      TextLeReflexive(a[1..]);
    }
  }

  /** Ascending by text form. */
  predicate SortedByText(show: Url -> string, s: seq<Url>) {
    forall i, j :: 0 <= i < j < |s| ==> TextLe(show(s[i]), show(s[j]))
  }

  /** Puts `x` before the first URL whose text is not below its own, so
      that URLs of equal text keep their order. */
  function Insert(show: Url -> string, x: Url, s: seq<Url>): (r: seq<Url>)
    ensures multiset(r) == multiset(s) + multiset{x}
  {
    if s == [] then [x]
    else if TextLe(show(x), show(s[0])) then [x] + s
    else
      assert s == [s[0]] + s[1..];
      [s[0]] + Insert(show, x, s[1..])
  }

  /** The URLs of `s` ordered by their text, a stable sort. */
  function SortByText(show: Url -> string, s: seq<Url>): (r: seq<Url>)
    ensures multiset(r) == multiset(s)
  {
    if s == [] then []
    else
      assert s == [s[0]] + s[1..];
      Insert(show, s[0], SortByText(show, s[1..]))
  }

  lemma {:induction false} InsertSorted(show: Url -> string, x: Url, s: seq<Url>)
    requires SortedByText(show, s)
    ensures SortedByText(show, Insert(show, x, s))
  {
    if s != [] && !TextLe(show(x), show(s[0])) {
      InsertSorted(show, x, s[1..]);
      TextLeTotal(show(x), show(s[0]));
      var r := Insert(show, x, s);
      var tail := Insert(show, x, s[1..]);
      assert r == [s[0]] + tail;
      forall j | 0 < j < |r|
        ensures TextLe(show(s[0]), show(r[j]))
      {
        assert r[j] in multiset(tail);
        assert r[j] == x || r[j] in s[1..];
        if r[j] != x {
          var k :| 0 <= k < |s[1..]| && s[1..][k] == r[j];
          assert s[k + 1] == r[j];
        }
      }
    } else if s != [] {
      forall i, j | 0 <= i < j < |[x] + s|
        ensures TextLe(show(([x] + s)[i]), show(([x] + s)[j]))
      {
        if i == 0 && j > 1 {
          TextLeTransitive(show(x), show(s[0]), show(s[j - 1]));
        }
      }
    }
  }

  /** Of two URLs of equal text in `r`, the one earlier in `s` comes
      first. */
  ghost predicate StableIn(show: Url -> string, s: seq<Url>, r: seq<Url>) {
    forall i, j :: 0 <= i < j < |r| && show(r[i]) == show(r[j]) ==> IndexOf(s, r[i]) < IndexOf(s, r[j])
  }

  /** Inserting a URL that comes before every URL of equal text keeps the
      listing stable. */
  lemma {:induction false} InsertStable(show: Url -> string, s: seq<Url>, x: Url, r: seq<Url>)
    requires StableIn(show, s, r)
    requires forall k :: 0 <= k < |r| && show(r[k]) == show(x) ==> IndexOf(s, x) < IndexOf(s, r[k])
    ensures StableIn(show, s, Insert(show, x, r))
  {
    if r != [] && !TextLe(show(x), show(r[0])) {
      var tail := Insert(show, x, r[1..]);
      InsertStable(show, s, x, r[1..]);
      var q := Insert(show, x, r);
      assert q == [r[0]] + tail;
      forall j | 0 < j < |q| && show(q[0]) == show(q[j])
        ensures IndexOf(s, q[0]) < IndexOf(s, q[j])
      {
        if q[j] == x {
          TextLeReflexive(show(x));
        } else {
          assert q[j] in multiset(tail);
          assert q[j] in r[1..];
          var k :| 0 <= k < |r[1..]| && r[1..][k] == q[j];
          assert r[k + 1] == q[j];
        }
      }
    }
  }

  /** Sorting is stable: URLs of equal text keep the order they have in the
      (duplicate-free) input, as an ordering by key does. */
  lemma {:induction false} SortByTextStable(show: Url -> string, s: seq<Url>)
    requires NoDuplicates(s)
    ensures StableIn(show, s, SortByText(show, s))
  {
    if s != [] {
      var t := s[1..];
      assert s == [s[0]] + t;
      assert NoDuplicates(t);
      SortByTextStable(show, t);
      var r := SortByText(show, t);
      forall e | e in t
        ensures IndexOf(s, e) == IndexOf(t, e) + 1
      {
        assert e != s[0];
        IndexOfAfter([s[0]], t, e);
      }
      forall k | 0 <= k < |r|
        ensures r[k] in t
      {
        assert r[k] in multiset(r);
      }
      assert StableIn(show, s, r);
      forall k | 0 <= k < |r|
        ensures IndexOf(s, s[0]) < IndexOf(s, r[k])
      {
        assert r[k] in t;
      }
      InsertStable(show, s, s[0], r);
    }
  }

  /** The sorted listing is in ascending text order. */
  lemma {:induction false} SortByTextSorted(show: Url -> string, s: seq<Url>)
    ensures SortedByText(show, SortByText(show, s))
  {
    if s != [] {
      SortByTextSorted(show, s[1..]);
      InsertSorted(show, s[0], SortByText(show, s[1..]));
    }
  }

  /** What the report prints: the total number of URLs found, the distinct
      URLs, the distinct roots of the web URLs, and the non-web URLs in text
      order. */
  datatype Report = Report(total: nat, unique: seq<Url>, roots: seq<string>, nonWeb: seq<Url>)

  /** The summary of a list of extracted URLs: count, distinct, keep the
      web URLs' distinct roots, sort the non-web URLs by text. */
  function Aggregate(show: Url -> string, urls: seq<Url>): Report {
    var unique := Distinct(urls);
    Report(|urls|, unique, UniqueRoots(unique), SortByText(show, Filter(unique, false)))
  }

  /** The counts: the total counts every URL found, the distinct URLs are
      exactly the different URLs found, so there are no more of them than
      the total. */
  lemma AggregateUnique(show: Url -> string, urls: seq<Url>)
    ensures var rep := Aggregate(show, urls);
            && rep.total == |urls|
            && NoDuplicates(rep.unique)
            && (forall u :: u in rep.unique <==> u in urls)
            && InFirstSeenOrder(urls, rep.unique)
            && |rep.unique| == |Elements(urls)| <= rep.total
  {
    DistinctCount(urls);
    ElementsCount(urls);
    DistinctFirstSeen(urls);
  }

  /** The roots: distinct, no more of them than distinct web URLs, exactly
      the roots of the web URLs found, and listed in the order their first
      web URL was found. */
  lemma AggregateRoots(show: Url -> string, urls: seq<Url>)
    ensures var rep := Aggregate(show, urls);
            && NoDuplicates(rep.roots)
            && |rep.roots| <= |Filter(rep.unique, true)|
            && (forall r :: r in rep.roots <==> exists u :: u in urls && IsWeb(u) && RootOf(u) == r)
            && InFirstSeenOrder(urls, Filter(rep.unique, true))
            && InFirstSeenOrder(RootsOf(Filter(rep.unique, true)), rep.roots)
  {
    var unique := Distinct(urls);
    var web := Filter(unique, true);
    UniqueRootsSpec(unique);
    DistinctFirstSeen(urls);
    FilterKeepsOrder(unique, true);
    forall k | 0 <= k < |web|
      ensures web[k] in unique
    {
      assert web[k] in web;
    }
    FirstSeenTransitive(urls, unique, web);
    DistinctFirstSeen(RootsOf(web));
  }

  /** A listing stable relative to `s`, where `s` is in first-seen order
      relative to `xs`, is stable relative to `xs`. */
  lemma StableTransfer(show: Url -> string, xs: seq<Url>, s: seq<Url>, r: seq<Url>)
    requires StableIn(show, s, r) && InFirstSeenOrder(xs, s)
    requires forall k :: 0 <= k < |r| ==> r[k] in s
    ensures StableIn(show, xs, r)
  {
    forall i, j | 0 <= i < j < |r| && show(r[i]) == show(r[j])
      ensures IndexOf(xs, r[i]) < IndexOf(xs, r[j])
    {
      FirstSeenRanks(xs, s, r[i], r[j]);
    }
  }

  /** The non-web listing: a rearrangement of the distinct non-web URLs in
      ascending text order, URLs of equal text in the order they were
      found. */
  lemma AggregateNonWeb(show: Url -> string, urls: seq<Url>)
    ensures var rep := Aggregate(show, urls);
            && multiset(rep.nonWeb) == multiset(Filter(rep.unique, false))
            && SortedByText(show, rep.nonWeb)
            && StableIn(show, Filter(rep.unique, false), rep.nonWeb)
            && StableIn(show, urls, rep.nonWeb)
  {
    var unique := Distinct(urls);
    var others := Filter(unique, false);
    var sorted := SortByText(show, others);
    FilterNoDuplicates(unique, false);
    SortByTextSorted(show, others);
    SortByTextStable(show, others);
    DistinctFirstSeen(urls);
    FilterKeepsOrder(unique, false);
    forall k | 0 <= k < |others|
      ensures others[k] in unique
    {
      assert others[k] in others;
    }
    FirstSeenTransitive(urls, unique, others);
    forall k | 0 <= k < |sorted|
      ensures sorted[k] in others
    {
      assert sorted[k] in multiset(sorted);
    }
    StableTransfer(show, urls, others, sorted);
  }

  /** The non-web listing holds each non-web URL found, once. */
  lemma AggregateNonWebMembers(show: Url -> string, urls: seq<Url>)
    ensures var rep := Aggregate(show, urls);
            && NoDuplicates(rep.nonWeb)
            && forall u :: u in rep.nonWeb <==> u in urls && !IsWeb(u)
  {
    var unique := Distinct(urls);
    var others := Filter(unique, false);
    FilterNoDuplicates(unique, false);
    var sorted := SortByText(show, others);
    SameElementsNoDuplicates(others, sorted);
    forall u
      ensures u in sorted <==> u in urls && !IsWeb(u)
    {
      assert u in sorted <==> u in multiset(sorted);
      assert u in others <==> u in multiset(others);
    }
  }

  /** A rearrangement of a sequence without duplicates has none either. */
  lemma SameElementsNoDuplicates<T>(s: seq<T>, t: seq<T>)
    requires NoDuplicates(s) && multiset(t) == multiset(s)
    ensures NoDuplicates(t)
  {
    forall i, j | 0 <= i < j < |t|
      ensures t[i] != t[j]
    {
      if t[i] == t[j] {
        assert multiset(t)[t[i]] >= 2 by {
          assert t == t[..j] + [t[j]] + t[j + 1..];
          assert t[i] in t[..j];
        }
        MultiplicityAtMostOne(s, t[i]);
      }
    }
  }

  lemma {:induction false} MultiplicityAtMostOne<T>(s: seq<T>, x: T)
    requires NoDuplicates(s)
    ensures multiset(s)[x] <= 1
  {
    if s != [] {
      var init := s[..|s| - 1];
      MultiplicityAtMostOne(init, x);
      assert s == init + [s[|s| - 1]];
      assert s[|s| - 1] !in init;
    }
  }

  /** The pipeline: extract the URLs of the document, then summarise them.
      The total is the number of string leaves that parse as URLs. */
  method Analyze(parse: string -> Option<Url>, show: Url -> string, t: Json) returns (rep: Report)
    ensures rep == Aggregate(show, Extracted(parse, t))
    ensures rep.total == AcceptedCount(parse, Leaves(t)) <= |Leaves(t)|
  {
    var urls := ExtractUrls(parse, t);
    ExtractedCount(parse, t);
    rep := Aggregate(show, urls);
    AggregateUnique(show, urls);
  }

  /** The URLs of the sample document, in visiting order. */
  lemma MixedDocumentWalk(parse: string -> Option<Url>)
    requires parse("https://example.com/p1") == Some(Url("https", "example.com", 443, "/p1"))
    requires parse("https://example.com/p2") == Some(Url("https", "example.com", 443, "/p2"))
    requires parse("ftp://files.example.org/f") == Some(Url("ftp", "files.example.org", 21, "/f"))
    ensures Extracted(parse, MixedDocument()) == MixedUrls()
  {
    var items := [String("https://example.com/p2"), String("ftp://files.example.org/f")];
    var ps := MixedDocument().properties;
    assert items[..1] == [items[0]];
    assert ExtractedItems(parse, items) == [Url("https", "example.com", 443, "/p2"), Url("ftp", "files.example.org", 21, "/f")];
    assert ps[..1] == [ps[0]];
    assert ExtractedProperties(parse, ps[..1]) == [Url("https", "example.com", 443, "/p1")];
  }

  /** An object with a URL property and an array of a second URL on the same
      host and an ftp URL. */
  function MixedDocument(): Json {
    Object([Property("a", String("https://example.com/p1")),
            Property("b", Array([String("https://example.com/p2"), String("ftp://files.example.org/f")]))])
  }

  function MixedUrls(): seq<Url> {
    [Url("https", "example.com", 443, "/p1"), Url("https", "example.com", 443, "/p2"),
     Url("ftp", "files.example.org", 21, "/f")]
  }

  lemma MixedUrlsDistinct()
    ensures NoDuplicates(MixedUrls())
  {
    var urls := MixedUrls();
    assert urls[0].rest[2] != urls[1].rest[2];
    assert urls[0].port != urls[2].port && urls[1].port != urls[2].port;
  }

  lemma MixedUrlsSplit()
    ensures Filter(MixedUrls(), true) == MixedUrls()[..2]
    ensures Filter(MixedUrls(), false) == MixedUrls()[2..]
  {
    var urls := MixedUrls();
    assert urls[..2][..1] == urls[..1];
    assert urls[..1][..0] == [];
    assert Filter(urls[..1], true) == urls[..1];
    assert Filter(urls[..2], true) == urls[..2];
  }

  lemma MixedUrlsRoots()
    ensures UniqueRoots(MixedUrls()) == ["https://example.com"]
  {
    MixedUrlsSplit();
    var web := MixedUrls()[..2];
    var root := "https://example.com";
    SampleRoot(web[0]);
    SampleRoot(web[1]);
    var roots := RootsOf(web);
    assert roots[0] == root && roots[1] == root;
    assert roots == [root, root];
    DistinctPair(root);
  }

  lemma SampleRoot(u: Url)
    requires u.scheme == "https" && u.host == "example.com" && u.port == 443
    ensures RootOf(u) == "https://example.com"
  {
    assert PortSuffix(u) == "";
  }

  /** A value listed twice is listed once by Distinct. */
  lemma DistinctPair<T(!new)>(x: T)
    ensures Distinct([x, x]) == [x]
  {
    assert [x, x][..1] == [x];
    assert [x][..0] == [];
  }

  /** The summary of the sample document's URLs: three found, three
      distinct, one root, one non-web URL. */
  lemma MixedUrlsReport(show: Url -> string)
    ensures var rep := Aggregate(show, MixedUrls());
            && rep.total == 3
            && |rep.unique| == 3
            && rep.roots == ["https://example.com"]
            && rep.nonWeb == [Url("ftp", "files.example.org", 21, "/f")]
  {
    var urls := MixedUrls();
    MixedUrlsDistinct();
    DistinctOfDistinct(urls);
    MixedUrlsSplit();
    MixedUrlsRoots();
    SortOne(show, urls[2]);
    assert urls[2..] == [urls[2]];
  }

  /** A single URL is already sorted. */
  lemma SortOne(show: Url -> string, u: Url)
    ensures SortByText(show, [u]) == [u]
  {
    assert [u][1..] == [];
  }

  /** For the sample document: three found, three distinct, one root
      (`https://example.com`), one non-web URL. */
  lemma MixedDocumentReport(parse: string -> Option<Url>, show: Url -> string)
    requires parse("https://example.com/p1") == Some(Url("https", "example.com", 443, "/p1"))
    requires parse("https://example.com/p2") == Some(Url("https", "example.com", 443, "/p2"))
    requires parse("ftp://files.example.org/f") == Some(Url("ftp", "files.example.org", 21, "/f"))
    ensures var rep := Aggregate(show, Extracted(parse, MixedDocument()));
            && rep.total == 3
            && |rep.unique| == 3
            && rep.roots == ["https://example.com"]
            && rep.nonWeb == [Url("ftp", "files.example.org", 21, "/f")]
  {
    MixedDocumentWalk(parse);
    MixedUrlsReport(show);
  }

  /** A document that is a single string which does not parse: nothing is
      found. */
  lemma NoUrlExample(parse: string -> Option<Url>, show: Url -> string)
    requires parse("not a url") == None
    ensures Aggregate(show, Extracted(parse, String("not a url"))) == Report(0, [], [], [])
  {
  }
}
