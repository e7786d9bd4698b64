/**
 * The extractor: a depth-first walk over a JSON value that collects, in
 * visiting order, every string leaf the absolute-URL parser accepts.
 *
 * The parser is a parameter `parse`: a total function from a string to the
 * URL it denotes, or None when the whole string is not an absolute URL.
 */
module Extraction {
  import opened Wrappers
  import opened JsonValue
  import opened Urls

  /** What one string leaf contributes: its URL, or nothing. */
  function Accepted(parse: string -> Option<Url>, s: string): (r: seq<Url>)
    ensures |r| <= 1
    ensures r == [] <==> parse(s).None?
    ensures r != [] ==> parse(s) == Some(r[0])
  {
    match parse(s)
    case Some(u) => [u]
    case None => []
  }

  /** The URLs of a sequence of strings, in order: the reference against
      which the walk is stated. */
  function AcceptAll(parse: string -> Option<Url>, ss: seq<string>): seq<Url> {
    if ss == [] then [] else AcceptAll(parse, ss[..|ss| - 1]) + Accepted(parse, ss[|ss| - 1])
  }

  /** How many strings of `ss` the parser accepts. */
  function AcceptedCount(parse: string -> Option<Url>, ss: seq<string>): nat {
    if ss == [] then 0
    else AcceptedCount(parse, ss[..|ss| - 1]) + (if parse(ss[|ss| - 1]).Some? then 1 else 0)
  }

  /** The walk, as a function: an object contributes its property values'
      URLs in enumeration order, an array its items' URLs in sequence, a
      string at most its own URL, and every other value nothing. */
  function Extracted(parse: string -> Option<Url>, t: Json): seq<Url>
    decreases t
  {
    match t
    case Object(ps) => ExtractedProperties(parse, ps)
    case Array(vs) => ExtractedItems(parse, vs)
    case String(s) => Accepted(parse, s)
    case _ => []
  }

  function ExtractedItems(parse: string -> Option<Url>, vs: seq<Json>): seq<Url>
    decreases vs
  {
    if vs == [] then [] else ExtractedItems(parse, vs[..|vs| - 1]) + Extracted(parse, vs[|vs| - 1])
  }

  function ExtractedProperties(parse: string -> Option<Url>, ps: seq<Property>): seq<Url>
    decreases ps
  {
    if ps == [] then [] else ExtractedProperties(parse, ps[..|ps| - 1]) + Extracted(parse, ps[|ps| - 1].value)
  }

  /** The walk as the source runs it: a fresh list per call, grown by
      appending each child's list inside a loop over the properties or
      items, or by adding the one URL a string parses to. */
  method ExtractUrls(parse: string -> Option<Url>, t: Json) returns (urls: seq<Url>)
    ensures urls == Extracted(parse, t)
    ensures urls == AcceptAll(parse, Leaves(t))
    decreases t
  {
    urls := [];
    match t {
      case Object(ps) =>
        for i := 0 to |ps|
          invariant urls == ExtractedProperties(parse, ps[..i])
        {
          assert ps[i] in ps;
          var sub := ExtractUrls(parse, ps[i].value);
          assert ps[..i + 1][..i] == ps[..i];
          urls := urls + sub;
        }
        assert ps[..|ps|] == ps;
      case Array(vs) =>
        for i := 0 to |vs|
          invariant urls == ExtractedItems(parse, vs[..i])
        {
          var sub := ExtractUrls(parse, vs[i]);
          assert vs[..i + 1][..i] == vs[..i];
          urls := urls + sub;
        }
        assert vs[..|vs|] == vs;
      case String(s) =>
        var uri := parse(s);
        if uri.Some? {
          urls := urls + [uri.value];
        }
      case _ =>
    }
    ExtractedIsAcceptedLeaves(parse, t);
  }

  /** Accepting the strings of `a + b` accepts those of `a`, then those of
      `b`. */
  lemma {:induction false} AcceptAllAppend(parse: string -> Option<Url>, a: seq<string>, b: seq<string>)
    ensures AcceptAll(parse, a + b) == AcceptAll(parse, a) + AcceptAll(parse, b)
    decreases |b|
  {
    if b == [] {
      assert a + b == a;
    } else {
      var b' := b[..|b| - 1];
      assert (a + b)[..|a + b| - 1] == a + b';
      assert (a + b)[|a + b| - 1] == b[|b| - 1];
      AcceptAllAppend(parse, a, b');
    }
  }

  /** The walk yields exactly the accepted string leaves, one URL per
      accepted leaf, in visiting order. */
  lemma {:induction false} ExtractedIsAcceptedLeaves(parse: string -> Option<Url>, t: Json)
    ensures Extracted(parse, t) == AcceptAll(parse, Leaves(t))
    decreases t
  {
    match t
    case Object(ps) => PropertiesAreAcceptedLeaves(parse, ps);
    case Array(vs) => ItemsAreAcceptedLeaves(parse, vs);
    case String(s) => assert Leaves(t)[..0] == [];
    case _ =>
  }

  lemma {:induction false} ItemsAreAcceptedLeaves(parse: string -> Option<Url>, vs: seq<Json>)
    ensures ExtractedItems(parse, vs) == AcceptAll(parse, ItemLeaves(vs))
    decreases vs
  {
    if vs != [] {
      ItemsAreAcceptedLeaves(parse, vs[..|vs| - 1]);
      ExtractedIsAcceptedLeaves(parse, vs[|vs| - 1]);
      AcceptAllAppend(parse, ItemLeaves(vs[..|vs| - 1]), Leaves(vs[|vs| - 1]));
    }
  }

  lemma {:induction false} PropertiesAreAcceptedLeaves(parse: string -> Option<Url>, ps: seq<Property>)
    ensures ExtractedProperties(parse, ps) == AcceptAll(parse, PropertyLeaves(ps))
    decreases ps
  {
    if ps != [] {
      var last := ps[|ps| - 1];
      assert last in ps;
      PropertiesAreAcceptedLeaves(parse, ps[..|ps| - 1]);
      ExtractedIsAcceptedLeaves(parse, last.value);
      AcceptAllAppend(parse, PropertyLeaves(ps[..|ps| - 1]), Leaves(last.value));
    }
  }

  /** One URL per accepted string: the count of URLs is the count of
      accepted strings, never more than the strings themselves. */
  lemma {:induction false} AcceptAllCount(parse: string -> Option<Url>, ss: seq<string>)
    ensures |AcceptAll(parse, ss)| == AcceptedCount(parse, ss) <= |ss|
  {
    if ss != [] {
      AcceptAllCount(parse, ss[..|ss| - 1]);
    }
  }

  /** A URL is produced exactly when some string parses to it. */
  lemma {:induction false} AcceptAllMembership(parse: string -> Option<Url>, ss: seq<string>, u: Url)
    ensures u in AcceptAll(parse, ss) <==> exists i :: 0 <= i < |ss| && parse(ss[i]) == Some(u)
  {
    if ss != [] {
      var init := ss[..|ss| - 1];
      AcceptAllMembership(parse, init, u);
      if exists i :: 0 <= i < |ss| && parse(ss[i]) == Some(u) {
        var i :| 0 <= i < |ss| && parse(ss[i]) == Some(u);
        if i < |init| {
          assert parse(init[i]) == Some(u);
        }
      }
      if exists i :: 0 <= i < |init| && parse(init[i]) == Some(u) {
        var i :| 0 <= i < |init| && parse(init[i]) == Some(u);
        assert parse(ss[i]) == Some(u);
      }
    }
  }

  /** The number of URLs found in a document is the number of its string
      leaves that parse as absolute URLs, so at most its string leaves. */
  lemma ExtractedCount(parse: string -> Option<Url>, t: Json)
    ensures |Extracted(parse, t)| == AcceptedCount(parse, Leaves(t)) <= |Leaves(t)|
  {
    ExtractedIsAcceptedLeaves(parse, t);
    AcceptAllCount(parse, Leaves(t));
  }

  /** Every URL found comes from a string leaf that parses to it, and every
      such leaf's URL is found. */
  lemma ExtractedMembership(parse: string -> Option<Url>, t: Json, u: Url)
    ensures u in Extracted(parse, t) <==> exists i :: 0 <= i < |Leaves(t)| && parse(Leaves(t)[i]) == Some(u)
  {
    ExtractedIsAcceptedLeaves(parse, t);
    AcceptAllMembership(parse, Leaves(t), u);
  }

  /** A scalar contributes at most one URL: a string its parse, when the
      parser accepts it; a number, boolean or null nothing. */
  lemma ExtractedScalar(parse: string -> Option<Url>, t: Json)
    requires !t.Object? && !t.Array?
    ensures |Extracted(parse, t)| <= 1
    ensures Extracted(parse, t) != [] <==> t.String? && parse(t.text).Some?
    ensures t.String? && parse(t.text).Some? ==> Extracted(parse, t) == [parse(t.text).value]
  {
  }

  /** The items of an array are visited in sequence: the URLs of `a + b` are
      those of `a`, then those of `b`. */
  lemma {:induction false} ExtractedItemsAppend(parse: string -> Option<Url>, a: seq<Json>, b: seq<Json>)
    ensures Extracted(parse, Array(a + b)) == Extracted(parse, Array(a)) + Extracted(parse, Array(b))
    decreases |b|
  {
    if b == [] {
      assert a + b == a;
    } else {
      var b' := b[..|b| - 1];
      assert (a + b)[..|a + b| - 1] == a + b';
      assert (a + b)[|a + b| - 1] == b[|b| - 1];
      ExtractedItemsAppend(parse, a, b');
    }
  }

  /** The properties of an object are visited in enumeration order. */
  lemma {:induction false} ExtractedPropertiesAppend(parse: string -> Option<Url>, a: seq<Property>, b: seq<Property>)
    ensures Extracted(parse, Object(a + b)) == Extracted(parse, Object(a)) + Extracted(parse, Object(b))
    decreases |b|
  {
    if b == [] {
      assert a + b == a;
    } else {
      var b' := b[..|b| - 1];
      assert (a + b)[..|a + b| - 1] == a + b';
      assert (a + b)[|a + b| - 1] == b[|b| - 1];
      ExtractedPropertiesAppend(parse, a, b');
    }
  }

  /** The same URL in two leaves is found twice: the walk does not
      deduplicate. */
  lemma DuplicatesKept(parse: string -> Option<Url>, s: string, u: Url)
    requires parse(s) == Some(u)
    ensures Extracted(parse, Array([String(s), String(s)])) == [u, u]
  {
    var vs := [String(s), String(s)];
    assert vs[..1] == [String(s)];
    assert vs[..1][..0] == [];
    assert ExtractedItems(parse, vs[..1]) == [u];
  }
}
