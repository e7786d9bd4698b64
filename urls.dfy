/**
 * Absolute URLs as the extractor sees them, and the "root" of a web URL:
 * scheme and host, with the port only when it is not the scheme's default.
 */
module Urls {
  import opened Wrappers
  import opened Decimal
  import opened Sequences

  /** A parsed absolute URL, its components already normalised by the
      parser. `port` is -1 when the URL has none; `rest` is the path, query
      and fragment, kept but not decomposed. Equality of two records stands
      for equality of the URLs. */
  datatype Url = Url(scheme: string, host: string, port: int, rest: string)

  /** A web URL: scheme `http` or `https` (compared exactly: the parser has
      already lower-cased the scheme). */
  predicate IsWeb(u: Url) {
    u.scheme == "http" || u.scheme == "https"
  }

  /** The port is written into the root: it is present, and the scheme is
      http with a port other than 80 or https with a port other than 443. */
  predicate ShowsPort(u: Url) {
    u.port != -1 && ((u.scheme == "http" && u.port != 80) || (u.scheme == "https" && u.port != 443))
  }

  /** The root of a URL: `scheme://host`, then `:port` when ShowsPort. */
  function RootOf(u: Url): string {
    u.scheme + "://" + u.host + PortSuffix(u)
  }

  function PortSuffix(u: Url): string {
    if ShowsPort(u) then ":" + IntToDecimal(u.port) else ""
  }

  /** What a root determines: scheme, host and the port it shows, if any. */
  datatype Origin = Origin(scheme: string, host: string, port: Option<int>)

  function OriginOf(u: Url): Origin {
    Origin(u.scheme, u.host, if ShowsPort(u) then Some(u.port) else None)
  }

  /** A host the root text delimits: either an IPv6 literal in brackets
      (colons inside, the closing bracket only at the end), or a name or
      IPv4 address without a colon. */
  predicate DelimitedHost(host: string) {
    if host != [] && host[0] == '[' then
      host[|host| - 1] == ']' && ']' !in host[..|host| - 1]
    else
      ':' !in host
  }

  /** A URL whose root can be read back unambiguously: no colon in the
      scheme, a delimited host, and a port that is either absent (-1) or a
      number. */
  predicate Delimited(u: Url) {
    ':' !in u.scheme && DelimitedHost(u.host) && u.port >= -1
  }

  /** Builds the root as the source does: the scheme, "://" and the host,
      then the port appended only when it is not the default. */
  method GetRoot(u: Url) returns (root: string)
    ensures root == RootOf(u)
    ensures Delimited(u) ==> ParseRoot(root) == Some(OriginOf(u))
  {
    var baseUri := u.scheme + "://" + u.host;
    if u.port != -1 && ((u.scheme == "http" && u.port != 80) || (u.scheme == "https" && u.port != 443)) {
      baseUri := baseUri + ":" + IntToDecimal(u.port);
    }
    root := baseUri;
    if Delimited(u) {
      RootRoundTrip(u);
    }
  }

  /** Reads a root back: the scheme up to the first colon, then "://" and
      the authority. */
  function ParseRoot(r: string): Option<Origin> {
    var i := IndexOf(r, ':');
    if |r| < i + 3 || r[i..i + 3] != "://" then None else ParseAuthority(r[..i], r[i + 3..])
  }

  /** Reads the part after "://": a bracketed host up to its closing
      bracket, any other host up to the first colon; then the port. */
  function ParseAuthority(scheme: string, after: string): Option<Origin> {
    if after != [] && after[0] == '[' then
      var k := IndexOf(after, ']');
      if k == |after| then None else ParsePort(scheme, after[..k + 1], after[k + 1..])
    else
      var j := IndexOf(after, ':');
      ParsePort(scheme, after[..j], after[j..])
  }

  /** Reads what follows the host: nothing, or a colon and the port's
      digits. */
  function ParsePort(scheme: string, host: string, tail: string): Option<Origin> {
    if tail == [] then Some(Origin(scheme, host, None))
    else if tail[0] != ':' then None
    else
      match ParseDecimal(tail[1..])
      case None => None
      case Some(n) => Some(Origin(scheme, host, Some(n)))
  }

  /** A colon-free scheme is read back whole, and the rest goes on to the
      authority. */
  lemma ParseRootScheme(scheme: string, after: string)
    requires ':' !in scheme
    ensures ParseRoot(scheme + "://" + after) == ParseAuthority(scheme, after)
  {
    var r := scheme + "://" + after;
    assert r == scheme + ("://" + after);
    IndexOfAfter(scheme, "://" + after, ':');
    var i := IndexOf(r, ':');
    assert i == |scheme|;
    assert r[i..i + 3] == "://";
    assert r[..i] == scheme;
    assert r[i + 3..] == after;
  }

  /** A delimited host is read back whole, and what follows it goes on to
      the port. */
  lemma ParseAuthorityHost(scheme: string, host: string, tail: string)
    requires DelimitedHost(host)
    requires tail == [] || tail[0] == ':'
    ensures ParseAuthority(scheme, host + tail) == ParsePort(scheme, host, tail)
  {
    var after := host + tail;
    if host != [] && host[0] == '[' {
      var body := host[..|host| - 1];
      assert after == body + ([']'] + tail);
      IndexOfAfter(body, [']'] + tail, ']');
      var k := IndexOf(after, ']');
      assert k == |host| - 1;
      assert after[..k + 1] == host;
      assert after[k + 1..] == tail;
    } else {
      IndexOfAfter(host, tail, ':');
      var j := IndexOf(after, ':');
      assert j == |host|;
      assert after[..j] == host;
      assert after[j..] == tail;
      if host == [] {
        assert after == tail;
      }
    }
  }

  /** The root is the readable form of the URL's origin: reading it back
      gives scheme, host and the shown port. */
  lemma RootRoundTrip(u: Url)
    requires Delimited(u)
    ensures ParseRoot(RootOf(u)) == Some(OriginOf(u))
  {
    var tail := PortSuffix(u);
    assert RootOf(u) == u.scheme + "://" + (u.host + tail);
    ParseRootScheme(u.scheme, u.host + tail);
    ParseAuthorityHost(u.scheme, u.host, tail);
    if ShowsPort(u) {
      assert tail[1..] == NatToDecimal(u.port);
      DecimalRoundTrip(u.port);
    }
  }

  /** Two URLs have the same root exactly when they agree on scheme, host and
      the port the root shows. */
  lemma RootInjective(u: Url, v: Url)
    requires Delimited(u) && Delimited(v)
    ensures RootOf(u) == RootOf(v) <==> OriginOf(u) == OriginOf(v)
  {
    RootRoundTrip(u);
    RootRoundTrip(v);
  }

  /** The root ignores everything beyond scheme, host and port. */
  lemma RootIgnoresRest(u: Url, v: Url)
    requires u.scheme == v.scheme && u.host == v.host && u.port == v.port
    ensures RootOf(u) == RootOf(v)
  {
  }

  /** A web URL's root carries a port suffix exactly when the port is present
      and not the scheme's default; otherwise it is `scheme://host`. */
  lemma WebRootShape(u: Url)
    requires IsWeb(u)
    ensures ShowsPort(u) <==> u.port != -1 && u.port != (if u.scheme == "http" then 80 else 443)
    ensures !ShowsPort(u) ==> RootOf(u) == u.scheme + "://" + u.host
    ensures ShowsPort(u) ==> RootOf(u) == u.scheme + "://" + u.host + ":" + IntToDecimal(u.port)
  {
  }

  /** A non-web URL never shows its port in a root. */
  lemma NonWebRootHasNoPort(u: Url)
    requires !IsWeb(u)
    ensures RootOf(u) == u.scheme + "://" + u.host
  {
  }

  /** The default ports vanish, as does an absent port. */
  lemma DefaultPortExamples()
    ensures RootOf(Url("http", "example.com", 80, "/x")) == "http://example.com"
    ensures RootOf(Url("http", "example.com", -1, "/y")) == "http://example.com"
    ensures RootOf(Url("https", "example.com", 443, "")) == "https://example.com"
  {
  }

  /** Any other port is kept. */
  lemma ExplicitPortExample()
    ensures RootOf(Url("https", "example.com", 8443, "/x")) == "https://example.com:8443"
  {
    var u := Url("https", "example.com", 8443, "/x");
    assert ShowsPort(u);
    assert NatToDecimal(8) == "8";
    assert NatToDecimal(84) == "84";
    assert NatToDecimal(844) == "844";
    assert NatToDecimal(8443) == "8443";
    assert PortSuffix(u) == ":8443";
  }

  /** An IPv6 literal host, bracketed as the parser gives it, is read back
      with its port. */
  lemma Ipv6RootExample()
    ensures ParseRoot(RootOf(Url("http", "[::1]", 8080, "/"))) == Some(Origin("http", "[::1]", Some(8080)))
  {
    var u := Url("http", "[::1]", 8080, "/");
    assert u.host[..|u.host| - 1] == "[::1";
    assert Delimited(u);
    RootRoundTrip(u);
  }

  /** Why the host must be delimited: a host with a bare colon makes two
      different origins share a root. */
  lemma UndelimitedHostAmbiguous()
    ensures RootOf(Url("http", "a:1", -1, "")) == RootOf(Url("http", "a", 1, ""))
    ensures OriginOf(Url("http", "a:1", -1, "")) != OriginOf(Url("http", "a", 1, ""))
  {
    assert NatToDecimal(1) == "1";
  }
}
