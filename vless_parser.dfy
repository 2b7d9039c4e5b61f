/**
 * `parse_vless_url`: one `vless://` share-link to an endpoint descriptor, or
 * None. The text from the first '#' on is a display label and is dropped;
 * the scheme must be `vless` (in any letter case); the user name is the
 * credential id; the port defaults to 443; eight query parameters are read
 * with fixed defaults, the first non-blank value winning.
 */
module VlessParser {
  import opened Wrappers
  import opened Text
  import opened Url

  /** The parsed link; `network` is the `type` query parameter. */
  datatype VlessLink = VlessLink(
    uuid: Option<string>,
    address: Option<string>,
    port: nat,
    security: string,
    encryption: string,
    flow: string,
    network: string,
    fp: string,
    pbk: string,
    sni: string,
    sid: string)

  const DefaultPort: nat := 443
  const MaxPort: nat := 65535
  /** `int()` refuses decimal text of more digits than this, leading zeros included. */
  const MaxIntDigits: nat := 4300

  /** The link without its label: the text before the first '#'. */
  function StripComment(url: string): (r: string)
    ensures r <= url && '#' !in r
    ensures |r| < |url| ==> url[|r|] == '#'
  {
    var i := FindAny(url, {'#'});
    assert forall k :: 0 <= k < i ==> url[..i][k] == url[k];
    url[..i]
  }

  /**
   * `parsed.port or 443`: no port text gives 443; text that is not all ASCII
   * digits, longer than `int()` accepts, or a number above 65535, raises
   * (None here); port 0 gives 443.
   */
  function EffectivePort(port: Option<string>): (r: Option<nat>)
    ensures r.Some? ==> 1 <= r.value <= MaxPort
  {
    match port
    case None => Some(DefaultPort)
    case Some(text) =>
      if !AllDigits(text) || |text| > MaxIntDigits || DecimalValue(text) > MaxPort then None
      else if DecimalValue(text) == 0 then Some(DefaultPort)
      else Some(DecimalValue(text))
  }

  /** The descriptor built from the located parts and the query, with the parameter defaults. */
  function Descriptor(uuid: Option<string>, address: Option<string>, port: nat, query: string): (r: VlessLink)
    ensures r.uuid == uuid && r.address == address && r.port == port
    ensures r.security != "" && r.encryption != "" && r.network != ""
  {
    VlessLink(uuid, address, port,
      Param(query, "security", "tls"),
      Param(query, "encryption", "none"),
      Param(query, "flow", ""),
      Param(query, "type", "tcp"),
      Param(query, "fp", ""),
      Param(query, "pbk", ""),
      Param(query, "sni", ""),
      Param(query, "sid", ""))
  }

  function ParseVlessUrl(url: string): (r: Option<VlessLink>)
    ensures r.Some? ==> 1 <= r.value.port <= MaxPort
    ensures r.Some? ==> r.value.address != Some("")
  {
    match SplitUrl(StripComment(url))
    case None => None
    case Some(parts) =>
      if parts.scheme != "vless" then None
      else
        var authority := SplitAuthority(parts.netloc);
        match EffectivePort(authority.port)
        case None => None
        case Some(port) => Some(Descriptor(authority.username, authority.hostname, port, parts.query))
  }

  /** Only the text before the first '#' is parsed: any label, even one holding more '#', is ignored. */
  lemma CommentIgnored(url: string, comment: string)
    requires '#' !in url
    ensures ParseVlessUrl(url + "#" + comment) == ParseVlessUrl(url)
  {
    var s := url + "#" + comment;
    FindAnyIs(s, {'#'}, |url|);
    FindAnyIs(url, {'#'}, |url|);
    assert s[..|url|] == url;
    assert url[..|url|] == url;
  }

  /** A parse succeeds only when the text before the first ':' is `vless` in some letter case. */
  lemma ParseNeedsVlessScheme(url: string)
    requires ParseVlessUrl(url).Some?
    ensures var u := StripComment(url); var i := FindAny(u, {':'});
      i < |u| && Lower(u[..i]) == "vless"
  {
    var u := StripComment(url);
    var parts := SplitUrl(u).value;
    assert parts.scheme == "vless";
    var i := |parts.scheme|;
    assert u[i] == ':' && ':' !in u[..i];
    FindAnyIs(u, {':'}, i);
  }

  /** A label-free prefix survives comment stripping in front of the rest. */
  lemma StripCommentAfter(prefix: string, rest: string)
    requires Avoids(prefix, {'#'})
    ensures StripComment(prefix + rest) == prefix + StripComment(rest)
  {
    FindAnyAppend(prefix, rest, {'#'});
    var i := FindAny(rest, {'#'});
    assert (prefix + rest)[..|prefix| + i] == prefix + rest[..i];
  }

  /** A parse depends only on how the label-free text splits. */
  lemma ParseBySplit(url: string, other: string)
    requires SplitUrl(StripComment(url)) == SplitUrl(StripComment(other))
    ensures ParseVlessUrl(url) == ParseVlessUrl(other)
  {
  }

  /** A link with a valid scheme splits as its lower-cased scheme and the label-free rest. */
  lemma SchemeLinkSplit(scheme: string, rest: string)
    requires scheme != "" && IsAsciiLetter(scheme[0])
    requires forall k :: 0 <= k < |scheme| ==> IsSchemeChar(scheme[k])
    ensures SplitUrl(StripComment(scheme + ":" + rest)) == SplitNetloc(Lower(scheme), StripComment(rest))
  {
    assert scheme + ":" + rest == (scheme + ":") + rest;
    StripCommentAfter(scheme + ":", rest);
    SplitUrlScheme(scheme, StripComment(rest));
  }

  /** A text that lower-cases to `vless` is a valid scheme. */
  lemma VlessSpelling(scheme: string)
    requires Lower(scheme) == "vless"
    ensures scheme != "" && IsAsciiLetter(scheme[0])
    ensures forall k :: 0 <= k < |scheme| ==> IsSchemeChar(scheme[k])
  {
    assert |scheme| == 5;
    forall k | 0 <= k < 5
      ensures IsAsciiLetter(scheme[k])
    {
      assert Lower(scheme)[k] == LowerChar(scheme[k]);
    }
  }

  /** The scheme is compared after lower-casing, so `VLESS:` and `vless:` parse alike. */
  lemma SchemeCaseInsensitive(scheme: string, rest: string)
    requires Lower(scheme) == "vless"
    ensures ParseVlessUrl(scheme + ":" + rest) == ParseVlessUrl("vless:" + rest)
  {
    VlessSpelling(scheme);
    SchemeLinkSplit(scheme, rest);
    VlessLinkSplit(rest);
    ParseBySplit(scheme + ":" + rest, "vless:" + rest);
  }

  /** A link written with the lower-case scheme splits after "vless:". */
  lemma VlessLinkSplit(rest: string)
    ensures SplitUrl(StripComment("vless:" + rest)) == SplitNetloc("vless", StripComment(rest))
  {
    LowerVless();
    VlessSpelling("vless");
    SchemeLinkSplit("vless", rest);
    assert "vless:" == "vless" + ":";
  }

  lemma LowerVless()
    ensures Lower("vless") == "vless"
  {
    LowerFixed("vless");
  }

  /** The text of a link assembled from its parts; a missing part is left out. */
  function LinkText(user: Option<string>, host: string, port: Option<string>, query: Option<string>): string
  {
    "vless://" + (UserPart(user) + host + PortPart(port)) + QueryPart(query)
  }

  lemma LinkTextStripped(user: Option<string>, host: string, port: Option<string>, query: Option<string>)
    requires user.Some? ==> Avoids(user.value, {'#'})
    requires Avoids(host, {'#'})
    requires port.Some? ==> Avoids(port.value, {'#'})
    requires query.Some? ==> Avoids(query.value, {'#'})
    ensures StripComment(LinkText(user, host, port, query)) == LinkText(user, host, port, query)
  {
    var url := LinkText(user, host, port, query);
    var netloc := UserPart(user) + host + PortPart(port);
    AvoidsAppend(UserPart(user), host, {'#'});
    AvoidsAppend(UserPart(user) + host, PortPart(port), {'#'});
    AvoidsAppend("vless://", netloc, {'#'});
    AvoidsAppend("vless://" + netloc, QueryPart(query), {'#'});
    FindAnyIs(url, {'#'}, |url|);
    assert url[..|url|] == url;
  }

  lemma LinkTextSplit(user: Option<string>, host: string, port: Option<string>, query: Option<string>)
    requires user.Some? ==> Avoids(user.value, {'/', '?', '#', '[', ']'})
    requires Avoids(host, {'/', '?', '#', '[', ']'})
    requires port.Some? ==> Avoids(port.value, {'/', '?', '#', '[', ']'})
    requires query.Some? ==> Avoids(query.value, {'#'})
    ensures SplitUrl(LinkText(user, host, port, query)) ==
      Some(Parts("vless", UserPart(user) + host + PortPart(port), query.GetOr("")))
  {
    var netloc := UserPart(user) + host + PortPart(port);
    LinkTextShape(user, host, port, query);
    NetlocAvoids(user, host, port);
    LowerVless();
    VlessSpelling("vless");
    SplitUrlAssembled("vless", netloc, query);
  }

  /** A link is a scheme, "://", a network location and a query part. */
  lemma LinkTextShape(user: Option<string>, host: string, port: Option<string>, query: Option<string>)
    ensures LinkText(user, host, port, query) == "vless" + "://" + (UserPart(user) + host + PortPart(port)) + QueryPart(query)
  {
    assert "vless://" == "vless" + "://";
  }

  /** A network location assembled from parts free of delimiters is free of them too. */
  lemma NetlocAvoids(user: Option<string>, host: string, port: Option<string>)
    requires user.Some? ==> Avoids(user.value, {'/', '?', '#', '[', ']'})
    requires Avoids(host, {'/', '?', '#', '[', ']'})
    requires port.Some? ==> Avoids(port.value, {'/', '?', '#', '[', ']'})
    ensures Avoids(UserPart(user) + host + PortPart(port), {'/', '?', '#', '[', ']'})
  {
    var cs := {'/', '?', '#', '[', ']'};
    assert Avoids(UserPart(user), cs);
    assert Avoids(PortPart(port), cs);
    AvoidsAppend(UserPart(user), host, cs);
    AvoidsAppend(UserPart(user) + host, PortPart(port), cs);
  }

  /**
   * Parsing a link assembled from a user name, a host, port text and a query
   * recovers them: the id is the user name (absent when there is no '@'),
   * the address is the host lower-cased (absent when empty), the port
   * follows EffectivePort, the parameters come from the query.
   */
  lemma ParseAssembled(user: Option<string>, host: string, port: Option<string>, query: Option<string>)
    requires user.Some? ==> Avoids(user.value, {':', '/', '?', '#', '[', ']'})
    requires Avoids(host, {':', '@', '/', '?', '#', '[', ']'})
    requires port.Some? ==> Avoids(port.value, {'@', '/', '?', '#', '[', ']'})
    requires query.Some? ==> Avoids(query.value, {'#'})
    ensures ParseVlessUrl(LinkText(user, host, port, query)) ==
      match EffectivePort(if port == Some("") then None else port)
      case None => None
      case Some(p) => Some(Descriptor(user, if host == "" then None else Some(LowerHost(host)), p, query.GetOr("")))
  {
    var url := LinkText(user, host, port, query);
    LinkTextStripped(user, host, port, query);
    LinkTextSplit(user, host, port, query);
    var netloc := UserPart(user) + host + PortPart(port);
    ParseOfSplit(url, netloc, query.GetOr(""));
    SplitAuthorityAssembled(user, host, port);
  }

  /** A parse reads the user name, host and port from the network location that the link splits into. */
  lemma ParseOfSplit(url: string, netloc: string, query: string)
    requires SplitUrl(StripComment(url)) == Some(Parts("vless", netloc, query))
    ensures ParseVlessUrl(url) ==
      var authority := SplitAuthority(netloc);
      match EffectivePort(authority.port)
      case None => None
      case Some(p) => Some(Descriptor(authority.username, authority.hostname, p, query))
  {
  }

  /** A link with only an id, a host and a port gets the defaults: tls, none, empty flow, tcp, empty optional fields. */
  lemma MinimalLinkDefaults(id: string, host: string, port: nat)
    requires Avoids(id, {':', '/', '?', '#', '[', ']'})
    requires Avoids(host, {':', '@', '/', '?', '#', '[', ']'}) && host != ""
    requires 1 <= port <= MaxPort
    ensures ParseVlessUrl("vless://" + id + "@" + host + ":" + NatToDecimal(port)) ==
      Some(VlessLink(Some(id), Some(LowerHost(host)), port, "tls", "none", "", "tcp", "", "", "", ""))
  {
    var digits := NatToDecimal(port);
    assert LinkText(Some(id), host, Some(digits), None) == "vless://" + id + "@" + host + ":" + digits;
    PortText(port);
    ParseAssembled(Some(id), host, Some(digits), None);
    EmptyQueryDefaults(Some(id), Some(LowerHost(host)), port);
  }

  /** A port in 1..65535 written in decimal holds no delimiter and is read back as itself. */
  lemma PortText(port: nat)
    requires 1 <= port <= MaxPort
    ensures Avoids(NatToDecimal(port), {':', '@', '/', '?', '#', '[', ']'})
    ensures NatToDecimal(port) != "" && EffectivePort(Some(NatToDecimal(port))) == Some(port)
  {
    DecimalRoundTrip(port);
    assert Pow10(5) == 100000;
    NumeralLength(port, 5);
  }

  /** With an empty query every parameter takes its default. */
  lemma EmptyQueryDefaults(uuid: Option<string>, address: Option<string>, port: nat)
    ensures Descriptor(uuid, address, port, "") == VlessLink(uuid, address, port, "tls", "none", "", "tcp", "", "", "", "")
  {
    assert SplitOn("", '&') == [""];
    assert FieldPair("") == [];
    assert QueryPairs("") == [];
  }

  /**
   * Port handling: no port text or port 0 gives 443, a port in 1..65535 is
   * kept, and port text that is not a decimal number or exceeds 65535 makes
   * the whole parse fail.
   */
  lemma PortHandling(user: Option<string>, host: string, port: string, query: Option<string>)
    requires user.Some? ==> Avoids(user.value, {':', '/', '?', '#', '[', ']'})
    requires Avoids(host, {':', '@', '/', '?', '#', '[', ']'})
    requires Avoids(port, {'@', '/', '?', '#', '[', ']'})
    requires query.Some? ==> Avoids(query.value, {'#'})
    ensures var r := ParseVlessUrl(LinkText(user, host, Some(port), query));
      && (port == "" ==> r.Some? && r.value.port == DefaultPort)
      && (AllDigits(port) && |port| <= MaxIntDigits && DecimalValue(port) == 0 ==> r.Some? && r.value.port == DefaultPort)
      && (AllDigits(port) && |port| <= MaxIntDigits && 0 < DecimalValue(port) <= MaxPort ==> r.Some? && r.value.port == DecimalValue(port))
      && (!AllDigits(port) || |port| > MaxIntDigits || DecimalValue(port) > MaxPort ==> r.None?)
  {
    ParseAssembled(user, host, Some(port), query);
  }

  /** A query listing the eight parameters of a descriptor, in the order share-links usually carry them. */
  function QueryFields(link: VlessLink): seq<(string, string)>
  {
    [("security", link.security), ("encryption", link.encryption), ("flow", link.flow), ("type", link.network),
     ("fp", link.fp), ("pbk", link.pbk), ("sni", link.sni), ("sid", link.sid)]
  }

  /** The share-link of a descriptor: the inverse partner of ParseVlessUrl. */
  function FormatVlessUrl(link: VlessLink): string
  {
    LinkText(link.uuid, link.address.GetOr(""), Some(NatToDecimal(link.port)), Some(EncodeQuery(QueryFields(link))))
  }

  /** Descriptors that a share-link can carry without escaping. */
  predicate WellFormed(link: VlessLink)
  {
    && (link.uuid.Some? ==> Avoids(link.uuid.value, {':', '/', '?', '#', '[', ']'}))
    && (link.address.Some? ==>
          && link.address.value != ""
          && Avoids(link.address.value, {':', '@', '/', '?', '#', '[', ']', '%'})
          && forall k :: 0 <= k < |link.address.value| ==> !IsUpper(link.address.value[k]))
    && 1 <= link.port <= MaxPort
    && link.security != "" && link.encryption != "" && link.network != ""
    && forall k :: 0 <= k < 8 ==> Avoids(QueryFields(link)[k].1, {'&', '#', '+', '%'})
  }

  lemma EncodedQueryAvoidsHash(link: VlessLink)
    requires WellFormed(link)
    ensures Encodable(QueryFields(link))
    ensures Avoids(EncodeQuery(QueryFields(link)), {'#'})
  {
    var kvs := QueryFields(link);
    FieldsAvoid(kvs, {'#'});
    JoinAvoids(Fields(kvs), '&', {'#'});
  }

  lemma {:induction false} JoinAvoids(parts: seq<string>, sep: char, cs: set<char>)
    requires sep !in cs
    requires forall k :: 0 <= k < |parts| ==> Avoids(parts[k], cs)
    ensures Avoids(JoinWith(parts, sep), cs)
  {
    if |parts| > 1 {
      JoinAvoids(parts[1..], sep, cs);
      AvoidsAppend(parts[0], [sep], cs);
      AvoidsAppend(parts[0] + [sep], JoinWith(parts[1..], sep), cs);
    }
  }

  lemma DescriptorOfEncoded(link: VlessLink)
    requires WellFormed(link)
    ensures Descriptor(link.uuid, link.address, link.port, EncodeQuery(QueryFields(link))) == link
  {
    var kvs := QueryFields(link);
    EncodedQueryAvoidsHash(link);
    FieldNamesDistinct(link);
    ParamOfEncoded(kvs, 0, "tls");
    ParamOfEncoded(kvs, 1, "none");
    ParamOfEncoded(kvs, 2, "");
    ParamOfEncoded(kvs, 3, "tcp");
    ParamOfEncoded(kvs, 4, "");
    ParamOfEncoded(kvs, 5, "");
    ParamOfEncoded(kvs, 6, "");
    ParamOfEncoded(kvs, 7, "");
  }

  /** The eight parameter names of a descriptor's query are pairwise distinct. */
  lemma FieldNamesDistinct(link: VlessLink)
    ensures forall i, j :: 0 <= i < |QueryFields(link)| && 0 <= j < |QueryFields(link)| && i != j ==>
      QueryFields(link)[i].0 != QueryFields(link)[j].0
  {
  }

  /** A host with no upper-case letter and no '%' is its own `hostname`. */
  lemma LowerHostFixed(host: string)
    requires Avoids(host, {'%'})
    requires forall k :: 0 <= k < |host| ==> !IsUpper(host[k])
    ensures LowerHost(host) == host
  {
    FindAnyIs(host, {'%'}, |host|);
    assert host[..|host|] == host;
    LowerFixed(host);
  }

  /** Every well-formed descriptor, including one with no id or no address, survives formatting and parsing unchanged. */
  lemma FormatRoundTrip(link: VlessLink)
    requires WellFormed(link)
    ensures ParseVlessUrl(FormatVlessUrl(link)) == Some(link)
  {
    var host := link.address.GetOr("");
    var digits := NatToDecimal(link.port);
    var query := EncodeQuery(QueryFields(link));
    EncodedQueryAvoidsHash(link);
    PortText(link.port);
    ParseAssembled(link.uuid, host, Some(digits), Some(query));
    if link.address.Some? {
      LowerHostFixed(host);
    }
    assert (if host == "" then None else Some(LowerHost(host))) == link.address;
    DescriptorOfEncoded(link);
  }
}
