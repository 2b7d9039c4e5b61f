/**
 * The outbound list of a client configuration, rebuilt from a list of
 * share-links: one route per link that parses, tagged `vless-<i+1>` by the
 * link's position i in the input (so tags may skip failed links), then the
 * `direct` fallback route, always last. Only the `outbounds` key of the
 * configuration is replaced.
 */
module Reconcile {
  import opened Wrappers
  import opened Text
  import opened VlessParser
  import opened Outbound

  /** The tag of the route built from the link at input position `index`. */
  function Tag(index: nat): (r: string)
    ensures |r| > 6 && r[..6] == "vless-" && AllDigits(r[6..])
    ensures DecimalValue(r[6..]) == index + 1 && r[6] != '0'
  {
    DecimalRoundTrip(index + 1);
    NoLeadingZero(index + 1);
    "vless-" + NatToDecimal(index + 1)
  }

  /** Links at different positions get different tags. */
  lemma TagInjective(i: nat, j: nat)
    requires Tag(i) == Tag(j)
    ensures i == j
  {
    assert Tag(i)[6..] == NatToDecimal(i + 1);
    assert Tag(j)[6..] == NatToDecimal(j + 1);
    NatToDecimalInjective(i + 1, j + 1);
  }

  /** The parse of every link, position by position. */
  function ParseAll(urls: seq<string>): (links: seq<Option<VlessLink>>)
    ensures |links| == |urls|
  {
    if urls == [] then [] else [ParseVlessUrl(urls[0])] + ParseAll(urls[1..])
  }

  /** Position `i` of ParseAll holds the parse of the link at position `i`. */
  lemma {:induction false} ParseAllAt(urls: seq<string>, i: nat)
    requires i < |urls|
    ensures ParseAll(urls)[i] == ParseVlessUrl(urls[i])
  {
    if i > 0 {
      ParseAllAt(urls[1..], i - 1);
    }
  }

  lemma ParseAllEach(urls: seq<string>)
    ensures forall i :: 0 <= i < |urls| ==> ParseAll(urls)[i] == ParseVlessUrl(urls[i])
  {
    forall i | 0 <= i < |urls|
      ensures ParseAll(urls)[i] == ParseVlessUrl(urls[i])
    {
      ParseAllAt(urls, i);
    }
  }

  /** The route, if any, contributed by the link at position `i`. */
  function RouteFor(links: seq<Option<VlessLink>>, i: nat): seq<Outbound>
    requires i < |links|
  {
    match links[i]
    case None => []
    case Some(link) => [CreateVlessOutbound(link, Tag(i))]
  }

  /** The routes contributed by the first `n` links, in input order. */
  function ProxyRoutes(links: seq<Option<VlessLink>>, n: nat): seq<Outbound>
    requires n <= |links|
  {
    if n == 0 then [] else ProxyRoutes(links, n - 1) + RouteFor(links, n - 1)
  }

  /** The new `outbounds` list for a list of share-links. */
  function Outbounds(urls: seq<string>): (r: seq<Outbound>)
    ensures |r| >= 1 && r[|r| - 1] == Direct
  {
    ProxyRoutes(ParseAll(urls), |urls|) + [Direct]
  }

  /** The positions, in increasing order, of the first `n` links that parse. */
  ghost function Origins(links: seq<Option<VlessLink>>, n: nat): seq<nat>
    requires n <= |links|
  {
    if n == 0 then [] else Origins(links, n - 1) + (if links[n - 1].Some? then [n - 1] else [])
  }

  /** The set of positions of links that parse. */
  ghost function Parseable(links: seq<Option<VlessLink>>, n: nat): set<nat>
    requires n <= |links|
  {
    set i: nat | i < n && links[i].Some?
  }

  /** The positions in Origins are below `n`, hold links that parse, increase strictly, and include every link that parses. */
  lemma {:induction false} OriginsPositions(links: seq<Option<VlessLink>>, n: nat)
    requires n <= |links|
    ensures var o := Origins(links, n);
      && (forall k :: 0 <= k < |o| ==> o[k] < n && links[o[k]].Some?)
      && (forall j, k :: 0 <= j < k < |o| ==> o[j] < o[k])
      && (forall i :: 0 <= i < n && links[i].Some? ==> i in o)
  {
    if n > 0 {
      OriginsPositions(links, n - 1);
      var o := Origins(links, n - 1);
      if links[n - 1].Some? {
        assert Origins(links, n) == o + [n - 1];
      } else {
        assert Origins(links, n) == o;
      }
    }
  }

  /** The k-th proxy route is built from the link at position Origins[k], with tag `vless-<Origins[k]+1>`. */
  lemma {:induction false} ProxyRoutesFromOrigins(links: seq<Option<VlessLink>>, n: nat)
    requires n <= |links|
    ensures var o := Origins(links, n); var r := ProxyRoutes(links, n);
      && |r| == |o|
      && forall k :: 0 <= k < |o| ==>
           o[k] < n && links[o[k]].Some? && r[k] == CreateVlessOutbound(links[o[k]].value, Tag(o[k]))
  {
    OriginsPositions(links, n);
    if n > 0 {
      ProxyRoutesFromOrigins(links, n - 1);
      var o := Origins(links, n - 1);
      var r := ProxyRoutes(links, n - 1);
      var extra := RouteFor(links, n - 1);
      assert ProxyRoutes(links, n) == r + extra;
      assert forall k :: 0 <= k < |r| ==> (r + extra)[k] == r[k];
      if links[n - 1].Some? {
        assert Origins(links, n) == o + [n - 1];
        assert (r + extra)[|r|] == CreateVlessOutbound(links[n - 1].value, Tag(n - 1));
      } else {
        assert Origins(links, n) == o;
        assert r + extra == r;
      }
    }
  }

  /** There are as many positions in Origins as links that parse. */
  lemma {:induction false} OriginsCount(links: seq<Option<VlessLink>>, n: nat)
    requires n <= |links|
    ensures |Origins(links, n)| == |Parseable(links, n)|
  {
    if n > 0 {
      OriginsCount(links, n - 1);
      var below := Parseable(links, n - 1);
      if links[n - 1].Some? {
        assert Origins(links, n) == Origins(links, n - 1) + [n - 1];
        assert Parseable(links, n) == below + {n - 1};
        assert n - 1 !in below;
      } else {
        assert Origins(links, n) == Origins(links, n - 1);
        assert Parseable(links, n) == below;
      }
    }
  }

  /**
   * The proxy routes of `Outbounds(urls)`: the k-th is built from the link at
   * input position Origins[k], which parses, with tag `vless-<Origins[k]+1>`;
   * the positions increase strictly, and every link that parses is among them.
   */
  lemma OutboundsFromOrigins(urls: seq<string>)
    ensures var o := Origins(ParseAll(urls), |urls|); var r := Outbounds(urls);
      && |r| == |o| + 1
      && (forall k :: 0 <= k < |o| ==>
            o[k] < |urls| && ParseVlessUrl(urls[o[k]]).Some? &&
            r[k] == CreateVlessOutbound(ParseVlessUrl(urls[o[k]]).value, Tag(o[k])))
      && (forall j, k :: 0 <= j < k < |o| ==> o[j] < o[k])
      && (forall i :: 0 <= i < |urls| && ParseVlessUrl(urls[i]).Some? ==> i in o)
  {
    var links := ParseAll(urls);
    OriginsPositions(links, |urls|);
    ProxyRoutesFromOrigins(links, |urls|);
    ParseAllEach(urls);
  }

  /** One route per link that parses, plus the fallback: |Outbounds| is the number of parseable links plus one. */
  lemma OutboundsCount(urls: seq<string>)
    ensures |Outbounds(urls)| == |set i: nat | i < |urls| && ParseVlessUrl(urls[i]).Some?| + 1
  {
    var links := ParseAll(urls);
    ParseAllEach(urls);
    ProxyRoutesCount(links, |urls|);
    assert Parseable(links, |urls|) == set i: nat | i < |urls| && ParseVlessUrl(urls[i]).Some?;
  }

  /** One route per link that parses. */
  lemma ProxyRoutesCount(links: seq<Option<VlessLink>>, n: nat)
    requires n <= |links|
    ensures |ProxyRoutes(links, n)| == |Parseable(links, n)|
  {
    ProxyRoutesFromOrigins(links, n);
    OriginsCount(links, n);
  }

  /** The `direct` route is the last one, and no other route is a `freedom` route or tagged `direct`. */
  lemma DirectLastAndOnly(urls: seq<string>)
    ensures var r := Outbounds(urls);
      && r[|r| - 1] == Direct
      && forall k :: 0 <= k < |r| - 1 ==> r[k].protocol == "vless" && r[k].tag != "direct"
  {
    var links := ParseAll(urls);
    var r := Outbounds(urls);
    ProxyRoutesFromOrigins(links, |urls|);
    forall k | 0 <= k < |r| - 1
      ensures r[k].protocol == "vless" && r[k].tag != "direct"
    {
      var i := Origins(links, |urls|)[k];
      assert r[k].tag == Tag(i);
      assert Tag(i)[0] == 'v';
    }
  }

  /** All tags of the new list are distinct. */
  lemma TagsDistinct(urls: seq<string>)
    ensures var r := Outbounds(urls);
      forall j, k :: 0 <= j < k < |r| ==> r[j].tag != r[k].tag
  {
    var links := ParseAll(urls);
    var r := Outbounds(urls);
    var o := Origins(links, |urls|);
    OriginsPositions(links, |urls|);
    ProxyRoutesFromOrigins(links, |urls|);
    DirectLastAndOnly(urls);
    forall j, k | 0 <= j < k < |r|
      ensures r[j].tag != r[k].tag
    {
      if k < |r| - 1 && r[j].tag == r[k].tag {
        TagInjective(o[j], o[k]);
      }
    }
  }

  lemma {:induction false} NoProxyRoutesIffNoneParse(links: seq<Option<VlessLink>>, n: nat)
    requires n <= |links|
    ensures ProxyRoutes(links, n) == [] <==> forall i :: 0 <= i < n ==> links[i].None?
  {
    if n > 0 {
      NoProxyRoutesIffNoneParse(links, n - 1);
      assert |ProxyRoutes(links, n)| == |ProxyRoutes(links, n - 1)| + |RouteFor(links, n - 1)|;
    }
  }

  /** The list is the fallback alone exactly when no link parses; in particular an empty input gives `[direct]`. */
  lemma OnlyDirectIffNoneParse(urls: seq<string>)
    ensures Outbounds(urls) == [Direct] <==> forall i :: 0 <= i < |urls| ==> ParseVlessUrl(urls[i]).None?
  {
    var links := ParseAll(urls);
    NoProxyRoutesIffNoneParse(links, |urls|);
    var r := ProxyRoutes(links, |urls|);
    assert Outbounds(urls) == r + [Direct];
    assert r + [Direct] == [Direct] <==> r == [] by {
      if r + [Direct] == [Direct] {
        assert |r| == 0;
      }
    }
    ParseAllEach(urls);
  }

  /** One pass of the building loop's body: parse the link at position `i` and, if it parses, build its route. */
  method RouteAt(urls: seq<string>, i: nat) returns (route: seq<Outbound>)
    requires i < |urls|
    ensures route == RouteFor(ParseAll(urls), i)
  {
    var link := ParseVlessUrl(urls[i]);
    ParseAllAt(urls, i);
    if link.Some? {
      route := [CreateVlessOutbound(link.value, Tag(i))];
    } else {
      route := [];
    }
  }

  /** The loop of `update_vless_config` / `update_config_with_keys`: one route per link that parses, appended in input order. */
  method BuildProxyRoutes(urls: seq<string>) returns (routes: seq<Outbound>)
    ensures routes == ProxyRoutes(ParseAll(urls), |urls|)
  {
    routes := [];
    ghost var links := ParseAll(urls);
    for i := 0 to |urls|
      invariant routes == ProxyRoutes(links, i)
    {
      var route := RouteAt(urls, i);
      assert ProxyRoutes(links, i + 1) == ProxyRoutes(links, i) + RouteFor(links, i);
      routes := routes + route;
    }
  }

  /** The new `outbounds` list: the proxy routes, then the fallback (alone when there are no links). */
  method BuildOutbounds(urls: seq<string>) returns (outbounds: seq<Outbound>)
    ensures outbounds == Outbounds(urls)
  {
    outbounds := BuildProxyRoutes(urls);
    if |urls| == 0 {
      outbounds := [Direct];
    } else {
      outbounds := outbounds + [Direct];
    }
  }

  /** A configuration value: the outbound list, or any other JSON value kept as its text. */
  datatype Value = Routes(outbounds: seq<Outbound>) | Other(json: string)

  /** A client configuration document: a JSON object. */
  type Config = map<string, Value>

  const OutboundsKey := "outbounds"

  /** The configuration with its `outbounds` replaced and every other key passed through. */
  function WithOutbounds(config: Config, urls: seq<string>): (r: Config)
    ensures r.Keys == config.Keys + {OutboundsKey}
    ensures r[OutboundsKey] == Routes(Outbounds(urls))
    ensures forall key :: key in config && key != OutboundsKey ==> r[key] == config[key]
  {
    config[OutboundsKey := Routes(Outbounds(urls))]
  }

  /** Reconciling again replaces the earlier result: only the latest link list shows, so a repeated pass on the same links changes nothing. */
  lemma ReconcileOverwrites(config: Config, first: seq<string>, second: seq<string>)
    ensures WithOutbounds(WithOutbounds(config, first), second) == WithOutbounds(config, second)
  {
  }

  /**
   * `update_vless_config` with the file I/O as parameter and result: the loaded
   * document (None when reading or decoding failed or it is not an object,
   * where the source's exception handler skips the save) and the document
   * handed to the save, if any.
   */
  method UpdateVlessConfig(loaded: Option<Config>, urls: seq<string>) returns (saved: Option<Config>)
    ensures saved.Some? <==> loaded.Some?
    ensures saved.Some? ==> saved.value == WithOutbounds(loaded.value, urls)
  {
    if loaded.None? {
      return None;
    }
    var config := loaded.value;
    var outbounds := BuildOutbounds(urls);
    config := config[OutboundsKey := Routes(outbounds)];
    saved := Some(config);
  }
}
