/**
 * The part of Python's `urllib.parse` that the link parser relies on:
 * `urlsplit` (scheme, network location, query), the `username`,
 * `hostname` and port text of a network location, and `parse_qs`.
 * Percent-decoding is not modelled.
 */
module Url {
  import opened Wrappers
  import opened Text

  predicate IsAsciiLetter(c: char)
  {
    'a' <= c <= 'z' || 'A' <= c <= 'Z'
  }

  /** Characters allowed in a URL scheme. */
  predicate IsSchemeChar(c: char)
  {
    IsAsciiLetter(c) || IsDigit(c) || c == '+' || c == '-' || c == '.'
  }

  datatype Parts = Parts(scheme: string, netloc: string, query: string)

  /**
   * `urlsplit`: the scheme is the lower-cased text before the first ':' when
   * that text is a valid scheme (otherwise ""); the network location follows
   * a leading "//" and runs to the first '/', '?' or '#'; the query is what
   * follows the first '?' before any '#'. A network location holding only one
   * of '[' and ']' is rejected (Python raises ValueError).
   */
  function SplitUrl(url: string): (r: Option<Parts>)
    ensures r.Some? && r.value.scheme != "" ==>
      var i := |r.value.scheme|;
      i < |url| && url[i] == ':' && ':' !in url[..i] && r.value.scheme == Lower(url[..i])
    ensures r.Some? ==> Avoids(r.value.netloc, {'/', '?', '#'})
  {
    var i := FindAny(url, {':'});
    if 0 < i < |url| && IsAsciiLetter(url[0]) && forall k :: 0 <= k < i ==> IsSchemeChar(url[k]) then
      SplitNetloc(Lower(url[..i]), url[i + 1..])
    else
      SplitNetloc("", url)
  }

  function SplitNetloc(scheme: string, rest: string): (r: Option<Parts>)
    ensures r.Some? ==> r.value.scheme == scheme && Avoids(r.value.netloc, {'/', '?', '#'})
  {
    var j := if |rest| >= 2 && rest[..2] == "//" then 2 + FindAny(rest[2..], {'/', '?', '#'}) else 0;
    var netloc := if j == 0 then "" else rest[2..j];
    var tail := rest[j..];
    if ('[' in netloc) != (']' in netloc) then None
    else
      var beforeFragment := tail[..FindAny(tail, {'#'})];
      var q := FindAny(beforeFragment, {'?'});
      Some(Parts(scheme, netloc, if q < |beforeFragment| then beforeFragment[q + 1..] else ""))
  }

  /** The text that a query `q`, if present, adds to a link. */
  function QueryPart(query: Option<string>): string
  {
    match query
    case None => ""
    case Some(q) => "?" + q
  }

  /** Splitting a link assembled from a scheme, a network location and an optional query recovers the three. */
  lemma SplitUrlAssembled(scheme: string, netloc: string, query: Option<string>)
    requires scheme != "" && IsAsciiLetter(scheme[0])
    requires forall k :: 0 <= k < |scheme| ==> IsSchemeChar(scheme[k])
    requires Avoids(netloc, {'/', '?', '#', '[', ']'})
    requires query.Some? ==> Avoids(query.value, {'#'})
    ensures SplitUrl(scheme + "://" + netloc + QueryPart(query)) == Some(Parts(Lower(scheme), netloc, query.GetOr("")))
  {
    var rest := "//" + netloc + QueryPart(query);
    assert scheme + "://" + netloc + QueryPart(query) == scheme + ":" + rest;
    SplitUrlScheme(scheme, rest);
    SplitNetlocAssembled(Lower(scheme), netloc, query);
  }

  /** A valid scheme before the first ':' is taken, lower-cased, and the rest is split on. */
  lemma SplitUrlScheme(scheme: string, rest: string)
    requires scheme != "" && IsAsciiLetter(scheme[0])
    requires forall k :: 0 <= k < |scheme| ==> IsSchemeChar(scheme[k])
    ensures SplitUrl(scheme + ":" + rest) == SplitNetloc(Lower(scheme), rest)
  {
    var url := scheme + ":" + rest;
    SchemeColon(scheme, rest);
    assert forall k :: 0 <= k < |scheme| ==> IsSchemeChar(url[k]);
  }

  /** The first ':' of `scheme + ":" + rest` is the one after a colon-free scheme. */
  lemma SchemeColon(scheme: string, rest: string)
    requires Avoids(scheme, {':'})
    ensures var url := scheme + ":" + rest;
      FindAny(url, {':'}) == |scheme| && url[..|scheme|] == scheme && url[|scheme| + 1..] == rest
    ensures forall k :: 0 <= k < |scheme| ==> (scheme + ":" + rest)[k] == scheme[k]
  {
    var url := scheme + ":" + rest;
    assert url == scheme + (":" + rest);
    FindAnyAppend(scheme, ":" + rest, {':'});
    assert url[..|scheme|] == scheme;
    assert url[|scheme| + 1..] == rest;
  }

  lemma SplitNetlocAssembled(scheme: string, netloc: string, query: Option<string>)
    requires Avoids(netloc, {'/', '?', '#', '[', ']'})
    requires query.Some? ==> Avoids(query.value, {'#'})
    ensures SplitNetloc(scheme, "//" + netloc + QueryPart(query)) == Some(Parts(scheme, netloc, query.GetOr("")))
  {
    var qp := QueryPart(query);
    var rest := "//" + netloc + qp;
    assert rest[..2] == "//";
    assert rest[2..] == netloc + qp;
    NetlocEnd(netloc, query);
    var j := 2 + |netloc|;
    assert rest[2..j] == netloc;
    assert rest[j..] == qp;
    QueryPartTail(query);
  }

  /** The network location of an assembled link ends where its query part starts. */
  lemma NetlocEnd(netloc: string, query: Option<string>)
    requires Avoids(netloc, {'/', '?', '#'})
    ensures FindAny(netloc + QueryPart(query), {'/', '?', '#'}) == |netloc|
  {
    var qp := QueryPart(query);
    FindAnyAppend(netloc, qp, {'/', '?', '#'});
    if query.Some? {
      FindAnyIs(qp, {'/', '?', '#'}, 0);
    }
  }

  /** The query part of an assembled link, cut at '#' and after '?', gives back the query. */
  lemma QueryPartTail(query: Option<string>)
    requires query.Some? ==> Avoids(query.value, {'#'})
    ensures var qp := QueryPart(query);
      var b := qp[..FindAny(qp, {'#'})];
      var q := FindAny(b, {'?'});
      b == qp && (if q < |b| then b[q + 1..] else "") == query.GetOr("")
  {
    var qp := QueryPart(query);
    FindAnyIs(qp, {'#'}, |qp|);
    assert qp[..|qp|] == qp;
    if query.Some? {
      FindAnyIs(qp, {'?'}, 0);
      assert qp[1..] == query.value;
    }
  }

  datatype Authority = Authority(username: Option<string>, hostname: Option<string>, port: Option<string>)

  /** `hostname` lower-cases the host up to a '%' zone separator and keeps the zone as written. */
  function LowerHost(host: string): (r: string)
    ensures |r| == |host|
    ensures forall k :: 0 <= k < |host| ==> r[k] == host[k] || (IsUpper(host[k]) && r[k] == LowerChar(host[k]))
    ensures Avoids(host, {'%'}) ==> forall k :: 0 <= k < |r| ==> !IsUpper(r[k])
  {
    var z := FindAny(host, {'%'});
    Lower(host[..z]) + host[z..]
  }

  /** The user name of a network location: the user information before the last '@', up to its first ':'. */
  function Username(netloc: string): (r: Option<string>)
    ensures r.None? <==> '@' !in netloc
    ensures r.Some? ==> r.value <= netloc && |r.value| < |netloc| && ':' !in r.value
  {
    match FindLast(netloc, '@')
    case None => None
    case Some(at) =>
      var userinfo := netloc[..at];
      Some(userinfo[..FindAny(userinfo, {':'})])
  }

  /** What follows the last '@' of a network location. */
  function HostInfo(netloc: string): string
  {
    match FindLast(netloc, '@')
    case None => netloc
    case Some(at) => netloc[at + 1..]
  }

  /** Host text and port text: up to and after the first ':', or, for a bracketed host, between '[' and ']' and after the next ':'. */
  function HostAndPort(hostinfo: string): (r: (string, string))
    ensures '[' !in hostinfo ==> ':' !in r.0
    ensures '[' !in hostinfo && ':' in hostinfo ==> hostinfo == r.0 + ":" + r.1
    ensures '[' !in hostinfo && ':' !in hostinfo ==> r == (hostinfo, "")
  {
    var b := FindAny(hostinfo, {'['});
    if b < |hostinfo| then
      var bracketed := hostinfo[b + 1..];
      var e := FindAny(bracketed, {']'});
      var afterBracket := if e < |bracketed| then bracketed[e + 1..] else "";
      var c := FindAny(afterBracket, {':'});
      (bracketed[..e], if c < |afterBracket| then afterBracket[c + 1..] else "")
    else
      var c := FindAny(hostinfo, {':'});
      assert c == |hostinfo| ==> hostinfo[..c] == hostinfo;
      (hostinfo[..c], if c < |hostinfo| then hostinfo[c + 1..] else "")
  }

  /** `username`, `hostname` and the port text of a network location; an empty host or port text counts as absent. */
  function SplitAuthority(netloc: string): (a: Authority)
    ensures a.hostname != Some("") && a.port != Some("")
  {
    var (host, port) := HostAndPort(HostInfo(netloc));
    Authority(Username(netloc), if host == "" then None else Some(LowerHost(host)), if port == "" then None else Some(port))
  }

  /** The text that an optional user name adds in front of the host. */
  function UserPart(user: Option<string>): string
  {
    match user
    case None => ""
    case Some(u) => u + "@"
  }

  /** The text that an optional port adds after the host. */
  function PortPart(port: Option<string>): string
  {
    match port
    case None => ""
    case Some(p) => ":" + p
  }

  lemma UserInfoAssembled(user: Option<string>, hostinfo: string)
    requires user.Some? ==> Avoids(user.value, {':'})
    requires '@' !in hostinfo
    ensures Username(UserPart(user) + hostinfo) == user
    ensures HostInfo(UserPart(user) + hostinfo) == hostinfo
  {
    if user.Some? {
      var u := user.value;
      assert UserPart(user) + hostinfo == u + ['@'] + hostinfo;
      UserAt(u, hostinfo);
    }
  }

  /** With a user name in front, the last '@' separates it from the host information. */
  lemma UserAt(u: string, hostinfo: string)
    requires Avoids(u, {':'})
    requires '@' !in hostinfo
    ensures Username(u + ['@'] + hostinfo) == Some(u)
    ensures HostInfo(u + ['@'] + hostinfo) == hostinfo
  {
    var netloc := u + ['@'] + hostinfo;
    FindLastIs(u, '@', hostinfo);
    assert netloc[..|u|] == u;
    assert netloc[|u| + 1..] == hostinfo;
    FindAnyIs(u, {':'}, |u|);
    assert u[..|u|] == u;
  }

  lemma HostAndPortAssembled(host: string, port: Option<string>)
    requires Avoids(host, {':', '['})
    requires port.Some? ==> Avoids(port.value, {'['})
    ensures HostAndPort(host + PortPart(port)) == (host, port.GetOr(""))
  {
    var hostinfo := host + PortPart(port);
    FindAnyIs(hostinfo, {'['}, |hostinfo|);
    FindAnyAppend(host, PortPart(port), {':'});
    assert hostinfo[..|host|] == host;
    if port.Some? {
      assert hostinfo[|host| + 1..] == port.value;
    }
  }

  /** Splitting a network location assembled from its parts recovers them, the host lower-cased. */
  lemma SplitAuthorityAssembled(user: Option<string>, host: string, port: Option<string>)
    requires user.Some? ==> Avoids(user.value, {':'})
    requires Avoids(host, {':', '@', '['})
    requires port.Some? ==> Avoids(port.value, {'@', '['})
    ensures SplitAuthority(UserPart(user) + host + PortPart(port)) ==
      Authority(user, if host == "" then None else Some(LowerHost(host)), if port == Some("") then None else port)
  {
    var hostinfo := host + PortPart(port);
    assert UserPart(user) + host + PortPart(port) == UserPart(user) + hostinfo;
    assert '@' !in hostinfo;
    UserInfoAssembled(user, hostinfo);
    HostAndPortAssembled(host, port);
  }

  /** `parse_qs` on one `name=value` field: no '=' or an empty value drops the field. */
  function FieldPair(field: string): (r: seq<(string, string)>)
    ensures |r| <= 1
    ensures |r| == 1 ==> r[0].1 != "" && field == r[0].0 + "=" + r[0].1 && '=' !in r[0].0
  {
    var e := FindAny(field, {'='});
    if e + 1 >= |field| then []
    else
      assert field == field[..e] + "=" + field[e + 1..];
      [(field[..e], field[e + 1..])]
  }

  function PairsOf(fields: seq<string>): (r: seq<(string, string)>)
    ensures forall k :: 0 <= k < |r| ==> r[k].1 != "" && '=' !in r[k].0
  {
    if fields == [] then [] else FieldPair(fields[0]) + PairsOf(fields[1..])
  }

  /** The name/value pairs of a query, in order, blank values dropped. */
  function QueryPairs(query: string): (r: seq<(string, string)>)
    ensures forall k :: 0 <= k < |r| ==> r[k].1 != "" && '=' !in r[k].0
  {
    PairsOf(SplitOn(query, '&'))
  }

  /** The value of the first pair named `key` (`parse_qs(q)[key][0]`), first value wins. */
  function FirstValue(pairs: seq<(string, string)>, key: string): (r: Option<string>)
    ensures r.None? <==> forall k :: 0 <= k < |pairs| ==> pairs[k].0 != key
    ensures r.Some? ==> exists k :: 0 <= k < |pairs| && pairs[k] == (key, r.value) && forall j :: 0 <= j < k ==> pairs[j].0 != key
  {
    if pairs == [] then None
    else if pairs[0].0 == key then Some(pairs[0].1)
    else
      var r := FirstValue(pairs[1..], key);
      if r.Some? then
        var k :| 0 <= k < |pairs| - 1 && pairs[1..][k] == (key, r.value) && forall j :: 0 <= j < k ==> pairs[1..][j].0 != key;
        assert pairs[k + 1] == (key, r.value);
        r
      else r
  }

  /** `params.get(key, [default])[0]`. */
  function Param(query: string, key: string, default: string): (r: string)
    ensures (forall k :: 0 <= k < |QueryPairs(query)| ==> QueryPairs(query)[k].0 != key) ==> r == default
    ensures r != default ==> r != "" && (key, r) in QueryPairs(query)
    ensures default != "" ==> r != ""
  {
    FirstValue(QueryPairs(query), key).GetOr(default)
  }

  /** The fields `name=value` of a list of pairs. */
  function Fields(kvs: seq<(string, string)>): (r: seq<string>)
    ensures |r| == |kvs|
  {
    if kvs == [] then [] else [kvs[0].0 + "=" + kvs[0].1] + Fields(kvs[1..])
  }

  /** A query written from pairs, in order: the inverse partner of QueryPairs. */
  function EncodeQuery(kvs: seq<(string, string)>): string
  {
    JoinWith(Fields(kvs), '&')
  }

  function DropBlank(kvs: seq<(string, string)>): seq<(string, string)>
  {
    if kvs == [] then [] else (if kvs[0].1 == "" then [] else [kvs[0]]) + DropBlank(kvs[1..])
  }

  /** Names free of '=' and '&', values free of '&'. */
  predicate Encodable(kvs: seq<(string, string)>)
  {
    forall k :: 0 <= k < |kvs| ==> Avoids(kvs[k].0, {'=', '&'}) && Avoids(kvs[k].1, {'&'})
  }

  lemma {:induction false} PairsOfFields(kvs: seq<(string, string)>)
    requires Encodable(kvs)
    ensures PairsOf(Fields(kvs)) == DropBlank(kvs)
  {
    if kvs != [] {
      PairsOfFields(kvs[1..]);
      FindAnyAppend(kvs[0].0, "=" + kvs[0].1, {'='});
      var f := kvs[0].0 + "=" + kvs[0].1;
      assert f == kvs[0].0 + ("=" + kvs[0].1);
      assert f[..|kvs[0].0|] == kvs[0].0;
      assert f[|kvs[0].0| + 1..] == kvs[0].1;
      assert Fields(kvs)[1..] == Fields(kvs[1..]);
    }
  }

  lemma {:induction false} FieldsAvoid(kvs: seq<(string, string)>, cs: set<char>)
    requires '=' !in cs
    requires forall k :: 0 <= k < |kvs| ==> Avoids(kvs[k].0, cs) && Avoids(kvs[k].1, cs)
    ensures forall k :: 0 <= k < |kvs| ==> Avoids(Fields(kvs)[k], cs)
  {
    if kvs != [] {
      FieldsAvoid(kvs[1..], cs);
      assert forall k :: 1 <= k < |kvs| ==> Fields(kvs)[k] == Fields(kvs[1..])[k - 1];
    }
  }

  /**
   * `parse_qs` reads back an encoded query as its pairs with blank values
   * dropped; with FirstValue this says that the first non-blank value of a
   * repeated name wins and a blank or missing name gives the default.
   */
  lemma QueryRoundTrip(kvs: seq<(string, string)>)
    requires Encodable(kvs)
    ensures QueryPairs(EncodeQuery(kvs)) == DropBlank(kvs)
  {
    if kvs == [] {
      assert SplitOn("", '&') == [""];
      assert FieldPair("") == [];
    } else {
      FieldsAvoid(kvs, {'&'});
      SplitJoin(Fields(kvs), '&');
      PairsOfFields(kvs);
    }
  }

  lemma FirstValueCons(head: seq<(string, string)>, rest: seq<(string, string)>, key: string)
    requires |head| <= 1
    ensures FirstValue(head + rest, key) ==
      if head != [] && head[0].0 == key then Some(head[0].1) else FirstValue(rest, key)
  {
    if head != [] {
      assert (head + rest)[0] == head[0];
      assert (head + rest)[1..] == rest;
    } else {
      assert head + rest == rest;
    }
  }

  lemma {:induction false} FirstValueDropBlankUnique(kvs: seq<(string, string)>, i: nat)
    requires i < |kvs|
    requires forall j :: 0 <= j < |kvs| && j != i ==> kvs[j].0 != kvs[i].0
    ensures FirstValue(DropBlank(kvs), kvs[i].0) == if kvs[i].1 == "" then None else Some(kvs[i].1)
  {
    var key := kvs[i].0;
    var head := if kvs[0].1 == "" then [] else [kvs[0]];
    assert DropBlank(kvs) == head + DropBlank(kvs[1..]);
    FirstValueCons(head, DropBlank(kvs[1..]), key);
    if i == 0 {
      FirstValueAbsent(kvs[1..], key);
    } else {
      assert kvs[1..][i - 1] == kvs[i];
      assert kvs[0].0 != key;
      FirstValueDropBlankUnique(kvs[1..], i - 1);
    }
  }

  lemma {:induction false} FirstValueAbsent(kvs: seq<(string, string)>, key: string)
    requires forall j :: 0 <= j < |kvs| ==> kvs[j].0 != key
    ensures FirstValue(DropBlank(kvs), key) == None
  {
    if kvs != [] {
      var head := if kvs[0].1 == "" then [] else [kvs[0]];
      assert DropBlank(kvs) == head + DropBlank(kvs[1..]);
      FirstValueCons(head, DropBlank(kvs[1..]), key);
      FirstValueAbsent(kvs[1..], key);
    }
  }

  /** On an encoded query, a parameter is the first non-blank value written for its key, or the default when there is none. */
  lemma ParamOfQuery(kvs: seq<(string, string)>, key: string, default: string)
    requires Encodable(kvs)
    ensures Param(EncodeQuery(kvs), key, default) == FirstValue(DropBlank(kvs), key).GetOr(default)
  {
    QueryRoundTrip(kvs);
  }

  /** The first non-blank value written for a key wins, whatever follows it. */
  lemma FirstNonBlankWins(kvs: seq<(string, string)>, i: nat, default: string)
    requires Encodable(kvs) && i < |kvs| && kvs[i].1 != ""
    requires forall j :: 0 <= j < i && kvs[j].0 == kvs[i].0 ==> kvs[j].1 == ""
    ensures Param(EncodeQuery(kvs), kvs[i].0, default) == kvs[i].1
  {
    ParamOfQuery(kvs, kvs[i].0, default);
    FirstValueDropBlankFirst(kvs, i);
  }

  lemma {:induction false} FirstValueDropBlankFirst(kvs: seq<(string, string)>, i: nat)
    requires i < |kvs| && kvs[i].1 != ""
    requires forall j :: 0 <= j < i && kvs[j].0 == kvs[i].0 ==> kvs[j].1 == ""
    ensures FirstValue(DropBlank(kvs), kvs[i].0) == Some(kvs[i].1)
  {
    var key := kvs[i].0;
    var head := if kvs[0].1 == "" then [] else [kvs[0]];
    assert DropBlank(kvs) == head + DropBlank(kvs[1..]);
    FirstValueCons(head, DropBlank(kvs[1..]), key);
    if i > 0 {
      assert kvs[1..][i - 1] == kvs[i];
      assert forall j :: 0 <= j < i - 1 ==> kvs[1..][j] == kvs[j + 1];
      FirstValueDropBlankFirst(kvs[1..], i - 1);
    }
  }

  /** In an encoded query where `key` occurs once, its parameter is its value, or the default when that value is blank. */
  lemma ParamOfEncoded(kvs: seq<(string, string)>, i: nat, default: string)
    requires Encodable(kvs) && i < |kvs|
    requires forall j :: 0 <= j < |kvs| && j != i ==> kvs[j].0 != kvs[i].0
    ensures Param(EncodeQuery(kvs), kvs[i].0, default) == if kvs[i].1 == "" then default else kvs[i].1
  {
    QueryRoundTrip(kvs);
    FirstValueDropBlankUnique(kvs, i);
  }
}
