/**
 * `VlessMonitor`: finding share-links in file text, and the change detector
 * that re-runs the reconciliation when the repository revision changes.
 * Git, the file system and JSON are parameters: the revision marker, the
 * gathered links and the loaded configuration come in, the document handed
 * to the save goes out.
 */
module Monitor {
  import opened Wrappers
  import opened Reconcile

  /** Python's `\s` for `str` patterns: the characters for which `str.isspace()` holds. */
  predicate IsSpace(c: char)
  {
    || '\t' <= c <= '\r'
    || '\U{1C}' <= c <= ' '
    || c == '\U{85}' || c == '\U{A0}' || c == '\U{1680}'
    || '\U{2000}' <= c <= '\U{200A}'
    || c == '\U{2028}' || c == '\U{2029}' || c == '\U{202F}' || c == '\U{205F}' || c == '\U{3000}'
  }

  /** `\s` takes in the ASCII whitespace `[ \t\n\r\f\v]`, and no printable ASCII character. */
  lemma AsciiSpaces(c: char)
    ensures c == ' ' || '\t' <= c <= '\r' ==> IsSpace(c)
    ensures c < '\U{80}' && IsSpace(c) ==> c <= ' '
  {
  }

  const Prefix := "vless://"

  /** The pattern `vless://[^\s\n]+` can start at `p`: the prefix followed by at least one non-space character. */
  predicate MatchAt(text: string, p: nat)
  {
    p + |Prefix| < |text| && text[p..p + |Prefix|] == Prefix && !IsSpace(text[p + |Prefix|])
  }

  /** The end of the run of non-space characters starting at `q`. */
  function RunEnd(text: string, q: nat): (e: nat)
    requires q <= |text|
    ensures q <= e <= |text|
    ensures forall k :: q <= k < e ==> !IsSpace(text[k])
    ensures e < |text| ==> IsSpace(text[e])
    decreases |text| - q
  {
    if q == |text| || IsSpace(text[q]) then q else RunEnd(text, q + 1)
  }

  datatype Span = Span(start: nat, end: nat)

  /** The matches of `re.findall` from position `p` on: scanning left to right, each match runs greedily to the end of its non-space run. */
  function Spans(text: string, p: nat): (r: seq<Span>)
    requires p <= |text|
    ensures forall k :: 0 <= k < |r| ==> p <= r[k].start < r[k].end <= |text|
    decreases |text| - p
  {
    if p == |text| then []
    else if MatchAt(text, p) then [Span(p, RunEnd(text, p + |Prefix|))] + Spans(text, RunEnd(text, p + |Prefix|))
    else Spans(text, p + 1)
  }

  function SpanTexts(text: string, spans: seq<Span>): seq<string>
    requires forall k :: 0 <= k < |spans| ==> spans[k].start <= spans[k].end <= |text|
  {
    if spans == [] then [] else [text[spans[0].start..spans[0].end]] + SpanTexts(text, spans[1..])
  }

  /** The links `extract_vless_urls` finds in a file's text: each starts with `vless://`, has a character after it and contains no whitespace. */
  function FoundUrls(text: string): (r: seq<string>)
    ensures forall k :: 0 <= k < |r| ==> Shaped(r[k])
  {
    SpansMatch(text, 0);
    SpanTextsShaped(text, Spans(text, 0));
    SpanTexts(text, Spans(text, 0))
  }

  /** No character of `s` is a space. */
  predicate NoSpace(s: string)
  {
    forall k :: 0 <= k < |s| ==> !IsSpace(s[k])
  }

  /** Each match starts where the pattern matches and ends where the non-space run ends (at a space or at the end of the text). */
  lemma {:induction false} SpansMatch(text: string, p: nat)
    requires p <= |text|
    ensures forall k :: 0 <= k < |Spans(text, p)| ==>
      MatchAt(text, Spans(text, p)[k].start) && Spans(text, p)[k].end == RunEnd(text, Spans(text, p)[k].start + |Prefix|)
    decreases |text| - p
  {
    if p < |text| {
      if MatchAt(text, p) {
        var e := RunEnd(text, p + |Prefix|);
        SpansMatch(text, e);
        var rest := Spans(text, e);
        var r := [Span(p, e)] + rest;
        assert Spans(text, p) == r;
        forall k | 0 <= k < |r|
          ensures MatchAt(text, r[k].start) && r[k].end == RunEnd(text, r[k].start + |Prefix|)
        {
          if k > 0 {
            assert r[k] == rest[k - 1];
          }
        }
      } else {
        assert Spans(text, p) == Spans(text, p + 1);
        SpansMatch(text, p + 1);
      }
    }
  }

  /** The matches are in order of appearance and do not overlap. */
  lemma {:induction false} SpansOrdered(text: string, p: nat)
    requires p <= |text|
    ensures forall j, k :: 0 <= j < k < |Spans(text, p)| ==> Spans(text, p)[j].end <= Spans(text, p)[k].start
    decreases |text| - p
  {
    if p < |text| {
      if MatchAt(text, p) {
        var e := RunEnd(text, p + |Prefix|);
        SpansOrdered(text, e);
        var rest := Spans(text, e);
        var r := [Span(p, e)] + rest;
        assert Spans(text, p) == r;
        forall j, k | 0 <= j < k < |r|
          ensures r[j].end <= r[k].start
        {
          assert r[k] == rest[k - 1];
          if j > 0 {
            assert r[j] == rest[j - 1];
          } else {
            assert e <= rest[k - 1].start;
          }
        }
      } else {
        assert Spans(text, p) == Spans(text, p + 1);
        SpansOrdered(text, p + 1);
      }
    }
  }

  /** Every position at which the pattern matches lies inside a match: nothing the pattern accepts is skipped. */
  lemma {:induction false} SpansComplete(text: string, p: nat, q: nat)
    requires p <= q && MatchAt(text, q)
    ensures exists k :: 0 <= k < |Spans(text, p)| && Spans(text, p)[k].start <= q < Spans(text, p)[k].end
    decreases |text| - p
  {
    if MatchAt(text, p) {
      var e := RunEnd(text, p + |Prefix|);
      var rest := Spans(text, e);
      var r := [Span(p, e)] + rest;
      assert Spans(text, p) == r;
      if q >= e {
        SpansComplete(text, e, q);
        var k :| 0 <= k < |rest| && rest[k].start <= q < rest[k].end;
        assert r[k + 1] == rest[k];
      } else {
        assert r[0].start <= q < r[0].end;
      }
    } else {
      assert Spans(text, p) == Spans(text, p + 1);
      SpansComplete(text, p + 1, q);
    }
  }

  /** A found link: the prefix, at least one character after it, and no space anywhere. */
  predicate Shaped(u: string)
  {
    |u| > |Prefix| && u[..|Prefix|] == Prefix && NoSpace(u)
  }

  lemma SpanShaped(text: string, s: Span)
    requires MatchAt(text, s.start) && s.end == RunEnd(text, s.start + |Prefix|)
    ensures Shaped(text[s.start..s.end])
  {
    var u := text[s.start..s.end];
    assert u[..|Prefix|] == text[s.start..s.start + |Prefix|];
    forall k | 0 <= k < |u|
      ensures !IsSpace(u[k])
    {
      assert u[k] == text[s.start + k];
    }
  }

  lemma {:induction false} SpanTextsShaped(text: string, spans: seq<Span>)
    requires forall k :: 0 <= k < |spans| ==> spans[k].start <= spans[k].end <= |text|
    requires forall k :: 0 <= k < |spans| ==>
      MatchAt(text, spans[k].start) && spans[k].end == RunEnd(text, spans[k].start + |Prefix|)
    ensures forall k :: 0 <= k < |SpanTexts(text, spans)| ==> Shaped(SpanTexts(text, spans)[k])
  {
    if spans != [] {
      SpanShaped(text, spans[0]);
      SpanTextsShaped(text, spans[1..]);
      var us := SpanTexts(text, spans[1..]);
      forall k | 0 <= k < |SpanTexts(text, spans)|
        ensures Shaped(SpanTexts(text, spans)[k])
      {
        if k > 0 {
          assert SpanTexts(text, spans)[k] == us[k - 1];
        }
      }
    }
  }

  /** One step of the scan: a match at `p` contributes its text and the scan resumes at its end; otherwise the scan moves one character on. */
  lemma FoundFrom(text: string, p: nat)
    requires p < |text|
    ensures MatchAt(text, p) ==>
      SpanTexts(text, Spans(text, p)) == [text[p..RunEnd(text, p + |Prefix|)]] + SpanTexts(text, Spans(text, RunEnd(text, p + |Prefix|)))
    ensures !MatchAt(text, p) ==> SpanTexts(text, Spans(text, p)) == SpanTexts(text, Spans(text, p + 1))
  {
    if MatchAt(text, p) {
      var e := RunEnd(text, p + |Prefix|);
      var rest := Spans(text, e);
      assert Spans(text, p) == [Span(p, e)] + rest;
      assert ([Span(p, e)] + rest)[1..] == rest;
    }
  }

  /** The greedy `[^\s\n]+` part of a match: advance from `q` while the character is not a space. */
  method ScanRun(content: string, q: nat) returns (e: nat)
    requires q <= |content|
    ensures e == RunEnd(content, q)
  {
    e := q;
    while e < |content| && !IsSpace(content[e])
      invariant q <= e <= |content|
      invariant RunEnd(content, e) == RunEnd(content, q)
      decreases |content| - e
    {
      e := e + 1;
    }
  }

  /** `extract_vless_urls` on a file's text: every match of `vless://[^\s\n]+`, in order. */
  method ExtractVlessUrls(content: string) returns (urls: seq<string>)
    ensures urls == FoundUrls(content)
    ensures forall k :: 0 <= k < |urls| ==> Shaped(urls[k])
  {
    urls := [];
    var p := 0;
    while p < |content|
      invariant p <= |content|
      invariant urls + SpanTexts(content, Spans(content, p)) == FoundUrls(content)
      decreases |content| - p
    {
      FoundFrom(content, p);
      if MatchAt(content, p) {
        var e := ScanRun(content, p + |Prefix|);
        ghost var rest := SpanTexts(content, Spans(content, e));
        assert urls + ([content[p..e]] + rest) == (urls + [content[p..e]]) + rest;
        urls := urls + [content[p..e]];
        p := e;
      } else {
        p := p + 1;
      }
    }
  }

  /** The change detector: the last revision a pass ran for and the links that pass saw. */
  class VlessMonitor {
    var lastCommit: Option<string>
    var activeKeys: set<string>

    constructor ()
      ensures lastCommit == None && activeKeys == {}
    {
      lastCommit := None;
      activeKeys := {};
    }

    /**
     * `update_config_with_keys` with the load as a parameter (a failed load
     * gives the empty object) and the save as the result: an empty
     * configuration is left alone, otherwise its `outbounds` is rebuilt.
     */
    method UpdateConfigWithKeys(loaded: Config, urls: seq<string>) returns (saved: Option<Config>)
      ensures saved.Some? <==> loaded != map[]
      ensures saved.Some? ==> saved.value == WithOutbounds(loaded, urls)
    {
      if loaded == map[] {
        return None;
      }
      var config := loaded;
      var outbounds := BuildOutbounds(urls);
      config := config[OutboundsKey := Routes(outbounds)];
      saved := Some(config);
    }

    /**
     * `check_and_update` for one tick. No revision (None or empty) or an
     * unchanged one: nothing changes and nothing is saved. A new revision:
     * a pass runs, and the revision and the links are recorded whether or not
     * the configuration could be loaded.
     */
    method CheckAndUpdate(currentCommit: Option<string>, activeUrls: seq<string>, loaded: Config) returns (saved: Option<Config>)
      modifies this
      ensures currentCommit == None || currentCommit == Some("") ==>
        saved == None && lastCommit == old(lastCommit) && activeKeys == old(activeKeys)
      ensures currentCommit == old(lastCommit) ==>
        saved == None && lastCommit == old(lastCommit) && activeKeys == old(activeKeys)
      ensures currentCommit.Some? && currentCommit.value != "" && currentCommit != old(lastCommit) ==>
        && lastCommit == currentCommit
        && activeKeys == (set u | u in activeUrls)
        && saved == (if loaded == map[] then None else Some(WithOutbounds(loaded, activeUrls)))
    {
      if currentCommit == None || currentCommit == Some("") {
        return None;
      }
      if currentCommit != lastCommit {
        saved := UpdateConfigWithKeys(loaded, activeUrls);
        lastCommit := currentCommit;
        activeKeys := set u | u in activeUrls;
      } else {
        saved := None;
      }
    }
  }

  /** A fresh monitor runs a pass on the first available revision, and a second tick on the same revision saves nothing. */
  method RepeatedCommitSavesOnce(commit: string, urls: seq<string>, loaded: Config) returns (first: Option<Config>, second: Option<Config>)
    requires commit != ""
    ensures first.Some? <==> loaded != map[]
    ensures first.Some? ==> first.value == WithOutbounds(loaded, urls)
    ensures second == None
  {
    var monitor := new VlessMonitor();
    first := monitor.CheckAndUpdate(Some(commit), urls, loaded);
    second := monitor.CheckAndUpdate(Some(commit), urls, loaded);
  }
}
