/** The URL part of `makeRequest`: the query string decomposed into name/value
    entries, and the URL rebuilt from its parsed parts without the query. */
module Urls {
  import opened Wrappers
  import opened Strings
  import opened Decimal
  import opened ForestTypes

  /** One '&'-segment of the query: the name is the text before the first
      '=' and the value, untrimmed, the text between the first and the second
      '=', present only when some '=' is followed later by another character.
      A segment of '=' only has no first piece, and reading it fails. */
  function QueryEntry(segment: string): (r: Result<NameValue, Error>)
    ensures r.Failure? <==> OnlySeparators(segment, '=')
    ensures r.Failure? ==> r.error == QuerySegmentWithoutName(segment)
    ensures r.Success? ==> r.value.isQuery && r.value.name == Some(Before(segment, '='))
    ensures r.Success? ==> (r.value.value != Null <==> SeparatorThenText(segment, '='))
    ensures r.Success? && r.value.value != Null ==>
      '=' in segment && r.value.value == Str(Before(After(segment, '='), '='))
    ensures r.Success? && '=' !in segment ==> r.value == NameValue(Some(segment), Null, true)
  {
    JavaSplitEmpty(segment, '=');
    JavaSplitSeveral(segment, '=');
    JavaSplitFirstPieces(segment, '=');
    var pieces := JavaSplit(segment, '=');
    if |pieces| == 0 then Failure(QuerySegmentWithoutName(segment))
    else Success(NameValue(Some(pieces[0]), if |pieces| > 1 then Str(pieces[1]) else Null, true))
  }

  /** The entries of the segments, in order, or the first failure. */
  function QueryEntriesOf(segments: seq<string>): (r: Result<seq<NameValue>, Error>)
    ensures r.Success? <==> forall k :: 0 <= k < |segments| ==> !OnlySeparators(segments[k], '=')
    ensures r.Success? ==> |r.value| == |segments|
    ensures r.Success? ==> forall k :: 0 <= k < |segments| ==> r.value[k] == QueryEntry(segments[k]).value
    ensures r.Failure? ==> exists k :: (0 <= k < |segments| && OnlySeparators(segments[k], '=')
      && r.error == QuerySegmentWithoutName(segments[k]) && forall j :: 0 <= j < k ==> !OnlySeparators(segments[j], '='))
  {
    if |segments| == 0 then Success([])
    else
      var first := QueryEntry(segments[0]);
      if first.Failure? then Failure(first.error)
      else
        var rest := QueryEntriesOf(segments[1..]);
        if rest.Failure? then
          assert forall k :: 0 <= k < |segments| - 1 ==> segments[1..][k] == segments[k + 1];
          Failure(rest.error)
        else Success([first.value] + rest.value)
  }

  /** The query entries `makeRequest` records: none for an absent or empty
      query, otherwise one per '&'-segment, in order. */
  function QueryEntries(query: Option<string>): (r: Result<seq<NameValue>, Error>)
    ensures query.None? || query == Some("") ==> r == Success([])
    ensures query.Some? && query.value != "" ==>
      var segments := JavaSplit(query.value, '&');
      && (r.Success? <==> forall k :: 0 <= k < |segments| ==> !OnlySeparators(segments[k], '='))
      && (r.Success? ==> |r.value| == |segments|)
      && (r.Success? ==> forall k :: 0 <= k < |segments| ==> r.value[k] == QueryEntry(segments[k]).value)
      && (r.Failure? ==> exists k :: (0 <= k < |segments| && OnlySeparators(segments[k], '=')
            && r.error == QuerySegmentWithoutName(segments[k])
            && forall j :: 0 <= j < k ==> !OnlySeparators(segments[j], '=')))
    ensures r.Success? ==> forall k :: 0 <= k < |r.value| ==> r.value[k].isQuery
  {
    if query.None? || query.value == "" then Success([])
    else QueryEntriesOf(JavaSplit(query.value, '&'))
  }

  /** A name with an optional value, as written in a query or a form body. */
  datatype Pair = Pair(name: string, value: Option<string>)

  /** Text that survives both splits unchanged: non-empty, no '&', no '='. */
  predicate IsToken(t: string)
  {
    t != "" && '&' !in t && '=' !in t
  }

  predicate IsTokenPair(p: Pair)
  {
    IsToken(p.name) && (p.value.Some? ==> IsToken(p.value.value))
  }

  /** `name=value`, or the bare name. */
  function EncodeSegment(p: Pair): string
  {
    if p.value.Some? then p.name + "=" + p.value.value else p.name
  }

  function EncodeSegments(pairs: seq<Pair>): (r: seq<string>)
    ensures |r| == |pairs|
    ensures forall k :: 0 <= k < |pairs| ==> r[k] == EncodeSegment(pairs[k])
  {
    if |pairs| == 0 then [] else [EncodeSegment(pairs[0])] + EncodeSegments(pairs[1..])
  }

  /** The pairs written as `n1=v1&n2&n3=v3`. */
  function EncodePairs(pairs: seq<Pair>): string
  {
    Join(EncodeSegments(pairs), '&')
  }

  /** How `split("=")` reads back an encoded pair. */
  lemma SplitEncodedSegment(p: Pair)
    requires IsTokenPair(p)
    ensures '&' !in EncodeSegment(p) && EncodeSegment(p) != ""
    ensures JavaSplit(EncodeSegment(p), '=') ==
      if p.value.Some? then [p.name, p.value.value] else [p.name]
  {
    if p.value.Some? {
      assert Join([p.name, p.value.value], '=') == EncodeSegment(p);
      JavaSplitJoin([p.name, p.value.value], '=');
    }
  }

  /** How `split("&")` reads back encoded pairs. */
  lemma SplitEncodedPairs(pairs: seq<Pair>)
    requires |pairs| >= 1
    requires forall k :: 0 <= k < |pairs| ==> IsTokenPair(pairs[k])
    ensures EncodePairs(pairs) != ""
    ensures JavaSplit(EncodePairs(pairs), '&') == EncodeSegments(pairs)
  {
    var segments := EncodeSegments(pairs);
    forall k | 0 <= k < |pairs|
      ensures '&' !in segments[k] && segments[k] != ""
    {
      SplitEncodedSegment(pairs[k]);
    }
    JavaSplitJoin(segments, '&');
  }

  /** The query entry a pair stands for. */
  function QueryEntryOf(p: Pair): NameValue
  {
    NameValue(Some(p.name), if p.value.Some? then Str(p.value.value) else Null, true)
  }

  /** One encoded pair reads back as the entry it stands for. */
  lemma QueryEntryOfSegment(p: Pair)
    requires IsTokenPair(p)
    ensures QueryEntry(EncodeSegment(p)) == Success(QueryEntryOf(p))
  {
    SplitEncodedSegment(p);
  }

  /** Writing pairs as a query and decomposing it gives back exactly those
      pairs, in order, with a value just where the pair had one. */
  lemma QueryRoundTrip(pairs: seq<Pair>)
    requires |pairs| >= 1
    requires forall k :: 0 <= k < |pairs| ==> IsTokenPair(pairs[k])
    ensures QueryEntries(Some(EncodePairs(pairs))).Success?
    ensures |QueryEntries(Some(EncodePairs(pairs))).value| == |pairs|
    ensures forall k :: 0 <= k < |pairs| ==> QueryEntries(Some(EncodePairs(pairs))).value[k] == QueryEntryOf(pairs[k])
  {
    SplitEncodedPairs(pairs);
    var segments := EncodeSegments(pairs);
    assert QueryEntries(Some(EncodePairs(pairs))) == QueryEntriesOf(segments);
    forall k | 0 <= k < |pairs|
      ensures QueryEntry(segments[k]) == Success(QueryEntryOf(pairs[k]))
    {
      QueryEntryOfSegment(pairs[k]);
    }
  }

  /** Whether the rebuilt URL carries the port: not for 80 and not when absent. */
  predicate PortShown(port: int)
  {
    port != 80 && port > -1
  }

  /** The URL `makeRequest` records: `protocol://host`, then `:port` when the
      port is shown, then the path when it is non-empty; the query is left out. */
  function RebuildUrl(u: Url): (r: string)
    ensures |r| >= |u.protocol| + 3 + |u.host| + |u.path|
    ensures r[..|u.protocol| + 3] == u.protocol + "://"
    ensures !PortShown(u.port) ==> r == u.protocol + "://" + u.host + u.path
  {
    var authority := u.protocol + "://" + u.host;
    var withPort := if PortShown(u.port) then authority + ":" + NatToString(u.port) else authority;
    if |u.path| > 0 then withPort + u.path else withPort
  }

  /** The parts of a rebuilt URL. */
  datatype Endpoint = Endpoint(protocol: string, host: string, port: Option<nat>, path: string)

  /** Index of the first character of `s` in `stops`, or `|s|`. */
  function FirstOf(s: string, stops: set<char>): (i: nat)
    ensures i <= |s|
    ensures forall k :: 0 <= k < i ==> s[k] !in stops
    ensures i < |s| ==> s[i] in stops
  {
    if |s| == 0 || s[0] in stops then 0 else 1 + FirstOf(s[1..], stops)
  }

  lemma FirstOfAfter(a: string, b: string, stops: set<char>)
    requires forall k :: 0 <= k < |a| ==> a[k] !in stops
    requires |b| == 0 || b[0] in stops
    ensures FirstOf(a + b, stops) == |a|
  {
    if |b| > 0 {
      assert (a + b)[|a|] == b[0];
    }
  }

  /** Reads `host[:port][path]`: the host runs to the first ':' or '/', a
      port is the digits after ':' up to the first '/'. */
  function ParseAuthority(protocol: string, rest: string): Option<Endpoint>
  {
    var h := FirstOf(rest, {':', '/'});
    var after := rest[h..];
    if |after| > 0 && after[0] == ':' then
      var tail := after[1..];
      var d := FirstOf(tail, {'/'});
      if AllDigits(tail[..d]) then Some(Endpoint(protocol, rest[..h], Some(ParseDecimal(tail[..d])), tail[d..]))
      else None
    else Some(Endpoint(protocol, rest[..h], None, after))
  }

  /** Reads a rebuilt URL back into its parts: the protocol runs to the first ':'. */
  function ParseRebuiltUrl(s: string): Option<Endpoint>
  {
    var i := FirstOf(s, {':'});
    if |s| < i + 3 || s[i..i + 3] != "://" then None
    else ParseAuthority(s[..i], s[i + 3..])
  }

  lemma ParseScheme(protocol: string, rest: string)
    requires ':' !in protocol
    ensures ParseRebuiltUrl(protocol + "://" + rest) == ParseAuthority(protocol, rest)
  {
    var s := protocol + "://" + rest;
    assert s == protocol + ("://" + rest);
    FirstOfAfter(protocol, "://" + rest, {':'});
    assert s[..|protocol|] == protocol;
    assert s[|protocol|..|protocol| + 3] == "://";
    assert s[|protocol| + 3..] == rest;
  }

  lemma ParseAuthorityWithoutPort(protocol: string, host: string, path: string)
    requires ':' !in host && '/' !in host
    requires path == "" || path[0] == '/'
    ensures ParseAuthority(protocol, host + path) == Some(Endpoint(protocol, host, None, path))
  {
    FirstOfAfter(host, path, {':', '/'});
    assert (host + path)[..|host|] == host;
    assert (host + path)[|host|..] == path;
  }

  /** The port digits end where the path begins. */
  lemma ParsePortDigits(digits: string, path: string)
    requires AllDigits(digits)
    requires path == "" || path[0] == '/'
    ensures FirstOf(digits + path, {'/'}) == |digits|
    ensures (digits + path)[..|digits|] == digits
    ensures (digits + path)[|digits|..] == path
  {
    FirstOfAfter(digits, path, {'/'});
  }

  /** After the host, a ':' starts the port, which runs to the first '/'. */
  lemma ParseAuthorityAtColon(protocol: string, host: string, tail: string)
    requires ':' !in host && '/' !in host
    ensures var d := FirstOf(tail, {'/'});
      ParseAuthority(protocol, host + ":" + tail) ==
        if AllDigits(tail[..d]) then Some(Endpoint(protocol, host, Some(ParseDecimal(tail[..d])), tail[d..])) else None
  {
    var rest := host + ":" + tail;
    assert rest == host + (":" + tail);
    FirstOfAfter(host, ":" + tail, {':', '/'});
    assert rest[..|host|] == host;
    assert rest[|host|..] == ":" + tail;
    assert (":" + tail)[1..] == tail;
  }

  lemma ParseAuthorityWithPort(protocol: string, host: string, port: nat, path: string)
    requires ':' !in host && '/' !in host
    requires path == "" || path[0] == '/'
    ensures ParseAuthority(protocol, host + ":" + NatToString(port) + path) == Some(Endpoint(protocol, host, Some(port), path))
  {
    var digits := NatToString(port);
    assert host + ":" + digits + path == host + ":" + (digits + path);
    ParseAuthorityAtColon(protocol, host, digits + path);
    ParsePortDigits(digits, path);
    ParseNatToString(port);
  }

  /** The rebuilt URL keeps protocol, host, port (unless 80 or absent) and
      path apart: reading it back gives exactly those parts, for any protocol
      without ':', host without ':' or '/', and path that is empty or starts with '/'. */
  lemma RebuildUrlRoundTrip(u: Url)
    requires ':' !in u.protocol
    requires ':' !in u.host && '/' !in u.host
    requires u.path == "" || u.path[0] == '/'
    ensures ParseRebuiltUrl(RebuildUrl(u)) ==
      Some(Endpoint(u.protocol, u.host, if PortShown(u.port) then Some(u.port as nat) else None, u.path))
  {
    var authority := u.protocol + "://" + u.host;
    if PortShown(u.port) {
      var digits := NatToString(u.port);
      assert RebuildUrl(u) == u.protocol + "://" + (u.host + ":" + digits + u.path);
      ParseScheme(u.protocol, u.host + ":" + digits + u.path);
      ParseAuthorityWithPort(u.protocol, u.host, u.port, u.path);
    } else {
      assert RebuildUrl(u) == u.protocol + "://" + (u.host + u.path);
      ParseScheme(u.protocol, u.host + u.path);
      ParseAuthorityWithoutPort(u.protocol, u.host, u.path);
    }
  }
}
