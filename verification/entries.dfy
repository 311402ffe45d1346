/** The text `makeRequest` takes apart after the URL: the rendered data
    fragments, which become the request body and data entries, and the
    rendered header lines of the interface and of the method. */
module Entries {
  import opened Wrappers
  import opened Strings
  import opened ForestTypes
  import opened Urls

  // ----- The request body -----

  /** Joining gives the empty string exactly for no fragment or one empty fragment. */
  lemma JoinEmpty(fragments: seq<string>, c: char)
    ensures Join(fragments, c) == "" <==> |fragments| == 0 || fragments == [""]
  {
    if |fragments| > 1 {
      assert |Join(fragments, c)| >= 1;
    }
  }

  /** The `StringBuilder` loop: each fragment appended, with '&' after every
      fragment but the last. */
  method BuildBody(fragments: seq<string>) returns (body: string)
    ensures body == Join(fragments, '&')
  {
    body := "";
    var i := 0;
    while i < |fragments|
      invariant 0 <= i <= |fragments|
      invariant body == Join(fragments[..i], '&') + (if 0 < i < |fragments| then "&" else "")
    {
      var before := body;
      body := body + fragments[i];
      if i < |fragments| - 1 {
        body := body + "&";
      }
      if i == 0 {
        assert fragments[..1] == [fragments[0]];
      } else {
        assert fragments[..i + 1] == fragments[..i] + [fragments[i]];
        JoinSnoc(fragments[..i], fragments[i], '&');
      }
      i := i + 1;
    }
    assert fragments[..i] == fragments;
  }

  /** The request body: the joined fragments, set only when non-empty. */
  function BodyOf(fragments: seq<string>): (r: Option<string>)
    ensures r.None? <==> |fragments| == 0 || fragments == [""]
    ensures r.Some? ==> r.value == Join(fragments, '&')
  {
    JoinEmpty(fragments, '&');
    var joined := Join(fragments, '&');
    if |joined| > 0 then Some(joined) else None
  }

  /** Exactly one '&' goes between consecutive fragments: splitting the body
      on every '&' gives the segments of each fragment, fragment by fragment. */
  lemma BodyKeepsSegments(fragments: seq<string>)
    requires |fragments| >= 1
    ensures Split(Join(fragments, '&'), '&') == SplitEach(fragments, '&')
  {
    SplitJoinEach(fragments, '&');
  }

  // ----- Line by line -----

  /** What `f` makes of each text that gives something, in text order: the
      shape of the loops over data segments and over header lines. */
  function Collect(f: string -> Option<NameValue>, texts: seq<string>): (r: seq<NameValue>)
    ensures |r| <= |texts|
  {
    if |texts| == 0 then []
    else (if f(texts[0]).Some? then [f(texts[0]).value] else []) + Collect(f, texts[1..])
  }

  /** Whatever `f` promises of the values it gives holds of everything collected. */
  lemma {:induction false} CollectKeeps(f: string -> Option<NameValue>, p: NameValue -> bool, texts: seq<string>)
    requires forall t :: f(t).Some? ==> p(f(t).value)
    ensures forall k :: 0 <= k < |Collect(f, texts)| ==> p(Collect(f, texts)[k])
    decreases |texts|
  {
    if |texts| > 0 {
      CollectKeeps(f, p, texts[1..]);
    }
  }

  /** Consecutive runs of texts give their values one run after the other. */
  lemma {:induction false} CollectAppend(f: string -> Option<NameValue>, a: seq<string>, b: seq<string>)
    ensures Collect(f, a + b) == Collect(f, a) + Collect(f, b)
    decreases |a|
  {
    if |a| == 0 {
      assert a + b == b;
    } else {
      var rest := a[1..];
      var head := if f(a[0]).Some? then [f(a[0]).value] else [];
      assert Collect(f, a) == head + Collect(f, rest);
      assert (a + b)[0] == a[0] && (a + b)[1..] == rest + b;
      assert Collect(f, a + b) == head + Collect(f, rest + b);
      CollectAppend(f, rest, b);
      assert head + (Collect(f, rest) + Collect(f, b)) == (head + Collect(f, rest)) + Collect(f, b);
    }
  }

  /** Texts that all give a value give one each, in order. */
  lemma {:induction false} CollectAll(f: string -> Option<NameValue>, texts: seq<string>)
    requires forall k :: 0 <= k < |texts| ==> f(texts[k]).Some?
    ensures |Collect(f, texts)| == |texts|
    ensures forall k :: 0 <= k < |texts| ==> Collect(f, texts)[k] == f(texts[k]).value
    decreases |texts|
  {
    if |texts| > 0 {
      CollectAll(f, texts[1..]);
      var all := Collect(f, texts);
      assert all == [f(texts[0]).value] + Collect(f, texts[1..]);
      forall k | 0 <= k < |texts|
        ensures all[k] == f(texts[k]).value
      {
        if k > 0 {
          assert texts[1..][k - 1] == texts[k];
        }
      }
    }
  }

  // ----- Data entries -----

  /** One '&'-segment of a data fragment: the trimmed first '='-piece is the
      name; the trimmed second piece is the value only when there are exactly
      two pieces. A segment of '=' only gives no entry. */
  function DataEntry(segment: string): (r: Option<NameValue>)
    ensures r.None? <==> OnlySeparators(segment, '=')
    ensures r.Some? ==> r.value.name.Some? && HasSolidEnds(r.value.name.value) && !r.value.isQuery
    ensures r.Some? && r.value.value != Null ==> r.value.value.Str? && HasSolidEnds(r.value.value.s)
    ensures r.Some? ==> r.value.name == Some(Trim(Before(segment, '=')))
    ensures r.Some? && r.value.value != Null ==>
      SeparatorThenText(segment, '=') && r.value.value == Str(Trim(Before(After(segment, '='), '=')))
    ensures r.Some? && '=' !in segment ==> r.value == NameValue(Some(Trim(segment)), Null, false)
    ensures r.Some? ==> (r.value.value != Null <==> SplitsInTwo(segment, '='))
  {
    JavaSplitEmpty(segment, '=');
    JavaSplitSeveral(segment, '=');
    JavaSplitFirstPieces(segment, '=');
    JavaSplitTwo(segment, '=');
    var pieces := JavaSplit(segment, '=');
    if |pieces| == 0 then None
    else Some(NameValue(Some(Trim(pieces[0])), if |pieces| == 2 then Str(Trim(pieces[1])) else Null, false))
  }

  /** A data entry: named by a trimmed name, and not a query entry. */
  predicate IsDataEntry(e: NameValue)
  {
    e.name.Some? && HasSolidEnds(e.name.value) && !e.isQuery
  }

  /** The entries of the segments, in order, skipping those that give none. */
  function SegmentEntries(segments: seq<string>): (r: seq<NameValue>)
    ensures |r| <= |segments|
    ensures forall k :: 0 <= k < |r| ==> IsDataEntry(r[k])
  {
    CollectKeeps(DataEntry, IsDataEntry, segments);
    Collect(DataEntry, segments)
  }

  /** The entries of one rendered data fragment. */
  function FragmentEntries(fragment: string): seq<NameValue>
  {
    SegmentEntries(JavaSplit(fragment, '&'))
  }

  /** The entries of all fragments, fragment by fragment. */
  function DataEntries(fragments: seq<string>): (r: seq<NameValue>)
    ensures forall k :: 0 <= k < |r| ==> IsDataEntry(r[k])
  {
    if |fragments| == 0 then [] else FragmentEntries(fragments[0]) + DataEntries(fragments[1..])
  }

  /** The segments of consecutive runs give their entries one run after the other. */
  lemma SegmentEntriesAppend(a: seq<string>, b: seq<string>)
    ensures SegmentEntries(a + b) == SegmentEntries(a) + SegmentEntries(b)
  {
    CollectAppend(DataEntry, a, b);
  }

  /** The fragments of consecutive templates give their entries one template after the other. */
  lemma {:induction false} DataEntriesAppend(a: seq<string>, b: seq<string>)
    ensures DataEntries(a + b) == DataEntries(a) + DataEntries(b)
    decreases |a|
  {
    if |a| == 0 {
      assert a + b == b;
    } else {
      assert (a + b)[0] == a[0];
      assert (a + b)[1..] == a[1..] + b;
      DataEntriesAppend(a[1..], b);
    }
  }

  /** One fragment gives the entries of its '&'-segments; with
      `DataEntriesAppend` this fixes the entries of any list of fragments. */
  lemma DataEntriesOne(fragment: string)
    ensures DataEntries([fragment]) == SegmentEntries(JavaSplit(fragment, '&'))
  {
    assert [fragment][1..] == [];
  }

  /** A segment `name=value` or a bare `name`, padded anywhere around name
      and value, reads back as that name and value. */
  lemma DataEntryPadded(p1: string, name: string, q1: string, p2: string, value: string, q2: string)
    requires AllTrimmed(p1) && AllTrimmed(q1) && AllTrimmed(p2) && AllTrimmed(q2)
    requires HasSolidEnds(name) && HasSolidEnds(value) && value != ""
    requires '=' !in name && '=' !in value
    ensures DataEntry(p1 + name + q1 + "=" + p2 + value + q2) == Some(NameValue(Some(name), Str(value), false))
    ensures DataEntry(p1 + name + q1) == Some(NameValue(Some(name), Null, false))
  {
    var left := p1 + name + q1;
    var right := p2 + value + q2;
    assert '=' !in p1 && '=' !in q1 && '=' !in p2 && '=' !in q2 by {
      assert !IsTrimmed('=');
    }
    assert '=' !in left && '=' !in right;
    assert right != "";
    assert Join([left, right], '=') == p1 + name + q1 + "=" + p2 + value + q2;
    JavaSplitJoin([left, right], '=');
    TrimPadded(p1, name, q1);
    TrimPadded(p2, value, q2);
    assert !OnlySeparators(left, '=') by {
      if |left| > 0 {
        assert left[0] != '=';
      }
    }
  }

  /** Segments that all give an entry give exactly one each, in order. */
  lemma SegmentEntriesAll(segments: seq<string>)
    requires forall k :: 0 <= k < |segments| ==> !OnlySeparators(segments[k], '=')
    ensures |SegmentEntries(segments)| == |segments|
    ensures forall k :: 0 <= k < |segments| ==> SegmentEntries(segments)[k] == DataEntry(segments[k]).value
  {
    CollectAll(DataEntry, segments);
  }

  /** The data entry a pair stands for. */
  function DataEntryOf(p: Pair): NameValue
  {
    NameValue(Some(p.name), if p.value.Some? then Str(p.value.value) else Null, false)
  }

  /** A pair whose name and value have no trimmable character at either end. */
  predicate IsSolidPair(p: Pair)
  {
    IsTokenPair(p) && HasSolidEnds(p.name) && (p.value.Some? ==> HasSolidEnds(p.value.value))
  }

  lemma DataEntryOfSegment(p: Pair)
    requires IsSolidPair(p)
    ensures DataEntry(EncodeSegment(p)) == Some(DataEntryOf(p))
  {
    var segment := EncodeSegment(p);
    var pieces := JavaSplit(segment, '=');
    assert pieces == if p.value.Some? then [p.name, p.value.value] else [p.name] by {
      SplitEncodedSegment(p);
    }
    assert Trim(p.name) == p.name by {
      TrimSolid(p.name);
    }
    if p.value.Some? {
      assert Trim(p.value.value) == p.value.value by {
        TrimSolid(p.value.value);
      }
    }
  }

  /** A fragment written as `n1=v1&n2&...` reads back as exactly those pairs,
      in order, with a value just where the pair had one. */
  lemma DataRoundTrip(pairs: seq<Pair>)
    requires |pairs| >= 1
    requires forall k :: 0 <= k < |pairs| ==> IsSolidPair(pairs[k])
    ensures |FragmentEntries(EncodePairs(pairs))| == |pairs|
    ensures forall k :: 0 <= k < |pairs| ==> FragmentEntries(EncodePairs(pairs))[k] == DataEntryOf(pairs[k])
  {
    SplitEncodedPairs(pairs);
    var segments := EncodeSegments(pairs);
    forall k | 0 <= k < |pairs|
      ensures DataEntry(segments[k]) == Some(DataEntryOf(pairs[k]))
    {
      DataEntryOfSegment(pairs[k]);
    }
    SegmentEntriesAll(segments);
  }

  /** A single fragment written from solid pairs gives the data entries of those pairs. */
  lemma DataOfOneFragment(fragments: seq<string>, pairs: seq<Pair>)
    requires fragments == [EncodePairs(pairs)]
    requires |pairs| >= 1 && forall k :: 0 <= k < |pairs| ==> IsSolidPair(pairs[k])
    ensures |DataEntries(fragments)| == |pairs|
    ensures forall k :: 0 <= k < |pairs| ==> DataEntries(fragments)[k] == DataEntryOf(pairs[k])
  {
    DataEntriesOne(EncodePairs(pairs));
    DataRoundTrip(pairs);
  }

  /** Unlike a query segment, a data segment with a second '=' keeps no value. */
  lemma DataSegmentWithTwoEquals(name: string, v1: string, v2: string)
    requires '=' !in name && '=' !in v1 && '=' !in v2 && v2 != ""
    ensures DataEntry(name + "=" + v1 + "=" + v2) == Some(NameValue(Some(Trim(name)), Null, false))
    ensures QueryEntry(name + "=" + v1 + "=" + v2) == Success(NameValue(Some(name), Str(v1), true))
  {
    assert [name, v1, v2][1..] == [v1, v2];
    assert Join([v1, v2], '=') == v1 + "=" + v2;
    assert Join([name, v1, v2], '=') == name + "=" + v1 + "=" + v2;
    JavaSplitJoin([name, v1, v2], '=');
  }

  // ----- Headers -----

  /** A rendered base header: added only when it splits into more than one
      ':'-piece, with the trimmed first two pieces as name and value. */
  function BaseHeader(text: string): (r: Option<NameValue>)
    ensures r.Some? <==> SeparatorThenText(text, ':')
    ensures r.Some? ==> r.value.name.Some? && r.value.value.Str? && !r.value.isQuery
    ensures r.Some? ==>
      && ':' in text
      && r.value == NameValue(Some(Trim(Before(text, ':'))), Str(Trim(Before(After(text, ':'), ':'))), false)
  {
    JavaSplitSeveral(text, ':');
    JavaSplitFirstPieces(text, ':');
    var pieces := JavaSplit(text, ':');
    if |pieces| > 1 then Some(NameValue(Some(Trim(pieces[0])), Str(Trim(pieces[1])), false))
    else None
  }

  /** A rendered method header: added whenever it splits into at least one
      ':'-piece, with the trimmed name; the trimmed value only when there are
      exactly two pieces. */
  function MethodHeader(text: string): (r: Option<NameValue>)
    ensures r.None? <==> OnlySeparators(text, ':')
    ensures r.Some? ==> r.value.name.Some? && !r.value.isQuery
    ensures r.Some? && r.value.value != Null ==> SeparatorThenText(text, ':')
    ensures r.Some? ==> r.value.name == Some(Trim(Before(text, ':')))
    ensures r.Some? ==> (r.value.value != Null <==> SplitsInTwo(text, ':'))
    ensures r.Some? && r.value.value != Null ==> ':' in text && r.value.value == Str(Trim(Before(After(text, ':'), ':')))
  {
    JavaSplitEmpty(text, ':');
    JavaSplitSeveral(text, ':');
    JavaSplitFirstPieces(text, ':');
    JavaSplitTwo(text, ':');
    var pieces := JavaSplit(text, ':');
    if |pieces| == 0 then None
    else Some(NameValue(Some(Trim(pieces[0])), if |pieces| == 2 then Str(Trim(pieces[1])) else Null, false))
  }

  /** A header entry: named, and not a query entry. */
  predicate IsHeaderEntry(e: NameValue)
  {
    e.name.Some? && !e.isQuery
  }

  /** A base header entry: a header entry that always carries a value. */
  predicate IsBaseHeaderEntry(e: NameValue)
  {
    IsHeaderEntry(e) && e.value.Str?
  }

  /** The interface's headers, line by line, skipping lines that give none. */
  function BaseHeaders(texts: seq<string>): (r: seq<NameValue>)
    ensures |r| <= |texts|
    ensures forall k :: 0 <= k < |r| ==> IsBaseHeaderEntry(r[k])
  {
    CollectKeeps(BaseHeader, IsBaseHeaderEntry, texts);
    Collect(BaseHeader, texts)
  }

  /** The method's headers, line by line, skipping lines that give none. */
  function MethodHeaders(texts: seq<string>): (r: seq<NameValue>)
    ensures |r| <= |texts|
    ensures forall k :: 0 <= k < |r| ==> IsHeaderEntry(r[k])
  {
    CollectKeeps(MethodHeader, IsHeaderEntry, texts);
    Collect(MethodHeader, texts)
  }

  /** Consecutive runs of base header lines give their headers one run after the other. */
  lemma BaseHeadersAppend(a: seq<string>, b: seq<string>)
    ensures BaseHeaders(a + b) == BaseHeaders(a) + BaseHeaders(b)
  {
    CollectAppend(BaseHeader, a, b);
  }

  /** Consecutive runs of method header lines give their headers one run after the other. */
  lemma MethodHeadersAppend(a: seq<string>, b: seq<string>)
    ensures MethodHeaders(a + b) == MethodHeaders(a) + MethodHeaders(b)
  {
    CollectAppend(MethodHeader, a, b);
  }

  /** Base header lines that each have a ':' followed by text give one
      header each, in line order. */
  lemma BaseHeadersAll(texts: seq<string>)
    requires forall k :: 0 <= k < |texts| ==> SeparatorThenText(texts[k], ':')
    ensures |BaseHeaders(texts)| == |texts|
    ensures forall k :: 0 <= k < |texts| ==> BaseHeaders(texts)[k] == BaseHeader(texts[k]).value
  {
    CollectAll(BaseHeader, texts);
  }

  /** Method header lines that are not ':' only give one header each, in line order. */
  lemma MethodHeadersAll(texts: seq<string>)
    requires forall k :: 0 <= k < |texts| ==> !OnlySeparators(texts[k], ':')
    ensures |MethodHeaders(texts)| == |texts|
    ensures forall k :: 0 <= k < |texts| ==> MethodHeaders(texts)[k] == MethodHeader(texts[k]).value
  {
    CollectAll(MethodHeader, texts);
  }

  /** A header line `name: value`, padded anywhere around name and value,
      reads back as that name and value under both rules. */
  lemma HeaderRoundTrip(p1: string, name: string, q1: string, p2: string, value: string, q2: string)
    requires AllTrimmed(p1) && AllTrimmed(q1) && AllTrimmed(p2) && AllTrimmed(q2)
    requires HasSolidEnds(name) && HasSolidEnds(value) && value != ""
    requires ':' !in name && ':' !in value
    ensures BaseHeader(p1 + name + q1 + ":" + p2 + value + q2) == Some(NameValue(Some(name), Str(value), false))
    ensures MethodHeader(p1 + name + q1 + ":" + p2 + value + q2) == Some(NameValue(Some(name), Str(value), false))
  {
    var left := p1 + name + q1;
    var right := p2 + value + q2;
    assert ':' !in p1 && ':' !in q1 && ':' !in p2 && ':' !in q2 by {
      assert !IsTrimmed(':');
    }
    assert ':' !in left && ':' !in right;
    assert right != "";
    assert Join([left, right], ':') == p1 + name + q1 + ":" + p2 + value + q2;
    JavaSplitJoin([left, right], ':');
    TrimPadded(p1, name, q1);
    TrimPadded(p2, value, q2);
  }

  /** A header whose value holds a ':' (a URL, say) loses its value as a
      method header, and keeps only the part before that ':' as a base header. */
  lemma HeaderWithColonInValue(name: string, v1: string, v2: string)
    requires ':' !in name && ':' !in v1 && ':' !in v2 && v2 != ""
    ensures MethodHeader(name + ":" + v1 + ":" + v2) == Some(NameValue(Some(Trim(name)), Null, false))
    ensures BaseHeader(name + ":" + v1 + ":" + v2) == Some(NameValue(Some(Trim(name)), Str(Trim(v1)), false))
  {
    assert [name, v1, v2][1..] == [v1, v2];
    assert Join([v1, v2], ':') == v1 + ":" + v2;
    assert Join([name, v1, v2], ':') == name + ":" + v1 + ":" + v2;
    JavaSplitJoin([name, v1, v2], ':');
  }
}
