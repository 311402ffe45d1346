/** Concrete calls: what the model gives for particular inputs. */
module Examples {
  import opened Wrappers
  import opened Strings
  import opened ForestTypes
  import opened Registration
  import opened Urls
  import opened Entries
  import opened Named

  /** `split` keeps a lone empty string, drops trailing empty pieces and
      keeps inner ones. */
  lemma SplitCases()
    ensures JavaSplit("", '=') == [""]
    ensures JavaSplit("a=", '=') == ["a"]
    ensures JavaSplit("=", '=') == []
    ensures JavaSplit("a=b=c", '=') == ["a", "b", "c"]
  {
    JavaSplitEmpty("=", '=');
    SplitTrailingCase();
    SplitInnerCase();
  }

  lemma SplitTrailingCase()
    ensures JavaSplit("a=", '=') == ["a"]
  {
    assert Split("a=", '=') == ["a", ""] by {
      IndexOfAfterPrefix("a", "", '=');
      assert "a" + ['='] + "" == "a=";
      assert "a="[..1] == "a" && "a="[2..] == "";
      assert Split("", '=') == [""];
    }
  }

  lemma SplitInnerCase()
    ensures JavaSplit("a=b=c", '=') == ["a", "b", "c"]
  {
    assert ["a", "b", "c"][1..] == ["b", "c"];
    assert "a=b=c" == Join(["a", "b", "c"], '=');
    JavaSplitJoin(["a", "b", "c"], '=');
  }

  /** Port 80 and an absent port are left out of the rebuilt URL, any other port is kept. */
  lemma PortCases()
    ensures RebuildUrl(Url("http", "x.com", 80, "/p", Some("a=1&b"))) == "http://x.com/p"
    ensures RebuildUrl(Url("http", "x.com", -1, "", None)) == "http://x.com"
    ensures RebuildUrl(Url("http", "x.com", 8, "/p", None)) == "http://x.com:8/p"
  {
    DefaultPortCases();
    OtherPortCase();
  }

  lemma DefaultPortCases()
    ensures RebuildUrl(Url("http", "x.com", 80, "/p", Some("a=1&b"))) == "http://x.com/p"
    ensures RebuildUrl(Url("http", "x.com", -1, "", None)) == "http://x.com"
  {
  }

  lemma OtherPortCase()
    ensures RebuildUrl(Url("http", "x.com", 8, "/p", None)) == "http://x.com:8/p"
  {
    assert Decimal.NatToString(8) == "8";
  }

  /** The query `a=1&b` gives the entry `a` with value `1` and the entry `b` without one. */
  lemma QueryCase()
    ensures QueryEntries(Some("a=1&b")) ==
      Success([NameValue(Some("a"), Str("1"), true), NameValue(Some("b"), Null, true)])
  {
    SplitTwo("a=1", "b", '&');
    assert "a=1&b" == "a=1" + ['&'] + "b";
    EntriesQueryCase();
  }

  lemma EntriesQueryCase()
    ensures QueryEntriesOf(["a=1", "b"]) ==
      Success([NameValue(Some("a"), Str("1"), true), NameValue(Some("b"), Null, true)])
  {
    QueryEntryCases();
    EntriesOfTwo("a=1", "b");
  }

  /** Two readable segments give their two entries. */
  lemma EntriesOfTwo(s1: string, s2: string)
    requires QueryEntry(s1).Success? && QueryEntry(s2).Success?
    ensures QueryEntriesOf([s1, s2]) == Success([QueryEntry(s1).value, QueryEntry(s2).value])
  {
    var segments := [s1, s2];
    assert segments[0] == s1 && segments[1] == s2;
    var r := QueryEntriesOf(segments);
    assert r.Success?;
    assert r.value == [QueryEntry(s1).value, QueryEntry(s2).value];
  }

  /** Two pieces around one separator, the second non-empty, split back apart. */
  lemma SplitTwo(x: string, y: string, c: char)
    requires c !in x && c !in y && y != ""
    ensures JavaSplit(x + [c] + y, c) == [x, y]
  {
    assert x + [c] + y == Join([x, y], c) by {
      assert [x, y][1..] == [y];
    }
    JavaSplitJoin([x, y], c);
  }

  lemma QueryEntryCases()
    ensures QueryEntry("a=1") == Success(NameValue(Some("a"), Str("1"), true))
    ensures QueryEntry("b") == Success(NameValue(Some("b"), Null, true))
  {
    assert "a=1" == Join(["a", "1"], '=') by {
      assert ["a", "1"][1..] == ["1"];
    }
    JavaSplitJoin(["a", "1"], '=');
    assert !OnlySeparators("b", '=') by {
      assert "b"[0] != '=';
    }
  }

  /** A query segment of '=' only cannot be read. */
  lemma QuerySegmentOfEqualsOnly()
    ensures QueryEntries(Some("a=1&=")) == Failure(QuerySegmentWithoutName("="))
  {
    SplitTwo("a=1", "=", '&');
    assert "a=1&=" == "a=1" + ['&'] + "=";
    EntriesEqualsOnlyCase();
  }

  lemma EntriesEqualsOnlyCase()
    ensures QueryEntriesOf(["a=1", "="]) == Failure(QuerySegmentWithoutName("="))
  {
    var segments := ["a=1", "="];
    assert QueryEntry(segments[0]).Success? by {
      assert !OnlySeparators("a=1", '=') by {
        assert "a=1"[0] != '=';
      }
    }
    assert QueryEntriesOf(segments[1..]) == Failure(QuerySegmentWithoutName("=")) by {
      assert segments[1..] == ["="];
      assert OnlySeparators("=", '=');
    }
  }

  /** An object with a null property contributes only its other properties. */
  lemma NullPropertySkipped()
    ensures ObjectEntries([Property("name", Str("x")), Property("age", Null)]) ==
      [NameValue(Some("name"), Str("x"), false)]
  {
    assert [Property("name", Str("x")), Property("age", Null)][1..] == [Property("age", Null)];
  }

  /** A null JSON parameter is sent as the empty string under its JSON name. */
  lemma NullJsonIsEmpty(env: Env)
    ensures ParameterEntries(env, Parameter(0, "arg0", [], true, true, Some("body")), Null) ==
      Success([NameValue(Some("body"), Str(""), false)])
  {
  }

  /** `@DataParam("a") @DataVariable` on one parameter: both map the variable
      `a`, because the variable's default name is the already renamed one,
      and the parameter is named once. */
  lemma DataVariableAfterDataParam()
    ensures var c := ProcessParameters([ParamDecl("arg0", "String", false, false, [DataParam("a", ""), DataVariable("", "")])]);
      && c.params[0].name == "a"
      && c.named == [0]
      && c.variables.Keys == {"a"}
  {
    var d := ParamDecl("arg0", "String", false, false, [DataParam("a", ""), DataVariable("", "")]);
    var anns := d.annotations;
    var b0 := Binding(InitialParameter(0, d), [], map[]);
    var b1 := ApplyAnnotation(b0, "String", anns[0]);
    var b2 := ApplyAnnotation(b1, "String", anns[1]);
    assert anns[..1] == [anns[0]] && anns[..1][..0] == [];
    assert ApplyAnnotations(b0, "String", anns) == b2;
    assert [d][..0] == [];
    assert b2.variables.Keys == {"a"};
  }

  /** Registration stops at the first class that is not an interceptor implementation. */
  lemma InterfaceRejected()
    ensures CheckInterceptors([InterceptorClass("A", true, false), InterceptorClass("B", true, true), InterceptorClass("C", false, false)])
      == Failure(NotAnInterceptor("B"))
  {
  }
}
