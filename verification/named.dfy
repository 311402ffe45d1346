/** Named-parameter emission in `makeRequest`: every parameter on the named
    list, in list order, contributes the entries its kind calls for. */
module Named {
  import opened Wrappers
  import opened ForestTypes

  /** The filter chain applied to a value, first filter first. */
  function DoFilter(env: Env, filters: seq<string>, v: Value): Value
  {
    if |filters| == 0 then v else DoFilter(env, filters[1..], env.applyFilter(filters[0], v))
  }

  /** Filters collected from several annotations act as one chain after the other. */
  lemma {:induction false} DoFilterAppend(env: Env, first: seq<string>, second: seq<string>, v: Value)
    ensures DoFilter(env, first + second, v) == DoFilter(env, second, DoFilter(env, first, v))
  {
    if |first| > 0 {
      assert (first + second)[1..] == first[1..] + second;
      DoFilterAppend(env, first[1..], second, env.applyFilter(first[0], v));
    } else {
      assert first + second == second;
    }
  }

  /** `getNameValueListFromObject`: one entry per readable property, in
      order, skipping properties whose value is null. */
  function ObjectEntries(props: seq<Property>): (r: seq<NameValue>)
    ensures |r| <= |props|
    ensures forall k :: 0 <= k < |r| ==> r[k].name.Some? && r[k].value != Null && !r[k].isQuery
  {
    if |props| == 0 then []
    else
      (if props[0].value.Null? then [] else [NameValue(Some(props[0].name), props[0].value, false)])
      + ObjectEntries(props[1..])
  }

  /** Properties are read in getter order: the entries of two runs of
      properties are the entries of the first run followed by those of the second. */
  lemma {:induction false} ObjectEntriesAppend(a: seq<Property>, b: seq<Property>)
    ensures ObjectEntries(a + b) == ObjectEntries(a) + ObjectEntries(b)
    decreases |a|
  {
    if |a| == 0 {
      assert a + b == b;
    } else {
      assert (a + b)[0] == a[0] && (a + b)[1..] == a[1..] + b;
      ObjectEntriesAppend(a[1..], b);
      var head := if a[0].value.Null? then [] else [NameValue(Some(a[0].name), a[0].value, false)];
      assert head + (ObjectEntries(a[1..]) + ObjectEntries(b)) == (head + ObjectEntries(a[1..])) + ObjectEntries(b);
    }
  }

  /** Without null properties, each property gives its entry, in order. */
  lemma {:induction false} ObjectEntriesWithoutNulls(props: seq<Property>)
    requires forall k :: 0 <= k < |props| ==> props[k].value != Null
    ensures |ObjectEntries(props)| == |props|
    ensures forall k :: 0 <= k < |props| ==>
      ObjectEntries(props)[k] == NameValue(Some(props[k].name), props[k].value, false)
    decreases |props|
  {
    if |props| > 0 {
      ObjectEntriesWithoutNulls(props[1..]);
      var r := ObjectEntries(props);
      assert r == [NameValue(Some(props[0].name), props[0].value, false)] + ObjectEntries(props[1..]);
      forall k | 0 < k < |props|
        ensures r[k] == NameValue(Some(props[k].name), props[k].value, false)
      {
        assert props[1..][k - 1] == props[k];
      }
    }
  }

  /** An entry is emitted for a property exactly when the object has that
      property with a non-null value. */
  lemma {:induction false} ObjectEntriesMembers(props: seq<Property>, name: string, v: Value)
    ensures NameValue(Some(name), v, false) in ObjectEntries(props) <==> v != Null && Property(name, v) in props
  {
    if |props| > 0 {
      ObjectEntriesMembers(props[1..], name, v);
      assert props == [props[0]] + props[1..];
    }
  }

  /** The one way emission fails: a plain object parameter (neither JSON nor
      filtered) whose argument is null has no properties to read. */
  predicate ExpandsNull(p: Parameter, arg: Value)
  {
    p.objectProperties && !p.jsonParam && |p.filters| == 0 && arg.Null?
  }

  /** The entries one named parameter contributes: a JSON object one entry
      under its JSON name holding the converted filtered argument, or "" for
      null; a filtered object one unnamed entry holding the filtered
      argument; a plain object its non-null properties; a scalar one
      `String.valueOf` entry under its name when the argument is non-null. */
  function ParameterEntries(env: Env, p: Parameter, arg: Value): (r: Result<seq<NameValue>, Error>)
    ensures r.Failure? <==> ExpandsNull(p, arg)
    ensures r.Failure? ==> r.error == NullObject(p.index)
    ensures r.Success? ==> forall k :: 0 <= k < |r.value| ==> !r.value[k].isQuery
    ensures !p.objectProperties ==> |r.value| == (if arg.Null? then 0 else 1)
    ensures p.objectProperties && (p.jsonParam || |p.filters| > 0) ==> |r.value| == 1
    ensures p.objectProperties && !p.jsonParam && |p.filters| > 0 ==> r.value[0].name.None?
    ensures p.objectProperties && p.jsonParam ==>
      r.value[0].name == p.jsonParamName && r.value[0].value.Str? && (arg.Null? ==> r.value[0].value.s == "")
    ensures r.Success? && p.objectProperties && !p.jsonParam && |p.filters| == 0 ==> |r.value| <= |PropertiesOf(arg)|
    ensures !p.objectProperties && !arg.Null? ==> r.value == [NameValue(Some(p.name), Str(ValueOf(arg)), false)]
    ensures p.objectProperties && p.jsonParam && !arg.Null? ==>
      r.value[0].value == Str(env.toJson(DoFilter(env, p.filters, arg)))
    ensures p.objectProperties && !p.jsonParam && |p.filters| > 0 ==>
      r.value == [NameValue(None, DoFilter(env, p.filters, arg), false)]
    ensures r.Success? && p.objectProperties && !p.jsonParam && |p.filters| == 0 ==>
      r.value == ObjectEntries(PropertiesOf(arg))
  {
    if p.objectProperties then
      if p.jsonParam then
        var json := if arg.Null? then "" else env.toJson(DoFilter(env, p.filters, arg));
        Success([NameValue(p.jsonParamName, Str(json), false)])
      else if |p.filters| > 0 then
        Success([NameValue(None, DoFilter(env, p.filters, arg), false)])
      else if arg.Null? then
        Failure(NullObject(p.index))
      else
        Success(ObjectEntries(PropertiesOf(arg)))
    else if arg.Null? then Success([])
    else Success([NameValue(Some(p.name), Str(ValueOf(arg)), false)])
  }

  /** Every index on the named list, and the argument index of each such
      parameter, is in range. */
  predicate Indexable(params: seq<Parameter>, named: seq<nat>, args: seq<Value>)
  {
    forall k :: 0 <= k < |named| ==> named[k] < |params| && params[named[k]].index < |args|
  }

  /** Whether the `k`-th named parameter would fail to emit. */
  predicate FailsAt(params: seq<Parameter>, named: seq<nat>, args: seq<Value>, k: int)
    requires Indexable(params, named, args)
    requires 0 <= k < |named|
  {
    ExpandsNull(params[named[k]], args[params[named[k]].index])
  }

  /** The `k`-th named parameter is the first one that fails to emit. */
  predicate FirstFailureAt(params: seq<Parameter>, named: seq<nat>, args: seq<Value>, k: int)
    requires Indexable(params, named, args)
  {
    && 0 <= k < |named|
    && FailsAt(params, named, args, k)
    && forall j :: 0 <= j < k ==> !FailsAt(params, named, args, j)
  }

  /** The entries of the named parameters, in list order, or the failure of
      the first one that fails. */
  function NamedEntries(env: Env, params: seq<Parameter>, named: seq<nat>, args: seq<Value>): (r: Result<seq<NameValue>, Error>)
    requires Indexable(params, named, args)
    ensures r.Success? <==> forall k :: 0 <= k < |named| ==> !FailsAt(params, named, args, k)
    ensures r.Success? ==> forall k :: 0 <= k < |r.value| ==> !r.value[k].isQuery
  {
    if |named| == 0 then Success([])
    else
      var p := params[named[0]];
      var first := ParameterEntries(env, p, args[p.index]);
      if first.Failure? then
        assert FailsAt(params, named, args, 0);
        Failure(first.error)
      else
        var rest := NamedEntries(env, params, named[1..], args);
        assert forall k :: 1 <= k < |named| ==> FailsAt(params, named, args, k) == FailsAt(params, named[1..], args, k - 1);
        if rest.Failure? then
          var k :| 0 <= k < |named| - 1 && FailsAt(params, named[1..], args, k);
          assert FailsAt(params, named, args, k + 1);
          Failure(rest.error)
        else Success(first.value + rest.value)
  }

  /** A failure names the argument index of the first parameter that fails. */
  lemma {:induction false} NamedEntriesFirstFailure(env: Env, params: seq<Parameter>, named: seq<nat>, args: seq<Value>)
    requires Indexable(params, named, args)
    requires NamedEntries(env, params, named, args).Failure?
    ensures exists k :: (FirstFailureAt(params, named, args, k)
      && NamedEntries(env, params, named, args).error == NullObject(params[named[k]].index))
    decreases |named|
  {
    var p := params[named[0]];
    if ParameterEntries(env, p, args[p.index]).Failure? {
      assert FirstFailureAt(params, named, args, 0);
    } else {
      NamedEntriesFirstFailure(env, params, named[1..], args);
      var k :| FirstFailureAt(params, named[1..], args, k)
        && NamedEntries(env, params, named[1..], args).error == NullObject(params[named[1..][k]].index);
      assert forall j :: 1 <= j < |named| ==> FailsAt(params, named, args, j) == FailsAt(params, named[1..], args, j - 1);
      assert FirstFailureAt(params, named, args, k + 1);
    }
  }

  /** The entries of two emissions one after the other, or the first failure. */
  function Concat(x: Result<seq<NameValue>, Error>, y: Result<seq<NameValue>, Error>): Result<seq<NameValue>, Error>
  {
    if x.Failure? then x else if y.Failure? then y else Success(x.value + y.value)
  }

  lemma IndexableParts(params: seq<Parameter>, a: seq<nat>, b: seq<nat>, args: seq<Value>)
    requires Indexable(params, a + b, args)
    ensures Indexable(params, a, args) && Indexable(params, b, args)
  {
    assert forall k :: 0 <= k < |a| ==> a[k] == (a + b)[k];
    assert forall k :: 0 <= k < |b| ==> b[k] == (a + b)[|a| + k];
  }

  /** Concatenating emissions is associative, failures included. */
  lemma ConcatAssoc(x: Result<seq<NameValue>, Error>, y: Result<seq<NameValue>, Error>, z: Result<seq<NameValue>, Error>)
    ensures Concat(Concat(x, y), z) == Concat(x, Concat(y, z))
  {
    if x.Success? && y.Success? && z.Success? {
      assert (x.value + y.value) + z.value == x.value + (y.value + z.value);
    }
  }

  /** The first entry of the named list emits first. */
  lemma NamedEntriesCons(env: Env, params: seq<Parameter>, x: nat, rest: seq<nat>, args: seq<Value>)
    requires Indexable(params, [x] + rest, args)
    ensures x < |params| && params[x].index < |args| && Indexable(params, rest, args)
    ensures NamedEntries(env, params, [x] + rest, args) ==
      Concat(ParameterEntries(env, params[x], args[params[x].index]), NamedEntries(env, params, rest, args))
  {
    var named := [x] + rest;
    assert named[0] == x && named[1..] == rest;
    assert forall k :: 0 <= k < |rest| ==> rest[k] == named[k + 1];
  }

  /** Emission goes list entry by list entry: the entries of a split list
      are the entries of its first part followed by those of its second, and
      a failure in the first part is the one reported. */
  lemma {:induction false} NamedEntriesAppend(env: Env, params: seq<Parameter>, a: seq<nat>, b: seq<nat>, args: seq<Value>)
    requires Indexable(params, a + b, args)
    ensures Indexable(params, a, args) && Indexable(params, b, args)
    ensures NamedEntries(env, params, a + b, args) ==
      Concat(NamedEntries(env, params, a, args), NamedEntries(env, params, b, args))
    decreases |a|
  {
    IndexableParts(params, a, b, args);
    var rb := NamedEntries(env, params, b, args);
    if |a| == 0 {
      assert a + b == b;
      if rb.Success? {
        assert [] + rb.value == rb.value;
      }
    } else {
      var x, tail := a[0], a[1..];
      assert a == [x] + tail;
      assert a + b == [x] + (tail + b);
      NamedEntriesCons(env, params, x, tail + b, args);
      NamedEntriesCons(env, params, x, tail, args);
      NamedEntriesAppend(env, params, tail, b, args);
      var first := ParameterEntries(env, params[x], args[params[x].index]);
      ConcatAssoc(first, NamedEntries(env, params, tail, args), rb);
    }
  }
}
