/** Registration of an interface method (`ForestMethod`'s constructor):
    classification of each parameter by its annotations
    (`processParameters`, `processParameterAnnotation`,
    `processParameterFilter`), validation of the interceptor classes, and the
    policy fields fixed once (`processBaseProperties`,
    `processInterfaceMethods`). */
module Registration {
  import opened Wrappers
  import opened Strings
  import opened ForestTypes

  /** `processParameterFilter`: the filter names of a `filter` attribute,
      split on ','; an empty attribute names no filter. */
  function FilterNames(filter: string): (names: seq<string>)
    ensures forall k :: 0 <= k < |names| ==> ',' !in names[k]
    ensures ',' !in filter ==> names == (if filter == "" then [] else [filter])
  {
    if filter == "" then [] else JavaSplit(filter, ',')
  }

  /** A comma-separated list of filter names is read back name by name. */
  lemma FilterNamesOfList(names: seq<string>)
    requires |names| >= 1
    requires forall k :: 0 <= k < |names| ==> ',' !in names[k]
    requires names[|names| - 1] != ""
    ensures FilterNames(Join(names, ',')) == names
  {
    JavaSplitJoin(names, ',');
  }

  /** Whether an annotation puts its parameter on the named-parameter list. */
  predicate IsNaming(a: Annotation)
  {
    a.DataParam? || a.DataObject?
  }

  /** How many naming annotations there are. */
  function NamingCount(anns: seq<Annotation>): nat
  {
    if |anns| == 0 then 0
    else NamingCount(anns[..|anns| - 1]) + (if IsNaming(anns[|anns| - 1]) then 1 else 0)
  }

  /** The filter names the naming annotations contribute to the parameter's chain, in order. */
  function CollectedFilters(anns: seq<Annotation>): seq<string>
  {
    if |anns| == 0 then []
    else
      var last := anns[|anns| - 1];
      CollectedFilters(anns[..|anns| - 1]) + (if IsNaming(last) then FilterNames(last.filter) else [])
  }

  /** `n` copies of the index `x`. */
  function Copies(x: nat, n: nat): (r: seq<nat>)
    ensures |r| == n
    ensures forall k :: 0 <= k < n ==> r[k] == x
  {
    if n == 0 then [] else Copies(x, n - 1) + [x]
  }

  /** The parameter being classified, with the registration state it updates. */
  datatype Binding = Binding(param: Parameter, named: seq<nat>, variables: map<string, Variable>)

  /** One iteration of `processParameterAnnotation`. */
  function ApplyAnnotation(b: Binding, typeName: string, ann: Annotation): Binding
  {
    var index := b.param.index;
    var filters := FilterNames(ann.filter);
    match ann
    case DataParam(name, _) =>
      Binding(
        b.param.(name := name, filters := b.param.filters + filters),
        b.named + [index],
        b.variables[name := Variable(name, typeName, index, filters)])
    case DataVariable(value, _) =>
      var name := if value == "" then b.param.name else value;
      b.(variables := b.variables[name := Variable(name, typeName, index, filters)])
    case DataObject(jsonParam, _) =>
      var isJson := jsonParam != "";
      Binding(
        b.param.(
          objectProperties := true,
          jsonParam := isJson,
          jsonParamName := if isJson then Some(jsonParam) else b.param.jsonParamName,
          filters := b.param.filters + filters),
        b.named + [index],
        b.variables)
  }

  /** A JSON parameter always knows the (non-empty) field name it is sent under. */
  predicate JsonNamed(p: Parameter)
  {
    p.jsonParam ==> p.jsonParamName.Some? && p.jsonParamName.value != ""
  }

  /** `processParameterAnnotation`: the annotations applied in declaration
      order. The parameter keeps its index. */
  function ApplyAnnotations(b: Binding, typeName: string, anns: seq<Annotation>): (r: Binding)
    ensures r.param.index == b.param.index
  {
    if |anns| == 0 then b
    else ApplyAnnotation(ApplyAnnotations(b, typeName, anns[..|anns| - 1]), typeName, anns[|anns| - 1])
  }

  /** The parameter is added to the named list once per naming annotation. */
  lemma {:induction false} AnnotationsNamed(b: Binding, typeName: string, anns: seq<Annotation>)
    ensures ApplyAnnotations(b, typeName, anns).named == b.named + Copies(b.param.index, NamingCount(anns))
    decreases |anns|
  {
    if |anns| > 0 {
      var n := |anns| - 1;
      AnnotationsNamed(b, typeName, anns[..n]);
    }
  }

  /** No annotation of the kind is present. */
  predicate NoParam(anns: seq<Annotation>)
  {
    forall k :: 0 <= k < |anns| ==> !anns[k].DataParam?
  }

  predicate NoObject(anns: seq<Annotation>)
  {
    forall k :: 0 <= k < |anns| ==> !anns[k].DataObject?
  }

  /** The annotations before the last one are applied first. */
  lemma ApplyAnnotationsLast(b: Binding, typeName: string, anns: seq<Annotation>)
    requires |anns| > 0
    ensures ApplyAnnotations(b, typeName, anns) ==
      ApplyAnnotation(ApplyAnnotations(b, typeName, anns[..|anns| - 1]), typeName, anns[|anns| - 1])
  {
  }

  /** `anns[k]` is the last annotation of its kind. */
  predicate LastParamAt(anns: seq<Annotation>, k: int)
  {
    0 <= k < |anns| && anns[k].DataParam? && forall j :: k < j < |anns| ==> !anns[j].DataParam?
  }

  predicate LastObjectAt(anns: seq<Annotation>, k: int)
  {
    0 <= k < |anns| && anns[k].DataObject? && forall j :: k < j < |anns| ==> !anns[j].DataObject?
  }

  /** Without a `@DataParam` at the end, the annotations before it hold
      every `@DataParam` and the last one. */
  lemma ParamsOfPrefix(anns: seq<Annotation>)
    requires |anns| > 0 && !anns[|anns| - 1].DataParam?
    ensures NoParam(anns) <==> NoParam(anns[..|anns| - 1])
    ensures forall k :: LastParamAt(anns, k) ==> LastParamAt(anns[..|anns| - 1], k)
  {
    var init := anns[..|anns| - 1];
    if NoParam(init) {
      forall k | 0 <= k < |anns| - 1
        ensures !anns[k].DataParam?
      {
        assert init[k] == anns[k];
      }
    }
    forall k | LastParamAt(anns, k)
      ensures LastParamAt(init, k)
    {
      forall j | k < j < |init|
        ensures !init[j].DataParam?
      {
        assert init[j] == anns[j];
      }
    }
  }

  /** Without a `@DataObject` at the end, the annotations before it hold
      every `@DataObject` and the last one. */
  lemma ObjectsOfPrefix(anns: seq<Annotation>)
    requires |anns| > 0 && !anns[|anns| - 1].DataObject?
    ensures NoObject(anns) <==> NoObject(anns[..|anns| - 1])
    ensures forall k :: LastObjectAt(anns, k) ==> LastObjectAt(anns[..|anns| - 1], k)
  {
    var init := anns[..|anns| - 1];
    if NoObject(init) {
      forall k | 0 <= k < |anns| - 1
        ensures !anns[k].DataObject?
      {
        assert init[k] == anns[k];
      }
    }
    forall k | LastObjectAt(anns, k)
      ensures LastObjectAt(init, k)
    {
      forall j | k < j < |init|
        ensures !init[j].DataObject?
      {
        assert init[j] == anns[j];
      }
    }
  }

  /** The naming annotations' filters are appended to the chain in order. */
  lemma {:induction false} AnnotationsFilters(b: Binding, typeName: string, anns: seq<Annotation>)
    ensures ApplyAnnotations(b, typeName, anns).param.filters == b.param.filters + CollectedFilters(anns)
    decreases |anns|
  {
    if |anns| > 0 {
      AnnotationsFilters(b, typeName, anns[..|anns| - 1]);
    }
  }

  /** The last `@DataParam` names the parameter; without one the name is kept. */
  lemma {:induction false} AnnotationsName(b: Binding, typeName: string, anns: seq<Annotation>)
    ensures var r := ApplyAnnotations(b, typeName, anns);
      && (NoParam(anns) ==> r.param.name == b.param.name)
      && (forall k :: LastParamAt(anns, k) ==> r.param.name == anns[k].value)
    decreases |anns|
  {
    if |anns| > 0 {
      var n := |anns| - 1;
      var init := anns[..n];
      var prev := ApplyAnnotations(b, typeName, init);
      var name := ApplyAnnotations(b, typeName, anns).param.name;
      AnnotationsName(b, typeName, init);
      assert name == if anns[n].DataParam? then anns[n].value else prev.param.name by {
        ApplyAnnotationsLast(b, typeName, anns);
      }
      if anns[n].DataParam? {
        assert forall k :: LastParamAt(anns, k) ==> k == n;
      } else {
        ParamsOfPrefix(anns);
        forall k | LastParamAt(anns, k)
          ensures name == anns[k].value
        {
          assert LastParamAt(init, k) && init[k] == anns[k];
        }
      }
    }
  }

  /** What one annotation does to the object/JSON flags. */
  lemma ApplyAnnotationObject(b: Binding, typeName: string, ann: Annotation)
    ensures var p := ApplyAnnotation(b, typeName, ann).param;
      && p.objectProperties == (b.param.objectProperties || ann.DataObject?)
      && p.jsonParam == (if ann.DataObject? then ann.jsonParam != "" else b.param.jsonParam)
      && p.jsonParamName == (if IsJsonObject(ann) then Some(ann.jsonParam) else b.param.jsonParamName)
      && (JsonNamed(b.param) ==> JsonNamed(p))
  {
  }

  /** Any `@DataObject` makes an object parameter. */
  lemma {:induction false} AnnotationsObject(b: Binding, typeName: string, anns: seq<Annotation>)
    ensures ApplyAnnotations(b, typeName, anns).param.objectProperties <==>
      b.param.objectProperties || !NoObject(anns)
    decreases |anns|
  {
    if |anns| > 0 {
      var n := |anns| - 1;
      var init := anns[..n];
      var prev := ApplyAnnotations(b, typeName, init);
      AnnotationsObject(b, typeName, init);
      assert ApplyAnnotations(b, typeName, anns).param.objectProperties ==
        (prev.param.objectProperties || anns[n].DataObject?) by {
        ApplyAnnotationsLast(b, typeName, anns);
        ApplyAnnotationObject(prev, typeName, anns[n]);
      }
      if !anns[n].DataObject? {
        ObjectsOfPrefix(anns);
      }
    }
  }

  /** The last `@DataObject` decides JSON, and a JSON parameter keeps a field name. */
  lemma {:induction false} AnnotationsJson(b: Binding, typeName: string, anns: seq<Annotation>)
    ensures var r := ApplyAnnotations(b, typeName, anns);
      && (NoObject(anns) ==> r.param.jsonParam == b.param.jsonParam)
      && (forall k :: LastObjectAt(anns, k) ==> r.param.jsonParam == (anns[k].jsonParam != ""))
      && (JsonNamed(b.param) ==> JsonNamed(r.param))
    decreases |anns|
  {
    if |anns| > 0 {
      var n := |anns| - 1;
      var init := anns[..n];
      var prev := ApplyAnnotations(b, typeName, init);
      assert ApplyAnnotations(b, typeName, anns) == ApplyAnnotation(prev, typeName, anns[n]);
      AnnotationsJson(b, typeName, init);
      ApplyAnnotationObject(prev, typeName, anns[n]);
      if anns[n].DataObject? {
        assert forall k :: LastObjectAt(anns, k) ==> k == n;
      } else {
        ObjectsOfPrefix(anns);
        forall k | LastObjectAt(anns, k)
          ensures ApplyAnnotations(b, typeName, anns).param.jsonParam == (anns[k].jsonParam != "")
        {
          assert LastObjectAt(init, k) && init[k] == anns[k];
        }
      }
    }
  }

  /** A `@DataObject` that names a JSON field. */
  predicate IsJsonObject(a: Annotation)
  {
    a.DataObject? && a.jsonParam != ""
  }

  predicate NoJsonObject(anns: seq<Annotation>)
  {
    forall k :: 0 <= k < |anns| ==> !IsJsonObject(anns[k])
  }

  predicate LastJsonObjectAt(anns: seq<Annotation>, k: int)
  {
    0 <= k < |anns| && IsJsonObject(anns[k]) && forall j :: k < j < |anns| ==> !IsJsonObject(anns[j])
  }

  /** Without a JSON `@DataObject` at the end, the annotations before it hold
      every JSON `@DataObject` and the last one. */
  lemma JsonObjectsOfPrefix(anns: seq<Annotation>)
    requires |anns| > 0 && !IsJsonObject(anns[|anns| - 1])
    ensures NoJsonObject(anns) <==> NoJsonObject(anns[..|anns| - 1])
    ensures forall k :: LastJsonObjectAt(anns, k) ==> LastJsonObjectAt(anns[..|anns| - 1], k)
  {
    var init := anns[..|anns| - 1];
    if NoJsonObject(init) {
      forall k | 0 <= k < |anns| - 1
        ensures !IsJsonObject(anns[k])
      {
        assert init[k] == anns[k];
      }
    }
    forall k | LastJsonObjectAt(anns, k)
      ensures LastJsonObjectAt(init, k)
    {
      forall j | k < j < |init|
        ensures !IsJsonObject(init[j])
      {
        assert init[j] == anns[j];
      }
    }
  }

  /** The JSON field name is the `jsonParam` of the last `@DataObject` that
      gives one; a `@DataObject` with an empty `jsonParam` leaves it alone. */
  lemma {:induction false} AnnotationsJsonName(b: Binding, typeName: string, anns: seq<Annotation>)
    ensures var r := ApplyAnnotations(b, typeName, anns);
      && (NoJsonObject(anns) ==> r.param.jsonParamName == b.param.jsonParamName)
      && (forall k :: LastJsonObjectAt(anns, k) ==> r.param.jsonParamName == Some(anns[k].jsonParam))
    decreases |anns|
  {
    if |anns| > 0 {
      var n := |anns| - 1;
      var init := anns[..n];
      var prev := ApplyAnnotations(b, typeName, init);
      assert ApplyAnnotations(b, typeName, anns) == ApplyAnnotation(prev, typeName, anns[n]);
      var jsonName := ApplyAnnotations(b, typeName, anns).param.jsonParamName;
      AnnotationsJsonName(b, typeName, init);
      ApplyAnnotationObject(prev, typeName, anns[n]);
      if IsJsonObject(anns[n]) {
        assert forall k :: LastJsonObjectAt(anns, k) ==> k == n;
      } else {
        JsonObjectsOfPrefix(anns);
        forall k | LastJsonObjectAt(anns, k)
          ensures jsonName == Some(anns[k].jsonParam)
        {
          assert LastJsonObjectAt(init, k) && init[k] == anns[k];
        }
      }
    }
  }

  /** The name a parameter carries after some annotations: the value of the
      last `@DataParam`, else `initial`. */
  function NameAfter(initial: string, anns: seq<Annotation>): string
  {
    if |anns| == 0 then initial
    else if anns[|anns| - 1].DataParam? then anns[|anns| - 1].value
    else NameAfter(initial, anns[..|anns| - 1])
  }

  lemma {:induction false} AnnotationsNameAfter(b: Binding, typeName: string, anns: seq<Annotation>)
    ensures ApplyAnnotations(b, typeName, anns).param.name == NameAfter(b.param.name, anns)
    decreases |anns|
  {
    if |anns| > 0 {
      AnnotationsNameAfter(b, typeName, anns[..|anns| - 1]);
    }
  }

  /** Whether an annotation registers a template variable. */
  predicate IsVariableAnnotation(a: Annotation)
  {
    a.DataParam? || a.DataVariable?
  }

  /** The key under which `anns[k]` registers its variable: its value, or for
      a `@DataVariable` without one, the parameter's name at that point. */
  function VariableKey(initial: string, anns: seq<Annotation>, k: int): string
    requires 0 <= k < |anns| && IsVariableAnnotation(anns[k])
  {
    if anns[k].DataVariable? && anns[k].value == "" then NameAfter(initial, anns[..k]) else anns[k].value
  }

  /** The key a variable annotation writes when the parameter is called `name`. */
  function KeyOf(name: string, ann: Annotation): string
    requires IsVariableAnnotation(ann)
  {
    if ann.DataVariable? && ann.value == "" then name else ann.value
  }

  /** One annotation writes its own key and leaves every other key alone. */
  lemma ApplyAnnotationKey(b: Binding, typeName: string, ann: Annotation, key: string)
    ensures var r := ApplyAnnotation(b, typeName, ann);
      && (IsVariableAnnotation(ann) && key == KeyOf(b.param.name, ann) ==>
            key in r.variables && r.variables[key] == Variable(key, typeName, b.param.index, FilterNames(ann.filter)))
      && ((!IsVariableAnnotation(ann) || key != KeyOf(b.param.name, ann)) && key in b.variables ==>
            key in r.variables && r.variables[key] == b.variables[key])
  {
  }

  /** The last annotation writes the key it computes from the name the
      earlier annotations left, and leaves every other key as they left it. */
  lemma AnnotationsKeyStep(b: Binding, typeName: string, anns: seq<Annotation>, key: string)
    requires |anns| > 0
    ensures var n := |anns| - 1;
      var prev := ApplyAnnotations(b, typeName, anns[..n]);
      var r := ApplyAnnotations(b, typeName, anns);
      && (IsVariableAnnotation(anns[n]) && key == VariableKey(b.param.name, anns, n) ==>
            key in r.variables && r.variables[key] == Variable(key, typeName, b.param.index, FilterNames(anns[n].filter)))
      && ((!IsVariableAnnotation(anns[n]) || key != VariableKey(b.param.name, anns, n)) && key in prev.variables ==>
            key in r.variables && r.variables[key] == prev.variables[key])
  {
    var n := |anns| - 1;
    var init := anns[..n];
    var prev := ApplyAnnotations(b, typeName, init);
    ApplyAnnotationsLast(b, typeName, anns);
    AnnotationsNameAfter(b, typeName, init);
    if IsVariableAnnotation(anns[n]) {
      assert VariableKey(b.param.name, anns, n) == KeyOf(prev.param.name, anns[n]) by {
        assert anns[..n] == init;
      }
    }
    ApplyAnnotationKey(prev, typeName, anns[n], key);
  }

  /** The key of an annotation depends only on the annotations up to it. */
  lemma VariableKeyOfPrefix(initial: string, anns: seq<Annotation>, m: int, j: int)
    requires 0 <= j < m <= |anns| && IsVariableAnnotation(anns[j])
    ensures VariableKey(initial, anns[..m], j) == VariableKey(initial, anns, j)
  {
    assert anns[..m][..j] == anns[..j];
  }

  /** A `@DataParam` or `@DataVariable` leaves a variable under its key, bound
      to this parameter, with the type and the filters of its own `filter`
      attribute, unless a later annotation registers the same key. */
  lemma {:induction false} AnnotationsVariableWritten(b: Binding, typeName: string, anns: seq<Annotation>, k: int)
    requires 0 <= k < |anns| && IsVariableAnnotation(anns[k])
    requires forall j :: k < j < |anns| && IsVariableAnnotation(anns[j]) ==>
      VariableKey(b.param.name, anns, j) != VariableKey(b.param.name, anns, k)
    ensures var key := VariableKey(b.param.name, anns, k);
      var r := ApplyAnnotations(b, typeName, anns);
      key in r.variables && r.variables[key] == Variable(key, typeName, b.param.index, FilterNames(anns[k].filter))
    decreases |anns|
  {
    var n := |anns| - 1;
    var key := VariableKey(b.param.name, anns, k);
    AnnotationsKeyStep(b, typeName, anns, key);
    if k < n {
      UnwrittenInPrefix(b.param.name, anns, k);
      AnnotationsVariableWritten(b, typeName, anns[..n], k);
    }
  }

  /** An annotation whose key no later annotation reuses keeps that property,
      and its key, among the annotations before the last one. */
  lemma UnwrittenInPrefix(initial: string, anns: seq<Annotation>, k: int)
    requires 0 <= k < |anns| - 1 && IsVariableAnnotation(anns[k])
    requires forall j :: k < j < |anns| && IsVariableAnnotation(anns[j]) ==>
      VariableKey(initial, anns, j) != VariableKey(initial, anns, k)
    ensures var init := anns[..|anns| - 1];
      && IsVariableAnnotation(init[k])
      && VariableKey(initial, init, k) == VariableKey(initial, anns, k)
      && (forall j :: k < j < |init| && IsVariableAnnotation(init[j]) ==>
            VariableKey(initial, init, j) != VariableKey(initial, init, k))
  {
    var n := |anns| - 1;
    var init := anns[..n];
    VariableKeyOfPrefix(initial, anns, n, k);
    forall j | k < j < n && IsVariableAnnotation(init[j])
      ensures VariableKey(initial, init, j) != VariableKey(initial, init, k)
    {
      VariableKeyOfPrefix(initial, anns, n, j);
    }
  }

  /** The keys that the variable annotations among `anns` write. */
  function VariableKeys(initial: string, anns: seq<Annotation>): set<string>
  {
    if |anns| == 0 then {}
    else
      var n := |anns| - 1;
      VariableKeys(initial, anns[..n]) + (if IsVariableAnnotation(anns[n]) then {VariableKey(initial, anns, n)} else {})
  }

  /** A key is written exactly when some `@DataParam` or `@DataVariable` computes it. */
  lemma {:induction false} VariableKeysMembers(initial: string, anns: seq<Annotation>)
    ensures forall key :: key in VariableKeys(initial, anns) <==>
      exists k :: 0 <= k < |anns| && IsVariableAnnotation(anns[k]) && VariableKey(initial, anns, k) == key
    decreases |anns|
  {
    if |anns| > 0 {
      var n := |anns| - 1;
      var init := anns[..n];
      VariableKeysMembers(initial, init);
      forall key
        ensures key in VariableKeys(initial, anns) <==>
          exists k :: 0 <= k < |anns| && IsVariableAnnotation(anns[k]) && VariableKey(initial, anns, k) == key
      {
        if key in VariableKeys(initial, init) {
          var k :| 0 <= k < n && IsVariableAnnotation(init[k]) && VariableKey(initial, init, k) == key;
          VariableKeyOfPrefix(initial, anns, n, k);
        }
        if exists k :: 0 <= k < |anns| && IsVariableAnnotation(anns[k]) && VariableKey(initial, anns, k) == key {
          var k :| 0 <= k < |anns| && IsVariableAnnotation(anns[k]) && VariableKey(initial, anns, k) == key;
          if k < n {
            VariableKeyOfPrefix(initial, anns, n, k);
            assert init[k] == anns[k];
          }
        }
      }
    }
  }

  /** One annotation adds its own key to the variables, if it is a variable annotation, and no other. */
  lemma ApplyAnnotationKeys(b: Binding, typeName: string, ann: Annotation)
    ensures ApplyAnnotation(b, typeName, ann).variables.Keys ==
      b.variables.Keys + (if IsVariableAnnotation(ann) then {KeyOf(b.param.name, ann)} else {})
  {
  }

  /** The last annotation adds the key it computes, if it is a variable annotation, and no other. */
  lemma AnnotationsKeysStep(b: Binding, typeName: string, anns: seq<Annotation>)
    requires |anns| > 0
    ensures var n := |anns| - 1;
      ApplyAnnotations(b, typeName, anns).variables.Keys ==
        ApplyAnnotations(b, typeName, anns[..n]).variables.Keys +
        (if IsVariableAnnotation(anns[n]) then {VariableKey(b.param.name, anns, n)} else {})
  {
    var n := |anns| - 1;
    var init := anns[..n];
    var prev := ApplyAnnotations(b, typeName, init);
    ApplyAnnotationsLast(b, typeName, anns);
    ApplyAnnotationKeys(prev, typeName, anns[n]);
    if IsVariableAnnotation(anns[n]) {
      assert VariableKey(b.param.name, anns, n) == KeyOf(prev.param.name, anns[n]) by {
        assert anns[..n] == init;
        AnnotationsNameAfter(b, typeName, init);
      }
    }
  }

  /** The annotations add exactly the keys their `@DataParam`s and
      `@DataVariable`s compute; a `@DataObject` adds none. */
  lemma {:induction false} AnnotationsVariableKeys(b: Binding, typeName: string, anns: seq<Annotation>)
    ensures ApplyAnnotations(b, typeName, anns).variables.Keys == b.variables.Keys + VariableKeys(b.param.name, anns)
    decreases |anns|
  {
    if |anns| > 0 {
      AnnotationsVariableKeys(b, typeName, anns[..|anns| - 1]);
      AnnotationsKeysStep(b, typeName, anns);
    }
  }

  /** What one annotation does to the variables. */
  lemma ApplyAnnotationVariables(b: Binding, typeName: string, ann: Annotation)
    ensures var r := ApplyAnnotation(b, typeName, ann);
      && b.variables.Keys <= r.variables.Keys
      && (ann.DataParam? ==> ann.value in r.variables)
      && (forall v :: v in r.variables ==>
            (v in b.variables && r.variables[v] == b.variables[v]) ||
            (r.variables[v].name == v && r.variables[v].index == b.param.index))
  {
  }

  /** Variables are only added or overwritten, each under its own name and
      bound to this parameter; every `@DataParam` name becomes a variable. */
  lemma {:induction false} AnnotationsVariables(b: Binding, typeName: string, anns: seq<Annotation>)
    ensures var r := ApplyAnnotations(b, typeName, anns);
      && b.variables.Keys <= r.variables.Keys
      && (forall k :: 0 <= k < |anns| && anns[k].DataParam? ==> anns[k].value in r.variables)
      && (forall v :: v in r.variables ==>
            (v in b.variables && r.variables[v] == b.variables[v]) ||
            (r.variables[v].name == v && r.variables[v].index == b.param.index))
    decreases |anns|
  {
    if |anns| > 0 {
      var n := |anns| - 1;
      var init := anns[..n];
      var prev := ApplyAnnotations(b, typeName, init);
      assert ApplyAnnotations(b, typeName, anns) == ApplyAnnotation(prev, typeName, anns[n]);
      AnnotationsVariables(b, typeName, init);
      ApplyAnnotationVariables(prev, typeName, anns[n]);
      assert prev.param.index == b.param.index;
      assert forall k :: 0 <= k < n ==> init[k] == anns[k];
    }
  }

  /** The registration state after some parameters have been processed. */
  datatype Classification = Classification(
    params: seq<Parameter>,
    named: seq<nat>,
    variables: map<string, Variable>,
    onSuccess: Option<nat>,
    onError: Option<nat>)

  /** The descriptor a parameter starts with: its index and its declared name. */
  function InitialParameter(index: nat, decl: ParamDecl): Parameter
  {
    Parameter(index, decl.name, [], false, false, None)
  }

  /** One iteration of `processParameters`: callback slots first (a type that
      is both an `OnSuccess` and an `OnError` fills the success slot only),
      then the annotations. */
  function AddParameter(c: Classification, decl: ParamDecl): Classification
  {
    var index := |c.params|;
    var b := ApplyAnnotations(Binding(InitialParameter(index, decl), c.named, c.variables), decl.typeName, decl.annotations);
    Classification(
      c.params + [b.param],
      b.named,
      b.variables,
      if decl.isOnSuccess then Some(index) else c.onSuccess,
      if !decl.isOnSuccess && decl.isOnError then Some(index) else c.onError)
  }

  /** `processParameters`: every declared parameter, in order. */
  function ProcessParameters(decls: seq<ParamDecl>): (c: Classification)
    ensures |c.params| == |decls|
    ensures forall i :: 0 <= i < |decls| ==> c.params[i].index == i
  {
    if |decls| == 0 then Classification([], [], map[], None, None)
    else AddParameter(ProcessParameters(decls[..|decls| - 1]), decls[|decls| - 1])
  }

  /** What the annotations of one declared parameter make of it:
      the last `@DataParam` names it (else its declared name is kept), any
      `@DataObject` makes it an object parameter, the last `@DataObject` decides
      JSON (iff its `jsonParam` is non-empty), the last `@DataObject` with a
      `jsonParam` gives the JSON field name, and the naming annotations'
      filters form its chain in order. */
  predicate Classified(p: Parameter, index: nat, decl: ParamDecl)
  {
    var anns := decl.annotations;
    && p.index == index
    && p.filters == CollectedFilters(anns)
    && (p.objectProperties <==> !NoObject(anns))
    && (NoParam(anns) ==> p.name == decl.name)
    && (forall k :: 0 <= k < |anns| && LastParamAt(anns, k) ==> p.name == anns[k].value)
    && (NoObject(anns) ==> !p.jsonParam)
    && (forall k :: 0 <= k < |anns| && LastObjectAt(anns, k) ==> p.jsonParam == (anns[k].jsonParam != ""))
    && (NoJsonObject(anns) ==> p.jsonParamName.None?)
    && (forall k :: 0 <= k < |anns| && LastJsonObjectAt(anns, k) ==> p.jsonParamName == Some(anns[k].jsonParam))
    && JsonNamed(p)
  }

  /** The parameter just added is what its annotations make of it. */
  lemma AddParameterClassifies(c: Classification, decl: ParamDecl)
    ensures |AddParameter(c, decl).params| == |c.params| + 1
    ensures Classified(AddParameter(c, decl).params[|c.params|], |c.params|, decl)
  {
    var b := Binding(InitialParameter(|c.params|, decl), c.named, c.variables);
    AnnotationsFilters(b, decl.typeName, decl.annotations);
    AnnotationsName(b, decl.typeName, decl.annotations);
    AnnotationsObject(b, decl.typeName, decl.annotations);
    AnnotationsJson(b, decl.typeName, decl.annotations);
    AnnotationsJsonName(b, decl.typeName, decl.annotations);
  }

  /** Every parameter descriptor is what its own annotations make of it. */
  lemma {:induction false} ProcessParametersClassifies(decls: seq<ParamDecl>)
    ensures forall i :: 0 <= i < |decls| ==> Classified(ProcessParameters(decls).params[i], i, decls[i])
    decreases |decls|
  {
    if |decls| > 0 {
      var n := |decls| - 1;
      var init := decls[..n];
      ProcessParametersClassifies(init);
      var c := ProcessParameters(init);
      AddParameterClassifies(c, decls[n]);
      assert ProcessParameters(decls).params[..n] == c.params;
      forall i | 0 <= i < n
        ensures Classified(ProcessParameters(decls).params[i], i, decls[i])
      {
        assert decls[i] == init[i];
        assert ProcessParameters(decls).params[i] == c.params[i];
      }
    }
  }

  /** Every entry of `named` points at one of the first `count` parameters,
      and the entries are in declaration order. */
  predicate NamedInOrder(named: seq<nat>, count: nat)
  {
    && (forall k :: 0 <= k < |named| ==> named[k] < count)
    && (forall j, k :: 0 <= j <= k < |named| ==> named[j] <= named[k])
  }

  /** The named-parameter list points at declared parameters, in declaration order. */
  lemma {:induction false} ProcessParametersNamedOrder(decls: seq<ParamDecl>)
    ensures NamedInOrder(ProcessParameters(decls).named, |decls|)
    decreases |decls|
  {
    if |decls| > 0 {
      var n := |decls| - 1;
      var init := decls[..n];
      var prev := ProcessParameters(init);
      assert NamedInOrder(prev.named, n) by {
        ProcessParametersNamedOrder(init);
      }
      var c := ProcessParameters(decls);
      var added := Copies(n, NamingCount(decls[n].annotations));
      assert |prev.params| == n;
      assert c.named == prev.named + added by {
        AnnotationsNamed(Binding(InitialParameter(n, decls[n]), prev.named, prev.variables), decls[n].typeName, decls[n].annotations);
      }
      var m := |prev.named|;
      forall k | 0 <= k < |c.named|
        ensures c.named[k] == if k < m then prev.named[k] else n
      {
        if k >= m {
          assert c.named[k] == added[k - m];
        }
      }
      forall j, k | 0 <= j <= k < |c.named|
        ensures c.named[j] <= c.named[k]
      {
        if k < m {
          assert prev.named[j] <= prev.named[k];
        }
      }
    }
  }

  /** The named-parameter list holds each parameter once per naming annotation. */
  lemma {:induction false} ProcessParametersNamedCount(decls: seq<ParamDecl>)
    ensures forall i :: 0 <= i < |decls| ==>
      multiset(ProcessParameters(decls).named)[i] == NamingCount(decls[i].annotations)
    decreases |decls|
  {
    if |decls| > 0 {
      var n := |decls| - 1;
      var init := decls[..n];
      ProcessParametersNamedCount(init);
      var prev := ProcessParameters(init);
      assert NamedInOrder(prev.named, n) by {
        ProcessParametersNamedOrder(init);
      }
      var c := ProcessParameters(decls);
      var added := Copies(n, NamingCount(decls[n].annotations));
      assert |prev.params| == n;
      assert c.named == prev.named + added by {
        AnnotationsNamed(Binding(InitialParameter(n, decls[n]), prev.named, prev.variables), decls[n].typeName, decls[n].annotations);
      }
      forall i | 0 <= i < |decls|
        ensures multiset(c.named)[i] == NamingCount(decls[i].annotations)
      {
        RepeatMultiplicity(n, NamingCount(decls[n].annotations), i);
        if i < n {
          assert decls[i] == init[i];
        } else {
          assert i !in multiset(prev.named);
        }
      }
    }
  }

  lemma {:induction false} RepeatMultiplicity(x: nat, count: nat, i: nat)
    ensures multiset(Copies(x, count))[i] == if i == x then count else 0
    decreases count
  {
    if count > 0 {
      RepeatMultiplicity(x, count - 1, i);
    }
  }

  /** Every variable is registered under its own name and points at one of the first `count` parameters. */
  predicate VariablesSound(vars: map<string, Variable>, count: nat)
  {
    forall v :: v in vars ==> vars[v].name == v && vars[v].index < count
  }

  /** Every variable is registered under its own name and points at a declared parameter. */
  lemma {:induction false} ProcessParametersVariables(decls: seq<ParamDecl>)
    ensures VariablesSound(ProcessParameters(decls).variables, |decls|)
    decreases |decls|
  {
    if |decls| > 0 {
      var n := |decls| - 1;
      var init := decls[..n];
      ProcessParametersVariables(init);
      var c := ProcessParameters(init);
      var b := Binding(InitialParameter(n, decls[n]), c.named, c.variables);
      AnnotationsVariables(b, decls[n].typeName, decls[n].annotations);
      var r := ApplyAnnotations(b, decls[n].typeName, decls[n].annotations);
      assert ProcessParameters(decls).variables == r.variables;
      assert VariablesSound(c.variables, n);
    }
  }

  /** Every `@DataParam` name is a variable. */
  lemma {:induction false} ProcessParametersDataParamVariables(decls: seq<ParamDecl>)
    ensures forall i, k :: 0 <= i < |decls| && 0 <= k < |decls[i].annotations| && decls[i].annotations[k].DataParam? ==>
      decls[i].annotations[k].value in ProcessParameters(decls).variables
    decreases |decls|
  {
    if |decls| > 0 {
      var n := |decls| - 1;
      var init := decls[..n];
      ProcessParametersDataParamVariables(init);
      var c := ProcessParameters(init);
      var b := Binding(InitialParameter(n, decls[n]), c.named, c.variables);
      AnnotationsVariables(b, decls[n].typeName, decls[n].annotations);
      assert ProcessParameters(decls).variables == ApplyAnnotations(b, decls[n].typeName, decls[n].annotations).variables;
      forall i | 0 <= i < n
        ensures decls[i] == init[i]
      {
      }
    }
  }

  /** The variable keys of every declared parameter's annotations, each
      computed from that parameter's declared name. */
  function DeclaredVariableKeys(decls: seq<ParamDecl>): set<string>
  {
    if |decls| == 0 then {}
    else
      var n := |decls| - 1;
      DeclaredVariableKeys(decls[..n]) + VariableKeys(decls[n].name, decls[n].annotations)
  }

  /** A key is declared exactly when some variable annotation of some parameter computes it. */
  lemma {:induction false} DeclaredVariableKeysMembers(decls: seq<ParamDecl>)
    ensures forall key :: key in DeclaredVariableKeys(decls) <==>
      exists i :: 0 <= i < |decls| && key in VariableKeys(decls[i].name, decls[i].annotations)
    decreases |decls|
  {
    if |decls| > 0 {
      var n := |decls| - 1;
      var init := decls[..n];
      DeclaredVariableKeysMembers(init);
      forall key
        ensures key in DeclaredVariableKeys(decls) <==>
          exists i :: 0 <= i < |decls| && key in VariableKeys(decls[i].name, decls[i].annotations)
      {
        if exists i :: 0 <= i < |decls| && key in VariableKeys(decls[i].name, decls[i].annotations) {
          var i :| 0 <= i < |decls| && key in VariableKeys(decls[i].name, decls[i].annotations);
          if i < n {
            assert init[i] == decls[i];
          }
        }
      }
    }
  }

  /** The variables are registered under exactly the keys the parameters'
      `@DataParam`s and `@DataVariable`s compute, and under no other. */
  lemma {:induction false} ProcessParametersVariableKeys(decls: seq<ParamDecl>)
    ensures ProcessParameters(decls).variables.Keys == DeclaredVariableKeys(decls)
    decreases |decls|
  {
    if |decls| > 0 {
      var n := |decls| - 1;
      var init := decls[..n];
      ProcessParametersVariableKeys(init);
      var c := ProcessParameters(init);
      var b := Binding(InitialParameter(n, decls[n]), c.named, c.variables);
      AnnotationsVariableKeys(b, decls[n].typeName, decls[n].annotations);
      assert ProcessParameters(decls).variables == ApplyAnnotations(b, decls[n].typeName, decls[n].annotations).variables;
    }
  }

  /** No parameter is an `OnSuccess` callback. */
  predicate NoSuccessSlot(decls: seq<ParamDecl>)
  {
    forall i :: 0 <= i < |decls| ==> !decls[i].isOnSuccess
  }

  /** `decls[i]` is the last `OnSuccess` callback. */
  predicate LastSuccessAt(decls: seq<ParamDecl>, i: int)
  {
    0 <= i < |decls| && decls[i].isOnSuccess && forall j :: i < j < |decls| ==> !decls[j].isOnSuccess
  }

  /** No parameter fills the error slot. */
  predicate NoErrorSlot(decls: seq<ParamDecl>)
  {
    forall i :: 0 <= i < |decls| ==> !IsErrorSlot(decls[i])
  }

  /** `decls[i]` is the last parameter that fills the error slot. */
  predicate LastErrorAt(decls: seq<ParamDecl>, i: int)
  {
    0 <= i < |decls| && IsErrorSlot(decls[i]) && forall j :: i < j < |decls| ==> !IsErrorSlot(decls[j])
  }

  /** Adding a parameter fills a callback slot with its index when its type calls for it. */
  lemma AddParameterSlots(c: Classification, decl: ParamDecl)
    ensures AddParameter(c, decl).onSuccess == if decl.isOnSuccess then Some(|c.params|) else c.onSuccess
    ensures AddParameter(c, decl).onError == if IsErrorSlot(decl) then Some(|c.params|) else c.onError
  {
  }

  /** A last parameter that does not fill the slot leaves the slot where the others put it. */
  lemma SuccessSlotOfPrefix(decls: seq<ParamDecl>)
    requires |decls| > 0 && !decls[|decls| - 1].isOnSuccess
    ensures NoSuccessSlot(decls) <==> NoSuccessSlot(decls[..|decls| - 1])
    ensures forall i :: LastSuccessAt(decls[..|decls| - 1], i) ==> LastSuccessAt(decls, i)
  {
    var n := |decls| - 1;
    var init := decls[..n];
    if NoSuccessSlot(init) {
      forall i | 0 <= i < |decls|
        ensures !decls[i].isOnSuccess
      {
        if i < n {
          assert decls[i] == init[i];
        }
      }
    }
    forall i | LastSuccessAt(init, i)
      ensures LastSuccessAt(decls, i)
    {
      forall j | i < j < |decls|
        ensures !decls[j].isOnSuccess
      {
        if j < n {
          assert decls[j] == init[j];
        }
      }
    }
  }

  /** A last parameter that does not fill the slot leaves the slot where the others put it. */
  lemma ErrorSlotOfPrefix(decls: seq<ParamDecl>)
    requires |decls| > 0 && !IsErrorSlot(decls[|decls| - 1])
    ensures NoErrorSlot(decls) <==> NoErrorSlot(decls[..|decls| - 1])
    ensures forall i :: LastErrorAt(decls[..|decls| - 1], i) ==> LastErrorAt(decls, i)
  {
    var n := |decls| - 1;
    var init := decls[..n];
    if NoErrorSlot(init) {
      forall i | 0 <= i < |decls|
        ensures !IsErrorSlot(decls[i])
      {
        if i < n {
          assert decls[i] == init[i];
        }
      }
    }
    forall i | LastErrorAt(init, i)
      ensures LastErrorAt(decls, i)
    {
      forall j | i < j < |decls|
        ensures !IsErrorSlot(decls[j])
      {
        if j < n {
          assert decls[j] == init[j];
        }
      }
    }
  }

  /** The success slot is the last parameter whose type is an `OnSuccess`. */
  lemma {:induction false} ProcessParametersOnSuccess(decls: seq<ParamDecl>)
    ensures var slot := ProcessParameters(decls).onSuccess;
      && (slot.None? <==> NoSuccessSlot(decls))
      && (slot.Some? ==> LastSuccessAt(decls, slot.value))
    decreases |decls|
  {
    if |decls| > 0 {
      var n := |decls| - 1;
      var init := decls[..n];
      var c := ProcessParameters(init);
      var prev := c.onSuccess;
      assert ProcessParameters(decls).onSuccess == if decls[n].isOnSuccess then Some(n) else prev by {
        assert ProcessParameters(decls) == AddParameter(c, decls[n]);
        AddParameterSlots(c, decls[n]);
      }
      ProcessParametersOnSuccess(init);
      if decls[n].isOnSuccess {
        assert LastSuccessAt(decls, n);
      } else {
        SuccessSlotOfPrefix(decls);
      }
    }
  }

  /** The error slot is the last parameter that is an `OnError` but not an `OnSuccess`. */
  lemma {:induction false} ProcessParametersOnError(decls: seq<ParamDecl>)
    ensures var slot := ProcessParameters(decls).onError;
      && (slot.None? <==> NoErrorSlot(decls))
      && (slot.Some? ==> LastErrorAt(decls, slot.value))
    decreases |decls|
  {
    if |decls| > 0 {
      var n := |decls| - 1;
      var init := decls[..n];
      var c := ProcessParameters(init);
      var prev := c.onError;
      assert ProcessParameters(decls).onError == if IsErrorSlot(decls[n]) then Some(n) else prev by {
        assert ProcessParameters(decls) == AddParameter(c, decls[n]);
        AddParameterSlots(c, decls[n]);
      }
      ProcessParametersOnError(init);
      if IsErrorSlot(decls[n]) {
        assert LastErrorAt(decls, n);
      } else {
        ErrorSlotOfPrefix(decls);
      }
    }
  }

  /** The last `OnSuccess` callback is the one in the success slot. */
  lemma {:induction false} SuccessSlotAt(decls: seq<ParamDecl>, i: int)
    requires LastSuccessAt(decls, i)
    ensures ProcessParameters(decls).onSuccess == Some(i)
  {
    ProcessParametersOnSuccess(decls);
    var s := ProcessParameters(decls).onSuccess.value;
    assert !(s < i) && !(i < s);
  }

  /** The last parameter that fills the error slot is the one in it. */
  lemma {:induction false} ErrorSlotAt(decls: seq<ParamDecl>, i: int)
    requires LastErrorAt(decls, i)
    ensures ProcessParameters(decls).onError == Some(i)
  {
    ProcessParametersOnError(decls);
    var s := ProcessParameters(decls).onError.value;
    assert !(s < i) && !(i < s);
  }

  predicate IsErrorSlot(decl: ParamDecl)
  {
    !decl.isOnSuccess && decl.isOnError
  }

  /** A class may serve as an interceptor only if it implements `Interceptor`
      and is not itself an interface. */
  predicate IsInterceptor(c: InterceptorClass)
  {
    c.implementsInterceptor && !c.isInterface
  }

  /** `classes[k]` is the first class that is not an interceptor implementation. */
  predicate FirstRejected(classes: seq<InterceptorClass>, k: int)
  {
    0 <= k < |classes| && !IsInterceptor(classes[k]) &&
    forall j :: 0 <= j < k ==> IsInterceptor(classes[j])
  }

  /** The interceptor-class check of `processBaseProperties` and
      `processInterfaceMethods`: the classes become the interceptor list,
      or the first rejected class is reported. */
  function CheckInterceptors(classes: seq<InterceptorClass>): (r: Result<seq<InterceptorClass>, Error>)
    ensures r.Success? <==> forall k :: 0 <= k < |classes| ==> IsInterceptor(classes[k])
    ensures r.Success? ==> r.value == classes
    ensures r.Failure? ==> exists k :: FirstRejected(classes, k) && r.error == NotAnInterceptor(classes[k].name)
  {
    if |classes| == 0 then Success([])
    else if !IsInterceptor(classes[0]) then
      assert FirstRejected(classes, 0);
      Failure(NotAnInterceptor(classes[0].name))
    else
      match CheckInterceptors(classes[1..])
      case Failure(e) =>
        assert forall k :: FirstRejected(classes[1..], k) ==> FirstRejected(classes, k + 1);
        Failure(e)
      case Success(rest) => Success([classes[0]] + rest)
  }

  /** The templates of annotation texts, one per text. */
  function Templates(texts: seq<string>): (r: seq<Template>)
    ensures |r| == |texts|
    ensures forall j :: 0 <= j < |texts| ==> r[j].text == texts[j]
  {
    seq(|texts|, j requires 0 <= j < |texts| => Template(texts[j]))
  }

  /** An interface-level template, kept only when its setting is not blank. */
  function BaseTemplate(setting: string): (t: Option<Template>)
    ensures t.Some? <==> !IsBlank(setting)
    ensures t.Some? ==> t.value.text == setting
  {
    if IsBlank(setting) then None else Some(Template(setting))
  }

  /** A method-level timeout or retry count, kept only when positive. */
  function Positive(x: int): (r: Option<int>)
    ensures r.Some? <==> x > 0
    ensures r.Some? ==> r.value == x
  {
    if x > 0 then Some(x) else None
  }

  /** `ForestMethod`'s constructor. The global, interface and method
      interceptor classes are checked in that order; parameter classification,
      which runs between the interface and the method checks, is taken not to
      fail (filter names are kept as names and not looked up), so the first
      rejected class of the three lists together is the one reported. */
  function NewForestMethod(base: BaseSettings, config: Configuration, req: RequestAnnotation, decls: seq<ParamDecl>)
    : (r: Result<ForestMethod, Error>)
    ensures var all := config.interceptors + base.baseInterceptors + req.interceptor;
      && (r.Success? <==> forall k :: 0 <= k < |all| ==> IsInterceptor(all[k]))
      && (r.Failure? ==> exists k :: FirstRejected(all, k) && r.error == NotAnInterceptor(all[k].name))
    ensures r.Success? ==> r.value == Describe(base, config, req, decls)
  {
    var checked := CheckInterceptors(config.interceptors + base.baseInterceptors + req.interceptor);
    if checked.Failure? then Failure(checked.error)
    else Success(Describe(base, config, req, decls))
  }

  /** The descriptor the constructor fills in once the interceptor classes
      are accepted: base templates exist iff the setting is not blank, timeout
      and retry count are kept only when positive, logging is on if the
      configuration or the method enables it, and every index is in range. */
  function Describe(base: BaseSettings, config: Configuration, req: RequestAnnotation, decls: seq<ParamDecl>)
    : (m: ForestMethod)
    ensures WellFormed(m)
    ensures |m.params| == |decls|
    ensures var c := ProcessParameters(decls);
      && m.params == c.params && m.named == c.named && m.variables == c.variables
      && m.onSuccess == c.onSuccess && m.onError == c.onError
    ensures m.baseUrl.Some? <==> !IsBlank(base.baseUrl)
    ensures m.baseUrl.Some? ==> m.baseUrl.value.text == base.baseUrl
    ensures m.baseEncode.Some? <==> !IsBlank(base.baseContentEncoding)
    ensures m.baseContentType.Some? <==> !IsBlank(base.baseContentType)
    ensures m.baseEncode.Some? ==> m.baseEncode.value.text == base.baseContentEncoding
    ensures m.baseContentType.Some? ==> m.baseContentType.value.text == base.baseContentType
    ensures m.url.text == req.url && m.requestType.text == req.requestType && m.dataType.text == req.dataType
    ensures m.encode.text == req.contentEncoding && m.contentType.text == req.contentType
    ensures m.keyStore == req.keyStore && m.async == req.async
    ensures m.timeout.Some? <==> req.timeout > 0
    ensures m.timeout.Some? ==> m.timeout.value == req.timeout
    ensures m.retryCount.Some? <==> req.retryCount > 0
    ensures m.retryCount.Some? ==> m.retryCount.value == req.retryCount
    ensures m.baseTimeout == base.baseTimeout && m.baseRetryCount == base.baseRetryCount
    ensures m.logEnable == (config.logEnabled || req.logEnabled)
    ensures |m.data| == |req.data| && forall j :: 0 <= j < |req.data| ==> m.data[j].text == req.data[j]
    ensures |m.headers| == |req.headers| && forall j :: 0 <= j < |req.headers| ==> m.headers[j].text == req.headers[j]
    ensures m.globalInterceptors == config.interceptors
    ensures m.baseInterceptors == base.baseInterceptors
    ensures m.interceptors == req.interceptor
  {
    var c := ProcessParameters(decls);
    var m := ForestMethod(
      baseUrl := BaseTemplate(base.baseUrl),
      url := Template(req.url),
      requestType := Template(req.requestType),
      dataType := Template(req.dataType),
      baseEncode := BaseTemplate(base.baseContentEncoding),
      encode := Template(req.contentEncoding),
      baseContentType := BaseTemplate(base.baseContentType),
      contentType := Template(req.contentType),
      baseTimeout := base.baseTimeout,
      timeout := Positive(req.timeout),
      baseRetryCount := base.baseRetryCount,
      retryCount := Positive(req.retryCount),
      keyStore := req.keyStore,
      data := Templates(req.data),
      headers := Templates(req.headers),
      params := c.params,
      named := c.named,
      variables := c.variables,
      onSuccess := c.onSuccess,
      onError := c.onError,
      globalInterceptors := config.interceptors,
      baseInterceptors := base.baseInterceptors,
      interceptors := req.interceptor,
      async := req.async,
      logEnable := config.logEnabled || req.logEnabled);
    assert WellFormed(m) by {
      ProcessParametersNamedOrder(decls);
      ProcessParametersVariables(decls);
      ProcessParametersOnSuccess(decls);
      ProcessParametersOnError(decls);
    }
    m
  }
}
