/** `makeRequest`: the request one call assembles from the registered method
    descriptor, the interface's base headers, the configuration and the
    call's arguments. */
module Assembly {
  import opened Wrappers
  import opened Strings
  import opened ForestTypes
  import opened Registration
  import opened Urls
  import opened Entries
  import opened Named

  /** A template that may be missing, rendered when present. */
  function RenderOptional(env: Env, t: Option<Template>): (r: Option<string>)
    ensures r.Some? <==> t.Some?
  {
    if t.Some? then Some(env.render(t.value)) else None
  }

  function RenderAll(env: Env, ts: seq<Template>): (r: seq<string>)
    ensures |r| == |ts|
    ensures forall k :: 0 <= k < |ts| ==> r[k] == env.render(ts[k])
  {
    if |ts| == 0 then [] else [env.render(ts[0])] + RenderAll(env, ts[1..])
  }

  // ----- Precedence of scalar settings -----

  /** The first setting that is present, in order of precedence. */
  function FirstPresent(options: seq<Option<int>>): (r: Option<int>)
    ensures r.None? <==> forall k :: 0 <= k < |options| ==> options[k].None?
    ensures r.Some? ==> r in options
  {
    if |options| == 0 then None
    else if options[0].Some? then options[0]
    else FirstPresent(options[1..])
  }

  /** The setting chosen is the first present one: every setting before it is absent. */
  lemma {:induction false} FirstPresentIsFirst(options: seq<Option<int>>, k: nat)
    requires k < |options| && options[k].Some?
    requires forall j :: 0 <= j < k ==> options[j].None?
    ensures FirstPresent(options) == options[k]
    decreases k
  {
    if k > 0 {
      FirstPresentIsFirst(options[1..], k - 1);
    }
  }

  /** With three settings: the first, else the second, else the third. */
  lemma FirstOfThree(first: Option<int>, second: Option<int>, third: Option<int>)
    ensures FirstPresent([first, second, third]) ==
      if first.Some? then first else if second.Some? then second else third
  {
    var options := [first, second, third];
    if first.Some? {
      FirstPresentIsFirst(options, 0);
    } else if second.Some? {
      FirstPresentIsFirst(options, 1);
    } else if third.Some? {
      FirstPresentIsFirst(options, 2);
    }
  }

  /** The encoding: the method's rendered encoding when non-empty, else the
      interface's (absent when the interface sets none). */
  function ResolveEncoding(rendered: string, base: Option<string>): (r: Option<string>)
    ensures rendered != "" ==> r == Some(rendered)
    ensures rendered == "" ==> r == base
  {
    if |rendered| > 0 then Some(rendered) else base
  }

  /** The content type: the method's rendered content type, trimmed, when
      that leaves something, else the interface's. */
  function ResolveContentType(rendered: string, base: Option<string>): (r: Option<string>)
    ensures AllTrimmed(rendered) ==> r == base
    ensures !AllTrimmed(rendered) ==>
      r.Some? && r.value != "" && HasSolidEnds(r.value) && exists i :: PaddedAt(rendered, r.value, i)
  {
    TrimEmpty(rendered);
    var trimmed := Trim(rendered);
    if trimmed == "" then base else Some(trimmed)
  }

  // ----- Data type -----

  /** The data type: `TEXT` for an empty rendering, otherwise the upper-cased
      rendering when it names a constant, and an error when it names none. */
  function ResolveDataType(rendered: string, known: set<string>): (r: Result<string, Error>)
    ensures rendered == "" ==> r == Success("TEXT")
    ensures rendered != "" ==> (r.Success? <==> ToUpperCase(rendered) in known)
    ensures r.Success? && rendered != "" ==> r.value == ToUpperCase(rendered) && r.value in known
    ensures r.Success? ==> ToUpperCase(r.value) == r.value
    ensures r.Failure? ==> r.error == UnknownDataType(ToUpperCase(rendered))
  {
    if rendered == "" then Success("TEXT")
    else
      var name := ToUpperCase(rendered);
      ToUpperCaseIdempotent(rendered);
      if name in known then Success(name) else Failure(UnknownDataType(name))
  }

  /** Data type names are matched without regard to ASCII case. */
  lemma DataTypeIgnoresCase(s: string, t: string, known: set<string>)
    requires ToUpperCase(s) == ToUpperCase(t)
    ensures ResolveDataType(s, known) == ResolveDataType(t, known)
  {
    assert |s| == |ToUpperCase(s)| == |ToUpperCase(t)| == |t|;
  }

  // ----- The request -----

  /** The resolved URL of a call: `None` when it is malformed. */
  function CallUrl(m: ForestMethod, env: Env): Option<Url>
  {
    env.resolveUrl(RenderOptional(env, m.baseUrl), env.render(m.url))
  }

  /** The named-parameter entries of a call. */
  function CallNamed(m: ForestMethod, env: Env, args: seq<Value>): Result<seq<NameValue>, Error>
    requires WellFormed(m) && |args| == |m.params|
  {
    NamedEntries(env, m.params, m.named, args)
  }

  /** The callback argument in a slot, when the method has that slot. */
  function Callback(slot: Option<nat>, args: seq<Value>): (r: Option<Value>)
    requires slot.Some? ==> slot.value < |args|
    ensures r.Some? <==> slot.Some?
    ensures r.Some? ==> r.value == args[slot.value]
  {
    if slot.Some? then Some(args[slot.value]) else None
  }

  /** `makeRequest`. It fails on a malformed URL, then on a query segment of
      '=' only, then on a null plain object parameter, then on an unknown
      data type. Otherwise the data entries are the configuration's default
      parameters, the query entries, the named-parameter entries and the data
      entries, in that order; the headers are the interface's base headers,
      the configuration's default headers and the method's headers, in that
      order; and the interceptors are the global, interface and method ones,
      in that order. */
  function MakeRequest(m: ForestMethod, baseHeaders: seq<Template>, config: Configuration, env: Env, args: seq<Value>)
    : (r: Result<Request, Error>)
    requires WellFormed(m) && |args| == |m.params|
    ensures CallUrl(m, env).None? ==> r == Failure(MalformedUrl)
    ensures CallUrl(m, env).Some? && QueryEntries(CallUrl(m, env).value.query).Failure? ==>
      r == Failure(QueryEntries(CallUrl(m, env).value.query).error)
    ensures CallUrl(m, env).Some? && QueryEntries(CallUrl(m, env).value.query).Success? && CallNamed(m, env, args).Failure? ==>
      r == Failure(CallNamed(m, env, args).error)
    ensures r.Success? <==>
      && CallUrl(m, env).Some?
      && QueryEntries(CallUrl(m, env).value.query).Success?
      && CallNamed(m, env, args).Success?
      && ResolveDataType(env.render(m.dataType), env.dataTypes).Success?
    ensures r.Failure? && CallUrl(m, env).Some? && QueryEntries(CallUrl(m, env).value.query).Success? && CallNamed(m, env, args).Success? ==>
      r.error == ResolveDataType(env.render(m.dataType), env.dataTypes).error
    ensures r.Success? ==>
      var u := CallUrl(m, env).value;
      var fragments := RenderAll(env, m.data);
      var q := r.value;
      && q.protocol == u.protocol
      && q.url == RebuildUrl(u)
      && q.query == u.query
      && q.requestType == env.render(m.requestType)
      && q.data == config.defaultParameters + QueryEntries(u.query).value + CallNamed(m, env, args).value + DataEntries(fragments)
      && q.body == BodyOf(fragments)
      && q.headers == BaseHeaders(RenderAll(env, baseHeaders)) + config.defaultHeaders + MethodHeaders(RenderAll(env, m.headers))
      && q.timeout == FirstPresent([m.timeout, m.baseTimeout, config.timeout])
      && q.retryCount == FirstPresent([m.retryCount, m.baseRetryCount, config.retryCount])
      && q.encode == ResolveEncoding(env.render(m.encode), RenderOptional(env, m.baseEncode))
      && q.contentType == ResolveContentType(env.render(m.contentType), RenderOptional(env, m.baseContentType))
      && q.dataType == ResolveDataType(env.render(m.dataType), env.dataTypes).value
      && q.interceptors == m.globalInterceptors + m.baseInterceptors + m.interceptors
      && q.onSuccess == Callback(m.onSuccess, args)
      && q.onError == Callback(m.onError, args)
      && (q.keyStore.Some? <==> m.keyStore != "")
      && (q.keyStore.Some? ==> q.keyStore.value == m.keyStore)
      && q.arguments == args && q.logEnable == m.logEnable && q.async == m.async
  {
    var url := CallUrl(m, env);
    if url.None? then Failure(MalformedUrl)
    else
      var u := url.value;
      var query := QueryEntries(u.query);
      if query.Failure? then Failure(query.error)
      else
        var named := CallNamed(m, env, args);
        if named.Failure? then Failure(named.error)
        else
          var dataType := ResolveDataType(env.render(m.dataType), env.dataTypes);
          if dataType.Failure? then Failure(dataType.error)
          else
            var fragments := RenderAll(env, m.data);
            Success(Request(
              protocol := u.protocol,
              url := RebuildUrl(u),
              query := u.query,
              requestType := env.render(m.requestType),
              keyStore := if m.keyStore != "" then Some(m.keyStore) else None,
              encode := ResolveEncoding(env.render(m.encode), RenderOptional(env, m.baseEncode)),
              contentType := ResolveContentType(env.render(m.contentType), RenderOptional(env, m.baseContentType)),
              arguments := args,
              logEnable := m.logEnable,
              async := m.async,
              data := config.defaultParameters + query.value + named.value + DataEntries(fragments),
              headers := BaseHeaders(RenderAll(env, baseHeaders)) + config.defaultHeaders + MethodHeaders(RenderAll(env, m.headers)),
              body := BodyOf(fragments),
              timeout := FirstPresent([m.timeout, m.baseTimeout, config.timeout]),
              retryCount := FirstPresent([m.retryCount, m.baseRetryCount, config.retryCount]),
              onSuccess := Callback(m.onSuccess, args),
              onError := Callback(m.onError, args),
              dataType := dataType.value,
              interceptors := m.globalInterceptors + m.baseInterceptors + m.interceptors))
  }

  // ----- From the annotations to the request -----

  /** The timeout and retry count a request carries: the method's value when
      it is positive, else the interface's, else the configuration's, else none. */
  lemma TimeoutAndRetryPrecedence(base: BaseSettings, config: Configuration, req: RequestAnnotation, decls: seq<ParamDecl>,
                                  env: Env, args: seq<Value>)
    requires NewForestMethod(base, config, req, decls).Success?
    requires |args| == |decls|
    requires MakeRequest(NewForestMethod(base, config, req, decls).value, base.baseHeaders, config, env, args).Success?
    ensures var q := MakeRequest(NewForestMethod(base, config, req, decls).value, base.baseHeaders, config, env, args).value;
      && q.timeout == (if req.timeout > 0 then Some(req.timeout) else if base.baseTimeout.Some? then base.baseTimeout else config.timeout)
      && q.retryCount == (if req.retryCount > 0 then Some(req.retryCount) else if base.baseRetryCount.Some? then base.baseRetryCount else config.retryCount)
  {
    var m := NewForestMethod(base, config, req, decls).value;
    var q := MakeRequest(m, base.baseHeaders, config, env, args).value;
    assert q.timeout == FirstPresent([m.timeout, m.baseTimeout, config.timeout]);
    assert q.retryCount == FirstPresent([m.retryCount, m.baseRetryCount, config.retryCount]);
    FirstOfThree(m.timeout, m.baseTimeout, config.timeout);
    FirstOfThree(m.retryCount, m.baseRetryCount, config.retryCount);
  }

  /** The encoding and content type a request carries: the method's
      rendering (trimmed, for the content type) when it leaves something,
      else the interface's rendering when the interface sets a non-blank one,
      else none. */
  lemma EncodingAndContentTypePrecedence(base: BaseSettings, config: Configuration, req: RequestAnnotation, decls: seq<ParamDecl>,
                                         env: Env, args: seq<Value>)
    requires NewForestMethod(base, config, req, decls).Success?
    requires |args| == |decls|
    requires MakeRequest(NewForestMethod(base, config, req, decls).value, base.baseHeaders, config, env, args).Success?
    ensures var q := MakeRequest(NewForestMethod(base, config, req, decls).value, base.baseHeaders, config, env, args).value;
      var encoding := env.render(Template(req.contentEncoding));
      var contentType := env.render(Template(req.contentType));
      && q.encode == (if encoding != "" then Some(encoding)
                      else if IsBlank(base.baseContentEncoding) then None
                      else Some(env.render(Template(base.baseContentEncoding))))
      && (!AllTrimmed(contentType) ==> q.contentType == Some(Trim(contentType)))
      && (AllTrimmed(contentType) ==> q.contentType == (if IsBlank(base.baseContentType) then None
                                                         else Some(env.render(Template(base.baseContentType)))))
  {
    TrimEmpty(env.render(Template(req.contentType)));
  }

  /** A request carries the interceptors of the configuration, of the
      interface and of the method, in that order, each list whole; and it logs
      when either the configuration or the method enables logging. */
  lemma InterceptorOrder(base: BaseSettings, config: Configuration, req: RequestAnnotation, decls: seq<ParamDecl>,
                         env: Env, args: seq<Value>)
    requires NewForestMethod(base, config, req, decls).Success?
    requires |args| == |decls|
    requires MakeRequest(NewForestMethod(base, config, req, decls).value, base.baseHeaders, config, env, args).Success?
    ensures var q := MakeRequest(NewForestMethod(base, config, req, decls).value, base.baseHeaders, config, env, args).value;
      && q.interceptors == config.interceptors + base.baseInterceptors + req.interceptor
      && (forall k :: 0 <= k < |q.interceptors| ==> IsInterceptor(q.interceptors[k]))
      && q.logEnable == (config.logEnabled || req.logEnabled)
  {
  }

  /** A request's success callback is the argument of the last parameter
      typed `OnSuccess`, and its error callback that of the last parameter
      typed `OnError` but not `OnSuccess`; each is absent when no parameter
      has such a type. */
  lemma CallbacksInRequest(base: BaseSettings, config: Configuration, req: RequestAnnotation, decls: seq<ParamDecl>,
                           env: Env, args: seq<Value>)
    requires NewForestMethod(base, config, req, decls).Success?
    requires |args| == |decls|
    requires MakeRequest(NewForestMethod(base, config, req, decls).value, base.baseHeaders, config, env, args).Success?
    ensures var q := MakeRequest(NewForestMethod(base, config, req, decls).value, base.baseHeaders, config, env, args).value;
      && (q.onSuccess.None? <==> NoSuccessSlot(decls))
      && (forall i :: LastSuccessAt(decls, i) ==> q.onSuccess == Some(args[i]))
      && (q.onError.None? <==> NoErrorSlot(decls))
      && (forall i :: LastErrorAt(decls, i) ==> q.onError == Some(args[i]))
  {
    var m := Describe(base, config, req, decls);
    assert NewForestMethod(base, config, req, decls).value == m;
    var q := MakeRequest(m, base.baseHeaders, config, env, args).value;
    assert q.onSuccess == Callback(m.onSuccess, args) && q.onError == Callback(m.onError, args);
    assert m.onSuccess == ProcessParameters(decls).onSuccess && m.onError == ProcessParameters(decls).onError;
    ProcessParametersOnSuccess(decls);
    ProcessParametersOnError(decls);
    forall i | LastSuccessAt(decls, i)
      ensures q.onSuccess == Some(args[i])
    {
      SuccessSlotAt(decls, i);
    }
    forall i | LastErrorAt(decls, i)
      ensures q.onError == Some(args[i])
    {
      ErrorSlotAt(decls, i);
    }
  }

  /** The query of the URL comes back whole among the request's data: after
      the configuration's default parameters come the query's pairs, in
      order, each with its value exactly when it had one. */
  lemma QueryInRequest(m: ForestMethod, baseHeaders: seq<Template>, config: Configuration, env: Env, args: seq<Value>,
                       pairs: seq<Pair>)
    requires WellFormed(m) && |args| == |m.params|
    requires CallUrl(m, env).Some? && CallUrl(m, env).value.query == Some(EncodePairs(pairs))
    requires |pairs| >= 1 && forall k :: 0 <= k < |pairs| ==> IsTokenPair(pairs[k])
    requires MakeRequest(m, baseHeaders, config, env, args).Success?
    ensures var data := MakeRequest(m, baseHeaders, config, env, args).value.data;
      var d := |config.defaultParameters|;
      && |data| >= d + |pairs|
      && forall k :: 0 <= k < |pairs| ==> data[d + k] == QueryEntryOf(pairs[k])
  {
    var data := MakeRequest(m, baseHeaders, config, env, args).value.data;
    var entries := QueryEntries(CallUrl(m, env).value.query).value;
    QueryRoundTrip(pairs);
    forall k | 0 <= k < |pairs|
      ensures data[|config.defaultParameters| + k] == QueryEntryOf(pairs[k])
    {
      AtOffset(config.defaultParameters, entries, CallNamed(m, env, args).value, DataEntries(RenderAll(env, m.data)), k);
    }
  }

  /** A single data template rendered as `n1=v1&n2&...` gives the last
      entries of the request's data, after the default parameters, the
      query entries and the named-parameter entries: exactly those pairs in
      order, each with its value just where the pair had one. */
  lemma DataInRequest(m: ForestMethod, baseHeaders: seq<Template>, config: Configuration, env: Env, args: seq<Value>,
                      pairs: seq<Pair>)
    requires WellFormed(m) && |args| == |m.params|
    requires RenderAll(env, m.data) == [EncodePairs(pairs)]
    requires |pairs| >= 1 && forall k :: 0 <= k < |pairs| ==> IsSolidPair(pairs[k])
    requires MakeRequest(m, baseHeaders, config, env, args).Success?
    ensures var data := MakeRequest(m, baseHeaders, config, env, args).value.data;
      var d := |config.defaultParameters| + |QueryEntries(CallUrl(m, env).value.query).value| + |CallNamed(m, env, args).value|;
      && |data| == d + |pairs|
      && forall k :: 0 <= k < |pairs| ==> data[d + k] == DataEntryOf(pairs[k])
  {
    var entries := DataEntries(RenderAll(env, m.data));
    DataOfOneFragment(RenderAll(env, m.data), pairs);
    forall k | 0 <= k < |pairs|
      ensures (config.defaultParameters + QueryEntries(CallUrl(m, env).value.query).value + CallNamed(m, env, args).value + entries)
        [|config.defaultParameters| + |QueryEntries(CallUrl(m, env).value.query).value| + |CallNamed(m, env, args).value| + k]
        == DataEntryOf(pairs[k])
    {
      AtLast(config.defaultParameters, QueryEntries(CallUrl(m, env).value.query).value, CallNamed(m, env, args).value, entries, k);
    }
  }

  /** Position `k` of the last of four sequences one after the other. */
  lemma AtLast<T>(a: seq<T>, b: seq<T>, c: seq<T>, d: seq<T>, k: nat)
    requires k < |d|
    ensures |a + b + c + d| == |a| + |b| + |c| + |d| && (a + b + c + d)[|a| + |b| + |c| + k] == d[k]
  {
  }

  /** Position `|a| + k` of four sequences one after the other lies in the second. */
  lemma AtOffset<T>(a: seq<T>, b: seq<T>, c: seq<T>, d: seq<T>, k: nat)
    requires k < |b|
    ensures |a + b + c + d| > |a| + k && (a + b + c + d)[|a| + k] == b[k]
  {
  }
}
