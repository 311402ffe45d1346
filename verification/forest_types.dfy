/** The entities `ForestMethod` works with: runtime values, the request
    name/value pairs, the annotations it reads at registration, the parameter
    and variable descriptors it builds, the method descriptor itself, and the
    request record it assembles on every call. */
module ForestTypes {
  import opened Wrappers

  /** A runtime argument or property value. `Str` is a Java `String`; `Obj` is
      any other object, with its `String.valueOf` text and the readable
      properties (getter name, value) reflection would find on it, in order. */
  datatype Value = Null | Str(s: string) | Obj(text: string, properties: seq<Property>)

  datatype Property = Property(name: string, value: Value)

  /** `String.valueOf` of a non-null value. */
  function ValueOf(v: Value): string
  {
    match v
    case Null => "null"
    case Str(s) => s
    case Obj(text, _) => text
  }

  /** The readable properties of an object; a `String` is taken to have none. */
  function PropertiesOf(v: Value): seq<Property>
  {
    if v.Obj? then v.properties else []
  }

  /** `RequestNameValue`: a name (absent for a filtered object), a value
      (`Null` when only the name is present) and whether it came from the query. */
  datatype NameValue = NameValue(name: Option<string>, value: Value, isQuery: bool)

  /** A class named as an interceptor; the instance the interceptor factory
      makes from it is represented by the class itself. */
  datatype InterceptorClass = InterceptorClass(name: string, implementsInterceptor: bool, isInterface: bool)

  /** A compiled `MappingTemplate`, known by its source text. */
  datatype Template = Template(text: string)

  /** The parameter annotations: `@DataParam(value, filter)`,
      `@DataVariable(value, filter)` and `@DataObject(jsonParam, filter)`. */
  datatype Annotation =
    | DataParam(value: string, filter: string)
    | DataVariable(value: string, filter: string)
    | DataObject(jsonParam: string, filter: string)

  /** What reflection tells about one declared parameter: its name, its type,
      whether that type is an `OnSuccess` or an `OnError` callback, and its
      annotations in declaration order. */
  datatype ParamDecl = ParamDecl(
    name: string,
    typeName: string,
    isOnSuccess: bool,
    isOnError: bool,
    annotations: seq<Annotation>)

  /** `MappingParameter`: the argument index, the name entries are emitted
      under, the filter chain (by filter name), and the object/JSON flags. */
  datatype Parameter = Parameter(
    index: nat,
    name: string,
    filters: seq<string>,
    objectProperties: bool,
    jsonParam: bool,
    jsonParamName: Option<string>)

  /** `MappingVariable`: a template variable bound to an argument. */
  datatype Variable = Variable(name: string, typeName: string, index: nat, filters: seq<string>)

  /** The attributes of the `@Request` annotation on an interface method. */
  datatype RequestAnnotation = RequestAnnotation(
    url: string,
    requestType: string,
    dataType: string,
    contentType: string,
    keyStore: string,
    contentEncoding: string,
    async: bool,
    data: seq<string>,
    headers: seq<string>,
    timeout: int,
    retryCount: int,
    logEnabled: bool,
    interceptor: seq<InterceptorClass>)

  /** The interface-level settings `InterfaceProxyHandler` supplies; a null
      string is modelled as "" (both are blank). */
  datatype BaseSettings = BaseSettings(
    baseUrl: string,
    baseContentEncoding: string,
    baseContentType: string,
    baseTimeout: Option<int>,
    baseRetryCount: Option<int>,
    baseInterceptors: seq<InterceptorClass>,
    baseHeaders: seq<Template>)

  /** The process-wide `ForestConfiguration` values the core reads; a null
      list is modelled as an empty one. */
  datatype Configuration = Configuration(
    interceptors: seq<InterceptorClass>,
    logEnabled: bool,
    timeout: Option<int>,
    retryCount: Option<int>,
    defaultParameters: seq<NameValue>,
    defaultHeaders: seq<NameValue>)

  /** A parsed `java.net.URL`: port -1 means none was given; `query` is
      `getQuery()`, null when the URL has no `?`. */
  datatype Url = Url(protocol: string, host: string, port: int, path: string, query: Option<string>)

  /** The exceptions request construction can raise. */
  datatype Error =
    | NotAnInterceptor(className: string)  // registration: a class that is not an Interceptor implementation
    | MalformedUrl                         // MalformedURLException, wrapped
    | QuerySegmentWithoutName(segment: string)  // a query segment of '=' only: nameValue[0] is out of bounds
    | NullObject(index: nat)               // a null @DataObject argument expanded by reflection
    | UnknownDataType(name: string)        // ForestDataType.valueOf found no constant

  /** The registration-time state of a `ForestMethod`. `named` lists indices
      into `params`: Java adds the parameter object itself, so a parameter
      carrying two naming annotations appears twice with its final state. */
  datatype ForestMethod = ForestMethod(
    baseUrl: Option<Template>,
    url: Template,
    requestType: Template,
    dataType: Template,
    baseEncode: Option<Template>,
    encode: Template,
    baseContentType: Option<Template>,
    contentType: Template,
    baseTimeout: Option<int>,
    timeout: Option<int>,
    baseRetryCount: Option<int>,
    retryCount: Option<int>,
    keyStore: string,
    data: seq<Template>,
    headers: seq<Template>,
    params: seq<Parameter>,
    named: seq<nat>,
    variables: map<string, Variable>,
    onSuccess: Option<nat>,
    onError: Option<nat>,
    globalInterceptors: seq<InterceptorClass>,
    baseInterceptors: seq<InterceptorClass>,
    interceptors: seq<InterceptorClass>,
    async: bool,
    logEnable: bool)

  /** Every index the descriptor holds points at a declared parameter. */
  predicate WellFormed(m: ForestMethod)
  {
    && (forall i :: 0 <= i < |m.params| ==> m.params[i].index == i)
    && (forall k :: 0 <= k < |m.named| ==> m.named[k] < |m.params|)
    && (forall v :: v in m.variables ==> m.variables[v].index < |m.params|)
    && (m.onSuccess.Some? ==> m.onSuccess.value < |m.params|)
    && (m.onError.Some? ==> m.onError.value < |m.params|)
  }

  /** What request assembly calls but does not define, as functions fixed for
      one call: template rendering against the call's arguments, URL
      resolution (`getValidURL` followed by `new URL`, `None` when the URL is
      malformed), one filter of the configuration applied to a value, the JSON
      converter, and the names of the `ForestDataType` constants. */
  datatype Env = Env(
    render: Template -> string,
    resolveUrl: (Option<string>, string) -> Option<Url>,
    applyFilter: (string, Value) -> Value,
    toJson: Value -> string,
    dataTypes: set<string>)

  /** The `ForestRequest` as assembled: every setter becomes a field and every
      `add*` call appends to a sequence, in call order. */
  datatype Request = Request(
    protocol: string,
    url: string,
    query: Option<string>,
    requestType: string,
    keyStore: Option<string>,
    encode: Option<string>,
    contentType: Option<string>,
    arguments: seq<Value>,
    logEnable: bool,
    async: bool,
    data: seq<NameValue>,
    headers: seq<NameValue>,
    body: Option<string>,
    timeout: Option<int>,
    retryCount: Option<int>,
    onSuccess: Option<Value>,
    onError: Option<Value>,
    dataType: string,
    interceptors: seq<InterceptorClass>)
}
