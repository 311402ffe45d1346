# Forest request assembly, modelled in Dafny

Forest turns an annotated Java interface into an HTTP client. For every
interface method it builds a `ForestMethod` once. When the method is called,
that descriptor assembles a `ForestRequest`. This project models both steps
of `ForestMethod` as pure functions and proves properties about them:

- **Registration.** `processParameters`, `processParameterAnnotation` and
  `processParameterFilter` classify the parameters. The constructor also
  takes over the interface settings, and it rejects interceptor classes that
  do not implement `Interceptor` or that are interfaces.
- **Per call.** `makeRequest` does the following:
  - decomposes the URL's query;
  - rebuilds the URL without port 80 and without an empty path;
  - resolves timeout, retry count, encoding and content type by precedence;
  - joins the data fragments into the body and parses them into entries;
  - parses headers, in base, then default, then method order;
  - emits the named parameters;
  - resolves the data type;
  - concatenates the interceptors.

Modules:

- `Wrappers`: `Option` and `Result`.
- `Strings`: Java's `String.split` (one-character literal separator, trailing
  empty pieces dropped), `trim`, ASCII `toUpperCase` and `isBlank`. Each
  comes with its laws.
- `Decimal`: the decimal rendering of a port, with its parser.
- `ForestTypes`: values, name/value pairs, annotations, the method
  descriptor, the request record, and `Env`. `Env` holds the collaborators
  the code calls but does not define.
- `Registration`: parameter classification and the descriptor constructor.
- `Urls`: query entries and the rebuilt URL, each with a round trip.
- `Entries`: request body, data entries and header lines.
- `Named`: filters, object properties and named-parameter emission.
- `Assembly`: precedence rules, data type, `MakeRequest`, and lemmas from the
  annotations all the way to the request.
- `Examples`: concrete inputs.

A reader might expect a query segment, a data segment and a header to be
split at their *first* `=` or `:`. The code instead calls `split`, which cuts
at every separator, and then looks at the first two pieces only.

- A query segment `a=b=c` gets the value `b`.
- A data segment `a=b=c` gets no value.
- A method header `Referer: http://x` gets no value.
- The same line as a base header gets the value `http`.

`Entries.DataSegmentWithTwoEquals` and `Entries.HeaderWithColonInValue`
prove these outcomes. The model keeps them.

## Model

| member | source | states |
|---|---|---|
| Strings.JavaSplit | forest-core/src/main/java/com/dtflys/forest/reflection/ForestMethod.java:355 | no piece of `split` contains the separator; without a separator the whole string (even "") is the only piece; otherwise the last piece is non-empty |
| Strings.JavaSplitRejoin | forest-core/src/main/java/com/dtflys/forest/reflection/ForestMethod.java:348 | joining the pieces again gives the original string minus a run of trailing separators |
| Strings.JavaSplitEmpty | forest-core/src/main/java/com/dtflys/forest/reflection/ForestMethod.java:355-356 | `split` yields no piece exactly when the string is non-empty and made of the separator only |
| Strings.JavaSplitSeveral | forest-core/src/main/java/com/dtflys/forest/reflection/ForestMethod.java:448-449 | `split` yields more than one piece exactly when some separator is followed later by a non-separator character |
| Strings.JavaSplitJoin | forest-core/src/main/java/com/dtflys/forest/reflection/ForestMethod.java:467 | pieces free of the separator, the last one non-empty, joined and split again come back unchanged |
| Strings.JavaSplitFirstPieces | forest-core/src/main/java/com/dtflys/forest/reflection/ForestMethod.java:355-361 | the first piece of `split` is the text before the first separator; a second piece is the text between the first and the second separator |
| Strings.JavaSplitAfterFirst | forest-core/src/main/java/com/dtflys/forest/reflection/ForestMethod.java:468-479 | when some separator is followed by text, `split` gives the text before the first separator and then the non-empty pieces of the text after it |
| Strings.JavaSplitTwo | forest-core/src/main/java/com/dtflys/forest/reflection/ForestMethod.java:468-479 | `split` gives exactly two pieces iff some separator is followed by text and, after the first separator, no separator is followed by text |
| Strings.SplitJoinEach | forest-core/src/main/java/com/dtflys/forest/reflection/ForestMethod.java:461-467 | splitting a join on every separator gives the pieces of each joined part, part by part |
| Strings.Trim | forest-core/src/main/java/com/dtflys/forest/reflection/ForestMethod.java:334 | the result has no character <= U+0020 at either end and is the input with only such characters removed around it |
| Strings.TrimPadded | forest-core/src/main/java/com/dtflys/forest/reflection/ForestMethod.java:472 | trimming a string with solid ends padded by any trimmable characters gives back that string |
| Strings.TrimEmpty | forest-core/src/main/java/com/dtflys/forest/reflection/ForestMethod.java:334-337 | trimming gives "" exactly when every character is trimmable |
| Strings.ToUpperCase | forest-core/src/main/java/com/dtflys/forest/reflection/ForestMethod.java:533 | same length; each of a..z becomes the matching letter of A..Z, every other character stays, and no lower-case ASCII letter is left |
| Decimal.NatToString | forest-core/src/main/java/com/dtflys/forest/reflection/ForestMethod.java:375 | at least one digit, no leading zero for a positive number |
| Decimal.ParseNatToString | forest-core/src/main/java/com/dtflys/forest/reflection/ForestMethod.java:375 | reading back the rendered digits gives the port number |
| Registration.FilterNames | forest-core/src/main/java/com/dtflys/forest/reflection/ForestMethod.java:300-308 | an empty attribute names no filter; filter names never contain ','; an attribute without ',' is one name |
| Registration.FilterNamesOfList | forest-core/src/main/java/com/dtflys/forest/reflection/ForestMethod.java:300-308 | a comma-joined list of names is read back name by name, in order |
| Registration.ApplyAnnotations | forest-core/src/main/java/com/dtflys/forest/reflection/ForestMethod.java:259-298 | every annotation of a parameter is applied in declaration order and the parameter keeps its index |
| Registration.AnnotationsNamed | forest-core/src/main/java/com/dtflys/forest/reflection/ForestMethod.java:268-295 | the parameter joins the named list once per `@DataParam`/`@DataObject`, after the earlier entries, and nothing else is added |
| Registration.AnnotationsFilters | forest-core/src/main/java/com/dtflys/forest/reflection/ForestMethod.java:265-292 | the chain is extended by the filters of the naming annotations, in declaration order |
| Registration.AnnotationsName | forest-core/src/main/java/com/dtflys/forest/reflection/ForestMethod.java:262-264 | the last `@DataParam` names the parameter; without one the declared name stays |
| Registration.AnnotationsObject | forest-core/src/main/java/com/dtflys/forest/reflection/ForestMethod.java:284-289 | the parameter is an object parameter iff it already was or some annotation is a `@DataObject` |
| Registration.AnnotationsJson | forest-core/src/main/java/com/dtflys/forest/reflection/ForestMethod.java:284-296 | without `@DataObject` the JSON flag stays; otherwise the last `@DataObject` decides it, JSON iff its `jsonParam` is non-empty; a JSON parameter keeps a field name |
| Registration.AnnotationsJsonName | forest-core/src/main/java/com/dtflys/forest/reflection/ForestMethod.java:284-293 | the JSON field name is the `jsonParam` of the last `@DataObject` that has a non-empty one; without such an annotation it is unchanged |
| Registration.AnnotationsVariables | forest-core/src/main/java/com/dtflys/forest/reflection/ForestMethod.java:262-283 | variables are only added or overwritten, each under its own name and bound to this parameter; every `@DataParam` name is a variable |
| Registration.VariableKeysMembers | forest-core/src/main/java/com/dtflys/forest/reflection/ForestMethod.java:262-283 | a name is among the variable names of one parameter's annotations iff some `@DataVariable` or `@DataParam` of it registers that name |
| Registration.AnnotationsVariableKeys | forest-core/src/main/java/com/dtflys/forest/reflection/ForestMethod.java:262-283 | after one parameter's annotations the variable names are exactly the earlier names plus the names its variable annotations register, and no others |
| Registration.AnnotationsNameAfter | forest-core/src/main/java/com/dtflys/forest/reflection/ForestMethod.java:262-266 | after the annotations the parameter is named by the last `@DataParam`, else it keeps the name it had |
| Registration.AnnotationsVariableWritten | forest-core/src/main/java/com/dtflys/forest/reflection/ForestMethod.java:259-283 | a `@DataParam` or `@DataVariable` leaves, unless a later annotation reuses its key, a variable under its value (or, for a `@DataVariable` without one, the parameter's name at that point) with the parameter type, this parameter's index and the filters of its own `filter` attribute |
| Registration.ProcessParameters | forest-core/src/main/java/com/dtflys/forest/reflection/ForestMethod.java:231-251 | one descriptor per declared parameter, the i-th carrying index i |
| Registration.ProcessParametersClassifies | forest-core/src/main/java/com/dtflys/forest/reflection/ForestMethod.java:231-298 | every descriptor is what its own annotations make of it: name, filter chain, object and JSON flags, and JSON field name |
| Registration.ProcessParametersNamedOrder | forest-core/src/main/java/com/dtflys/forest/reflection/ForestMethod.java:268-295 | the named list holds declared indices only, in non-decreasing declaration order |
| Registration.ProcessParametersNamedCount | forest-core/src/main/java/com/dtflys/forest/reflection/ForestMethod.java:268-295 | each parameter appears in the named list exactly once per naming annotation it carries |
| Registration.ProcessParametersVariables | forest-core/src/main/java/com/dtflys/forest/reflection/ForestMethod.java:272-283 | every variable is registered under its own name and points at a declared parameter |
| Registration.DeclaredVariableKeysMembers | forest-core/src/main/java/com/dtflys/forest/reflection/ForestMethod.java:231-251 | a name is a declared variable name iff some parameter has a variable annotation registering it |
| Registration.ProcessParametersVariableKeys | forest-core/src/main/java/com/dtflys/forest/reflection/ForestMethod.java:231-251 | the registered variable names are exactly those the parameters' `@DataVariable`/`@DataParam` annotations register: no other annotation adds one |
| Registration.ProcessParametersDataParamVariables | forest-core/src/main/java/com/dtflys/forest/reflection/ForestMethod.java:272 | every `@DataParam` value of every parameter is a variable |
| Registration.ProcessParametersOnSuccess | forest-core/src/main/java/com/dtflys/forest/reflection/ForestMethod.java:240-244 | the success slot is absent iff no parameter is an `OnSuccess` callback, else it is the last such parameter |
| Registration.ProcessParametersOnError | forest-core/src/main/java/com/dtflys/forest/reflection/ForestMethod.java:240-247 | the error slot is absent iff no parameter is an `OnError` callback that is not also `OnSuccess`, else it is the last such parameter |
| Registration.SuccessSlotAt | forest-core/src/main/java/com/dtflys/forest/reflection/ForestMethod.java:240-244 | the last parameter typed `OnSuccess` is the one the success slot holds |
| Registration.ErrorSlotAt | forest-core/src/main/java/com/dtflys/forest/reflection/ForestMethod.java:240-247 | the last parameter typed `OnError` but not `OnSuccess` is the one the error slot holds |
| Registration.CheckInterceptors | forest-core/src/main/java/com/dtflys/forest/reflection/ForestMethod.java:121-132 | accepted iff every class implements `Interceptor` and is no interface; a rejection names the first offending class |
| Registration.NewForestMethod | forest-core/src/main/java/com/dtflys/forest/reflection/ForestMethod.java:105-222 | succeeds iff every global, interface and method interceptor class is valid, else fails on the first bad class in that order; on success the descriptor is `Describe` of the same inputs |
| Registration.Describe | forest-core/src/main/java/com/dtflys/forest/reflection/ForestMethod.java:105-222 | the parameters, named list, variables and callback slots are those of `ProcessParameters`; base templates exist iff the setting is not blank and keep its text; url, type, data type, encoding, content type, data and header templates keep their annotation texts; key store and async are copied; timeout and retry count are kept only when positive; logging is on if configuration or method enables it; the three interceptor lists are kept whole; every index is in range |
| Urls.QueryEntry | forest-core/src/main/java/com/dtflys/forest/reflection/ForestMethod.java:353-365 | a segment of '=' only fails; otherwise the name is the text before the first '=', and a value is present iff some '=' is followed later by another character, and then it is the text between the first and the second '=' |
| Urls.QueryEntriesOf | forest-core/src/main/java/com/dtflys/forest/reflection/ForestMethod.java:353-368 | succeeds iff no segment is '=' only, then gives one entry per segment in order; a failure names the first segment that is '=' only |
| Urls.QueryEntries | forest-core/src/main/java/com/dtflys/forest/reflection/ForestMethod.java:346-365 | an absent or empty query gives no entries; otherwise one query entry per '&'-segment, in order, or the failure naming the first '&'-segment that is '=' only |
| Urls.QueryRoundTrip | forest-core/src/main/java/com/dtflys/forest/reflection/ForestMethod.java:346-365 | name/value pairs written as a query come back exactly, in order, with a value just where the pair had one |
| Urls.RebuildUrl | forest-core/src/main/java/com/dtflys/forest/reflection/ForestMethod.java:371-380 | the rebuilt URL starts with `protocol://`, keeps host and path, and is exactly `protocol://host` + path when the port is 80 or absent |
| Urls.RebuildUrlRoundTrip | forest-core/src/main/java/com/dtflys/forest/reflection/ForestMethod.java:371-380 | reading the rebuilt URL back gives protocol, host, the port exactly when it is neither 80 nor absent, and the path |
| Entries.BuildBody | forest-core/src/main/java/com/dtflys/forest/reflection/ForestMethod.java:459-466 | the builder loop produces the fragments joined with exactly one '&' between consecutive ones |
| Entries.BodyOf | forest-core/src/main/java/com/dtflys/forest/reflection/ForestMethod.java:483-486 | the body is absent exactly when there is no fragment or a single empty one, else it is the joined fragments |
| Entries.BodyKeepsSegments | forest-core/src/main/java/com/dtflys/forest/reflection/ForestMethod.java:461-467 | splitting the body on '&' gives the segments of each fragment, fragment by fragment |
| Entries.DataEntry | forest-core/src/main/java/com/dtflys/forest/reflection/ForestMethod.java:468-479 | a segment of '=' only gives no entry; otherwise the name is the trimmed text before the first '='; a value is present iff the segment splits in exactly two pieces (some '=' followed by text, and none after the first '='), and it is the trimmed text between the first and the second '=' |
| Entries.DataEntryPadded | forest-core/src/main/java/com/dtflys/forest/reflection/ForestMethod.java:468-479 | `name=value` and a bare `name`, padded anywhere with trimmable characters, read back as exactly that name and value |
| Entries.SegmentEntries | forest-core/src/main/java/com/dtflys/forest/reflection/ForestMethod.java:467-481 | one entry at most per segment, each named by a trimmed name and none a query entry |
| Entries.SegmentEntriesAppend | forest-core/src/main/java/com/dtflys/forest/reflection/ForestMethod.java:467-481 | the segments of consecutive runs give their entries one run after the other, so entries keep segment order |
| Entries.DataEntries | forest-core/src/main/java/com/dtflys/forest/reflection/ForestMethod.java:460-481 | every data entry is named by a trimmed name and is not a query entry |
| Entries.DataEntriesAppend | forest-core/src/main/java/com/dtflys/forest/reflection/ForestMethod.java:460-481 | consecutive data templates give their entries one template after the other, in template order |
| Entries.SegmentEntriesAll | forest-core/src/main/java/com/dtflys/forest/reflection/ForestMethod.java:468-481 | segments that all give an entry give exactly one each, in order |
| Entries.DataRoundTrip | forest-core/src/main/java/com/dtflys/forest/reflection/ForestMethod.java:467-481 | name/value pairs written as a data fragment come back exactly, in order, with a value just where the pair had one |
| Entries.DataEntriesOne | forest-core/src/main/java/com/dtflys/forest/reflection/ForestMethod.java:465-481 | one data template gives exactly the entries of its own '&'-segments |
| Entries.DataOfOneFragment | forest-core/src/main/java/com/dtflys/forest/reflection/ForestMethod.java:465-481 | a single data template written from name/value pairs gives back one entry per pair, in order |
| Entries.DataSegmentWithTwoEquals | forest-core/src/main/java/com/dtflys/forest/reflection/ForestMethod.java:470-476 | `n=v=w` gives a data entry without value but a query entry with value `v` |
| Entries.BaseHeader | forest-core/src/main/java/com/dtflys/forest/reflection/ForestMethod.java:445-453 | a base header line is added exactly when some ':' is followed later by another character; its name is the trimmed text before the first ':' and its value the trimmed text between the first and the second ':' |
| Entries.MethodHeader | forest-core/src/main/java/com/dtflys/forest/reflection/ForestMethod.java:488-500 | a method header line is skipped exactly when it is ':' only; its name is the trimmed text before the first ':'; a value is present iff the line splits in exactly two pieces, and it is the trimmed text between the first and the second ':' |
| Entries.BaseHeaders | forest-core/src/main/java/com/dtflys/forest/reflection/ForestMethod.java:445-453 | one header at most per line, each named and carrying a value |
| Entries.BaseHeadersAppend | forest-core/src/main/java/com/dtflys/forest/reflection/ForestMethod.java:445-453 | consecutive runs of base header lines give their headers one run after the other, so headers keep line order |
| Entries.BaseHeadersAll | forest-core/src/main/java/com/dtflys/forest/reflection/ForestMethod.java:445-453 | lines that each have a ':' followed by text give exactly one header each, the k-th from the k-th line |
| Entries.MethodHeaders | forest-core/src/main/java/com/dtflys/forest/reflection/ForestMethod.java:488-500 | one header at most per line, each named |
| Entries.MethodHeadersAppend | forest-core/src/main/java/com/dtflys/forest/reflection/ForestMethod.java:488-500 | consecutive runs of method header lines give their headers one run after the other, so headers keep line order |
| Entries.MethodHeadersAll | forest-core/src/main/java/com/dtflys/forest/reflection/ForestMethod.java:488-500 | lines that are not ':' only give exactly one header each, the k-th from the k-th line |
| Entries.HeaderRoundTrip | forest-core/src/main/java/com/dtflys/forest/reflection/ForestMethod.java:445-500 | `name: value` with any padding reads back as exactly that name and value, both as base and as method header |
| Entries.HeaderWithColonInValue | forest-core/src/main/java/com/dtflys/forest/reflection/ForestMethod.java:445-500 | a value containing ':' is lost by a method header and cut at that ':' by a base header |
| Named.DoFilterAppend | forest-core/src/main/java/com/dtflys/forest/reflection/ForestMethod.java:300-308 | filters gathered from several annotations act as one chain applied after the other |
| Named.ObjectEntries | forest-core/src/main/java/com/dtflys/forest/reflection/ForestMethod.java:567-586 | object properties give named, non-null, non-query entries, never more than there are properties |
| Named.ObjectEntriesAppend | forest-core/src/main/java/com/dtflys/forest/reflection/ForestMethod.java:567-586 | properties are read in getter order: two runs of properties give the entries of the first run, then those of the second |
| Named.ObjectEntriesWithoutNulls | forest-core/src/main/java/com/dtflys/forest/reflection/ForestMethod.java:578-582 | without null properties each property gives exactly its entry, in order |
| Named.ObjectEntriesMembers | forest-core/src/main/java/com/dtflys/forest/reflection/ForestMethod.java:578-582 | an entry appears for a property exactly when the object has that property with a non-null value |
| Named.ParameterEntries | forest-core/src/main/java/com/dtflys/forest/reflection/ForestMethod.java:386-422 | fails iff a plain object parameter gets null; a non-null scalar gives its `String.valueOf` under its name, a null one nothing; a JSON object gives one entry under its JSON name holding the converter's text of the filtered argument, or "" for null; a filtered object gives one unnamed entry with the filtered argument; a plain object gives its object entries |
| Named.NamedEntries | forest-core/src/main/java/com/dtflys/forest/reflection/ForestMethod.java:386-422 | emission succeeds iff no named parameter is a plain object with a null argument |
| Named.NamedEntriesFirstFailure | forest-core/src/main/java/com/dtflys/forest/reflection/ForestMethod.java:403-412 | a failure names the argument index of the first failing named parameter |
| Named.NamedEntriesAppend | forest-core/src/main/java/com/dtflys/forest/reflection/ForestMethod.java:386-422 | entries follow the named list in order: a split list emits its first part then its second, and the first failure wins |
| Assembly.FirstPresent | forest-core/src/main/java/com/dtflys/forest/reflection/ForestMethod.java:503-517 | absent iff every setting is absent, else one of the settings |
| Assembly.FirstPresentIsFirst | forest-core/src/main/java/com/dtflys/forest/reflection/ForestMethod.java:503-517 | the chosen setting is the first present one |
| Assembly.ResolveEncoding | forest-core/src/main/java/com/dtflys/forest/reflection/ForestMethod.java:322-329 | the method's rendered encoding when it is non-empty, otherwise the interface's rendered encoding, absent when the interface sets none |
| Assembly.ResolveContentType | forest-core/src/main/java/com/dtflys/forest/reflection/ForestMethod.java:330-337 | falls back to the interface's when the method's is all trimmable, else it is the method's with only padding removed |
| Assembly.ResolveDataType | forest-core/src/main/java/com/dtflys/forest/reflection/ForestMethod.java:528-536 | empty gives TEXT; otherwise it succeeds iff the upper-cased rendering is a known constant, and then the result is exactly that upper-cased rendering; an unknown name is reported upper-cased |
| Assembly.DataTypeIgnoresCase | forest-core/src/main/java/com/dtflys/forest/reflection/ForestMethod.java:532-534 | two renderings equal up to ASCII case resolve alike |
| Assembly.MakeRequest | forest-core/src/main/java/com/dtflys/forest/reflection/ForestMethod.java:315-556 | errors in the order malformed URL, query, null object, data type; on success: data = defaults + query + named + data entries, headers = base + defaults + method, interceptors = global + interface + method, settings by precedence |
| Assembly.TimeoutAndRetryPrecedence | forest-core/src/main/java/com/dtflys/forest/reflection/ForestMethod.java:172-179 | from the annotation to the request: the method's timeout or retry count when positive, else the interface's, else the configuration's |
| Assembly.EncodingAndContentTypePrecedence | forest-core/src/main/java/com/dtflys/forest/reflection/ForestMethod.java:322-337 | from the annotation to the request: the method's encoding or trimmed content type when non-empty, else the interface's rendering when its setting is not blank, else none |
| Assembly.InterceptorOrder | forest-core/src/main/java/com/dtflys/forest/reflection/ForestMethod.java:538-554 | a request carries configuration, interface and method interceptors in that order, each list whole and all valid, and logs if either switch is on |
| Assembly.QueryInRequest | forest-core/src/main/java/com/dtflys/forest/reflection/ForestMethod.java:442-482 | right after the default parameters, the request data holds the URL's query pairs in order |
| Assembly.CallbacksInRequest | forest-core/src/main/java/com/dtflys/forest/reflection/ForestMethod.java:519-526 | end to end, the success callback is the argument of the last `OnSuccess` parameter and the error callback that of the last `OnError`-but-not-`OnSuccess` parameter, each absent iff there is no such parameter |
| Assembly.DataInRequest | forest-core/src/main/java/com/dtflys/forest/reflection/ForestMethod.java:460-482 | end to end, a data template that renders to name/value pairs puts one data entry per pair, in order, right after the default, query and named entries of the request |
| Examples.SplitCases | forest-core/src/main/java/com/dtflys/forest/reflection/ForestMethod.java:355 | `"".split` gives `[""]`, `"a="` gives `["a"]`, `"="` gives nothing, `"a=b=c"` three pieces |
| Examples.PortCases | forest-core/src/main/java/com/dtflys/forest/reflection/ForestMethod.java:374-380 | port 80 and -1 are dropped, port 8 is kept, an empty path is dropped |
| Examples.QueryCase | forest-core/src/main/java/com/dtflys/forest/reflection/ForestMethod.java:346-365 | `a=1&b` gives `a` with value `1` and `b` without value |
| Examples.QuerySegmentOfEqualsOnly | forest-core/src/main/java/com/dtflys/forest/reflection/ForestMethod.java:355-356 | a query `a=1&=` fails on the segment `=` |
| Examples.NullPropertySkipped | forest-core/src/main/java/com/dtflys/forest/reflection/ForestMethod.java:578-582 | a null property is skipped |
| Examples.NullJsonIsEmpty | forest-core/src/main/java/com/dtflys/forest/reflection/ForestMethod.java:390-398 | a null JSON argument is sent as "" |
| Examples.DataVariableAfterDataParam | forest-core/src/main/java/com/dtflys/forest/reflection/ForestMethod.java:259-283 | `@DataParam("a") @DataVariable` yields one named entry and one variable `a` |
| Examples.InterfaceRejected | forest-core/src/main/java/com/dtflys/forest/reflection/ForestMethod.java:121-128 | the first interface among the classes is the one reported |

## Left out

- Java reflection is not modelled: methods, parameters, annotation lookup, getter discovery. A parameter arrives as a `ParamDecl`. An object arrives as its list of readable properties. A `String` argument is taken to have no properties.
- Template compilation and rendering are not modelled. `Env.render` stands for rendering a template against the call's arguments. The same holds for rendering errors.
- `URLUtils.getValidURL` and `java.net.URL` are not modelled. `Env.resolveUrl` stands for both and answers `None` for a malformed URL.
- The JSON converter, the filter implementations, the interceptor factory and the SSL key-store lookup are opaque. They appear as `Env.toJson`, `Env.applyFilter`, the interceptor class itself, and the key-store id.
- `FilterChain` is not part of this model. Its filters are taken to run in the order they were added.
- `ForestDataType` is not part of this model. Its constant names are the set `Env.dataTypes`.
- `invoke`, `request.execute`, `MethodResponseHandler` and the backend are left out. They are execution and response handling.
- `getGenericClassOrType` and `onSuccessClassGenericType` are left out. They only matter for response decoding.
- The `System.out.println` loop over type variables is left out. It has no effect on the descriptor.
- The query `StringBuilder` in `makeRequest` is left out, because its result is never used.
- `ForestRequest` is not part of this model. Its setters become fields and its `add*` calls become appended sequences.
- A method without `@Request` is left out.
- `getVariable`, `getVariableValue` and the other accessors are left out.
- Reflection access errors while reading properties are left out.
- A cast failure of a callback argument is left out.
- Strings.ToUpperCase: only ASCII letters are upper-cased, not the full Unicode case mapping of `toUpperCase`.
- Strings.IsBlank: whitespace is `Character.isWhitespace` on the ASCII range only.
- A null string setting is modelled as "", and a null list as an empty one.
- Registration.NewForestMethod: does not model a failure of `configuration.newFilterInstance` (ForestMethod.java:304) for a filter name the configuration does not know. Filter names are kept as names and are taken to resolve, so parameter classification never fails.
- Registration.NewForestMethod: keeps the interceptor classes rather than the instances the factory makes of them.
