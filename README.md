# RequestSwift request and response core, in Dafny

This project models the deterministic core of RequestSwift, a Swift library
that builds an HTTP request from declarative components and wraps what comes
back in a `Response` value:

- `Request.swift`: the component kinds (`Header`, `HeaderCollection`,
  `Query`, `QueryCollection`, `Body`), the query string built from the direct
  `Query` components, `Request.init` with its `invalidURL` failure, the
  derived views `headers`, `queryItems` and `body`, the `urlRequest` that
  applies the headers one `setValue` at a time, `Method.value`, the
  components builder's `buildBlock`, and the decoding step of `~>`.
- `Response.swift`: the HTTP and transport-error initialisers of `Response`,
  and the generic `Dictionary.compactMap` extension. The HTTP initialiser
  passes it a closure (`StringField` here) that keeps only string-typed
  header fields.

Files: `wrappers.dfy` (Option, Result), `strings.dfy` (joining and splitting
at one character, as `joined(separator:)` and `components(separatedBy:)`
do), `utf8.dfy` (the UTF-8 encoding Foundation applies to a text body and
its decoder), `response.dfy` (module `Responses`), `request.dfy` (module
`Requests`).

Collaborators the library calls but does not define are parameters of the
model. `validUrl` stands for `URL(string:)` accepting a string. `jsonEncode`
stands for `JSONEncoder().encode` under `try?`, so None means it threw.
`decoder` stands for `JSONDecoder().decode`. A Swift dictionary is held as the
sequence of its entries in iteration order, because Swift does not fix that
order.

Two behaviours of the code are worth noting:
- `~>` passes the JSON decoder's own error on unchanged (`Request.swift:25`).
  Only a response without data becomes `unableToDecodeBody`. `DecodeBody`
  models this with `DecoderFailed`.
- `body` is nil when there is no `Body` component. It is also nil when the
  first `Body` is JSON and the encoder throws (`try?` at `Request.swift:75`).
  `BodyDataFirst` states both cases.

## Model

| member | source | states |
|---|---|---|
| `Requests.MethodFromRawValue` | Sources/RequestSwift/Request.swift:108-110 | `Method(rawValue:)` succeeds exactly for "GET" and "POST" |
| `Requests.MethodValue` | Sources/RequestSwift/Request.swift:108-113 | `value` is the raw value: parsing it back gives the same method, so GET and POST map to distinct strings |
| `Strings.Join` | Sources/RequestSwift/Request.swift:34 | joining non-empty parts gives the empty string exactly when there are no parts |
| `Strings.Split` | Tests/RequestSwiftTests/RequestTests.swift:34 | `components(separatedBy:)` gives at least one piece, and no piece contains the separator |
| `Strings.SplitOnce` | Sources/RequestSwift/Request.swift:33 | splitting at the first `=` finds a separator-free prefix and the rest, so the parts rebuild the input; None exactly when there is no separator |
| `Strings.JoinSplit` | Tests/RequestSwiftTests/RequestTests.swift:34 | joining the pieces of a split with the same separator rebuilds the string, so split and join are inverse both ways |
| `Strings.SplitJoin` | Sources/RequestSwift/Request.swift:32-34 | splitting at `&` undoes the `&`-join when no part contains `&` |
| `Strings.SplitOnceAt` | Sources/RequestSwift/Request.swift:33 | a `key=value` whose key has no `=` splits back into that key and value |
| `Utf8.EncodeScalar` | Sources/RequestSwift/Request.swift:77 | each character becomes one to four bytes, and exactly one byte for ASCII |
| `Utf8.Encode` | Sources/RequestSwift/Request.swift:77 | a text body has between one and four bytes per character |
| `Utf8.DecodeScalar` | Tests/RequestSwiftTests/RequestTests.swift:35 | a decoded scalar consumes one to four bytes, never more than are present |
| `Utf8.DecodeEncode` | Sources/RequestSwift/Request.swift:76-77 | reading the UTF-8 bytes of a text body back as a string gives the text again |
| `Utf8.Decode` | Tests/RequestSwiftTests/RequestTests.swift:43-46 | `Data.string`: never more characters than bytes, and the inverse of `Encode` (see `DecodeEncode`) |
| `Utf8.EncodeAscii` | Sources/RequestSwift/Request.swift:77 | an ASCII text body is its character codes, one byte each |
| `Requests.Pick` | Sources/RequestSwift/Request.swift:32 | `compactMap { $0 as? T }`: never more results than components; order and contents are stated by `PickAppend`, `PickCount` and the lemmas below that use it |
| `Requests.QueryString` | Sources/RequestSwift/Request.swift:31-35 | stated by `QueryStringRoundTrip`, `QueryStringEmpty` and `QueryStringIgnoresCollections` |
| `Requests.QueryStringRoundTrip` | Sources/RequestSwift/Request.swift:31-35 | the query string reads back as exactly the direct `Query` components in declaration order, when no key or value holds a URL delimiter (nothing is percent-encoded) |
| `Requests.QueryStringEmpty` | Sources/RequestSwift/Request.swift:31-35 | the query string is empty if and only if there is no direct `Query` component |
| `Requests.QueryStringIgnoresCollections` | Sources/RequestSwift/Request.swift:31-35 | inserting a `QueryCollection` anywhere leaves the query string unchanged, while `queryItems` grows by its entries |
| `Requests.Init` | Sources/RequestSwift/Request.swift:42-52 | construction succeeds if and only if base + `?` + query string is a valid URL, and otherwise fails with `invalidURL`; on success the URL is that string and the method and the components are kept as given |
| `Requests.InitUrl` | Sources/RequestSwift/Request.swift:46-49 | the URL starts with base + `?`, is exactly base + `?` when there is no direct query, and splits at `?` back to the base when the base has no `?` |
| `Requests.Collect` | Sources/RequestSwift/Request.swift:54-66 | the shared rule of `headers` and `queryItems`, stated by `CollectLength` and `CollectAppend` |
| `Requests.Headers` | Sources/RequestSwift/Request.swift:54-59 | stated by `HeadersLength`, `HeadersAppend` and `HeaderCollectionOverrides` |
| `Requests.QueryItems` | Sources/RequestSwift/Request.swift:61-66 | stated by `QueryItemsLength`, `QueryItemsAppend` and `QueryStringIgnoresCollections` |
| `Requests.CollectLength` | Sources/RequestSwift/Request.swift:54-66 | the shared rule of `headers`/`queryItems` yields one field per direct component plus every collection entry |
| `Requests.CollectAppend` | Sources/RequestSwift/Request.swift:54-66 | declaring one more component puts a direct field after earlier direct fields and before all collection entries, puts a collection's entries at the end, and leaves the result unchanged for other kinds |
| `Requests.HeadersLength` | Sources/RequestSwift/Request.swift:54-59 | `headers` has #`Header` plus the total size of the `HeaderCollection`s |
| `Requests.HeadersAppend` | Sources/RequestSwift/Request.swift:54-59 | direct headers come first in declaration order, followed by the entries of each collection in declaration order |
| `Requests.QueryItemsLength` | Sources/RequestSwift/Request.swift:61-66 | `queryItems` has #`Query` plus the total size of the `QueryCollection`s, so unlike the URL it includes collections |
| `Requests.QueryItemsAppend` | Sources/RequestSwift/Request.swift:61-66 | direct queries first in declaration order, then collection entries in declaration order |
| `Requests.Serialize` | Sources/RequestSwift/Request.swift:73-78 | a text body always serialises, to bytes that decode back to the text |
| `Requests.BodyData` | Sources/RequestSwift/Request.swift:68-79 | stated by `BodyDataFirst` and `BodyDataIgnoresLater` |
| `Requests.BodyDataFirst` | Sources/RequestSwift/Request.swift:68-79 | with no `Body` the body is nil; otherwise it is the serialisation of the first `Body` component, whatever follows |
| `Requests.BodyDataIgnoresLater` | Sources/RequestSwift/Request.swift:68-71 | once a `Body` is declared, appending more components, including more bodies, does not change the body |
| `Requests.SetValuesLastWins` | Sources/RequestSwift/Request.swift:84-86 | after the header fold a key is present if and only if some header has it, and its value is that of the last header with the key |
| `Requests.ToUrlRequest` | Sources/RequestSwift/Request.swift:81-89 | the wire request has the request's URL, the method's raw value, the header fields the fold of `headers` gives, and the request's body |
| `Requests.SetValues` | Sources/RequestSwift/Request.swift:84-86 | the `setValue` fold never has more fields than headers; what it holds is stated by `SetValuesLastWins` and `SetValuesAppend` |
| `Requests.SetValuesAppend` | Sources/RequestSwift/Request.swift:84-86 | applying two runs of headers in turn is the map union with the later run winning on shared keys |
| `Requests.HeaderCollectionOverrides` | Sources/RequestSwift/Request.swift:54-59 | whatever the declaration order, the wire fields are the direct headers' fold overridden by the collections' fold: a key any collection carries takes the collections' last value, and a direct header survives only for keys no collection carries |
| `Requests.CollectionBeforeHeader` | Sources/RequestSwift/Request.swift:54-59 | a collection declared before a direct header with the same key still wins on the wire |
| `Requests.BuildBlock` | Sources/RequestSwift/Request.swift:176-180 | appending the arguments one by one yields them in argument order |
| `Requests.DecodeBody` | Sources/RequestSwift/Request.swift:20-28 | a response without data fails with `unableToDecodeBody` (so a transport failure always does); otherwise it succeeds exactly when the decoder does, pairing the decoded value with the response, and a decoder error is passed on |
| `Requests.TestUrl` | Tests/RequestSwiftTests/RequestTests.swift:34 | the test request's URL, split at `?`, starts with `https://newcombe.io` |
| `Requests.RequestCreation` | Tests/RequestSwiftTests/RequestTests.swift:21-35 | the test request's wire form has header Test2 = Val2, the base before `?`, method POST, and a body that reads back as "Test" |
| `Responses.CompactMap` | Sources/RequestSwift/Response.swift:45-52 | the loop over the entries computes the fold that assigns each kept pair into a fresh dictionary |
| `Responses.CompactMapped` | Sources/RequestSwift/Response.swift:45-52 | the `reduce(into:)` fold, stated by `CompactMappedKeys`, `CompactMappedLastWins` and `CompactMappedSize` |
| `Responses.CompactMappedKeys` | Sources/RequestSwift/Response.swift:45-52 | a key is in the result if and only if the mapper sends some entry to it; entries mapped to nil contribute nothing |
| `Responses.CompactMappedLastWins` | Sources/RequestSwift/Response.swift:46-50 | when several entries map to one key, the one visited last decides its value |
| `Responses.CompactMappedSize` | Sources/RequestSwift/Response.swift:45-52 | the result never has more entries than the input |
| `Responses.StringField` | Sources/RequestSwift/Response.swift:22-27 | a header field is kept if and only if both its key and its value are strings |
| `Responses.FromHttp` | Sources/RequestSwift/Response.swift:20-30 | no error, the status is the status code, and the data is exactly the response data |
| `Responses.FromError` | Sources/RequestSwift/Response.swift:32-37 | status 0, no headers, no data, and the error is kept, which is the transport-failure shape |
| `Responses.HttpHeadersAreStringFields` | Sources/RequestSwift/Response.swift:22-27 | the response headers are exactly the string-to-string fields with their own values, and there are no more of them than there are fields |

## Left out

- `Executor.swift` is not part of this model. That covers `URLSessionExecutor.execute`, `noResponse`, `Request.execute` and `<~`. They are asynchronous network I/O over a platform client. Their result classification amounts to calling `Responses.FromError` or `Responses.FromHttp`, or throwing `noResponse`.
- `Requests.DecodeBody` starts from the `Response` that `~>` awaits; executing the request is network I/O (see above).
- JSON encoding and decoding are foreign library calls. They are the parameters `jsonEncode` and `decoder`, and the encodable value is an abstract type.
- `URL(string:)` is the parameter `validUrl`. Whatever normalisation `URL` applies to the string is not modelled; the request keeps the string that was checked.
- `Requests.SetValuesLastWins` compares header names exactly. `URLRequest.setValue` treats field names case-insensitively, and that transport behaviour is not modelled.
- Swift dictionary iteration order is unspecified. Collections and `allHeaderFields` are sequences of entries in whatever order the caller gives. The lemmas about collections hold for any entry sequence, including duplicate keys that a Swift dictionary cannot hold. Only `Responses.HttpHeadersAreStringFields` assumes distinct keys, as a dictionary has them.
- A `Body` holds the value its closure returns. The closure is pure, so calling it on each access is not modelled separately.
- `Request.init`'s default method `.get`: Dafny's `Requests.Init` takes the method explicitly.
- `RequestError.multipleBodiesFound` is declared but never raised, so it is only a constructor here.
- The `header(key:value:)`, `query(key:value:)` and `body(body:)` helpers on `RequestComponent` build components, which are the datatype constructors here.
- `HTTPURLResponse.allHeaderFields` values are bridged Objective-C objects. They are modelled only as string or not string (`Responses.Bridged`).
- `statusCode` is an unbounded integer; no arithmetic is done on it, so its width does not matter.
