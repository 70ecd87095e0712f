/**
 * Request.swift: a request assembled from components (headers, header
 * collections, query items, query collections, bodies), the URL built from
 * its direct query items when it is constructed, the views derived from
 * its components, the wire-level `URLRequest`, the components builder, and
 * decoding a response body into a value (`~>`).
 *
 * Collaborators that are not part of this model are parameters: URL parsing
 * (`validUrl`, true when `URL(string:)` accepts the string), JSON encoding
 * (`jsonEncode`, None when the encoder throws) and JSON decoding (`decoder`).
 */
module Requests {
  import opened Wrappers
  import opened Utf8
  import opened Strings
  import opened Responses

  // ----- data model -----

  datatype Method = Get | Post

  /** A value the JSON encoder accepts; its structure is not modelled. */
  type Encodable(==)

  datatype BodyType = Json(encodable: Encodable) | Text(text: string)

  /** A key and its value: a header field or a query item. */
  type Field = (string, string)

  /**
   * The component kinds. A collection is a Swift dictionary, held as its
   * entries in iteration order; a body is the value its closure returns.
   */
  datatype Component =
    | Header(key: string, value: string)
    | HeaderCollection(headers: seq<Field>)
    | Query(key: string, value: string)
    | QueryCollection(items: seq<Field>)
    | Body(body: BodyType)

  /** `multipleBodiesFound` is declared by the source but never raised. */
  datatype RequestError = MultipleBodiesFound | InvalidUrl | UnableToDecodeBody

  /** A constructed request; `url` is the string that `URL(string:)` accepted. */
  datatype Request = Request(url: string, requestMethod: Method, components: seq<Component>)

  /** The `URLRequest` handed to the transport. */
  datatype UrlRequest = UrlRequest(
    url: string,
    httpMethod: string,
    allHttpHeaderFields: map<string, string>,
    httpBody: Option<Bytes>)

  // ----- Method.value -----

  /** `Method(rawValue:)`, the inverse of `value`. */
  function MethodFromRawValue(s: string): (r: Option<Method>)
    ensures r.Some? <==> s == "GET" || s == "POST"
  {
    if s == "GET" then Some(Get) else if s == "POST" then Some(Post) else None
  }

  /** `Method.value`, the raw value sent as the HTTP method. */
  function MethodValue(m: Method): (s: string)
    ensures MethodFromRawValue(s) == Some(m)
  {
    match m
    case Get => "GET"
    case Post => "POST"
  }

  // ----- filtering components by kind (`compactMap { $0 as? T }`) -----

  function AsHeader(c: Component): Option<Field> {
    if c.Header? then Some((c.key, c.value)) else None
  }

  function AsHeaderCollection(c: Component): Option<seq<Field>> {
    if c.HeaderCollection? then Some(c.headers) else None
  }

  function AsQuery(c: Component): Option<Field> {
    if c.Query? then Some((c.key, c.value)) else None
  }

  function AsQueryCollection(c: Component): Option<seq<Field>> {
    if c.QueryCollection? then Some(c.items) else None
  }

  function AsBody(c: Component): Option<BodyType> {
    if c.Body? then Some(c.body) else None
  }

  /** `Array.compactMap`: what `cast` keeps, in order. */
  function Pick<T>(cs: seq<Component>, cast: Component -> Option<T>): (r: seq<T>)
    ensures |r| <= |cs|
  {
    if cs == [] then []
    else (match cast(cs[0]) case None => [] case Some(x) => [x]) + Pick(cs[1..], cast)
  }

  /** `joined()` on a sequence of sequences. */
  function Joined<T>(ss: seq<seq<T>>): seq<T> {
    if ss == [] then [] else ss[0] + Joined(ss[1..])
  }

  /** How many components `cast` keeps. */
  function Count<T>(cs: seq<Component>, cast: Component -> Option<T>): nat {
    if cs == [] then 0 else (if cast(cs[0]).Some? then 1 else 0) + Count(cs[1..], cast)
  }

  /** How many entries the collections that `bulk` keeps hold together. */
  function Size(cs: seq<Component>, bulk: Component -> Option<seq<Field>>): nat {
    if cs == [] then 0 else (if bulk(cs[0]).Some? then |bulk(cs[0]).value| else 0) + Size(cs[1..], bulk)
  }

  lemma {:induction false} PickAppend<T>(a: seq<Component>, b: seq<Component>, cast: Component -> Option<T>)
    ensures Pick(a + b, cast) == Pick(a, cast) + Pick(b, cast)
  {
    if a == [] {
      assert a + b == b;
    } else {
      assert (a + b)[1..] == a[1..] + b;
      PickAppend(a[1..], b, cast);
    }
  }

  lemma {:induction false} JoinedAppend<T>(x: seq<seq<T>>, y: seq<seq<T>>)
    ensures Joined(x + y) == Joined(x) + Joined(y)
  {
    if x == [] {
      assert x + y == y;
    } else {
      assert (x + y)[1..] == x[1..] + y;
      JoinedAppend(x[1..], y);
    }
  }

  lemma {:induction false} PickCount<T>(cs: seq<Component>, cast: Component -> Option<T>)
    ensures |Pick(cs, cast)| == Count(cs, cast)
  {
    if cs != [] {
      PickCount(cs[1..], cast);
    }
  }

  lemma {:induction false} JoinedSize(cs: seq<Component>, bulk: Component -> Option<seq<Field>>)
    ensures |Joined(Pick(cs, bulk))| == Size(cs, bulk)
  {
    if cs != [] {
      JoinedSize(cs[1..], bulk);
      var head := match bulk(cs[0]) case None => [] case Some(x) => [x];
      JoinedAppend(head, Pick(cs[1..], bulk));
    }
  }

  // ----- headers and queryItems -----

  /** The rule shared by `headers` and `queryItems`: direct fields, then the collections' entries. */
  function Collect(cs: seq<Component>, single: Component -> Option<Field>, bulk: Component -> Option<seq<Field>>): seq<Field> {
    Pick(cs, single) + Joined(Pick(cs, bulk))
  }

  /** `Request.headers`. */
  function Headers(cs: seq<Component>): seq<Field> {
    Collect(cs, AsHeader, AsHeaderCollection)
  }

  /** `Request.queryItems`. */
  function QueryItems(cs: seq<Component>): seq<Field> {
    Collect(cs, AsQuery, AsQueryCollection)
  }

  lemma CollectLength(cs: seq<Component>, single: Component -> Option<Field>, bulk: Component -> Option<seq<Field>>)
    ensures |Collect(cs, single, bulk)| == Count(cs, single) + Size(cs, bulk)
  {
    PickCount(cs, single);
    JoinedSize(cs, bulk);
  }

  /**
   * Declaring one more component: a direct field goes after the direct
   * fields declared before it and before every collection entry; a
   * collection's entries go at the very end; any other kind changes nothing.
   */
  lemma CollectAppend(cs: seq<Component>, c: Component, single: Component -> Option<Field>, bulk: Component -> Option<seq<Field>>)
    requires single(c).None? || bulk(c).None?
    ensures var before, n := Collect(cs, single, bulk), Count(cs, single);
      && n <= |before|
      && (single(c).Some? ==> Collect(cs + [c], single, bulk) == before[..n] + [single(c).value] + before[n..])
      && (bulk(c).Some? ==> Collect(cs + [c], single, bulk) == before + bulk(c).value)
      && (single(c).None? && bulk(c).None? ==> Collect(cs + [c], single, bulk) == before)
  {
    PickAppend(cs, [c], single);
    PickAppend(cs, [c], bulk);
    PickCount(cs, single);
    JoinedAppend(Pick(cs, bulk), Pick([c], bulk));
    var before := Collect(cs, single, bulk);
    var n := Count(cs, single);
    assert before[..n] == Pick(cs, single);
    assert before[n..] == Joined(Pick(cs, bulk));
    if bulk(c).Some? {
      assert Joined([bulk(c).value]) == bulk(c).value + Joined([]);
    }
  }

  /** `headers` holds one field per `Header` plus every entry of every `HeaderCollection`. */
  lemma HeadersLength(cs: seq<Component>)
    ensures |Headers(cs)| == Count(cs, AsHeader) + Size(cs, AsHeaderCollection)
  {
    CollectLength(cs, AsHeader, AsHeaderCollection);
  }

  /** The declaration-order rule of `headers`, one component at a time. */
  lemma HeadersAppend(cs: seq<Component>, c: Component)
    ensures var before, n := Headers(cs), Count(cs, AsHeader);
      && n <= |before|
      && (c.Header? ==> Headers(cs + [c]) == before[..n] + [(c.key, c.value)] + before[n..])
      && (c.HeaderCollection? ==> Headers(cs + [c]) == before + c.headers)
      && (!c.Header? && !c.HeaderCollection? ==> Headers(cs + [c]) == before)
  {
    CollectAppend(cs, c, AsHeader, AsHeaderCollection);
  }

  /** `queryItems` holds one item per `Query` plus every entry of every `QueryCollection`. */
  lemma QueryItemsLength(cs: seq<Component>)
    ensures |QueryItems(cs)| == Count(cs, AsQuery) + Size(cs, AsQueryCollection)
  {
    CollectLength(cs, AsQuery, AsQueryCollection);
  }

  /** The declaration-order rule of `queryItems`, one component at a time. */
  lemma QueryItemsAppend(cs: seq<Component>, c: Component)
    ensures var before, n := QueryItems(cs), Count(cs, AsQuery);
      && n <= |before|
      && (c.Query? ==> QueryItems(cs + [c]) == before[..n] + [(c.key, c.value)] + before[n..])
      && (c.QueryCollection? ==> QueryItems(cs + [c]) == before + c.items)
      && (!c.Query? && !c.QueryCollection? ==> QueryItems(cs + [c]) == before)
  {
    CollectAppend(cs, c, AsQuery, AsQueryCollection);
  }

  // ----- the query string and the URL -----

  /** One query item as it appears in the URL: `key=value`, nothing escaped. */
  function Render(q: Field): string {
    q.0 + "=" + q.1
  }

  /** `queryString(from:)`: the direct `Query` components rendered and joined with `&`. */
  function QueryString(cs: seq<Component>): string {
    var items := Pick(cs, AsQuery);
    Join(seq(|items|, i requires 0 <= i < |items| => Render(items[i])), '&')
  }

  /** The query items a query string spells: split at `&`, each piece at its first `=`. */
  function ParseQuery(qs: string): Option<seq<Field>> {
    if qs == [] then Some([]) else ParsePieces(Split(qs, '&'))
  }

  function ParsePieces(pieces: seq<string>): Option<seq<Field>> {
    if pieces == [] then Some([])
    else match (SplitOnce(pieces[0], '='), ParsePieces(pieces[1..]))
      case (Some(q), Some(rest)) => Some([q] + rest)
      case _ => None
  }

  /** A query item the URL carries unambiguously: no `&` anywhere, no `=` in the key. */
  predicate Unambiguous(key: string, value: string) {
    '&' !in key && '&' !in value && '=' !in key
  }

  lemma {:induction false} ParseRendered(items: seq<Field>)
    requires forall i :: 0 <= i < |items| ==> Unambiguous(items[i].0, items[i].1)
    ensures ParsePieces(seq(|items|, i requires 0 <= i < |items| => Render(items[i]))) == Some(items)
  {
    if items != [] {
      var pieces := seq(|items|, i requires 0 <= i < |items| => Render(items[i]));
      assert pieces[1..] == seq(|items[1..]|, i requires 0 <= i < |items[1..]| => Render(items[1..][i]));
      ParseRendered(items[1..]);
      SplitOnceAt(items[0].0, '=', items[0].1);
      assert [items[0]] + items[1..] == items;
    }
  }

  lemma {:induction false} PickQueries(cs: seq<Component>, i: nat)
    requires i < |Pick(cs, AsQuery)|
    ensures exists j :: 0 <= j < |cs| && cs[j] == Query(Pick(cs, AsQuery)[i].0, Pick(cs, AsQuery)[i].1)
  {
    var items := Pick(cs, AsQuery);
    if cs[0].Query? && i == 0 {
      assert cs[0] == Query(items[0].0, items[0].1);
    } else {
      var k := if cs[0].Query? then i - 1 else i;
      var rest := Pick(cs[1..], AsQuery);
      assert items[i] == rest[k];
      PickQueries(cs[1..], k);
      var j :| 0 <= j < |cs[1..]| && cs[1..][j] == Query(rest[k].0, rest[k].1);
      assert cs[j + 1] == cs[1..][j];
    }
  }

  /**
   * Reading the query string back gives exactly the direct `Query`
   * components, in declaration order, as long as none of them contains a
   * character the URL uses as a delimiter (nothing is percent-encoded).
   */
  lemma QueryStringRoundTrip(cs: seq<Component>)
    requires forall j :: 0 <= j < |cs| && cs[j].Query? ==> Unambiguous(cs[j].key, cs[j].value)
    ensures ParseQuery(QueryString(cs)) == Some(Pick(cs, AsQuery))
  {
    var items := Pick(cs, AsQuery);
    var pieces := seq(|items|, i requires 0 <= i < |items| => Render(items[i]));
    forall i | 0 <= i < |items| ensures Unambiguous(items[i].0, items[i].1) {
      PickQueries(cs, i);
    }
    ParseRendered(items);
    if items != [] {
      assert '=' in pieces[0];
      forall i | 0 <= i < |pieces| ensures '&' !in pieces[i] && pieces[i] != [] {
        assert pieces[i] == items[i].0 + "=" + items[i].1;
      }
      SplitJoin(pieces, '&');
    }
  }

  /** The query string is empty exactly when there is no direct `Query` component. */
  lemma QueryStringEmpty(cs: seq<Component>)
    ensures QueryString(cs) == [] <==> forall j :: 0 <= j < |cs| ==> !cs[j].Query?
  {
    var items := Pick(cs, AsQuery);
    var pieces := seq(|items|, i requires 0 <= i < |items| => Render(items[i]));
    forall i | 0 <= i < |pieces| ensures pieces[i] != [] {
      assert '=' in pieces[i];
    }
    PickCount(cs, AsQuery);
    CountZero(cs, AsQuery);
  }

  lemma {:induction false} CountZero<T>(cs: seq<Component>, cast: Component -> Option<T>)
    ensures Count(cs, cast) == 0 <==> forall j :: 0 <= j < |cs| ==> cast(cs[j]).None?
  {
    if cs != [] {
      CountZero(cs[1..], cast);
      if forall j :: 0 <= j < |cs[1..]| ==> cast(cs[1..][j]).None? {
        forall j | 1 <= j < |cs| ensures cast(cs[j]).None? {
          assert cs[j] == cs[1..][j - 1];
        }
      }
    }
  }

  /**
   * Query collections never reach the URL: inserting one anywhere leaves
   * the query string as it was, although `queryItems` grows by its entries.
   */
  lemma QueryStringIgnoresCollections(a: seq<Component>, items: seq<Field>, b: seq<Component>)
    ensures QueryString(a + [QueryCollection(items)] + b) == QueryString(a + b)
    ensures |QueryItems(a + [QueryCollection(items)] + b)| == |QueryItems(a + b)| + |items|
  {
    assert Pick([QueryCollection(items)], AsQuery) == [];
    PickAppend(a + [QueryCollection(items)], b, AsQuery);
    PickAppend(a, [QueryCollection(items)], AsQuery);
    PickAppend(a, b, AsQuery);
    assert Pick(a + [QueryCollection(items)] + b, AsQuery) == Pick(a + b, AsQuery);
    QueryItemsLength(a + [QueryCollection(items)] + b);
    QueryItemsLength(a + b);
    SizeAppend(a + [QueryCollection(items)], b, AsQueryCollection);
    SizeAppend(a, [QueryCollection(items)], AsQueryCollection);
    SizeAppend(a, b, AsQueryCollection);
    CountAppend(a + [QueryCollection(items)], b, AsQuery);
    CountAppend(a, [QueryCollection(items)], AsQuery);
    CountAppend(a, b, AsQuery);
  }

  lemma {:induction false} CountAppend<T>(a: seq<Component>, b: seq<Component>, cast: Component -> Option<T>)
    ensures Count(a + b, cast) == Count(a, cast) + Count(b, cast)
  {
    PickAppend(a, b, cast);
    PickCount(a + b, cast);
    PickCount(a, cast);
    PickCount(b, cast);
  }

  lemma {:induction false} SizeAppend(a: seq<Component>, b: seq<Component>, bulk: Component -> Option<seq<Field>>)
    ensures Size(a + b, bulk) == Size(a, bulk) + Size(b, bulk)
  {
    if a == [] {
      assert a + b == b;
    } else {
      assert (a + b)[1..] == a[1..] + b;
      SizeAppend(a[1..], b, bulk);
    }
  }

  // ----- Request.init -----

  /**
   * `Request.init(url:method:_:)`: the URL is the base, a `?` and the query
   * string, and construction fails with `invalidURL` when that string does
   * not parse.
   */
  function Init(url: string, requestMethod: Method, components: seq<Component>, validUrl: string -> bool)
    : (r: Result<Request, RequestError>)
    ensures r.Success? <==> validUrl(url + "?" + QueryString(components))
    ensures r.Failure? ==> r.error == InvalidUrl
    ensures r.Success? ==> r.value.url == url + "?" + QueryString(components)
    ensures r.Success? ==> r.value.requestMethod == requestMethod && r.value.components == components
  {
    var full := url + "?" + QueryString(components);
    if validUrl(full) then Success(Request(full, requestMethod, components)) else Failure(InvalidUrl)
  }

  /**
   * The URL of a constructed request starts with the base and a `?`, is
   * exactly that when there is no direct query, and (for a base without a
   * `?`) its first `?`-separated component is the base again.
   */
  lemma InitUrl(url: string, m: Method, cs: seq<Component>, validUrl: string -> bool)
    requires Init(url, m, cs, validUrl).Success?
    ensures var u := Init(url, m, cs, validUrl).value.url;
      && |u| > |url|
      && u[..|url| + 1] == url + "?"
      && ((forall j :: 0 <= j < |cs| ==> !cs[j].Query?) ==> u == url + "?")
      && ('?' !in url ==> Split(u, '?')[0] == url)
  {
    var u := Init(url, m, cs, validUrl).value.url;
    assert u == url + ['?'] + QueryString(cs);
    QueryStringEmpty(cs);
    if '?' !in url {
      SplitAfter(url, '?', QueryString(cs));
    }
  }

  // ----- Request.body -----

  /** Serialising one body: JSON through the encoder (nil when it throws), text as UTF-8. */
  function Serialize(b: BodyType, jsonEncode: Encodable -> Option<Bytes>): (r: Option<Bytes>)
    ensures b.Text? ==> r.Some? && Decode(r.value) == Some(b.text)
  {
    match b
    case Json(e) => jsonEncode(e)
    case Text(t) => DecodeEncode(t); Some(Encode(t))
  }

  /** `Request.body`: the serialisation of the first `Body` component, nil when there is none. */
  function BodyData(cs: seq<Component>, jsonEncode: Encodable -> Option<Bytes>): Option<Bytes> {
    var bodies := Pick(cs, AsBody);
    if bodies == [] then None else Serialize(bodies[0], jsonEncode)
  }

  /**
   * The body comes from the first `Body` component and from nothing else:
   * with no `Body` it is nil, otherwise it is that component's serialisation.
   */
  lemma {:induction false} BodyDataFirst(cs: seq<Component>, jsonEncode: Encodable -> Option<Bytes>)
    ensures (forall j :: 0 <= j < |cs| ==> !cs[j].Body?) ==> BodyData(cs, jsonEncode).None?
    ensures forall i :: 0 <= i < |cs| && cs[i].Body? && (forall j :: 0 <= j < i ==> !cs[j].Body?) ==>
      BodyData(cs, jsonEncode) == Serialize(cs[i].body, jsonEncode)
  {
    if cs != [] {
      BodyDataFirst(cs[1..], jsonEncode);
      forall i | 0 <= i < |cs| && cs[i].Body? && (forall j :: 0 <= j < i ==> !cs[j].Body?)
        ensures BodyData(cs, jsonEncode) == Serialize(cs[i].body, jsonEncode)
      {
        if i > 0 {
          assert cs[1..][i - 1] == cs[i];
          forall j | 0 <= j < i - 1 ensures !cs[1..][j].Body? {
            assert cs[1..][j] == cs[j + 1];
          }
        }
      }
      if forall j :: 0 <= j < |cs| ==> !cs[j].Body? {
        assert forall j :: 0 <= j < |cs[1..]| ==> cs[1..][j] == cs[j + 1];
      }
    }
  }

  /** Declaring more components after a `Body` never changes the body. */
  lemma BodyDataIgnoresLater(cs: seq<Component>, more: seq<Component>, jsonEncode: Encodable -> Option<Bytes>)
    requires exists j :: 0 <= j < |cs| && cs[j].Body?
    ensures BodyData(cs + more, jsonEncode) == BodyData(cs, jsonEncode)
  {
    PickAppend(cs, more, AsBody);
    CountZero(cs, AsBody);
    PickCount(cs, AsBody);
  }

  // ----- Request.urlRequest -----

  /** Successive `setValue(_:forHTTPHeaderField:)` calls, starting from no fields. */
  function SetValues(fields: seq<Field>): (r: map<string, string>)
    ensures |r| <= |fields|
  {
    if fields == [] then map[]
    else SetValues(fields[..|fields| - 1])[fields[|fields| - 1].0 := fields[|fields| - 1].1]
  }

  /**
   * After the header fold a key is present exactly when some header has it,
   * and its value is the one of the last header with that key.
   */
  lemma {:induction false} SetValuesLastWins(fields: seq<Field>)
    ensures forall k :: k in SetValues(fields) <==> exists i :: 0 <= i < |fields| && fields[i].0 == k
    ensures forall i :: 0 <= i < |fields| && (forall j :: i < j < |fields| ==> fields[j].0 != fields[i].0) ==>
      fields[i].0 in SetValues(fields) && SetValues(fields)[fields[i].0] == fields[i].1
  {
    if fields != [] {
      var init := fields[..|fields| - 1];
      SetValuesLastWins(init);
      assert forall i :: 0 <= i < |init| ==> init[i] == fields[i];
    }
  }

  /** `Request.urlRequest`: URL, method, the headers set one after another, and the body. */
  method ToUrlRequest(r: Request, jsonEncode: Encodable -> Option<Bytes>) returns (w: UrlRequest)
    ensures w.url == r.url && w.httpMethod == MethodValue(r.requestMethod)
    ensures w.allHttpHeaderFields == SetValues(Headers(r.components))
    ensures w.httpBody == BodyData(r.components, jsonEncode)
  {
    w := UrlRequest(r.url, "GET", map[], None);
    w := w.(httpMethod := MethodValue(r.requestMethod));
    var headers := Headers(r.components);
    var i := 0;
    while i < |headers|
      invariant 0 <= i <= |headers|
      invariant w.url == r.url && w.httpMethod == MethodValue(r.requestMethod)
      invariant w.allHttpHeaderFields == SetValues(headers[..i])
    {
      assert headers[..i + 1][..i] == headers[..i];
      w := w.(allHttpHeaderFields := w.allHttpHeaderFields[headers[i].0 := headers[i].1]);
      i := i + 1;
    }
    assert headers[..i] == headers;
    w := w.(httpBody := BodyData(r.components, jsonEncode));
  }

  /** Applying two runs of headers one after the other: the later run wins on shared keys. */
  lemma {:induction false} SetValuesAppend(a: seq<Field>, b: seq<Field>)
    ensures SetValues(a + b) == SetValues(a) + SetValues(b)
  {
    if b == [] {
      assert a + b == a;
    } else {
      var init, last := b[..|b| - 1], b[|b| - 1];
      assert (a + b)[..|a + b| - 1] == a + init;
      assert (a + b)[|a + b| - 1] == last;
      SetValuesAppend(a, init);
    }
  }

  /**
   * On the wire, whatever the declaration order, the header collections'
   * fields override the direct headers: `headers` lists every collection
   * entry after every direct header, so a key that any collection carries
   * ends with the collections' last value for it, and a direct header
   * survives only for keys no collection carries.
   */
  lemma HeaderCollectionOverrides(cs: seq<Component>)
    ensures var direct, collected := SetValues(Pick(cs, AsHeader)), SetValues(Joined(Pick(cs, AsHeaderCollection)));
      && SetValues(Headers(cs)) == direct + collected
      && (forall k :: k in collected ==> k in SetValues(Headers(cs)) && SetValues(Headers(cs))[k] == collected[k])
      && (forall k :: k !in collected && k in direct ==> k in SetValues(Headers(cs)) && SetValues(Headers(cs))[k] == direct[k])
  {
    SetValuesAppend(Pick(cs, AsHeader), Joined(Pick(cs, AsHeaderCollection)));
  }

  /** The example of a collection declared before a direct header with the same key: the collection wins. */
  lemma CollectionBeforeHeader()
    ensures var wire := SetValues(Headers([HeaderCollection([("A", "1")]), Header("A", "2")]));
      "A" in wire && wire["A"] == "1"
  {
    HeaderCollectionOverrides([HeaderCollection([("A", "1")]), Header("A", "2")]);
    assert Joined(Pick([HeaderCollection([("A", "1")]), Header("A", "2")], AsHeaderCollection)) == [("A", "1")];
    assert SetValues([("A", "1")]) == map["A" := "1"];
  }

  // ----- ComponentsBuilder.buildBlock -----

  /** `buildBlock`: the components appended one by one to an empty array, in argument order. */
  method BuildBlock(components: seq<Component>) returns (built: seq<Component>)
    ensures built == components
  {
    built := [];
    var i := 0;
    while i < |components|
      invariant 0 <= i <= |components|
      invariant built == components[..i]
    {
      built := built + [components[i]];
      i := i + 1;
    }
  }

  // ----- decoding a response (`~>`) -----

  datatype Parsed<T> = Parsed(body: T, response: Response)

  /** What `~>` throws: `unableToDecodeBody` for a missing body, or the decoder's own error. */
  datatype DecodeFailure<E> = RequestFailed(error: RequestError) | DecoderFailed(cause: E)

  /**
   * `~>` once the response is in: no data fails with `unableToDecodeBody`;
   * otherwise the decoder decides, and its error is passed on unchanged.
   */
  function DecodeBody<T, E>(response: Response, decoder: Bytes -> Result<T, E>): (r: Result<Parsed<T>, DecodeFailure<E>>)
    ensures response.data.None? <==> r == Failure(RequestFailed(UnableToDecodeBody))
    ensures r.Success? <==> response.data.Some? && decoder(response.data.value).Success?
    ensures r.Success? ==> r.value == Parsed(decoder(response.data.value).value, response)
    ensures response.data.Some? && decoder(response.data.value).Failure? ==>
      r == Failure(DecoderFailed(decoder(response.data.value).error))
    ensures Consistent(response) && response.error.Some? ==> r == Failure(RequestFailed(UnableToDecodeBody))
  {
    match response.data
    case None => Failure(RequestFailed(UnableToDecodeBody))
    case Some(data) =>
      match decoder(data)
      case Failure(e) => Failure(DecoderFailed(e))
      case Success(body) => Success(Parsed(body, response))
  }

  // ----- the request the repository's test builds -----

  /**
   * The test's request: POST to https://newcombe.io with a `Test2: Val2`
   * header, a `test3=val3` query and a text body "Test". Its wire form
   * carries the header, a URL whose part before `?` is the base, and a
   * body that reads back as "Test".
   */
  method RequestCreation(validUrl: string -> bool, jsonEncode: Encodable -> Option<Bytes>) returns (w: UrlRequest)
    requires validUrl("https://newcombe.io?test3=val3")
    ensures "Test2" in w.allHttpHeaderFields && w.allHttpHeaderFields["Test2"] == "Val2"
    ensures Split(w.url, '?')[0] == "https://newcombe.io"
    ensures w.httpMethod == "POST"
    ensures w.httpBody.Some? && Decode(w.httpBody.value) == Some("Test")
  {
    var components := BuildBlock(TestComponents());
    TestComponentsViews();
    var request := Init("https://newcombe.io", Post, components, validUrl);
    TestUrl(validUrl);
    w := ToUrlRequest(request.value, jsonEncode);
    assert SetValues([("Test2", "Val2")]) == map["Test2" := "Val2"];
    assert w.httpBody == Serialize(Text("Test"), jsonEncode);
  }

  lemma TestUrl(validUrl: string -> bool)
    requires validUrl("https://newcombe.io?test3=val3")
    ensures Init("https://newcombe.io", Post, TestComponents(), validUrl).Success?
    ensures Split(Init("https://newcombe.io", Post, TestComponents(), validUrl).value.url, '?')[0] == "https://newcombe.io"
  {
    TestComponentsViews();
    var base := "https://newcombe.io";
    assert forall i :: 0 <= i < |base| ==> base[i] != '?';
    InitUrl(base, Post, TestComponents(), validUrl);
  }

  function TestComponents(): seq<Component> {
    [Header("Test2", "Val2"), Query("test3", "val3"), Body(Text("Test"))]
  }

  lemma TestComponentsViews()
    ensures "https://newcombe.io" + "?" + QueryString(TestComponents()) == "https://newcombe.io?test3=val3"
    ensures Headers(TestComponents()) == [("Test2", "Val2")]
    ensures Pick(TestComponents(), AsBody) == [Text("Test")]
  {
  }
}
