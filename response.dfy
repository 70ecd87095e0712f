/**
 * Response.swift: the immutable result of executing a request, built by one
 * of two initialisers, and the `Dictionary.compactMap` extension the HTTP
 * initialiser uses to keep only the string-typed header fields.
 *
 * A Swift dictionary is visited in an order the language does not specify;
 * here a dictionary being iterated is the sequence of its entries in that
 * visiting order, with distinct keys.
 */
module Responses {
  import opened Wrappers
  import opened Utf8

  /** An Objective-C object bridged into `Any`: either a string or something else. */
  datatype Bridged = StringObject(text: string) | OtherObject(description: string)

  /** The part of `HTTPURLResponse` the initialiser reads. */
  datatype HttpUrlResponse = HttpUrlResponse(statusCode: int, allHeaderFields: seq<(Bridged, Bridged)>)

  /** The transport's `Error`. */
  datatype TransportError = TransportError(description: string)

  datatype Response = Response(
    status: int,
    headers: map<string, string>,
    error: Option<TransportError>,
    data: Option<Bytes>)

  /**
   * The shape every response has: a transport failure carries status 0,
   * no headers and no data; otherwise there is no error.
   */
  predicate Consistent(r: Response) {
    r.error.Some? ==> r.status == 0 && r.headers == map[] && r.data.None?
  }

  // ----- Dictionary.compactMap -----

  /**
   * What `reduce(into: [:])` computes: the entries visited in order, each
   * one the mapper keeps assigned into the result, so a later assignment to
   * the same key replaces an earlier one.
   */
  function CompactMapped<K, V, K2(==), V2>(entries: seq<(K, V)>, mapper: (K, V) -> Option<(K2, V2)>): map<K2, V2>
  {
    if entries == [] then map[]
    else
      var last := entries[|entries| - 1];
      var before := CompactMapped(entries[..|entries| - 1], mapper);
      match mapper(last.0, last.1)
      case None => before
      case Some(kv) => before[kv.0 := kv.1]
  }

  /** `Dictionary.compactMap`: one pass over the entries, inserting into a fresh dictionary. */
  method CompactMap<K, V, K2(==), V2>(entries: seq<(K, V)>, mapper: (K, V) -> Option<(K2, V2)>)
    returns (result: map<K2, V2>)
    ensures result == CompactMapped(entries, mapper)
  {
    result := map[];
    var i := 0;
    while i < |entries|
      invariant 0 <= i <= |entries|
      invariant result == CompactMapped(entries[..i], mapper)
    {
      assert entries[..i + 1][..i] == entries[..i];
      var next := entries[i];
      match mapper(next.0, next.1) {
        case None =>
        case Some(kv) => result := result[kv.0 := kv.1];
      }
      i := i + 1;
    }
    assert entries[..i] == entries;
  }

  /** A key is in the result exactly when the mapper sends some entry to that key. */
  lemma {:induction false} CompactMappedKeys<K, V, K2, V2>(entries: seq<(K, V)>, mapper: (K, V) -> Option<(K2, V2)>, k: K2)
    ensures k in CompactMapped(entries, mapper) <==>
      exists i :: 0 <= i < |entries| && MapsTo(mapper, entries[i], k)
  {
    if entries != [] {
      var init := entries[..|entries| - 1];
      CompactMappedKeys(init, mapper, k);
      if exists i :: 0 <= i < |init| && MapsTo(mapper, init[i], k) {
        var i :| 0 <= i < |init| && MapsTo(mapper, init[i], k);
        assert entries[i] == init[i];
      }
      if exists i :: 0 <= i < |entries| && MapsTo(mapper, entries[i], k) {
        var i :| 0 <= i < |entries| && MapsTo(mapper, entries[i], k);
        if i < |init| {
          assert init[i] == entries[i];
        }
      }
    }
  }

  /** The mapper keeps `entry` and sends it to key `k`. */
  ghost predicate MapsTo<K, V, K2, V2>(mapper: (K, V) -> Option<(K2, V2)>, entry: (K, V), k: K2) {
    mapper(entry.0, entry.1).Some? && mapper(entry.0, entry.1).value.0 == k
  }

  /**
   * The last entry visited that the mapper sends to key `k` decides the
   * value of `k`: entries mapped to nil or to other keys afterwards do not
   * disturb it.
   */
  lemma {:induction false} CompactMappedLastWins<K, V, K2, V2>(entries: seq<(K, V)>, mapper: (K, V) -> Option<(K2, V2)>, i: nat)
    requires i < |entries|
    requires mapper(entries[i].0, entries[i].1).Some?
    requires forall j :: i < j < |entries| ==> !MapsTo(mapper, entries[j], mapper(entries[i].0, entries[i].1).value.0)
    ensures var kv := mapper(entries[i].0, entries[i].1).value;
      kv.0 in CompactMapped(entries, mapper) && CompactMapped(entries, mapper)[kv.0] == kv.1
  {
    var init := entries[..|entries| - 1];
    if i < |init| {
      assert init[i] == entries[i];
      forall j | i < j < |init| ensures !MapsTo(mapper, init[j], mapper(init[i].0, init[i].1).value.0) {
        assert init[j] == entries[j];
      }
      CompactMappedLastWins(init, mapper, i);
    }
  }

  /** The result never has more entries than were visited. */
  lemma {:induction false} CompactMappedSize<K, V, K2, V2>(entries: seq<(K, V)>, mapper: (K, V) -> Option<(K2, V2)>)
    ensures |CompactMapped(entries, mapper)| <= |entries|
  {
    if entries != [] {
      CompactMappedSize(entries[..|entries| - 1], mapper);
    }
  }

  // ----- the two initialisers -----

  /** The mapper the HTTP initialiser passes: keep a field only when key and value are both strings. */
  function StringField(key: Bridged, value: Bridged): (r: Option<(string, string)>)
    ensures r.Some? <==> key.StringObject? && value.StringObject?
    ensures r.Some? ==> r.value == (key.text, value.text)
  {
    if key.StringObject? && value.StringObject? then Some((key.text, value.text)) else None
  }

  /** `Response(from: httpResponse, responseData:)`. */
  function FromHttp(response: HttpUrlResponse, responseData: Option<Bytes>): (r: Response)
    ensures r.error.None? && r.status == response.statusCode && r.data == responseData
    ensures Consistent(r)
  {
    Response(response.statusCode, CompactMapped(response.allHeaderFields, StringField), None, responseData)
  }

  /** `Response(from: error)`: a transport failure surfaces as a value, not as a thrown error. */
  function FromError(error: TransportError): (r: Response)
    ensures r.status == 0 && r.headers == map[] && r.data.None? && r.error == Some(error)
    ensures Consistent(r)
  {
    Response(0, map[], Some(error), None)
  }

  /**
   * The headers of an HTTP response hold exactly its string-to-string
   * fields: every key comes from a field whose key and value are strings,
   * and (the bridged keys being distinct) every such field is there with
   * its own value. Fields of any other type are dropped.
   */
  lemma HttpHeadersAreStringFields(response: HttpUrlResponse, responseData: Option<Bytes>)
    requires forall i, j :: 0 <= i < j < |response.allHeaderFields| ==>
      response.allHeaderFields[i].0 != response.allHeaderFields[j].0
    ensures var headers := FromHttp(response, responseData).headers;
      && (forall k :: k in headers <==>
            exists i :: 0 <= i < |response.allHeaderFields| && response.allHeaderFields[i].0 == StringObject(k)
                        && response.allHeaderFields[i].1.StringObject?)
      && (forall i :: 0 <= i < |response.allHeaderFields| && response.allHeaderFields[i].0.StringObject?
                        && response.allHeaderFields[i].1.StringObject? ==>
            headers[response.allHeaderFields[i].0.text] == response.allHeaderFields[i].1.text)
      && |headers| <= |response.allHeaderFields|
  {
    var fields := response.allHeaderFields;
    var headers := FromHttp(response, responseData).headers;
    forall k ensures k in headers <==>
      exists i :: 0 <= i < |fields| && fields[i].0 == StringObject(k) && fields[i].1.StringObject?
    {
      CompactMappedKeys(fields, StringField, k);
    }
    forall i | 0 <= i < |fields| && fields[i].0.StringObject? && fields[i].1.StringObject?
      ensures headers[fields[i].0.text] == fields[i].1.text
    {
      CompactMappedLastWins(fields, StringField, i);
    }
    CompactMappedSize(fields, StringField);
  }
}
