/**
 * Moving the prepared `http::Request` into reqwest: its parts (method,
 * URI, headers, body) are copied into a `RequestBuilder`, the headers one
 * (name, value) pair at a time in iteration order.
 */
module Delivery {
  import opened Wrappers
  import opened Bytes
  import opened HttpHeaders

  /** What `req.into_parts()` yields, together with the body. */
  datatype RequestParts = RequestParts(verb: string, uri: string, headers: seq<Entry>, body: seq<byte>)

  /** The request handed to `send()`. */
  datatype Outgoing = Outgoing(verb: string, url: string, headers: seq<Entry>, body: seq<byte>)

  /** reqwest's `RequestBuilder`; each call of the source rebinds it, here it is updated. */
  class RequestBuilder {
    const verb: string
    const url: string
    var headers: seq<Entry>
    var body: Option<seq<byte>>

    ghost predicate Valid()
      reads this
    {
      ValidEntries(headers)
    }

    /** `client.request(method, url)`: no headers and no body yet. */
    constructor (verb: string, url: string)
      ensures Valid()
      ensures this.verb == verb && this.url == url && headers == [] && body == None
    {
      this.verb := verb;
      this.url := url;
      headers := [];
      body := None;
    }

    /** `req_builder.header(name, value)`, which appends. */
    method Header(h: Header)
      requires Valid()
      modifies this
      ensures Valid()
      ensures headers == AppendValue(old(headers), h.name, h.value) && body == old(body)
    {
      AppendValid(headers, h.name, h.value);
      headers := AppendValue(headers, h.name, h.value);
    }

    /** `req_builder.body(body)`. */
    method Body(b: seq<byte>)
      modifies this
      ensures body == Some(b) && headers == old(headers)
    {
      body := Some(b);
    }
  }

  /** One more pair appended, as one more turn of the copy loop does. */
  lemma AppendPrefixStep(p: seq<Header>, i: nat)
    requires i < |p|
    ensures AppendAll([], p[..i + 1]) == AppendValue(AppendAll([], p[..i]), p[i].name, p[i].value)
  {
    assert p[..i + 1] == p[..i] + [p[i]];
    AppendAllConcat([], p[..i], [p[i]]);
    assert [p[i]][1..] == [];
  }

  /** The whole of the iteration appended rebuilds the map. */
  lemma AppendPrefixDone(m: seq<Entry>)
    requires ValidEntries(m)
    ensures AppendAll([], Pairs(m)[..|Pairs(m)|]) == m
  {
    assert Pairs(m)[..|Pairs(m)|] == Pairs(m);
    RebuildFromPairs(m);
  }

  /**
   * src/main.rs:131-137: the builder ends up with the prepared request's
   * method, URI and body, and, having appended every header pair in
   * iteration order, with exactly the prepared request's header map.
   */
  method Transfer(parts: RequestParts) returns (b: RequestBuilder)
    requires ValidEntries(parts.headers)
    ensures fresh(b) && b.Valid()
    ensures b.verb == parts.verb && b.url == parts.uri && b.body == Some(parts.body)
    ensures b.headers == parts.headers
  {
    b := new RequestBuilder(parts.verb, parts.uri);
    var pairs := Pairs(parts.headers);
    for i := 0 to |pairs|
      invariant b.Valid() && b.body == None
      invariant b.headers == AppendAll([], pairs[..i])
    {
      AppendPrefixStep(pairs, i);
      b.Header(pairs[i]);
    }
    AppendPrefixDone(parts.headers);
    b.Body(parts.body);
  }
}
