/**
 * The records a tape holds (`ArchivedPayload`, `ArchivedRequest`, `ArchivedResponse`
 * of src/replay.ts), how a captured exchange becomes a record (`Archive`) and how a
 * record becomes a response again (`Hydrate`).
 */
module Tape {
  import opened Wrappers
  import Base64

  type byte = Base64.byte

  /**
   * A plain JavaScript object of string values, as `Object.entries` lists it:
   * key/value pairs in insertion order. A JavaScript object never repeats a key.
   */
  type Dict = seq<(string, string)>

  predicate DistinctKeys(d: Dict)
  {
    forall i, j :: 0 <= i < j < |d| ==> d[i].0 != d[j].0
  }

  /** The parts of a WHATWG `URL` that replay reads: origin, pathname and the query pairs. */
  datatype Url = Url(origin: string, pathname: string, search: seq<(string, string)>)

  /** A request body as the fetch options carry it: a byte buffer or a string. */
  datatype RequestBody = Bytes(bytes: seq<byte>) | Text(text: string)

  /** The fetch options a request is issued with; `body` is None when the option is absent. */
  datatype FetchConfig = FetchConfig(httpMethod: Option<string>, headers: Option<Dict>, body: Option<RequestBody>)

  /**
   * `config.body ? (config.body as Buffer).toString("base64") : null`. The empty string
   * is the one falsy body (a buffer, even an empty one, is an object and so truthy).
   * On a string the cast does nothing and `String.prototype.toString` ignores its
   * argument, so a string body is stored as it is.
   */
  function StoredRequestBody(body: Option<RequestBody>): (r: Option<string>)
    ensures r.None? <==> body.None? || body == Some(Text(""))
    ensures body.Some? && body.value.Bytes? ==> r.Some? && Base64.Decode(r.value) == Some(body.value.bytes)
    ensures body.Some? && body.value.Text? && body.value.text != "" ==> r == Some(body.value.text)
  {
    match body
    case None => None
    case Some(Bytes(bs)) => Base64.DecodeEncode(bs); Some(Base64.Encode(bs))
    case Some(Text(t)) => if t == "" then None else Some(t)
  }

  /** A response as the caller sees it: from the network when capturing, rebuilt when replaying. */
  datatype HttpResponse = HttpResponse(
    url: string, redirected: bool, status: int, statusText: string, headers: Dict, body: seq<byte>)

  datatype ArchivedRequest = ArchivedRequest(
    url: Url, httpMethod: Option<string>, headers: Option<Dict>, body: Option<string>, order: int)

  /** Bodies are kept as base64 text. */
  datatype ArchivedResponse = ArchivedResponse(
    url: string, redirected: bool, status: int, statusText: string, headers: Dict, body: string)

  datatype ArchivedPayload = ArchivedPayload(
    identifier: string, request: ArchivedRequest, response: ArchivedResponse, inflightMilliseconds: int)

  /**
   * The record that capture appends for one completed fetch: the request as issued,
   * the response as received, the response body base64-encoded and the request body
   * as `StoredRequestBody` stores it.
   */
  function Archive(identifier: string, url: Url, config: FetchConfig, fetched: HttpResponse,
                   order: int, inflightMilliseconds: int): (p: ArchivedPayload)
    ensures Base64.Decode(p.response.body) == Some(fetched.body)
  {
    Base64.DecodeEncode(fetched.body);
    ArchivedPayload(
      identifier,
      ArchivedRequest(url, config.httpMethod, config.headers, StoredRequestBody(config.body), order),
      ArchivedResponse(fetched.url, fetched.redirected, fetched.status, fetched.statusText,
                       fetched.headers, Base64.Encode(fetched.body)),
      inflightMilliseconds)
  }

  /**
   * The stored request body is null exactly when no body or the empty string was sent;
   * a buffer decodes back to the bytes sent, and a string is kept verbatim.
   */
  lemma {:induction false} ArchiveRequestBody(identifier: string, url: Url, config: FetchConfig, fetched: HttpResponse,
                           order: int, inflightMilliseconds: int)
    ensures var p := Archive(identifier, url, config, fetched, order, inflightMilliseconds);
            && (p.request.body.None? <==> config.body.None? || config.body == Some(Text("")))
            && (config.body.Some? && config.body.value.Bytes? ==>
                  Base64.Decode(p.request.body.value) == Some(config.body.value.bytes))
            && (config.body.Some? && config.body.value.Text? && config.body.value.text != "" ==>
                  p.request.body == Some(config.body.value.text))
  {
    var _ := StoredRequestBody(config.body);
  }

  predicate Decodable(p: ArchivedPayload)
  {
    Base64.Decode(p.response.body).Some?
  }

  /** The response rebuilt from a record: the stored fields and the decoded body. */
  function Hydrate(p: ArchivedPayload): (r: HttpResponse)
    requires Decodable(p)
    ensures Base64.Decode(p.response.body) == Some(r.body)
  {
    HttpResponse(p.response.url, p.response.redirected, p.response.status, p.response.statusText,
                 p.response.headers, Base64.Decode(p.response.body).value)
  }

  /** Replaying a captured exchange gives back exactly the response that was fetched. */
  lemma {:induction false} HydrateArchive(identifier: string, url: Url, config: FetchConfig, fetched: HttpResponse,
                       order: int, inflightMilliseconds: int)
    ensures var p := Archive(identifier, url, config, fetched, order, inflightMilliseconds);
            Decodable(p) && Hydrate(p) == fetched
  {
    var p := Archive(identifier, url, config, fetched, order, inflightMilliseconds);
    assert Base64.Decode(p.response.body) == Some(fetched.body);
  }

  /**
   * The record as `JSON.stringify` writes it. Response headers come from fetch as a
   * `Headers` object, which keeps its entries under a symbol key and has no own
   * enumerable properties, so they are written as `{}`.
   */
  function StoredAsWritten(p: ArchivedPayload): (q: ArchivedPayload)
    ensures q.identifier == p.identifier && q.request == p.request && q.inflightMilliseconds == p.inflightMilliseconds
    ensures q.response.body == p.response.body && q.response.headers == []
    ensures q.response == p.response.(headers := [])
    ensures Decodable(q) <==> Decodable(p)
  {
    p.(response := p.response.(headers := []))
  }

  /**
   * As written, a capture saved to a file and replayed from it comes back with no
   * headers: whenever the fetched response had any, the replayed one differs from it.
   */
  lemma {:induction false} StoredAsWrittenLosesHeaders(identifier: string, url: Url, config: FetchConfig,
                                                       fetched: HttpResponse, order: int, inflightMilliseconds: int)
    requires fetched.headers != []
    ensures var q := StoredAsWritten(Archive(identifier, url, config, fetched, order, inflightMilliseconds));
            Decodable(q) && Hydrate(q) == fetched.(headers := []) && Hydrate(q) != fetched
  {
    HydrateArchive(identifier, url, config, fetched, order, inflightMilliseconds);
  }

  function Identifiers(tape: seq<ArchivedPayload>): (ids: set<string>)
    ensures forall i :: 0 <= i < |tape| ==> tape[i].identifier in ids
    ensures forall id :: id in ids ==> exists i :: 0 <= i < |tape| && tape[i].identifier == id
  {
    set i | 0 <= i < |tape| :: tape[i].identifier
  }

  lemma {:induction false} IdentifiersGrow(tape: seq<ArchivedPayload>, p: ArchivedPayload)
    ensures Identifiers(tape + [p]) == Identifiers(tape) + {p.identifier}
  {
    var t := tape + [p];
    forall id | id in Identifiers(tape) ensures id in Identifiers(t) {
      var i :| 0 <= i < |tape| && tape[i].identifier == id;
      assert t[i] == tape[i];
    }
    assert t[|tape|] == p;
  }

  /** The identifiers of the first `k + 1` records: those of the first `k`, and record `k`'s. */
  lemma {:induction false} PrefixIdentifiersGrow(tape: seq<ArchivedPayload>, k: nat)
    requires k < |tape|
    ensures Identifiers(tape[..k + 1]) == Identifiers(tape[..k]) + {tape[k].identifier}
  {
    assert tape[..k + 1] == tape[..k] + [tape[k]];
    IdentifiersGrow(tape[..k], tape[k]);
  }

  /**
   * What every tape built by capture satisfies: `order` is the position in the tape,
   * identifiers are unique, and every stored response body is well-formed base64.
   */
  predicate WellFormedTape(tape: seq<ArchivedPayload>)
  {
    && (forall i :: 0 <= i < |tape| ==> tape[i].request.order == i)
    && (forall i, j :: 0 <= i < j < |tape| ==> tape[i].identifier != tape[j].identifier)
    && (forall i :: 0 <= i < |tape| ==> Decodable(tape[i]))
  }

  /** Appending a captured exchange keeps a tape well-formed. */
  lemma {:induction false} AppendWellFormed(tape: seq<ArchivedPayload>, identifier: string, url: Url, config: FetchConfig,
                         fetched: HttpResponse, inflightMilliseconds: int)
    requires WellFormedTape(tape)
    requires identifier !in Identifiers(tape)
    ensures WellFormedTape(tape + [Archive(identifier, url, config, fetched, |tape|, inflightMilliseconds)])
    ensures Identifiers(tape + [Archive(identifier, url, config, fetched, |tape|, inflightMilliseconds)])
         == Identifiers(tape) + {identifier}
  {
    var p := Archive(identifier, url, config, fetched, |tape|, inflightMilliseconds);
    HydrateArchive(identifier, url, config, fetched, |tape|, inflightMilliseconds);
    IdentifiersGrow(tape, p);
  }

  /** A replay session over a well-formed tape consumes only identifiers the tape holds. */
  predicate SessionInvariant(tape: seq<ArchivedPayload>, consumed: set<string>)
  {
    WellFormedTape(tape) && consumed <= Identifiers(tape)
  }

  /** Capture keeps the session invariant. */
  lemma {:induction false} AppendKeepsInvariant(tape: seq<ArchivedPayload>, consumed: set<string>, identifier: string,
                                                url: Url, config: FetchConfig, fetched: HttpResponse,
                                                inflightMilliseconds: int)
    requires SessionInvariant(tape, consumed)
    requires identifier !in Identifiers(tape)
    ensures SessionInvariant(tape + [Archive(identifier, url, config, fetched, |tape|, inflightMilliseconds)], consumed)
  {
    AppendWellFormed(tape, identifier, url, config, fetched, inflightMilliseconds);
  }
}
