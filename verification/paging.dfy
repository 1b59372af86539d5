/**
 * The request/reply protocol shared by the HubSpot client calls.
 *
 * A HubSpot endpoint is modelled as a deterministic server: a total function
 * from the request the client sends (the offset in the URL, or a JSON request
 * body) to the reply it gets back. A reply keeps apart every way the Go client
 * can fail, so that the order in which it checks them (round trip, body read,
 * status, JSON decoding) is part of the model.
 *
 * The list endpoints are offset-paginated: a decoded page carries its results,
 * a `hasMore` flag and the offset to ask for next. `Walk` is the sequence of
 * calls such a client makes when it follows the server's offsets until a
 * reply does not ask to continue.
 */
module Paging {

  datatype Option<+T> = None | Some(value: T)

  /** Why a call to HubSpot failed. */
  datatype HubError =
    | TransportFailed         // http.Client.Do returned an error
    | BodyUnreadable          // reading the response body failed
    | BadStatus(status: int)  // any HTTP status other than 200 OK
    | Undecodable             // the body is not the JSON record the client expects
    | MorePagesUnsupported    // a single-page read met a page reporting more results

  datatype Result<+T> = Ok(value: T) | Err(error: HubError)

  const StatusOK: int := 200

  /** The body of an HTTP response, once read and decoded (or not). */
  datatype Body<+P> = Unreadable | Malformed | Decoded(record: P)

  /** What one HTTP call returns: nothing at all, or a status and a body. */
  datatype Reply<+P> = NoResponse | Response(status: int, body: Body<P>)

  /** A decoded page of a paginated list endpoint. */
  datatype Page<+O, +T> = Page(results: seq<T>, hasMore: bool, offset: O)

  /** One call of a walk: the request sent and the reply received. */
  datatype Step<+Q, +P> = Step(request: Q, reply: Reply<P>)

  function Last<T>(s: seq<T>): T
    requires |s| > 0
  {
    s[|s| - 1]
  }

  /**
   * The outcome of one reply when the client reads the body, then checks the
   * status, then decodes: the order of FindCompanies, GetCompany, FindDeal and
   * AddDeal. Only a 200 OK whose body decodes is a success.
   */
  function Receive<P>(r: Reply<P>): (res: Result<P>)
    ensures res.Ok? <==> r.Response? && r.status == StatusOK && r.body.Decoded?
    ensures res.Ok? ==> res.value == r.body.record
    ensures r.Response? && r.status != StatusOK && !r.body.Unreadable? ==> res == Err(BadStatus(r.status))
  {
    match r
    case NoResponse => Err(TransportFailed)
    case Response(status, body) =>
      if body.Unreadable? then Err(BodyUnreadable)
      else if status != StatusOK then Err(BadStatus(status))
      else if body.Malformed? then Err(Undecodable)
      else Ok(body.record)
  }

  /** A reply that makes a paginating client ask for another page. */
  predicate Continues<O, T>(r: Reply<Page<O, T>>) {
    Receive(r).Ok? && Receive(r).value.hasMore
  }

  /** The error a walk ended with, if its last reply was not a good page. */
  function FinalError<Q, P>(trace: seq<Step<Q, P>>): (e: Option<HubError>)
    requires |trace| > 0
    ensures e.None? <==> Receive(Last(trace).reply).Ok?
  {
    match Receive(Last(trace).reply)
    case Ok(_) => None
    case Err(err) => Some(err)
  }

  /**
   * The calls made by a client that sends `q`, and after every reply that
   * continues sends `advance(q, offset)` with the offset that reply gave,
   * for at most `fuel` calls.
   */
  function Walk<Q, O, T>(serve: Q -> Reply<Page<O, T>>, advance: (Q, O) -> Q, q: Q, fuel: nat)
    : seq<Step<Q, Page<O, T>>>
    decreases fuel
  {
    if fuel == 0 then []
    else
      var r := serve(q);
      if Continues(r) then [Step(q, r)] + Walk(serve, advance, advance(q, r.body.record.offset), fuel - 1)
      else [Step(q, r)]
  }

  /** The walk from `q` reaches a reply that does not continue within `fuel` calls. */
  predicate Ends<Q, O, T>(serve: Q -> Reply<Page<O, T>>, advance: (Q, O) -> Q, q: Q, fuel: nat)
    decreases fuel
  {
    fuel > 0 &&
    (Continues(serve(q)) ==> Ends(serve, advance, advance(q, serve(q).body.record.offset), fuel - 1))
  }

  /** A list endpoint whose URL carries an offset is next asked for the offset the previous page returned. */
  function FollowOffset(requested: int, offset: int): int {
    offset
  }

  /** The decoded pages of a trace, in the order they were received. */
  function Pages<Q, O, T>(trace: seq<Step<Q, Page<O, T>>>): seq<Page<O, T>>
  {
    if trace == [] then []
    else
      var r := Last(trace).reply;
      Pages(trace[..|trace| - 1]) + (if Receive(r).Ok? then [r.body.record] else [])
  }

  /** Every result of a sequence of pages, in page order and in order within a page. */
  function AllResults<O, T>(pages: seq<Page<O, T>>): seq<T>
  {
    if pages == [] then [] else AllResults(pages[..|pages| - 1]) + Last(pages).results
  }

  /**
   * The pagination protocol, stated on a finished sequence of calls: it starts
   * with request `q`, every reply is the server's answer to its request, every
   * call but the last got a 200 OK page with `hasMore` set and the next request
   * is built from that page's offset, and the last call got a reply that stops.
   */
  ghost predicate FollowsOffsets<Q, O, T>(w: seq<Step<Q, Page<O, T>>>, serve: Q -> Reply<Page<O, T>>, advance: (Q, O) -> Q, q: Q)
  {
    && |w| > 0
    && w[0].request == q
    && (forall i :: 0 <= i < |w| ==> w[i].reply == serve(w[i].request))
    && (forall i :: 0 <= i < |w| - 1 ==> Continues(w[i].reply))
    && (forall i :: 0 <= i < |w| - 1 ==> w[i + 1].request == advance(w[i].request, w[i].reply.body.record.offset))
    && !Continues(Last(w).reply)
  }

  /** A walk that ends follows the pagination protocol, in at most `fuel` calls. */
  lemma {:induction false} WalkFollowsOffsets<Q, O, T>(serve: Q -> Reply<Page<O, T>>, advance: (Q, O) -> Q, q: Q, fuel: nat)
    requires Ends(serve, advance, q, fuel)
    ensures |Walk(serve, advance, q, fuel)| <= fuel
    ensures FollowsOffsets(Walk(serve, advance, q, fuel), serve, advance, q)
    decreases fuel
  {
    var r := serve(q);
    if Continues(r) {
      var next := advance(q, r.body.record.offset);
      WalkFollowsOffsets(serve, advance, next, fuel - 1);
      var rest := Walk(serve, advance, next, fuel - 1);
      var w := Walk(serve, advance, q, fuel);
      assert w == [Step(q, r)] + rest;
      forall i | 0 <= i < |w| - 1
        ensures Continues(w[i].reply) && w[i + 1].request == advance(w[i].request, w[i].reply.body.record.offset)
      {
        if i > 0 {
          assert w[i] == rest[i - 1] && w[i + 1] == rest[i];
        }
      }
    }
  }

  /**
   * The call at position `k` of a walk that ends: the server's answer to its
   * request, the last call exactly when that answer does not continue, and
   * otherwise followed by the request built from the answer's offset.
   */
  lemma WalkCallAt<Q, O, T>(serve: Q -> Reply<Page<O, T>>, advance: (Q, O) -> Q, q: Q, fuel: nat, k: nat)
    requires Ends(serve, advance, q, fuel)
    requires k < |Walk(serve, advance, q, fuel)|
    ensures var w := Walk(serve, advance, q, fuel);
      && w[k].reply == serve(w[k].request)
      && (Continues(w[k].reply) <==> k < |w| - 1)
      && (k < |w| - 1 ==> w[k + 1].request == advance(w[k].request, w[k].reply.body.record.offset))
  {
    WalkFollowsOffsets(serve, advance, q, fuel);
  }

  /**
   * One more call of a walk in progress: after the calls `trace`, the client
   * sends `request`, the next request of the walk. The calls so far then are
   * still a prefix of the walk, and they are the whole walk exactly when the
   * reply does not continue; otherwise the next request is built from the
   * reply's offset.
   */
  lemma WalkStep<Q, O, T>(serve: Q -> Reply<Page<O, T>>, advance: (Q, O) -> Q, q: Q, fuel: nat,
                          trace: seq<Step<Q, Page<O, T>>>, request: Q)
    requires Ends(serve, advance, q, fuel)
    requires var w := Walk(serve, advance, q, fuel);
      |trace| < |w| && trace == w[..|trace|] && w[|trace|].request == request
    ensures var w := Walk(serve, advance, q, fuel);
      var next := trace + [Step(request, serve(request))];
      && |next| <= |w|
      && next == w[..|next|]
      && next[..|trace|] == trace
      && (Continues(serve(request)) <==> |next| < |w|)
      && (Continues(serve(request)) ==> w[|next|].request == advance(request, serve(request).body.record.offset))
      && (!Continues(serve(request)) ==> next == w)
  {
    var w := Walk(serve, advance, q, fuel);
    var next := trace + [Step(request, serve(request))];
    WalkCallAt(serve, advance, q, fuel, |trace|);
    assert next == w[..|next|];
    assert next[..|trace|] == trace;
    assert w[..|w|] == w;
  }

  /** A walk that ends makes at least one call, and its first call sends the request it starts from. */
  lemma WalkStarts<Q, O, T>(serve: Q -> Reply<Page<O, T>>, advance: (Q, O) -> Q, q: Q, fuel: nat)
    requires Ends(serve, advance, q, fuel)
    ensures 0 < |Walk(serve, advance, q, fuel)| && Walk(serve, advance, q, fuel)[0].request == q
  {
  }

  /** Once a walk has ended, more fuel does not change it: the server alone decides the calls. */
  lemma {:induction false} WalkIgnoresSpareFuel<Q, O, T>(serve: Q -> Reply<Page<O, T>>, advance: (Q, O) -> Q, q: Q, fuel: nat, more: nat)
    requires Ends(serve, advance, q, fuel)
    requires fuel <= more
    ensures Ends(serve, advance, q, more)
    ensures Walk(serve, advance, q, more) == Walk(serve, advance, q, fuel)
    decreases fuel
  {
    var r := serve(q);
    if Continues(r) {
      WalkIgnoresSpareFuel(serve, advance, advance(q, r.body.record.offset), fuel - 1, more - 1);
    }
  }

  /** A failed call adds no page; a good one adds exactly its page. */
  lemma PagesSnoc<Q, O, T>(trace: seq<Step<Q, Page<O, T>>>, s: Step<Q, Page<O, T>>)
    ensures Pages(trace + [s]) == Pages(trace) + (if Receive(s.reply).Ok? then [s.reply.body.record] else [])
  {
    assert (trace + [s])[..|trace|] == trace;
  }

  lemma {:induction false} PagesAppend<Q, O, T>(a: seq<Step<Q, Page<O, T>>>, b: seq<Step<Q, Page<O, T>>>)
    ensures Pages(a + b) == Pages(a) + Pages(b)
    decreases |b|
  {
    if b == [] {
      assert a + b == a;
    } else {
      var init := b[..|b| - 1];
      assert a + b == (a + init) + [Last(b)];
      assert b == init + [Last(b)];
      PagesSnoc(a + init, Last(b));
      PagesSnoc(init, Last(b));
      PagesAppend(a, init);
    }
  }

  lemma AllResultsSnoc<O, T>(pages: seq<Page<O, T>>, p: Page<O, T>)
    ensures AllResults(pages + [p]) == AllResults(pages) + p.results
  {
    assert (pages + [p])[..|pages|] == pages;
  }

  /** Results of consecutive runs of pages are the concatenation of their results. */
  lemma {:induction false} AllResultsAppend<O, T>(a: seq<Page<O, T>>, b: seq<Page<O, T>>)
    ensures AllResults(a + b) == AllResults(a) + AllResults(b)
    decreases |b|
  {
    if b == [] {
      assert a + b == a;
    } else {
      var init := b[..|b| - 1];
      assert a + b == (a + init) + [Last(b)];
      assert b == init + [Last(b)];
      AllResultsSnoc(a + init, Last(b));
      AllResultsSnoc(init, Last(b));
      AllResultsAppend(a, init);
    }
  }

  /** The results seen over a trace that is extended by more calls start with the results seen so far. */
  lemma TraceResultsAppend<Q, O, T>(a: seq<Step<Q, Page<O, T>>>, b: seq<Step<Q, Page<O, T>>>)
    ensures AllResults(Pages(a + b)) == AllResults(Pages(a)) + AllResults(Pages(b))
  {
    PagesAppend(a, b);
    AllResultsAppend(Pages(a), Pages(b));
  }

  /** The results seen over a prefix of a trace are where the results of the whole trace start. */
  lemma TracePrefixResults<Q, O, T>(trace: seq<Step<Q, Page<O, T>>>, w: seq<Step<Q, Page<O, T>>>)
    requires |trace| <= |w| && w[..|trace|] == trace
    ensures AllResults(Pages(w)) == AllResults(Pages(trace)) + AllResults(Pages(w[|trace|..]))
  {
    SplitAt(w, |trace|);
    TraceResultsAppend(w[..|trace|], w[|trace|..]);
  }

  /** A sequence is its prefix of length `k` followed by the rest. */
  lemma SplitAt<X>(s: seq<X>, k: nat)
    requires k <= |s|
    ensures s[..k] + s[k..] == s
  {
  }

  /** A call that succeeds adds its page's results to those seen so far. */
  lemma TraceResultsSnoc<Q, O, T>(before: seq<Step<Q, Page<O, T>>>, step: Step<Q, Page<O, T>>)
    requires Receive(step.reply).Ok?
    ensures AllResults(Pages(before + [step])) == AllResults(Pages(before)) + step.reply.body.record.results
  {
    PagesSnoc(before, step);
    AllResultsSnoc(Pages(before), step.reply.body.record);
  }
}
