/**
 * The deal calls of the HubSpot client: finding the deal that witnesses that
 * a company was already contacted in a pipeline, over the paged deal list,
 * and creating a deal for a company and one of its contacts.
 */
module Deals {
  import opened Paging
  import opened Companies

  /** A deal as the client hands it to its callers. */
  datatype Deal = Deal(dealID: int, name: string, pipeline: string)

  /** The companies and contacts a deal is associated with. */
  datatype DealAssociations = DealAssociations(companyIDs: seq<int>, contactIDs: seq<int>)

  /** One deal in a page of the deal list, with its `dealname` and `pipeline` properties unwrapped. */
  datatype DealResult = DealResult(dealID: int, associations: DealAssociations, name: string, pipeline: string)

  /** A contact; only its id takes part in the deal calls. */
  datatype Contact = Contact(contactID: int)

  /** A named property of a record sent to HubSpot. */
  datatype Property = Property(name: string, value: string)

  /** The JSON body AddDeal posts. */
  datatype AddDealRequest = AddDealRequest(associations: DealAssociations, properties: seq<Property>)

  /** The decoded reply to AddDeal. */
  datatype AddDealResult = AddDealResult(dealID: int)

  /** `ids` lists `id`, found by scanning `ids` from the front. */
  predicate Lists(ids: seq<int>, id: int) {
    ids != [] && (ids[0] == id || Lists(ids[1..], id))
  }

  /** Scanning for an id finds it exactly when it is one of the ids. */
  lemma {:induction false} ListsIsMembership(ids: seq<int>, id: int)
    ensures Lists(ids, id) <==> id in ids
    decreases |ids|
  {
    if ids != [] {
      ListsIsMembership(ids[1..], id);
      assert ids == [ids[0]] + ids[1..];
    }
  }

  /** The deal is in `pipeline` and associated with the company `companyID`. */
  predicate IsDealFor(d: DealResult, companyID: int, pipeline: string) {
    d.pipeline == pipeline && Lists(d.associations.companyIDs, companyID)
  }

  /** The first deal of `ds`, in order, that is in `pipeline` and associated with `companyID`. */
  function FirstDealFor(ds: seq<DealResult>, companyID: int, pipeline: string): Option<DealResult> {
    if ds == [] then None
    else if IsDealFor(ds[0], companyID, pipeline) then Some(ds[0])
    else FirstDealFor(ds[1..], companyID, pipeline)
  }

  /**
   * FirstDealFor finds nothing exactly when no deal matches, and otherwise a
   * matching deal with no matching deal before it.
   */
  lemma {:induction false} FirstDealForSpec(ds: seq<DealResult>, companyID: int, pipeline: string)
    ensures FirstDealFor(ds, companyID, pipeline).None? <==> forall d :: d in ds ==> !IsDealFor(d, companyID, pipeline)
    ensures FirstDealFor(ds, companyID, pipeline).Some? ==>
      exists k :: 0 <= k < |ds| && ds[k] == FirstDealFor(ds, companyID, pipeline).value && IsDealFor(ds[k], companyID, pipeline) &&
                  forall j :: 0 <= j < k ==> !IsDealFor(ds[j], companyID, pipeline)
    decreases |ds|
  {
    if ds != [] && !IsDealFor(ds[0], companyID, pipeline) {
      var rest := ds[1..];
      FirstDealForSpec(rest, companyID, pipeline);
      assert forall d :: d in ds ==> d == ds[0] || d in rest;
      if FirstDealFor(rest, companyID, pipeline).Some? {
        var k :| 0 <= k < |rest| && rest[k] == FirstDealFor(rest, companyID, pipeline).value && IsDealFor(rest[k], companyID, pipeline) &&
                 forall j :: 0 <= j < k ==> !IsDealFor(rest[j], companyID, pipeline);
        assert ds[k + 1] == rest[k];
        assert forall j :: 1 <= j < k + 1 ==> ds[j] == rest[j - 1];
      }
    }
  }

  /** A match in an earlier run of deals hides every later one. */
  lemma {:induction false} FirstDealForAppend(a: seq<DealResult>, b: seq<DealResult>, companyID: int, pipeline: string)
    ensures FirstDealFor(a + b, companyID, pipeline)
         == if FirstDealFor(a, companyID, pipeline).Some? then FirstDealFor(a, companyID, pipeline)
            else FirstDealFor(b, companyID, pipeline)
    decreases |a|
  {
    if a == [] {
      assert a + b == b;
    } else {
      assert (a + b)[0] == a[0] && (a + b)[1..] == a[1..] + b;
      FirstDealForAppend(a[1..], b, companyID, pipeline);
    }
  }

  /** A matching deal with no matching one before it is the first match. */
  lemma {:induction false} FirstDealForAt(ds: seq<DealResult>, i: nat, companyID: int, pipeline: string)
    requires i < |ds| && IsDealFor(ds[i], companyID, pipeline)
    requires forall j :: 0 <= j < i ==> !IsDealFor(ds[j], companyID, pipeline)
    ensures FirstDealFor(ds, companyID, pipeline) == Some(ds[i])
    decreases i
  {
    if i > 0 {
      FirstDealForAt(ds[1..], i - 1, companyID, pipeline);
    }
  }

  /**
   * A page holding a match, with no match in the pages before it, holds the
   * first match of the whole walk that page belongs to.
   */
  lemma FirstDealInPage(before: seq<Step<int, Page<int, DealResult>>>, step: Step<int, Page<int, DealResult>>,
                        w: seq<Step<int, Page<int, DealResult>>>, companyID: int, pipeline: string)
    requires Receive(step.reply).Ok?
    requires FirstDealFor(step.reply.body.record.results, companyID, pipeline).Some?
    requires FirstDealFor(AllResults(Pages(before)), companyID, pipeline).None?
    requires |before| < |w| && w[..|before| + 1] == before + [step]
    ensures FirstDealFor(AllResults(Pages(before + [step])), companyID, pipeline) == FirstDealFor(step.reply.body.record.results, companyID, pipeline)
    ensures FirstDealFor(AllResults(Pages(w)), companyID, pipeline) == FirstDealFor(step.reply.body.record.results, companyID, pipeline)
  {
    var results := step.reply.body.record.results;
    var trace := before + [step];
    assert FirstDealFor(AllResults(Pages(trace)), companyID, pipeline) == FirstDealFor(results, companyID, pipeline) by {
      TraceResultsSnoc(before, step);
      FirstDealForAppend(AllResults(Pages(before)), results, companyID, pipeline);
    }
    TracePrefixResults(trace, w);
    FirstDealForAppend(AllResults(Pages(trace)), AllResults(Pages(w[|trace|..])), companyID, pipeline);
  }

  /** The deal FindDeal hands back for a matching element: id, name and pipeline copied. */
  function DealOf(d: DealResult): Deal {
    Deal(d.dealID, d.name, d.pipeline)
  }

  /**
   * The deal FindDeal reports is never one of another pipeline, and it is
   * associated with the company: it is DealOf the first match, which is in
   * `pipeline` and lists `companyID`.
   */
  lemma FoundDealIsInPipeline(ds: seq<DealResult>, companyID: int, pipeline: string)
    ensures FirstDealFor(ds, companyID, pipeline).Some? ==>
      && DealOf(FirstDealFor(ds, companyID, pipeline).value).pipeline == pipeline
      && companyID in FirstDealFor(ds, companyID, pipeline).value.associations.companyIDs
  {
    FirstDealForSpec(ds, companyID, pipeline);
    if FirstDealFor(ds, companyID, pipeline).Some? {
      ListsIsMembership(FirstDealFor(ds, companyID, pipeline).value.associations.companyIDs, companyID);
    }
  }

  /**
   * Scans one page of deals in order, skipping those of another pipeline and
   * looking through each remaining deal's associated companies. Returns the
   * position of the first deal in `pipeline` associated with `companyID`, or
   * `|ds|` when the page holds none.
   */
  method MatchingDeal(ds: seq<DealResult>, companyID: int, pipeline: string) returns (i: nat)
    ensures i <= |ds|
    ensures i < |ds| ==> IsDealFor(ds[i], companyID, pipeline) && FirstDealFor(ds, companyID, pipeline) == Some(ds[i])
    ensures i == |ds| ==> FirstDealFor(ds, companyID, pipeline).None?
  {
    i := 0;
    while i < |ds|
      invariant i <= |ds|
      invariant forall j :: 0 <= j < i ==> !IsDealFor(ds[j], companyID, pipeline)
    {
      var dealResult := ds[i];
      if dealResult.pipeline != pipeline {
        i := i + 1;
        continue;
      }
      var ids := dealResult.associations.companyIDs;
      var n := 0;
      while n < |ids|
        invariant 0 <= n <= |ids|
        invariant companyID !in ids[..n]
      {
        if ids[n] == companyID {
          ListsIsMembership(ids, companyID);
          FirstDealForAt(ds, i, companyID, pipeline);
          return;
        }
        assert ids[..n + 1] == ids[..n] + [ids[n]];
        n := n + 1;
      }
      assert ids[..n] == ids;
      ListsIsMembership(ids, companyID);
      i := i + 1;
    }
    FirstDealForSpec(ds, companyID, pipeline);
  }

  /**
   * Walks the paged deal list from offset 0 and returns the first deal, in
   * page order, that is in `pipeline` and associated with `companyID`. It asks
   * for no page after the one holding the match. Without a match it returns
   * no deal, and the error of the call that stopped the walk if that call
   * failed; a failed call never yields a deal.
   */
  method FindDeal(serve: int -> Reply<Page<int, DealResult>>, companyID: int, pipeline: string, ghost bound: nat)
    returns (deal: Result<Option<Deal>>, ghost trace: seq<Step<int, Page<int, DealResult>>>)
    requires Ends(serve, FollowOffset, 0, bound)
    ensures var w := Walk(serve, FollowOffset, 0, bound);
      && 0 < |trace| <= |w|
      && trace == w[..|trace|]
      && (|trace| < |w| ==> FirstDealFor(AllResults(Pages(trace)), companyID, pipeline).Some?)
      && FirstDealFor(AllResults(Pages(trace[..|trace| - 1])), companyID, pipeline).None?
    ensures var w := Walk(serve, FollowOffset, 0, bound);
      deal == match FirstDealFor(AllResults(Pages(w)), companyID, pipeline)
                 case Some(d) => Ok(Some(DealOf(d)))
                 case None => if FinalError(w).Some? then Err(FinalError(w).value) else Ok(None)
  {
    ghost var w := Walk(serve, FollowOffset, 0, bound);
    WalkStarts(serve, FollowOffset, 0, bound);
    var offset := 0;
    trace := [];
    while true
      invariant |trace| < |w| && trace == w[..|trace|] && w[|trace|].request == offset
      invariant FirstDealFor(AllResults(Pages(trace)), companyID, pipeline).None?
      decreases |w| - |trace|
    {
      var reply := serve(offset);
      ghost var step := Step(offset, reply);
      ghost var before := trace;
      WalkStep(serve, FollowOffset, 0, bound, trace, offset);
      trace := trace + [step];
      var received := Receive(reply);
      if received.Err? {
        assert Pages(trace) == Pages(before) by {
          PagesSnoc(before, step);
        }
        deal := Err(received.error);
        return;
      }
      var page := received.value;
      var i := MatchingDeal(page.results, companyID, pipeline);
      if i < |page.results| {
        FirstDealInPage(before, step, w, companyID, pipeline);
        deal := Ok(Some(DealOf(page.results[i])));
        return;
      }
      assert FirstDealFor(AllResults(Pages(trace)), companyID, pipeline).None? by {
        TraceResultsSnoc(before, step);
        FirstDealForAppend(AllResults(Pages(before)), page.results, companyID, pipeline);
      }
      if !page.hasMore {
        deal := Ok(None);
        return;
      }
      offset := page.offset;
    }
  }

  /** The value of the first property called `name`, or the empty string when there is none. */
  function PropertyValue(properties: seq<Property>, name: string): string {
    if properties == [] then ""
    else if properties[0].name == name then properties[0].value
    else PropertyValue(properties[1..], name)
  }

  /**
   * The request AddDeal posts: associated with exactly the company and the
   * contact, and carrying the deal name, the pipeline and the stage, in that order.
   */
  function NewDealRequest(company: Company, contact: Contact, pipeline: string, dealstage: string): (req: AddDealRequest)
    ensures req.associations.companyIDs == [company.companyID]
    ensures req.associations.contactIDs == [contact.contactID]
    ensures |req.properties| == 3
    ensures req.properties[0].name == "dealname" && req.properties[1].name == "pipeline" && req.properties[2].name == "dealstage"
    ensures PropertyValue(req.properties, "dealname") == company.name
    ensures PropertyValue(req.properties, "pipeline") == pipeline
    ensures PropertyValue(req.properties, "dealstage") == dealstage
  {
    var properties := [Property("dealname", company.name), Property("pipeline", pipeline), Property("dealstage", dealstage)];
    assert "dealname"[4] != "dealstage"[4] && "pipeline"[0] != "dealstage"[0];
    assert properties[1..][1..] == [Property("dealstage", dealstage)];
    assert PropertyValue(properties[1..][1..], "dealstage") == dealstage;
    assert PropertyValue(properties[1..], "dealstage") == dealstage;
    AddDealRequest(DealAssociations([company.companyID], [contact.contactID]), properties)
  }

  /**
   * Posts NewDealRequest and, on a 200 OK whose body decodes, returns the deal
   * with the id HubSpot assigned (whatever it is), the company's name and the
   * pipeline. Any other reply yields an error and no deal.
   */
  function AddDeal(serve: AddDealRequest -> Reply<AddDealResult>, company: Company, contact: Contact,
                   pipeline: string, dealstage: string): (deal: Result<Deal>)
    ensures var reply := serve(NewDealRequest(company, contact, pipeline, dealstage));
      deal.Ok? <==> reply.Response? && reply.status == StatusOK && reply.body.Decoded?
    ensures var reply := serve(NewDealRequest(company, contact, pipeline, dealstage));
      deal.Ok? ==> deal.value == Deal(reply.body.record.dealID, company.name, pipeline)
    ensures var reply := serve(NewDealRequest(company, contact, pipeline, dealstage));
      reply.Response? && reply.status != StatusOK && !reply.body.Unreadable? ==> deal == Err(BadStatus(reply.status))
  {
    match Receive(serve(NewDealRequest(company, contact, pipeline, dealstage)))
    case Ok(result) => Ok(Deal(result.dealID, company.name, pipeline))
    case Err(e) => Err(e)
  }

  /** How the deal list shows a deal created from `req` and given the id `dealID`. */
  function Listed(req: AddDealRequest, dealID: int): DealResult {
    DealResult(dealID, req.associations, PropertyValue(req.properties, "dealname"), PropertyValue(req.properties, "pipeline"))
  }

  /**
   * A deal created by AddDeal is an idempotency witness: once the deal list
   * shows it, FindDeal over that list finds a deal for the company in the
   * pipeline, and the created deal itself is what FindDeal reports for it.
   */
  lemma CreatedDealIsFound(serve: AddDealRequest -> Reply<AddDealResult>, company: Company, contact: Contact,
                           pipeline: string, dealstage: string, listed: seq<DealResult>)
    requires AddDeal(serve, company, contact, pipeline, dealstage).Ok?
    requires Listed(NewDealRequest(company, contact, pipeline, dealstage), AddDeal(serve, company, contact, pipeline, dealstage).value.dealID) in listed
    ensures FirstDealFor(listed, company.companyID, pipeline).Some?
    ensures FirstDealFor(listed, company.companyID, pipeline).value.pipeline == pipeline
    ensures DealOf(Listed(NewDealRequest(company, contact, pipeline, dealstage), AddDeal(serve, company, contact, pipeline, dealstage).value.dealID))
         == AddDeal(serve, company, contact, pipeline, dealstage).value
  {
    var created := Listed(NewDealRequest(company, contact, pipeline, dealstage), AddDeal(serve, company, contact, pipeline, dealstage).value.dealID);
    ListsIsMembership(created.associations.companyIDs, company.companyID);
    assert IsDealFor(created, company.companyID, pipeline);
    FirstDealForSpec(listed, company.companyID, pipeline);
  }
}
