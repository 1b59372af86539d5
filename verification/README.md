# dolo-tracking HubSpot client, modelled in Dafny

dolo-tracking keeps track of radio stations in HubSpot. Its `hubspot` package
lists the companies of type `RADIO` and looks up a company by domain and name.
It reads the contacts of a company, finds whether a company already has a deal
in a pipeline, and creates such a deal. This project models those calls and
proves what they return.

* `paging.dfy` (module `Paging`) holds the protocol the calls share.
  * Every HubSpot endpoint is a deterministic server: a total function from
    the request the client sends to the reply it receives.
  * A reply is either no response at all (`http.Client.Do` failed) or a status
    and a body. The body is unreadable, malformed, or decoded into a record.
    The client's order of checks is part of the model:
    1. the round trip;
    2. reading the body;
    3. `200 OK`;
    4. JSON decoding.
  * `Walk` is the sequence of calls a paginating client makes. It starts from
    a first request and keeps sending the request built from the last page's
    offset while the page says `hasMore`.
  * The paginating methods take a ghost `bound` and require `Ends`: the server
    stops asking for more pages within `bound` calls. Each method is proved to
    make exactly the calls of `Walk`, or a prefix of it when it returns early.
* `company.dfy` (module `Companies`) models `FindCompanies`, `GetCompany` and
  `GetCompanyContactList` of `hubspot/company.go`.
* `deal.dfy` (module `Deals`) models `FindDeal` and `AddDeal` of
  `hubspot/deal.go`.

The Go functions loop over pages and over the results of a page, and they
return from inside the loop. The model keeps them as methods with the same
`while` loops and early `return`s. In GetCompany and FindDeal the scan of one
page is a separate method (`MatchingName`, `MatchingDeal`) that returns the
position of the first match, and the outer loop returns when that position is
inside the page. Each method is proved against specification
functions on the walk:
* `Pages` is the pages decoded in a walk;
* `AllResults` is their results, in order;
* `RadioCompanies`, `FirstNamed` and `FirstDealFor` give what the call should
  return;
* `FinalError` is the error the walk ended with.

`Walk` itself follows the loops of `FindCompanies` and `FindDeal`
(`hubspot/company.go:92-131`, `hubspot/deal.go:63-108`) and of `GetCompany`
(`hubspot/company.go:171-214`). Its advance function is `FollowOffset` for the
two list calls, which put the returned offset in the URL
(`hubspot/company.go:130`, `hubspot/deal.go:107`). For the domain search it is
`ReplaceOffset`, which replaces only the offset of the request body
(`hubspot/company.go:213`). `FirstGetRequest` is the body built at
`hubspot/company.go:156-169`: limit 100, offset `{isPrimary: true,
companyId: 0}` and the properties domain, name and type. `PropertyName` gives
each property's name in the JSON body, and `FirstGetRequestBody` states the
whole first body. `RadioCompanies` is the filter of
`hubspot/company.go:116-124`: the companies built from the results of type
`RADIO`, in order, with an empty domain.

## Model

| member | source | states |
|---|---|---|
| Paging.Receive | src/dolo-tracking/hubspot/company.go:99-114 | A reply is accepted only when the round trip succeeded, the body was read, the status is 200 OK and the body decodes. The accepted value is the decoded record. Any other status gives a status error, unless the body could not even be read. |
| Paging.FinalError | src/dolo-tracking/hubspot/company.go:126-131 | A walk ends without error exactly when its last reply is a good page. |
| Paging.WalkFollowsOffsets | src/dolo-tracking/hubspot/company.go:90-131 | A walk that ends has these properties: <br>• it starts with the first request; <br>• every reply is the server's answer to its request; <br>• every call but the last got a 200 OK page with `hasMore`, and the next request is built from that page's offset; <br>• the last reply stops the loop; <br>• it makes at most `bound` calls. |
| Paging.WalkCallAt | src/dolo-tracking/hubspot/deal.go:63-108 | The call at any position of a walk is the server's answer to its request. It is the last call exactly when its reply does not continue. Otherwise it is followed by the request built from its offset. |
| Paging.WalkStep | src/dolo-tracking/hubspot/company.go:171-214 | Sending the request the walk expects next extends the calls made so far by one call of the walk. More calls follow exactly when its reply continues, and then the next request is built from its offset. Otherwise the calls made are the whole walk. |
| Paging.WalkStarts | src/dolo-tracking/hubspot/deal.go:61-63 | A walk makes at least one call, and the first call sends the first request. |
| Paging.WalkIgnoresSpareFuel | src/dolo-tracking/hubspot/company.go:92-131 | The calls are decided by the server alone: once the loop ends, a larger bound gives the same walk. |
| Paging.PagesSnoc | src/dolo-tracking/hubspot/company.go:108-114 | A failed call adds no page; a good one adds exactly its page. |
| Paging.PagesAppend | src/dolo-tracking/hubspot/company.go:92-131 | The pages of consecutive runs of calls are the pages of each run, concatenated. |
| Paging.AllResultsSnoc | src/dolo-tracking/hubspot/company.go:116-124 | A page adds its results, in order, after those of the earlier pages. |
| Paging.AllResultsAppend | src/dolo-tracking/hubspot/company.go:92-131 | The results of consecutive runs of pages are the results of each run, concatenated. |
| Paging.TraceResultsAppend | src/dolo-tracking/hubspot/company.go:92-131 | The results seen over two consecutive runs of calls are those of each run, concatenated. |
| Paging.TracePrefixResults | src/dolo-tracking/hubspot/deal.go:63-108 | The results of a whole walk start with the results seen over any prefix of it. |
| Paging.TraceResultsSnoc | src/dolo-tracking/hubspot/deal.go:83-87 | A call that succeeds adds its page's results to those seen so far. |
| Companies.RadioCompaniesSnoc | src/dolo-tracking/hubspot/company.go:116-124 | A result of type `RADIO` appends its company, and any other result appends nothing. |
| Companies.RadioCompaniesExtend | src/dolo-tracking/hubspot/company.go:116-124 | Scanning one more result of a page extends the list by that result's company exactly when it is of type `RADIO`. |
| Companies.RadioCompaniesAppend | src/dolo-tracking/hubspot/company.go:116-124 | Filtering consecutive runs of results filters each run and concatenates the outputs. |
| Companies.RadioCompaniesAreRadio | src/dolo-tracking/hubspot/company.go:117-122 | The list is no longer than the results. Every company in it has type `RADIO` and an empty domain. |
| Companies.RadioCompaniesExact | src/dolo-tracking/hubspot/company.go:116-124 | A company is in the list if and only if it is built from a result of type `RADIO`: same id, same name, type `RADIO`, empty domain. |
| Companies.AllRadioKeepsEveryResult | src/dolo-tracking/hubspot/company.go:116-124 | When every result is a radio, the list has one company per result, at the same position, carrying that result's id and name. |
| Companies.FindCompanies | src/dolo-tracking/hubspot/company.go:74-133 | Requests offset 0, then each offset the server returns, until a page without `hasMore` or a failed call. Returns the `RADIO` companies of every page received, in page order. Returns the error of the call that failed, and then the companies gathered from the earlier pages. |
| Companies.FirstNamedSpec | src/dolo-tracking/hubspot/company.go:198-207 | None if and only if no result has the name. Otherwise it is a result with that name, and no result before it has the name. |
| Companies.FirstNamedAppend | src/dolo-tracking/hubspot/company.go:171-214 | A match among earlier pages hides every later one; without one, the first match is searched in the later pages. |
| Companies.FirstNamedAt | src/dolo-tracking/hubspot/company.go:198-207 | A result with the name, with no such result before it, is the first match. |
| Companies.FirstNamedInPage | src/dolo-tracking/hubspot/company.go:198-207 | The first match of a page with a match, when no earlier page has one, is the first match of the calls made so far and of the whole walk. |
| Companies.MatchingName | src/dolo-tracking/hubspot/company.go:198-207 | Scans one page in order. Returns the position of a result with the name that is the page's first match, or the page length exactly when no result has the name. |
| Companies.FirstGetRequestBody | src/dolo-tracking/hubspot/company.go:156-169 | The first domain search asks for 100 results from offset `{isPrimary: true, companyId: 0}`, with the properties named domain, name and type, in that order. |
| Companies.GetCompany | src/dolo-tracking/hubspot/company.go:137-216 | Sends the request with limit 100, properties domain/name/type and offset {isPrimary: true, companyId: 0}. Each later request replaces only the offset with the one the server returned. The calls made are a prefix of the walk. No page before the last one requested holds a match, and the walk is cut short only when the last page holds one. Returns the first result with the name, as a company with the given name and domain and the result's id and type. With no match it returns nothing: no error if the walk ended well, otherwise the error of the failed call. |
| Companies.GetCompanyContactList | src/dolo-tracking/hubspot/company.go:400-447 | Returns the contact ids of one page, unchanged and in order, exactly when the reply is 200 OK, decodes, and does not report more pages. Checks the status before reading the body, so any other status is a status error. A page that reports more results is an error. |
| Deals.FirstDealForSpec | src/dolo-tracking/hubspot/deal.go:87-101 | None if and only if no deal is in the pipeline and associated with the company. Otherwise it is such a deal, and no deal before it is. |
| Deals.FirstDealForAppend | src/dolo-tracking/hubspot/deal.go:63-108 | A matching deal among earlier pages hides every later one; without one, the first match is searched in the later pages. |
| Deals.FirstDealForAt | src/dolo-tracking/hubspot/deal.go:87-101 | A matching deal, with no matching one before it, is the first match. |
| Deals.FirstDealInPage | src/dolo-tracking/hubspot/deal.go:87-101 | The first match of a page with a match, when no earlier page has one, is the first match of the calls made so far and of the whole walk. |
| Deals.ListsIsMembership | src/dolo-tracking/hubspot/deal.go:92-100 | Scanning a deal's associated company ids for the company finds it exactly when the id is among them. |
| Deals.MatchingDeal | src/dolo-tracking/hubspot/deal.go:87-101 | Scans one page in order, skipping deals of another pipeline and looking through each remaining deal's company ids. Returns the position of a deal in the pipeline associated with the company that is the page's first match, or the page length exactly when the page holds none. |
| Deals.FoundDealIsInPipeline | src/dolo-tracking/hubspot/deal.go:88-98 | The deal FindDeal returns for a match is in the pipeline and lists the company among its associated companies. It is never a deal of another pipeline. |
| Deals.FindDeal | src/dolo-tracking/hubspot/deal.go:45-110 | Requests offset 0, then the offsets the server returns. The calls made are a prefix of the walk. No page before the last one requested holds a match, and the walk is cut short only when the last page holds one. Returns the first deal, in page order, that is in the pipeline and associated with the company. The returned deal copies that element's id, name and pipeline. With no match it returns no deal: no error if the walk ended well, otherwise the error of the failed call. A failed call never yields a deal. |
| Deals.NewDealRequest | src/dolo-tracking/hubspot/deal.go:140-159 | The new deal is associated with exactly the company and exactly the contact. It carries the properties dealname (the company's name), pipeline and dealstage, in that order, with those values. |
| Deals.AddDeal | src/dolo-tracking/hubspot/deal.go:124-197 | Succeeds exactly when the reply to the new-deal request is 200 OK and decodes. It then returns the id HubSpot gave, which is not checked, with the company's name and the pipeline. Any other status is a status error. |
| Deals.CreatedDealIsFound | src/dolo-tracking/hubspot/deal.go:87-98 | Suppose a deal was created by AddDeal and appears in the deal list as created. Then FindDeal's search finds a deal for that company in that pipeline, and the created deal reads back as exactly the deal AddDeal returned. |

## Left out

- The API key, URL formatting, request headers and JSON encoding are folded into the server function. Each endpoint is a deterministic function from the part of the request that varies to the reply. That part is the offset for FindCompanies and FindDeal, the search body for GetCompany, the company id for GetCompanyContactList and the new-deal body for AddDeal. The domain in GetCompany's URL is fixed for one call, so it is part of that server.
- Errors of `http.NewRequest` and `json.Marshal` have no error value of their own. Every URL holds the API key, and GetCompany's also holds the caller's domain (`hubspot/company.go:154`). A malformed key or domain makes `http.NewRequest` fail, and the call returns that error (`hubspot/company.go:175-177`). The model represents such a failure as the server giving no response, which ends the call with `TransportFailed` at the same point.
- Decoding is modelled as producing a fresh page each time. The Go code decodes every page into one reused variable. A page whose JSON lacks a field would keep the previous page's value for it, and that carry-over is not modelled.
- The text of errors (status line and body) is reduced to the status number. Transport, read and decode errors become single error values.
- `defer respRaw.Body.Close()` inside the loops keeps every body open until the function returns. Resource release is not modelled.
- The Go functions return `nil` without an error when nothing matches; this is `Ok(None)`. A nil slice is the empty sequence.
- A search result's `properties.name.value` and `properties.type.value` (or `dealname` and `pipeline`) are flattened into plain fields of the result.
- FindCompanies: a server that never stops asking for more pages is not modelled. The method requires that the walk ends within a ghost bound, and the Go loop would run forever otherwise.
- GetCompany, FindDeal: a search whose match comes before the server stops reporting more pages is not covered when the server never stops. Go returns that match from inside the loop (`hubspot/company.go:198-206`, `hubspot/deal.go:92-98`). The model requires the whole walk to end within a ghost bound, so it promises nothing for such a server.
- AddCompany, UpdateCompany and AddCompanyContact of `hubspot/company.go` are not part of this model. Neither are `hubspot/engagement.go`, `email/sparkpost.go`, `context/config.go` and `main.go`. `main.go` calls FindCompanies and then GetCompanyContactList for each company (`main.go:100`, `main.go:109`). Its FindDeal, email and AddDeal step is commented out (`main.go:130-144`).
- Rate limiting and retries are not modelled, because the client performs neither.
- AddDeal does not check the id in the reply (`hubspot/deal.go:188-196`). An id of 0 is returned unchanged, and the model does the same.
