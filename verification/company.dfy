/**
 * The company calls of the HubSpot client: enumerating the radio companies
 * over the paged company list, looking a company up by name over the paged
 * domain search, and reading the ids of a company's contacts.
 */
module Companies {
  import opened Paging

  /** The company type used for radio tracking. */
  const CompanyTypeRadio: string := "RADIO"

  /** A company as the client hands it to its callers. */
  datatype Company = Company(companyID: int, domain: string, name: string, companyType: string)

  /** One company in a list or search reply, with its `name` and `type` properties unwrapped. */
  datatype CompanyResult = CompanyResult(companyID: int, name: string, companyType: string)

  /** The offset of the domain search: where in the result list the next page starts. */
  datatype CompanyOffset = CompanyOffset(isPrimary: bool, companyID: int)

  /** A company property the domain search is asked to return. */
  datatype SearchProperty = DomainProperty | NameProperty | TypeProperty

  /** The name a property goes by in the JSON body. */
  function PropertyName(p: SearchProperty): string {
    match p
    case DomainProperty => "domain"
    case NameProperty => "name"
    case TypeProperty => "type"
  }

  /** The JSON body GetCompany posts to the domain search. */
  datatype GetRequest = GetRequest(limit: int, properties: seq<SearchProperty>, offset: CompanyOffset)

  /** The first domain search request: 100 results from the start, asking for domain, name and type. */
  const FirstGetRequest: GetRequest := GetRequest(100, [DomainProperty, NameProperty, TypeProperty], CompanyOffset(true, 0))

  /** The names the JSON body gives a list of properties, in order. */
  function PropertyNames(ps: seq<SearchProperty>): (names: seq<string>)
    ensures |names| == |ps|
    ensures forall i :: 0 <= i < |ps| ==> names[i] == PropertyName(ps[i])
  {
    if ps == [] then [] else [PropertyName(ps[0])] + PropertyNames(ps[1..])
  }

  /**
   * The first domain search asks for 100 results from the primary start,
   * with the properties named "domain", "name" and "type".
   */
  lemma FirstGetRequestBody()
    ensures FirstGetRequest.limit == 100
    ensures FirstGetRequest.offset == CompanyOffset(true, 0)
    ensures PropertyNames(FirstGetRequest.properties) == ["domain", "name", "type"]
  {
    var names := PropertyNames(FirstGetRequest.properties);
    assert names[0] == "domain" && names[1] == "name" && names[2] == "type";
  }

  /** The domain search is asked with the same body, its offset replaced by the one returned. */
  function ReplaceOffset(request: GetRequest, offset: CompanyOffset): GetRequest {
    request.(offset := offset)
  }

  predicate IsRadio(r: CompanyResult) {
    r.companyType == CompanyTypeRadio
  }

  /** The company FindCompanies builds from a radio result; its domain is left empty. */
  function RadioCompany(r: CompanyResult): Company {
    Company(r.companyID, "", r.name, r.companyType)
  }

  /** The companies built from the radio results among `rs`, in the order of `rs`. */
  function RadioCompanies(rs: seq<CompanyResult>): seq<Company>
  {
    if rs == [] then []
    else RadioCompanies(rs[..|rs| - 1]) + (if IsRadio(Last(rs)) then [RadioCompany(Last(rs))] else [])
  }

  lemma RadioCompaniesSnoc(rs: seq<CompanyResult>, r: CompanyResult)
    ensures RadioCompanies(rs + [r]) == RadioCompanies(rs) + (if IsRadio(r) then [RadioCompany(r)] else [])
  {
    assert (rs + [r])[..|rs|] == rs;
  }

  /** Scanning one more result of a page adds its company when it is a radio one. */
  lemma RadioCompaniesExtend(seen: seq<CompanyResult>, results: seq<CompanyResult>, i: nat)
    requires i < |results|
    ensures RadioCompanies(seen + results[..i + 1])
         == RadioCompanies(seen + results[..i]) + (if IsRadio(results[i]) then [RadioCompany(results[i])] else [])
  {
    assert seen + results[..i + 1] == (seen + results[..i]) + [results[i]];
    RadioCompaniesSnoc(seen + results[..i], results[i]);
  }

  /** Filtering keeps page order: the radio companies of two runs of results are those of each, concatenated. */
  lemma {:induction false} RadioCompaniesAppend(a: seq<CompanyResult>, b: seq<CompanyResult>)
    ensures RadioCompanies(a + b) == RadioCompanies(a) + RadioCompanies(b)
    decreases |b|
  {
    if b == [] {
      assert a + b == a;
    } else {
      var init := b[..|b| - 1];
      assert a + b == (a + init) + [Last(b)];
      assert b == init + [Last(b)];
      RadioCompaniesSnoc(a + init, Last(b));
      RadioCompaniesSnoc(init, Last(b));
      RadioCompaniesAppend(a, init);
    }
  }

  /** Every company listed has type RADIO and an empty domain, and there are no more of them than results. */
  lemma {:induction false} RadioCompaniesAreRadio(rs: seq<CompanyResult>)
    ensures |RadioCompanies(rs)| <= |rs|
    ensures forall c :: c in RadioCompanies(rs) ==> c.companyType == CompanyTypeRadio && c.domain == ""
    decreases |rs|
  {
    if rs != [] {
      RadioCompaniesAreRadio(rs[..|rs| - 1]);
    }
  }

  /** A company is listed exactly when it is built from a radio result. */
  lemma {:induction false} RadioCompaniesExact(rs: seq<CompanyResult>, c: Company)
    ensures c in RadioCompanies(rs) <==> exists r :: r in rs && IsRadio(r) && c == RadioCompany(r)
    decreases |rs|
  {
    if rs != [] {
      var init := rs[..|rs| - 1];
      assert rs == init + [Last(rs)];
      RadioCompaniesExact(init, c);
      if c in RadioCompanies(rs) && c !in RadioCompanies(init) {
        assert IsRadio(Last(rs)) && c == RadioCompany(Last(rs));
      }
      if exists r :: r in rs && IsRadio(r) && c == RadioCompany(r) {
        var r :| r in rs && IsRadio(r) && c == RadioCompany(r);
        if r in init {
          assert c in RadioCompanies(init);
        }
      }
    }
  }

  /** When every result is a radio company, none is lost: the i-th company is built from the i-th result. */
  lemma {:induction false} AllRadioKeepsEveryResult(rs: seq<CompanyResult>)
    requires forall r :: r in rs ==> IsRadio(r)
    ensures |RadioCompanies(rs)| == |rs|
    ensures forall i :: 0 <= i < |rs| ==> RadioCompanies(rs)[i] == RadioCompany(rs[i])
    decreases |rs|
  {
    if rs != [] {
      var init := rs[..|rs| - 1];
      assert forall r :: r in init ==> r in rs;
      AllRadioKeepsEveryResult(init);
      assert IsRadio(Last(rs));
      assert RadioCompanies(rs) == RadioCompanies(init) + [RadioCompany(Last(rs))];
    }
  }

  /**
   * Walks the paged company list from offset 0 and collects every radio
   * company, stopping at the first reply that is not a 200 OK page with
   * `hasMore` set. On a failed call it returns the error together with the
   * companies of the pages before it.
   */
  method FindCompanies(serve: int -> Reply<Page<int, CompanyResult>>, ghost bound: nat)
    returns (companies: seq<Company>, err: Option<HubError>, ghost trace: seq<Step<int, Page<int, CompanyResult>>>)
    requires Ends(serve, FollowOffset, 0, bound)
    ensures trace == Walk(serve, FollowOffset, 0, bound) && |trace| > 0
    ensures var w := Walk(serve, FollowOffset, 0, bound);
      && companies == RadioCompanies(AllResults(Pages(w)))
      && err == FinalError(w)
      && (err.Some? ==> companies == RadioCompanies(AllResults(Pages(w[..|w| - 1]))))
  {
    ghost var w := Walk(serve, FollowOffset, 0, bound);
    WalkStarts(serve, FollowOffset, 0, bound);
    var offset := 0;
    companies, trace := [], [];
    while true
      invariant |trace| < |w| && trace == w[..|trace|] && w[|trace|].request == offset
      invariant companies == RadioCompanies(AllResults(Pages(trace)))
      decreases |w| - |trace|
    {
      var reply := serve(offset);
      ghost var before, seen := trace, AllResults(Pages(trace));
      WalkStep(serve, FollowOffset, 0, bound, trace, offset);
      trace := trace + [Step(offset, reply)];
      var received := Receive(reply);
      if received.Err? {
        assert Pages(trace) == Pages(before) by {
          PagesSnoc(before, Step(offset, reply));
        }
        err := Some(received.error);
        return;
      }
      var page := received.value;
      assert AllResults(Pages(trace)) == seen + page.results by {
        PagesSnoc(before, Step(offset, reply));
        AllResultsSnoc(Pages(before), page);
      }
      var i := 0;
      assert seen + page.results[..i] == seen;
      while i < |page.results|
        invariant 0 <= i <= |page.results|
        invariant companies == RadioCompanies(seen + page.results[..i])
      {
        var result := page.results[i];
        RadioCompaniesExtend(seen, page.results, i);
        if result.companyType == CompanyTypeRadio {
          companies := companies + [RadioCompany(result)];
        }
        i := i + 1;
      }
      assert page.results[..i] == page.results;
      if !page.hasMore {
        err := None;
        return;
      }
      offset := page.offset;
    }
  }

  /** The first result named `name`, in the order of `rs`. */
  function FirstNamed(rs: seq<CompanyResult>, name: string): Option<CompanyResult> {
    if rs == [] then None
    else if rs[0].name == name then Some(rs[0])
    else FirstNamed(rs[1..], name)
  }

  /**
   * FirstNamed finds nothing exactly when no result has the name, and
   * otherwise a result with the name and no result with it before.
   */
  lemma {:induction false} FirstNamedSpec(rs: seq<CompanyResult>, name: string)
    ensures FirstNamed(rs, name).None? <==> forall r :: r in rs ==> r.name != name
    ensures FirstNamed(rs, name).Some? ==>
      exists k :: 0 <= k < |rs| && rs[k] == FirstNamed(rs, name).value && rs[k].name == name &&
                  forall j :: 0 <= j < k ==> rs[j].name != name
    decreases |rs|
  {
    if rs != [] && rs[0].name != name {
      var rest := rs[1..];
      FirstNamedSpec(rest, name);
      assert forall r :: r in rs ==> r == rs[0] || r in rest;
      if FirstNamed(rest, name).Some? {
        var k :| 0 <= k < |rest| && rest[k] == FirstNamed(rest, name).value && rest[k].name == name &&
                 forall j :: 0 <= j < k ==> rest[j].name != name;
        assert rs[k + 1] == rest[k];
        assert forall j :: 1 <= j < k + 1 ==> rs[j] == rest[j - 1];
      }
    }
  }

  /** A match in an earlier run of results hides every later one. */
  lemma {:induction false} FirstNamedAppend(a: seq<CompanyResult>, b: seq<CompanyResult>, name: string)
    ensures FirstNamed(a + b, name) == if FirstNamed(a, name).Some? then FirstNamed(a, name) else FirstNamed(b, name)
    decreases |a|
  {
    if a == [] {
      assert a + b == b;
    } else {
      assert (a + b)[0] == a[0] && (a + b)[1..] == a[1..] + b;
      FirstNamedAppend(a[1..], b, name);
    }
  }

  /** A result with the name and no earlier one with it is the first match. */
  lemma {:induction false} FirstNamedAt(rs: seq<CompanyResult>, i: nat, name: string)
    requires i < |rs| && rs[i].name == name
    requires forall j :: 0 <= j < i ==> rs[j].name != name
    ensures FirstNamed(rs, name) == Some(rs[i])
    decreases i
  {
    if i > 0 {
      FirstNamedAt(rs[1..], i - 1, name);
    }
  }

  /**
   * A page holding a match, with no match in the pages before it, holds the
   * first match of the whole walk that page belongs to.
   */
  lemma FirstNamedInPage<Q, O>(before: seq<Step<Q, Page<O, CompanyResult>>>, step: Step<Q, Page<O, CompanyResult>>,
                               w: seq<Step<Q, Page<O, CompanyResult>>>, name: string)
    requires Receive(step.reply).Ok?
    requires FirstNamed(step.reply.body.record.results, name).Some?
    requires FirstNamed(AllResults(Pages(before)), name).None?
    requires |before| < |w| && w[..|before| + 1] == before + [step]
    ensures FirstNamed(AllResults(Pages(before + [step])), name) == FirstNamed(step.reply.body.record.results, name)
    ensures FirstNamed(AllResults(Pages(w)), name) == FirstNamed(step.reply.body.record.results, name)
  {
    var results := step.reply.body.record.results;
    var trace := before + [step];
    assert FirstNamed(AllResults(Pages(trace)), name) == FirstNamed(results, name) by {
      TraceResultsSnoc(before, step);
      FirstNamedAppend(AllResults(Pages(before)), results, name);
    }
    TracePrefixResults(trace, w);
    FirstNamedAppend(AllResults(Pages(trace)), AllResults(Pages(w[|trace|..])), name);
  }

  /**
   * Scans one page of search results in order and returns the position of
   * the first result named `name`, or `|rs|` when the page holds none.
   */
  method MatchingName(rs: seq<CompanyResult>, name: string) returns (i: nat)
    ensures i <= |rs|
    ensures i < |rs| ==> rs[i].name == name && FirstNamed(rs, name) == Some(rs[i])
    ensures i == |rs| ==> FirstNamed(rs, name).None?
  {
    i := 0;
    while i < |rs|
      invariant i <= |rs|
      invariant forall j :: 0 <= j < i ==> rs[j].name != name
    {
      if rs[i].name == name {
        FirstNamedAt(rs, i, name);
        return;
      }
      i := i + 1;
    }
    FirstNamedSpec(rs, name);
  }

  /**
   * Walks the domain search from FirstGetRequest and returns the first
   * company, in page order, whose name is `name`, with the given name and
   * domain and the type found. It asks for no page after the one holding the
   * match. Without a match it returns no company, and the error of the call
   * that stopped the walk if that call failed.
   */
  method GetCompany(serve: GetRequest -> Reply<Page<CompanyOffset, CompanyResult>>, domain: string, name: string, ghost bound: nat)
    returns (company: Result<Option<Company>>, ghost trace: seq<Step<GetRequest, Page<CompanyOffset, CompanyResult>>>)
    requires Ends(serve, ReplaceOffset, FirstGetRequest, bound)
    ensures var w := Walk(serve, ReplaceOffset, FirstGetRequest, bound);
      && 0 < |trace| <= |w|
      && trace == w[..|trace|]
      && (|trace| < |w| ==> FirstNamed(AllResults(Pages(trace)), name).Some?)
      && FirstNamed(AllResults(Pages(trace[..|trace| - 1])), name).None?
    ensures var w := Walk(serve, ReplaceOffset, FirstGetRequest, bound);
      var found := FirstNamed(AllResults(Pages(w)), name);
      company == if found.Some? then Ok(Some(Company(found.value.companyID, domain, name, found.value.companyType)))
                 else if FinalError(w).Some? then Err(FinalError(w).value) else Ok(None)
  {
    ghost var w := Walk(serve, ReplaceOffset, FirstGetRequest, bound);
    WalkStarts(serve, ReplaceOffset, FirstGetRequest, bound);
    var searchReq := FirstGetRequest;
    trace := [];
    while true
      invariant |trace| < |w| && trace == w[..|trace|] && w[|trace|].request == searchReq
      invariant FirstNamed(AllResults(Pages(trace)), name).None?
      decreases |w| - |trace|
    {
      var reply := serve(searchReq);
      ghost var step := Step(searchReq, reply);
      ghost var before := trace;
      WalkStep(serve, ReplaceOffset, FirstGetRequest, bound, trace, searchReq);
      trace := trace + [step];
      var received := Receive(reply);
      if received.Err? {
        assert Pages(trace) == Pages(before) by {
          PagesSnoc(before, step);
        }
        company := Err(received.error);
        return;
      }
      var page := received.value;
      var i := MatchingName(page.results, name);
      if i < |page.results| {
        var result := page.results[i];
        FirstNamedInPage(before, step, w, name);
        company := Ok(Some(Company(result.companyID, domain, name, result.companyType)));
        return;
      }
      assert FirstNamed(AllResults(Pages(trace)), name).None? by {
        TraceResultsSnoc(before, step);
        FirstNamedAppend(AllResults(Pages(before)), page.results, name);
      }
      if !page.hasMore {
        company := Ok(None);
        return;
      }
      searchReq := ReplaceOffset(searchReq, page.offset);
    }
  }

  /**
   * Reads the ids of the contacts associated with a company, from one reply.
   * The status is checked before the body is read or decoded, and a page that
   * reports more ids is refused rather than returned truncated.
   */
  method GetCompanyContactList(serve: int -> Reply<Page<int, int>>, companyID: int) returns (vids: Result<seq<int>>)
    ensures var reply := serve(companyID);
      vids.Ok? <==> reply.Response? && reply.status == StatusOK && reply.body.Decoded? && !reply.body.record.hasMore
    ensures vids.Ok? ==> vids.value == serve(companyID).body.record.results
    ensures var reply := serve(companyID);
      reply.Response? && reply.status != StatusOK ==> vids == Err(BadStatus(reply.status))
    ensures var reply := serve(companyID);
      reply.Response? && reply.status == StatusOK && reply.body.Decoded? && reply.body.record.hasMore ==>
        vids == Err(MorePagesUnsupported)
  {
    var reply := serve(companyID);
    if reply.NoResponse? {
      return Err(TransportFailed);
    }
    if reply.status != StatusOK {
      return Err(BadStatus(reply.status));
    }
    match reply.body {
      case Unreadable =>
        return Err(BodyUnreadable);
      case Malformed =>
        return Err(Undecodable);
      case Decoded(page) =>
        if page.hasMore {
          return Err(MorePagesUnsupported);
        }
        return Ok(page.results);
    }
  }
}
