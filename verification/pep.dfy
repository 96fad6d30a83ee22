/**
 * The status-reconciliation pass of `pep()`: walk the numerical PEP index,
 * open each PEP's page, read its declared status, tally it, compare it with
 * the statuses expected for the PEP's category, and fold the tally into the
 * status report.
 *
 * The pass is an imperative method (`Pep`) proved equal to the specification
 * functions `ScanTerms`, `ScanRows` and `Reconcile`; the lemmas at the end
 * state what those functions promise.
 */
module Pep {
  import opened Wrappers
  import opened Exceptions
  import opened Text
  import opened Constants
  import Report

  /**
   * A `<td>` of the index table body: its string, the text of the cell before
   * it (absent when it has no previous sibling) and the `href` of its link
   * (absent when it has no `<a href>`).
   */
  datatype IndexCell = IndexCell(text: string, prevText: Option<string>, href: Option<string>)

  /** The index page, as far as `find_tag` sees it. */
  datatype IndexPage =
    | NoIndexSection                    // no `<section id="numerical-index">`
    | NoTableBody                       // the section has no `<tbody>`
    | IndexTable(cells: seq<IndexCell>) // every `<td>` of the `<tbody>`, in order

  /** A `<dt>` of the field list: its text and the text of the element after it. */
  datatype Term = Term(text: string, nextText: Option<string>)

  /** A PEP page: without the `rfc2822 field-list` `<dl>`, or with its `<dt>` terms. */
  datatype DetailPage = NoFieldList | FieldList(terms: seq<Term>)

  /**
   * What the pass needs from the outside world: `urljoin(PEP_INDEX_URL, href)`
   * and `get_response`, which yields no page when the request fails.
   */
  datatype Web = Web(resolve: string -> string, fetch: string -> Option<DetailPage>)

  /** One entry of `non_matching_statuses`. */
  datatype Discrepancy =
    | UnknownKey(key: string, url: string)
    | StatusMismatch(url: string, status: string, expected: seq<string>)

  /** The two lists the pass appends to: `key_status_urls` and `non_matching_statuses`. */
  datatype Scan = Scan(tally: seq<string>, log: seq<Discrepancy>)

  /** What a stretch of the pass appends to the two lists, or the error it raises. */
  datatype Result = Ok(scan: Scan) | Err(error: ParserError)

  /** What `pep()` hands back: the report table, and the log it writes out. */
  datatype PepResult = PepResult(report: seq<(Report.Cell, Report.Cell)>, log: seq<Discrepancy>)

  const Empty := Scan([], [])

  /** `text[1:]`: the category marker without its leading symbol. */
  function CategoryKey(prevText: string): (key: string)
    ensures prevText != [] ==> prevText == [prevText[0]] + key
    ensures prevText == [] ==> key == []
  {
    if prevText == [] then [] else prevText[1..]
  }

  /** The cells `find_all('td', string=re.compile(r'^\d+$'))` selects, in order. */
  function PepRefs(cells: seq<IndexCell>): (refs: seq<IndexCell>)
    ensures forall c :: c in refs <==> c in cells && IsDigitRun(c.text)
    ensures |refs| <= |cells|
  {
    if cells == [] then []
    else if IsDigitRun(cells[0].text) then [cells[0]] + PepRefs(cells[1..])
    else PepRefs(cells[1..])
  }

  /** `find_all` keeps document order: the cells picked from `a + b` are those from `a`, then those from `b`. */
  lemma {:induction false} PepRefsAppend(a: seq<IndexCell>, b: seq<IndexCell>)
    ensures PepRefs(a + b) == PepRefs(a) + PepRefs(b)
  {
    if a == [] {
      assert a + b == b;
    } else {
      assert (a + b)[1..] == a[1..] + b;
      PepRefsAppend(a[1..], b);
    }
  }

  /** One cell is picked, once, exactly when its string is a digit run. */
  lemma PepRefsSingle(c: IndexCell)
    ensures PepRefs([c]) == if IsDigitRun(c.text) then [c] else []
  {
  }

  /** `s` followed by what `r` appends, unless `r` raised. */
  function Prepend(s: Scan, r: Result): (p: Result)
    ensures s == Empty ==> p == r
  {
    match r
    case Err(e) => Err(e)
    case Ok(x) =>
      assert s == Empty ==> s.tally + x.tally == x.tally && s.log + x.log == x.log;
      Ok(Scan(s.tally + x.tally, s.log + x.log))
  }

  /**
   * The inner `for dt_tag in dt_tags` loop on the page of the PEP at `url`
   * with category `key`: what it appends, or the error it raises.
   */
  function ScanTerms(key: string, url: string, terms: seq<Term>): Result
    decreases |terms|, 1
  {
    if terms == [] then Ok(Empty) else ScanTerm(key, url, terms[0], terms[1..])
  }

  /** One iteration of the inner loop, on `term`, followed by the rest of the loop. */
  function ScanTerm(key: string, url: string, term: Term, rest: seq<Term>): Result
    decreases |rest|, 2
  {
    if !Contains(term.text, "Status") then ScanTerms(key, url, rest)
    else match term.nextText
      case None => Err(FindSibling)
      case Some(status) =>
        if key !in ExpectedStatus then
          // the `continue`: the scan goes on past this term
          Prepend(Scan([status], [UnknownKey(key, url)]), ScanTerms(key, url, rest))
        else
          // the `break`: the scan ends at the first status term
          Ok(Scan([status],
                  if status in ExpectedStatus[key] then []
                  else [StatusMismatch(url, status, ExpectedStatus[key])]))
  }

  /** What the outer loop appends for `refs`, or the first error it raises. */
  function ScanRows(refs: seq<IndexCell>, web: Web): Result
    decreases |refs|, 0
  {
    if refs == [] then Ok(Empty) else ScanRow(refs[0], refs[1..], web)
  }

  /** One iteration of the outer loop, on `cell`, followed by the rest of the loop. */
  function ScanRow(cell: IndexCell, rest: seq<IndexCell>, web: Web): Result
    decreases |rest|, 2
  {
    match cell.prevText
    case None => Err(FindSibling)
    case Some(prev) =>
      match cell.href
      case None => Err(MissingHref)
      case Some(href) =>
        var url := web.resolve(href);
        match web.fetch(url)
        case None => ScanRows(rest, web)
        case Some(NoFieldList) => Err(FindTag("dl"))
        case Some(FieldList(terms)) => Then(ScanTerms(CategoryKey(prev), url, terms), rest, web)
  }

  /** The appends of one page followed by those of the remaining rows. */
  function Then(page: Result, rest: seq<IndexCell>, web: Web): Result
    decreases |rest|, 1
  {
    match page
    case Err(e) => Err(e)
    case Ok(s) => Prepend(s, ScanRows(rest, web))
  }

  /** The whole of `pep()`, from the index page (absent if its fetch failed). */
  function Reconcile(index: Option<IndexPage>, web: Web): Run<PepResult>
  {
    match index
    case None => NoResponse
    case Some(NoIndexSection) => Raised(FindTag("section"))
    case Some(NoTableBody) => Raised(FindTag("tbody"))
    case Some(IndexTable(cells)) =>
      match ScanRows(PepRefs(cells), web)
      case Err(e) => Raised(e)
      case Ok(s) => Returned(PepResult(Report.Build(s.tally), s.log))
  }

  lemma PrependPrepend(a: Scan, b: Scan, r: Result)
    ensures Prepend(a, Prepend(b, r)) == Prepend(Scan(a.tally + b.tally, a.log + b.log), r)
  {
    if r.Ok? {
      assert a.tally + (b.tally + r.scan.tally) == (a.tally + b.tally) + r.scan.tally;
      assert a.log + (b.log + r.scan.log) == (a.log + b.log) + r.scan.log;
    }
  }

  /** `pep(session)`. */
  method Pep(index: Option<IndexPage>, web: Web) returns (r: Run<PepResult>)
    ensures r == Reconcile(index, web)
    ensures index.None? ==> r == NoResponse
    ensures index == Some(NoTableBody) ==> r == Raised(FindTag("tbody"))
  {
    if index.None? {
      return NoResponse;
    }
    if index.value.NoIndexSection? {
      return Raised(FindTag("section"));
    }
    if index.value.NoTableBody? {
      return Raised(FindTag("tbody"));
    }
    var refs := PepRefs(index.value.cells);
    var keyStatusUrls: seq<string> := [];
    var nonMatchingStatuses: seq<Discrepancy> := [];
    var i := 0;
    while i < |refs|
      invariant 0 <= i <= |refs|
      invariant Prepend(Scan(keyStatusUrls, nonMatchingStatuses), ScanRows(refs[i..], web)) == ScanRows(refs, web)
    {
      var ref := refs[i];
      assert refs[i..][1..] == refs[i + 1..];
      assert ScanRows(refs[i..], web) == ScanRow(ref, refs[i + 1..], web);
      if ref.prevText.None? {
        return Raised(FindSibling);
      }
      var key := CategoryKey(ref.prevText.value);
      if ref.href.None? {
        return Raised(MissingHref);
      }
      var pepUrl := web.resolve(ref.href.value);
      var response := web.fetch(pepUrl);
      if response.None? {
        i := i + 1;
        continue;
      }
      if response.value.NoFieldList? {
        return Raised(FindTag("dl"));
      }
      ghost var before := Scan(keyStatusUrls, nonMatchingStatuses);
      var page := ScanPage(key, pepUrl, response.value.terms, keyStatusUrls, nonMatchingStatuses);
      PrependThen(before, ScanTerms(key, pepUrl, response.value.terms), refs[i + 1..], web);
      if page.Err? {
        return Raised(page.error);
      }
      keyStatusUrls, nonMatchingStatuses := page.scan.tally, page.scan.log;
      i := i + 1;
    }
    assert ScanRows(refs, web) == Ok(Scan(keyStatusUrls, nonMatchingStatuses));
    return Returned(PepResult(Report.Build(keyStatusUrls), nonMatchingStatuses));
  }

  /**
   * The inner loop of `pep()` over the `<dt>` terms of one PEP page, appending
   * to the lists `tally` and `log` built so far; the error it raises, if any.
   */
  method ScanPage(key: string, pepUrl: string, dtTags: seq<Term>, tally: seq<string>, log: seq<Discrepancy>)
    returns (r: Result)
    ensures r == Prepend(Scan(tally, log), ScanTerms(key, pepUrl, dtTags))
  {
    var keyStatusUrls, nonMatchingStatuses := tally, log;
    var j := 0;
    while j < |dtTags|
      invariant 0 <= j <= |dtTags|
      invariant Prepend(Scan(keyStatusUrls, nonMatchingStatuses), ScanTerms(key, pepUrl, dtTags[j..]))
             == Prepend(Scan(tally, log), ScanTerms(key, pepUrl, dtTags))
    {
      var dtTag := dtTags[j];
      assert dtTags[j..][1..] == dtTags[j + 1..];
      assert ScanTerms(key, pepUrl, dtTags[j..]) == ScanTerm(key, pepUrl, dtTag, dtTags[j + 1..]);
      if Contains(dtTag.text, "Status") {
        if dtTag.nextText.None? {
          return Err(FindSibling);
        }
        var status := dtTag.nextText.value;
        ghost var before := Scan(keyStatusUrls, nonMatchingStatuses);
        keyStatusUrls := keyStatusUrls + [status];
        if key !in ExpectedStatus {
          nonMatchingStatuses := nonMatchingStatuses + [UnknownKey(key, pepUrl)];
          PrependPrepend(before, Scan([status], [UnknownKey(key, pepUrl)]), ScanTerms(key, pepUrl, dtTags[j + 1..]));
          j := j + 1;
          continue;
        }
        if status !in ExpectedStatus[key] {
          nonMatchingStatuses := nonMatchingStatuses + [StatusMismatch(pepUrl, status, ExpectedStatus[key])];
        }
        break;
      }
      j := j + 1;
    }
    r := Ok(Scan(keyStatusUrls, nonMatchingStatuses));
  }

  lemma PrependThen(s: Scan, page: Result, rest: seq<IndexCell>, web: Web)
    ensures Then(Prepend(s, page), rest, web) == Prepend(s, Then(page, rest, web))
  {
    if page.Ok? {
      PrependPrepend(s, page.scan, ScanRows(rest, web));
    }
  }

  // ---------------------------------------------------------------------------
  // Reference definitions for one page

  /** The terms whose text contains `Status`, in page order. */
  function StatusTerms(terms: seq<Term>): (r: seq<Term>)
    ensures forall t :: t in r <==> t in terms && Contains(t.text, "Status")
  {
    if terms == [] then []
    else if Contains(terms[0].text, "Status") then [terms[0]] + StatusTerms(terms[1..])
    else StatusTerms(terms[1..])
  }

  /** The `Status` terms of `a + b` are those of `a`, then those of `b`, in page order. */
  lemma {:induction false} StatusTermsAppend(a: seq<Term>, b: seq<Term>)
    ensures StatusTerms(a + b) == StatusTerms(a) + StatusTerms(b)
  {
    if a == [] {
      assert a + b == b;
    } else {
      assert (a + b)[1..] == a[1..] + b;
      StatusTermsAppend(a[1..], b);
    }
  }

  /** One term is kept, once, exactly when its text contains `Status`. */
  lemma StatusTermsSingle(t: Term)
    ensures StatusTerms([t]) == if Contains(t.text, "Status") then [t] else []
  {
  }

  /**
   * The first of the `Status` terms is the first term of the page whose text
   * contains `Status`: it sits at index `i`, and no term before it qualifies.
   */
  lemma {:induction false} StatusTermsFirst(terms: seq<Term>) returns (i: nat)
    requires StatusTerms(terms) != []
    ensures i < |terms| && StatusTerms(terms)[0] == terms[i] && Contains(terms[i].text, "Status")
    ensures forall j :: 0 <= j < i ==> !Contains(terms[j].text, "Status")
  {
    if Contains(terms[0].text, "Status") {
      i := 0;
    } else {
      var k := StatusTermsFirst(terms[1..]);
      i := k + 1;
    }
  }

  /** The texts following the given terms, or none if one of them has no sibling. */
  function SiblingTexts(ts: seq<Term>): (r: Option<seq<string>>)
    ensures r.Some? <==> forall k :: 0 <= k < |ts| ==> ts[k].nextText.Some?
    ensures r.Some? ==> |r.value| == |ts| && forall k :: 0 <= k < |ts| ==> r.value[k] == ts[k].nextText.value
  {
    if ts == [] then Some([])
    else match ts[0].nextText
      case None => None
      case Some(x) =>
        match SiblingTexts(ts[1..])
        case None => None
        case Some(rest) => Some([x] + rest)
  }

  /** `n` copies of the discrepancy `d`. */
  function Repeat(d: Discrepancy, n: nat): (r: seq<Discrepancy>)
    ensures |r| == n && forall k :: 0 <= k < n ==> r[k] == d
  {
    if n == 0 then [] else [d] + Repeat(d, n - 1)
  }

  /**
   * With a category key missing from `EXPECTED_STATUS`, the `continue` keeps
   * the scan going: every status term of the page is tallied, each with its
   * own unknown-key discrepancy.
   */
  lemma {:induction false} UnknownKeyScansEveryStatusTerm(key: string, url: string, terms: seq<Term>)
    requires key !in ExpectedStatus
    ensures ScanTerms(key, url, terms) ==
      match SiblingTexts(StatusTerms(terms))
      case None => Err(FindSibling)
      case Some(statuses) => Ok(Scan(statuses, Repeat(UnknownKey(key, url), |statuses|)))
  {
    if terms != [] {
      UnknownKeyScansEveryStatusTerm(key, url, terms[1..]);
      if Contains(terms[0].text, "Status") && terms[0].nextText.Some? {
        var rest := SiblingTexts(StatusTerms(terms[1..]));
        if rest.Some? {
          var d := UnknownKey(key, url);
          assert Repeat(d, |rest.value| + 1) == [d] + Repeat(d, |rest.value|);
        }
      }
    }
  }

  /**
   * With a known category key, the `break` ends the scan at the first status
   * term: its status is the only one tallied, and a discrepancy showing the
   * expected list is logged exactly when the status is not in that list.
   */
  lemma {:induction false} KnownKeyStopsAtFirstStatus(key: string, url: string, terms: seq<Term>)
    requires key in ExpectedStatus
    ensures ScanTerms(key, url, terms) ==
      if StatusTerms(terms) == [] then Ok(Empty)
      else match StatusTerms(terms)[0].nextText
        case None => Err(FindSibling)
        case Some(status) =>
          Ok(Scan([status],
                  if status in ExpectedStatus[key] then []
                  else [StatusMismatch(url, status, ExpectedStatus[key])]))
  {
    if terms != [] && !Contains(terms[0].text, "Status") {
      KnownKeyStopsAtFirstStatus(key, url, terms[1..]);
    }
  }

  /** A page scan logs at most one discrepancy per tallied status, and tallies every mismatching one. */
  lemma PageDiscrepanciesAreTallied(key: string, url: string, terms: seq<Term>)
    requires ScanTerms(key, url, terms).Ok?
    ensures |ScanTerms(key, url, terms).scan.log| <= |ScanTerms(key, url, terms).scan.tally|
    ensures forall d :: d in ScanTerms(key, url, terms).scan.log ==>
      if d.UnknownKey? then d == UnknownKey(key, url) && key !in ExpectedStatus
      else d.url == url && d.status in ScanTerms(key, url, terms).scan.tally && d.status !in d.expected
  {
    if key in ExpectedStatus {
      KnownKeyStopsAtFirstStatus(key, url, terms);
    } else {
      UnknownKeyScansEveryStatusTerm(key, url, terms);
    }
  }

  // ---------------------------------------------------------------------------
  // Reference definitions for the whole index

  /** The pass over `a + b` is the pass over `a` followed by the pass over `b`. */
  lemma {:induction false} ScanRowsAppend(a: seq<IndexCell>, b: seq<IndexCell>, web: Web)
    ensures ScanRows(a + b, web) == Then(ScanRows(a, web), b, web)
  {
    if a == [] {
      assert a + b == b;
    } else {
      assert (a + b)[1..] == a[1..] + b;
      ScanRowsAppend(a[1..], b, web);
      var c := a[0];
      assert ScanRows(a + b, web) == ScanRow(c, a[1..] + b, web);
      assert ScanRows(a, web) == ScanRow(c, a[1..], web);
      if c.prevText.Some? && c.href.Some? {
        var url := web.resolve(c.href.value);
        var page := web.fetch(url);
        if page.Some? && page.value.FieldList? {
          var p := ScanTerms(CategoryKey(c.prevText.value), url, page.value.terms);
          if p.Ok? {
            PrependThen(p.scan, ScanRows(a[1..], web), b, web);
          }
        }
      }
    }
  }

  /**
   * A row whose page fails to load changes nothing: neither the tally nor the
   * discrepancy log, nor whether the pass raises.
   */
  lemma FailedFetchAddsNothing(refs: seq<IndexCell>, k: nat, web: Web)
    requires k < |refs|
    requires refs[k].prevText.Some? && refs[k].href.Some?
    requires web.fetch(web.resolve(refs[k].href.value)).None?
    ensures ScanRows(refs, web) == ScanRows(refs[..k] + refs[k + 1..], web)
  {
    assert refs == refs[..k] + ([refs[k]] + refs[k + 1..]);
    ScanRowsAppend(refs[..k], [refs[k]] + refs[k + 1..], web);
    ScanRowsAppend(refs[..k], refs[k + 1..], web);
    assert ([refs[k]] + refs[k + 1..])[1..] == refs[k + 1..];
    assert ScanRows([refs[k]] + refs[k + 1..], web) == ScanRow(refs[k], refs[k + 1..], web);
  }

  /**
   * Over the whole index, every discrepancy belongs to a tallied status: the
   * tally is appended to before any key or status check, so discrepant and
   * unknown-key statuses are still counted.
   */
  lemma {:induction false} DiscrepanciesAreTallied(refs: seq<IndexCell>, web: Web)
    requires ScanRows(refs, web).Ok?
    ensures |ScanRows(refs, web).scan.log| <= |ScanRows(refs, web).scan.tally|
    ensures forall d :: d in ScanRows(refs, web).scan.log && d.StatusMismatch? ==>
      d.status in ScanRows(refs, web).scan.tally && d.status !in d.expected
  {
    if refs != [] {
      var c := refs[0];
      assert ScanRows(refs, web) == ScanRow(c, refs[1..], web);
      var url := web.resolve(c.href.value);
      var page := web.fetch(url);
      if page.None? {
        DiscrepanciesAreTallied(refs[1..], web);
      } else {
        var key := CategoryKey(c.prevText.value);
        var p := ScanTerms(key, url, page.value.terms);
        assert ScanRows(refs, web) == Then(p, refs[1..], web);
        PageDiscrepanciesAreTallied(key, url, page.value.terms);
        DiscrepanciesAreTallied(refs[1..], web);
      }
    }
  }

  /**
   * The report `pep()` returns counts every tallied status, discrepant or
   * not: its Total row is the number of statuses read, which is at least the
   * number of discrepancies logged.
   */
  lemma ReportTotalCountsDiscrepantEntries(index: Option<IndexPage>, web: Web)
    requires Reconcile(index, web).Returned?
    ensures var res := Reconcile(index, web).value;
            var tally := ScanRows(PepRefs(index.value.cells), web).scan.tally;
            && res.report == Report.Build(tally)
            && res.report[|res.report| - 1] == (Report.Str("Total"), Report.Num(|tally|))
            && |res.log| <= |tally|
  {
    var tally := ScanRows(PepRefs(index.value.cells), web).scan.tally;
    Report.ReportShape(tally);
    DiscrepanciesAreTallied(PepRefs(index.value.cells), web);
  }

  /** A missing `<tbody>` raises before any PEP page is fetched, whatever the web returns. */
  lemma MissingTableBodyAbortsFirst(web1: Web, web2: Web)
    ensures Reconcile(Some(NoTableBody), web1) == Reconcile(Some(NoTableBody), web2) == Raised(FindTag("tbody"))
  {
  }
}
