/** Listing discovery (`get_all_professor_urls`, src/scraper.py): walk the paginated
    professor listing, collecting each profile link once, until the limit is reached,
    a fetch fails, a page has no links or no new links, there is no "next" link, or
    fifty pages have been read. Fetching is a function from URL to parsed page. */
module Discovery {
  import opened Wrappers
  import opened PyStr

  /** The first listing page; page `n > 1` lives at `BaseUrl + str(n) + "/"`. */
  const BaseUrl: string := "https://www.iese.edu/search/professors/"

  /** The safety bound on the number of listing pages read. */
  const MaxPages: nat := 50

  /** A listing page as discovery sees it: the fetch failed, or the `href` of every
      profile-card anchor (`None` when the anchor has none) and whether the page has
      a "next page" link. */
  datatype ListingPage = Unreachable | Listing(hrefs: seq<Option<string>>, hasNext: bool)

  /** Why the walk stopped. */
  datatype Exit = LimitReached | FetchFailed | NoLinks | NoNewLinks | NoNextButton | PageCap

  /** The collected URLs in order of discovery, the listing URLs fetched, and the exit. */
  datatype Walk = Walk(urls: seq<string>, fetched: seq<string>, exit: Exit)

  /** What scanning one page adds: the accumulator afterwards and how many were new. */
  datatype Scan = Scan(urls: seq<string>, added: nat)

  /** No value occurs twice. */
  predicate NoDup(s: seq<string>)
  {
    forall i, j :: 0 <= i < j < |s| ==> s[i] != s[j]
  }

  /** The URL of listing page `page`. */
  function PageUrl(page: nat): string
  {
    if page > 1 then BaseUrl + Str(page) + "/" else BaseUrl
  }

  /** Different pages are fetched from different URLs. */
  lemma PageUrlInjective(m: nat, n: nat)
    requires 1 <= m && 1 <= n
    requires PageUrl(m) == PageUrl(n)
    ensures m == n
  {
    var b := |BaseUrl|;
    assert (m > 1) == (|PageUrl(m)| > b);
    assert (n > 1) == (|PageUrl(n)| > b);
    if m > 1 {
      var u := PageUrl(m);
      assert Str(m) == u[b..|u| - 1];
      assert Str(n) == u[b..|u| - 1];
      ParseStr(m);
      ParseStr(n);
    }
  }

  /** Python's `if limit`: `None` and `0` both mean "no limit". */
  predicate Bounded(limit: Option<int>)
  {
    limit.Some? && limit.value != 0
  }

  /** `if limit and len(professor_urls) >= limit`. */
  predicate LimitHit(limit: Option<int>, count: nat)
  {
    Bounded(limit) && count >= limit.value
  }

  /** An href that passes `if href and href not in professor_urls`. */
  predicate IsNewHref(h: Option<string>, acc: seq<string>)
  {
    h.Some? && h.value != "" && h.value !in acc
  }

  /** An href that is present and non-empty. */
  predicate IsHref(h: Option<string>)
  {
    h.Some? && h.value != ""
  }

  /** The URL `u` is a non-empty profile link on `p`. */
  predicate LinksTo(p: ListingPage, u: string)
  {
    p.Listing? && u != "" && Some(u) in p.hrefs
  }

  /** The inner loop over one page's anchors: append each new href, and stop as
      soon as the limit is reached. */
  function ScanLinks(hrefs: seq<Option<string>>, acc: seq<string>, limit: Option<int>): (r: Scan)
    ensures acc <= r.urls
    ensures |r.urls| == |acc| + r.added
    ensures forall k :: |acc| <= k < |r.urls| ==> r.urls[k] != "" && Some(r.urls[k]) in hrefs
    ensures forall k :: |acc| <= k < |r.urls| ==> r.urls[k] !in acc
    ensures NoDup(acc) ==> NoDup(r.urls)
    ensures !LimitHit(limit, |r.urls|) ==>
              forall h :: h in hrefs && IsHref(h) ==> h.value in r.urls
    ensures Bounded(limit) && |acc| < limit.value ==> |r.urls| <= limit.value
    decreases |hrefs|
  {
    if |hrefs| == 0 then Scan(acc, 0)
    else if IsNewHref(hrefs[0], acc) then
      var grown := acc + [hrefs[0].value];
      if LimitHit(limit, |grown|) then Scan(grown, 1)
      else
        var r := ScanLinks(hrefs[1..], grown, limit);
        ScanGrows(hrefs, acc, limit, r);
        Scan(r.urls, r.added + 1)
    else
      var r := ScanLinks(hrefs[1..], acc, limit);
      ScanSkips(hrefs, acc, limit, r);
      r
  }

  /** What `ScanLinks` promises about scanning `hrefs` onto `acc`. */
  predicate ScanFacts(hrefs: seq<Option<string>>, acc: seq<string>, limit: Option<int>, r: Scan)
  {
    && acc <= r.urls
    && |r.urls| == |acc| + r.added
    && (forall k :: |acc| <= k < |r.urls| ==> r.urls[k] != "" && Some(r.urls[k]) in hrefs)
    && (forall k :: |acc| <= k < |r.urls| ==> r.urls[k] !in acc)
    && (NoDup(acc) ==> NoDup(r.urls))
    && (!LimitHit(limit, |r.urls|) ==> forall h :: h in hrefs && IsHref(h) ==> h.value in r.urls)
    && (Bounded(limit) && |acc| < limit.value ==> |r.urls| <= limit.value)
  }

  /** Appending a new first href, then scanning the rest, scans the whole page. */
  lemma ScanGrows(hrefs: seq<Option<string>>, acc: seq<string>, limit: Option<int>, r: Scan)
    requires |hrefs| > 0 && IsNewHref(hrefs[0], acc) && !LimitHit(limit, |acc| + 1)
    requires ScanFacts(hrefs[1..], acc + [hrefs[0].value], limit, r)
    ensures ScanFacts(hrefs, acc, limit, Scan(r.urls, r.added + 1))
  {
    var grown := acc + [hrefs[0].value];
    assert forall h :: h in hrefs ==> h == hrefs[0] || h in hrefs[1..];
    assert r.urls[|acc|] == hrefs[0].value;
    assert forall x :: x in grown ==> x in r.urls;
  }

  /** Skipping a first href that is missing, empty or known, then scanning the rest,
      scans the whole page. */
  lemma ScanSkips(hrefs: seq<Option<string>>, acc: seq<string>, limit: Option<int>, r: Scan)
    requires |hrefs| > 0 && !IsNewHref(hrefs[0], acc)
    requires ScanFacts(hrefs[1..], acc, limit, r)
    ensures ScanFacts(hrefs, acc, limit, r)
  {
    assert forall h :: h in hrefs ==> h == hrefs[0] || h in hrefs[1..];
    assert forall x :: x in acc ==> x in r.urls;
  }

  /** The outer loop, from listing page `page` on, with `acc` collected so far. */
  function WalkFrom(fetch: string -> ListingPage, limit: Option<int>, page: nat, acc: seq<string>): (w: Walk)
    requires 1 <= page <= MaxPages
    ensures |w.fetched| <= MaxPages + 1 - page
    ensures forall i :: 0 <= i < |w.fetched| ==> w.fetched[i] == PageUrl(page + i)
    ensures acc <= w.urls
    ensures w.exit == PageCap ==> |w.fetched| == MaxPages + 1 - page
    decreases MaxPages - page
  {
    if LimitHit(limit, |acc|) then Walk(acc, [], LimitReached)
    else
      var url := PageUrl(page);
      match fetch(url)
      case Unreachable => Walk(acc, [url], FetchFailed)
      case Listing(hrefs, hasNext) =>
        if |hrefs| == 0 then Walk(acc, [url], NoLinks)
        else
          var scan := ScanLinks(hrefs, acc, limit);
          if LimitHit(limit, |scan.urls|) then Walk(scan.urls, [url], LimitReached)
          else if scan.added == 0 then Walk(scan.urls, [url], NoNewLinks)
          else if !hasNext then Walk(scan.urls, [url], NoNextButton)
          else if page + 1 > MaxPages then Walk(scan.urls, [url], PageCap)
          else
            var rest := WalkFrom(fetch, limit, page + 1, scan.urls);
            PagesFrom(page, rest.fetched);
            Walk(rest.urls, [url] + rest.fetched, rest.exit)
  }

  /** Prefixing page `page`'s URL to the URLs of pages `page + 1`, `page + 2`, ...
      gives the URLs of pages `page`, `page + 1`, ... */
  lemma PagesFrom(page: nat, later: seq<string>)
    requires forall i :: 0 <= i < |later| ==> later[i] == PageUrl(page + 1 + i)
    ensures var all := [PageUrl(page)] + later;
            forall i :: 0 <= i < |all| ==> all[i] == PageUrl(page + i)
  {
    var all := [PageUrl(page)] + later;
    forall i | 0 <= i < |all|
      ensures all[i] == PageUrl(page + i)
    {
      if i > 0 {
        assert all[i] == later[i - 1];
        assert page + 1 + (i - 1) == page + i;
      }
    }
  }

  /** The whole walk, from page 1 with nothing collected. */
  function Discover(fetch: string -> ListingPage, limit: Option<int>): (w: Walk)
    ensures |w.fetched| <= MaxPages
    ensures forall i :: 0 <= i < |w.fetched| ==> w.fetched[i] == PageUrl(i + 1)
    ensures w.exit == PageCap ==> |w.fetched| == MaxPages
  {
    WalkFrom(fetch, limit, 1, [])
  }

  /** `get_all_professor_urls`: the collected URLs as an unordered collection;
      since the walk never collects a URL twice, nothing is lost in the conversion. */
  function GetAllProfessorUrls(fetch: string -> ListingPage, limit: Option<int>): (r: set<string>)
    ensures |r| == |Discover(fetch, limit).urls|
  {
    WalkNoDup(fetch, limit, 1, []);
    DistinctCount(Discover(fetch, limit).urls);
    set u | u in Discover(fetch, limit).urls
  }

  /** The walk never collects a URL twice, and it respects a positive limit. */
  lemma {:induction false} WalkNoDup(fetch: string -> ListingPage, limit: Option<int>,
                                     page: nat, acc: seq<string>)
    requires 1 <= page <= MaxPages
    requires NoDup(acc)
    ensures NoDup(WalkFrom(fetch, limit, page, acc).urls)
    ensures Bounded(limit) && |acc| < limit.value ==> |WalkFrom(fetch, limit, page, acc).urls| <= limit.value
    ensures WalkFrom(fetch, limit, page, acc).exit == LimitReached
            <==> LimitHit(limit, |WalkFrom(fetch, limit, page, acc).urls|)
    decreases MaxPages - page
  {
    var w := WalkFrom(fetch, limit, page, acc);
    if !LimitHit(limit, |acc|) {
      var p := fetch(PageUrl(page));
      if p.Listing? && |p.hrefs| > 0 {
        var scan := ScanLinks(p.hrefs, acc, limit);
        if !LimitHit(limit, |scan.urls|) && scan.added != 0 && p.hasNext && page + 1 <= MaxPages {
          var rest := WalkFrom(fetch, limit, page + 1, scan.urls);
          assert w.urls == rest.urls && w.exit == rest.exit;
          WalkNoDup(fetch, limit, page + 1, scan.urls);
        } else {
          assert w.urls == scan.urls;
        }
      } else {
        assert w.urls == acc && w.exit != LimitReached;
      }
    } else {
      assert w.urls == acc && w.exit == LimitReached;
    }
  }

  /** `u` is a profile link on one of the listing pages fetched. */
  predicate FoundOn(fetch: string -> ListingPage, fetched: seq<string>, u: string)
    decreases |fetched|
  {
    |fetched| > 0 && (LinksTo(fetch(fetched[0]), u) || FoundOn(fetch, fetched[1..], u))
  }

  /** A find names the position of the page it was found on. */
  lemma {:induction false} FoundOnIndex(fetch: string -> ListingPage, fetched: seq<string>, u: string)
    requires FoundOn(fetch, fetched, u)
    ensures exists i :: 0 <= i < |fetched| && LinksTo(fetch(fetched[i]), u)
    decreases |fetched|
  {
    if !LinksTo(fetch(fetched[0]), u) {
      FoundOnIndex(fetch, fetched[1..], u);
      var i :| 0 <= i < |fetched| - 1 && LinksTo(fetch(fetched[1..][i]), u);
      assert fetched[i + 1] == fetched[1..][i];
    }
  }

  /** Every URL the walk adds is a profile link on one of the pages it fetched. */
  lemma {:induction false} WalkSound(fetch: string -> ListingPage, limit: Option<int>,
                                     page: nat, acc: seq<string>, k: nat)
    requires 1 <= page <= MaxPages
    requires |acc| <= k < |WalkFrom(fetch, limit, page, acc).urls|
    ensures FoundOn(fetch, WalkFrom(fetch, limit, page, acc).fetched, WalkFrom(fetch, limit, page, acc).urls[k])
    decreases MaxPages - page
  {
    var w := WalkFrom(fetch, limit, page, acc);
    var url := PageUrl(page);
    var p := fetch(url);
    assert !LimitHit(limit, |acc|) && p.Listing? && |p.hrefs| > 0;
    var scan := ScanLinks(p.hrefs, acc, limit);
    assert w.fetched[0] == url;
    if k < |scan.urls| {
      assert w.urls[k] == scan.urls[k];
      assert LinksTo(p, w.urls[k]);
    } else {
      var rest := WalkFrom(fetch, limit, page + 1, scan.urls);
      assert w.fetched[1..] == rest.fetched && w.urls == rest.urls;
      WalkSound(fetch, limit, page + 1, scan.urls, k);
    }
  }

  /** The walk was not cut short by the limit, and `u` is a profile link on the
      `i`-th page it fetched. */
  predicate LinkedAt(fetch: string -> ListingPage, w: Walk, i: nat, u: string)
  {
    w.exit != LimitReached && i < |w.fetched| && LinksTo(fetch(w.fetched[i]), u)
  }

  /** Unless the limit cut the walk short, every profile link on every fetched
      page is collected: here the link `u` on the `i`-th fetched page. */
  lemma {:induction false} WalkComplete(fetch: string -> ListingPage, limit: Option<int>,
                                        page: nat, acc: seq<string>, i: nat, u: string)
    requires 1 <= page <= MaxPages
    requires LinkedAt(fetch, WalkFrom(fetch, limit, page, acc), i, u)
    ensures u in WalkFrom(fetch, limit, page, acc).urls
    decreases MaxPages - page, 1
  {
    if i == 0 {
      FirstPageComplete(fetch, limit, page, acc, u);
    } else {
      LaterPageComplete(fetch, limit, page, acc, i, u);
    }
  }

  /** The links of a later fetched page are collected by the rest of the walk. */
  lemma {:induction false} LaterPageComplete(fetch: string -> ListingPage, limit: Option<int>,
                                             page: nat, acc: seq<string>, i: nat, u: string)
    requires 1 <= page <= MaxPages && 1 <= i
    requires LinkedAt(fetch, WalkFrom(fetch, limit, page, acc), i, u)
    ensures u in WalkFrom(fetch, limit, page, acc).urls
    decreases MaxPages - page, 0
  {
    var scan := ScanLinks(fetch(PageUrl(page)).hrefs, acc, limit);
    LaterPage(fetch, limit, page, acc, i, u);
    WalkComplete(fetch, limit, page + 1, scan.urls, i - 1, u);
  }

  /** The page a walk fetches at position `i > 0` is the one the rest of the walk
      fetches at position `i - 1`, and the rest collects what the whole walk does. */
  lemma LaterPage(fetch: string -> ListingPage, limit: Option<int>, page: nat, acc: seq<string>,
                  i: nat, u: string)
    requires 1 <= page <= MaxPages && 1 <= i
    requires LinkedAt(fetch, WalkFrom(fetch, limit, page, acc), i, u)
    ensures page + 1 <= MaxPages
    ensures var w := WalkFrom(fetch, limit, page, acc);
            var scan := ScanLinks(fetch(PageUrl(page)).hrefs, acc, limit);
            var rest := WalkFrom(fetch, limit, page + 1, scan.urls);
            LinkedAt(fetch, rest, i - 1, u) && w.urls == rest.urls
  {
    WalkOn(fetch, limit, page, acc);
  }

  /** A walk that fetches more than one page went on from its first page to the next,
      carrying what that page added. */
  lemma WalkOn(fetch: string -> ListingPage, limit: Option<int>, page: nat, acc: seq<string>)
    requires 1 <= page <= MaxPages
    requires |WalkFrom(fetch, limit, page, acc).fetched| > 1
    ensures page + 1 <= MaxPages
    ensures var scan := ScanLinks(fetch(PageUrl(page)).hrefs, acc, limit);
            var rest := WalkFrom(fetch, limit, page + 1, scan.urls);
            WalkFrom(fetch, limit, page, acc) == Walk(rest.urls, [PageUrl(page)] + rest.fetched, rest.exit)
  {
    var url := PageUrl(page);
    assert !LimitHit(limit, |acc|);
    var p := fetch(url);
    assert p.Listing? && |p.hrefs| > 0;
    var scan := ScanLinks(p.hrefs, acc, limit);
    assert !LimitHit(limit, |scan.urls|) && scan.added > 0 && p.hasNext;
  }

  /** The links of the first page a walk fetches are collected, unless the limit
      cut the walk short. */
  lemma FirstPageComplete(fetch: string -> ListingPage, limit: Option<int>,
                          page: nat, acc: seq<string>, u: string)
    requires 1 <= page <= MaxPages
    requires WalkFrom(fetch, limit, page, acc).exit != LimitReached
    requires LinksTo(fetch(PageUrl(page)), u)
    ensures u in WalkFrom(fetch, limit, page, acc).urls
  {
    var p := fetch(PageUrl(page));
    assert !LimitHit(limit, |acc|);
    var scan := ScanLinks(p.hrefs, acc, limit);
    assert !LimitHit(limit, |scan.urls|);
    assert Some(u) in p.hrefs && IsHref(Some(u));
    assert u in scan.urls;
  }

  /** Every collected URL is a link found on one of the first fifty listing pages. */
  lemma DiscoveredAreListed(fetch: string -> ListingPage, limit: Option<int>, u: string)
    requires u in GetAllProfessorUrls(fetch, limit)
    ensures exists n :: 1 <= n <= MaxPages && LinksTo(fetch(PageUrl(n)), u)
  {
    var w := Discover(fetch, limit);
    var k :| 0 <= k < |w.urls| && w.urls[k] == u;
    WalkSound(fetch, limit, 1, [], k);
    FoundOnIndex(fetch, w.fetched, u);
    var i :| 0 <= i < |w.fetched| && LinksTo(fetch(w.fetched[i]), u);
    assert w.fetched[i] == PageUrl(i + 1);
  }

  /** The number of distinct values of a sequence. */
  lemma {:induction false} DistinctCount(s: seq<string>)
    ensures |set u | u in s| <= |s|
    ensures NoDup(s) ==> |set u | u in s| == |s|
  {
    if |s| > 0 {
      var init := s[..|s| - 1];
      DistinctCount(init);
      assert (set u | u in s) == (set u | u in init) + {s[|s| - 1]};
      if NoDup(s) {
        assert NoDup(init);
        assert s[|s| - 1] !in init;
      }
    }
  }

  /** With a positive limit at most that many URLs come back; a negative limit
      stops before the first fetch; and no discovered URL is lost to deduplication. */
  lemma DiscoveryRespectsLimit(fetch: string -> ListingPage, limit: Option<int>)
    ensures Bounded(limit) && limit.value > 0 ==> |GetAllProfessorUrls(fetch, limit)| <= limit.value
    ensures Bounded(limit) && limit.value < 0 ==>
              GetAllProfessorUrls(fetch, limit) == {} && Discover(fetch, limit).fetched == []
    ensures |GetAllProfessorUrls(fetch, limit)| == |Discover(fetch, limit).urls|
  {
    WalkNoDup(fetch, limit, 1, []);
    DistinctCount(Discover(fetch, limit).urls);
  }

  /** When a walk is not cut short by the limit, every profile link on every
      fetched page is returned. */
  lemma DiscoveryIsComplete(fetch: string -> ListingPage, limit: Option<int>, n: nat, u: string)
    requires Discover(fetch, limit).exit != LimitReached
    requires 1 <= n <= |Discover(fetch, limit).fetched|
    requires LinksTo(fetch(PageUrl(n)), u)
    ensures u in GetAllProfessorUrls(fetch, limit)
  {
    var w := Discover(fetch, limit);
    assert w.fetched[n - 1] == PageUrl(n);
    assert LinkedAt(fetch, w, n - 1, u);
    WalkComplete(fetch, limit, 1, [], n - 1, u);
  }

  /** No listing page is fetched twice. */
  lemma FetchedOnce(fetch: string -> ListingPage, limit: Option<int>, i: nat, j: nat)
    requires i < j < |Discover(fetch, limit).fetched|
    ensures Discover(fetch, limit).fetched[i] != Discover(fetch, limit).fetched[j]
  {
    if PageUrl(i + 1) == PageUrl(j + 1) {
      PageUrlInjective(i + 1, j + 1);
    }
  }

  /** A page whose every link was already collected ends the walk with the
      collection unchanged; so do a failed fetch and a page without links. */
  lemma StopsWithCollected(fetch: string -> ListingPage, limit: Option<int>, page: nat, acc: seq<string>)
    requires 1 <= page <= MaxPages
    requires !LimitHit(limit, |acc|)
    ensures fetch(PageUrl(page)).Unreachable? ==>
              WalkFrom(fetch, limit, page, acc) == Walk(acc, [PageUrl(page)], FetchFailed)
    ensures fetch(PageUrl(page)).Listing? && |fetch(PageUrl(page)).hrefs| == 0 ==>
              WalkFrom(fetch, limit, page, acc) == Walk(acc, [PageUrl(page)], NoLinks)
    ensures fetch(PageUrl(page)).Listing? && |fetch(PageUrl(page)).hrefs| > 0
            && (forall h :: h in fetch(PageUrl(page)).hrefs ==> !IsNewHref(h, acc)) ==>
              WalkFrom(fetch, limit, page, acc) == Walk(acc, [PageUrl(page)], NoNewLinks)
  {
    var p := fetch(PageUrl(page));
    if p.Listing? && |p.hrefs| > 0 && (forall h :: h in p.hrefs ==> !IsNewHref(h, acc)) {
      NothingNew(p.hrefs, acc, limit);
    }
  }

  /** Scanning a page whose links are all known adds nothing. */
  lemma {:induction false} NothingNew(hrefs: seq<Option<string>>, acc: seq<string>, limit: Option<int>)
    requires forall h :: h in hrefs ==> !IsNewHref(h, acc)
    ensures ScanLinks(hrefs, acc, limit) == Scan(acc, 0)
    decreases |hrefs|
  {
    if |hrefs| > 0 {
      assert hrefs[0] in hrefs;
      NothingNew(hrefs[1..], acc, limit);
    }
  }

  /** A limit of 0 behaves exactly like no limit at all. */
  lemma {:induction false} ZeroLimitIsUnbounded(fetch: string -> ListingPage, page: nat, acc: seq<string>)
    requires 1 <= page <= MaxPages
    ensures WalkFrom(fetch, Some(0), page, acc) == WalkFrom(fetch, None, page, acc)
    decreases MaxPages - page
  {
    var p := fetch(PageUrl(page));
    if p.Listing? && |p.hrefs| > 0 {
      ZeroLimitScan(p.hrefs, acc);
      var scan := ScanLinks(p.hrefs, acc, None);
      if scan.added != 0 && p.hasNext && page + 1 <= MaxPages {
        ZeroLimitIsUnbounded(fetch, page + 1, scan.urls);
      }
    }
  }

  /** A limit of 0 never stops the scan of a page. */
  lemma {:induction false} ZeroLimitScan(hrefs: seq<Option<string>>, acc: seq<string>)
    ensures ScanLinks(hrefs, acc, Some(0)) == ScanLinks(hrefs, acc, None)
    decreases |hrefs|
  {
    if |hrefs| > 0 {
      if IsNewHref(hrefs[0], acc) {
        ZeroLimitScan(hrefs[1..], acc + [hrefs[0].value]);
      } else {
        ZeroLimitScan(hrefs[1..], acc);
      }
    }
  }

  /** The new hrefs of a page in page order, each once: what the inner loop appends
      when no limit stops it. */
  function NewHrefs(hrefs: seq<Option<string>>, acc: seq<string>): seq<string>
    decreases |hrefs|
  {
    if |hrefs| == 0 then []
    else if IsNewHref(hrefs[0], acc) then [hrefs[0].value] + NewHrefs(hrefs[1..], acc + [hrefs[0].value])
    else NewHrefs(hrefs[1..], acc)
  }

  /** The new hrefs are exactly the page's non-empty hrefs not yet collected. */
  lemma {:induction false} NewHrefsAreNew(hrefs: seq<Option<string>>, acc: seq<string>)
    ensures forall k :: 0 <= k < |NewHrefs(hrefs, acc)| ==>
              NewHrefs(hrefs, acc)[k] != "" && Some(NewHrefs(hrefs, acc)[k]) in hrefs
              && NewHrefs(hrefs, acc)[k] !in acc
    ensures forall h :: h in hrefs && IsHref(h) && h.value !in acc ==> h.value in NewHrefs(hrefs, acc)
    decreases |hrefs|
  {
    if |hrefs| > 0 {
      assert forall h :: h in hrefs ==> h == hrefs[0] || h in hrefs[1..];
      if IsNewHref(hrefs[0], acc) {
        var v := hrefs[0].value;
        NewHrefsAreNew(hrefs[1..], acc + [v]);
        assert NewHrefs(hrefs, acc) == [v] + NewHrefs(hrefs[1..], acc + [v]);
      } else {
        NewHrefsAreNew(hrefs[1..], acc);
      }
    }
  }

  /** Scanning `hrefs` onto `acc` keeps a prefix of the page's new hrefs, in page
      order, stops short of them all only at the limit, and reaches the limit with
      no href before the last one kept. */
  predicate KeepsFirstNew(hrefs: seq<Option<string>>, acc: seq<string>, limit: Option<int>)
  {
    var r := ScanLinks(hrefs, acc, limit);
    var novel := NewHrefs(hrefs, acc);
    && r.added <= |novel|
    && r.urls == acc + novel[..r.added]
    && (r.added < |novel| ==> LimitHit(limit, |r.urls|))
    && (r.added > 1 ==> !LimitHit(limit, |r.urls| - 1))
  }

  /** The inner loop keeps the page's first new hrefs, in page order, and stops at
      the first one that brings the collection to the limit. */
  lemma {:induction false} ScanTakesFirstNew(hrefs: seq<Option<string>>, acc: seq<string>, limit: Option<int>)
    ensures ScanLinks(hrefs, acc, limit).added <= |NewHrefs(hrefs, acc)|
    ensures ScanLinks(hrefs, acc, limit).urls == acc + NewHrefs(hrefs, acc)[..ScanLinks(hrefs, acc, limit).added]
    ensures ScanLinks(hrefs, acc, limit).added < |NewHrefs(hrefs, acc)| ==>
              LimitHit(limit, |ScanLinks(hrefs, acc, limit).urls|)
    ensures ScanLinks(hrefs, acc, limit).added > 1 ==>
              !LimitHit(limit, |ScanLinks(hrefs, acc, limit).urls| - 1)
  {
    ScanKeeps(hrefs, acc, limit);
    var r := ScanLinks(hrefs, acc, limit);
    var novel := NewHrefs(hrefs, acc);
    assert r.added <= |novel| && r.urls == acc + novel[..r.added];
  }

  /** `KeepsFirstNew` holds of every page and collection, by induction on the page. */
  lemma {:induction false} ScanKeeps(hrefs: seq<Option<string>>, acc: seq<string>, limit: Option<int>)
    ensures KeepsFirstNew(hrefs, acc, limit)
    decreases |hrefs|
  {
    if |hrefs| == 0 {
    } else if !IsNewHref(hrefs[0], acc) {
      ScanKeeps(hrefs[1..], acc, limit);
      assert NewHrefs(hrefs, acc) == NewHrefs(hrefs[1..], acc);
    } else {
      var v := hrefs[0].value;
      assert NewHrefs(hrefs, acc) == [v] + NewHrefs(hrefs[1..], acc + [v]);
      if LimitHit(limit, |acc| + 1) {
        ScanStopsAtFirst(hrefs, acc, limit);
      } else {
        ScanKeeps(hrefs[1..], acc + [v], limit);
        ScanTakesMore(hrefs, acc, limit);
      }
    }
  }

  /** A first href that is new and reaches the limit is the only one kept. */
  lemma ScanStopsAtFirst(hrefs: seq<Option<string>>, acc: seq<string>, limit: Option<int>)
    requires |hrefs| > 0 && IsNewHref(hrefs[0], acc) && LimitHit(limit, |acc| + 1)
    requires NewHrefs(hrefs, acc) == [hrefs[0].value] + NewHrefs(hrefs[1..], acc + [hrefs[0].value])
    ensures KeepsFirstNew(hrefs, acc, limit)
  {
    assert ScanLinks(hrefs, acc, limit) == Scan(acc + [hrefs[0].value], 1);
    assert NewHrefs(hrefs, acc)[..1] == [hrefs[0].value];
  }

  /** A first href that is new and stays below the limit is kept, followed by what
      the rest of the page keeps. */
  lemma ScanTakesMore(hrefs: seq<Option<string>>, acc: seq<string>, limit: Option<int>)
    requires |hrefs| > 0 && IsNewHref(hrefs[0], acc) && !LimitHit(limit, |acc| + 1)
    requires NewHrefs(hrefs, acc) == [hrefs[0].value] + NewHrefs(hrefs[1..], acc + [hrefs[0].value])
    requires KeepsFirstNew(hrefs[1..], acc + [hrefs[0].value], limit)
    ensures KeepsFirstNew(hrefs, acc, limit)
  {
    var v := hrefs[0].value;
    var grown := acc + [v];
    var later := NewHrefs(hrefs[1..], grown);
    var r := ScanLinks(hrefs[1..], grown, limit);
    assert r.added <= |later| && r.urls == grown + later[..r.added];
    assert ScanLinks(hrefs, acc, limit) == Scan(r.urls, r.added + 1);
    PrependKept(acc, v, later, r.urls, r.added);
    assert r.added > 0 ==> !LimitHit(limit, |r.urls| - 1);
  }

  /** Keeping `v` and then the first `n` of `later` keeps the first `n + 1` of `[v] + later`. */
  lemma PrependKept(acc: seq<string>, v: string, later: seq<string>, urls: seq<string>, n: nat)
    requires n <= |later| && urls == (acc + [v]) + later[..n]
    ensures urls == acc + ([v] + later)[..n + 1]
  {
    assert ([v] + later)[..n + 1] == [v] + later[..n];
  }

  /** The hrefs of a fetched page; a page that could not be fetched has none. */
  function HrefsOf(p: ListingPage): seq<Option<string>>
  {
    if p.Listing? then p.hrefs else []
  }

  /** Scanning the listed pages one after another onto `acc`: the collection the
      outer loop has built after reading those pages. */
  function ScanPages(fetch: string -> ListingPage, limit: Option<int>, pages: seq<string>, acc: seq<string>): seq<string>
    decreases |pages|
  {
    if |pages| == 0 then acc
    else ScanPages(fetch, limit, pages[1..], ScanLinks(HrefsOf(fetch(pages[0])), acc, limit).urls)
  }

  /** Scanning `url` and then `later` is scanning `later` onto what `url` added. */
  lemma ScanPagesCons(fetch: string -> ListingPage, limit: Option<int>, url: string,
                      later: seq<string>, acc: seq<string>)
    ensures ScanPages(fetch, limit, [url] + later, acc)
            == ScanPages(fetch, limit, later, ScanLinks(HrefsOf(fetch(url)), acc, limit).urls)
  {
    assert ([url] + later)[0] == url && ([url] + later)[1..] == later;
  }

  /** A walk that goes past its first page found that page a listing with links, a
      "next" link and new URLs, below the limit before and after, and went on with
      what that page added. */
  lemma FirstContinues(fetch: string -> ListingPage, limit: Option<int>, page: nat, acc: seq<string>)
    requires 1 <= page <= MaxPages
    requires |WalkFrom(fetch, limit, page, acc).fetched| > 1
    ensures page + 1 <= MaxPages
    ensures var p := fetch(PageUrl(page));
            && p.Listing? && |p.hrefs| > 0 && p.hasNext
            && !LimitHit(limit, |acc|)
            && ScanLinks(p.hrefs, acc, limit).added > 0
            && !LimitHit(limit, |ScanLinks(p.hrefs, acc, limit).urls|)
    ensures var scan := ScanLinks(HrefsOf(fetch(PageUrl(page))), acc, limit);
            var rest := WalkFrom(fetch, limit, page + 1, scan.urls);
            WalkFrom(fetch, limit, page, acc) == Walk(rest.urls, [PageUrl(page)] + rest.fetched, rest.exit)
  {
    WalkOn(fetch, limit, page, acc);
    var p := fetch(PageUrl(page));
    assert !LimitHit(limit, |acc|);
    assert p.Listing? && |p.hrefs| > 0;
  }

  /** The walk collects exactly what scanning its fetched pages in order collects. */
  lemma {:induction false} WalkCollects(fetch: string -> ListingPage, limit: Option<int>, page: nat, acc: seq<string>)
    requires 1 <= page <= MaxPages
    ensures WalkFrom(fetch, limit, page, acc).urls == ScanPages(fetch, limit, WalkFrom(fetch, limit, page, acc).fetched, acc)
    decreases MaxPages - page
  {
    var w := WalkFrom(fetch, limit, page, acc);
    if |w.fetched| > 1 {
      FirstContinues(fetch, limit, page, acc);
      var scan := ScanLinks(HrefsOf(fetch(PageUrl(page))), acc, limit);
      var rest := WalkFrom(fetch, limit, page + 1, scan.urls);
      WalkCollects(fetch, limit, page + 1, scan.urls);
      ScanPagesCons(fetch, limit, PageUrl(page), rest.fetched, acc);
    } else if |w.fetched| == 1 {
      FirstIsLast(fetch, limit, page, acc);
      ScanPagesCons(fetch, limit, PageUrl(page), [], acc);
    }
  }

  /** Before its last page, every page the walk fetched was a listing with links and
      a "next" link, the collection was below the limit, and the page added at least
      one new URL without reaching the limit. */
  lemma {:induction false} WalkProgress(fetch: string -> ListingPage, limit: Option<int>,
                                        page: nat, acc: seq<string>, i: nat)
    requires 1 <= page <= MaxPages
    requires i + 1 < |WalkFrom(fetch, limit, page, acc).fetched|
    ensures var w := WalkFrom(fetch, limit, page, acc);
            Continued(fetch(w.fetched[i]), ScanPages(fetch, limit, w.fetched[..i], acc), limit)
    decreases MaxPages - page
  {
    FirstContinues(fetch, limit, page, acc);
    var url := PageUrl(page);
    var scan := ScanLinks(HrefsOf(fetch(url)), acc, limit);
    var rest := WalkFrom(fetch, limit, page + 1, scan.urls);
    if i == 0 {
      ContinuedFirst(fetch, limit, url, rest.fetched, acc);
    } else {
      WalkProgress(fetch, limit, page + 1, scan.urls, i - 1);
      ContinuedLater(fetch, limit, url, rest.fetched, acc, i);
    }
  }

  /** The first page of `[url] + later`, scanned onto nothing more than `acc`. */
  lemma ContinuedFirst(fetch: string -> ListingPage, limit: Option<int>, url: string,
                       later: seq<string>, acc: seq<string>)
    requires Continued(fetch(url), acc, limit)
    ensures Continued(fetch(([url] + later)[0]), ScanPages(fetch, limit, ([url] + later)[..0], acc), limit)
  {
    assert ([url] + later)[..0] == [];
  }

  /** Position `i` of `[url] + later` is position `i - 1` of `later`, scanned onto
      what `url` added. */
  lemma ContinuedLater(fetch: string -> ListingPage, limit: Option<int>, url: string,
                       later: seq<string>, acc: seq<string>, i: nat)
    requires 1 <= i <= |later|
    requires Continued(fetch(later[i - 1]),
                       ScanPages(fetch, limit, later[..i - 1], ScanLinks(HrefsOf(fetch(url)), acc, limit).urls), limit)
    ensures Continued(fetch(([url] + later)[i]), ScanPages(fetch, limit, ([url] + later)[..i], acc), limit)
  {
    assert ([url] + later)[i] == later[i - 1];
    assert ([url] + later)[..i] == [url] + later[..i - 1];
    ScanPagesCons(fetch, limit, url, later[..i - 1], acc);
  }

  /** The page `p`, scanned onto `before`, lets the walk go on: a listing with links
      and a "next" link, below the limit before, adding at least one new URL and
      staying below the limit after. */
  predicate Continued(p: ListingPage, before: seq<string>, limit: Option<int>)
  {
    && p.Listing? && |p.hrefs| > 0 && p.hasNext
    && !LimitHit(limit, |before|)
    && ScanLinks(p.hrefs, before, limit).added > 0
    && !LimitHit(limit, |ScanLinks(p.hrefs, before, limit).urls|)
  }

  /** The exit reason agrees with the last page fetched, scanned onto `before`:
      a failed fetch, no links, the limit met, nothing new, no "next" link, or a
      page that would have let the walk go on. */
  predicate ExitMatches(exit: Exit, last: ListingPage, before: seq<string>, limit: Option<int>)
  {
    var scan := ScanLinks(HrefsOf(last), before, limit);
    && !LimitHit(limit, |before|)
    && (exit == FetchFailed <==> last.Unreachable?)
    && (exit == NoLinks <==> last.Listing? && |last.hrefs| == 0)
    && (exit == LimitReached ==> last.Listing? && |last.hrefs| > 0 && LimitHit(limit, |scan.urls|))
    && (exit == NoNewLinks ==> last.Listing? && |last.hrefs| > 0 && scan.added == 0)
    && (exit == NoNextButton ==> last.Listing? && scan.added > 0 && !last.hasNext)
    && (exit == PageCap ==> Continued(last, before, limit))
  }

  /** A walk that fetched something stopped for the reason its last page gives,
      that page scanned onto what the earlier pages collected from `acc`. */
  predicate EndsAtLast(fetch: string -> ListingPage, limit: Option<int>, w: Walk, acc: seq<string>)
  {
    |w.fetched| > 0 ==>
      ExitMatches(w.exit, fetch(w.fetched[|w.fetched| - 1]),
                  ScanPages(fetch, limit, w.fetched[..|w.fetched| - 1], acc), limit)
  }

  /** A walk fetches no page exactly when the collection already meets the limit. */
  lemma FetchesNone(fetch: string -> ListingPage, limit: Option<int>, page: nat, acc: seq<string>)
    requires 1 <= page <= MaxPages
    ensures |WalkFrom(fetch, limit, page, acc).fetched| == 0 <==> LimitHit(limit, |acc|)
  {
    if !LimitHit(limit, |acc|) {
      var p := fetch(PageUrl(page));
      if p.Listing? && |p.hrefs| > 0 {
        var scan := ScanLinks(p.hrefs, acc, limit);
        if !LimitHit(limit, |scan.urls|) && scan.added != 0 && p.hasNext && page + 1 <= MaxPages {
          assert WalkFrom(fetch, limit, page, acc).fetched[0] == PageUrl(page);
        }
      }
    }
  }

  /** A walk that fetches exactly one page stops for a reason that page gives. */
  lemma FirstIsLast(fetch: string -> ListingPage, limit: Option<int>, page: nat, acc: seq<string>)
    requires 1 <= page <= MaxPages
    requires |WalkFrom(fetch, limit, page, acc).fetched| == 1
    ensures var w := WalkFrom(fetch, limit, page, acc);
            && w.fetched == [PageUrl(page)]
            && w.urls == ScanLinks(HrefsOf(fetch(PageUrl(page))), acc, limit).urls
            && ExitMatches(w.exit, fetch(PageUrl(page)), acc, limit)
            && (w.exit == PageCap ==> page == MaxPages)
  {
    var p := fetch(PageUrl(page));
    FetchesNone(fetch, limit, page, acc);
    if p.Unreachable? || |p.hrefs| == 0 {
      LastUnread(fetch, limit, page, acc);
    } else {
      LastScanned(fetch, limit, page, acc);
    }
  }

  /** A walk whose first page failed or had no links stops there. */
  lemma LastUnread(fetch: string -> ListingPage, limit: Option<int>, page: nat, acc: seq<string>)
    requires 1 <= page <= MaxPages
    requires !LimitHit(limit, |acc|)
    requires fetch(PageUrl(page)).Unreachable? || |fetch(PageUrl(page)).hrefs| == 0
    ensures var w := WalkFrom(fetch, limit, page, acc);
            && w.fetched == [PageUrl(page)]
            && w.urls == ScanLinks(HrefsOf(fetch(PageUrl(page))), acc, limit).urls
            && ExitMatches(w.exit, fetch(PageUrl(page)), acc, limit)
            && w.exit != PageCap
  {
    var url := PageUrl(page);
    var p := fetch(url);
    assert ScanLinks(HrefsOf(p), acc, limit) == Scan(acc, 0);
    if p.Unreachable? {
      assert WalkFrom(fetch, limit, page, acc) == Walk(acc, [url], FetchFailed);
    } else {
      assert WalkFrom(fetch, limit, page, acc) == Walk(acc, [url], NoLinks);
    }
  }

  /** A walk that fetches only its first page, a listing with links, stops for the
      limit, for nothing new, for a missing "next" link, or at the fiftieth page. */
  lemma LastScanned(fetch: string -> ListingPage, limit: Option<int>, page: nat, acc: seq<string>)
    requires 1 <= page <= MaxPages
    requires !LimitHit(limit, |acc|)
    requires fetch(PageUrl(page)).Listing? && |fetch(PageUrl(page)).hrefs| > 0
    requires |WalkFrom(fetch, limit, page, acc).fetched| == 1
    ensures var w := WalkFrom(fetch, limit, page, acc);
            && w.fetched == [PageUrl(page)]
            && w.urls == ScanLinks(HrefsOf(fetch(PageUrl(page))), acc, limit).urls
            && ExitMatches(w.exit, fetch(PageUrl(page)), acc, limit)
            && (w.exit == PageCap ==> page == MaxPages)
  {
    var w := WalkFrom(fetch, limit, page, acc);
    var url := PageUrl(page);
    var p := fetch(url);
    var scan := ScanLinks(p.hrefs, acc, limit);
    assert HrefsOf(p) == p.hrefs;
    if LimitHit(limit, |scan.urls|) {
      assert w == Walk(scan.urls, [url], LimitReached);
    } else if scan.added == 0 {
      assert w == Walk(scan.urls, [url], NoNewLinks);
    } else if !p.hasNext {
      assert w == Walk(scan.urls, [url], NoNextButton);
    } else {
      if page + 1 <= MaxPages {
        FetchesNone(fetch, limit, page + 1, scan.urls);
        assert false;
      }
      assert w == Walk(scan.urls, [url], PageCap);
    }
  }

  /** A walk that fetches anything ends for the reason its last page gives: that
      page failed, had no links, reached the limit, had nothing new, had no "next"
      link, or was the fiftieth. */
  lemma {:induction false} WalkExit(fetch: string -> ListingPage, limit: Option<int>, page: nat, acc: seq<string>)
    requires 1 <= page <= MaxPages
    ensures var w := WalkFrom(fetch, limit, page, acc);
            var n := |w.fetched|;
            n > 0 ==> ExitMatches(w.exit, fetch(w.fetched[n - 1]), ScanPages(fetch, limit, w.fetched[..n - 1], acc), limit)
    decreases MaxPages - page
  {
    WalkEnds(fetch, limit, page, acc);
  }

  /** `EndsAtLast` holds of every walk, by induction on the pages left. */
  lemma {:induction false} WalkEnds(fetch: string -> ListingPage, limit: Option<int>, page: nat, acc: seq<string>)
    requires 1 <= page <= MaxPages
    ensures EndsAtLast(fetch, limit, WalkFrom(fetch, limit, page, acc), acc)
    decreases MaxPages - page
  {
    var n := |WalkFrom(fetch, limit, page, acc).fetched|;
    if n > 1 {
      FirstContinues(fetch, limit, page, acc);
      var url := PageUrl(page);
      var scan := ScanLinks(HrefsOf(fetch(url)), acc, limit);
      WalkEnds(fetch, limit, page + 1, scan.urls);
      EndsCarry(fetch, limit, url, WalkFrom(fetch, limit, page + 1, scan.urls), acc);
    } else if n == 1 {
      FirstIsLast(fetch, limit, page, acc);
      EndsOnly(fetch, limit, WalkFrom(fetch, limit, page, acc), acc);
    }
  }

  /** A walk of one page ends at that page. */
  lemma EndsOnly(fetch: string -> ListingPage, limit: Option<int>, w: Walk, acc: seq<string>)
    requires |w.fetched| == 1
    requires ExitMatches(w.exit, fetch(w.fetched[0]), acc, limit)
    ensures EndsAtLast(fetch, limit, w, acc)
  {
    assert w.fetched[..0] == [];
  }

  /** Putting a page in front of a walk that ends at its last page, and starting
      from what that page added, still ends at the same last page. */
  lemma EndsCarry(fetch: string -> ListingPage, limit: Option<int>, url: string, rest: Walk, acc: seq<string>)
    requires |rest.fetched| > 0
    requires EndsAtLast(fetch, limit, rest, ScanLinks(HrefsOf(fetch(url)), acc, limit).urls)
    ensures EndsAtLast(fetch, limit, Walk(rest.urls, [url] + rest.fetched, rest.exit), acc)
  {
    var m := |rest.fetched|;
    var all := [url] + rest.fetched;
    assert all[m] == rest.fetched[m - 1];
    assert all[..m] == [url] + rest.fetched[..m - 1];
    ScanPagesCons(fetch, limit, url, rest.fetched[..m - 1], acc);
  }

  /** The whole walk: it collects what scanning its pages in order collects; it
      fetches nothing only under a negative limit; every page but the last let it
      go on; and the last page gives the reason it stopped. */
  lemma DiscoveryStops(fetch: string -> ListingPage, limit: Option<int>)
    ensures var w := Discover(fetch, limit);
            && w.urls == ScanPages(fetch, limit, w.fetched, [])
            && (|w.fetched| == 0 <==> Bounded(limit) && limit.value < 0)
            && (forall i :: 0 <= i < |w.fetched| - 1 ==>
                  Continued(fetch(w.fetched[i]), ScanPages(fetch, limit, w.fetched[..i], []), limit))
            && (|w.fetched| > 0 ==>
                  ExitMatches(w.exit, fetch(w.fetched[|w.fetched| - 1]),
                              ScanPages(fetch, limit, w.fetched[..|w.fetched| - 1], []), limit))
  {
    var w := Discover(fetch, limit);
    WalkCollects(fetch, limit, 1, []);
    FetchesNone(fetch, limit, 1, []);
    WalkExit(fetch, limit, 1, []);
    forall i | 0 <= i < |w.fetched| - 1
      ensures Continued(fetch(w.fetched[i]), ScanPages(fetch, limit, w.fetched[..i], []), limit)
    {
      WalkProgress(fetch, limit, 1, [], i);
    }
  }
}
