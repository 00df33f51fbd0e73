/** `fetch_url` (code/crawler.py) as a transition of the crawler state. The
    network exchange is an input (`Reply`); the page's parsed content, the
    site's paused flag, the files already on disk and the page's file name
    (the md5 of the URL) are parameters. Log lines and the status file are
    output only and are not modelled. */
module Fetch {
  import opened Wrappers
  import opened JsonValue
  import opened Frontier
  import opened SchemaExtraction

  /** How the request went: the domain was still backing off (the URL goes
      back to the shared queue, which is not part of this model), a response
      with its status and, for a 200, the parsed page, a timeout, or any
      other exception. */
  datatype Reply =
    | DomainBusy
    | Response(status: nat, scripts: seq<Script>, page: Page)
    | TimedOut
    | Failed

  /** The files a site has on disk, read once per site. */
  datatype Disk = Disk(crawledFiles: set<string>, storedKeys: set<string>)

  /** `site_queues[site].append(url)`, creating the queue (at the end of the
      dictionary order) when the site has none. */
  function AppendToQueue(st: CrawlerState, site: string, url: string): (r: CrawlerState)
    requires Valid(st)
    ensures Valid(r)
    ensures site in r.siteQueues && r.siteQueues[site] == Get(st.siteQueues, site).GetOr([]) + [url]
    ensures r == st.(siteQueues := r.siteQueues, queueOrder := r.queueOrder)
    ensures site in st.siteQueues ==> r.queueOrder == st.queueOrder
    ensures site !in st.siteQueues ==> r.queueOrder == st.queueOrder + [site]
    ensures forall s :: s != site ==> View(r, s) == View(st, s)
    ensures Without(r.queueOrder, site) == Without(st.queueOrder, site)
  {
    if site in st.siteQueues then
      st.(siteQueues := st.siteQueues[site := st.siteQueues[site] + [url]])
    else
      WithoutSnoc(st.queueOrder, site);
      assert Distinct(st.queueOrder + [site]) by {
        forall i, j | 0 <= i < j < |st.queueOrder + [site]| ensures (st.queueOrder + [site])[i] != (st.queueOrder + [site])[j] {
          if j == |st.queueOrder| {
            assert (st.queueOrder + [site])[i] == st.queueOrder[i];
          }
        }
      }
      st.(siteQueues := st.siteQueues[site := [url]], queueOrder := st.queueOrder + [site])
  }

  lemma {:induction false} WithoutSnoc(xs: seq<string>, x: string)
    ensures Without(xs + [x], x) == Without(xs, x)
    decreases |xs|
  {
    if |xs| == 0 {
      assert [x][1..] == [];
    } else {
      assert (xs + [x])[1..] == xs[1..] + [x];
      WithoutSnoc(xs[1..], x);
    }
  }

  /** `load_crawled_urls`: the first time a site is seen its set of crawled
      file names is read from its docs directory. */
  function LoadCrawled(st: CrawlerState, site: string, files: set<string>): (r: CrawlerState)
    ensures r == st.(crawledUrls := r.crawledUrls)
    ensures site in r.crawledUrls
    ensures site in st.crawledUrls ==> r == st
    ensures site !in st.crawledUrls ==> r.crawledUrls[site] == files
    ensures forall s :: s != site ==> View(r, s) == View(st, s)
  {
    if site in st.crawledUrls then st else st.(crawledUrls := st.crawledUrls[site := files])
  }

  /** The error a reply is counted under, if any. */
  function ReplyError(reply: Reply): (r: Option<ErrorCode>)
    ensures r.None? <==> reply.DomainBusy? || (reply.Response? && reply.status == 200)
    ensures reply.Response? && reply.status != 200 ==> r == Some(HttpStatus(reply.status))
    ensures reply.TimedOut? ==> r == Some(Timeout)
    ensures reply.Failed? ==> r == Some(GeneralError)
  {
    match reply
    case Response(code, _, _) => if code == 200 then None else Some(HttpStatus(code))
    case TimedOut => Some(Timeout)
    case Failed => Some(GeneralError)
    case DomainBusy => None
  }

  /** `fetch_url(site, url)`: the state afterwards and the records written
      to the site's JSON file. */
  function FetchUrl(st: CrawlerState, site: string, url: string, paused: bool, disk: Disk,
                    filename: string, now: string, reply: Reply): (r: (CrawlerState, seq<Json>))
    requires Valid(st)
    ensures Valid(r.0)
    ensures site in st.deleted ==> r == (st, [])
    ensures site !in st.deleted && paused ==>
      r == (AppendToQueue(st, site, url), [])
    ensures site !in st.deleted ==> forall s :: s != site ==> View(r.0, s) == View(st, s)
    ensures site !in st.deleted ==> r.0.lastSiteIndex == st.lastSiteIndex && r.0.deleted == st.deleted
    ensures |r.1| > 0 ==> site in r.0.crawledUrls && filename in r.0.crawledUrls[site]
    ensures forall i :: 0 <= i < |r.1| ==> IsRecord(r.1[i])
  {
    if site in st.deleted then (st, [])
    else if paused then (AppendToQueue(st, site, url), [])
    else
      var st1 := LoadCrawled(st, site, disk.crawledFiles);
      if filename in st1.crawledUrls[site] then (st1, [])
      else match reply
        case DomainBusy => (st1, [])
        case TimedOut => (TrackError(st1, site, Timeout), [])
        case Failed => (TrackError(st1, site, GeneralError), [])
        case Response(code, scripts, page) =>
          if code == 200 then
            match ExtractSchemaOrg(st1, site, url, now, disk.storedKeys, scripts, page)
            case Raised(a) => (TrackError(a.st, site, GeneralError), [])
            case Done(a) =>
              var crawled := a.st.crawledUrls[site := a.st.crawledUrls[site] + {filename}];
              (a.st.(crawledUrls := crawled), a.records)
          else
            var st2 := TrackError(st1, site, HttpStatus(code));
            if code == 429 then (AppendToQueue(st2, site, url), []) else (st2, [])
  }

  /** The site is live, not paused, and the page's file is not on record:
      the request is made. */
  predicate Fetches(st: CrawlerState, site: string, paused: bool, disk: Disk, filename: string) {
    site !in st.deleted && !paused && filename !in LoadCrawled(st, site, disk.crawledFiles).crawledUrls[site]
  }

  /** A page already on record is not fetched again: only the site's crawled
      set may be read in. */
  lemma FetchSkipsCrawled(st: CrawlerState, site: string, url: string, paused: bool, disk: Disk,
                          filename: string, now: string, reply: Reply)
    requires Valid(st) && site !in st.deleted && !paused
    requires filename in LoadCrawled(st, site, disk.crawledFiles).crawledUrls[site]
    ensures FetchUrl(st, site, url, paused, disk, filename, now, reply) == (LoadCrawled(st, site, disk.crawledFiles), [])
  {
  }

  /** A failed request is counted as one error and touches nothing but
      the error counters and, for a 429, the site's queue. */
  lemma FetchFailure(st: CrawlerState, site: string, url: string, paused: bool, disk: Disk,
                     filename: string, now: string, reply: Reply)
    requires Valid(st) && Fetches(st, site, paused, disk, filename) && ReplyError(reply).Some?
    ensures var st2 := TrackError(LoadCrawled(st, site, disk.crawledFiles), site, ReplyError(reply).value);
      FetchUrl(st, site, url, paused, disk, filename, now, reply) ==
        if reply.Response? && reply.status == 429 then (AppendToQueue(st2, site, url), []) else (st2, [])
  {
  }

  /** A failed request counts one error under the status code, `TIMEOUT` or
      `ERROR`, writes no record and marks nothing crawled. */
  lemma FetchCountsError(st: CrawlerState, site: string, url: string, paused: bool, disk: Disk,
                         filename: string, now: string, reply: Reply)
    requires Valid(st) && Fetches(st, site, paused, disk, filename) && ReplyError(reply).Some?
    ensures var r := FetchUrl(st, site, url, paused, disk, filename, now, reply);
      var key := ErrorKey(ReplyError(reply).value);
      && r.1 == []
      && ErrorCount(r.0, site, key) == ErrorCount(st, site, key) + 1
      && (forall k :: k != key ==> ErrorCount(r.0, site, k) == ErrorCount(st, site, k))
      && r.0.crawledUrls == LoadCrawled(st, site, disk.crawledFiles).crawledUrls
  {
    FetchFailure(st, site, url, paused, disk, filename, now, reply);
    var st1 := LoadCrawled(st, site, disk.crawledFiles);
    var code := ReplyError(reply).value;
    assert ErrorCount(st1, site, ErrorKey(code)) == ErrorCount(st, site, ErrorKey(code));
  }

  /** A 429 puts the URL back at the end of the site's queue; no other
      failure touches the queues. Nothing bounds how often this happens. */
  lemma FetchRequeuesThrottled(st: CrawlerState, site: string, url: string, paused: bool, disk: Disk,
                               filename: string, now: string, reply: Reply)
    requires Valid(st) && Fetches(st, site, paused, disk, filename) && ReplyError(reply).Some?
    ensures var r := FetchUrl(st, site, url, paused, disk, filename, now, reply);
      && (reply.Response? && reply.status == 429 ==>
            site in r.0.siteQueues && r.0.siteQueues[site] == Get(st.siteQueues, site).GetOr([]) + [url])
      && (!(reply.Response? && reply.status == 429) ==> r.0.siteQueues == st.siteQueues)
  {
    FetchFailure(st, site, url, paused, disk, filename, now, reply);
  }

  /** A page that answers 200 and whose extraction completes is marked
      crawled and its records (at least one) are written; no error is
      counted. */
  lemma FetchStoresPage(st: CrawlerState, site: string, url: string, paused: bool, disk: Disk,
                        filename: string, now: string, scripts: seq<Script>, page: Page)
    requires Valid(st) && Fetches(st, site, paused, disk, filename)
    requires ExtractSchemaOrg(LoadCrawled(st, site, disk.crawledFiles), site, url, now, disk.storedKeys, scripts, page).Done?
    ensures var r := FetchUrl(st, site, url, paused, disk, filename, now, Response(200, scripts, page));
      var a := ExtractSchemaOrg(LoadCrawled(st, site, disk.crawledFiles), site, url, now, disk.storedKeys, scripts, page).value;
      && r.1 == a.records && |r.1| >= 1
      && site in r.0.crawledUrls
      && r.0.crawledUrls[site] == LoadCrawled(st, site, disk.crawledFiles).crawledUrls[site] + {filename}
      && r.0.siteErrors == st.siteErrors && r.0.siteQueues == st.siteQueues
  {
  }

  /** An extraction that raises is counted as `ERROR` and the page is not
      marked crawled, so a later visit fetches it again. */
  lemma FetchExtractionFails(st: CrawlerState, site: string, url: string, paused: bool, disk: Disk,
                             filename: string, now: string, scripts: seq<Script>, page: Page)
    requires Valid(st) && Fetches(st, site, paused, disk, filename)
    requires ExtractSchemaOrg(LoadCrawled(st, site, disk.crawledFiles), site, url, now, disk.storedKeys, scripts, page).Raised?
    ensures var r := FetchUrl(st, site, url, paused, disk, filename, now, Response(200, scripts, page));
      && r.1 == []
      && ErrorCount(r.0, site, "ERROR") == ErrorCount(st, site, "ERROR") + 1
      && Fetches(r.0, site, paused, disk, filename)
  {
  }

  /** Once a page is stored, fetching the same URL again changes nothing,
      whatever the network would answer. */
  lemma FetchStoredPageOnce(st: CrawlerState, site: string, url: string, paused: bool, disk: Disk,
                            filename: string, now: string, scripts: seq<Script>, page: Page, again: Reply)
    requires Valid(st) && Fetches(st, site, paused, disk, filename)
    requires ExtractSchemaOrg(LoadCrawled(st, site, disk.crawledFiles), site, url, now, disk.storedKeys, scripts, page).Done?
    ensures var r := FetchUrl(st, site, url, paused, disk, filename, now, Response(200, scripts, page));
      FetchUrl(r.0, site, url, paused, disk, filename, now, again) == (r.0, [])
  {
    FetchStoresPage(st, site, url, paused, disk, filename, now, scripts, page);
  }
}
