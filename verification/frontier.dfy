/** The in-memory bookkeeping of the crawler (code/crawler.py, class
    `Crawler`): the per-site URL queues with their round-robin cursor, the
    deleted-site set, the per-site error counters, the JSON-LD key ledger and
    the per-site `@type` counters. Every operation is a pure state
    transition. */
module Frontier {
  import opened Wrappers
  import opened JsonValue
  import Text

  /** The crawler's per-site dictionaries. `queueOrder` records the insertion
      order of the keys of `siteQueues`, which Python's `dict` iterates in. */
  datatype CrawlerState = CrawlerState(
    sitesUrls: map<string, seq<string>>,
    crawledUrls: map<string, set<string>>,
    siteErrors: map<string, map<string, int>>,
    siteQueues: map<string, seq<string>>,
    queueOrder: seq<string>,
    lastSiteIndex: nat,
    jsonKeys: map<string, set<string>>,
    jsonTypeCounts: map<string, map<string, int>>,
    deleted: set<string>)

  /** The state the crawler starts in: every dictionary and set empty. */
  function Initial(): (st: CrawlerState)
    ensures Valid(st)
  {
    CrawlerState(map[], map[], map[], map[], [], 0, map[], map[], {})
  }

  predicate Distinct<T(==)>(xs: seq<T>) {
    forall i, j :: 0 <= i < j < |xs| ==> xs[i] != xs[j]
  }

  /** `queueOrder` lists every key of `siteQueues` exactly once. */
  ghost predicate Valid(st: CrawlerState) {
    && Distinct(st.queueOrder)
    && (forall s :: s in st.queueOrder <==> s in st.siteQueues)
  }

  function Get<K, V>(m: map<K, V>, k: K): Option<V> {
    if k in m then Some(m[k]) else None
  }

  /** Everything the crawler holds about one site. */
  datatype SiteView = SiteView(
    urls: Option<seq<string>>,
    crawled: Option<set<string>>,
    errors: Option<map<string, int>>,
    queue: Option<seq<string>>,
    keys: Option<set<string>>,
    typeCounts: Option<map<string, int>>,
    isDeleted: bool)

  function View(st: CrawlerState, s: string): SiteView {
    SiteView(Get(st.sitesUrls, s), Get(st.crawledUrls, s), Get(st.siteErrors, s),
             Get(st.siteQueues, s), Get(st.jsonKeys, s), Get(st.jsonTypeCounts, s),
             s in st.deleted)
  }

  /** Two states agree on every site other than `site` and on the
      round-robin cursor; the relative order of the other queues is kept. */
  ghost predicate OthersUnchanged(a: CrawlerState, b: CrawlerState, site: string) {
    && a.lastSiteIndex == b.lastSiteIndex
    && Without(a.queueOrder, site) == Without(b.queueOrder, site)
    && forall s :: s != site ==> View(a, s) == View(b, s)
  }

  // ---------------------------------------------------------------------
  // Round-robin selection (get_next_url, site-queue branch)
  // ---------------------------------------------------------------------

  /** The sites `get_next_url` rotates over: those, in dictionary order,
      whose queue is non-empty and which are not deleted. */
  function ActiveSites(order: seq<string>, queues: map<string, seq<string>>, deleted: set<string>): (r: seq<string>)
    ensures |r| <= |order|
    ensures forall s :: s in r <==> s in order && s in queues && queues[s] != [] && s !in deleted
    ensures Distinct(order) ==> Distinct(r)
  {
    if |order| == 0 then []
    else
      var s := order[0];
      var rest := ActiveSites(order[1..], queues, deleted);
      assert forall t :: t in order[1..] ==> t in order;
      assert Distinct(order) ==> Distinct(order[1..]) by {
        if Distinct(order) {
          forall i, j | 0 <= i < j < |order[1..]| ensures order[1..][i] != order[1..][j] {
            assert order[i + 1] != order[j + 1];
          }
        }
      }
      if s in queues && queues[s] != [] && s !in deleted then [s] + rest else rest
  }

  /** With distinct keys, the active sites come in dictionary order: any
      two of them appear in `order` as they appear in the result. */
  lemma {:induction false} ActiveSitesInOrder(order: seq<string>, queues: map<string, seq<string>>, deleted: set<string>)
    requires Distinct(order)
    ensures InOrder(ActiveSites(order, queues, deleted), order)
    decreases |order|
  {
    if |order| > 0 {
      var s := order[0];
      var rest := ActiveSites(order[1..], queues, deleted);
      assert Distinct(order[1..]) by {
        forall i, j | 0 <= i < j < |order[1..]| ensures order[1..][i] != order[1..][j] {
          assert order[i + 1] != order[j + 1];
        }
      }
      ActiveSitesInOrder(order[1..], queues, deleted);
      if s in queues && queues[s] != [] && s !in deleted {
        InOrderCons(order, rest);
      } else {
        InOrderTail(order, rest);
      }
    }
  }

  /** Every two elements of `r` occur in `order` in the same order as in
      `r`. */
  ghost predicate InOrder(r: seq<string>, order: seq<string>) {
    forall i, j, a, b ::
      (0 <= i < j < |r| && 0 <= a < |order| && 0 <= b < |order| && order[a] == r[i] && order[b] == r[j]) ==> a < b
  }

  /** A list in the order of `order`'s tail, none of whose elements is
      `order`'s head, keeps that order in `order`, with or without the head
      in front. */
  lemma InOrderTail(order: seq<string>, r: seq<string>)
    requires |order| > 0 && Distinct(order)
    requires forall t :: t in r ==> t in order[1..]
    requires InOrder(r, order[1..])
    ensures InOrder(r, order)
  {
    forall i, j, a, b | 0 <= i < j < |r| && 0 <= a < |order| && 0 <= b < |order|
      && order[a] == r[i] && order[b] == r[j]
      ensures a < b
    {
      NotHead(order, r[i], a);
      NotHead(order, r[j], b);
      assert order[1..][a - 1] == r[i] && order[1..][b - 1] == r[j];
    }
  }

  lemma InOrderCons(order: seq<string>, r: seq<string>)
    requires |order| > 0 && Distinct(order)
    requires forall t :: t in r ==> t in order[1..]
    requires InOrder(r, order[1..])
    ensures InOrder([order[0]] + r, order)
  {
    InOrderTail(order, r);
    var r' := [order[0]] + r;
    forall i, j, a, b | 0 <= i < j < |r'| && 0 <= a < |order| && 0 <= b < |order|
      && order[a] == r'[i] && order[b] == r'[j]
      ensures a < b
    {
      assert r'[j] == r[j - 1];
      NotHead(order, r'[j], b);
      if i == 0 {
        assert a == 0;
      } else {
        assert r'[i] == r[i - 1];
      }
    }
  }

  /** An element of the tail of a duplicate-free list sits after its head. */
  lemma NotHead(order: seq<string>, x: string, a: nat)
    requires |order| > 0 && Distinct(order)
    requires x in order[1..] && a < |order| && order[a] == x
    ensures a > 0
  {
    var k :| 0 <= k < |order[1..]| && order[1..][k] == x;
    assert order[k + 1] == x;
  }

  function Active(st: CrawlerState): seq<string> {
    ActiveSites(st.queueOrder, st.siteQueues, st.deleted)
  }

  /** A URL handed to a worker: the site it belongs to and the URL itself. */
  datatype Task = Task(site: string, url: string)

  /** `get_next_url` when the timed read of the shared queue yields nothing:
      advance the cursor by one over the active sites and pop the head of that
      site's queue; `None` when no site is active. Every active queue is
      non-empty, so the first step of the Python rotation loop always
      returns and the remaining iterations are dead code. */
  function GetNextUrl(st: CrawlerState): (r: (Option<Task>, CrawlerState))
    requires Valid(st)
    ensures Valid(r.1)
    ensures r.0.None? <==> forall s :: s in st.siteQueues && s !in st.deleted ==> st.siteQueues[s] == []
    ensures r.0.None? ==> r.1 == st
    ensures r.0.Some? ==>
      var t := r.0.value;
      && t.site in st.siteQueues && t.site !in st.deleted && |st.siteQueues[t.site]| > 0
      && t.url == st.siteQueues[t.site][0]
      && r.1.siteQueues == st.siteQueues[t.site := st.siteQueues[t.site][1..]]
      && r.1.lastSiteIndex == (st.lastSiteIndex + 1) % |Active(st)|
      && t.site == Active(st)[r.1.lastSiteIndex]
      && r.1 == st.(siteQueues := r.1.siteQueues, lastSiteIndex := r.1.lastSiteIndex)
  {
    var active := Active(st);
    if |st.siteQueues| == 0 || |active| == 0 then
      assert |active| == 0 ==> forall s :: s in st.siteQueues && s !in st.deleted ==> st.siteQueues[s] == [] by {
        forall s | |active| == 0 && s in st.siteQueues && s !in st.deleted ensures st.siteQueues[s] == [] {
          assert s in st.queueOrder;
        }
      }
      (None, st)
    else
      var i := (st.lastSiteIndex + 1) % |active|;
      var site := active[i];
      var q := st.siteQueues[site];
      (Some(Task(site, q[0])), st.(siteQueues := st.siteQueues[site := q[1..]], lastSiteIndex := i))
  }

  /** With at least two active sites, two consecutive calls serve different
      sites. If the first pop leaves its site a URL, the active list stays
      as it was and the cursor moves on by one; if it empties the site's
      queue, that site drops out of the active list the second call
      rotates over. */
  lemma RotationAlternates(st: CrawlerState)
    requires Valid(st)
    requires |Active(st)| >= 2
    ensures GetNextUrl(st).0.Some? && GetNextUrl(GetNextUrl(st).1).0.Some?
    ensures GetNextUrl(st).0.value.site != GetNextUrl(GetNextUrl(st).1).0.value.site
  {
    var a := Active(st);
    var i := (st.lastSiteIndex + 1) % |a|;
    if |st.siteQueues[a[i]]| >= 2 {
      AlternatesWhenKept(st);
    } else {
      AlternatesWhenEmptied(st);
    }
  }

  lemma AlternatesWhenKept(st: CrawlerState)
    requires Valid(st) && |Active(st)| >= 2
    requires |st.siteQueues[Active(st)[(st.lastSiteIndex + 1) % |Active(st)|]]| >= 2
    ensures GetNextUrl(st).0.Some? && GetNextUrl(GetNextUrl(st).1).0.Some?
    ensures GetNextUrl(st).0.value.site != GetNextUrl(GetNextUrl(st).1).0.value.site
  {
    var a := Active(st);
    var i := (st.lastSiteIndex + 1) % |a|;
    var st1 := Serves(st);
    ActiveUnchangedByPop(st.queueOrder, st.siteQueues, st.deleted, a[i]);
    assert Active(st1) == a;
    var j := (i + 1) % |a|;
    ServedAfter(st1, a, i);
    NextIndexDiffers(i, |a|);
    assert Distinct(a);
    assert a[j] != a[i];
    assert GetNextUrl(st).0.value.site == a[i];
  }

  lemma AlternatesWhenEmptied(st: CrawlerState)
    requires Valid(st) && |Active(st)| >= 2
    requires |st.siteQueues[Active(st)[(st.lastSiteIndex + 1) % |Active(st)|]]| < 2
    ensures GetNextUrl(st).0.Some? && GetNextUrl(GetNextUrl(st).1).0.Some?
    ensures GetNextUrl(st).0.value.site != GetNextUrl(GetNextUrl(st).1).0.value.site
  {
    var a := Active(st);
    var i := (st.lastSiteIndex + 1) % |a|;
    var site := a[i];
    var st1 := Serves(st);
    var k := if i == 0 then 1 else 0;
    assert a[k] in a && a[k] != site;
    assert a[k] in Active(st1);
    assert site !in Active(st1) by {
      assert a[i] in a;
      assert st1.siteQueues[site] == [];
    }
    var st2 := Serves(st1);
  }

  lemma NextIndexDiffers(i: int, n: int)
    requires 0 <= i < n && n >= 2
    ensures (i + 1) % n != i
  {
    if i + 1 < n {
      assert (i + 1) % n == i + 1;
    } else {
      assert (i + 1) % n == 0;
    }
  }

  /** The site `get_next_url` serves when some site is active. */
  lemma ServedSite(st: CrawlerState)
    requires Valid(st) && |Active(st)| > 0
    ensures GetNextUrl(st).0.Some?
    ensures GetNextUrl(st).0.value.site == Active(st)[(st.lastSiteIndex + 1) % |Active(st)|]
  {
    assert Active(st)[0] in Active(st);
  }

  /** The site served after a call that left the cursor at `i` over the
      active sites `a`. */
  lemma ServedAfter(st: CrawlerState, a: seq<string>, i: nat)
    requires Valid(st) && Active(st) == a && |a| > 0 && st.lastSiteIndex == i
    ensures GetNextUrl(st).0.Some? && GetNextUrl(st).0.value.site == a[(i + 1) % |a|]
  {
    ServedSite(st);
  }

  /** The site `get_next_url` serves when some site is active, and the state
      it leaves behind. */
  lemma Serves(st: CrawlerState) returns (st1: CrawlerState)
    requires Valid(st) && |Active(st)| > 0
    ensures var i := (st.lastSiteIndex + 1) % |Active(st)|;
      && GetNextUrl(st).0 == Some(Task(Active(st)[i], st.siteQueues[Active(st)[i]][0]))
      && st1 == GetNextUrl(st).1 && Valid(st1)
      && st1.lastSiteIndex == i
      && st1 == st.(siteQueues := st.siteQueues[Active(st)[i] := st.siteQueues[Active(st)[i]][1..]])
                 .(lastSiteIndex := i)
  {
    assert Active(st)[0] in Active(st);
    st1 := GetNextUrl(st).1;
  }

  /** Rotation is not fair across deletions: the cursor indexes a list that
      is recomputed on every call, so deleting the site in front of the one
      just served makes the next call serve that same site again while
      another site still has URLs queued. */
  lemma RotationRepeatsAfterDelete(st: CrawlerState, a: string, b: string, c: string)
    requires Valid(st) && Active(st) == [a, b, c] && st.lastSiteIndex == 0
    requires |st.siteQueues[b]| >= 2
    ensures GetNextUrl(st).0.Some? && GetNextUrl(st).0.value.site == b
    ensures var st2 := DeleteSite(GetNextUrl(st).1, a);
            && GetNextUrl(st2).0.Some? && GetNextUrl(st2).0.value.site == b
            && c in Active(st2)
  {
    ServesSecondOfThree(st, a, b, c);
    var st1 := GetNextUrl(st).1;
    DeleteFirstOfThree(st1, a, b, c);
    ServesFirstOfTwo(DeleteSite(st1, a), b, c);
  }

  lemma ServesSecondOfThree(st: CrawlerState, a: string, b: string, c: string)
    requires Valid(st) && Active(st) == [a, b, c] && st.lastSiteIndex == 0
    requires |st.siteQueues[b]| >= 2
    ensures GetNextUrl(st).0.Some? && GetNextUrl(st).0.value.site == b
    ensures Valid(GetNextUrl(st).1) && Active(GetNextUrl(st).1) == [a, b, c]
    ensures GetNextUrl(st).1.lastSiteIndex == 1
  {
    assert (0 + 1) % 3 == 1;
    var st1 := ServesAt(st, 1);
    ActiveUnchangedByPop(st.queueOrder, st.siteQueues, st.deleted, b);
  }

  lemma DeleteFirstOfThree(st: CrawlerState, a: string, b: string, c: string)
    requires Valid(st) && Active(st) == [a, b, c]
    ensures Valid(DeleteSite(st, a)) && Active(DeleteSite(st, a)) == [b, c]
    ensures DeleteSite(st, a).lastSiteIndex == st.lastSiteIndex
  {
    ActiveAfterDelete(st.queueOrder, st.siteQueues, st.deleted, a);
    WithoutHead(a, b, c);
  }

  lemma ServesFirstOfTwo(st: CrawlerState, b: string, c: string)
    requires Valid(st) && Active(st) == [b, c] && st.lastSiteIndex == 1
    ensures GetNextUrl(st).0.Some? && GetNextUrl(st).0.value.site == b
  {
    assert (1 + 1) % 2 == 0;
    var _ := ServesAt(st, 0);
  }

  /** The site served when the cursor lands on position `i`. */
  lemma ServesAt(st: CrawlerState, i: nat) returns (st1: CrawlerState)
    requires Valid(st) && i < |Active(st)| && (st.lastSiteIndex + 1) % |Active(st)| == i
    ensures GetNextUrl(st).0.Some? && GetNextUrl(st).0.value.site == Active(st)[i]
    ensures st1 == GetNextUrl(st).1 && Valid(st1) && st1.lastSiteIndex == i
    ensures st1.queueOrder == st.queueOrder && st1.deleted == st.deleted
    ensures st1.siteQueues == st.siteQueues[Active(st)[i] := st.siteQueues[Active(st)[i]][1..]]
  {
    st1 := Serves(st);
  }

  lemma WithoutHead(a: string, b: string, c: string)
    requires Distinct([a, b, c])
    ensures Without([a, b, c], a) == [b, c]
  {
    assert [a, b, c][0] != [a, b, c][1] && [a, b, c][0] != [a, b, c][2];
    assert [a, b, c][1..] == [b, c] && [b, c][1..] == [c] && [c][1..] == [];
    assert Without([c], a) == [c] + Without([], a);
    assert Without([b, c], a) == [b] + Without([c], a);
    assert Without([a, b, c], a) == Without([b, c], a);
  }

  /** Deleting a site removes exactly that site from the active list. */
  lemma {:induction false} ActiveAfterDelete(order: seq<string>, queues: map<string, seq<string>>, deleted: set<string>, a: string)
    ensures ActiveSites(Without(order, a), queues - {a}, deleted + {a}) == Without(ActiveSites(order, queues, deleted), a)
    decreases |order|
  {
    if |order| > 0 {
      ActiveAfterDelete(order[1..], queues, deleted, a);
    }
  }

  /** Popping a queue that keeps at least one URL leaves the active list as it was. */
  lemma {:induction false} ActiveUnchangedByPop(order: seq<string>, queues: map<string, seq<string>>, deleted: set<string>, site: string)
    requires site in queues && |queues[site]| >= 2
    ensures ActiveSites(order, queues[site := queues[site][1..]], deleted) == ActiveSites(order, queues, deleted)
    decreases |order|
  {
    if |order| > 0 {
      ActiveUnchangedByPop(order[1..], queues, deleted, site);
    }
  }

  // ---------------------------------------------------------------------
  // Site deletion (delete_site)
  // ---------------------------------------------------------------------

  /** `xs` with every occurrence of `x` removed, order kept. */
  function Without(xs: seq<string>, x: string): (r: seq<string>)
    ensures forall s :: s in r <==> s in xs && s != x
    ensures Distinct(xs) ==> Distinct(r)
    ensures |r| <= |xs|
  {
    if |xs| == 0 then []
    else
      var rest := Without(xs[1..], x);
      assert forall t :: t in xs[1..] ==> t in xs;
      assert Distinct(xs) ==> Distinct(xs[1..]) by {
        if Distinct(xs) {
          forall i, j | 0 <= i < j < |xs[1..]| ensures xs[1..][i] != xs[1..][j] {
            assert xs[i + 1] != xs[j + 1];
          }
        }
      }
      if xs[0] == x then rest
      else
        assert Distinct(xs) ==> xs[0] !in xs[1..] by {
          if Distinct(xs) { DistinctHead(xs); }
        }
        [xs[0]] + rest
  }

  lemma DistinctHead(xs: seq<string>)
    requires Distinct(xs) && |xs| > 0
    ensures xs[0] !in xs[1..]
  {
    forall k | 0 <= k < |xs[1..]| ensures xs[1..][k] != xs[0] {
      assert xs[k + 1] != xs[0];
    }
  }

  lemma {:induction false} WithoutTwice(xs: seq<string>, a: string, b: string)
    ensures Without(Without(xs, a), b) == Without(Without(xs, b), a)
    decreases |xs|
  {
    if |xs| > 0 {
      WithoutTwice(xs[1..], a, b);
    }
  }

  lemma {:induction false} WithoutIdempotent(xs: seq<string>, a: string)
    ensures Without(Without(xs, a), a) == Without(xs, a)
    decreases |xs|
  {
    if |xs| > 0 {
      WithoutIdempotent(xs[1..], a);
    }
  }

  /** `delete_site`: mark the site deleted and drop every per-site entry. */
  function DeleteSite(st: CrawlerState, site: string): (r: CrawlerState)
    requires Valid(st)
    ensures Valid(r)
    ensures View(r, site) == SiteView(None, None, None, None, None, None, true)
    ensures forall s :: s != site ==> View(r, s) == View(st, s)
    ensures r.lastSiteIndex == st.lastSiteIndex
    ensures r.queueOrder == Without(st.queueOrder, site)
  {
    CrawlerState(
      st.sitesUrls - {site}, st.crawledUrls - {site}, st.siteErrors - {site},
      st.siteQueues - {site}, Without(st.queueOrder, site), st.lastSiteIndex,
      st.jsonKeys - {site}, st.jsonTypeCounts - {site}, st.deleted + {site})
  }

  /** A repeated deletion changes nothing. */
  lemma DeleteSiteIdempotent(st: CrawlerState, site: string)
    requires Valid(st)
    ensures DeleteSite(DeleteSite(st, site), site) == DeleteSite(st, site)
  {
    var d := DeleteSite(st, site);
    WithoutIdempotent(st.queueOrder, site);
    assert d.sitesUrls - {site} == d.sitesUrls && d.crawledUrls - {site} == d.crawledUrls;
    assert d.siteErrors - {site} == d.siteErrors && d.siteQueues - {site} == d.siteQueues;
    assert d.jsonKeys - {site} == d.jsonKeys && d.jsonTypeCounts - {site} == d.jsonTypeCounts;
  }

  /** Deleting two sites gives the same state in either order. */
  lemma DeleteSitesCommute(st: CrawlerState, a: string, b: string)
    requires Valid(st)
    ensures DeleteSite(DeleteSite(st, a), b) == DeleteSite(DeleteSite(st, b), a)
  {
    DeleteSitesCommuteQueues(st, a, b);
    DeleteSitesCommuteLedgers(st, a, b);
  }

  lemma DeleteSitesCommuteQueues(st: CrawlerState, a: string, b: string)
    requires Valid(st)
    ensures var x, y := DeleteSite(DeleteSite(st, a), b), DeleteSite(DeleteSite(st, b), a);
      && x.queueOrder == y.queueOrder && x.siteQueues == y.siteQueues
      && x.sitesUrls == y.sitesUrls && x.deleted == y.deleted
  {
    WithoutTwice(st.queueOrder, a, b);
    RemoveTwice(st.siteQueues, a, b);
    RemoveTwice(st.sitesUrls, a, b);
  }

  lemma RemoveTwice<V>(m: map<string, V>, a: string, b: string)
    ensures (m - {a}) - {b} == (m - {b}) - {a}
  {
  }

  lemma DeleteSitesCommuteLedgers(st: CrawlerState, a: string, b: string)
    requires Valid(st)
    ensures var x, y := DeleteSite(DeleteSite(st, a), b), DeleteSite(DeleteSite(st, b), a);
      && x.crawledUrls == y.crawledUrls && x.siteErrors == y.siteErrors
      && x.jsonKeys == y.jsonKeys && x.jsonTypeCounts == y.jsonTypeCounts
  {
    RemoveTwice(st.crawledUrls, a, b);
    RemoveTwice(st.siteErrors, a, b);
    RemoveTwice(st.jsonKeys, a, b);
    RemoveTwice(st.jsonTypeCounts, a, b);
  }

  /** A deleted site is never served again by `get_next_url`. */
  lemma DeletedSiteNeverServed(st: CrawlerState, site: string)
    requires Valid(st)
    requires site in st.deleted
    ensures GetNextUrl(st).0.Some? ==> GetNextUrl(st).0.value.site != site
  {
  }

  // ---------------------------------------------------------------------
  // Error counters (track_error)
  // ---------------------------------------------------------------------

  /** The error codes the crawler counts: an HTTP status other than 200, a
      request timeout, or any other exception while fetching. */
  datatype ErrorCode = HttpStatus(status: nat) | Timeout | GeneralError

  /** `str(error_code)`: the decimal status, or the literal names Python
      passes for timeouts and other exceptions. */
  function ErrorKey(code: ErrorCode): string {
    match code
    case HttpStatus(n) => Text.NatToString(n)
    case Timeout => "TIMEOUT"
    case GeneralError => "ERROR"
  }

  /** Different codes are counted under different keys. */
  lemma ErrorKeyInjective(c1: ErrorCode, c2: ErrorCode)
    requires c1 != c2
    ensures ErrorKey(c1) != ErrorKey(c2)
  {
    if c1.HttpStatus? && c2.HttpStatus? {
      NatToStringInjective(c1.status, c2.status);
    } else if c1.HttpStatus? {
      assert ErrorKey(c2)[0] == 'T' || ErrorKey(c2)[0] == 'E';
    } else if c2.HttpStatus? {
      assert ErrorKey(c1)[0] == 'T' || ErrorKey(c1)[0] == 'E';
    }
  }

  lemma {:induction false} NatToStringInjective(a: nat, b: nat)
    requires a != b
    ensures Text.NatToString(a) != Text.NatToString(b)
    decreases a + b
  {
    var sa, sb := Text.NatToString(a), Text.NatToString(b);
    if a < 10 && b < 10 {
      assert sa[0] != sb[0];
    } else if a < 10 || b < 10 {
      assert |Text.NatToString(a / 10)| >= 1 && |Text.NatToString(b / 10)| >= 1;
      assert |sa| != |sb|;
    } else if a % 10 != b % 10 {
      assert sa[|sa| - 1] != sb[|sb| - 1];
    } else {
      assert a / 10 != b / 10;
      NatToStringInjective(a / 10, b / 10);
      assert sa == Text.NatToString(a / 10) + [Text.DigitChar(a % 10)];
      assert sb == Text.NatToString(b / 10) + [Text.DigitChar(b % 10)];
      SnocDistinct(Text.NatToString(a / 10), Text.NatToString(b / 10), Text.DigitChar(a % 10));
    }
  }

  lemma SnocDistinct(x: string, y: string, c: char)
    requires x != y
    ensures x + [c] != y + [c]
  {
    if |x| == |y| {
      var k :| 0 <= k < |x| && x[k] != y[k];
      assert (x + [c])[k] != (y + [c])[k];
    }
  }

  function ErrorCount(st: CrawlerState, site: string, key: string): int {
    if site in st.siteErrors && key in st.siteErrors[site] then st.siteErrors[site][key] else 0
  }

  /** `track_error`: the counter of `(site, str(code))` goes up by one
      (starting from zero); no other counter and no other site changes. */
  function TrackError(st: CrawlerState, site: string, code: ErrorCode): (r: CrawlerState)
    ensures OthersUnchanged(st, r, site)
    ensures r == st.(siteErrors := r.siteErrors)
    ensures site in r.siteErrors
    ensures ErrorCount(r, site, ErrorKey(code)) == ErrorCount(st, site, ErrorKey(code)) + 1
    ensures forall k :: k != ErrorKey(code) ==> ErrorCount(r, site, k) == ErrorCount(st, site, k)
    ensures r.siteErrors[site].Keys == Get(st.siteErrors, site).GetOr(map[]).Keys + {ErrorKey(code)}
  {
    var errs := if site in st.siteErrors then st.siteErrors[site] else map[];
    var key := ErrorKey(code);
    var n := if key in errs then errs[key] else 0;
    st.(siteErrors := st.siteErrors[site := errs[key := n + 1]])
  }

  // ---------------------------------------------------------------------
  // @type counters (update_json_type_count)
  // ---------------------------------------------------------------------

  function TypeCount(st: CrawlerState, site: string, t: string): int {
    if site in st.jsonTypeCounts && t in st.jsonTypeCounts[site] then st.jsonTypeCounts[site][t] else 0
  }

  function MapCount(m: map<string, int>, t: string): int {
    if t in m then m[t] else 0
  }

  /** The type names an `@type` value stands for when every one of them is a
      string: the value itself, or each list element in order. */
  function TypeNames(t: Json): Option<seq<string>> {
    match t
    case JStr(s) => Some([s])
    case JArr(items) => AllStrings(items)
    case _ => None
  }

  /** Counting each element of a list of `@type` values in turn; the first
      element that is not a string stops the loop with an exception, after
      the elements before it were counted. */
  function AddTypeList(counts: map<string, int>, items: seq<Json>): (r: Outcome<map<string, int>>)
    ensures r.Done? <==> AllStrings(items).Some?
    ensures r.Done? ==> forall t :: MapCount(r.value, t) == MapCount(counts, t) + multiset(AllStrings(items).value)[t]
    ensures r.Done? ==> forall t :: t in r.value <==> t in counts || t in AllStrings(items).value
    ensures forall t :: MapCount(r.value, t) >= MapCount(counts, t)
    ensures forall t :: t in counts ==> t in r.value
    decreases |items|
  {
    if |items| == 0 then Done(counts)
    else if !items[0].JStr? then Raised(counts)
    else
      var t := items[0].s;
      var next := counts[t := MapCount(counts, t) + 1];
      var r := AddTypeList(next, items[1..]);
      assert r.Done? ==> AllStrings(items).value == [t] + AllStrings(items[1..]).value;
      r
  }

  /** `update_json_type_count`: the site's counter map is created if
      missing; a string `@type` adds one to its counter and a list adds one
      per element, duplicates included. Counters are keyed by strings, so an
      `@type` (or list element) that is not a string ends the update with an
      exception. No other site and no other part of the state changes. */
  function UpdateJsonTypeCount(st: CrawlerState, site: string, typeValue: Json): (r: Outcome<CrawlerState>)
    ensures r.Done? <==> TypeNames(typeValue).Some?
    ensures r.value == st.(jsonTypeCounts := r.value.jsonTypeCounts)
    ensures site in r.value.jsonTypeCounts
    ensures forall s :: s != site ==> View(r.value, s) == View(st, s)
    ensures r.Done? ==> forall t ::
      TypeCount(r.value, site, t) == TypeCount(st, site, t) + multiset(TypeNames(typeValue).value)[t]
    ensures forall t :: TypeCount(r.value, site, t) >= TypeCount(st, site, t)
  {
    var counts := Get(st.jsonTypeCounts, site).GetOr(map[]);
    var out := AddTypes(counts, typeValue);
    var r := st.(jsonTypeCounts := st.jsonTypeCounts[site := out.value]);
    CountsStored(st, site, out.value);
    if out.Done? then Done(r) else Raised(r)
  }

  /** The counter map of one site after counting `typeValue`. */
  function AddTypes(counts: map<string, int>, typeValue: Json): (r: Outcome<map<string, int>>)
    ensures r.Done? <==> TypeNames(typeValue).Some?
    ensures r.Done? ==> forall t :: MapCount(r.value, t) == MapCount(counts, t) + multiset(TypeNames(typeValue).value)[t]
    ensures forall t :: MapCount(r.value, t) >= MapCount(counts, t)
  {
    match typeValue
    case JStr(t) => Done(counts[t := MapCount(counts, t) + 1])
    case JArr(items) => AddTypeList(counts, items)
    case _ => Raised(counts)
  }

  lemma CountsStored(st: CrawlerState, site: string, c: map<string, int>)
    ensures var r := st.(jsonTypeCounts := st.jsonTypeCounts[site := c]);
      && (forall t :: TypeCount(r, site, t) == MapCount(c, t))
      && (forall t :: TypeCount(st, site, t) == MapCount(Get(st.jsonTypeCounts, site).GetOr(map[]), t))
      && (forall s :: s != site ==> View(r, s) == View(st, s))
  {
  }

  // ---------------------------------------------------------------------
  // JSON-LD key ledger (load_json_keys, save_json_key, extract_json_key)
  // ---------------------------------------------------------------------

  function KeysOf(st: CrawlerState, site: string): set<string> {
    if site in st.jsonKeys then st.jsonKeys[site] else {}
  }

  /** `load_json_keys`: the first time a site is seen its ledger is filled
      from the keys file (`stored`); later calls change nothing. */
  function LoadJsonKeys(st: CrawlerState, site: string, stored: set<string>): (r: CrawlerState)
    ensures r == st.(jsonKeys := r.jsonKeys)
    ensures site in r.jsonKeys
    ensures site in st.jsonKeys ==> r == st
    ensures site !in st.jsonKeys ==> KeysOf(r, site) == stored
    ensures forall s :: s != site ==> View(r, s) == View(st, s)
  {
    if site in st.jsonKeys then st else st.(jsonKeys := st.jsonKeys[site := stored])
  }

  /** `save_json_key`: adds `key` to the site's ledger; the second component
      tells whether the key was new, which is exactly when `save_json_key` appends
      a line to the site's keys file. */
  function SaveJsonKey(st: CrawlerState, site: string, key: string): (r: (CrawlerState, bool))
    ensures r.0 == st.(jsonKeys := r.0.jsonKeys)
    ensures site in r.0.jsonKeys && KeysOf(r.0, site) == KeysOf(st, site) + {key}
    ensures r.1 <==> key !in KeysOf(st, site)
    ensures forall s :: s != site ==> View(r.0, s) == View(st, s)
  {
    var keys := KeysOf(st, site);
    (st.(jsonKeys := st.jsonKeys[site := keys + {key}]), key !in keys)
  }

  /** Saving the same key twice appends it to the keys file at most once. */
  lemma SaveJsonKeyIdempotent(st: CrawlerState, site: string, key: string)
    ensures var (st1, _) := SaveJsonKey(st, site, key);
            SaveJsonKey(st1, site, key) == (st1, false)
  {
    var (st1, _) := SaveJsonKey(st, site, key);
    assert st1.jsonKeys[site := KeysOf(st1, site) + {key}] == st1.jsonKeys;
  }

  /** `extract_json_key`: a dictionary's `@id`, else its `url`, else nothing;
      values that are not dictionaries have no key. */
  function ExtractJsonKey(j: Json): (r: Option<Json>)
    ensures r.Some? <==> j.JObj? && ("@id" in j.fields || "url" in j.fields)
    ensures r.Some? && "@id" in j.fields ==> r.value == j.fields["@id"]
    ensures r.Some? && "@id" !in j.fields ==> r.value == j.fields["url"]
  {
    match j
    case JObj(m) =>
      if "@id" in m then Some(m["@id"]) else if "url" in m then Some(m["url"]) else None
    case _ => None
  }
}
