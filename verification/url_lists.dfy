/** List handling around the crawler's inputs (code/crawler.py): the URLs a
    sitemap yields, deduplicated in first-seen order, and the fixed-size
    batches a stored JSON file is processed in. The XML parsing is not
    modelled: a sitemap is given as the text of its `<loc>` elements. */
module UrlLists {
  import opened Wrappers
  import opened JsonValue
  import Text

  predicate Distinct<T(==)>(xs: seq<T>) {
    forall i, j :: 0 <= i < j < |xs| ==> xs[i] != xs[j]
  }

  /** The index of the first occurrence of `x` in `xs`. */
  function First<T(==)>(xs: seq<T>, x: T): (i: nat)
    requires x in xs
    ensures i < |xs| && xs[i] == x && x !in xs[..i]
  {
    if xs[0] == x then 0 else First(xs[1..], x) + 1
  }

  /** The elements of `xs` in the order they first occur, each once. */
  function Unique<T(==)>(xs: seq<T>): (r: seq<T>)
    decreases |xs|
  {
    if |xs| == 0 then []
    else
      var u := Unique(xs[..|xs| - 1]);
      if xs[|xs| - 1] in u then u else u + [xs[|xs| - 1]]
  }

  /** The deduplicated list holds every element once, nothing else, and
      keeps first occurrences in their original order. */
  lemma {:induction false} UniqueSpec<T>(xs: seq<T>)
    ensures Distinct(Unique(xs))
    ensures forall x :: x in Unique(xs) <==> x in xs
    ensures forall i, j :: 0 <= i < j < |Unique(xs)| ==> First(xs, Unique(xs)[i]) < First(xs, Unique(xs)[j])
    decreases |xs|
  {
    if |xs| > 0 {
      var p, x := xs[..|xs| - 1], xs[|xs| - 1];
      assert xs == p + [x];
      UniqueSpec(p);
      var u := Unique(p);
      forall y | y in p ensures First(xs, y) == First(p, y) {
        FirstOfPrefix(p, [x], y);
      }
      if x !in u {
        assert x !in p;
        FirstOfLast(p, x);
      }
    }
  }

  lemma {:induction false} FirstOfPrefix<T>(p: seq<T>, q: seq<T>, y: T)
    requires y in p
    ensures First(p + q, y) == First(p, y)
    decreases |p|
  {
    if p[0] != y {
      assert (p + q)[1..] == p[1..] + q;
      FirstOfPrefix(p[1..], q, y);
    }
  }

  lemma {:induction false} FirstOfLast<T>(p: seq<T>, x: T)
    requires x !in p
    ensures First(p + [x], x) == |p|
    decreases |p|
  {
    if |p| > 0 {
      assert (p + [x])[1..] == p[1..] + [x];
      FirstOfLast(p[1..], x);
    }
  }

  /** Deduplicating a list without repeats leaves it as it is, so
      deduplication is idempotent. */
  lemma {:induction false} UniqueOfDistinct<T>(xs: seq<T>)
    requires Distinct(xs)
    ensures Unique(xs) == xs
    decreases |xs|
  {
    if |xs| > 0 {
      var p := xs[..|xs| - 1];
      UniqueOfDistinct(p);
      UniqueSpec(p);
      assert xs[|xs| - 1] !in p;
      assert xs == p + [xs[|xs| - 1]];
    }
  }

  lemma UniqueIdempotent<T>(xs: seq<T>)
    ensures Unique(Unique(xs)) == Unique(xs)
  {
    UniqueSpec(xs);
    UniqueOfDistinct(Unique(xs));
  }

  /** The `seen`-set loop of `extract_urls_from_sitemap`. */
  method Dedup(urls: seq<string>) returns (unique: seq<string>)
    ensures unique == Unique(urls)
  {
    var seen: set<string> := {};
    unique := [];
    var i := 0;
    while i < |urls|
      invariant 0 <= i <= |urls|
      invariant unique == Unique(urls[..i])
      invariant forall u :: u in seen <==> u in unique
    {
      assert urls[..i + 1][..i] == urls[..i];
      if urls[i] !in seen {
        seen := seen + {urls[i]};
        unique := unique + [urls[i]];
      }
      i := i + 1;
    }
    assert urls[..|urls|] == urls;
  }

  /** The stripped text of every `<loc>` whose text is non-empty. */
  function LocTexts(locs: seq<string>): (r: seq<string>)
    ensures |r| <= |locs|
    ensures forall u :: u in r <==> exists t :: t in locs && t != "" && u == Text.Strip(t)
  {
    if |locs| == 0 then []
    else
      var rest := LocTexts(locs[1..]);
      assert forall t :: t in locs[1..] ==> t in locs;
      assert forall t :: t in locs ==> t == locs[0] || t in locs[1..];
      if locs[0] == "" then rest else [Text.Strip(locs[0])] + rest
  }

  /** `extract_urls_from_sitemap`: a sitemap answered with `status`, whose
      `<url>` entries carry the given `<loc>` texts and whose document holds
      `allLocs` `<loc>` texts in all. The `<url>` entries are used unless
      none has a non-empty location, in which case every `<loc>` is; the
      result is deduplicated in first-seen order. A status other than 200
      raises. */
  method ExtractUrlsFromSitemap(status: nat, urlLocs: seq<string>, allLocs: seq<string>)
    returns (r: Result<seq<string>>)
    ensures r.Ok? <==> status == 200
    ensures r.Ok? ==> Distinct(r.value)
    ensures r.Ok? ==> r.value == Unique(if LocTexts(urlLocs) != [] then LocTexts(urlLocs) else LocTexts(allLocs))
    ensures r.Ok? && LocTexts(urlLocs) != [] ==> forall u :: u in r.value <==> u in LocTexts(urlLocs)
    ensures r.Ok? && LocTexts(urlLocs) == [] ==> forall u :: u in r.value <==> u in LocTexts(allLocs)
  {
    if status != 200 {
      return Err("Failed to fetch sitemap: HTTP " + Text.NatToString(status));
    }
    var urls := LocTexts(urlLocs);
    if urls == [] {
      urls := LocTexts(allLocs);
    }
    var unique := Dedup(urls);
    UniqueSpec(urls);
    return Ok(unique);
  }

  /** `json_data if isinstance(json_data, list) else [json_data]`. */
  function FileItems(data: Json): (r: seq<Json>)
    ensures data.JArr? ==> r == data.items
    ensures !data.JArr? ==> r == [data]
  {
    if data.JArr? then data.items else [data]
  }

  function Concat<T>(bs: seq<seq<T>>): seq<T> {
    if |bs| == 0 then [] else bs[0] + Concat(bs[1..])
  }

  /** `items[i:i+size] for i in range(0, len(items), size)`; a step of zero
      makes `range` raise. */
  function Batches<T>(items: seq<T>, size: nat): (r: Result<seq<seq<T>>>)
    ensures r.Ok? <==> size > 0
    decreases |items|
  {
    if size == 0 then Err("range() arg 3 must not be zero")
    else if |items| <= size then (if |items| == 0 then Ok([]) else Ok([items]))
    else
      match Batches(items[size..], size)
      case Ok(rest) => Ok([items[..size]] + rest)
      case Err(e) => Err(e)
  }

  /** The batches cover the items exactly, in order; each is non-empty and
      at most `size` long, and all but the last are exactly `size` long. */
  lemma {:induction false} BatchesPartition<T>(items: seq<T>, size: nat)
    requires size > 0
    ensures Concat(Batches(items, size).value) == items
    ensures forall k :: 0 <= k < |Batches(items, size).value| ==> 0 < |Batches(items, size).value[k]| <= size
    ensures forall k :: 0 <= k < |Batches(items, size).value| - 1 ==> |Batches(items, size).value[k]| == size
    decreases |items|
  {
    var bs := Batches(items, size).value;
    if |items| == 0 {
    } else if |items| <= size {
      assert Concat(bs) == items + Concat([]);
    } else {
      BatchesPartition(items[size..], size);
      var rest := Batches(items[size..], size).value;
      assert bs == [items[..size]] + rest;
      assert bs[1..] == rest;
      assert items == items[..size] + items[size..];
    }
  }

  /** There are `ceil(|items| / size)` batches: the fewest that can hold
      the items. */
  lemma {:induction false} BatchCount<T>(items: seq<T>, size: nat)
    requires size > 0
    ensures var n := |Batches(items, size).value|;
      |items| <= n * size < |items| + size
    decreases |items|
  {
    if |items| > size {
      BatchCount(items[size..], size);
      var n := |Batches(items[size..], size).value|;
      assert (n + 1) * size == n * size + size;
    }
  }
}
