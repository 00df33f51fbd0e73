/** `extract_schema_org` and `synthesize_schema` (code/crawler.py) over
    already-parsed pages: each `<script type="application/ld+json">` is one
    `Script`, the meta tags the fallback reads form a `Page`. The key ledger
    and the `@type` counters live in the crawler state of `Frontier`. An
    exception escaping the extraction is `Raised`, carrying the state as it
    was when the exception was raised; the records built so far are lost
    with it. */
module SchemaExtraction {
  import opened Wrappers
  import opened JsonValue
  import opened Frontier
  import Text

  /** One JSON-LD script element: its text was missing (`script.string` is
      `None`, so `json.loads` raises a `TypeError`), was not valid JSON (the
      `JSONDecodeError` is swallowed), or decoded to `data`. */
  datatype Script = NoText | Undecodable | Decoded(data: Json)

  // ---------------------------------------------------------------------
  // Flattening (`flattened = {url, timestamp}; flattened.update(obj)`)
  // ---------------------------------------------------------------------

  function Base(url: string, now: string): map<string, Json> {
    map["url" := JStr(url), "timestamp" := JStr(now)]
  }

  /** `dict.update` with a dictionary: the keys of both, the values of `m`
      winning. */
  function Overlay(base: map<string, Json>, m: map<string, Json>): (r: map<string, Json>)
    ensures r.Keys == base.Keys + m.Keys
    ensures forall k :: k in m ==> r[k] == m[k]
    ensures forall k :: k in base && k !in m ==> r[k] == base[k]
  {
    map k | k in base.Keys + m.Keys :: if k in m then m[k] else base[k]
  }

  /** A record as `extract_schema_org` emits it: a dictionary carrying the
      page URL and timestamp fields (possibly overridden by the object). */
  predicate IsRecord(j: Json) {
    j.JObj? && "url" in j.fields && "timestamp" in j.fields
  }

  /** `{url, timestamp}` updated with `item`. `None` when `update` raises:
      an empty string or list updates nothing, any other value that is not
      a dictionary raises. */
  function Flatten(url: string, now: string, item: Json): (r: Option<Json>)
    ensures r.Some? <==> item.JObj? || item == JStr("") || item == JArr([])
    ensures r.Some? ==> IsRecord(r.value)
    ensures r.Some? && item.JObj? ==> forall k :: k in item.fields ==> k in r.value.fields && r.value.fields[k] == item.fields[k]
    ensures r.Some? ==> forall k :: k in r.value.fields ==> k == "url" || k == "timestamp" || (item.JObj? && k in item.fields)
    ensures r.Some? && !(item.JObj? && "url" in item.fields) ==> r.value.fields["url"] == JStr(url)
    ensures r.Some? && !(item.JObj? && "timestamp" in item.fields) ==> r.value.fields["timestamp"] == JStr(now)
  {
    match item
    case JObj(m) => Some(JObj(Overlay(Base(url, now), m)))
    case JStr(s) => if s == "" then Some(JObj(Base(url, now))) else None
    case JArr(a) => if a == [] then Some(JObj(Base(url, now))) else None
    case _ => None
  }

  /** Flattening a record again changes nothing. */
  lemma FlattenIdempotent(url: string, now: string, item: Json)
    requires Flatten(url, now, item).Some?
    ensures Flatten(url, now, Flatten(url, now, item).value) == Flatten(url, now, item)
  {
    var r := Flatten(url, now, item).value;
    assert Overlay(Base(url, now), r.fields) == r.fields;
  }

  // ---------------------------------------------------------------------
  // Key claims (the dedup test in front of every object)
  // ---------------------------------------------------------------------

  /** The non-empty string key of an object, which the ledger records. */
  function KeyString(item: Json): (r: Option<string>)
    ensures r.Some? <==> ExtractJsonKey(item).Some? && ExtractJsonKey(item).value.JStr? && ExtractJsonKey(item).value.s != ""
    ensures r.Some? ==> ExtractJsonKey(item).value == JStr(r.value)
  {
    match ExtractJsonKey(item)
    case Some(JStr(s)) => if s != "" then Some(s) else None
    case _ => None
  }

  function KeyedStrings(items: seq<Json>): seq<string> {
    if |items| == 0 then []
    else (match KeyString(items[0]) case Some(k) => [k] case None => []) + KeyedStrings(items[1..])
  }

  lemma {:induction false} KeyedStringsAppend(xs: seq<Json>, ys: seq<Json>)
    ensures KeyedStrings(xs + ys) == KeyedStrings(xs) + KeyedStrings(ys)
    decreases |xs|
  {
    if |xs| > 0 {
      assert (xs + ys)[1..] == xs[1..] + ys;
      KeyedStringsAppend(xs[1..], ys);
    } else {
      assert xs + ys == ys;
    }
  }

  function OptSeq(o: Option<string>): seq<string> {
    match o case Some(k) => [k] case None => []
  }

  /** What `extract_schema_org` does with an object's key: `keep` when the
      object is emitted, `saved` the key appended to the ledger. A truthy key
      that is not a string cannot be written to the keys file (Python's
      `key + '\n'` raises, or `key not in set` does for a list or
      dictionary). */
  datatype Claim = Claim(out: Outcome<CrawlerState>, keep: bool, saved: Option<string>)

  function ClaimKey(st: CrawlerState, site: string, item: Json): (c: Claim)
    ensures Moves(st, c.out.value, site, OptSeq(c.saved))
    ensures c.out.Raised? <==> var k := ExtractJsonKey(item); k.Some? && Truthy(k.value) && !k.value.JStr?
    ensures c.out.Done? && c.keep ==> c.saved == KeyString(item)
    ensures c.out.Done? && !c.keep ==> KeyString(item).Some? && KeyString(item).value in KeysOf(st, site) && c == Claim(Done(st), false, None)
    ensures c.out.Done? && KeyString(item).Some? && KeyString(item).value in KeysOf(st, site) ==> !c.keep
  {
    var k := ExtractJsonKey(item);
    if k.None? || !Truthy(k.value) then Claim(Done(st), true, None)
    else if !k.value.JStr? then Claim(Raised(st), false, None)
    else if k.value.s in KeysOf(st, site) then Claim(Done(st), false, None)
    else
      var (st1, _) := SaveJsonKey(st, site, k.value.s);
      assert (set x | x in [k.value.s]) == {k.value.s};
      Claim(Done(st1), true, Some(k.value.s))
  }

  // ---------------------------------------------------------------------
  // What an extraction step may change
  // ---------------------------------------------------------------------

  /** From `a` to `b` only the ledger and the `@type` counters of `site`
      changed: the counters did not go down, and the ledger gained exactly
      the keys `appended`, each new and each once. */
  ghost predicate Moves(a: CrawlerState, b: CrawlerState, site: string, appended: seq<string>) {
    && b == a.(jsonKeys := b.jsonKeys, jsonTypeCounts := b.jsonTypeCounts)
    && (forall s :: s != site ==> View(b, s) == View(a, s))
    && (forall t :: TypeCount(b, site, t) >= TypeCount(a, site, t))
    && Distinct(appended)
    && (forall i :: 0 <= i < |appended| ==> appended[i] !in KeysOf(a, site))
    && KeysOf(b, site) == KeysOf(a, site) + (set k | k in appended)
  }

  lemma MovesRefl(a: CrawlerState, site: string)
    ensures Moves(a, a, site, [])
  {
  }

  lemma MovesTrans(a: CrawlerState, b: CrawlerState, c: CrawlerState, site: string, x: seq<string>, y: seq<string>)
    requires Moves(a, b, site, x) && Moves(b, c, site, y)
    ensures Moves(a, c, site, x + y)
  {
    assert (set k | k in x + y) == (set k | k in x) + (set k | k in y);
    forall i, j | 0 <= i < j < |x + y| ensures (x + y)[i] != (x + y)[j] {
      if j >= |x| && i < |x| {
        assert (x + y)[i] in KeysOf(b, site);
        assert (x + y)[j] == y[j - |x|];
      }
    }
    forall i | 0 <= i < |x + y| ensures (x + y)[i] !in KeysOf(a, site) {
      if i >= |x| {
        assert (x + y)[i] == y[i - |x|];
      }
    }
  }

  /** `update_json_type_count` when the object carries `@type`: `'@type' in
      obj` followed by `obj['@type']`. A string that contains "@type", or a
      list holding that string, passes the test and then cannot be indexed;
      any other non-container makes the test raise. */
  function CountType(st: CrawlerState, site: string, obj: Json): (r: Outcome<CrawlerState>)
    ensures Moves(st, r.value, site, [])
    ensures obj.JObj? && "@type" !in obj.fields ==> r == Done(st)
    ensures obj.JObj? && "@type" in obj.fields ==> r == UpdateJsonTypeCount(st, site, obj.fields["@type"])
    ensures !obj.JObj? ==> r.value == st
  {
    match LookupKey(obj, "@type")
    case Found(v) => UpdateJsonTypeCount(st, site, v)
    case Absent => Done(st)
    case _ => Raised(st)
  }

  function CountTypes(st: CrawlerState, site: string, objs: seq<Json>): (r: Outcome<CrawlerState>)
    ensures Moves(st, r.value, site, [])
    decreases |objs|
  {
    if |objs| == 0 then Done(st)
    else match CountType(st, site, objs[0])
      case Raised(st1) => Raised(st1)
      case Done(st1) =>
        var r := CountTypes(st1, site, objs[1..]);
        MovesTrans(st, st1, r.value, site, [], []);
        r
  }

  // ---------------------------------------------------------------------
  // What the dedup test lets through
  // ---------------------------------------------------------------------

  /** The test in front of every object, given the keys known so far: it
      passes when the object has no truthy key or its string key is not
      known yet. */
  predicate Admits(keys: set<string>, item: Json) {
    var k := ExtractJsonKey(item);
    k.None? || !Truthy(k.value) || (k.value.JStr? && k.value.s !in keys)
  }

  /** The known keys once `item` went by: its string key, if any, is
      known from then on. */
  function Claimed(keys: set<string>, item: Json): (r: set<string>)
    ensures KeyString(item).Some? ==> r == keys + {KeyString(item).value}
    ensures KeyString(item).None? ==> r == keys
  {
    keys + (set k | k in OptSeq(KeyString(item)))
  }

  /** The objects among `items` that pass the test, in order, each checked
      against the keys known when its turn comes. */
  function NewItems(keys: set<string>, items: seq<Json>): (r: seq<Json>)
    ensures |r| <= |items|
    decreases |items|
  {
    if |items| == 0 then []
    else (if Admits(keys, items[0]) then [items[0]] else []) + NewItems(Claimed(keys, items[0]), items[1..])
  }

  /** The known keys after all of `items` went by. */
  function KeysAfter(keys: set<string>, items: seq<Json>): set<string>
    decreases |items|
  {
    if |items| == 0 then keys else KeysAfter(Claimed(keys, items[0]), items[1..])
  }

  /** A pass over `xs` and then `ys` is a pass over `xs + ys`. */
  lemma {:induction false} NewItemsAppend(keys: set<string>, xs: seq<Json>, ys: seq<Json>)
    ensures NewItems(keys, xs + ys) == NewItems(keys, xs) + NewItems(KeysAfter(keys, xs), ys)
    ensures KeysAfter(keys, xs + ys) == KeysAfter(KeysAfter(keys, xs), ys)
    decreases |xs|
  {
    if |xs| == 0 {
      assert xs + ys == ys;
    } else {
      assert (xs + ys)[0] == xs[0] && (xs + ys)[1..] == xs[1..] + ys;
      NewItemsAppend(Claimed(keys, xs[0]), xs[1..], ys);
    }
  }

  /** An object without a truthy key is always let through (`elif not
      key:`), wherever it stands and whatever is known. */
  lemma {:induction false} KeylessAdmitted(keys: set<string>, items: seq<Json>, x: Json)
    requires x in items
    requires ExtractJsonKey(x).None? || !Truthy(ExtractJsonKey(x).value)
    ensures x in NewItems(keys, items)
    decreases |items|
  {
    if items[0] != x {
      assert x in items[1..];
      KeylessAdmitted(Claimed(keys, items[0]), items[1..], x);
    }
  }

  /** An object whose key is already known is never let through: the known
      keys only grow during a pass. */
  lemma {:induction false} KnownNotAdmitted(keys: set<string>, items: seq<Json>, x: Json)
    requires KeyString(x).Some? && KeyString(x).value in keys
    ensures x !in NewItems(keys, items)
    decreases |items|
  {
    if |items| > 0 {
      KnownNotAdmitted(Claimed(keys, items[0]), items[1..], x);
    }
  }

  /** A one-object pass. */
  lemma NewItemsOne(keys: set<string>, item: Json)
    ensures NewItems(keys, [item]) == (if Admits(keys, item) then [item] else [])
    ensures KeysAfter(keys, [item]) == Claimed(keys, item)
  {
    assert [item][1..] == [];
  }

  /** A completed claim keeps the object exactly when the test lets it
      through, and leaves the ledger knowing the object's key. */
  lemma ClaimAdmits(st: CrawlerState, site: string, item: Json)
    requires ClaimKey(st, site, item).out.Done?
    ensures ClaimKey(st, site, item).keep <==> Admits(KeysOf(st, site), item)
    ensures KeysOf(ClaimKey(st, site, item).out.value, site) == Claimed(KeysOf(st, site), item)
  {
    var c := ClaimKey(st, site, item);
    assert (set k | k in OptSeq(c.saved)) == (if c.saved.Some? then {c.saved.value} else {});
  }

  /** The emitted objects of `b` past those of `a`, when `b` extends `a`. */
  function EmittedSince(a: Acc, b: Acc): seq<Json>
    requires |a.emitted| <= |b.emitted|
  {
    b.emitted[|a.emitted|..]
  }

  lemma EmittedSinceTrans(a: Acc, b: Acc, c: Acc)
    requires |a.emitted| <= |b.emitted| <= |c.emitted| && c.emitted[..|b.emitted|] == b.emitted
    ensures EmittedSince(a, c) == EmittedSince(a, b) + EmittedSince(b, c)
  {
  }

  // ---------------------------------------------------------------------
  // The extraction loop
  // ---------------------------------------------------------------------

  /** The loop's accumulator: the state, the records emitted, the objects
      they were built from, and the keys appended to the keys file. */
  datatype Acc = Acc(st: CrawlerState, records: seq<Json>, emitted: seq<Json>, appended: seq<string>)

  /** The records are well formed and the keys appended are exactly the keys
      of the emitted objects, in order. */
  ghost predicate Emits(acc: Acc) {
    && KeyedStrings(acc.emitted) == acc.appended
    && forall i :: 0 <= i < |acc.records| ==> IsRecord(acc.records[i])
  }

  /** `b` extends `a`: state moved by the keys appended after `a`'s, and the
      records of `a` are kept when `b` is complete. */
  ghost predicate Extends(a: Acc, b: Acc, site: string, done: bool) {
    && |a.appended| <= |b.appended| && b.appended[..|a.appended|] == a.appended
    && Moves(a.st, b.st, site, b.appended[|a.appended|..])
    && (done ==> |a.records| <= |b.records| && b.records[..|a.records|] == a.records)
    && (done ==> |a.emitted| <= |b.emitted| && b.emitted[..|a.emitted|] == a.emitted)
    && (done && Emits(a) ==> Emits(b))
  }

  lemma ExtendsRefl(a: Acc, site: string)
    ensures Extends(a, a, site, true)
  {
    assert a.appended[|a.appended|..] == [];
    MovesRefl(a.st, site);
  }

  lemma ExtendsTrans(a: Acc, b: Acc, c: Acc, site: string, done: bool)
    requires Extends(a, b, site, true) && Extends(b, c, site, done)
    ensures Extends(a, c, site, done)
  {
    var x, y := b.appended[|a.appended|..], c.appended[|b.appended|..];
    MovesTrans(a.st, b.st, c.st, site, x, y);
    assert c.appended[|a.appended|..] == x + y;
  }

  /** Emitting `rec` built from the objects `objs` after the keys `saved`
      were appended. */
  lemma ExtendsByEmit(a: Acc, st: CrawlerState, site: string, saved: seq<string>, rec: Json, objs: seq<Json>)
    requires Moves(a.st, st, site, saved) && IsRecord(rec) && KeyedStrings(objs) == saved
    ensures Extends(a, Acc(st, a.records + [rec], a.emitted + objs, a.appended + saved), site, true)
  {
    var b := Acc(st, a.records + [rec], a.emitted + objs, a.appended + saved);
    assert b.appended[|a.appended|..] == saved;
    assert b.records[..|a.records|] == a.records;
    assert b.emitted[..|a.emitted|] == a.emitted;
    KeyedStringsAppend(a.emitted, objs);
    if Emits(a) {
      forall i | 0 <= i < |b.records| ensures IsRecord(b.records[i]) {
        if i < |a.records| { assert b.records[i] == a.records[i]; }
      }
    }
  }

  /** Appending the keys `saved` and stopping there (an exception, or
      nothing to emit when `done`). */
  lemma ExtendsBySave(a: Acc, st: CrawlerState, site: string, saved: seq<string>, done: bool)
    requires Moves(a.st, st, site, saved)
    requires done ==> saved == []
    ensures Extends(a, a.(st := st, appended := a.appended + saved), site, done)
  {
    var b := a.(st := st, appended := a.appended + saved);
    assert b.appended[|a.appended|..] == saved;
    assert b.records[..|a.records|] == a.records;
    assert a.appended + [] == a.appended;
  }

  /** One object of a `@graph`, or a dictionary on its own: claim its key,
      flatten it into a record and count its `@type`. */
  function EmitObject(acc: Acc, site: string, url: string, now: string, item: Json): (r: Outcome<Acc>)
    ensures Extends(acc, r.value, site, r.Done?)
    ensures r.Done? ==> FlattenedFrom(r.value.records[|acc.records|..], r.value.emitted[|acc.emitted|..], url, now)
    ensures r.Done? ==> EmittedSince(acc, r.value) == if Admits(KeysOf(acc.st, site), item) then [item] else []
    ensures r.Done? ==> KeysOf(r.value.st, site) == Claimed(KeysOf(acc.st, site), item)
  {
    var c := ClaimKey(acc.st, site, item);
    var saved := OptSeq(c.saved);
    if c.out.Raised? || !c.keep then
      ExtendsBySave(acc, c.out.value, site, saved, c.out.Done?);
      if c.out.Raised? then Raised(acc.(st := c.out.value, appended := acc.appended + saved))
      else Done(acc.(st := c.out.value, appended := acc.appended + saved))
    else
      match Flatten(url, now, item)
      case None =>
        ExtendsBySave(acc, c.out.value, site, saved, false);
        Raised(acc.(st := c.out.value, appended := acc.appended + saved))
      case Some(rec) =>
        var t := CountType(c.out.value, site, item);
        MovesTrans(acc.st, c.out.value, t.value, site, saved, []);
        assert saved + [] == saved;
        if t.Raised? then
          ExtendsBySave(acc, t.value, site, saved, false);
          Raised(acc.(st := t.value, appended := acc.appended + saved))
        else
          assert KeyedStrings([item]) == saved by {
            assert [item][1..] == [];
          }
          ExtendsByEmit(acc, t.value, site, saved, rec, [item]);
          var b := Acc(t.value, acc.records + [rec], acc.emitted + [item], acc.appended + saved);
          assert b.records[|acc.records|..] == [rec] && b.emitted[|acc.emitted|..] == [item];
          Done(b)
  }

  /** Each record is the flattening of the object at the same position. */
  ghost predicate FlattenedFrom(records: seq<Json>, objs: seq<Json>, url: string, now: string) {
    |records| == |objs| && forall i :: 0 <= i < |records| ==> Some(records[i]) == Flatten(url, now, objs[i])
  }

  lemma FlattenedFromAppend(r1: seq<Json>, o1: seq<Json>, r2: seq<Json>, o2: seq<Json>, url: string, now: string)
    requires FlattenedFrom(r1, o1, url, now) && FlattenedFrom(r2, o2, url, now)
    ensures FlattenedFrom(r1 + r2, o1 + o2, url, now)
  {
    forall i | 0 <= i < |r1 + r2| ensures Some((r1 + r2)[i]) == Flatten(url, now, (o1 + o2)[i]) {
      if i >= |r1| {
        assert (r1 + r2)[i] == r2[i - |r1|] && (o1 + o2)[i] == o2[i - |o1|];
      }
    }
  }

  lemma FlattenedFromTrans(a: Acc, b: Acc, c: Acc, url: string, now: string)
    requires |a.records| <= |b.records| <= |c.records| && |a.emitted| <= |b.emitted| <= |c.emitted|
    requires b.records[..|a.records|] == a.records && c.records[..|b.records|] == b.records
    requires b.emitted[..|a.emitted|] == a.emitted && c.emitted[..|b.emitted|] == b.emitted
    requires FlattenedFrom(b.records[|a.records|..], b.emitted[|a.emitted|..], url, now)
    requires FlattenedFrom(c.records[|b.records|..], c.emitted[|b.emitted|..], url, now)
    ensures FlattenedFrom(c.records[|a.records|..], c.emitted[|a.emitted|..], url, now)
  {
    FlattenedFromAppend(b.records[|a.records|..], b.emitted[|a.emitted|..],
                        c.records[|b.records|..], c.emitted[|b.emitted|..], url, now);
    assert c.records[|a.records|..] == b.records[|a.records|..] + c.records[|b.records|..];
    assert c.emitted[|a.emitted|..] == b.emitted[|a.emitted|..] + c.emitted[|b.emitted|..];
  }

  /** A keyed object is emitted at most once: running the same object through
      the loop again, after it went through once, changes nothing. */
  lemma ObjectEmittedOnce(acc: Acc, site: string, url: string, now: string, item: Json)
    requires KeyString(item).Some?
    requires EmitObject(acc, site, url, now, item).Done?
    ensures var a := EmitObject(acc, site, url, now, item).value;
      EmitObject(a, site, url, now, item) == Done(a)
  {
    var a := EmitObject(acc, site, url, now, item).value;
    var k := KeyString(item).value;
    var c := ClaimKey(acc.st, site, item);
    if c.keep {
      assert a.appended[|acc.appended|..] == [k];
    }
    assert k in KeysOf(a.st, site);
    assert a.appended + [] == a.appended;
    assert a.(st := a.st, appended := a.appended) == a;
  }

  /** The items `for item in data['@graph']` visits, or `None` when the
      iteration raises. A string is iterated by characters, each of which
      fails to flatten; a dictionary by its keys, which fail to flatten
      unless the key is empty (and an empty key touches no state). */
  function GraphItems(g: Json): (r: Option<seq<Json>>)
    ensures g.JArr? ==> r == Some(g.items)
    ensures r.None? ==> g.JNull? || g.JBool? || g.JNum? || (g.JObj? && exists k :: k in g.fields && k != "")
  {
    match g
    case JArr(items) => Some(items)
    case JStr(s) => Some(seq(|s|, i requires 0 <= i < |s| => JStr([s[i]])))
    case JObj(m) => if m.Keys <= {""} then Some(if "" in m then [JStr("")] else []) else None
    case _ => None
  }

  /** The `@graph` items in order, each flattened into a record of its own. */
  function EmitGraph(acc: Acc, site: string, url: string, now: string, items: seq<Json>): (r: Outcome<Acc>)
    ensures Extends(acc, r.value, site, r.Done?)
    ensures r.Done? ==> FlattenedFrom(r.value.records[|acc.records|..], r.value.emitted[|acc.emitted|..], url, now)
    ensures r.Done? ==> EmittedSince(acc, r.value) == NewItems(KeysOf(acc.st, site), items)
    ensures r.Done? ==> KeysOf(r.value.st, site) == KeysAfter(KeysOf(acc.st, site), items)
    decreases |items|
  {
    if |items| == 0 then
      ExtendsRefl(acc, site);
      assert acc.records[|acc.records|..] == [] && acc.emitted[|acc.emitted|..] == [];
      Done(acc)
    else match EmitObject(acc, site, url, now, items[0])
      case Raised(a) => Raised(a)
      case Done(a) =>
        var r := EmitGraph(a, site, url, now, items[1..]);
        ExtendsTrans(acc, a, r.value, site, r.Done?);
        if r.Done? then
          FlattenedFromTrans(acc, a, r.value, url, now);
          EmittedSinceTrans(acc, a, r.value);
          r
        else r
  }

  /** The first pass over a top-level list: claim each item's key in turn
      and keep the items to emit. */
  function ClaimList(st: CrawlerState, site: string, items: seq<Json>): (r: (Outcome<CrawlerState>, seq<Json>, seq<string>))
    ensures Moves(st, r.0.value, site, r.2)
    ensures r.0.Done? ==> KeyedStrings(r.1) == r.2
    ensures |r.1| <= |items|
    ensures r.0.Done? ==> r.1 == NewItems(KeysOf(st, site), items)
    ensures r.0.Done? ==> KeysOf(r.0.value, site) == KeysAfter(KeysOf(st, site), items)
    decreases |items|
  {
    if |items| == 0 then
      MovesRefl(st, site);
      (Done(st), [], [])
    else
      var c := ClaimKey(st, site, items[0]);
      var saved := OptSeq(c.saved);
      if c.out.Raised? then (c.out, [], saved)
      else
        ClaimAdmits(st, site, items[0]);
        var (out, kept, rest) := ClaimList(c.out.value, site, items[1..]);
        MovesTrans(st, c.out.value, out.value, site, saved, rest);
        var mine := if c.keep then [items[0]] else [];
        assert KeyedStrings(mine) == (if c.keep then saved else []) by {
          if c.keep { assert mine[1..] == []; }
        }
        assert !c.keep ==> saved == [];
        KeyedStringsAppend(mine, kept);
        (out, mine + kept, saved + rest)
  }

  /** A decoded top-level list: the new objects become one flattened record
      when there is one, a single `{url, timestamp, items}` record when
      there are several, and nothing when there are none. */
  function EmitList(acc: Acc, site: string, url: string, now: string, items: seq<Json>): (r: Outcome<Acc>)
    ensures Extends(acc, r.value, site, r.Done?)
    ensures r.Done? ==> |r.value.records| <= |acc.records| + 1
    ensures r.Done? && |r.value.records| == |acc.records| + 1 ==>
      var kept := r.value.emitted[|acc.emitted|..];
      && 1 <= |kept| <= |items|
      && (|kept| > 1 ==> r.value.records[|acc.records|] == JObj(Base(url, now)["items" := JArr(kept)]))
      && (|kept| == 1 ==> Some(r.value.records[|acc.records|]) == Flatten(url, now, kept[0]))
    ensures r.Done? ==> EmittedSince(acc, r.value) == NewItems(KeysOf(acc.st, site), items)
    ensures r.Done? ==> KeysOf(r.value.st, site) == KeysAfter(KeysOf(acc.st, site), items)
    ensures r.Done? && |NewItems(KeysOf(acc.st, site), items)| == 0 ==> r.value.records == acc.records
    ensures r.Done? && |NewItems(KeysOf(acc.st, site), items)| >= 2 ==>
      r.value.records == acc.records + [JObj(Base(url, now)["items" := JArr(NewItems(KeysOf(acc.st, site), items))])]
    ensures r.Done? && |NewItems(KeysOf(acc.st, site), items)| == 1 ==>
      var rec := Flatten(url, now, NewItems(KeysOf(acc.st, site), items)[0]);
      rec.Some? && r.value.records == acc.records + [rec.value]
  {
    var (out, kept, saved) := ClaimList(acc.st, site, items);
    if out.Raised? || |kept| == 0 then
      ExtendsBySave(acc, out.value, site, saved, out.Done?);
      if out.Raised? then Raised(acc.(st := out.value, appended := acc.appended + saved))
      else Done(acc.(st := out.value, appended := acc.appended + saved))
    else EmitKept(acc, site, url, now, out.value, kept, saved)
  }

  /** The record a top-level list's new objects `kept` become, once their
      keys `saved` are claimed and the state is `st`. */
  function EmitKept(acc: Acc, site: string, url: string, now: string,
                    st: CrawlerState, kept: seq<Json>, saved: seq<string>): (r: Outcome<Acc>)
    requires Moves(acc.st, st, site, saved) && KeyedStrings(kept) == saved && |kept| > 0
    ensures Extends(acc, r.value, site, r.Done?)
    ensures r.Done? ==> EmittedSince(acc, r.value) == kept && KeysOf(r.value.st, site) == KeysOf(st, site)
    ensures r.Done? && |kept| >= 2 ==> r.value.records == acc.records + [JObj(Base(url, now)["items" := JArr(kept)])]
    ensures r.Done? && |kept| == 1 ==>
      Flatten(url, now, kept[0]).Some? && r.value.records == acc.records + [Flatten(url, now, kept[0]).value]
  {
    var rec := if |kept| > 1 then Some(JObj(Base(url, now)["items" := JArr(kept)])) else Flatten(url, now, kept[0]);
    var t := if |kept| > 1 then CountTypes(st, site, kept) else CountType(st, site, kept[0]);
    MovesTrans(acc.st, st, t.value, site, saved, []);
    assert saved + [] == saved;
    if rec.None? || t.Raised? then
      var st1 := if rec.None? then st else t.value;
      ExtendsBySave(acc, st1, site, saved, false);
      Raised(acc.(st := st1, appended := acc.appended + saved))
    else
      ExtendsByEmit(acc, t.value, site, saved, rec.value, kept);
      var b := Acc(t.value, acc.records + [rec.value], acc.emitted + kept, acc.appended + saved);
      assert b.emitted[|acc.emitted|..] == kept;
      Done(b)
  }

  /** The objects a script puts to the dedup test, in order: a list's
      items, a `@graph`'s items, or a dictionary on its own. */
  function Candidates(s: Script): seq<Json> {
    match s
    case Decoded(JArr(items)) => items
    case Decoded(JObj(m)) => DictCandidates(m)
    case _ => []
  }

  function DictCandidates(m: map<string, Json>): seq<Json> {
    if "@graph" in m then (match GraphItems(m["@graph"]) case Some(items) => items case None => [])
    else [JObj(m)]
  }

  function AllCandidates(scripts: seq<Script>): seq<Json>
    decreases |scripts|
  {
    if |scripts| == 0 then [] else Candidates(scripts[0]) + AllCandidates(scripts[1..])
  }

  /** One script element. Decoded values that are neither a list nor a
      dictionary are ignored. */
  function EmitScript(acc: Acc, site: string, url: string, now: string, s: Script): (r: Outcome<Acc>)
    ensures Extends(acc, r.value, site, r.Done?)
    ensures s.NoText? ==> r == Raised(acc)
    ensures s.Undecodable? ==> r == Done(acc)
    ensures r.Done? ==> EmittedSince(acc, r.value) == NewItems(KeysOf(acc.st, site), Candidates(s))
    ensures r.Done? ==> KeysOf(r.value.st, site) == KeysAfter(KeysOf(acc.st, site), Candidates(s))
    ensures r.Done? ==> (|r.value.records| > |acc.records| <==> |r.value.emitted| > |acc.emitted|)
  {
    match s
    case NoText =>
      ExtendsRefl(acc, site);
      Raised(acc)
    case Undecodable =>
      ExtendsRefl(acc, site);
      Done(acc)
    case Decoded(JArr(items)) => EmitList(acc, site, url, now, items)
    case Decoded(JObj(m)) => EmitDict(acc, site, url, now, m)
    case Decoded(_) =>
      ExtendsRefl(acc, site);
      Done(acc)
  }

  /** A decoded dictionary: its `@graph` items when it has one (raising when
      that value cannot be iterated), else the dictionary itself. */
  function EmitDict(acc: Acc, site: string, url: string, now: string, m: map<string, Json>): (r: Outcome<Acc>)
    ensures Extends(acc, r.value, site, r.Done?)
    ensures r.Done? ==> EmittedSince(acc, r.value) == NewItems(KeysOf(acc.st, site), DictCandidates(m))
    ensures r.Done? ==> KeysOf(r.value.st, site) == KeysAfter(KeysOf(acc.st, site), DictCandidates(m))
    ensures r.Done? ==> (|r.value.records| > |acc.records| <==> |r.value.emitted| > |acc.emitted|)
  {
    if "@graph" in m then
      match GraphItems(m["@graph"])
      case None =>
        ExtendsRefl(acc, site);
        Raised(acc)
      case Some(items) => EmitGraph(acc, site, url, now, items)
    else
      NewItemsOne(KeysOf(acc.st, site), JObj(m));
      EmitObject(acc, site, url, now, JObj(m))
  }

  /** The script elements in order: the objects emitted are those of all
      the scripts that pass the dedup test, checked against a ledger that
      grows from one script to the next. */
  function EmitScripts(acc: Acc, site: string, url: string, now: string, scripts: seq<Script>): (r: Outcome<Acc>)
    ensures Extends(acc, r.value, site, r.Done?)
    ensures r.Done? ==> EmittedSince(acc, r.value) == NewItems(KeysOf(acc.st, site), AllCandidates(scripts))
    ensures r.Done? ==> KeysOf(r.value.st, site) == KeysAfter(KeysOf(acc.st, site), AllCandidates(scripts))
    ensures r.Done? ==> (|r.value.records| > |acc.records| <==> |r.value.emitted| > |acc.emitted|)
    decreases |scripts|
  {
    if |scripts| == 0 then
      ExtendsRefl(acc, site);
      Done(acc)
    else match EmitScript(acc, site, url, now, scripts[0])
      case Raised(a) => Raised(a)
      case Done(a) =>
        var r := EmitScripts(a, site, url, now, scripts[1..]);
        ExtendsTrans(acc, a, r.value, site, r.Done?);
        if r.Done? then
          EmittedSinceTrans(acc, a, r.value);
          NewItemsAppend(KeysOf(acc.st, site), Candidates(scripts[0]), AllCandidates(scripts[1..]));
          r
        else r
  }

  // ---------------------------------------------------------------------
  // The meta-tag fallback (synthesize_schema)
  // ---------------------------------------------------------------------

  /** The meta data `synthesize_schema` reads from a page. For each tag:
      `None` when the page has no such tag, `Some(c)` with `c` the first
      such tag's `content` attribute (`None` when it has none). For the
      `<title>` element, `Some(None)` means it has no single string child,
      so `soup.title.string.strip()` raises. */
  datatype Page = Page(
    title: Option<Option<string>>,
    description: Option<Option<string>>,
    ogTitle: Option<Option<string>>,
    ogDescription: Option<Option<string>>,
    ogImage: Option<Option<string>>,
    publishedTime: Option<Option<string>>,
    author: Option<Option<string>>)

  /** A Python value that is a string or `None`, as JSON. */
  function OrNull(o: Option<string>): Json {
    match o case Some(s) => JStr(s) case None => JNull
  }

  /** `a or b` on two values that are each a string or `None`. */
  function Or(a: Option<string>, b: Option<string>): (r: Option<string>)
    ensures a.Some? && a.value != "" ==> r == a
    ensures !(a.Some? && a.value != "") ==> r == b
  {
    if a.Some? && a.value != "" then a else b
  }

  /** The title `synthesize_schema` settles on (raised when the `<title>`
      has no string): the stripped `<title>` text, unless it is missing or
      blank and an `og:title` tag exists. */
  function Headline(p: Page): (r: Option<Option<string>>)
    ensures r.None? <==> p.title == Some(None)
  {
    if p.title == Some(None) then None
    else
      var title := if p.title.Some? then Some(Text.Strip(p.title.value.value)) else None;
      Some(if p.ogTitle.Some? then Or(title, p.ogTitle.value) else title)
  }

  /** The description: the `description` meta tag's content when non-empty,
      else the `og:description` content when that tag exists. */
  function Description(p: Page): Option<string> {
    var desc := match p.description case Some(Some(c)) => if c != "" then Some(c) else None case _ => None;
    if p.ogDescription.Some? then Or(desc, p.ogDescription.value) else desc
  }

  /** `synthesize_schema`: a schema.org object built from the page's meta
      data; `None` when reading the `<title>` raises. */
  function SynthesizeSchema(p: Page, url: string, now: string): (r: Option<Json>)
    ensures r.None? <==> p.title == Some(None)
    ensures r.Some? ==> r.value == JObj(Synthesized(p, Headline(p).value, Description(p), url, now))
  {
    match Headline(p)
    case None => None
    case Some(title) => Some(JObj(Synthesized(p, title, Description(p), url, now)))
  }

  /** The fields of the synthesized object once the title and description
      are settled. */
  function Synthesized(p: Page, title: Option<string>, desc: Option<string>, url: string, now: string): map<string, Json> {
    var schemaType := if p.publishedTime.Some? then "Article" else "WebPage";
    var fields := map[
      "url" := JStr(url), "timestamp" := JStr(now), "@context" := JStr("https://schema.org"),
      "@type" := JStr(schemaType), "headline" := OrNull(title), "description" := OrNull(desc)];
    var withImage := match p.ogImage
      case Some(Some(c)) => if c != "" then fields["image" := JStr(c)] else fields
      case _ => fields;
    var withDate := match p.publishedTime
      case Some(c) => withImage["datePublished" := OrNull(c)]
      case None => withImage;
    match p.author
    case Some(c) => withDate["author" := JObj(map["@type" := JStr("Person"), "name" := OrNull(c)])]
    case None => withDate
  }

  /** The synthesized object carries the page URL and timestamp and the
      schema.org context; its type is "Article" exactly when the page has an
      `article:published_time` tag, "WebPage" otherwise, and
      `datePublished` is present exactly then, holding that tag's content. */
  lemma SynthesizedType(p: Page, title: Option<string>, desc: Option<string>, url: string, now: string)
    ensures var f := Synthesized(p, title, desc, url, now);
      && IsRecord(JObj(f)) && f["url"] == JStr(url) && f["timestamp"] == JStr(now)
      && f["@context"] == JStr("https://schema.org")
      && (f["@type"] == JStr("Article") <==> p.publishedTime.Some?)
      && (f["@type"] == JStr("Article") || f["@type"] == JStr("WebPage"))
      && ("datePublished" in f <==> p.publishedTime.Some?)
      && (p.publishedTime.Some? ==> f["datePublished"] == OrNull(p.publishedTime.value))
  {
    assert "Article"[0] != "WebPage"[0];
  }

  /** `image` is present only for a non-empty `og:image` content, and
      `author` exactly when an `article:author` tag exists, as a Person. */
  lemma SynthesizedOptionalFields(p: Page, title: Option<string>, desc: Option<string>, url: string, now: string)
    ensures var f := Synthesized(p, title, desc, url, now);
      && ("image" in f <==> p.ogImage.Some? && p.ogImage.value.Some? && p.ogImage.value.value != "")
      && ("image" in f ==> f["image"] == JStr(p.ogImage.value.value))
      && ("author" in f <==> p.author.Some?)
      && (p.author.Some? ==> f["author"] == JObj(map["@type" := JStr("Person"), "name" := OrNull(p.author.value)]))
  {
  }

  /** The headline and description are the settled title and description,
      and no other field is ever added. */
  lemma SynthesizedText(p: Page, title: Option<string>, desc: Option<string>, url: string, now: string)
    ensures var f := Synthesized(p, title, desc, url, now);
      && f["headline"] == OrNull(title)
      && f["description"] == OrNull(desc)
      && forall k :: k in f ==>
           k in {"url", "timestamp", "@context", "@type", "headline", "description", "image", "datePublished", "author"}
  {
  }

  /** A non-blank `<title>` wins over `og:title`: pages that differ only in
      their `og:title` get the same headline. */
  lemma TitleBeatsOgTitle(p: Page, og: Option<Option<string>>)
    requires p.title.Some? && p.title.value.Some? && Text.Strip(p.title.value.value) != ""
    ensures Headline(p.(ogTitle := og)) == Headline(p) == Some(Some(Text.Strip(p.title.value.value)))
  {
  }

  /** Without a usable `<title>`, an `og:title` tag decides the headline. */
  lemma OgTitleFallback(p: Page)
    requires p.title.None? || (p.title.value.Some? && Text.Strip(p.title.value.value) == "")
    requires p.ogTitle.Some?
    ensures Headline(p) == Some(p.ogTitle.value)
  {
  }

  /** A non-empty `description` meta tag wins over `og:description`. */
  lemma DescriptionBeatsOgDescription(p: Page, og: Option<Option<string>>)
    requires p.description.Some? && p.description.value.Some? && p.description.value.value != ""
    ensures Description(p.(ogDescription := og)) == Description(p) == p.description.value
  {
  }

  // ---------------------------------------------------------------------
  // extract_schema_org
  // ---------------------------------------------------------------------

  /** The pass over the script elements, starting from the site's ledger
      loaded from the keys file's non-empty lines `stored`. */
  function Scan(st: CrawlerState, site: string, url: string, now: string, stored: set<string>,
                scripts: seq<Script>): (r: Outcome<Acc>)
    ensures Moves(LoadJsonKeys(st, site, stored), r.value.st, site, r.value.appended)
    ensures r.Done? ==> Emits(r.value)
    ensures r.Done? ==> r.value.emitted == NewItems(KeysOf(LoadJsonKeys(st, site, stored), site), AllCandidates(scripts))
    ensures r.Done? ==> KeysOf(r.value.st, site) == KeysAfter(KeysOf(LoadJsonKeys(st, site, stored), site), AllCandidates(scripts))
    ensures r.Done? ==> (|r.value.records| > 0 <==> r.value.emitted != [])
  {
    var a0 := Acc(LoadJsonKeys(st, site, stored), [], [], []);
    var r := EmitScripts(a0, site, url, now, scripts);
    assert r.value.appended[0..] == r.value.appended;
    assert r.Done? ==> EmittedSince(a0, r.value) == r.value.emitted;
    r
  }

  /** `extract_schema_org(html, url, site)`: the scripts' records, or the
      synthesized record alone when the scripts produced none. `now` stands
      for every timestamp. */
  function ExtractSchemaOrg(st: CrawlerState, site: string, url: string, now: string, stored: set<string>,
                            scripts: seq<Script>, page: Page): (r: Outcome<Acc>)
    ensures var st0 := LoadJsonKeys(st, site, stored);
      && Moves(st0, r.value.st, site, r.value.appended)
      && (r.Done? ==> Emits(r.value) && |r.value.records| >= 1)
    ensures var scan := Scan(st, site, url, now, stored, scripts);
      && (scan.Raised? || |scan.value.records| > 0 ==> r == scan)
      && (scan.Done? && |scan.value.records| == 0 ==>
            && r.value.st == scan.value.st
            && (r.Done? <==> page.title != Some(None))
            && (r.Done? ==> r.value.records == [SynthesizeSchema(page, url, now).value]))
    ensures r.Done? ==> r.value.emitted == NewItems(KeysOf(LoadJsonKeys(st, site, stored), site), AllCandidates(scripts))
    ensures r.Done? && NewItems(KeysOf(LoadJsonKeys(st, site, stored), site), AllCandidates(scripts)) == [] ==>
      r.value.records == [SynthesizeSchema(page, url, now).value]
    ensures r.Done? && NewItems(KeysOf(LoadJsonKeys(st, site, stored), site), AllCandidates(scripts)) != [] ==>
      r == Scan(st, site, url, now, stored, scripts)
  {
    var scan := Scan(st, site, url, now, stored, scripts);
    match scan
    case Raised(a) => scan
    case Done(a) =>
      if |a.records| > 0 then scan
      else match SynthesizeSchema(page, url, now)
        case None => Raised(a)
        case Some(rec) =>
          SynthesizedType(page, Headline(page).value, Description(page), url, now);
          Done(a.(records := [rec]))
  }

  /** The keys of the emitted objects are pairwise different and none was in
      the ledger before the call: one call never emits an object twice, nor
      one it emitted before, and the keys file gains no duplicate. */
  lemma EmittedKeysFresh(st: CrawlerState, site: string, url: string, now: string, stored: set<string>,
                         scripts: seq<Script>, page: Page)
    requires ExtractSchemaOrg(st, site, url, now, stored, scripts, page).Done?
    ensures var r := ExtractSchemaOrg(st, site, url, now, stored, scripts, page).value;
      && Distinct(KeyedStrings(r.emitted))
      && (forall k :: k in KeyedStrings(r.emitted) ==> k !in KeysOf(LoadJsonKeys(st, site, stored), site))
      && KeysOf(r.st, site) == KeysOf(LoadJsonKeys(st, site, stored), site) + (set k | k in KeyedStrings(r.emitted))
  {
  }
}
