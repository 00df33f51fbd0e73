/** Status helpers of the web UI (code/app.py): the per-type counts of a
    site's stored JSON objects, pausing a site, and the error-log page. The
    status file, the JSON file and the log file are read by the caller;
    their decoded contents are the inputs here. */
module SiteStatus {
  import opened Wrappers
  import opened JsonValue
  import Frontier
  import Text

  // ---------------------------------------------------------------- type counts

  datatype JsonStats = JsonStats(total: nat, typeCounts: map<string, int>)

  /** What the JSON file held: no file, a file `json.load` rejected, or a
      decoded value. */
  datatype JsonFile = NoFile | Undecodable | Decoded(data: Json)

  /** The answer of `get_json_type_counts`: the status file's `json_stats`
      as stored, or counts computed from the JSON file. */
  datatype TypeCounts = StoredStats(stats: Json) | CountedStats(counted: JsonStats)

  /** One object the count reached: `Typed(v)` when its `@type` value `v`
      was read, `Unread` when `'@type' in obj` held for a string or a list,
      so the object was counted and indexing it then raised. */
  datatype Counted = Typed(t: Json) | Unread

  /** The keys of a dictionary in iteration order. Python visits them in the
      order the file lists them, which the decoded value does not record, so
      the model fixes one order. */
  ghost function KeyOrder(keys: set<string>): (r: seq<string>)
    ensures |r| == |keys|
    ensures forall k :: k in r <==> k in keys
    decreases |keys|
  {
    if keys == {} then []
    else
      var k :| k in keys;
      [k] + KeyOrder(keys - {k})
  }

  /** What `for x in v` visits: a list's items, a dictionary's keys and a
      string's one-character strings; anything else raises. */
  ghost function Elements(j: Json): (r: Option<seq<Json>>)
    ensures r.None? <==> !(j.JArr? || j.JObj? || j.JStr?)
    ensures j.JArr? ==> r == Some(j.items)
    ensures j.JStr? ==> r.Some? && |r.value| == |j.s|
    ensures j.JStr? ==> forall k :: 0 <= k < |j.s| ==> r.value[k] == JStr([j.s[k]])
    ensures j.JObj? ==> r.Some? && |r.value| == |j.fields|
    ensures j.JObj? ==> forall e :: e in r.value <==> e.JStr? && e.s in j.fields
  {
    match j
    case JArr(items) => Some(items)
    case JObj(m) =>
      var keys := KeyOrder(m.Keys);
      var r := seq(|keys|, k requires 0 <= k < |keys| => JStr(keys[k]));
      assert forall e :: e in r ==> e.JStr? && e.s in m;
      assert forall e: Json :: e.JStr? && e.s in m ==> e in r by {
        forall e: Json | e.JStr? && e.s in m ensures e in r {
          var k :| 0 <= k < |keys| && keys[k] == e.s;
          assert r[k] == e;
        }
      }
      Some(r)
    case JStr(s) => Some(seq(|s|, k requires 0 <= k < |s| => JStr([s[k]])))
    case _ => None
  }

  /** The `@type` of each dictionary in `items` that has one. */
  function TypedItems(items: seq<Json>): (r: seq<Counted>)
    ensures |r| <= |items|
    ensures forall c :: c in r ==> c.Typed? && exists k :: 0 <= k < |items| && items[k].JObj? && "@type" in items[k].fields && items[k].fields["@type"] == c.t
    ensures (forall k :: 0 <= k < |items| ==> !items[k].JObj?) ==> r == []
  {
    if |items| == 0 then []
    else
      var rest := TypedItems(items[1..]);
      assert forall c :: c in rest ==> c.Typed? && exists k :: 0 <= k < |items| && items[k].JObj? && "@type" in items[k].fields && items[k].fields["@type"] == c.t by {
        forall c | c in rest
          ensures c.Typed? && exists k :: 0 <= k < |items| && items[k].JObj? && "@type" in items[k].fields && items[k].fields["@type"] == c.t
        {
          var k :| 0 <= k < |items[1..]| && items[1..][k].JObj? && "@type" in items[1..][k].fields && items[1..][k].fields["@type"] == c.t;
          assert items[k + 1] == items[1..][k];
        }
      }
      if items[0].JObj? && "@type" in items[0].fields then [Typed(items[0].fields["@type"])] + rest else rest
  }

  /** The objects one element of the file contributes, in the order Python
      checks them: the element itself when `'@type' in obj`, else the typed
      dictionaries of an `items` list, else those of a `data` list, else the
      `@graph` of a `data` dictionary, else that dictionary's own `@type`.
      A test or lookup that raises stops the count; when `'@type' in obj`
      held the object was counted first. */
  ghost function ObjectTypes(obj: Json): (r: Outcome<seq<Counted>>)
    ensures obj.JObj? && "@type" in obj.fields ==> r == Done([Typed(obj.fields["@type"])])
    ensures obj.JObj? && "@type" !in obj.fields && "items" in obj.fields && obj.fields["items"].JArr? ==>
      r == Done(TypedItems(obj.fields["items"].items))
    ensures (obj.JStr? && Text.Contains(obj.s, "@type")) || (obj.JArr? && JStr("@type") in obj.items) ==>
      r == Raised([Unread])
    ensures obj.JStr? || obj.JArr? ==> r.value == [] || r == Raised([Unread])
    ensures !(obj.JObj? || obj.JStr? || obj.JArr?) ==> r == Raised([])
  {
    var t := LookupKey(obj, "@type");
    if t.Found? then Done([Typed(t.value)])
    else if t.InButUnindexable? then Raised([Unread])
    else if t.NotContainer? then Raised([])
    else
      var items := LookupKey(obj, "items");
      if items.InButUnindexable? then Raised([])
      else if items.Found? && items.value.JArr? then Done(TypedItems(items.value.items))
      else DataTypes(LookupKey(obj, "data"))
  }

  /** The objects under an element's `data`: the typed dictionaries of a
      list; for a dictionary, those of its `@graph`, else its own `@type`. */
  ghost function DataTypes(data: Lookup): (r: Outcome<seq<Counted>>)
    ensures data.Found? && data.value.JArr? ==> r == Done(TypedItems(data.value.items))
    ensures r.Raised? <==> (data.InButUnindexable?
      || (data.Found? && data.value.JObj? && "@graph" in data.value.fields && Elements(data.value.fields["@graph"]).None?))
    ensures !data.Found? ==> r.value == []
  {
    if data.InButUnindexable? then Raised([])
    else if data.Found? && data.value.JArr? then Done(TypedItems(data.value.items))
    else if data.Found? && data.value.JObj? then
      var d := data.value.fields;
      if "@graph" in d then
        var graph := Elements(d["@graph"]);
        if graph.Some? then Done(TypedItems(graph.value)) else Raised([])
      else if "@type" in d then Done([Typed(d["@type"])])
      else Done([])
    else Done([])
  }

  /** The objects of the file's elements in order, up to the first element
      whose test or lookup raises. */
  ghost function CollectTypes(objs: seq<Json>): (r: Outcome<seq<Counted>>)
    ensures r.Done? <==> forall k :: 0 <= k < |objs| ==> ObjectTypes(objs[k]).Done?
  {
    if |objs| == 0 then Done([])
    else
      match ObjectTypes(objs[0])
      case Raised(vs) => Raised(vs)
      case Done(vs) =>
        match CollectTypes(objs[1..])
        case Done(ws) => Done(vs + ws)
        case Raised(ws) => Raised(vs + ws)
  }

  /** Every type name the read values stand for, in order. */
  function AllNames(types: seq<Counted>): seq<string> {
    if |types| == 0 then []
    else (if types[0].Typed? then Frontier.TypeNames(types[0].t).GetOr([]) else []) + AllNames(types[1..])
  }

  /** Counting the objects in turn: each adds one to the total and one per
      type name; an unread `@type`, or one whose names are not all strings,
      ends the count after its object was counted. */
  function Tally(st: JsonStats, types: seq<Counted>): (r: Outcome<JsonStats>)
    decreases |types|
    ensures r.Done? <==> forall k :: 0 <= k < |types| ==> types[k].Typed? && Frontier.TypeNames(types[k].t).Some?
    ensures r.Done? ==> r.value.total == st.total + |types|
    ensures r.Done? ==> forall t ::
      Frontier.MapCount(r.value.typeCounts, t) == Frontier.MapCount(st.typeCounts, t) + multiset(AllNames(types))[t]
    ensures r.Raised? ==> st.total < r.value.total <= st.total + |types|
    ensures forall t :: Frontier.MapCount(r.value.typeCounts, t) >= Frontier.MapCount(st.typeCounts, t)
  {
    if |types| == 0 then Done(st)
    else
      match types[0]
      case Unread => Raised(JsonStats(st.total + 1, st.typeCounts))
      case Typed(v) =>
        match Frontier.AddTypes(st.typeCounts, v)
        case Raised(c) => Raised(JsonStats(st.total + 1, c))
        case Done(c) => Tally(JsonStats(st.total + 1, c), types[1..])
  }

  /** The fallback of `get_json_type_counts`; whatever raises is swallowed
      and the counts so far are returned. */
  ghost function CountFile(file: JsonFile): (r: JsonStats)
    ensures !file.Decoded? ==> r == JsonStats(0, map[])
    ensures file.Decoded? && !(file.data.JArr? || file.data.JObj? || file.data.JStr?) ==> r == JsonStats(0, map[])
  {
    match file
    case Decoded(data) =>
      (match Elements(data)
       case Some(objs) => Tally(JsonStats(0, map[]), CollectTypes(objs).value).value
       case None => JsonStats(0, map[]))
    case _ => JsonStats(0, map[])
  }

  /** `get_json_type_counts`: stored statistics win; otherwise the counts
      are computed from the JSON file. */
  ghost function GetJsonTypeCounts(status: map<string, Json>, file: JsonFile): (r: TypeCounts)
    ensures "json_stats" in status <==> r.StoredStats?
    ensures r.StoredStats? ==> r.stats == status["json_stats"]
    ensures r.CountedStats? ==> r.counted == CountFile(file)
  {
    if "json_stats" in status then StoredStats(status["json_stats"]) else CountedStats(CountFile(file))
  }

  /** When nothing raises, every counted object is one collected `@type`
      value and the counters are the multiset of their type names. */
  lemma CountFileExact(objs: seq<Json>)
    requires CollectTypes(objs).Done?
    requires forall v :: v in CollectTypes(objs).value ==> v.Typed? && Frontier.TypeNames(v.t).Some?
    ensures var types := CollectTypes(objs).value;
      var r := CountFile(Decoded(JArr(objs)));
      && r.total == |types|
      && forall t :: Frontier.MapCount(r.typeCounts, t) == multiset(AllNames(types))[t]
  {
    var types := CollectTypes(objs).value;
    var t := Tally(JsonStats(0, map[]), types);
    assert t.Done? by {
      forall k | 0 <= k < |types| ensures types[k].Typed? && Frontier.TypeNames(types[k].t).Some? {
        assert types[k] in types;
      }
    }
    assert Elements(JArr(objs)) == Some(objs);
    assert CountFile(Decoded(JArr(objs))) == t.value;
  }

  /** Each value contributes at least one name unless it is an empty list,
      so the counters add up to at least the number of objects minus the
      objects typed `[]`. */
  lemma {:induction false} NamesCoverObjects(types: seq<Counted>)
    requires forall k :: 0 <= k < |types| ==> types[k].Typed? && Frontier.TypeNames(types[k].t).Some?
    ensures |AllNames(types)| + multiset(types)[Typed(JArr([]))] >= |types|
    decreases |types|
  {
    if |types| > 0 {
      NamesCoverObjects(types[1..]);
      assert types == [types[0]] + types[1..];
      var v := types[0].t;
      if v.JArr? && v.items != [] {
        assert |Frontier.TypeNames(v).value| == |v.items|;
      }
    }
  }

  /** An object typed `[]` is counted without any type, so the counters
      can add up to less than the number of objects. */
  lemma EmptyTypeListUndercounts()
    ensures CountFile(Decoded(JArr([JObj(map["@type" := JArr([])])]))) == JsonStats(1, map[])
  {
    var obj := JObj(map["@type" := JArr([])]);
    assert ObjectTypes(obj) == Done([Typed(JArr([]))]);
    assert CollectTypes([obj]) == Done([Typed(JArr([]))]) by {
      assert [obj][0] == obj;
      assert [obj][1..] == [];
      assert [Typed(JArr([]))] + [] == [Typed(JArr([]))];
    }
    assert Frontier.AddTypes(map[], JArr([])) == Done(map[]);
    assert [Typed(JArr([]))][1..] == [];
  }

  /** Elements that are strings add nothing but a possible last object: the
      first one mentioning `@type` is counted and stops the loop, and none
      is counted when no string mentions it. */
  lemma {:induction false} StringElements(objs: seq<Json>)
    requires forall k :: 0 <= k < |objs| ==> objs[k].JStr?
    ensures CollectTypes(objs).value == [] || CollectTypes(objs) == Raised([Unread])
    ensures (forall k :: 0 <= k < |objs| ==> !Text.Contains(objs[k].s, "@type")) ==> CollectTypes(objs).value == []
    decreases |objs|
  {
    if |objs| > 0 {
      StringElements(objs[1..]);
      var first := ObjectTypes(objs[0]);
      if first.Done? {
        assert first.value == [];
        var rest := CollectTypes(objs[1..]);
        assert [] + rest.value == rest.value;
      }
    }
  }

  /** A file holding one dictionary or one string, rather than a list,
      counts no type and at most one object. */
  lemma NonListFileCountsNoTypes(data: Json)
    requires data.JObj? || data.JStr?
    ensures CountFile(Decoded(data)).total <= 1
    ensures CountFile(Decoded(data)).typeCounts == map[]
  {
    var objs := Elements(data).value;
    if data.JObj? {
      assert forall k :: 0 <= k < |objs| ==> objs[k] in objs;
    }
    StringElements(objs);
  }

  /** A file holding a string counts nothing: its one-character elements
      are too short to mention `@type`. */
  lemma StringFileCountsNothing(s: string)
    ensures CountFile(Decoded(JStr(s))) == JsonStats(0, map[])
  {
    var objs := Elements(JStr(s)).value;
    StringElements(objs);
  }

  /** A file holding the dictionary `{"@type": "Recipe"}` iterates its one
      key, which mentions `@type`, so one object is counted with no type. */
  lemma TypeKeyFileCountsOne()
    ensures CountFile(Decoded(JObj(map["@type" := JStr("Recipe")]))) == JsonStats(1, map[])
  {
    var data := JObj(map["@type" := JStr("Recipe")]);
    var objs := Elements(data).value;
    assert |objs| == 1;
    assert objs[0] in objs;
    assert objs == [JStr("@type")];
    assert Text.OccursAt("@type", "@type", 0);
    assert ObjectTypes(JStr("@type")) == Raised([Unread]);
  }

  /** A list element that is a string mentioning `@type` is counted before
      indexing it raises. */
  lemma TypeMentionCountsOne()
    ensures CountFile(Decoded(JArr([JStr("x@type")]))) == JsonStats(1, map[])
  {
    assert Text.OccursAt("x@type", "@type", 1);
    assert ObjectTypes(JStr("x@type")) == Raised([Unread]);
    assert CollectTypes([JStr("x@type")]) == Raised([Unread]);
  }

  // ---------------------------------------------------------------- pausing

  /** What `get_site_status` found in the site's status file: no file, a
      file whose text is only whitespace, a file `json.loads` rejects, or a
      decoded value. */
  datatype StatusFile = NoStatusFile | BlankStatusFile | CorruptStatusFile | StatusJson(data: Json)

  /** The status `get_site_status` falls back to, stamped `now`: zero
      counts and not paused; a file that exists but cannot be used also
      gets `sitemap_processed`. */
  function DefaultStatus(fileExists: bool, now: string): (r: map<string, Json>)
    ensures "paused" in r && r["paused"] == JBool(false)
    ensures "last_updated" in r && r["last_updated"] == JStr(now)
    ensures "sitemap_processed" in r <==> fileExists
  {
    var status := map["total_urls" := JNum(0), "crawled_urls" := JNum(0),
                      "paused" := JBool(false), "last_updated" := JStr(now)];
    if fileExists then status["sitemap_processed" := JBool(true)] else status
  }

  /** `get_site_status`: the decoded file, or the default status when the
      file is missing, blank or corrupt. */
  function GetSiteStatus(file: StatusFile, now: string): (r: Json)
    ensures file.StatusJson? ==> r == file.data
    ensures !file.StatusJson? ==> r.JObj? && "paused" in r.fields && r.fields["paused"] == JBool(false)
  {
    match file
    case StatusJson(data) => data
    case NoStatusFile => JObj(DefaultStatus(false, now))
    case _ => JObj(DefaultStatus(true, now))
  }

  /** `update_site_status`: the status is written back with `last_updated`
      set to the time of writing. */
  function StampStatus(status: map<string, Json>, now: string): (r: map<string, Json>)
    ensures r.Keys == status.Keys + {"last_updated"}
    ensures r["last_updated"] == JStr(now)
    ensures forall k :: k in status && k != "last_updated" ==> r[k] == status[k]
  {
    status["last_updated" := JStr(now)]
  }

  /** `status['paused'] = not status['paused']`: `paused` becomes the
      negation of its truth value; a status without `paused` raises
      `KeyError`. */
  function FlipPaused(status: map<string, Json>): (r: Result<map<string, Json>>)
    ensures r.Err? <==> "paused" !in status
    ensures r.Ok? ==> "paused" in r.value && r.value["paused"] == JBool(!Truthy(status["paused"]))
    ensures r.Ok? ==> r.value.Keys == status.Keys
    ensures r.Ok? ==> forall k :: k in status && k != "paused" ==> r.value[k] == status[k]
  {
    if "paused" !in status then Err("paused")
    else Ok(status["paused" := JBool(!Truthy(status["paused"]))])
  }

  /** Flipping twice restores the flag's truth value (and the flag itself
      when it was a boolean) and nothing else moves. */
  lemma FlipPausedTwice(status: map<string, Json>)
    requires "paused" in status
    ensures var once := FlipPaused(status).value;
      && FlipPaused(once).Ok?
      && FlipPaused(once).value == status["paused" := JBool(Truthy(status["paused"]))]
      && (status["paused"].JBool? ==> FlipPaused(once).value == status)
  {
  }

  /** `toggle_pause(site_name)`: the status as saved. It is loaded (or
      defaulted), `paused` is flipped and the result is written back with a
      fresh `last_updated`. A decoded file that is not a dictionary, or a
      dictionary without `paused`, raises. */
  function TogglePause(file: StatusFile, now: string): (r: Result<map<string, Json>>)
    ensures r.Err? <==> file.StatusJson? && !(file.data.JObj? && "paused" in file.data.fields)
    ensures !file.StatusJson? ==> r.Ok? && "paused" in r.value && r.value["paused"] == JBool(true)
    ensures !file.StatusJson? ==> r.Ok? && ("sitemap_processed" in r.value <==> !file.NoStatusFile?)
    ensures r.Ok? ==> "last_updated" in r.value && r.value["last_updated"] == JStr(now)
    ensures r.Ok? && file.StatusJson? ==>
      var stored := file.data.fields;
      && r.value.Keys == stored.Keys + {"last_updated"}
      && r.value["paused"] == JBool(!Truthy(stored["paused"]))
      && forall k :: k in stored && k != "paused" && k != "last_updated" ==> r.value[k] == stored[k]
  {
    match GetSiteStatus(file, now)
    case JObj(status) =>
      (match FlipPaused(status)
       case Ok(flipped) => Ok(StampStatus(flipped, now))
       case Err(e) => Err(e))
    case _ => Err("paused")
  }

  /** The status `toggle_pause` starts from. */
  function Loaded(file: StatusFile, now: string): map<string, Json>
    requires TogglePause(file, now).Ok?
  {
    GetSiteStatus(file, now).fields
  }

  /** Toggling twice, the second time reading back the file the first one
      wrote, gives back the status it started from with only the stamp
      moved, when `paused` was a boolean; otherwise `paused` becomes the
      boolean of its truth value. */
  lemma TogglePauseTwice(file: StatusFile, now: string, later: string)
    requires TogglePause(file, now).Ok?
    ensures var start := Loaded(file, now);
      var twice := TogglePause(StatusJson(JObj(TogglePause(file, now).value)), later);
      && twice.Ok?
      && twice.value == start["paused" := JBool(Truthy(start["paused"]))]["last_updated" := JStr(later)]
      && (start["paused"].JBool? ==> twice.value == start["last_updated" := JStr(later)])
  {
  }

  // ---------------------------------------------------------------- error log

  const MaxLogLines: nat := 200
  const Separator: string := " | "

  datatype ErrorType = SitemapError | RateLimit | TimeoutError | NotFound | General

  datatype LogEntry = LogEntry(timestamp: string, level: string, message: string, kind: ErrorType)

  /** The error type of a message, by the first of `SITEMAP`, `HTTP 429`,
      `TIMEOUT` and `HTTP 404` it contains. */
  function Classify(message: string): (r: ErrorType)
    ensures r == SitemapError <==> Text.Contains(message, "SITEMAP")
    ensures r == General <==> (!Text.Contains(message, "SITEMAP") && !Text.Contains(message, "HTTP 429")
      && !Text.Contains(message, "TIMEOUT") && !Text.Contains(message, "HTTP 404"))
  {
    if Text.Contains(message, "SITEMAP") then SitemapError
    else if Text.Contains(message, "HTTP 429") then RateLimit
    else if Text.Contains(message, "TIMEOUT") then TimeoutError
    else if Text.Contains(message, "HTTP 404") then NotFound
    else General
  }

  /** Each marker decides the type exactly when no earlier marker occurs;
      a message with none of them is general. */
  lemma ClassifyPrecedence(message: string)
    ensures Classify(message) == SitemapError <==> Text.Contains(message, "SITEMAP")
    ensures Classify(message) == RateLimit <==>
      !Text.Contains(message, "SITEMAP") && Text.Contains(message, "HTTP 429")
    ensures Classify(message) == TimeoutError <==>
      !Text.Contains(message, "SITEMAP") && !Text.Contains(message, "HTTP 429") && Text.Contains(message, "TIMEOUT")
    ensures Classify(message) == NotFound <==>
      !Text.Contains(message, "SITEMAP") && !Text.Contains(message, "HTTP 429") && !Text.Contains(message, "TIMEOUT")
      && Text.Contains(message, "HTTP 404")
    ensures Classify(message) == General <==>
      !Text.Contains(message, "SITEMAP") && !Text.Contains(message, "HTTP 429") && !Text.Contains(message, "TIMEOUT")
      && !Text.Contains(message, "HTTP 404")
  {
  }

  /** The text before and after the first separator, if there is one. */
  function SplitOnce(s: string): (r: Option<(string, string)>)
    ensures r.Some? ==> s == r.value.0 + Separator + r.value.1
    ensures r.Some? ==> |r.value.0| == Text.Find(s, Separator)
    ensures r.None? <==> Text.Find(s, Separator) < 0
  {
    var i := Text.Find(s, Separator);
    if i < 0 then None
    else
      assert s[i..i + 3] == Separator;
      assert s == s[..i] + s[i..i + 3] + s[i + 3..];
      Some((s[..i], s[i + 3..]))
  }

  /** `s.split(' | ', 2)` when it has three parts. */
  function Fields(s: string): (r: Option<(string, string, string)>)
    ensures r.Some? ==> s == r.value.0 + Separator + r.value.1 + Separator + r.value.2
  {
    match SplitOnce(s)
    case None => None
    case Some((timestamp, rest)) =>
      match SplitOnce(rest)
      case None => None
      case Some((level, message)) => Some((timestamp, level, message))
  }

  /** One log line: `line.strip().split(' | ', 3)` with at least three
      parts gives the timestamp, the level and the rest, rejoined; blank
      lines and lines with fewer than two separators are skipped. */
  function ParseLine(line: string): (r: Option<LogEntry>)
    ensures r.Some? ==> Text.Strip(line) == r.value.timestamp + Separator + r.value.level + Separator + r.value.message
    ensures r.Some? ==> r.value.kind == Classify(r.value.message)
  {
    var s := Text.Strip(line);
    if s == "" then None
    else
      match Fields(s)
      case None => None
      case Some((timestamp, level, message)) => Some(LogEntry(timestamp, level, message, Classify(message)))
  }

  /** Where a line is cut: it parses exactly when its stripped text holds a
      separator and another one after the first; the timestamp runs up to
      the first separator and the level up to the next. */
  lemma ParseLineCuts(line: string)
    ensures var s := Text.Strip(line);
      var first := Text.Find(s, Separator);
      ParseLine(line).Some? <==> first >= 0 && Text.Find(s[first + 3..], Separator) >= 0
    ensures var s := Text.Strip(line);
      ParseLine(line).Some? ==> |ParseLine(line).value.timestamp| == Text.Find(s, Separator)
    ensures var s := Text.Strip(line);
      ParseLine(line).Some? ==>
        |ParseLine(line).value.level| == Text.Find(s[|ParseLine(line).value.timestamp| + 3..], Separator)
  {
    var s := Text.Strip(line);
    var first := Text.Find(s, Separator);
    if first >= 0 {
      assert SplitOnce(s).Some?;
    }
  }

  /** The parse of each line, in order. */
  function ParseEach(lines: seq<string>): (r: seq<Option<LogEntry>>)
    ensures |r| == |lines|
  {
    if |lines| == 0 then [] else [ParseLine(lines[0])] + ParseEach(lines[1..])
  }

  lemma {:induction false} ParseEachAt(lines: seq<string>, k: nat)
    requires k < |lines|
    ensures ParseEach(lines)[k] == ParseLine(lines[k])
    decreases k
  {
    if k > 0 {
      ParseEachAt(lines[1..], k - 1);
    }
  }

  /** The present values, in order. */
  function Somes<T>(xs: seq<Option<T>>): (r: seq<T>)
    ensures |r| <= |xs|
  {
    if |xs| == 0 then []
    else if xs[0].Some? then [xs[0].value] + Somes(xs[1..])
    else Somes(xs[1..])
  }

  /** The entries of the lines that parse; the others are skipped. */
  function ParseLines(lines: seq<string>): (r: seq<LogEntry>)
    ensures |r| <= |lines|
  {
    Somes(ParseEach(lines))
  }

  function Reverse<T>(xs: seq<T>): (r: seq<T>)
    ensures |r| == |xs|
    ensures forall k :: 0 <= k < |xs| ==> r[k] == xs[|xs| - 1 - k]
  {
    if |xs| == 0 then [] else Reverse(xs[1..]) + [xs[0]]
  }

  /** `lines[-200:]`. */
  function LastLines(lines: seq<string>): (r: seq<string>)
    ensures |r| <= MaxLogLines
    ensures |r| == if |lines| <= MaxLogLines then |lines| else MaxLogLines
    ensures r == lines[|lines| - |r|..]
  {
    if |lines| <= MaxLogLines then lines else lines[|lines| - MaxLogLines..]
  }

  /** `error_log_page`: the entries of the last 200 lines, newest first;
      without a log file a single informational entry. */
  function ErrorLog(file: Option<seq<string>>): (r: seq<LogEntry>)
    ensures file.None? ==> r == [LogEntry("N/A", "INFO", "No errors logged yet.", General)]
    ensures file.Some? ==> |r| <= MaxLogLines
  {
    match file
    case None => [LogEntry("N/A", "INFO", "No errors logged yet.", General)]
    case Some(lines) => Reverse(ParseLines(LastLines(lines)))
  }

  /** A line written as `timestamp | level | message` reads back as those
      three fields when neither the timestamp nor the level holds a `|` and
      the line has no surrounding whitespace. */
  lemma ParseLineRoundTrip(timestamp: string, level: string, message: string)
    requires '|' !in timestamp && '|' !in level
    requires var line := timestamp + Separator + level + Separator + message;
      !Text.IsSpace(line[0]) && !Text.IsSpace(line[|line| - 1])
    ensures ParseLine(timestamp + Separator + level + Separator + message)
         == Some(LogEntry(timestamp, level, message, Classify(message)))
  {
    var rest := level + Separator + message;
    var line := timestamp + Separator + rest;
    assert line == timestamp + Separator + level + Separator + message;
    assert Text.Strip(line) == line by {
      Text.StripClean(line);
    }
    assert Fields(line) == Some((timestamp, level, message)) by {
      FindAfterBarless(timestamp, rest);
      FindAfterBarless(level, message);
    }
  }

  /** The first separator in `a + " | " + b` is the one after `a` when `a`
      holds no `|`. */
  lemma FindAfterBarless(a: string, b: string)
    requires '|' !in a
    ensures SplitOnce(a + Separator + b) == Some((a, b))
  {
    var s := a + Separator + b;
    assert Text.OccursAt(s, Separator, |a|);
    forall i | 0 <= i < |a| ensures !Text.OccursAt(s, Separator, i) {
      if i + 1 < |a| {
        assert s[i + 1] == a[i + 1];
      } else {
        assert s[i + 1] == ' ';
      }
      assert i + 3 <= |s| ==> s[i..i + 3][1] == s[i + 1];
    }
    assert s[..|a|] == a;
    assert s[|a| + 3..] == b;
  }

  /** When every value is present, none is dropped and each keeps its
      place. */
  lemma {:induction false} SomesAll<T>(xs: seq<Option<T>>)
    requires forall k :: 0 <= k < |xs| ==> xs[k].Some?
    ensures |Somes(xs)| == |xs|
    ensures forall k :: 0 <= k < |xs| ==> Somes(xs)[k] == xs[k].value
    decreases |xs|
  {
    if |xs| > 0 {
      SomesAll(xs[1..]);
    }
  }

  /** Reversing the present values of a sequence without gaps. */
  lemma ReverseSomes<T>(xs: seq<Option<T>>)
    requires forall k :: 0 <= k < |xs| ==> xs[k].Some?
    ensures |Reverse(Somes(xs))| == |xs|
    ensures forall k :: 0 <= k < |xs| ==> Reverse(Somes(xs))[k] == xs[|xs| - 1 - k].value
  {
    SomesAll(xs);
  }

  /** The present values of two sequences put together. */
  lemma {:induction false} SomesAppend<T>(a: seq<Option<T>>, b: seq<Option<T>>)
    ensures Somes(a + b) == Somes(a) + Somes(b)
    decreases |a|
  {
    if |a| == 0 {
      assert a + b == b;
    } else {
      SomesAppend(a[1..], b);
      assert (a + b)[1..] == a[1..] + b;
    }
  }

  lemma ParseEachAppend(a: seq<string>, b: seq<string>)
    ensures ParseEach(a + b) == ParseEach(a) + ParseEach(b)
  {
    var l, r := ParseEach(a + b), ParseEach(a) + ParseEach(b);
    forall k | 0 <= k < |l| ensures l[k] == r[k] {
      ParseEachAt(a + b, k);
      if k < |a| {
        ParseEachAt(a, k);
      } else {
        ParseEachAt(b, k - |a|);
      }
    }
  }

  lemma ReverseAppend<T>(a: seq<T>, b: seq<T>)
    ensures Reverse(a + b) == Reverse(b) + Reverse(a)
  {
    var l, r := Reverse(a + b), Reverse(b) + Reverse(a);
    forall k | 0 <= k < |l| ensures l[k] == r[k] {
      if k < |b| {
        assert l[k] == (a + b)[|a| + |b| - 1 - k] == b[|b| - 1 - k];
      } else {
        assert l[k] == (a + b)[|a| + |b| - 1 - k] == a[|a| - 1 - (k - |b|)];
      }
    }
  }

  /** Appending a line to the log puts its entry, when it parses, in front
      of the entries shown before; once 200 lines are kept, the oldest of
      them leaves the window. */
  lemma ErrorLogAppend(lines: seq<string>, line: string)
    ensures var kept := if |lines| < MaxLogLines then 0 else |lines| - MaxLogLines + 1;
      ErrorLog(Some(lines + [line]))
      == (if ParseLine(line).Some? then [ParseLine(line).value] else []) + ErrorLog(Some(lines[kept..]))
  {
    var kept := if |lines| < MaxLogLines then 0 else |lines| - MaxLogLines + 1;
    var window := lines[kept..];
    assert LastLines(lines + [line]) == window + [line];
    assert LastLines(window) == window;
    ParseEachAppend(window, [line]);
    assert ParseEach([line]) == [ParseLine(line)];
    SomesAppend(ParseEach(window), [ParseLine(line)]);
    var head := Somes([ParseLine(line)]);
    assert head == if ParseLine(line).Some? then [ParseLine(line).value] else [];
    ReverseAppend(ParseLines(window), head);
    assert Reverse(head) == head;
  }

  /** Only the last 200 lines are read: lines before them change nothing. */
  lemma ErrorLogIgnoresOlder(older: seq<string>, lines: seq<string>)
    requires |lines| >= MaxLogLines
    ensures ErrorLog(Some(older + lines)) == ErrorLog(Some(lines))
    ensures |lines| > MaxLogLines ==> ErrorLog(Some(lines)) == ErrorLog(Some(lines[|lines| - MaxLogLines..]))
  {
    var all := older + lines;
    var tail := lines[|lines| - MaxLogLines..];
    assert all[|all| - MaxLogLines..] == tail;
    assert LastLines(all) == tail;
    assert LastLines(lines) == tail;
    assert LastLines(tail) == tail;
    assert ErrorLog(Some(all)) == Reverse(ParseLines(tail));
    assert ErrorLog(Some(lines)) == Reverse(ParseLines(tail));
  }

  /** Reading present values backwards: when the last `k + 1` values are
      all present, the `k`-th one read is the `k`-th from the end. */
  lemma ReverseSomesSuffix<T>(xs: seq<Option<T>>, k: nat)
    requires k < |xs|
    requires forall j :: |xs| - 1 - k <= j < |xs| ==> xs[j].Some?
    ensures k < |Reverse(Somes(xs))|
    ensures Reverse(Somes(xs))[k] == xs[|xs| - 1 - k].value
  {
    var a, b := xs[..|xs| - 1 - k], xs[|xs| - 1 - k..];
    assert xs == a + b;
    SomesAppend(a, b);
    ReverseSomes(b);
    ReverseAppend(Somes(a), Somes(b));
    assert b[0] == xs[|xs| - 1 - k];
  }

  /** Parsing a suffix of the lines gives the same suffix of the parses. */
  lemma ParseEachSuffix(lines: seq<string>, from: nat)
    requires from <= |lines|
    ensures ParseEach(lines[from..]) == ParseEach(lines)[from..]
  {
    assert lines == lines[..from] + lines[from..];
    ParseEachAppend(lines[..from], lines[from..]);
  }

  /** The newest line comes first: when the newest `k + 1` of the last 200
      lines all parse, entry `k` is the parse of line `k` counted from the
      end (`ParseEachAt` gives the parse of each line). Lines that do not
      parse further back only shorten the list. */
  lemma NewestFirst(lines: seq<string>, k: nat)
    requires k < |LastLines(lines)|
    requires forall j :: |lines| - 1 - k <= j < |lines| ==> ParseEach(lines)[j].Some?
    ensures k < |ErrorLog(Some(lines))|
    ensures ErrorLog(Some(lines))[k] == ParseEach(lines)[|lines| - 1 - k].value
  {
    var window := LastLines(lines);
    var off := |lines| - |window|;
    assert window == lines[off..];
    var each := ParseEach(window);
    assert each == ParseEach(lines)[off..] by {
      ParseEachSuffix(lines, off);
    }
    assert |each| == |window|;
    forall j | |each| - 1 - k <= j < |each| ensures each[j].Some? {
      assert each[j] == ParseEach(lines)[off + j];
    }
    var i := |each| - 1 - k;
    assert off + i == |lines| - 1 - k;
    assert each[i] == ParseEach(lines)[off + i];
    ErrorLogOfWindow(lines);
    PageEntry(ErrorLog(Some(lines)), each, k, ParseEach(lines)[|lines| - 1 - k]);
  }

  /** Entry `k` of a page read backwards from values whose newest `k + 1`
      are present. */
  lemma PageEntry<T>(page: seq<T>, each: seq<Option<T>>, k: nat, e: Option<T>)
    requires k < |each| && page == Reverse(Somes(each))
    requires forall j :: |each| - 1 - k <= j < |each| ==> each[j].Some?
    requires each[|each| - 1 - k] == e
    ensures e.Some? && k < |page| && page[k] == e.value
  {
    ReverseSomesSuffix(each, k);
  }

  lemma ErrorLogOfWindow(lines: seq<string>)
    ensures ErrorLog(Some(lines)) == Reverse(Somes(ParseEach(LastLines(lines))))
  {
  }
}
