# Crawler core, modelled in Dafny

This project models the deterministic logic of a schema.org crawler and its
control application. The crawler fetches a site's pages, pulls the JSON-LD
objects out of each page, deduplicates them by key, counts their `@type`s and
builds the text that is embedded for search. The control application derives
site names, reads `robots.txt` and sitemaps, keeps a site's URL list and
status, and shows the error log. Around them, a configuration object resolves
values, paths and the embedding provider. A small setup script puts a git
submodule on the import path.

Everything is modelled as pure functions over immutable values:

- JSON is a `Json` datatype with Python truthiness.
- The crawler's dictionaries are one `CrawlerState` record of maps, sets and
  sequences.
- A Python exception that leaves state behind is an `Outcome` that is
  `Raised` with the state at the point of the raise.

Time, the network, the file system, random choices and the process
environment are parameters.

Modules follow the program:

- `Frontier`: `crawler.py`'s per-site bookkeeping.
- `Fetch`: the `fetch_url` transitions.
- `SchemaExtraction`: `extract_schema_org` and `synthesize_schema`.
- `EmbeddingText`: `prepare_text_for_embedding`.
- `UrlLists`: sitemap URL deduplication and batch slicing.
- `Requeue`: the domain interleave of `requeue_urls`.
- `Discovery`: `app.py`'s site names, robots.txt, filtering and the sitemap
  worklist.
- `UrlsFile`: `update_urls_file`.
- `SiteStatus`: type-count fallback, pause toggle and error log.
- `Config`: `config.py`.
- `SubmodulePath`: `setup_submodule_path.py`.
- `Text`, `PosixPath`, `JsonValue` and `Wrappers`: the Python string,
  `os.path`, JSON and option/exception behaviour the rest relies on.

Behaviour of the code that a reader might not expect, each stated as a lemma:

- Rotation in `get_next_url` is not fair across deletions. The cursor indexes
  a list that is recomputed on every call, so after a deletion the same site
  can be served twice in a row (`Frontier.RotationRepeatsAfterDelete`).
- A throttled (HTTP 429) URL is put back on its site's queue with no retry
  bound (`Fetch.FetchRequeuesThrottled`).
- An empty custom site name is not rejected. It falls back to the name
  derived from the URL (`Discovery.ProcessRequest`). Only a non-empty name
  with a character outside `[A-Za-z0-9_]` is refused.
- In the fallback type counter, an object whose `@type` is an empty list
  counts towards `total_objects` but adds no type. So the type counts can sum
  to less than the total (`SiteStatus.EmptyTypeListUndercounts`). The sum is
  at least the total when no object has `@type: []`
  (`SiteStatus.NamesCoverObjects`).

## Model

| member | source | states |
|---|---|---|
| Frontier.ActiveSites | code/crawler.py:541-543 | the sites rotated over are exactly those with a non-empty queue that are not deleted, each once |
| Frontier.ActiveSitesInOrder | code/crawler.py:541-543 | the active sites keep dictionary order: any two of them appear among the queue keys in the order they appear in the rotation list |
| Frontier.GetNextUrl | code/crawler.py:537-557 | no URL exactly when no undeleted site has a queued URL, with the state unchanged; otherwise the URL is the head of the served site's queue, that queue loses exactly its head, the cursor becomes (old+1) mod the number of active sites, the served site is the active site at the new cursor, and nothing else changes |
| Frontier.RotationAlternates | code/crawler.py:548-555 | with at least two active sites, two consecutive calls serve different sites, whether or not the first call empties its site's queue |
| Frontier.RotationRepeatsAfterDelete | code/crawler.py:542-551 | after a deletion the recomputed active list can make the cursor serve the same site twice in a row |
| Frontier.DeletedSiteNeverServed | code/crawler.py:542-543 | a site marked deleted is never served |
| Frontier.DeleteSite | code/crawler.py:559-579 | the site is marked deleted and has no URLs, crawled set, error counts, queue, key ledger or type counts; every other site's view and the cursor are unchanged |
| Frontier.DeleteSiteIdempotent | code/crawler.py:559-579 | deleting a site twice is the same as deleting it once |
| Frontier.DeleteSitesCommute | code/crawler.py:559-579 | deleting two sites gives the same state in either order |
| Frontier.ErrorKeyInjective | code/crawler.py:587 | distinct error codes (HTTP statuses, TIMEOUT, ERROR) are counted under distinct keys |
| Frontier.TrackError | code/crawler.py:582-591 | the counter of the code's key rises by exactly one from zero or its old value, no other counter of the site changes, the site gains only that key, and no other site or field changes |
| Frontier.AddTypeList | code/crawler.py:361-366 | counting a list of types completes exactly when every element is a string, and then each counter rises by the element's multiplicity in the list (duplicates counted); counters never fall |
| Frontier.UpdateJsonTypeCount | code/crawler.py:355-371 | completes exactly when `@type` is a string or a list of strings; then each type's counter rises by its multiplicity; counters never fall; no other site or field changes |
| Frontier.LoadJsonKeys | code/crawler.py:330-340 | the stored keys become the site's ledger only the first time the site is seen; later calls change nothing |
| Frontier.SaveJsonKey | code/crawler.py:342-353 | the ledger becomes the old ledger plus the key, and a line is appended exactly when the key was new; other sites are unchanged |
| Frontier.SaveJsonKeyIdempotent | code/crawler.py:347-353 | saving the same key again changes nothing and appends nothing |
| Frontier.ExtractJsonKey | code/crawler.py:620-629 | a key exists exactly for a dictionary with `@id` or `url`; `@id` wins over `url` |
| Fetch.AppendToQueue | code/crawler.py:882-884 | the URL is appended to the site's queue, which is created at the end of the dictionary order when missing; no other site or field changes |
| Fetch.LoadCrawled | code/crawler.py:320-328 | the files on disk become the site's crawled set only when the site has none yet; nothing else changes |
| Fetch.FetchUrl | code/crawler.py:870-955 | a deleted site's URL is dropped with no change; a paused site's URL goes back on its queue; other sites, the cursor and the deleted set never change; records are written only for a page that is then on record as crawled, and every record carries url and timestamp |
| Fetch.FetchSkipsCrawled | code/crawler.py:887-888 | a page already on record is not fetched: only the crawled set is read in |
| Fetch.FetchFailure | code/crawler.py:927-944 | a non-200 reply, a timeout or a failure counts the error; a 429 also puts the URL back on the site's queue |
| Fetch.ReplyError | code/crawler.py:927-954 | a reply counts no error exactly when it is a 200 response or the domain is busy; another status is counted under that status, a timeout under `TIMEOUT` and any other failure under `ERROR` |
| Fetch.FetchCountsError | code/crawler.py:930-955 | on failure exactly the matching error counter rises by one and nothing is written |
| Fetch.FetchRequeuesThrottled | code/crawler.py:935-944 | a 429 re-queues the URL at the back of the site's queue with no retry bound; other failures leave the queues alone |
| Fetch.FetchStoresPage | code/crawler.py:906-920 | a 200 page writes the extracted records (at least one), adds the page to the crawled set and leaves errors and queues alone |
| Fetch.FetchExtractionFails | code/crawler.py:906-955 | an exception during extraction writes nothing, counts one ERROR, and leaves the page uncrawled |
| Fetch.FetchStoredPageOnce | code/crawler.py:887-920 | once a page is stored, fetching it again changes nothing, whatever the reply would be |
| SchemaExtraction.Overlay | code/crawler.py:674-678 | `dict.update`: keys of both maps, the update's values winning, the base's values kept elsewhere |
| SchemaExtraction.Flatten | code/crawler.py:673-679 | flattening succeeds exactly for a dictionary, an empty string or an empty list; the result holds url and timestamp, every field of the object with its value, and nothing else; url and timestamp come from the page unless the object has its own |
| SchemaExtraction.FlattenIdempotent | code/crawler.py:673-679 | flattening a flattened record gives it back |
| SchemaExtraction.ClaimKey | code/crawler.py:645-656 | an object is kept exactly when it has no usable key or its key is not in the ledger; a kept object's key is appended; a truthy non-string key raises; an object whose key is already known is dropped with no change |
| SchemaExtraction.CountType | code/crawler.py:699-700 | a dictionary without `@type` leaves the state as it is, one with `@type` has its type counted as `update_json_type_count` does, and an object that is not a dictionary never changes the state (the test finds nothing, or it or the index raises); only the counters move |
| SchemaExtraction.ObjectEmittedOnce | code/crawler.py:714-739 | emitting the same keyed object a second time emits nothing and changes nothing |
| SchemaExtraction.KeylessAdmitted | code/crawler.py:654-656 | an object without a truthy key is always among those let through |
| SchemaExtraction.KnownNotAdmitted | code/crawler.py:651-653 | an object whose key is already in the ledger is never let through |
| SchemaExtraction.NewItemsAppend | code/crawler.py:640-656 | a pass over two lists one after the other is a pass over their concatenation, the ledger carrying over |
| SchemaExtraction.ClaimAdmits | code/crawler.py:651-656 | a completed key claim keeps the object exactly when it passes the test, and the ledger then knows the object's string key |
| SchemaExtraction.ClaimList | code/crawler.py:649-656 | the first pass over a top-level list keeps exactly the objects that pass the test, in order, appends exactly their keys, and leaves the ledger as grown by the whole list |
| SchemaExtraction.EmitObject | code/crawler.py:714-739 | a dictionary on its own is emitted, as its flattened record, exactly when it passes the test; otherwise nothing is emitted; the ledger then knows its key |
| SchemaExtraction.EmitGraph | code/crawler.py:685-712 | the `@graph` items emitted are exactly those that pass the test, in order, each as its own flattened record, and the state only moves by the keys appended |
| SchemaExtraction.EmitList | code/crawler.py:647-683 | the objects emitted from a top-level array are exactly those that pass the test, in order; no record for none of them, one `{url, timestamp, items}` record holding them all for two or more, and that object flattened for exactly one |
| SchemaExtraction.EmitScript | code/crawler.py:640-742 | a script tag with no text raises and an undecodable one is skipped; the objects emitted are exactly those of the script's list, `@graph` or lone dictionary that pass the test; a record is added exactly when an object is emitted; the state only moves by fresh keys |
| SchemaExtraction.EmitDict | code/crawler.py:684-739 | a decoded dictionary emits exactly those of its `@graph` items, or of itself when there is no `@graph`, that pass the test |
| SchemaExtraction.EmitScripts | code/crawler.py:640-742 | over all script tags, the objects emitted are exactly those of all the scripts that pass the test, against a ledger carried from one script to the next |
| SchemaExtraction.Scan | code/crawler.py:636-742 | starting from the loaded ledger, the objects emitted are exactly those of all the scripts that pass the test, their keys are appended, and there is a record exactly when an object was emitted |
| SchemaExtraction.Headline | code/crawler.py:754-764 | reading the title fails exactly when the `<title>` tag holds no single string |
| SchemaExtraction.TitleBeatsOgTitle | code/crawler.py:754-764 | a non-blank `<title>` is the headline whatever `og:title` says |
| SchemaExtraction.OgTitleFallback | code/crawler.py:762-764 | with no title or a blank one, `og:title`'s content is the headline |
| SchemaExtraction.DescriptionBeatsOgDescription | code/crawler.py:756-768 | a non-empty meta description wins over `og:description` |
| SchemaExtraction.SynthesizeSchema | code/crawler.py:752-798 | synthesis fails exactly when reading the title raises; otherwise it is the object built from headline and description |
| SchemaExtraction.SynthesizedType | code/crawler.py:775-792 | the synthesized object carries url, timestamp and the schema.org context; its type is Article exactly when `article:published_time` exists and WebPage otherwise; `datePublished` is present exactly then, with that tag's content |
| SchemaExtraction.SynthesizedOptionalFields | code/crawler.py:770-796 | `image` is present exactly when `og:image` has non-empty content; `author` is present exactly when `article:author` exists, as a Person |
| SchemaExtraction.SynthesizedText | code/crawler.py:778-796 | headline and description are the chosen texts (null when missing) and no other fields appear |
| SchemaExtraction.ExtractSchemaOrg | code/crawler.py:631-750 | the ledger is loaded; the objects emitted are exactly those of all the scripts that pass the test; when there are any, the scripts' records are returned, and when there are none, exactly the synthesized record, which fails exactly when the title cannot be read |
| SchemaExtraction.EmittedKeysFresh | code/crawler.py:636-739 | the keys of the emitted objects are distinct, none was in the ledger before, and the ledger afterwards is the old ledger plus exactly those keys |
| EmbeddingText.TypePart | code/crawler.py:1022-1027 | a Type line exactly when `@type` is present; a list `@type` fails unless every element is a string |
| EmbeddingText.TitlePart | code/crawler.py:1029-1032 | one line when `name` or `headline` is present, labelled Name exactly when `name` is |
| EmbeddingText.IngredientsPart | code/crawler.py:1037-1041 | an Ingredients line exactly when `recipeIngredient` is a list, holding its first ten entries joined by ", "; fails unless those entries are strings |
| EmbeddingText.ContentPart | code/crawler.py:1043-1048 | a Content line exactly when `articleBody` is present; a string body is cut to its first 500 characters |
| EmbeddingText.PartsOrdered | code/crawler.py:1018-1052 | the lines come in the fixed order Type, Name or Headline, Description, Ingredients, Content |
| EmbeddingText.PartsPresent | code/crawler.py:1018-1052 | exactly the expected lines appear: name beats headline, ingredients only for a list |
| EmbeddingText.TextSplitsIntoLines | code/crawler.py:1050-1052 | the text splits on newlines back into exactly the part lines |
| EmbeddingText.PrepareTextForEmbedding | code/crawler.py:1018-1052 | the text is produced exactly when every part can be rendered |
| UrlLists.UniqueSpec | code/crawler.py:105-111 | deduplication keeps each URL once, keeps every URL, and keeps first-seen order |
| UrlLists.UniqueIdempotent | code/crawler.py:105-111 | deduplicating twice is deduplicating once |
| UrlLists.Dedup | code/crawler.py:105-111 | the loop with a seen set computes the first-seen deduplication |
| UrlLists.ExtractUrlsFromSitemap | code/crawler.py:75-113 | succeeds exactly on HTTP 200; the URLs are the stripped `<url><loc>` texts, or all `<loc>` texts when there are none, deduplicated in first-seen order, so distinct and each one of those texts |
| UrlLists.Batches | code/crawler.py:148-149 | splitting into batches fails exactly when the batch size is zero, where `range` raises; every positive size succeeds |
| UrlLists.BatchesPartition | code/crawler.py:147-149 | the batches concatenate to the items, none is empty, none exceeds the size and all but the last are full |
| UrlLists.BatchCount | code/crawler.py:147-149 | the number of batches is the ceiling of items over size |
| Requeue.AddTaskLookup | code/crawler.py:1128-1132 | grouping one task appends it to its own host's list and to no other host's |
| Requeue.AddTaskHosts | code/crawler.py:1129-1131 | a task of a new host adds that host as the last key; a task of a known host leaves the keys as they are |
| Requeue.GroupWellFormed | code/crawler.py:1127-1132 | after grouping no host is a key twice, no list is empty and every list holds tasks of its own host only |
| Requeue.GroupHosts | code/crawler.py:1127-1132 | the keys after grouping are the queue's hosts in order of first appearance |
| Requeue.GroupLookup | code/crawler.py:1127-1132 | the list of each host after grouping holds exactly that host's queued tasks, in queue order |
| Requeue.PopLookup | code/crawler.py:1140-1151 | popping a host removes the first of its tasks, deletes the key once its list is empty, and leaves every other host's tasks alone |
| Requeue.PopTotal | code/crawler.py:1141 | a pop takes exactly one task out of the dictionary |
| Requeue.RoundKeeps | code/crawler.py:1139-1151 | for every host, the tasks one round puts back followed by the tasks still in its list are the host's tasks before the round, in the same order |
| Requeue.RoundTotal | code/crawler.py:1139-1151 | the tasks a round puts back plus those left in the dictionary number as many as before |
| Requeue.RoundOnePerHost | code/crawler.py:1139-1151 | when the round's order lists distinct hosts that all hold tasks, the round puts back exactly one task of each, in that order |
| Requeue.FirstHostInOrder | code/crawler.py:1135-1141 | a round whose order is a permutation of the keys puts back at least one task, so the outer loop ends |
| Requeue.InterleaveKeeps | code/crawler.py:1135-1151 | the outer loop puts back every task of each host, in that host's order |
| Requeue.RequeueUrls | code/crawler.py:1113-1151 | the tasks put back are a permutation of the queued tasks, and each host's tasks keep their relative queue order |
| Requeue.FirstRoundDiverse | code/crawler.py:1134-1151 | the first k tasks put back, where k is the number of distinct hosts, have pairwise different hosts and include a task of every host in the queue |
| Discovery.SiteName | code/app.py:41-44 | the site name is the netloc with every `.` replaced, of the same length, with no `.` and no tab, carriage return or line feed left |
| Discovery.NetlocClean | code/app.py:41-44 | the network location `urlparse` gives holds no tab, carriage return or line feed |
| Discovery.NetlocOfCleaned | code/app.py:41-44 | cleaning a URL twice is cleaning it once, and the cleaned URL has the same network location |
| Discovery.CleanedIgnoresUnsafe | code/app.py:41-44 | a tab, carriage return or line feed anywhere in a URL leaves the text `urlparse` splits unchanged, whether the leading strip or the deletion removes it |
| Discovery.NetlocIgnoresUnsafe | code/app.py:41-44 | such a character anywhere in a URL leaves its network location unchanged |
| Discovery.SiteNameIgnoresUnsafe | code/app.py:41-44 | such a character leaves the site name unchanged, so a URL with a tab inside its host names the same site as the URL without it |
| Discovery.RestartTarget | code/app.py:563-569 | a truthy stored original URL is used; otherwise the URL is rebuilt from the site name |
| Discovery.RestartRecoversHost | code/app.py:567-569 | for a netloc with no `_`, rebuilding from the site name gives back `https://` plus the netloc |
| Discovery.RestartKeepsSiteName | code/app.py:567-569 | the rebuilt URL has the same site name |
| Discovery.ProcessRequest | code/app.py:351-366 | a request is refused exactly when the stripped URL is empty or a non-empty stripped custom name has a character outside `[A-Za-z0-9_]`; the name is the custom one when given, else the derived one |
| Discovery.AcceptedNames | code/app.py:356-366 | every name of letters, digits and underscores is accepted as it is |
| Discovery.SitemapLine | code/app.py:54-55 | a robots.txt line gives a sitemap exactly when its stripped, lower-cased form starts with `sitemap:`; the line then holds a colon, and the sitemap is the stripped text after the first one (for every split `head:tail` with no colon in `head`, the value is `tail` stripped) |
| Discovery.RobotsRoundTrip | code/app.py:46-65 | a robots.txt of `Sitemap:` lines yields exactly those URLs, in file order |
| Discovery.GetRobotsTxt | code/app.py:46-65 | a failed request or a status other than 200 gives no sitemaps; a 200 answer gives exactly the values of its `Sitemap:` lines |
| Discovery.FilterLocs | code/app.py:96-97 | a `<loc>` is kept exactly when no filter is given or the filter occurs in it, as often as it occurs (duplicates kept); with no filter the list is unchanged |
| Discovery.FilterLocsIdempotent | code/app.py:96-97 | filtering twice is filtering once |
| Discovery.ParseSitemap | code/app.py:67-105 | an index yields only its child sitemaps, a URL set only its filtered URLs, in document order with duplicates (the `FilterLocs` selection), an unreadable document nothing |
| Discovery.StartSitemaps | code/app.py:274-285 | a URL whose lower-cased form contains `sitemap` or that ends in `.xml` is the only start; any other URL starts from robots.txt's sitemaps, or from the default location when robots.txt lists none |
| Discovery.ProcessSitemaps | code/app.py:287-313 | each sitemap is processed at most once, every start and every listed child is processed, each was a start or listed by an earlier one, and the URLs gathered are those of the processed sitemaps in processing order; the order is first in, first out: it is the starting sitemaps followed by each processed sitemap's listing, in processing order, with repeats dropped, so the distinct starts come first, in their given order |
| Discovery.UniqueKeepsPrefix | code/app.py:289-313 | deduplicating a list extended at the back keeps the deduplicated original in front (the starts are processed before any listed sitemap) |
| Discovery.FifoProcess | code/app.py:290-313 | taking a new sitemap off the front and appending its listing keeps the queue equal to the untaken rest of the starts-then-listings sequence |
| UrlsFile.UpdateUrlsFile | code/app.py:107-129 | the new file is the sorted, duplicate-free union of the old lines and the new URLs, and the count is the size of that union |
| UrlsFile.IncreasingUnique | code/app.py:121-124 | a sorted list without repeats is determined by its elements |
| UrlsFile.ReadBack | code/app.py:110-124 | a written file reads back as the URLs written |
| UrlsFile.UpdateIdempotent | code/app.py:107-129 | updating with the same URLs again leaves the file as it was |
| SiteStatus.ObjectTypes | code/app.py:147-205 | an element with its own `@type` yields that value, else the typed items of an `items` list; a string or list element for which `'@type' in obj` holds is counted and then stops the loop; a string or list element otherwise yields nothing or stops it; a number, boolean or null stops the loop uncounted |
| SiteStatus.Tally | code/app.py:147-205 | counting completes exactly when every type was read and is a string; the total then rises by the number of objects and each type count by its multiplicity; a count that stops has still counted the object it stopped at, and no counter falls |
| SiteStatus.CountFile | code/app.py:140-213 | a missing or undecodable file, or one whose top-level value cannot be iterated, counts nothing |
| SiteStatus.CountFileExact | code/app.py:147-205 | for a decoded list whose types are all read and are strings, the total is the number of typed objects and each count is the number of times the type was named |
| SiteStatus.NamesCoverObjects | code/app.py:147-205 | the type counts sum to at least the total, less one for each object whose `@type` is an empty list |
| SiteStatus.EmptyTypeListUndercounts | code/app.py:160-163 | one object with `@type: []` counts one object and no type |
| SiteStatus.StringElements | code/app.py:147-152 | elements that are strings count at most one object, the first one mentioning `@type`, which ends the loop; none is counted when no string mentions `@type` |
| SiteStatus.NonListFileCountsNoTypes | code/app.py:146-152 | a file holding a dictionary or a string counts no type and at most one object |
| SiteStatus.StringFileCountsNothing | code/app.py:146-152 | a file holding a string counts nothing, since its one-character elements never mention `@type`, `items` or `data` |
| SiteStatus.TypeKeyFileCountsOne | code/app.py:146-152 | the file `{"@type": "Recipe"}` counts one object and no type: its key is visited, mentions `@type`, and indexing it raises |
| SiteStatus.TypeMentionCountsOne | code/app.py:148-152 | the file `["x@type"]` counts one object and no type |
| SiteStatus.GetJsonTypeCounts | code/app.py:131-213 | stored `json_stats` are returned unchanged exactly when present; otherwise the site's file is counted |
| SiteStatus.GetSiteStatus | code/app.py:215-250 | a decoded status file is returned as it is; a missing, blank or undecodable file gives a default status that is not paused |
| SiteStatus.StampStatus | code/app.py:252-262 | the saved status has every key it had plus `last_updated`, set to the time of writing, and every other value unchanged |
| SiteStatus.FlipPaused | code/app.py:495 | fails exactly when the status has no `paused` field; otherwise `paused` becomes the negation of its truth value and nothing else changes |
| SiteStatus.FlipPausedTwice | code/app.py:495 | flipping twice restores a boolean `paused` flag |
| SiteStatus.TogglePause | code/app.py:491-497 | the route fails exactly when the file decodes to something other than a dictionary with `paused`; a missing, blank or corrupt file is saved as a paused default status, with `sitemap_processed` exactly when the file existed; a stored status is saved with `paused` negated, `last_updated` set to the time of saving and every other field unchanged |
| SiteStatus.TogglePauseTwice | code/app.py:491-497 | toggling twice, the second time from the saved file, gives back the status loaded the first time with only `last_updated` moved, when `paused` was a boolean |
| SiteStatus.Classify | code/app.py:700-708 | a message is a sitemap error exactly when it contains `SITEMAP`, and general exactly when it contains none of the four markers |
| SiteStatus.ClassifyPrecedence | code/app.py:700-708 | the error type follows the precedence SITEMAP, then HTTP 429, then TIMEOUT, then HTTP 404, else general, each in both directions |
| SiteStatus.SplitOnce | code/app.py:692-696 | a line splits at its first separator: the part before it is as long as the position of the first occurrence, and the parts rejoin to the line; there is no split exactly when the separator is absent |
| SiteStatus.Fields | code/app.py:692-696 | the three fields rejoin with separators to the text |
| SiteStatus.ParseLine | code/app.py:690-715 | a parsed line is timestamp, level and message joined by separators, the message holding everything after the second separator, classified as above |
| SiteStatus.ParseLineCuts | code/app.py:690-696 | a line parses exactly when its stripped text holds a separator and another one after the first; the timestamp ends at the first separator and the level at the next |
| SiteStatus.ParseLineRoundTrip | code/app.py:690-715 | a line written from a timestamp and a level without bars and any message parses back to them |
| SiteStatus.LastLines | code/app.py:689 | the lines read are the last ones, 200 of them when there are more, all of them otherwise |
| SiteStatus.ErrorLog | code/app.py:679-731 | with no log file the page shows one placeholder entry; otherwise at most 200 entries |
| SiteStatus.ErrorLogAppend | code/app.py:689-717 | appending a line puts its entry, when it parses, in front of the entries shown before, and once 200 lines are kept the oldest of them leaves the window |
| SiteStatus.ErrorLogIgnoresOlder | code/app.py:688-689 | lines before the last 200 change nothing on the page |
| SiteStatus.NewestFirst | code/app.py:689-717 | when the newest k+1 of the last 200 lines parse, entry k is the parse of the (k+1)-th line from the end: the newest comes first |
| Config.IsUpperMeaning | code/config.py:115 | `isupper` holds exactly when some character is upper case and none is lower case |
| Config.GetConfigValue | code/config.py:106-124 | `None` gives the default; a string that names an environment variable (all capitals, or ending in `_ENV`) gives that variable's value, or the default when it is unset; any other value is used as it is |
| Config.LowerCaseIsLiteral | code/config.py:115-124 | a string with a lower-case letter that does not end in `_ENV` is used literally, whatever the environment holds |
| Config.CapitalsAreLookedUp | code/config.py:115-122 | an all-capitals name is read from the environment, falling back to the default |
| Config.UncasedIsLiteral | code/config.py:115-124 | a string with no cased letter is literal unless it ends in `_ENV` |
| Config.GetEmbeddingProvider | code/config.py:201-212 | the chosen provider is always a registered one; a registered non-empty name wins; none is chosen exactly when nothing was loaded or neither the name nor the preferred provider is registered |
| Config.PreferredByDefault | code/config.py:203-210 | with no name, an empty name or the preferred name, the preferred provider is chosen |
| Config.UnknownNameFallsBack | code/config.py:203-210 | an unregistered name chooses as no name does |
| Config.ResolvedIsAbsolute | code/config.py:89-104 | a relative path resolves to an absolute, normalized path, which resolves to itself |
| Config.ResolvePath | code/config.py:89-104 | an absolute path is kept; a relative one is made absolute under the base output directory when one is set and non-empty, else under the configuration directory |
| Config.BaseOutputWins | code/config.py:96-101 | with a base output directory set, the configuration directory plays no part |
| Config.ModesExclusive | code/config.py:214-224 | without a mode the system is in production, and at most one mode predicate holds |
| Config.ModeIgnoresCase | code/config.py:214-224 | any two mode strings that are equal once lower-cased select the same mode, for each of production, development and testing |
| PosixPath.NormpathIdempotent | code/config.py:100-104 | normalizing a normalized path changes nothing |
| PosixPath.Join | code/config.py:101 | an absolute second part replaces the first; otherwise the parts are joined with one slash, none when the first is empty or already ends in a slash |
| PosixPath.Normpath | code/config.py:101-104 | the normal form is never empty, and a non-empty path keeps whether it is absolute |
| PosixPath.Abspath | code/config.py:101-104 | the result is never empty, and absolute whenever the path or the working directory is |
| PosixPath.Basename | setup_submodule_path.py:19 | the base name is the longest suffix without a slash |
| PosixPath.Dirname | setup_submodule_path.py:20 | the directory name is a prefix of the path, empty exactly when the path has no slash, and it does not overlap the base name |
| PosixPath.AbspathNormal | code/config.py:100-104 | with an absolute base, `abspath` gives an absolute normalized path |
| SubmodulePath.SubmoduleDirShape | setup_submodule_path.py:24 | the submodule path is the project root followed by `nlweb-submodule/code/python` |
| SubmodulePath.ProjectRoot | setup_submodule_path.py:18-22 | the project root is a prefix of the file's directory |
| SubmodulePath.SubmoduleDir | setup_submodule_path.py:24 | the submodule directory starts with the project root and ends in `nlweb-submodule/code/python` |
| SubmodulePath.RootOfCodeDirectory | setup_submodule_path.py:19-22 | for a directory named `code`, the project root is its parent |
| SubmodulePath.RootElsewhere | setup_submodule_path.py:19-22 | any other directory is its own project root |
| SubmodulePath.Setup | setup_submodule_path.py:27-31 | the path is inserted at the front exactly when it exists and is not already listed, and the result says whether it was |
| SubmodulePath.SetupIdempotent | setup_submodule_path.py:12-31 | a second call changes nothing and reports no insertion |
| SubmodulePath.SetupNoDuplicates | setup_submodule_path.py:27-31 | setting up keeps a duplicate-free path list duplicate-free |

## Left out

- Network, HTML and XML parsing are not modelled. This covers the aiohttp and `requests` fetches, BeautifulSoup and ElementTree, and gzip. A page is an abstract record of its meta tags, each script tag is a decoded JSON value, and a sitemap is the text of its `<loc>` elements.
- Concurrency is not modelled: asyncio queues, workers, the monitor and database threads, and Flask's thread pool. The timed read of the shared URL queue in `get_next_url` is left out; only its site-queue branch is modelled.
- Persistence is not modelled. The files for keys, JSON, status, docs and logs are parameters (their contents) or results (what would be written), and file-system existence is a set parameter.
- Timestamps (`datetime.now()`) are an opaque `now` parameter. The md5 file name of a URL is a `filename` parameter.
- Rate limiting is not modelled: `can_crawl_domain`, the per-domain delay, the random 3-7 s backoff and the re-put onto the shared queue. A fetch is either performed or answered by the reply given.
- In `requeue_urls`, draining the asyncio queue (code/crawler.py:1119-1125) is not modelled; the drained tasks are the input. Handing each task to the event loop or to `pending_urls` (code/crawler.py:1142-1148) is not modelled either. The result is the order in which tasks are put back, and both branches put them back in that same order.
- `random.shuffle` in `requeue_urls` is an oracle `shuffle(round, hosts)`. The model assumes only that it returns a permutation of the hosts it is given, not which permutation.
- `save_schema_org`, `save_page`, `update_site_status`, embedding upload and the external database helpers (code/crawler.py:26-65, 204, 975) are not modelled. These are I/O or calls into code that is not part of this model.
- `_get_config_directory`, `_get_base_output_directory`, `load_embedding_config` and `load_retrieval_config` (YAML and dotenv loading, directory creation) are not modelled. Their results (the configuration directory, the base output directory, the provider table, the environment) are parameters.
- Frontier.UpdateJsonTypeCount: a non-string scalar `@type` (number, boolean, null) is treated as raising, because counters are keyed by strings. Python would count it under that non-string key.
- SchemaExtraction.ClaimKey: a truthy key that is not a string is treated as raising where it first meets string-only code. Python adds a numeric key to the in-memory set before `key + '\n'` fails.
- SchemaExtraction.Flatten: `dict.update` with a list of key/value pairs is treated as raising. Only a dictionary, an empty string or an empty list is accepted.
- EmbeddingText.PrepareTextForEmbedding: `str()` of a non-string value is a rendering function parameter, not Python's repr.
- Discovery.Netloc: `urlsplit` is modelled by its cleaning (leading control characters and spaces stripped, every tab, carriage return and line feed deleted), scheme detection and the first `/`, `?` or `#`. The `ValueError` it raises for unbalanced or malformed IPv6 brackets and for netlocs that change under NFKC normalisation is not modelled; such a URL gets a network location instead.
- Discovery.ParseSitemap: every `<loc>` is taken to have text. An empty `<loc/>` gives Python `None`. With a filter, `url_filter in None` raises, and the URLs gathered before it are returned (code/app.py:94-105). Without a filter, the `None` is kept and `sorted()` raises later when the URL file is written (code/app.py:126).
- UrlLists.ExtractUrlsFromSitemap: a `<loc>` element without text is a text parameter, not a `None` that is skipped.
- Text.Split: only `'\n'` splits lines. The other line boundaries of Python's file iteration (`'\r'`) are not modelled.
- Text.Lower: lower-casing is ASCII-only. Python's full Unicode case mapping is not modelled.
- Config.IsUpperMeaning: cased characters are ASCII letters only.
- Config.GetEmbeddingProvider: the preferred provider is a string; a missing or non-string `preferred_embedding_provider` is not modelled.
- Frontier.AddTypeList: a list element of `@type` that is a number, boolean or null ends the update with an exception. Python counts it under that non-string key (code/crawler.py:363-366); only a list or dictionary element raises there.
- SiteStatus.Tally: an `@type` value, or a list element of one, that is a number, boolean or null ends the count with an exception. Python counts it under that non-string key (code/app.py:155-158, 166-170 and the like); only a list or dictionary raises there.
- SiteStatus.KeyOrder: a JSON file holding a dictionary is iterated in the order its keys appear in the file, which the decoded value does not record. The model fixes one order, so when one key mentions `@type` and another mentions only `items` or `data`, which of them stops the loop first, and so whether one object is counted, is not determined by the file.
- SiteStatus.TogglePause: the status file's text is abstracted as missing, whitespace only, undecodable or a decoded value; an error reading or writing the file other than a decode error is not modelled. The JSON reply is the saved status's `paused` value, and the time of day is a parameter.
- SiteStatus.ErrorLog: the entry shown when reading the log file raises is not modelled, because the file is a parameter that is either absent or a list of lines.
