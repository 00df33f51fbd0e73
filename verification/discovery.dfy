/** Site discovery in the web UI (code/app.py): naming a site after its
    URL, validating an add-site request, reading `Sitemap:` lines out of
    robots.txt, filtering sitemap locations and walking sitemap indexes.
    HTTP requests, gzip and XML parsing are not modelled: a robots.txt
    reply and a parsed sitemap are inputs. */
module Discovery {
  import opened Wrappers
  import opened JsonValue
  import Text
  import UrlLists

  // ---------------------------------------------------------------- names

  predicate IsAsciiLetter(c: char) {
    'a' <= c <= 'z' || 'A' <= c <= 'Z'
  }

  predicate IsDigit(c: char) {
    '0' <= c <= '9'
  }

  /** The characters `urlsplit` accepts in a scheme. */
  predicate IsSchemeChar(c: char) {
    IsAsciiLetter(c) || IsDigit(c) || c == '+' || c == '-' || c == '.'
  }

  /** Whether `url` starts with a scheme `url[..i]` followed by `:`: the
      first `:` is not at the start, the scheme starts with a letter and
      every character of it is a scheme character. */
  predicate HasScheme(url: string, i: nat) {
    i == Text.IndexOf(url, ':') && 0 < i < |url| && IsAsciiLetter(url[0])
    && forall k :: 0 <= k < i ==> IsSchemeChar(url[k])
  }

  /** Position of the first `/`, `?` or `#` in `s`, or `|s|`. */
  function DelimiterAt(s: string): (i: nat)
    ensures i <= |s|
    ensures i < |s| ==> s[i] in "/?#"
    ensures forall k :: 0 <= k < i ==> s[k] !in "/?#"
    decreases |s|
  {
    if |s| == 0 || s[0] in "/?#" then 0 else 1 + DelimiterAt(s[1..])
  }

  /** The characters `urlsplit` strips from the front of a URL: the C0
      control characters and the space. */
  predicate IsControlOrSpace(c: char) {
    c as int <= 0x20
  }

  /** The characters `urlsplit` deletes wherever they occur in a URL: tab,
      carriage return and line feed. */
  predicate IsUnsafeUrlChar(c: char) {
    c == '\t' || c == '\r' || c == '\n'
  }

  /** `url.lstrip(_WHATWG_C0_CONTROL_OR_SPACE)`. */
  function TrimControls(url: string): (r: string)
    ensures |r| <= |url|
    decreases |url|
  {
    if |url| > 0 && IsControlOrSpace(url[0]) then TrimControls(url[1..]) else url
  }

  /** What `lstrip` leaves starts with neither a control character nor a
      space, and is what follows the characters it dropped. */
  lemma {:induction false} TrimmedStart(url: string)
    ensures var r := TrimControls(url);
      && r == url[|url| - |r|..]
      && (forall k :: 0 <= k < |url| - |r| ==> IsControlOrSpace(url[k]))
      && (|r| == 0 || !IsControlOrSpace(r[0]))
    decreases |url|
  {
    if |url| > 0 && IsControlOrSpace(url[0]) {
      TrimmedStart(url[1..]);
    }
  }

  /** `url.replace(b, "")` for each unsafe character `b`: the remaining
      characters, in their order. */
  function RemoveUnsafe(url: string): (r: string)
    ensures |r| <= |url|
    decreases |url|
  {
    if |url| == 0 then []
    else (if IsUnsafeUrlChar(url[0]) then [] else [url[0]]) + RemoveUnsafe(url[1..])
  }

  /** No unsafe character survives, and a URL without any is kept as it is. */
  lemma {:induction false} RemoveUnsafeSafe(url: string)
    ensures forall k :: 0 <= k < |RemoveUnsafe(url)| ==> !IsUnsafeUrlChar(RemoveUnsafe(url)[k])
    ensures (forall k :: 0 <= k < |url| ==> !IsUnsafeUrlChar(url[k])) ==> RemoveUnsafe(url) == url
    decreases |url|
  {
    if |url| > 0 {
      RemoveUnsafeSafe(url[1..]);
      if forall k :: 0 <= k < |url| ==> !IsUnsafeUrlChar(url[k]) {
        assert forall k :: 0 <= k < |url[1..]| ==> !IsUnsafeUrlChar(url[1..][k]) by {
          forall k | 0 <= k < |url[1..]| ensures !IsUnsafeUrlChar(url[1..][k]) {
            assert url[1..][k] == url[k + 1];
          }
        }
        assert url == [url[0]] + url[1..];
      }
    }
  }

  /** Removing unsafe characters distributes over concatenation. */
  lemma {:induction false} RemoveUnsafeAppend(a: string, b: string)
    ensures RemoveUnsafe(a + b) == RemoveUnsafe(a) + RemoveUnsafe(b)
    decreases |a|
  {
    if |a| == 0 {
      assert a + b == b;
    } else {
      assert (a + b)[1..] == a[1..] + b;
      RemoveUnsafeAppend(a[1..], b);
    }
  }

  /** The URL `urlsplit` goes on to split. */
  function Cleaned(url: string): (r: string)
    ensures |r| <= |url|
  {
    RemoveUnsafe(TrimControls(url))
  }

  /** `urlparse(url).netloc`: in the cleaned URL, after an optional scheme,
      the text between a leading `//` and the next `/`, `?` or `#`; empty
      without `//`. */
  function Netloc(url: string): (r: string)
    ensures forall k :: 0 <= k < |r| ==> r[k] !in "/?#"
  {
    SplitNetloc(Cleaned(url))
  }

  /** The network location of a cleaned URL. */
  function SplitNetloc(u: string): (r: string)
    ensures forall k :: 0 <= k < |r| ==> r[k] !in "/?#"
  {
    var i := Text.IndexOf(u, ':');
    var rest := if HasScheme(u, i) then u[i + 1..] else u;
    if Text.StartsWith(rest, "//") then rest[2..][..DelimiterAt(rest[2..])] else ""
  }

  /** The network location is taken out of the URL it splits. */
  lemma SplitNetlocInside(u: string)
    ensures forall k :: 0 <= k < |SplitNetloc(u)| ==> SplitNetloc(u)[k] in u
  {
    var i := Text.IndexOf(u, ':');
    var rest := if HasScheme(u, i) then u[i + 1..] else u;
    assert forall c :: c in rest ==> c in u;
  }

  /** No tab, carriage return or line feed is left in a network location. */
  lemma NetlocClean(url: string)
    ensures forall k :: 0 <= k < |Netloc(url)| ==> !IsUnsafeUrlChar(Netloc(url)[k])
  {
    var u := Cleaned(url);
    RemoveUnsafeSafe(TrimControls(url));
    SplitNetlocInside(u);
    assert forall c :: c in u ==> !IsUnsafeUrlChar(c);
  }

  /** A URL that is already clean is split as it is. */
  lemma {:induction false} CleanedOfClean(url: string)
    requires |url| == 0 || !IsControlOrSpace(url[0])
    requires forall k :: 0 <= k < |url| ==> !IsUnsafeUrlChar(url[k])
    ensures Cleaned(url) == url
  {
    assert TrimControls(url) == url;
    RemoveUnsafeSafe(url);
  }

  /** Cleaning is idempotent, so the network location of the cleaned URL
      is that of the URL. */
  lemma {:induction false} NetlocOfCleaned(url: string)
    ensures Cleaned(Cleaned(url)) == Cleaned(url)
    ensures Netloc(Cleaned(url)) == Netloc(url)
  {
    var t := TrimControls(url);
    TrimmedStart(url);
    RemoveUnsafeSafe(t);
    if |t| > 0 {
      assert t == [t[0]] + t[1..];
      RemoveUnsafeAppend([t[0]], t[1..]);
      assert !IsUnsafeUrlChar(t[0]);
      assert Cleaned(url)[0] == t[0];
    }
    CleanedOfClean(Cleaned(url));
  }

  /** A tab, carriage return or line feed anywhere in a URL is dropped
      before it is split: either `lstrip` takes it with the leading controls,
      or `replace` deletes it. */
  lemma {:induction false} CleanedIgnoresUnsafe(a: string, c: char, b: string)
    requires IsUnsafeUrlChar(c)
    ensures Cleaned(a + [c] + b) == Cleaned(a + b)
    decreases |a|
  {
    if |a| == 0 {
      assert a + [c] + b == [c] + b && a + b == b;
      assert ([c] + b)[1..] == b;
    } else if IsControlOrSpace(a[0]) {
      assert (a + [c] + b)[1..] == a[1..] + [c] + b;
      assert (a + b)[1..] == a[1..] + b;
      CleanedIgnoresUnsafe(a[1..], c, b);
    } else {
      assert a + [c] + b == a + ([c] + b);
      RemoveUnsafeAppend(a, [c] + b);
      RemoveUnsafeAppend([c], b);
      RemoveUnsafeAppend(a, b);
      assert RemoveUnsafe([c]) == [] by {
        assert [c][1..] == [];
      }
    }
  }

  /** Hence such a character never changes the network location. */
  lemma NetlocIgnoresUnsafe(a: string, c: char, b: string)
    requires IsUnsafeUrlChar(c)
    ensures Netloc(a + [c] + b) == Netloc(a + b)
  {
    CleanedIgnoresUnsafe(a, c, b);
  }

  /** `get_site_name`: the host part of the URL with every `.` made `_`. */
  function SiteName(url: string): (r: string)
    ensures |r| == |Netloc(url)|
    ensures '.' !in r
    ensures forall k :: 0 <= k < |r| ==> r[k] !in "/?#" && !IsUnsafeUrlChar(r[k])
  {
    var n := Netloc(url);
    NetlocClean(url);
    var r := Text.ReplaceChar(n, '.', '_');
    assert forall k :: 0 <= k < |r| ==> r[k] == n[k] || r[k] == '_';
    r
  }

  /** A tab, carriage return or line feed inside a URL does not change the
      site's name: `https://exa\tmple.com/` names `example_com`. */
  lemma SiteNameIgnoresUnsafe(a: string, c: char, b: string)
    requires IsUnsafeUrlChar(c)
    ensures SiteName(a + [c] + b) == SiteName(a + b)
  {
    NetlocIgnoresUnsafe(a, c, b);
  }

  /** The URL `restart_crawl` reconstructs from a site name when no
      original URL is on record. */
  function RestartUrl(siteName: string): string {
    "https://" + Text.ReplaceChar(siteName, '_', '.')
  }

  /** `status.get('original_url')`, or the reconstruction when that is
      missing or falsy. */
  function RestartTarget(originalUrl: Option<Json>, siteName: string): (r: Json)
    ensures originalUrl.Some? && Truthy(originalUrl.value) ==> r == originalUrl.value
    ensures !(originalUrl.Some? && Truthy(originalUrl.value)) ==> r == JStr(RestartUrl(siteName))
  {
    match originalUrl
    case Some(v) => if Truthy(v) then v else JStr(RestartUrl(siteName))
    case None => JStr(RestartUrl(siteName))
  }

  /** The host of `https://` followed by a host and a path, query or
      fragment is that host. */
  lemma {:induction false} NetlocOfHttpsPath(host: string, path: string)
    requires forall k :: 0 <= k < |host| ==> host[k] !in "/?#" && !IsUnsafeUrlChar(host[k])
    requires forall k :: 0 <= k < |path| ==> !IsUnsafeUrlChar(path[k])
    requires path == [] || path[0] in "/?#"
    ensures Netloc("https://" + host + path) == host
  {
    var tail := host + path;
    var url := "https://" + tail;
    assert "https://" + host + path == url;
    CleanedOfClean(url);
    HttpsSplit(tail);
    Text.IndexOfAfterClean("https", "://" + tail, ':');
    var i := Text.IndexOf(url, ':');
    assert i == 5;
    assert HasScheme(url, i);
    assert url[i + 1..][2..] == tail;
    DelimiterAfter(host, path);
  }

  /** `https://` is the scheme `https`, a colon and two slashes. */
  lemma HttpsSplit(tail: string)
    ensures "https://" + tail == "https" + ("://" + tail)
    ensures ("https://" + tail)[6..] == "//" + tail
    ensures ("https://" + tail)[8..] == tail
  {
    forall k | 0 <= k < 8 + |tail|
      ensures ("https://" + tail)[k] == ("https" + ("://" + tail))[k]
    {
    }
  }

  /** The first delimiter of `host + path` is where `path` starts. */
  lemma {:induction false} DelimiterAfter(host: string, path: string)
    requires forall k :: 0 <= k < |host| ==> host[k] !in "/?#"
    requires path == [] || path[0] in "/?#"
    ensures DelimiterAt(host + path) == |host|
    decreases |host|
  {
    if |host| == 0 {
      assert host + path == path;
    } else {
      assert (host + path)[1..] == host[1..] + path;
      DelimiterAfter(host[1..], path);
    }
  }

  /** The host of `https://` followed by a host is that host. */
  lemma {:induction false} NetlocOfHttps(host: string)
    requires forall k :: 0 <= k < |host| ==> host[k] !in "/?#" && !IsUnsafeUrlChar(host[k])
    ensures Netloc("https://" + host) == host
  {
    NetlocOfHttpsPath(host, "");
    assert "https://" + host + "" == "https://" + host;
  }

  lemma ReplaceBack(s: string, a: char, b: char)
    requires b !in s
    ensures Text.ReplaceChar(Text.ReplaceChar(s, a, b), b, a) == s
  {
  }

  /** Restarting a site whose host has no `_` goes back to that host over
      HTTPS. */
  lemma RestartRecoversHost(url: string)
    requires '_' !in Netloc(url)
    ensures RestartUrl(SiteName(url)) == "https://" + Netloc(url)
  {
    ReplaceBack(Netloc(url), '.', '_');
  }

  /** Whatever the host, the restarted URL names the same site. */
  lemma RestartKeepsSiteName(url: string)
    ensures SiteName(RestartUrl(SiteName(url))) == SiteName(url)
  {
    var name := SiteName(url);
    var host := Text.ReplaceChar(name, '_', '.');
    assert forall k :: 0 <= k < |host| ==> host[k] !in "/?#" && !IsUnsafeUrlChar(host[k]);
    NetlocOfHttps(host);
    ReplaceBack(name, '_', '.');
  }

  // ---------------------------------------------------------------- adding a site

  predicate IsNameChar(c: char) {
    IsAsciiLetter(c) || IsDigit(c) || c == '_'
  }

  /** `re.match(r'^[a-zA-Z0-9_]+$', name)` on a stripped name. */
  predicate ValidSiteName(name: string) {
    |name| > 0 && forall k :: 0 <= k < |name| ==> IsNameChar(name[k])
  }

  /** An add-site request as the handler reads it. */
  datatype Accepted = Accepted(url: string, filter: Option<string>, siteName: string)

  /** `data.get('filter', '').strip() or None`. */
  function UrlFilter(filter: string): (r: Option<string>)
    ensures r.None? <==> Text.Strip(filter) == ""
    ensures r.Some? ==> r.value == Text.Strip(filter)
  {
    var f := Text.Strip(filter);
    if f == "" then None else Some(f)
  }

  /** The checks at the top of `process`: the URL is required; a custom
      name, when one is given, must be letters, digits and underscores
      (both are answered with HTTP 400); without one the name comes from
      the URL. */
  function ProcessRequest(url: string, filter: string, customName: string): (r: Result<Accepted>)
    ensures r.Err? <==> Text.Strip(url) == "" || (Text.Strip(customName) != "" && !ValidSiteName(Text.Strip(customName)))
    ensures r.Ok? ==> r.value.url == Text.Strip(url) && r.value.filter == UrlFilter(filter)
    ensures r.Ok? && Text.Strip(customName) != "" ==> r.value.siteName == Text.Strip(customName)
    ensures r.Ok? && Text.Strip(customName) == "" ==> r.value.siteName == SiteName(Text.Strip(url))
  {
    var u := Text.Strip(url);
    var n := Text.Strip(customName);
    if u == "" then Err("URL is required")
    else if n != "" then
      if ValidSiteName(n) then Ok(Accepted(u, UrlFilter(filter), n))
      else Err("Site name can only contain letters, numbers, and underscores")
    else Ok(Accepted(u, UrlFilter(filter), SiteName(u)))
  }

  /** Every name a request ends up with is a valid custom name or was
      derived from the URL; a valid name is taken exactly as given. */
  lemma AcceptedNames(url: string, filter: string, name: string)
    requires Text.Strip(url) != "" && ValidSiteName(name)
    requires !Text.IsSpace(name[0]) && !Text.IsSpace(name[|name| - 1])
    ensures ProcessRequest(url, filter, name) == Ok(Accepted(Text.Strip(url), UrlFilter(filter), name))
  {
    Text.StripClean(name);
  }

  // ---------------------------------------------------------------- robots.txt

  /** One robots.txt line: a `Sitemap:` line (matched after strip() and
      lower()) gives the stripped text after its first `:`. */
  function SitemapLine(line: string): (r: Option<string>)
    ensures r.Some? <==> Text.StartsWith(Text.Lower(Text.Strip(line)), "sitemap:")
    ensures r.Some? ==> ':' in line
    ensures r.Some? ==> forall head, tail :: SplitAtFirstColon(line, head, tail) ==> r.value == Text.Strip(tail)
  {
    if Text.StartsWith(Text.Lower(Text.Strip(line)), "sitemap:") then
      SitemapLineValue(line);
      Some(Text.Strip(line[Text.IndexOf(line, ':') + 1..]))
    else None
  }

  lemma {:induction false} SitemapLineValue(line: string)
    requires Text.StartsWith(Text.Lower(Text.Strip(line)), "sitemap:")
    ensures Text.IndexOf(line, ':') < |line|
    ensures forall head, tail :: SplitAtFirstColon(line, head, tail) ==>
      Text.Strip(line[Text.IndexOf(line, ':') + 1..]) == Text.Strip(tail)
  {
    var t, n := Text.Strip(line), Text.LeadingSpace(line);
    assert n + |t| <= |line| && t == line[n..n + |t|];
    ColonInInfix(line, t, n);
    forall head, tail | SplitAtFirstColon(line, head, tail)
      ensures line[Text.IndexOf(line, ':') + 1..] == tail
    {
      FirstColonUnique(line, head, tail);
    }
  }

  /** A line splits at its first colon in one way only. */
  lemma FirstColonUnique(line: string, head: string, tail: string)
    requires SplitAtFirstColon(line, head, tail)
    ensures |head| == Text.IndexOf(line, ':')
    ensures tail == line[|head| + 1..]
  {
    assert line == head + (":" + tail);
    Text.IndexOfAfterClean(head, ":" + tail, ':');
  }

  /** `line` is `head:tail` with no colon in `head`. */
  predicate SplitAtFirstColon(line: string, head: string, tail: string) {
    line == head + ":" + tail && ':' !in head
  }

  lemma ColonInInfix(line: string, t: string, i: nat)
    requires Text.StartsWith(Text.Lower(t), "sitemap:")
    requires i + |t| <= |line| && t == line[i..i + |t|]
    ensures Text.IndexOf(line, ':') < |line|
  {
    assert Text.LowerChar(t[7]) == ':';
    assert line[i + 7] == t[7];
    assert line[..|line|] == line;
  }

  /** The values `f` finds in `lines`, in order. */
  function Found(f: string -> Option<string>, lines: seq<string>): (r: seq<string>)
    ensures |r| <= |lines|
    ensures forall u :: u in r <==> exists l :: l in lines && f(l) == Some(u)
  {
    if |lines| == 0 then []
    else
      assert forall l :: l in lines <==> l == lines[0] || l in lines[1..];
      (match f(lines[0]) case Some(u) => [u] case None => []) + Found(f, lines[1..])
  }

  /** The sitemaps a robots.txt lists, in file order. */
  function SitemapsOf(lines: seq<string>): (r: seq<string>)
    ensures |r| <= |lines|
    ensures forall u :: u in r <==> exists l :: l in lines && SitemapLine(l) == Some(u)
  {
    Found(SitemapLine, lines)
  }

  /** A robots.txt request: answered with a status and body, or failed. */
  datatype RobotsReply = RobotsBody(status: nat, text: string) | RobotsFailed

  /** `get_robots_txt`: the sitemaps listed in a robots.txt answered with
      200, in file order; nothing otherwise. */
  function GetRobotsTxt(reply: RobotsReply): (r: seq<string>)
    ensures !(reply.RobotsBody? && reply.status == 200) ==> r == []
    ensures reply.RobotsBody? && reply.status == 200 ==>
      forall u :: u in r <==> exists l :: l in Text.Split(reply.text, '\n') && SitemapLine(l) == Some(u)
  {
    match reply
    case RobotsBody(status, text) => if status == 200 then SitemapsOf(Text.Split(text, '\n')) else []
    case RobotsFailed => []
  }

  /** A URL that can stand on a robots.txt line: no surrounding whitespace
      and no newline. */
  predicate CleanUrl(u: string) {
    '\n' !in u && (|u| == 0 || (!Text.IsSpace(u[0]) && !Text.IsSpace(u[|u| - 1])))
  }

  function SitemapLines(urls: seq<string>): (r: seq<string>)
    ensures |r| == |urls|
    ensures forall k :: 0 <= k < |urls| ==> r[k] == "Sitemap: " + urls[k]
  {
    seq(|urls|, k requires 0 <= k < |urls| => "Sitemap: " + urls[k])
  }

  /** A robots.txt made of `Sitemap: <url>` lines yields exactly its URLs,
      in order. */
  lemma RobotsRoundTrip(urls: seq<string>)
    requires forall k :: 0 <= k < |urls| ==> CleanUrl(urls[k])
    ensures GetRobotsTxt(RobotsBody(200, Text.Join(SitemapLines(urls), "\n"))) == urls
  {
    var lines := SitemapLines(urls);
    if |urls| == 0 {
      assert Text.Split("", '\n') == [""] by {
        assert Text.IndexOf("", '\n') == 0;
      }
      assert SitemapLine("") == None by {
        assert Text.Strip("") == "";
      }
    } else {
      forall k | 0 <= k < |lines| ensures '\n' !in lines[k] {
        assert lines[k] == "Sitemap: " + urls[k];
      }
      Text.SplitJoin(lines, '\n');
      SitemapsOfLines(urls);
    }
  }

  lemma {:induction false} SitemapsOfLines(urls: seq<string>)
    requires forall k :: 0 <= k < |urls| ==> CleanUrl(urls[k])
    ensures SitemapsOf(SitemapLines(urls)) == urls
    decreases |urls|
  {
    if |urls| > 0 {
      var lines := SitemapLines(urls);
      SitemapLineOf(urls[0]);
      SitemapLinesTail(urls);
      assert forall k :: 0 <= k < |urls[1..]| ==> CleanUrl(urls[1..][k]) by {
        forall k | 0 <= k < |urls[1..]| ensures CleanUrl(urls[1..][k]) {
          assert urls[1..][k] == urls[k + 1];
        }
      }
      SitemapsOfLines(urls[1..]);
      FoundCons(SitemapLine, lines, urls);
    }
  }

  lemma SitemapLinesTail(urls: seq<string>)
    requires |urls| > 0
    ensures SitemapLines(urls)[0] == "Sitemap: " + urls[0]
    ensures SitemapLines(urls)[1..] == SitemapLines(urls[1..])
  {
  }

  lemma FoundCons(f: string -> Option<string>, lines: seq<string>, urls: seq<string>)
    requires |lines| > 0 && |urls| > 0 && f(lines[0]) == Some(urls[0])
    requires Found(f, lines[1..]) == urls[1..]
    ensures Found(f, lines) == urls
  {
    assert urls == [urls[0]] + urls[1..];
  }

  lemma {:induction false} SitemapLineOf(u: string)
    requires CleanUrl(u)
    ensures SitemapLine("Sitemap: " + u) == Some(u)
  {
    var line := "Sitemap: " + u;
    SitemapLineMatches(u);
    SitemapColonAt(u);
    assert SitemapLine(line) == Some(Text.Strip(line[8..]));
    SitemapTail(u);
    StripAfterSpace(u);
  }

  lemma {:induction false} SitemapTail(u: string)
    ensures ("Sitemap: " + u)[8..] == " " + u
  {
    var line := "Sitemap: " + u;
    assert forall k :: 0 <= k < |line| - 8 ==> line[8..][k] == (" " + u)[k];
  }

  lemma {:induction false} SitemapLineMatches(u: string)
    requires CleanUrl(u)
    ensures Text.StartsWith(Text.Lower(Text.Strip("Sitemap: " + u)), "sitemap:")
  {
    StripSitemapLine(u);
    LowerSitemap(Text.Strip("Sitemap: " + u));
  }

  lemma {:induction false} SitemapColonAt(u: string)
    ensures Text.IndexOf("Sitemap: " + u, ':') == 7
  {
    assert "Sitemap: " + u == "Sitemap" + (": " + u);
    Text.IndexOfAfterClean("Sitemap", ": " + u, ':');
  }

  lemma LowerSitemap(t: string)
    requires |t| >= 8 && t[..8] == "Sitemap:"
    ensures Text.StartsWith(Text.Lower(t), "sitemap:")
  {
    assert Text.Lower(t)[..8] == Text.Lower("Sitemap:");
  }

  /** The stripped line still starts with `Sitemap:`. */
  lemma StripSitemapLine(u: string)
    requires CleanUrl(u)
    ensures |Text.Strip("Sitemap: " + u)| >= 8 && Text.Strip("Sitemap: " + u)[..8] == "Sitemap:"
  {
    var line := "Sitemap: " + u;
    TrimStartNonSpace(line);
    if |u| == 0 {
      assert line == "Sitemap:" + " ";
      assert !Text.IsSpace("Sitemap:"[7]);
      TrimEndOneSpace("Sitemap:");
    } else {
      assert line[|line| - 1] == u[|u| - 1];
      TrimEndNonSpace(line);
    }
  }

  lemma TrimStartNonSpace(s: string)
    requires |s| > 0 && !Text.IsSpace(s[0])
    ensures Text.TrimStart(s) == s
  {
  }

  lemma TrimEndNonSpace(s: string)
    requires |s| > 0 && !Text.IsSpace(s[|s| - 1])
    ensures Text.TrimEnd(s) == s
  {
  }

  lemma TrimEndOneSpace(s: string)
    requires |s| > 0 && !Text.IsSpace(s[|s| - 1])
    ensures Text.TrimEnd(s + " ") == s
  {
    assert (s + " ")[..|s|] == s;
  }

  /** `" " + u` strips to `u` when `u` has no surrounding whitespace. */
  lemma StripAfterSpace(u: string)
    requires CleanUrl(u)
    ensures Text.Strip(" " + u) == u
  {
    assert (" " + u)[1..] == u;
    assert Text.TrimStart(" " + u) == Text.TrimStart(u);
    Text.StripClean(u);
  }

  // ---------------------------------------------------------------- sitemaps

  /** The location filter of `parse_sitemap`: a `<loc>` is kept when there
      is no filter or the filter occurs in it. */
  predicate Keeps(filter: Option<string>, loc: string) {
    filter.None? || Text.Contains(loc, filter.value)
  }

  function FilterLocs(filter: Option<string>, locs: seq<string>): (r: seq<string>)
    ensures |r| <= |locs|
    ensures forall u :: u in r <==> u in locs && Keeps(filter, u)
    ensures filter.None? ==> r == locs
    ensures forall u :: multiset(r)[u] == if Keeps(filter, u) then multiset(locs)[u] else 0
  {
    if |locs| == 0 then []
    else
      assert forall u :: u in locs <==> u == locs[0] || u in locs[1..];
      assert multiset(locs) == multiset{locs[0]} + multiset(locs[1..]) by { assert locs == [locs[0]] + locs[1..]; }
      if Keeps(filter, locs[0]) then [locs[0]] + FilterLocs(filter, locs[1..])
      else FilterLocs(filter, locs[1..])
  }

  /** A filter keeps an order-preserving selection: filtering twice with
      the same filter is filtering once. */
  lemma {:induction false} FilterLocsIdempotent(filter: Option<string>, locs: seq<string>)
    ensures FilterLocs(filter, FilterLocs(filter, locs)) == FilterLocs(filter, locs)
    decreases |locs|
  {
    if |locs| > 0 {
      FilterLocsIdempotent(filter, locs[1..]);
      if Keeps(filter, locs[0]) {
        assert ([locs[0]] + FilterLocs(filter, locs[1..]))[1..] == FilterLocs(filter, locs[1..]);
      }
    }
  }

  /** A parsed sitemap: a sitemap index lists further sitemaps, a regular
      sitemap lists page locations; one that could not be fetched or parsed
      contributes nothing. */
  datatype Sitemap = SitemapIndex(children: seq<string>) | UrlSet(locs: seq<string>) | Unreadable

  /** `parse_sitemap(url, filter)`: the page URLs it contributes and the
      sitemaps it points to. */
  function ParseSitemap(doc: Sitemap, filter: Option<string>): (r: (seq<string>, seq<string>))
    ensures doc.SitemapIndex? ==> r == ([], doc.children)
    ensures doc.UrlSet? ==> r.1 == [] && forall u :: u in r.0 <==> u in doc.locs && Keeps(filter, u)
    ensures doc.UrlSet? ==> r.0 == FilterLocs(filter, doc.locs)
    ensures doc.Unreadable? ==> r == ([], [])
  {
    match doc
    case SitemapIndex(children) => ([], children)
    case UrlSet(locs) => (FilterLocs(filter, locs), [])
    case Unreadable => ([], [])
  }

  /** The sitemaps `process_site_background` starts from: the input itself
      when it looks like a sitemap, else the ones robots.txt lists, else
      the site's `/sitemap.xml` (`defaultSitemap`). */
  function StartSitemaps(inputUrl: string, robots: seq<string>, defaultSitemap: string): (r: seq<string>)
    ensures |r| >= 1
    ensures Text.Contains(Text.Lower(inputUrl), "sitemap") || Text.EndsWith(inputUrl, ".xml") ==> r == [inputUrl]
    ensures !(Text.Contains(Text.Lower(inputUrl), "sitemap") || Text.EndsWith(inputUrl, ".xml")) ==>
      r == (if robots != [] then robots else [defaultSitemap])
  {
    if Text.Contains(Text.Lower(inputUrl), "sitemap") || Text.EndsWith(inputUrl, ".xml") then [inputUrl]
    else if robots != [] then robots
    else [defaultSitemap]
  }

  /** The sitemaps reachable on the web: every one the worklist can meet
      has a document, and the children of every document are themselves
      known. */
  ghost predicate Closed(web: map<string, Sitemap>) {
    forall u :: u in web && web[u].SitemapIndex? ==> forall c :: c in web[u].children ==> c in web
  }

  predicate DistinctUrls(xs: seq<string>) {
    forall i, j :: 0 <= i < j < |xs| ==> xs[i] != xs[j]
  }

  function ChildrenOf(web: map<string, Sitemap>, u: string): seq<string>
    requires u in web
  {
    if web[u].SitemapIndex? then web[u].children else []
  }

  /** Each sitemap after the starting ones was listed by one processed
      before it. */
  ghost predicate Discovered(web: map<string, Sitemap>, start: seq<string>, order: seq<string>) {
    forall k :: 0 <= k < |order| ==>
      order[k] in start || exists j :: 0 <= j < k && order[j] in web && order[k] in ChildrenOf(web, order[j])
  }

  /** A sitemap that is a starting one or was listed by a processed one
      can be processed next. */
  lemma DiscoveredSnoc(web: map<string, Sitemap>, start: seq<string>, order: seq<string>, u: string)
    requires Discovered(web, start, order)
    requires u in start || exists j :: 0 <= j < |order| && order[j] in web && u in ChildrenOf(web, order[j])
    ensures Discovered(web, start, order + [u])
  {
    var o := order + [u];
    forall k | 0 <= k < |o|
      ensures o[k] in start || exists j :: 0 <= j < k && o[j] in web && o[k] in ChildrenOf(web, o[j])
    {
      if k < |order| {
        assert o[k] == order[k];
        if order[k] !in start {
          var j :| 0 <= j < k && order[j] in web && order[k] in ChildrenOf(web, order[j]);
          assert o[j] == order[j];
        }
      } else if u !in start {
        var j :| 0 <= j < |order| && order[j] in web && u in ChildrenOf(web, order[j]);
        assert o[j] == order[j];
      }
    }
  }

  /** The page URLs of the processed sitemaps, in processing order. */
  function UrlsOf(web: map<string, Sitemap>, filter: Option<string>, order: seq<string>): seq<string>
    requires forall k :: 0 <= k < |order| ==> order[k] in web
  {
    if |order| == 0 then []
    else UrlsOf(web, filter, order[..|order| - 1]) + ParseSitemap(web[order[|order| - 1]], filter).0
  }

  /** What holds between two rounds of the worklist: everything queued or
      processed is known, `processed` is the set of `order`, which has no
      repeats, every starting sitemap and every child of a processed
      sitemap is processed or still queued, everything queued was a
      starting sitemap or listed by a processed one, and the URLs are
      those of the processed sitemaps. */
  ghost predicate Worklist(web: map<string, Sitemap>, start: seq<string>, filter: Option<string>,
                           queue: seq<string>, processed: set<string>, order: seq<string>, urls: seq<string>)
  {
    && (forall u :: u in queue ==> u in web)
    && (forall u :: u in processed <==> u in order)
    && (forall u :: u in order ==> u in web)
    && DistinctUrls(order)
    && (forall u :: u in start ==> u in order || u in queue)
    && (forall u :: u in order ==> forall c :: c in ChildrenOf(web, u) ==> c in order || c in queue)
    && (forall u :: u in queue ==> u in start || exists j :: 0 <= j < |order| && order[j] in web && u in ChildrenOf(web, order[j]))
    && Discovered(web, start, order)
    && urls == UrlsOf(web, filter, order)
  }

  /** Taking an already processed sitemap off the queue changes nothing else. */
  lemma SkipStep(web: map<string, Sitemap>, start: seq<string>, filter: Option<string>,
                 queue: seq<string>, processed: set<string>, order: seq<string>, urls: seq<string>)
    requires Worklist(web, start, filter, queue, processed, order, urls)
    requires |queue| > 0 && queue[0] in processed
    ensures Worklist(web, start, filter, queue[1..], processed, order, urls)
  {
    forall u | u in queue ensures u == queue[0] || u in queue[1..] {
      var k :| 0 <= k < |queue| && queue[k] == u;
      if k > 0 { assert queue[1..][k - 1] == u; }
    }
  }

  /** Processing a new sitemap records it, adds its URLs and queues its
      children. */
  lemma ProcessStep(web: map<string, Sitemap>, start: seq<string>, filter: Option<string>,
                    queue: seq<string>, processed: set<string>, order: seq<string>, urls: seq<string>)
    requires Closed(web)
    requires Worklist(web, start, filter, queue, processed, order, urls)
    requires |queue| > 0 && queue[0] !in processed
    ensures var u := queue[0];
      Worklist(web, start, filter, queue[1..] + ChildrenOf(web, u), processed + {u}, order + [u],
               urls + ParseSitemap(web[u], filter).0)
  {
    var u := queue[0];
    var q := queue[1..] + ChildrenOf(web, u);
    var o := order + [u];
    QueueAfterStep(web, queue);
    DiscoveredSnoc(web, start, order, u);
    assert o[..|o| - 1] == order;
    assert DistinctUrls(o);
    ListedAfterStep(web, start, queue, order);
  }

  /** After the front sitemap is taken and its children appended, what was
      queued is the front sitemap or still queued, and everything queued is
      known. */
  lemma QueueAfterStep(web: map<string, Sitemap>, queue: seq<string>)
    requires Closed(web)
    requires |queue| > 0 && forall v :: v in queue ==> v in web
    ensures forall v :: v in queue ==> v == queue[0] || v in queue[1..] + ChildrenOf(web, queue[0])
    ensures forall v :: v in queue[1..] + ChildrenOf(web, queue[0]) ==> v in web
  {
    forall v | v in queue ensures v == queue[0] || v in queue[1..] {
      var k :| 0 <= k < |queue| && queue[k] == v;
      if k > 0 { assert queue[1..][k - 1] == v; }
    }
  }

  /** Everything queued after the step was a starting sitemap or listed by
      a processed one. */
  lemma ListedAfterStep(web: map<string, Sitemap>, start: seq<string>, queue: seq<string>, order: seq<string>)
    requires |queue| > 0 && queue[0] in web
    requires forall v :: v in queue ==> v in start || exists j :: 0 <= j < |order| && order[j] in web && v in ChildrenOf(web, order[j])
    ensures var o := order + [queue[0]];
      forall v :: v in queue[1..] + ChildrenOf(web, queue[0]) ==>
        v in start || exists j :: 0 <= j < |o| && o[j] in web && v in ChildrenOf(web, o[j])
  {
    var u := queue[0];
    var o := order + [u];
    forall v | v in queue[1..] + ChildrenOf(web, u)
      ensures v in start || exists j :: 0 <= j < |o| && o[j] in web && v in ChildrenOf(web, o[j])
    {
      if v in ChildrenOf(web, u) {
        assert o[|order|] == u;
      } else {
        assert v in queue;
        if v !in start {
          var j :| 0 <= j < |order| && order[j] in web && v in ChildrenOf(web, order[j]);
          assert o[j] == order[j];
        }
      }
    }
  }

  /** The sitemaps the processed ones list, one listing after another in
      processing order: what the worklist appends to its back. */
  function Listed(web: map<string, Sitemap>, order: seq<string>): seq<string>
    requires forall k :: 0 <= k < |order| ==> order[k] in web
  {
    if |order| == 0 then []
    else Listed(web, order[..|order| - 1]) + ChildrenOf(web, order[|order| - 1])
  }

  /** Deduplicating a longer list keeps the deduplicated prefix in front. */
  lemma {:induction false} UniqueKeepsPrefix(a: seq<string>, b: seq<string>)
    ensures |UrlLists.Unique(a)| <= |UrlLists.Unique(a + b)|
    ensures UrlLists.Unique(a + b)[..|UrlLists.Unique(a)|] == UrlLists.Unique(a)
    decreases |b|
  {
    if |b| == 0 {
      assert a + b == a;
    } else {
      var c := b[..|b| - 1];
      assert (a + b)[..|a + b| - 1] == a + c;
      UniqueKeepsPrefix(a, c);
    }
  }

  /** The worklist is first in, first out: `seen`, the sitemaps taken so
      far, followed by the queue, is the starting sitemaps followed by every
      listing of a processed sitemap, and the processed sitemaps are the
      first occurrences in `seen`. */
  ghost predicate Fifo(web: map<string, Sitemap>, start: seq<string>, seen: seq<string>,
                       queue: seq<string>, order: seq<string>)
  {
    && (forall k :: 0 <= k < |order| ==> order[k] in web)
    && seen + queue == start + Listed(web, order)
    && order == UrlLists.Unique(seen)
  }

  /** Taking an already processed sitemap off the front keeps the worklist
      first in, first out. */
  lemma {:induction false} FifoSkip(web: map<string, Sitemap>, start: seq<string>, seen: seq<string>,
                                    queue: seq<string>, order: seq<string>)
    requires Fifo(web, start, seen, queue, order)
    requires |queue| > 0 && queue[0] in order
    ensures Fifo(web, start, seen + [queue[0]], queue[1..], order)
  {
    TakeNext(seen, queue[0]);
    assert seen + queue == (seen + [queue[0]]) + queue[1..];
  }

  /** Processing a new sitemap from the front and appending its children
      keeps the worklist first in, first out. */
  lemma {:induction false} FifoProcess(web: map<string, Sitemap>, start: seq<string>, seen: seq<string>,
                                       queue: seq<string>, order: seq<string>)
    requires Fifo(web, start, seen, queue, order)
    requires |queue| > 0 && queue[0] in web && queue[0] !in order
    ensures Fifo(web, start, seen + [queue[0]], queue[1..] + ChildrenOf(web, queue[0]), order + [queue[0]])
  {
    var u, ch := queue[0], ChildrenOf(web, queue[0]);
    assert order + [u] == UrlLists.Unique(seen + [u]) by { TakeNext(seen, u); }
    assert Listed(web, order + [u]) == Listed(web, order) + ch by { ListedSnoc(web, order, u); }
    assert (seen + [u]) + (queue[1..] + ch) == (seen + queue) + ch by {
      assert queue == [u] + queue[1..];
    }
    assert (start + Listed(web, order)) + ch == start + (Listed(web, order) + ch);
  }

  /** When the queue is empty the processing order is the deduplicated
      listing, starting with the deduplicated starting sitemaps. */
  lemma {:induction false} FifoDone(web: map<string, Sitemap>, start: seq<string>, seen: seq<string>,
                                    order: seq<string>)
    requires Fifo(web, start, seen, [], order)
    ensures order == UrlLists.Unique(start + Listed(web, order))
    ensures |UrlLists.Unique(start)| <= |order| && order[..|UrlLists.Unique(start)|] == UrlLists.Unique(start)
  {
    assert seen == seen + [];
    UniqueKeepsPrefix(start, Listed(web, order));
  }

  lemma {:induction false} ListedSnoc(web: map<string, Sitemap>, order: seq<string>, u: string)
    requires forall k :: 0 <= k < |order| ==> order[k] in web
    requires u in web
    ensures forall k :: 0 <= k < |order + [u]| ==> (order + [u])[k] in web
    ensures Listed(web, order + [u]) == Listed(web, order) + ChildrenOf(web, u)
  {
    assert (order + [u])[..|order|] == order;
  }

  /** Taking `u` off the queue extends the deduplicated sequence of
      everything taken so far by `u` exactly when `u` is new. */
  lemma {:induction false} TakeNext(seen: seq<string>, u: string)
    ensures u in UrlLists.Unique(seen) ==> UrlLists.Unique(seen + [u]) == UrlLists.Unique(seen)
    ensures u !in UrlLists.Unique(seen) ==> UrlLists.Unique(seen + [u]) == UrlLists.Unique(seen) + [u]
  {
    assert (seen + [u])[..|seen|] == seen;
  }

  /** The worklist of `process_site_background`: sitemaps are taken from
      the front, each is processed at most once, and the sitemaps an index
      lists are appended to the back. Returns the sitemaps in the order
      they were processed and every page URL they contributed. */
  method ProcessSitemaps(web: map<string, Sitemap>, start: seq<string>, filter: Option<string>)
    returns (order: seq<string>, urls: seq<string>)
    requires Closed(web)
    requires forall u :: u in start ==> u in web
    ensures DistinctUrls(order)
    ensures forall u :: u in start ==> u in order
    ensures forall u :: u in order ==> u in web && forall c :: c in ChildrenOf(web, u) ==> c in order
    ensures Discovered(web, start, order)
    ensures urls == UrlsOf(web, filter, order)
    ensures forall k :: 0 <= k < |order| ==> order[k] in web
    ensures order == UrlLists.Unique(start + Listed(web, order))
    ensures |UrlLists.Unique(start)| <= |order| && order[..|UrlLists.Unique(start)|] == UrlLists.Unique(start)
  {
    var queue := start;
    var processed: set<string> := {};
    order := [];
    urls := [];
    ghost var seen: seq<string> := [];
    while queue != []
      invariant Worklist(web, start, filter, queue, processed, order, urls)
      invariant processed <= web.Keys
      invariant Fifo(web, start, seen, queue, order)
      decreases web.Keys - processed, |queue|
    {
      var u := queue[0];
      if u in processed {
        SkipStep(web, start, filter, queue, processed, order, urls);
        FifoSkip(web, start, seen, queue, order);
        queue := queue[1..];
      } else {
        ProcessStep(web, start, filter, queue, processed, order, urls);
        FifoProcess(web, start, seen, queue, order);
        queue := queue[1..] + ChildrenOf(web, u);
        processed := processed + {u};
        order := order + [u];
        urls := urls + ParseSitemap(web[u], filter).0;
      }
      seen := seen + [u];
    }
    FifoDone(web, start, seen, order);
  }
}
