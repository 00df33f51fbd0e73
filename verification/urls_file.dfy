/** `update_urls_file` (code/app.py): a site's URL list is a text file
    with one URL per line, rewritten as the sorted union of what it held
    and the URLs just found. The file's text is a parameter and the new
    text a result; reading and writing it are not modelled. */
module UrlsFile {
  import Text

  /** Python's `a < b` on strings: code point by code point, a proper
      prefix first. */
  predicate Below(a: string, b: string)
    decreases |a|
  {
    |b| > 0 && (|a| == 0 || a[0] < b[0] || (a[0] == b[0] && Below(a[1..], b[1..])))
  }

  lemma {:induction false} BelowIrreflexive(a: string)
    ensures !Below(a, a)
    decreases |a|
  {
    if |a| > 0 {
      BelowIrreflexive(a[1..]);
    }
  }

  lemma {:induction false} BelowTransitive(a: string, b: string, c: string)
    requires Below(a, b) && Below(b, c)
    ensures Below(a, c)
    decreases |a|
  {
    if |a| > 0 && a[0] == b[0] && b[0] == c[0] {
      BelowTransitive(a[1..], b[1..], c[1..]);
    }
  }

  lemma {:induction false} BelowTotal(a: string, b: string)
    ensures a == b || Below(a, b) || Below(b, a)
    decreases |a|
  {
    if |a| > 0 && |b| > 0 && a[0] == b[0] {
      BelowTotal(a[1..], b[1..]);
      if a[1..] == b[1..] {
        assert a == [a[0]] + a[1..] && b == [b[0]] + b[1..];
      }
    }
  }

  predicate Increasing(xs: seq<string>) {
    forall i, j :: 0 <= i < j < |xs| ==> Below(xs[i], xs[j])
  }

  /** Inserts `x` into a sorted list unless it is already there. */
  function Insert(x: string, xs: seq<string>): (r: seq<string>)
    ensures forall y :: y in r <==> y == x || y in xs
  {
    if |xs| == 0 then [x]
    else if x == xs[0] then xs
    else if Below(x, xs[0]) then [x] + xs
    else [xs[0]] + Insert(x, xs[1..])
  }

  lemma {:induction false} InsertIncreasing(x: string, xs: seq<string>)
    requires Increasing(xs)
    ensures Increasing(Insert(x, xs))
    decreases |xs|
  {
    if |xs| > 0 && x != xs[0] {
      if Below(x, xs[0]) {
        forall j | 0 < j < |xs| ensures Below(x, xs[j]) {
          BelowTransitive(x, xs[0], xs[j]);
        }
      } else {
        BelowTotal(x, xs[0]);
        InsertIncreasing(x, xs[1..]);
        var r := Insert(x, xs[1..]);
        forall j | 0 <= j < |r| ensures Below(xs[0], r[j]) {
          assert r[j] in r;
          if r[j] != x {
            var k :| 0 <= k < |xs[1..]| && xs[1..][k] == r[j];
            assert xs[k + 1] == r[j];
          }
        }
      }
    }
  }

  /** `sorted(set(xs))`. */
  function SortedSet(xs: seq<string>): (r: seq<string>)
    ensures forall y :: y in r <==> y in xs
  {
    if |xs| == 0 then []
    else
      assert forall y :: y in xs <==> y in xs[..|xs| - 1] || y == xs[|xs| - 1];
      Insert(xs[|xs| - 1], SortedSet(xs[..|xs| - 1]))
  }

  lemma {:induction false} SortedSetIncreasing(xs: seq<string>)
    ensures Increasing(SortedSet(xs))
    decreases |xs|
  {
    if |xs| > 0 {
      SortedSetIncreasing(xs[..|xs| - 1]);
      InsertIncreasing(xs[|xs| - 1], SortedSet(xs[..|xs| - 1]));
    }
  }

  /** A sorted list without repeats is determined by its elements. */
  lemma {:induction false} IncreasingUnique(a: seq<string>, b: seq<string>)
    requires Increasing(a) && Increasing(b)
    requires forall y :: y in a <==> y in b
    ensures a == b
    decreases |a|
  {
    IncreasingCount(a);
    IncreasingCount(b);
    assert SetOf(a) == SetOf(b);
    if |a| > 0 {
      assert a[0] in b;
      if a[0] != b[0] {
        assert a[0] in b;
        assert b[0] in a;
        var i :| 0 <= i < |b| && b[i] == a[0];
        var j :| 0 <= j < |a| && a[j] == b[0];
        assert Below(b[0], a[0]) by { assert i > 0; }
        assert Below(a[0], b[0]) by { assert j > 0; }
        BelowTransitive(a[0], b[0], a[0]);
        BelowIrreflexive(a[0]);
      }
      forall y ensures y in a[1..] <==> y in b[1..] {
        if y in a[1..] {
          var k :| 0 <= k < |a[1..]| && a[1..][k] == y;
          assert Below(a[0], y);
          if y == a[0] { BelowIrreflexive(y); }
          assert y in b;
        }
        if y in b[1..] {
          var k :| 0 <= k < |b[1..]| && b[1..][k] == y;
          assert Below(b[0], y);
          if y == b[0] { BelowIrreflexive(y); }
          assert y in a;
        }
      }
      IncreasingUnique(a[1..], b[1..]);
      assert a == [a[0]] + a[1..] && b == [b[0]] + b[1..];
    }
  }

  function SetOf(xs: seq<string>): set<string> {
    set y | y in xs
  }

  lemma {:induction false} IncreasingCount(xs: seq<string>)
    requires Increasing(xs)
    ensures |SetOf(xs)| == |xs|
    decreases |xs|
  {
    if |xs| > 0 {
      IncreasingCount(xs[1..]);
      assert SetOf(xs) == {xs[0]} + SetOf(xs[1..]);
      if xs[0] in xs[1..] {
        var k :| 0 <= k < |xs[1..]| && xs[1..][k] == xs[0];
        assert Below(xs[0], xs[k + 1]);
        BelowIrreflexive(xs[0]);
      }
    }
  }

  /** The URLs on the non-blank lines of a file, stripped. */
  function LineUrls(lines: seq<string>): seq<string> {
    if |lines| == 0 then []
    else
      var u := Text.Strip(lines[0]);
      if u == "" then LineUrls(lines[1..]) else [u] + LineUrls(lines[1..])
  }

  /** `set(line.strip() for line in f if line.strip())`. */
  function ExistingUrls(text: string): seq<string> {
    LineUrls(Text.Split(text, '\n'))
  }

  /** The file written for a sorted list: each URL followed by a newline. */
  function FileText(lines: seq<string>): string {
    Text.Join(lines + [""], "\n")
  }

  /** `update_urls_file`: the new text of the file and the number of URLs
      it holds. */
  function UpdateUrlsFile(text: string, urls: seq<string>): (r: (string, nat))
    ensures var lines := SortedSet(ExistingUrls(text) + urls);
      && r.0 == FileText(lines)
      && (forall u :: u in lines <==> u in ExistingUrls(text) || u in urls)
      && Increasing(lines)
      && r.1 == |SetOf(ExistingUrls(text)) + SetOf(urls)|
  {
    var lines := SortedSet(ExistingUrls(text) + urls);
    SortedSetIncreasing(ExistingUrls(text) + urls);
    IncreasingCount(lines);
    assert SetOf(lines) == SetOf(ExistingUrls(text)) + SetOf(urls);
    (FileText(lines), |lines|)
  }

  /** A URL that survives being written on its own line and read back. */
  predicate CleanUrl(u: string) {
    u != "" && '\n' !in u && Text.Strip(u) == u
  }

  /** Reading back a written file gives the URLs that were written. */
  lemma ReadBack(lines: seq<string>)
    requires forall k :: 0 <= k < |lines| ==> CleanUrl(lines[k])
    ensures ExistingUrls(FileText(lines)) == lines
  {
    var parts := lines + [""];
    forall k | 0 <= k < |parts| ensures '\n' !in parts[k] {
      if k < |lines| { assert parts[k] == lines[k]; }
    }
    Text.SplitJoin(parts, '\n');
    CleanLines(lines);
  }

  lemma {:induction false} CleanLines(lines: seq<string>)
    requires forall k :: 0 <= k < |lines| ==> CleanUrl(lines[k])
    ensures LineUrls(lines + [""]) == lines
    decreases |lines|
  {
    if |lines| == 0 {
      assert LineUrls([""]) == [] by { assert Text.Strip("") == ""; }
    } else {
      CleanLines(lines[1..]);
      CleanLinesStep(lines);
    }
  }

  lemma CleanLinesStep(lines: seq<string>)
    requires |lines| > 0 && CleanUrl(lines[0])
    requires LineUrls(lines[1..] + [""]) == lines[1..]
    ensures LineUrls(lines + [""]) == lines
  {
    var padded := lines + [""];
    assert padded[0] == lines[0];
    assert padded[1..] == lines[1..] + [""];
    LineUrlsCons(padded);
    assert lines == [lines[0]] + lines[1..];
  }

  lemma LineUrlsCons(lines: seq<string>)
    requires |lines| > 0 && CleanUrl(lines[0])
    ensures LineUrls(lines) == [lines[0]] + LineUrls(lines[1..])
  {
  }

  /** Running the update twice with the same URLs leaves the file as the
      first run wrote it. */
  lemma UpdateIdempotent(text: string, urls: seq<string>)
    requires forall k :: 0 <= k < |urls| ==> CleanUrl(urls[k])
    ensures UpdateUrlsFile(UpdateUrlsFile(text, urls).0, urls) == UpdateUrlsFile(text, urls)
  {
    var lines := SortedSet(ExistingUrls(text) + urls);
    var text2 := UpdateUrlsFile(text, urls).0;
    forall k | 0 <= k < |lines| ensures CleanUrl(lines[k]) {
      assert lines[k] in lines;
      if lines[k] !in ExistingUrls(text) {
        var j :| 0 <= j < |urls| && urls[j] == lines[k];
      } else {
        SplitPiecesClean(text, lines[k]);
      }
    }
    ReadBack(lines);
    var lines2 := SortedSet(ExistingUrls(text2) + urls);
    SortedSetIncreasing(ExistingUrls(text2) + urls);
    IncreasingUnique(lines2, lines);
  }

  /** The URLs read from a file are non-empty, stripped and free of
      newlines, so they can be written back one per line. */
  lemma SplitPiecesClean(text: string, u: string)
    requires u in ExistingUrls(text)
    ensures CleanUrl(u)
  {
    ReadUrlClean(Text.Split(text, '\n'), u);
  }

  lemma {:induction false} ReadUrlClean(lines: seq<string>, u: string)
    requires forall k :: 0 <= k < |lines| ==> '\n' !in lines[k]
    requires u in LineUrls(lines)
    ensures CleanUrl(u)
    decreases |lines|
  {
    var s := Text.Strip(lines[0]);
    if s != "" && u == s {
      var i := Text.LeadingSpace(lines[0]);
      forall k | 0 <= k < |s| ensures s[k] != '\n' {
        assert s[k] == lines[0][i + k];
      }
      Text.StripClean(s);
    } else {
      ReadUrlClean(lines[1..], u);
    }
  }
}
