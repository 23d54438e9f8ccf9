/** The preprint version tracker: for every stored preprint it reads the
    list of versions on the article page, picks the newest one if it is
    newer than the stored link, and registers an update job for it. The
    stored documents and the listed version links are inputs; the page
    fetch and the database writes are outside the model. */
module VersionTracker {
  import opened Wrappers
  import opened PyStrings

  // ---------------------------------------------------------------------
  // url_to_doi and the version suffix
  // ---------------------------------------------------------------------

  /** `parts[-2:]`. */
  function LastTwo(parts: seq<string>): (r: seq<string>)
    ensures |r| == if |parts| >= 2 then 2 else |parts|
    ensures r == parts[|parts| - |r|..]
  {
    if |parts| >= 2 then parts[|parts| - 2..] else parts
  }

  /** The part of a URL before its first `?`. */
  function BeforeQuery(u: string): string {
    SplitOn(u, '?')[0]
  }

  /** `url_to_doi`: `'/'.join(u.split('?')[0].split('/')[-2:])`. */
  function UrlToDoi(u: string): string {
    Join(LastTwo(SplitOn(BeforeQuery(u), '/')), "/")
  }

  lemma {:induction false} JoinAvoids(parts: seq<string>, sep: char, c: char)
    requires c != sep
    requires forall k :: 0 <= k < |parts| ==> c !in parts[k]
    ensures c !in Join(parts, [sep])
    decreases |parts|
  {
    if |parts| > 1 {
      JoinAvoids(parts[1..], sep, c);
    }
  }

  /** Dropping leading fields of a split leaves a suffix of the string. */
  lemma JoinSuffix(parts: seq<string>, k: nat, sep: char)
    requires k < |parts|
    ensures var s := Join(parts, [sep]); var t := Join(parts[k..], [sep]);
      |t| <= |s| && s[|s| - |t|..] == t
  {
    if k > 0 {
      JoinAppend(parts[..k], parts[k..], [sep]);
      assert parts[..k] + parts[k..] == parts;
    }
  }

  /** The part before the query has no `?` and begins the URL. */
  lemma BeforeQueryShape(u: string)
    ensures var head := BeforeQuery(u); '?' !in head && |head| <= |u| && u[..|head|] == head
  {
    SplitJoin(u, '?');
    JoinPrefix(SplitOn(u, '?'), '?');
  }

  /** The last two segments of a path have at most one `/` (exactly one
      when the path had one) and end the path. */
  lemma LastSegmentsShape(head: string)
    ensures var d := Join(LastTwo(SplitOn(head, '/')), "/");
      && CountChar(d, '/') == (if CountChar(head, '/') >= 1 then 1 else 0)
      && |d| <= |head| && head[|head| - |d|..] == d
  {
    var parts := SplitOn(head, '/');
    var last := LastTwo(parts);
    JoinCount(last, '/');
    SplitJoin(head, '/');
    JoinSuffix(parts, |parts| - |last|, '/');
  }

  lemma LastSegmentsAvoid(head: string, x: char)
    requires x != '/' && x !in head
    ensures x !in Join(LastTwo(SplitOn(head, '/')), "/")
  {
    var parts := SplitOn(head, '/');
    var last := LastTwo(parts);
    SplitKeepsOut(head, '/', x);
    assert forall k :: 0 <= k < |last| ==> last[k] == parts[|parts| - |last| + k];
    JoinAvoids(last, '/', x);
  }

  /** The DOI drops the query string and keeps at most the last two path
      segments: it has no `?`, at most one `/`, and it ends the part of
      the URL before the query, which itself begins the URL. */
  lemma UrlToDoiShape(u: string)
    ensures var head := BeforeQuery(u); var d := UrlToDoi(u);
      && '?' !in d
      && CountChar(d, '/') == (if CountChar(head, '/') >= 1 then 1 else 0)
      && |d| <= |head| && head[|head| - |d|..] == d
      && |head| <= |u| && u[..|head|] == head
  {
    BeforeQueryShape(u);
    LastSegmentsShape(BeforeQuery(u));
    LastSegmentsAvoid(BeforeQuery(u), '?');
  }

  lemma {:induction false} SplitKeepsOut(s: string, c: char, x: char)
    requires x !in s
    ensures forall k :: 0 <= k < |SplitOn(s, c)| ==> x !in SplitOn(s, c)[k]
    decreases |s|
  {
    if s != [] {
      var t := SplitOn(s[1..], c);
      assert x !in s[1..] by {
        assert forall y :: y in s[1..] ==> y in s;
      }
      SplitKeepsOut(s[1..], c, x);
      var parts := SplitOn(s, c);
      forall k | 0 <= k < |parts| ensures x !in parts[k] {
        if s[0] == c {
          if k > 0 { assert parts[k] == t[k - 1]; }
        } else if k > 0 {
          assert parts[k] == t[k];
        } else {
          assert x !in t[0];
        }
      }
    }
  }

  lemma JoinPrefix(parts: seq<string>, sep: char)
    requires |parts| > 0
    ensures var s := Join(parts, [sep]); |parts[0]| <= |s| && s[..|parts[0]|] == parts[0]
  {
    if |parts| > 1 {
      JoinAppend(parts[..1], parts[1..], [sep]);
      assert parts[..1] + parts[1..] == parts;
    }
  }

  /** Splitting at a separator placed between two strings splits each. */
  lemma {:induction false} SplitAppend(x: string, y: string, c: char)
    ensures SplitOn(x + [c] + y, c) == SplitOn(x, c) + SplitOn(y, c)
    decreases |x|
  {
    var s := x + [c] + y;
    if x == [] {
      assert s[1..] == y;
    } else {
      assert s[0] == x[0] && s[1..] == x[1..] + [c] + y;
      SplitAppend(x[1..], y, c);
      PushCharAppend(x[0], c, SplitOn(x[1..], c), SplitOn(y, c));
    }
  }

  lemma LastTwoOfSnoc(parts: seq<string>, a: string, b: string)
    ensures LastTwo(parts + [a] + [b]) == [a, b]
  {
    var all := parts + [a] + [b];
    assert all[|all| - 2] == a && all[|all| - 1] == b;
  }

  lemma LastTwoOfPath(path: string, a: string, b: string)
    requires '/' !in a && '/' !in b
    ensures Join(LastTwo(SplitOn(path + "/" + a + "/" + b, '/')), "/") == a + "/" + b
  {
    var head := path + ['/'] + a;
    assert path + "/" + a + "/" + b == head + ['/'] + b;
    SplitAppend(head, b, '/');
    SplitWithout(b, '/');
    SplitAppend(path, a, '/');
    SplitWithout(a, '/');
    LastTwoOfSnoc(SplitOn(path, '/'), a, b);
    assert Join([a, b], "/") == a + "/" + Join([b], "/");
  }

  /** `url_to_doi` returns the last two path segments of the URL, with or
      without a query string after them. */
  lemma UrlToDoiTakesLastTwoSegments(path: string, a: string, b: string, query: string)
    requires '/' !in a && '/' !in b
    requires '?' !in path && '?' !in a && '?' !in b
    ensures UrlToDoi(path + "/" + a + "/" + b) == a + "/" + b
    ensures UrlToDoi(path + "/" + a + "/" + b + "?" + query) == a + "/" + b
  {
    var head := path + "/" + a + "/" + b;
    assert '?' !in head;
    SplitWithout(head, '?');
    assert head + "?" + query == head + ['?'] + query;
    SplitAppend(head, query, '?');
    assert BeforeQuery(head + "?" + query) == head;
    LastTwoOfPath(path, a, b);
  }

  /** `int(version.split('v')[-1])`: the number after the last `v`. */
  function VersionNumber(version: string): (r: Result<int>)
    ensures r.Failure? ==> r.error == ValueError
  {
    var parts := SplitOn(version, 'v');
    ParseInt(parts[|parts| - 1])
  }

  // ---------------------------------------------------------------------
  // The selection loop of test_new_versions
  // ---------------------------------------------------------------------

  /** The loop state `(new_version_url, this_version)` after the first
      `|urls|` listed versions, where `doi` reads the version string off a
      URL and `num` parses its number. Each pass parses the listed version
      first, then the best so far; either may fail. */
  function SelectBy(urls: seq<string>, link: string,
                    doi: string -> string, num: string -> Result<int>): Result<(Option<string>, string)>
  {
    if urls == [] then Success((None, doi(link)))
    else
      var prev :- SelectBy(urls[..|urls| - 1], link, doi, num);
      var version := doi(urls[|urls| - 1]);
      var a :- num(version);
      var b :- num(prev.1);
      if a > b then Success((Some(urls[|urls| - 1]), version)) else Success(prev)
  }

  /** The loop of `test_new_versions` itself. */
  function SelectFold(urls: seq<string>, link: string): Result<(Option<string>, string)> {
    SelectBy(urls, link, UrlToDoi, VersionNumber)
  }

  /** The URL of a newer version, if any, for a stored `link`. */
  function NewVersionUrl(urls: seq<string>, link: string): Result<Option<string>> {
    var p :- SelectFold(urls, link);
    Success(p.0)
  }

  predicate AllParse(urls: seq<string>, link: string,
                     doi: string -> string, num: string -> Result<int>) {
    num(doi(link)).Success? && forall i :: 0 <= i < |urls| ==> num(doi(urls[i])).Success?
  }

  /** When every version number parses, the loop ends on the first listed
      version with the greatest number, provided that number beats the
      stored link's; otherwise on None. Returns that position, or -1. */
  lemma {:induction false} SelectFindsFirstMaximum(urls: seq<string>, link: string,
                                                   doi: string -> string, num: string -> Result<int>)
    returns (i: int)
    requires AllParse(urls, link, doi, num)
    ensures SelectBy(urls, link, doi, num).Success?
    ensures -1 <= i < |urls|
    ensures i == -1 ==> SelectBy(urls, link, doi, num).value == (None, doi(link))
    ensures i == -1 ==> forall j :: 0 <= j < |urls| ==> num(doi(urls[j])).value <= num(doi(link)).value
    ensures i >= 0 ==> SelectBy(urls, link, doi, num).value == (Some(urls[i]), doi(urls[i]))
    ensures i >= 0 ==> num(doi(urls[i])).value > num(doi(link)).value
    ensures i >= 0 ==> forall j :: 0 <= j < |urls| ==> num(doi(urls[j])).value <= num(doi(urls[i])).value
    ensures i >= 0 ==> forall j :: 0 <= j < i ==> num(doi(urls[j])).value < num(doi(urls[i])).value
    decreases |urls|
  {
    if urls == [] {
      return -1;
    }
    var n := |urls|;
    var prefix := urls[..n - 1];
    assert forall j :: 0 <= j < n - 1 ==> prefix[j] == urls[j];
    var ip := SelectFindsFirstMaximum(prefix, link, doi, num);
    var best := if ip == -1 then num(doi(link)).value else num(doi(urls[ip])).value;
    if num(doi(urls[n - 1])).value > best {
      i := n - 1;
    } else {
      i := ip;
    }
  }

  /** The loop fails exactly when there is at least one listed version and
      some number it parses (the stored link's or a listed one's) does not
      parse; the failure is the parser's. */
  lemma {:induction false} SelectFailsIff(urls: seq<string>, link: string,
                                          doi: string -> string, num: string -> Result<int>)
    ensures SelectBy(urls, link, doi, num).Failure? <==> |urls| > 0 && !AllParse(urls, link, doi, num)
    ensures SelectBy(urls, link, doi, num).Failure? ==>
              exists u :: num(u).Failure? && SelectBy(urls, link, doi, num).error == num(u).error
    decreases |urls|
  {
    if urls != [] {
      var n := |urls|;
      var prefix := urls[..n - 1];
      SelectFailsIff(prefix, link, doi, num);
      assert forall j :: 0 <= j < n - 1 ==> prefix[j] == urls[j];
      if AllParse(urls, link, doi, num) {
        var i := SelectFindsFirstMaximum(urls, link, doi, num);
      } else if SelectBy(prefix, link, doi, num).Success? && n - 1 > 0 {
        var ip := SelectFindsFirstMaximum(prefix, link, doi, num);
      }
    }
  }

  /** For the tracker's own parser the failure is ValueError. */
  lemma SelectFoldFailsIff(urls: seq<string>, link: string)
    ensures SelectFold(urls, link).Failure? <==> |urls| > 0 && !AllParse(urls, link, UrlToDoi, VersionNumber)
    ensures SelectFold(urls, link).Failure? ==> SelectFold(urls, link).error == ValueError
  {
    SelectFailsIff(urls, link, UrlToDoi, VersionNumber);
  }

  /** One more pass of the loop, for a prefix that has not failed. */
  lemma SelectSnoc(urls: seq<string>, i: nat, link: string,
                   doi: string -> string, num: string -> Result<int>)
    requires i < |urls| && SelectBy(urls[..i], link, doi, num).Success?
    ensures var p := SelectBy(urls[..i], link, doi, num).value;
      var a := num(doi(urls[i]));
      var b := num(p.1);
      SelectBy(urls[..i + 1], link, doi, num) ==
        if a.Failure? then Failure(a.error)
        else if b.Failure? then Failure(b.error)
        else if a.value > b.value then Success((Some(urls[i]), doi(urls[i])))
        else Success(p)
  {
    assert urls[..i + 1][..i] == urls[..i];
  }

  /** The selection loop of `test_new_versions`, over the listed version
      URLs (already made absolute) and the stored link. */
  method SelectNewVersion(urls: seq<string>, link: string) returns (r: Result<Option<string>>)
    ensures r == NewVersionUrl(urls, link)
  {
    var thisVersion := UrlToDoi(link);
    var newVersionUrl: Option<string> := None;
    for i := 0 to |urls|
      invariant SelectFold(urls[..i], link) == Success((newVersionUrl, thisVersion))
    {
      SelectSnoc(urls, i, link, UrlToDoi, VersionNumber);
      var version := UrlToDoi(urls[i]);
      var a := VersionNumber(version);
      var b := if a.Success? then VersionNumber(thisVersion) else a;
      if a.Failure? || b.Failure? {
        SelectStops(urls, i + 1, link, UrlToDoi, VersionNumber);
        return Failure(ValueError);
      }
      if a.value > b.value {
        newVersionUrl := Some(urls[i]);
        thisVersion := version;
      }
    }
    assert urls[..|urls|] == urls;
    return Success(newVersionUrl);
  }

  lemma {:induction false} SelectStops(urls: seq<string>, k: nat, link: string,
                                       doi: string -> string, num: string -> Result<int>)
    requires k <= |urls| && SelectBy(urls[..k], link, doi, num).Failure?
    ensures SelectBy(urls, link, doi, num) == SelectBy(urls[..k], link, doi, num)
    decreases |urls| - k
  {
    if k < |urls| {
      assert urls[..k + 1][..k] == urls[..k];
      SelectStops(urls, k + 1, link, doi, num);
    } else {
      assert urls[..k] == urls;
    }
  }

  // ---------------------------------------------------------------------
  // The update job
  // ---------------------------------------------------------------------

  /** `'biorxiv' if 'biorxiv.org' in url else 'medrxiv'`. */
  function Site(url: string): (s: string)
    ensures s == "biorxiv" <==> Contains(url, "biorxiv.org")
    ensures s == "medrxiv" <==> !Contains(url, "biorxiv.org")
  {
    if Contains(url, "biorxiv.org") then "biorxiv" else "medrxiv"
  }

  /** The stored preprint a request was made for. */
  datatype Document = Document(doi: string, link: string, lastUpdated: int,
                               publicationDate: string, origin: string)

  datatype NewJob = NewJob(url: string, site: string, doi: string, journal: string,
                           publicationDate: string, origin: string)

  /** `test_new_versions`: the job to register, if a newer version is listed. */
  method TestNewVersions(doc: Document, urls: seq<string>) returns (r: Result<Option<NewJob>>)
    ensures NewVersionUrl(urls, doc.link).Failure? <==> r.Failure?
    ensures r.Success? && r.value.None? <==> NewVersionUrl(urls, doc.link) == Success(None)
    ensures r.Success? && r.value.Some? ==>
              var u := NewVersionUrl(urls, doc.link).value.value;
              r.value.value == NewJob(u, Site(u), doc.doi, Site(u), doc.publicationDate, doc.origin)
  {
    var chosen :- SelectNewVersion(urls, doc.link);
    if chosen.None? {
      return Success(None);
    }
    var u := chosen.value;
    var site := Site(u);
    return Success(Some(NewJob(u, site, doc.doi, site, doc.publicationDate, doc.origin)));
  }

  // ---------------------------------------------------------------------
  // start_requests
  // ---------------------------------------------------------------------

  /** The link the version list is read from. */
  function RequestUrl(doc: Document): string {
    doc.link + ".article-info?versioned=true"
  }

  /** `per_doi` after the first `|docs|` stored documents: documents whose
      DOI already has a tracker entry are skipped, and a later document
      replaces the kept one only when it was updated strictly later. */
  function PerDoi(docs: seq<Document>, tracked: set<string>): map<string, (int, Document)> {
    if docs == [] then map[]
    else
      var m := PerDoi(docs[..|docs| - 1], tracked);
      var d := docs[|docs| - 1];
      if d.doi in tracked then m
      else if d.doi in m && m[d.doi].0 >= d.lastUpdated then m
      else m[d.doi := (d.lastUpdated, d)]
  }

  /** `per_doi` has an entry for exactly the untracked DOIs of the stored
      documents. */
  lemma {:induction false} PerDoiKeys(docs: seq<Document>, tracked: set<string>, doi: string)
    ensures doi in PerDoi(docs, tracked) <==>
              doi !in tracked && exists i :: 0 <= i < |docs| && docs[i].doi == doi
    decreases |docs|
  {
    if docs != [] {
      var n := |docs|;
      var prefix := docs[..n - 1];
      PerDoiKeys(prefix, tracked, doi);
      assert forall j :: 0 <= j < n - 1 ==> prefix[j] == docs[j];
      if doi !in tracked && docs[n - 1].doi == doi {
        assert doi in PerDoi(docs, tracked);
      }
    }
  }

  /** The entry kept for a DOI is the first of its documents with the
      latest update time. */
  predicate KeepsFirstLatest(docs: seq<Document>, doi: string, entry: (int, Document)) {
    exists i :: 0 <= i < |docs| && entry == (docs[i].lastUpdated, docs[i])
      && docs[i].doi == doi
      && (forall j :: 0 <= j < |docs| && docs[j].doi == doi ==> docs[j].lastUpdated <= docs[i].lastUpdated)
      && (forall j :: 0 <= j < i && docs[j].doi == doi ==> docs[j].lastUpdated < docs[i].lastUpdated)
  }

  /** A later document with the same DOI that is not strictly newer
      leaves the kept entry as it was. */
  lemma KeptAfterOlder(prefix: seq<Document>, d: Document, doi: string, e: (int, Document))
    requires KeepsFirstLatest(prefix, doi, e)
    requires d.doi != doi || d.lastUpdated <= e.0
    ensures KeepsFirstLatest(prefix + [d], doi, e)
  {
    var docs := prefix + [d];
    var i :| 0 <= i < |prefix| && e == (prefix[i].lastUpdated, prefix[i]) && prefix[i].doi == doi
         && (forall j :: 0 <= j < |prefix| && prefix[j].doi == doi ==> prefix[j].lastUpdated <= prefix[i].lastUpdated)
         && (forall j :: 0 <= j < i && prefix[j].doi == doi ==> prefix[j].lastUpdated < prefix[i].lastUpdated);
    assert docs[i] == prefix[i];
    assert forall j :: 0 <= j < |prefix| ==> docs[j] == prefix[j];
  }

  /** A document strictly newer than every earlier one with its DOI
      becomes the kept entry. */
  lemma NewerReplaces(prefix: seq<Document>, d: Document)
    requires forall j :: 0 <= j < |prefix| && prefix[j].doi == d.doi ==> prefix[j].lastUpdated < d.lastUpdated
    ensures KeepsFirstLatest(prefix + [d], d.doi, (d.lastUpdated, d))
  {
    var docs := prefix + [d];
    assert forall j :: 0 <= j < |prefix| ==> docs[j] == prefix[j];
    assert docs[|prefix|] == d;
  }

  lemma {:induction false} PerDoiKeepsLatest(docs: seq<Document>, tracked: set<string>, doi: string)
    requires doi in PerDoi(docs, tracked)
    ensures KeepsFirstLatest(docs, doi, PerDoi(docs, tracked)[doi])
    decreases |docs|
  {
    PerDoiKeys(docs, tracked, doi);
    var n := |docs|;
    var prefix := docs[..n - 1];
    var d := docs[n - 1];
    assert docs == prefix + [d];
    var m := PerDoi(prefix, tracked);
    if doi == d.doi && (doi !in m || m[doi].0 < d.lastUpdated) {
      if doi in m {
        PerDoiKeepsLatest(prefix, tracked, doi);
      } else {
        PerDoiKeys(prefix, tracked, doi);
      }
      NewerReplaces(prefix, d);
    } else {
      PerDoiKeepsLatest(prefix, tracked, doi);
      KeptAfterOlder(prefix, d, doi, m[doi]);
    }
  }

  /** The first loop of `start_requests` (covidscholar copy). A DOI counts as
      tracked when `has_duplicate` finds an entry for it. */
  method LatestPerDoi(docs: seq<Document>, tracked: set<string>)
    returns (perDoi: map<string, (int, Document)>)
    ensures perDoi == PerDoi(docs, tracked)
  {
    perDoi := map[];
    for i := 0 to |docs|
      invariant perDoi == PerDoi(docs[..i], tracked)
    {
      assert docs[..i + 1][..i] == docs[..i];
      var document := docs[i];
      if document.doi in tracked {
        continue;
      }
      if document.doi in perDoi {
        var (updateDate, _) := perDoi[document.doi];
        if updateDate >= document.lastUpdated {
          continue;
        }
      }
      perDoi := perDoi[document.doi := (document.lastUpdated, document)];
    }
    assert docs[..|docs|] == docs;
  }

  /** The requests of the covidscholar copy: one per kept DOI. */
  function RequestsPerDoi(perDoi: map<string, (int, Document)>): (r: map<string, string>)
    ensures r.Keys == perDoi.Keys
    ensures forall doi :: doi in r ==> r[doi] == RequestUrl(perDoi[doi].1)
  {
    map doi | doi in perDoi :: RequestUrl(perDoi[doi].1)
  }

  /** The requests of the other copy: one per stored document whose DOI is
      not yet tracked, in the stored order. */
  function UntrackedDocuments(docs: seq<Document>, tracked: set<string>): (r: seq<Document>)
    ensures |r| <= |docs|
    ensures forall d :: d in r <==> d in docs && d.doi !in tracked
  {
    if docs == [] then []
    else
      var rest := UntrackedDocuments(docs[1..], tracked);
      assert forall d :: d in docs <==> d == docs[0] || d in docs[1..];
      if docs[0].doi in tracked then rest else [docs[0]] + rest
  }

  /** The stored order is kept: the requests for two runs of stored
      documents are those of the first run followed by those of the
      second, so a document is requested before every later one. */
  lemma {:induction false} UntrackedKeepsOrder(a: seq<Document>, b: seq<Document>, tracked: set<string>)
    ensures UntrackedDocuments(a + b, tracked) == UntrackedDocuments(a, tracked) + UntrackedDocuments(b, tracked)
    decreases |a|
  {
    if a != [] {
      assert (a + b)[1..] == a[1..] + b;
      UntrackedKeepsOrder(a[1..], b, tracked);
    } else {
      assert a + b == b;
    }
  }
}
