/**
 * The chapter loop of the script: for every unlocked chapter of the catalog, in
 * listing order, it assigns a 1-based counter, reads the page from the cache
 * or fetches it, builds the e-book chapter, appends it to the table of contents
 * and to the spine, rewrites the cache file, and decides whether to pause before
 * the next chapter. Page contents are not modelled; what a chapter carries here
 * is everything the loop derives from the catalog entry and the counter.
 */
module Chapters {
  import opened Text

  datatype Option<T> = None | Some(value: T)

  /** An unlocked anchor of the catalog page: its `href`, the text of its number
      node when it has one, and its `title` attribute. */
  datatype Entry = Entry(href: string, number: Option<string>, title: string)

  /** A chapter as the loop adds it to the book: the counter, the number text
      and the title, from which the e-book chapter's title, its file name inside
      the e-book and the heading that opens its content are derived. */
  datatype Chapter = Chapter(counter: nat, number: string, title: string)
  {
    /** The title given to the e-book chapter, "<number>: <title>": the
        number text, then ": ", then the chapter title. */
    function TocTitle(): (r: string)
      ensures |r| == |number| + 2 + |title|
      ensures r[..|number|] == number && r[|number|..|number| + 2] == ": "
      ensures r[|number| + 2..] == title
    {
      number + ": " + title
    }

    function FileName(): string {
      ChapterFileName(counter)
    }

    function Heading(): string {
      HeadingOf(number, title)
    }
  }

  /** An entry of the spine: the navigation document or a chapter. */
  datatype SpineItem = Nav | Page(chapter: Chapter)

  /** Where a chapter's page came from: the cache file of chapter `counter`, or
      a live fetch of the address an anchor's `href` points to. */
  datatype Source = Cached(counter: nat) | Live(href: string)
  {
    /** The cache file read on a hit. */
    function File(): string
      requires Cached?
    {
      CacheFileName(counter)
    }

    /** The address fetched on a miss. */
    function Url(): string
      requires Live?
    {
      ChapterUrl(href)
    }
  }

  /** What the loop does after a chapter: nothing, or sleep for some seconds. */
  datatype Pause = NoPause | Sleep(seconds: int)

  /** The `--cache` and `--debug` switches. */
  datatype Settings = Settings(saveChapters: bool, debug: bool)

  /** `chap_<counter>.xhtml`, the chapter's file inside the e-book. */
  function ChapterFileName(k: nat): (r: string)
    ensures |r| >= 12 && r[..5] == "chap_" && r[|r| - 6..] == ".xhtml"
  {
    "chap_" + NatToString(k) + ".xhtml"
  }

  /** Between the prefix and the extension of a chapter's file name stand the
      decimal digits of its counter, without a leading zero. */
  lemma ChapterFileNameValue(k: nat)
    ensures var r := ChapterFileName(k);
            && (forall i :: 5 <= i < |r| - 6 ==> '0' <= r[i] <= '9')
            && DigitsValue(r[5..|r| - 6]) == k && (r[5] != '0' || k == 0)
  {
    var r := ChapterFileName(k);
    assert r[5..|r| - 6] == NatToString(k);
    NatToStringValue(k);
  }

  /** Different counters give different chapter file names. */
  lemma ChapterFileNameInjective(k1: nat, k2: nat)
    requires k1 != k2
    ensures ChapterFileName(k1) != ChapterFileName(k2)
  {
    ChapterFileNameValue(k1);
    ChapterFileNameValue(k2);
    var a, b := ChapterFileName(k1), ChapterFileName(k2);
    assert DigitsValue(a[5..|a| - 6]) != DigitsValue(b[5..|b| - 6]);
  }

  /** `chapter_<counter>.html`, the chapter's file in the cache directory. */
  function CacheFileName(k: nat): (r: string)
    ensures |r| >= 14 && r[..8] == "chapter_" && r[|r| - 5..] == ".html"
  {
    "chapter_" + NatToString(k) + ".html"
  }

  /** Between the prefix and the extension of a cache file name stand the
      decimal digits of the chapter's counter, without a leading zero. */
  lemma CacheFileNameValue(k: nat)
    ensures var r := CacheFileName(k);
            && (forall i :: 8 <= i < |r| - 5 ==> '0' <= r[i] <= '9')
            && DigitsValue(r[8..|r| - 5]) == k && (r[8] != '0' || k == 0)
  {
    var r := CacheFileName(k);
    assert r[8..|r| - 5] == NatToString(k);
    NatToStringValue(k);
  }

  /** Different counters give different cache file names. */
  lemma CacheFileNameInjective(k1: nat, k2: nat)
    requires k1 != k2
    ensures CacheFileName(k1) != CacheFileName(k2)
  {
    CacheFileNameValue(k1);
    CacheFileNameValue(k2);
    var a, b := CacheFileName(k1), CacheFileName(k2);
    assert DigitsValue(a[8..|a| - 5]) != DigitsValue(b[8..|b| - 5]);
  }

  /** The number text of an entry, "N/A" when the entry has no number node. */
  function NumberText(number: Option<string>): string {
    match number
    case Some(text) => text
    case None => "N/A"
  }

  /** The address fetched for an entry: `https://` in front of the `href` with
      every leading and trailing '/' removed. The address is secure, its path
      neither starts nor ends with '/', and it is a piece of the `href`. */
  function ChapterUrl(href: string): (url: string)
    ensures |url| >= 8 && url[..8] == "https://"
    ensures |url| == 8 || (url[8] != '/' && url[|url| - 1] != '/')
    ensures forall c :: c in url[8..] ==> c in href
  {
    var path := Strip(href, IsSlash);
    var url := "https://" + path;
    assert url[8..] == path;
    url
  }

  /** The heading that opens a chapter's content, verbatim: it opens an `h2`
      and closes an `h1`, and between the tags stands the chapter's title as
      the table of contents shows it. */
  function HeadingOf(number: string, title: string): (r: string)
    ensures |r| == 26 + |number + ": " + title|
    ensures r[..12] == "<center><h2>" && r[|r| - 14..] == "</h1></center>"
    ensures r[12..|r| - 14] == number + ": " + title
  {
    var text := number + ": " + title;
    var r := "<center><h2>" + text + "</h1></center>";
    assert r[12..|r| - 14] == text;
    r
  }

  /** The heading that opens a chapter's content shows, between its tags,
      the same text the chapter carries as its title in the e-book. */
  lemma HeadingCarriesTocTitle(c: Chapter)
    ensures var h := c.Heading(); h[12..|h| - 14] == c.TocTitle()
  {
  }

  /** The chapter the loop builds from `e` when its counter is `k`: the
      counter, the number text or "N/A" when the entry has none, the title. */
  function ChapterOf(e: Entry, k: nat): (c: Chapter)
    ensures c.counter == k && c.title == e.title
    ensures e.number.None? ==> c.number == "N/A"
    ensures e.number.Some? ==> c.number == e.number.value
  {
    Chapter(k, NumberText(e.number), e.title)
  }

  /** The table of contents: one chapter per entry, in listing order, the i-th
      (from 0) with counter i + 1. */
  function ChaptersOf(entries: seq<Entry>): seq<Chapter> {
    seq(|entries|, i requires 0 <= i < |entries| => ChapterOf(entries[i], i + 1))
  }

  function Pages(chapters: seq<Chapter>): seq<SpineItem> {
    seq(|chapters|, i requires 0 <= i < |chapters| => Page(chapters[i]))
  }

  /** A chapter is read from the cache when caching is on and its cache file
      exists; with caching off nothing is ever read from the cache. */
  predicate IsHit(settings: Settings, cache: set<string>, k: nat): (hit: bool)
    ensures hit ==> settings.saveChapters
  {
    settings.saveChapters && CacheFileName(k) in cache
  }

  function SourceOf(e: Entry, settings: Settings, cache: set<string>, k: nat): Source {
    if IsHit(settings, cache, k) then Cached(k) else Live(e.href)
  }

  /** Where each chapter's page comes from, in listing order, given the cache
      directory before the loop. */
  function SourcesOf(entries: seq<Entry>, settings: Settings, cache: set<string>): seq<Source> {
    seq(|entries|, i requires 0 <= i < |entries| => SourceOf(entries[i], settings, cache, i + 1))
  }

  /** The pause rule after chapter `k` of `n`: none after a cache hit or after
      the last chapter; otherwise a whole number of seconds drawn from [1, 2]
      in debug mode and from [15, 45] otherwise. */
  predicate PauseAllowed(p: Pause, hit: bool, k: nat, n: nat, debug: bool): (ok: bool)
    ensures ok ==> (p.Sleep? <==> !hit && k != n)
    ensures ok && p.Sleep? ==> 1 <= p.seconds <= 45
  {
    if hit || k == n then p == NoPause
    else p.Sleep? && (if debug then 1 <= p.seconds <= 2 else 15 <= p.seconds <= 45)
  }

  /** Every pause so far follows the rule, the i-th (from 0) being the pause
      after chapter i + 1 of `n`. */
  predicate PausesAllowed(pauses: seq<Pause>, settings: Settings, cache: set<string>, n: nat) {
    forall i :: 0 <= i < |pauses| ==>
      PauseAllowed(pauses[i], IsHit(settings, cache, i + 1), i + 1, n, settings.debug)
  }

  /** The cache files that exist once chapters 1..n are done. */
  function CacheFiles(n: nat): set<string> {
    if n == 0 then {} else CacheFiles(n - 1) + {CacheFileName(n)}
  }

  /** The cache file names in the order the loop writes them. */
  function CacheWrites(n: nat): seq<string> {
    seq(n, i requires 0 <= i < n => CacheFileName(i + 1))
  }

  /** Chapter k's cache file is not among those written for chapters 1..k-1,
      so a write never turns a later lookup into a hit. */
  lemma {:induction false} CacheFileFresh(m: nat, n: nat)
    requires m < n
    ensures CacheFileName(n) !in CacheFiles(m)
  {
    if m > 0 {
      CacheFileFresh(m - 1, n);
      CacheFileNameInjective(m, n);
    }
  }

  /** Chapters 1..n all have their cache file once the loop is past them. */
  lemma {:induction false} CacheFilesHas(k: nat, n: nat)
    requires 1 <= k <= n
    ensures CacheFileName(k) in CacheFiles(n)
  {
    if k < n {
      CacheFilesHas(k, n - 1);
    }
  }

  /** After chapters 1..m of a run with caching on, chapter k is a hit
      exactly when it was one of them or its file was there before the run. */
  lemma HitAfterRun(settings: Settings, cacheDir: set<string>, m: nat, k: nat)
    requires k >= 1
    ensures IsHit(settings, cacheDir + CacheFiles(m), k)
            <==> settings.saveChapters && (k <= m || CacheFileName(k) in cacheDir)
  {
    if k <= m {
      CacheFilesHas(k, m);
    } else {
      CacheFileFresh(m, k);
    }
  }

  /** One more entry adds one chapter at the end. */
  lemma ChaptersSnoc(entries: seq<Entry>, n: nat)
    requires n < |entries|
    ensures ChaptersOf(entries[..n + 1]) == ChaptersOf(entries[..n]) + [ChapterOf(entries[n], n + 1)]
  {
    var a, b := ChaptersOf(entries[..n + 1]), ChaptersOf(entries[..n]) + [ChapterOf(entries[n], n + 1)];
    assert |a| == |b|;
    forall i | 0 <= i < |a| ensures a[i] == b[i] {
      assert entries[..n + 1][i] == entries[i];
    }
  }

  /** One more entry adds one source at the end. */
  lemma SourcesSnoc(entries: seq<Entry>, n: nat, settings: Settings, cache: set<string>)
    requires n < |entries|
    ensures SourcesOf(entries[..n + 1], settings, cache)
            == SourcesOf(entries[..n], settings, cache) + [SourceOf(entries[n], settings, cache, n + 1)]
  {
    var a := SourcesOf(entries[..n + 1], settings, cache);
    var b := SourcesOf(entries[..n], settings, cache) + [SourceOf(entries[n], settings, cache, n + 1)];
    assert |a| == |b|;
    forall i | 0 <= i < |a| ensures a[i] == b[i] {
      assert entries[..n + 1][i] == entries[i];
    }
  }

  lemma PausesSnoc(pauses: seq<Pause>, p: Pause, settings: Settings, cache: set<string>, n: nat)
    requires PausesAllowed(pauses, settings, cache, n)
    requires PauseAllowed(p, IsHit(settings, cache, |pauses| + 1), |pauses| + 1, n, settings.debug)
    ensures PausesAllowed(pauses + [p], settings, cache, n)
  {
  }

  lemma PagesAppend(chapters: seq<Chapter>, c: Chapter)
    ensures Pages(chapters + [c]) == Pages(chapters) + [Page(c)]
  {
  }

  lemma CacheGrows(n: nat)
    ensures CacheFiles(n + 1) == CacheFiles(n) + {CacheFileName(n + 1)}
    ensures CacheWrites(n + 1) == CacheWrites(n) + [CacheFileName(n + 1)]
  {
  }

  /** Lines 296-308: sleep only after a chapter that was fetched live and is
      not the last one, for a time drawn from the mode's range; the draw of
      `random.randint` is a choice within that range. */
  method PauseAfter(chapterCached: bool, counter: nat, total: nat, debug: bool) returns (pause: Pause)
    ensures PauseAllowed(pause, chapterCached, counter, total, debug)
  {
    pause := NoPause;
    if !chapterCached {
      if counter != total {
        var seconds: int;
        if debug {
          seconds :| 1 <= seconds <= 2;
        } else {
          seconds :| 15 <= seconds <= 45;
        }
        pause := Sleep(seconds);
      }
    }
  }

  /** One pass of the loop body (lines 238-308) for the chapter with counter
      `counter` out of `total`: read the page from the cache when caching is on
      and the cache file exists, otherwise fetch it; build the chapter; rewrite
      the cache file when caching is on; then pause or not. */
  method ProcessChapter(entry: Entry, counter: nat, total: nat, settings: Settings, cache: set<string>)
    returns (chapter: Chapter, source: Source, pause: Pause, chapterCached: bool, cacheAfter: set<string>)
    ensures chapterCached == IsHit(settings, cache, counter)
    ensures chapter == ChapterOf(entry, counter)
    ensures source == SourceOf(entry, settings, cache, counter)
    ensures PauseAllowed(pause, chapterCached, counter, total, settings.debug)
    ensures cacheAfter == if settings.saveChapters then cache + {CacheFileName(counter)} else cache
  {
    chapterCached := false;
    var number := if entry.number.Some? then entry.number.value else "N/A";
    var title := entry.title;

    if settings.saveChapters && CacheFileName(counter) in cache {
      chapterCached := true;
      source := Cached(counter);
    } else {
      source := Live(entry.href);
    }

    chapter := Chapter(counter, number, title);

    cacheAfter := cache;
    if settings.saveChapters {
      cacheAfter := cache + {CacheFileName(counter)};
    }

    pause := PauseAfter(chapterCached, counter, total, settings.debug);
  }

  /** The loop at lines 235-313. `cacheDir` is the set of file names in the
      cache directory before the loop; `cache` is that set afterwards and
      `writes` the cache files written, in order. Each pause is a choice in
      its range, standing for `random.randint`. */
  method AssembleChapters(entries: seq<Entry>, settings: Settings, cacheDir: set<string>)
    returns (spine: seq<SpineItem>, toc: seq<Chapter>, sources: seq<Source>,
             pauses: seq<Pause>, writes: seq<string>, cache: set<string>)
    ensures toc == ChaptersOf(entries)
    ensures spine == [Nav] + Pages(toc)
    ensures sources == SourcesOf(entries, settings, cacheDir)
    ensures |pauses| == |entries| && PausesAllowed(pauses, settings, cacheDir, |entries|)
    ensures writes == if settings.saveChapters then CacheWrites(|entries|) else []
    ensures cache == if settings.saveChapters then cacheDir + CacheFiles(|entries|) else cacheDir
  {
    spine := [Nav];
    var chapterList: seq<Chapter> := [];
    sources, pauses, writes, cache := [], [], [], cacheDir;
    var counter := 1;
    for idx := 0 to |entries|
      invariant counter == idx + 1
      invariant chapterList == ChaptersOf(entries[..idx])
      invariant spine == [Nav] + Pages(chapterList)
      invariant sources == SourcesOf(entries[..idx], settings, cacheDir)
      invariant |pauses| == idx && PausesAllowed(pauses, settings, cacheDir, |entries|)
      invariant writes == if settings.saveChapters then CacheWrites(idx) else []
      invariant cache == if settings.saveChapters then cacheDir + CacheFiles(idx) else cacheDir
    {
      var chapter, source, pause, chapterCached;
      chapter, source, pause, chapterCached, cache :=
        ProcessChapter(entries[idx], counter, |entries|, settings, cache);
      CacheFileFresh(idx, counter);
      assert chapterCached == IsHit(settings, cacheDir, counter);
      ChaptersSnoc(entries, idx);
      SourcesSnoc(entries, idx, settings, cacheDir);
      PagesAppend(chapterList, chapter);
      chapterList := chapterList + [chapter];
      spine := spine + [Page(chapter)];
      sources := sources + [source];
      CacheGrows(idx);
      if settings.saveChapters {
        writes := writes + [CacheFileName(counter)];
      }
      PausesSnoc(pauses, pause, settings, cacheDir, |entries|);
      pauses := pauses + [pause];

      counter := counter + 1;
    }
    assert entries[..|entries|] == entries;
    toc := chapterList;
  }

  /** Every chapter gets its own file name in the e-book. */
  lemma ChapterFileNamesDistinct(entries: seq<Entry>, i: nat, j: nat)
    requires i < |entries| && j < |entries| && i != j
    ensures ChaptersOf(entries)[i].FileName() != ChaptersOf(entries)[j].FileName()
  {
    var ci, cj := ChaptersOf(entries)[i], ChaptersOf(entries)[j];
    assert ci.counter == i + 1 && cj.counter == j + 1;
    ChapterFileNameInjective(i + 1, j + 1);
  }

  /** After a run with caching on, a second run reads every chapter that the
      first run cached from the cache, and does not pause after it. The second
      listing may be shorter or longer than the first. */
  lemma SecondRunReadsCache(first: seq<Entry>, second: seq<Entry>, settings: Settings,
                            cacheDir: set<string>, i: nat, p: Pause)
    requires settings.saveChapters && i < |second| && i < |first|
    requires PauseAllowed(p, IsHit(settings, cacheDir + CacheFiles(|first|), i + 1), i + 1,
                          |second|, settings.debug)
    ensures SourceOf(second[i], settings, cacheDir + CacheFiles(|first|), i + 1)
            == Cached(i + 1)
    ensures p == NoPause
  {
    CacheFilesHas(i + 1, |first|);
  }
}
