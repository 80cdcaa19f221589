/**
 * The transcript downloader: count the listing pages, collect the episode
 * URLs from every page into a set, then visit the episodes in sorted order
 * and decide for each whether a transcript file is written.
 *
 * The browser is a parameter: `linksOn(pageUrl)` is the `href` of every
 * episode anchor on a listing page (None for an anchor without one), and
 * `pageOf(url)` is what an episode page shows once the transcript tab, if
 * any, has been clicked. The output directory is the set of slugs whose
 * `out/<slug>.txt` file exists.
 */
module Scraper {
  import opened Wrappers
  import opened Text
  import opened StringOrder

  const BASE_URL := "https://podscripts.co"
  const PODCAST_SLUG := "huberman-lab"
  const STARTING_URL := BASE_URL + "/podcasts/" + PODCAST_SLUG
  /** What an episode link's href must contain. */
  const EPISODE_PATH := "/podcasts/" + PODCAST_SLUG + "/"
  const PAGE_QUERY := "?page="
  /** Texts shorter than this are not saved. */
  const MIN_TEXT := 500
  const PREMIUM_MARK := "premium subscribers only"

  // ------------------ how many pages ------------------

  /**
   * The page count: the largest number among the stripped link texts that
   * are all digits, and 1 when there is none larger.
   */
  method DetectMaxPage(linkTexts: seq<string>) returns (maxPage: nat)
    ensures maxPage >= 1
    ensures forall k :: 0 <= k < |linkTexts| && IsDigits(Strip(linkTexts[k])) ==>
              DigitsValue(Strip(linkTexts[k])) <= maxPage
    ensures maxPage == 1 || (exists k :: 0 <= k < |linkTexts| && IsDigits(Strip(linkTexts[k])) &&
                               DigitsValue(Strip(linkTexts[k])) == maxPage)
  {
    maxPage := 1;
    for i := 0 to |linkTexts|
      invariant maxPage >= 1
      invariant forall k :: 0 <= k < i && IsDigits(Strip(linkTexts[k])) ==> DigitsValue(Strip(linkTexts[k])) <= maxPage
      invariant maxPage == 1 || (exists k :: 0 <= k < i && IsDigits(Strip(linkTexts[k])) &&
                                   DigitsValue(Strip(linkTexts[k])) == maxPage)
    {
      var text := Strip(linkTexts[i]);
      if IsDigits(text) {
        var n := DigitsValue(text);
        if n > maxPage {
          maxPage := n;
        }
      }
    }
  }

  // ------------------ listing pages ------------------

  /** The URL of listing page `n`: the starting URL for page 1, `?page=n` appended after. */
  function PageUrl(n: nat): string {
    if n > 1 then STARTING_URL + PAGE_QUERY + Decimal(n) else STARTING_URL
  }

  /**
   * Page 1 (and page 0, which the loop never asks for) is the starting URL;
   * any later page's URL is the starting URL, `?page=` and digits that read
   * back as the page number, with no leading zero.
   */
  lemma PageUrlNumber(n: nat)
    ensures n <= 1 ==> PageUrl(n) == STARTING_URL
    ensures n > 1 ==> var u := PageUrl(n);
      && |STARTING_URL + PAGE_QUERY| < |u| && StartsWith(u, STARTING_URL + PAGE_QUERY)
      && IsDigits(u[|STARTING_URL + PAGE_QUERY|..]) && DigitsValue(u[|STARTING_URL + PAGE_QUERY|..]) == n
      && u[|STARTING_URL + PAGE_QUERY|] != '0'
  {
    if n > 1 {
      var u := PageUrl(n);
      assert u[..|STARTING_URL + PAGE_QUERY|] == STARTING_URL + PAGE_QUERY;
      assert u[|STARTING_URL + PAGE_QUERY|..] == Decimal(n);
    }
  }

  /** Different pages are fetched from different URLs. */
  lemma PageUrlInjective(m: nat, n: nat)
    requires 1 <= m && 1 <= n && PageUrl(m) == PageUrl(n)
    ensures m == n
  {
    PageUrlNumber(m);
    PageUrlNumber(n);
  }

  // ------------------ episode links ------------------

  /**
   * The href test exactly as the script writes it: the listing root is
   * excluded by comparing the raw href with the starting URL, before the
   * href is made absolute.
   */
  function EpisodeUrlRawCheck(href: Option<string>): Option<string> {
    if href.Some? && href.value != "" && Contains(href.value, EPISODE_PATH)
       && RStripChar(href.value, '/') != RStripChar(STARTING_URL, '/')
    then Some(Absolute(BASE_URL, href.value))
    else None
  }

  /** A relative link to the listing root passes the raw test and yields the root itself. */
  lemma RelativeRootPassesRawCheck()
    ensures EpisodeUrlRawCheck(Some(EPISODE_PATH)) == Some(STARTING_URL + "/")
    ensures RStripChar(STARTING_URL + "/", '/') == RStripChar(STARTING_URL, '/')
  {
    var href := EPISODE_PATH;
    assert Contains(href, EPISODE_PATH) by {
      assert StartsWith(href, EPISODE_PATH);
    }
    assert !StartsWith(href, "http") by {
      assert href[..4][0] != "http"[0];
    }
    assert Absolute(BASE_URL, href) == STARTING_URL + "/";
    var root := RStripChar(STARTING_URL, '/');
    assert root == STARTING_URL by {
      assert STARTING_URL[|STARTING_URL| - 1] != '/';
    }
    assert RStripChar(href, '/') != root by {
      assert |RStripChar(href, '/')| <= |href| < |STARTING_URL|;
    }
    assert RStripChar(STARTING_URL + "/", '/') == root by {
      assert (STARTING_URL + "/")[..|STARTING_URL + "/"| - 1] == STARTING_URL;
    }
  }

  /**
   * The href test with the root excluded after the href is made absolute:
   * an accepted link is an episode link and never the listing root.
   */
  function EpisodeUrl(href: Option<string>): Option<string> {
    if href.Some? && href.value != "" && Contains(href.value, EPISODE_PATH) then
      var full := Absolute(BASE_URL, href.value);
      if RStripChar(full, '/') != RStripChar(STARTING_URL, '/') then Some(full) else None
    else None
  }

  /**
   * An accepted link is an episode link and never the listing root, and it
   * is accepted exactly when its href is non-empty, holds the episode path
   * and, made absolute, is not the root.
   */
  lemma EpisodeUrlShape(href: Option<string>)
    ensures var u := EpisodeUrl(href);
      && (u.Some? <==> href.Some? && href.value != "" && Contains(href.value, EPISODE_PATH) &&
                       RStripChar(Absolute(BASE_URL, href.value), '/') != RStripChar(STARTING_URL, '/'))
      && (u.Some? ==> u.value == Absolute(BASE_URL, href.value))
      && (u.Some? ==> Contains(u.value, EPISODE_PATH))
      && (u.Some? ==> RStripChar(u.value, '/') != RStripChar(STARTING_URL, '/'))
  {
    if EpisodeUrl(href).Some? {
      ContainsAfterPrefix(BASE_URL, href.value, EPISODE_PATH);
    }
  }

  /** The two tests agree on every absolute href, which is what the browser reports. */
  lemma EpisodeUrlAgreesOnAbsolute(href: string)
    requires StartsWith(href, "http")
    ensures EpisodeUrl(Some(href)) == EpisodeUrlRawCheck(Some(href))
  {
  }

  /** The values `f` yields over `xs`, gathered into a set. */
  function Gathered<T, U>(xs: seq<T>, f: T -> Option<U>): set<U> {
    if xs == [] then {}
    else
      var y := f(xs[|xs| - 1]);
      Gathered(xs[..|xs| - 1], f) + (if y.Some? then {y.value} else {})
  }

  /** A value is gathered exactly when some element yields it. */
  lemma {:induction false} GatheredMembership<T, U>(xs: seq<T>, f: T -> Option<U>, u: U)
    ensures u in Gathered(xs, f) <==> exists k :: 0 <= k < |xs| && f(xs[k]) == Some(u)
  {
    if xs != [] {
      var init := xs[..|xs| - 1];
      GatheredMembership(init, f, u);
      if exists k :: 0 <= k < |init| && f(init[k]) == Some(u) {
        var k :| 0 <= k < |init| && f(init[k]) == Some(u);
        assert xs[k] == init[k];
      }
      if exists k :: 0 <= k < |xs| && f(xs[k]) == Some(u) {
        var k :| 0 <= k < |xs| && f(xs[k]) == Some(u);
        if k < |init| {
          assert init[k] == xs[k];
        }
      }
    }
  }

  /** Gathering over two runs one after the other. */
  lemma {:induction false} GatheredAppend<T, U>(a: seq<T>, b: seq<T>, f: T -> Option<U>)
    ensures Gathered(a + b, f) == Gathered(a, f) + Gathered(b, f)
    decreases |b|
  {
    if b == [] {
      assert a + b == a;
    } else {
      assert (a + b)[..|a + b| - 1] == a + b[..|b| - 1];
      GatheredAppend(a, b[..|b| - 1], f);
    }
  }

  /** The episode URLs found among one page's links. */
  function EpisodesOn(hrefs: seq<Option<string>>): set<string> {
    Gathered(hrefs, EpisodeUrl)
  }

  /** The episode URLs found on pages 1 to `n`. */
  function AllEpisodes(n: nat, linksOn: string -> seq<Option<string>>): set<string> {
    if n == 0 then {} else AllEpisodes(n - 1, linksOn) + EpisodesOn(linksOn(PageUrl(n)))
  }

  /** The values `f(1), ..., f(n)`, in that order. */
  function Numbered<T>(n: nat, f: nat -> T): (s: seq<T>)
    ensures |s| == n
  {
    if n == 0 then [] else Numbered(n - 1, f) + [f(n)]
  }

  /** Value `k` of the run is `f(k + 1)`. */
  lemma {:induction false} NumberedAt<T>(n: nat, f: nat -> T, k: nat)
    requires k < n
    ensures Numbered(n, f)[k] == f(k + 1)
  {
    if k < n - 1 {
      NumberedAt(n - 1, f, k);
    }
  }

  /** The listing pages 1 to `n`, in the order the loop loads them. */
  function PageUrls(n: nat): (urls: seq<string>)
    ensures |urls| == n
  {
    Numbered(n, PageUrl)
  }

  /** Page `k + 1` is loaded `k`-th: no page is skipped or loaded twice. */
  lemma PageUrlsAt(n: nat, k: nat)
    requires k < n
    ensures PageUrls(n)[k] == PageUrl(k + 1)
  {
    NumberedAt(n, PageUrl, k);
  }

  /**
   * The inner loop over one page's links: an href is kept when it is
   * non-empty, holds the episode path and, made absolute, is not the
   * listing root; kept URLs join the set.
   */
  method AddPageEpisodes(episodeUrls: set<string>, links: seq<Option<string>>) returns (result: set<string>)
    ensures result == episodeUrls + EpisodesOn(links)
  {
    result := episodeUrls;
    var j := 0;
    while j < |links|
      invariant 0 <= j <= |links|
      invariant result == episodeUrls + EpisodesOn(links[..j])
    {
      var href := links[j];
      assert links[..j + 1][..j] == links[..j];
      if href.Some? && href.value != "" && Contains(href.value, EPISODE_PATH) {
        var fullUrl := if StartsWith(href.value, "http") then href.value else BASE_URL + href.value;
        if RStripChar(fullUrl, '/') != RStripChar(STARTING_URL, '/') {
          result := result + {fullUrl};
        }
      }
      j := j + 1;
    }
    assert links[..|links|] == links;
  }

  /** The collection loop: pages 1 to `maxPage` in order, every accepted link added to one set. */
  method CollectEpisodeUrls(maxPage: nat, linksOn: string -> seq<Option<string>>)
    returns (episodeUrls: set<string>, visited: seq<string>)
    ensures episodeUrls == AllEpisodes(maxPage, linksOn)
    ensures visited == PageUrls(maxPage)
  {
    episodeUrls := {};
    visited := [];
    var pageNum := 1;
    while pageNum <= maxPage
      invariant 1 <= pageNum <= maxPage + 1
      invariant episodeUrls == AllEpisodes(pageNum - 1, linksOn)
      invariant visited == PageUrls(pageNum - 1)
    {
      var pageUrl := PageUrl(pageNum);
      visited := visited + [pageUrl];
      episodeUrls := AddPageEpisodes(episodeUrls, linksOn(pageUrl));
      pageNum := pageNum + 1;
    }
  }

  /** A URL is collected from a page exactly when one of the page's links yields it. */
  lemma EpisodesOnMembership(hrefs: seq<Option<string>>, u: string)
    ensures u in EpisodesOn(hrefs) <==> exists k :: 0 <= k < |hrefs| && EpisodeUrl(hrefs[k]) == Some(u)
  {
    GatheredMembership(hrefs, EpisodeUrl, u);
  }

  /** ... and collected overall when some page 1..n yields it, however many pages list it. */
  lemma {:induction false} AllEpisodesMembership(n: nat, linksOn: string -> seq<Option<string>>, u: string)
    ensures u in AllEpisodes(n, linksOn) <==> exists p :: 1 <= p <= n && u in EpisodesOn(linksOn(PageUrl(p)))
  {
    if n > 0 {
      AllEpisodesMembership(n - 1, linksOn, u);
      // The two asserts below only hand the solver the witness page for each direction.
      if u in EpisodesOn(linksOn(PageUrl(n))) {
        assert 1 <= n <= n;
      }
      if exists p :: 1 <= p <= n && u in EpisodesOn(linksOn(PageUrl(p))) {
        var p :| 1 <= p <= n && u in EpisodesOn(linksOn(PageUrl(p)));
        if p < n {
          assert 1 <= p <= n - 1;
        }
      }
    }
  }

  /** Every collected URL contains the episode path and is not the listing root. */
  lemma AllEpisodesWellFormed(n: nat, linksOn: string -> seq<Option<string>>, u: string)
    requires u in AllEpisodes(n, linksOn)
    ensures Contains(u, EPISODE_PATH)
    ensures RStripChar(u, '/') != RStripChar(STARTING_URL, '/')
  {
    AllEpisodesMembership(n, linksOn, u);
    var p :| 1 <= p <= n && u in EpisodesOn(linksOn(PageUrl(p)));
    var links := linksOn(PageUrl(p));
    EpisodesOnMembership(links, u);
    var k :| 0 <= k < |links| && EpisodeUrl(links[k]) == Some(u);
    EpisodeUrlShape(links[k]);
  }

  /** A page listed twice, or two pages with the same links, add each URL once. */
  lemma RepeatedLinksCollapse(hrefs: seq<Option<string>>)
    ensures EpisodesOn(hrefs + hrefs) == EpisodesOn(hrefs)
  {
    GatheredAppend(hrefs, hrefs, EpisodeUrl);
  }

  // ------------------ slugs ------------------

  /** `s.split("/")[-1]`: what follows the last `/`, or all of `s` when it has none. */
  function LastSegment(s: string): string {
    if s == [] || s[|s| - 1] == '/' then []
    else LastSegment(s[..|s| - 1]) + [s[|s| - 1]]
  }

  /** The last segment is the `/`-free tail of `s` that follows its last `/`. */
  lemma {:induction false} LastSegmentShape(s: string)
    ensures var r := LastSegment(s);
      && '/' !in r
      && |r| <= |s| && r == s[|s| - |r|..]
      && (|r| < |s| ==> s[|s| - |r| - 1] == '/')
    decreases |s|
  {
    if s != [] && s[|s| - 1] != '/' {
      var init := s[..|s| - 1];
      LastSegmentShape(init);
      var r' := LastSegment(init);
      assert init[|init| - |r'|..] + [s[|s| - 1]] == s[|s| - |r'| - 1..];
    }
  }

  /** `s.split("?")[0]`: what comes before the first `?`, or all of `s` when it has none. */
  function BeforeQuery(s: string): string {
    if s == [] || s[0] == '?' then []
    else [s[0]] + BeforeQuery(s[1..])
  }

  /** The part before the query is the `?`-free head of `s` that ends at its first `?`. */
  lemma {:induction false} BeforeQueryShape(s: string)
    ensures var r := BeforeQuery(s);
      && '?' !in r
      && |r| <= |s| && r == s[..|r|]
      && (|r| < |s| ==> s[|r|] == '?')
    decreases |s|
  {
    if s != [] && s[0] != '?' {
      BeforeQueryShape(s[1..]);
      var r' := BeforeQuery(s[1..]);
      assert [s[0]] + s[1..][..|r'|] == s[..|r'| + 1];
    }
  }

  /** The file-name stem of an episode: last path segment, trailing slashes and query cut off. */
  function Slug(url: string): string {
    BeforeQuery(LastSegment(RStripChar(url, '/')))
  }

  /** A slug never holds a `/` or a `?`, so it names a file directly inside the output directory. */
  lemma SlugShape(url: string)
    ensures '/' !in Slug(url) && '?' !in Slug(url)
  {
    var seg := LastSegment(RStripChar(url, '/'));
    LastSegmentShape(RStripChar(url, '/'));
    BeforeQueryShape(seg);
    var slug := Slug(url);
    assert forall k :: 0 <= k < |slug| ==> slug[k] == seg[k];
  }

  /** The last segment of `a + "/" + b` is `b` when `b` has no `/`. */
  lemma {:induction false} LastSegmentAfterSlash(a: string, b: string)
    requires '/' !in b
    ensures LastSegment(a + "/" + b) == b
    decreases |b|
  {
    if b != [] {
      var b' := b[..|b| - 1];
      assert (a + "/" + b)[..|a + "/" + b| - 1] == a + "/" + b';
      assert '/' !in b' by {
        assert forall k :: 0 <= k < |b'| ==> b'[k] == b[k];
      }
      LastSegmentAfterSlash(a, b');
      assert b' + [b[|b| - 1]] == b;
    }
  }

  /** A string with no `?` is all before the query. */
  lemma {:induction false} BeforeQueryWithoutQuery(s: string)
    requires '?' !in s
    ensures BeforeQuery(s) == s
    decreases |s|
  {
    if s != [] {
      assert '?' !in s[1..] by {
        assert forall k :: 0 <= k < |s| - 1 ==> s[1..][k] == s[k + 1];
      }
      BeforeQueryWithoutQuery(s[1..]);
    }
  }

  /** For an episode page URL, with or without a trailing slash, the slug is the episode's name. */
  lemma SlugOfEpisode(name: string, trailing: bool)
    requires name != [] && '/' !in name && '?' !in name
    ensures Slug(STARTING_URL + "/" + name + (if trailing then "/" else "")) == name
  {
    var url := STARTING_URL + "/" + name + (if trailing then "/" else "");
    var stripped := STARTING_URL + "/" + name;
    assert stripped[|stripped| - 1] == name[|name| - 1] != '/';
    assert RStripChar(url, '/') == stripped by {
      if trailing {
        assert url[..|url| - 1] == stripped;
      } else {
        assert url == stripped;
      }
    }
    LastSegmentAfterSlash(STARTING_URL, name);
    BeforeQueryWithoutQuery(name);
  }

  // ------------------ one episode ------------------

  /**
   * What an episode page shows: the text of the transcript container when
   * one appears (after the transcript tab, if any, was clicked), and the
   * text of the page body (None when reading it fails).
   */
  datatype EpisodePage = EpisodePage(transcript: Option<string>, body: Option<string>)

  datatype Outcome =
    | AlreadySaved             // the file exists: no fetch, no write
    | ShortTranscript          // a transcript under MIN_TEXT characters
    | PremiumOnly              // no transcript, and the page says it is for subscribers
    | ShortTeaser              // no transcript, and the page text is too short
    | Failed                   // the page could not be read
    | SavedTranscript(text: string)
    | SavedPageText(text: string)
  {
    predicate Saved() {
      SavedTranscript? || SavedPageText?
    }
  }

  /**
   * The decision for one episode, given whether its file already exists and
   * what its page shows.
   */
  function Decide(fileExists: bool, page: EpisodePage): Outcome {
    if fileExists then AlreadySaved
    else if page.transcript.Some? then
      var text := Strip(page.transcript.value);
      if |text| < MIN_TEXT then ShortTranscript else SavedTranscript(text)
    else if page.body.None? then Failed
    else
      var pageText := page.body.value;
      if Contains(Lower(pageText), PREMIUM_MARK) then PremiumOnly
      else if |pageText| < MIN_TEXT then ShortTeaser
      else SavedPageText(Strip(pageText))
  }

  /**
   * What each outcome means: an existing file stops everything; a transcript,
   * when there is one, is saved stripped if it has 500 characters or more,
   * and the page text is then never looked at; otherwise the page text is
   * saved stripped unless it carries the subscriber notice or is under 500
   * characters before stripping.
   */
  lemma DecideMeaning(fileExists: bool, page: EpisodePage)
    ensures var o := Decide(fileExists, page);
      && (fileExists <==> o == AlreadySaved)
      && (!fileExists && page.transcript.Some? ==> o == ShortTranscript || o.SavedTranscript?)
      && (o == ShortTranscript ==> page.transcript.Some? && |Strip(page.transcript.value)| < MIN_TEXT)
      && (o.SavedTranscript? ==> page.transcript.Some? && o.text == Strip(page.transcript.value))
      && (o.SavedTranscript? ==> |o.text| >= MIN_TEXT)
      && (o == PremiumOnly ==>
            page.transcript.None? && page.body.Some? && Contains(Lower(page.body.value), PREMIUM_MARK))
      && (o == ShortTeaser ==>
            page.transcript.None? && page.body.Some? &&
            !Contains(Lower(page.body.value), PREMIUM_MARK) && |page.body.value| < MIN_TEXT)
      && (o.SavedPageText? ==>
            page.transcript.None? && page.body.Some? &&
            !Contains(Lower(page.body.value), PREMIUM_MARK) && |page.body.value| >= MIN_TEXT &&
            o.text == Strip(page.body.value))
      && (o == Failed <==> !fileExists && page.transcript.None? && page.body.None?)
  {
  }

  /** Trailing whitespace does not change the right-strip. */
  lemma {:induction false} RStripDropsSpaces(x: string, pad: string)
    requires forall k :: 0 <= k < |pad| ==> IsSpace(pad[k])
    ensures RStrip(x + pad) == RStrip(x)
    decreases |pad|
  {
    if pad == [] {
      assert x + pad == x;
    } else {
      assert (x + pad)[..|x + pad| - 1] == x + pad[..|pad| - 1];
      RStripDropsSpaces(x, pad[..|pad| - 1]);
    }
  }

  /**
   * The fallback measures the page text before stripping it: one letter
   * padded with 499 blanks passes the length test and is saved as that one
   * letter, while a transcript is saved only with 500 characters or more.
   */
  lemma FallbackSavesShortText(pad: string)
    requires |pad| == MIN_TEXT - 1 && forall k :: 0 <= k < |pad| ==> pad[k] == ' '
    ensures Decide(false, EpisodePage(None, Some("a" + pad))) == SavedPageText("a")
  {
    var body := "a" + pad;
    assert LeadingSpaces(body) == 0;
    assert LStrip(body) == body;
    RStripDropsSpaces("a", pad);
    assert TrailingSpaces("a") == 0;
    assert RStrip("a") == "a";
    forall j | 0 <= j < |body|
      ensures Lower(body)[j] != PREMIUM_MARK[0]
    {
      assert body[j] == 'a' || body[j] == ' ';
    }
    NotContainsMissing(Lower(body), PREMIUM_MARK, 0);
  }

  // ------------------ the download loop ------------------

  /**
   * The body of the download loop once the file is known to be missing:
   * the transcript if there is one, else the page text, each kept only if
   * it passes its tests.
   */
  method FetchEpisode(page: EpisodePage) returns (outcome: Outcome)
    ensures outcome == Decide(false, page)
  {
    if page.transcript.Some? {
      var text := Strip(page.transcript.value);
      if |text| < MIN_TEXT {
        outcome := ShortTranscript;
      } else {
        outcome := SavedTranscript(text);
      }
    } else if page.body.None? {
      outcome := Failed;
    } else {
      var pageText := page.body.value;
      if Contains(Lower(pageText), PREMIUM_MARK) {
        outcome := PremiumOnly;
      } else if |pageText| < MIN_TEXT {
        outcome := ShortTeaser;
      } else {
        outcome := SavedPageText(Strip(pageText));
      }
    }
  }

  datatype Visit = Visit(url: string, slug: string, outcome: Outcome)

  /** The slugs whose files the visits in `log` wrote. */
  function SavedSlugs(log: seq<Visit>): set<string> {
    if log == [] then {}
    else
      var last := log[|log| - 1];
      SavedSlugs(log[..|log| - 1]) + (if last.outcome.Saved() then {last.slug} else {})
  }

  /** The visits of the URLs in `order`, each decided against the files present at that point. */
  function Visits(order: seq<string>, existing: set<string>, pageOf: string -> EpisodePage): (log: seq<Visit>)
    ensures |log| == |order|
  {
    if order == [] then []
    else
      var prev := Visits(order[..|order| - 1], existing, pageOf);
      var url := order[|order| - 1];
      prev + [Visit(url, Slug(url), Decide(Slug(url) in existing + SavedSlugs(prev), pageOf(url)))]
  }

  /** The download phase: the collected URLs in sorted order, each visited once. */
  method DownloadTranscripts(episodeUrls: set<string>, existing: set<string>, pageOf: string -> EpisodePage)
    returns (order: seq<string>, log: seq<Visit>)
    ensures StrictlySorted(order) && |order| == |episodeUrls|
    ensures forall u :: u in order <==> u in episodeUrls
    ensures log == Visits(order, existing, pageOf)
  {
    order := Sorted(episodeUrls);
    log := VisitEpisodes(order, existing, pageOf);
  }

  /**
   * The `for url in sorted(episode_urls)` loop: each URL whose file exists
   * is passed over without a fetch; a written file counts as existing for
   * the URLs after it.
   */
  method VisitEpisodes(order: seq<string>, existing: set<string>, pageOf: string -> EpisodePage)
    returns (log: seq<Visit>)
    ensures log == Visits(order, existing, pageOf)
  {
    log := [];
    var present := existing;
    for i := 0 to |order|
      invariant log == Visits(order[..i], existing, pageOf)
      invariant present == existing + SavedSlugs(log)
    {
      var url := order[i];
      var slug := Slug(url);
      var outcome: Outcome;
      if slug in present {
        outcome := AlreadySaved;
      } else {
        outcome := FetchEpisode(pageOf(url));
      }
      assert order[..i + 1][..i] == order[..i];
      ghost var prev := log;
      log := log + [Visit(url, slug, outcome)];
      assert log[..|log| - 1] == prev;
      if outcome.Saved() {
        present := present + {slug};
      }
    }
    assert order[..|order|] == order;
  }

  /** One visit per URL, in the given order. */
  lemma {:induction false} VisitsShape(order: seq<string>, existing: set<string>, pageOf: string -> EpisodePage)
    ensures |Visits(order, existing, pageOf)| == |order|
    ensures forall k :: 0 <= k < |order| ==>
              Visits(order, existing, pageOf)[k].url == order[k] && Visits(order, existing, pageOf)[k].slug == Slug(order[k])
  {
    if order != [] {
      var init := order[..|order| - 1];
      var url := order[|order| - 1];
      VisitsShape(init, existing, pageOf);
      var prev := Visits(init, existing, pageOf);
      var log := Visits(order, existing, pageOf);
      assert log == prev + [Visit(url, Slug(url), Decide(Slug(url) in existing + SavedSlugs(prev), pageOf(url)))];
      forall k | 0 <= k < |order|
        ensures log[k].url == order[k] && log[k].slug == Slug(order[k])
      {
        if k < |init| {
          assert log[k] == prev[k] && init[k] == order[k];
        }
      }
    }
  }

  /** The visits of a prefix of the order are a prefix of the visits. */
  lemma {:induction false} VisitsPrefix(order: seq<string>, n: nat, existing: set<string>, pageOf: string -> EpisodePage)
    requires n <= |order|
    ensures Visits(order[..n], existing, pageOf) == Visits(order, existing, pageOf)[..n]
    decreases |order|
  {
    VisitsShape(order, existing, pageOf);
    if n < |order| {
      VisitsPrefix(order[..|order| - 1], n, existing, pageOf);
      assert order[..|order| - 1][..n] == order[..n];
    } else {
      assert order[..n] == order;
    }
  }

  /** A slug is among the saved ones exactly when some visit saved it. */
  lemma {:induction false} SavedSlugsMembership(log: seq<Visit>, slug: string)
    ensures slug in SavedSlugs(log) <==> exists j :: 0 <= j < |log| && log[j].outcome.Saved() && log[j].slug == slug
  {
    if log != [] {
      var init := log[..|log| - 1];
      SavedSlugsMembership(init, slug);
      assert forall j :: 0 <= j < |init| ==> init[j] == log[j];
    }
  }

  /** Visit `k` is decided against the files that existed plus those the earlier visits wrote. */
  lemma VisitAt(order: seq<string>, k: nat, existing: set<string>, pageOf: string -> EpisodePage)
    requires k < |order|
    ensures var log := Visits(order, existing, pageOf);
      k < |log| &&
      log[k] == Visit(order[k], Slug(order[k]),
                      Decide(Slug(order[k]) in existing + SavedSlugs(log[..k]), pageOf(order[k])))
  {
    VisitsPrefix(order, k + 1, existing, pageOf);
    VisitsPrefix(order, k, existing, pageOf);
    assert order[..k + 1][..k] == order[..k];
  }

  /**
   * No file is written over: a saved visit's slug had no file before the
   * run, and no earlier visit saved it.
   */
  lemma NeverOverwrites(order: seq<string>, k: nat, existing: set<string>, pageOf: string -> EpisodePage)
    requires k < |Visits(order, existing, pageOf)|
    requires Visits(order, existing, pageOf)[k].outcome.Saved()
    ensures var log := Visits(order, existing, pageOf);
      && log[k].slug !in existing
      && forall j :: 0 <= j < k ==> !(log[j].outcome.Saved() && log[j].slug == log[k].slug)
  {
    var log := Visits(order, existing, pageOf);
    VisitsShape(order, existing, pageOf);
    VisitAt(order, k, existing, pageOf);
    SavedSlugsMembership(log[..k], log[k].slug);
    assert forall j :: 0 <= j < k ==> log[..k][j] == log[j];
  }

  /** An episode whose file existed before the run is never fetched or written. */
  lemma ExistingFileSkipped(order: seq<string>, k: nat, existing: set<string>, pageOf: string -> EpisodePage)
    requires k < |order| && Slug(order[k]) in existing
    ensures k < |Visits(order, existing, pageOf)|
    ensures Visits(order, existing, pageOf)[k].outcome == AlreadySaved
  {
    VisitAt(order, k, existing, pageOf);
  }

  /** Of two URLs with the same slug, the later one is skipped once the earlier one was saved. */
  lemma SlugClashSkipsLater(order: seq<string>, j: nat, k: nat, existing: set<string>, pageOf: string -> EpisodePage)
    requires j < k < |order| && Slug(order[j]) == Slug(order[k])
    requires Visits(order, existing, pageOf)[j].outcome.Saved()
    ensures Visits(order, existing, pageOf)[k].outcome == AlreadySaved
  {
    var log := Visits(order, existing, pageOf);
    VisitsShape(order, existing, pageOf);
    VisitAt(order, k, existing, pageOf);
    assert log[..k][j] == log[j];
    SavedSlugsMembership(log[..k], Slug(order[k]));
  }

  // ------------------ the whole script ------------------

  /**
   * The script end to end: count the pages from the first page's numbered
   * links, collect the episode URLs, then visit them in sorted order. Every
   * visited URL is an episode link, visited once. The page count is the
   * largest all-digit link text, or 1.
   */
  method Run(pageLinkTexts: seq<string>, linksOn: string -> seq<Option<string>>,
             existing: set<string>, pageOf: string -> EpisodePage)
    returns (maxPage: nat, order: seq<string>, log: seq<Visit>)
    ensures maxPage >= 1
    ensures forall k :: 0 <= k < |pageLinkTexts| && IsDigits(Strip(pageLinkTexts[k])) ==>
              DigitsValue(Strip(pageLinkTexts[k])) <= maxPage
    ensures maxPage == 1 || (exists k :: 0 <= k < |pageLinkTexts| && IsDigits(Strip(pageLinkTexts[k])) &&
                               DigitsValue(Strip(pageLinkTexts[k])) == maxPage)
    ensures StrictlySorted(order)
    ensures forall u :: u in order <==> u in AllEpisodes(maxPage, linksOn)
    ensures log == Visits(order, existing, pageOf) && |log| == |order|
    ensures forall k :: 0 <= k < |log| ==>
              log[k].url == order[k] && Contains(log[k].url, EPISODE_PATH) &&
              RStripChar(log[k].url, '/') != RStripChar(STARTING_URL, '/')
  {
    maxPage := DetectMaxPage(pageLinkTexts);
    var episodeUrls, visited := CollectEpisodeUrls(maxPage, linksOn);
    order, log := DownloadTranscripts(episodeUrls, existing, pageOf);
    VisitsShape(order, existing, pageOf);
    forall k | 0 <= k < |log|
      ensures Contains(log[k].url, EPISODE_PATH) && RStripChar(log[k].url, '/') != RStripChar(STARTING_URL, '/')
    {
      AllEpisodesWellFormed(maxPage, linksOn, order[k]);
    }
  }
}
