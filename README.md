# Huberman scrapers: a verified model of their bookkeeping

The repository has three Python scripts that drive a browser:

- `huberman_clean_text.py` collects the topic pages of hubermanlab.com. It walks each topic's resources container into resource records, and for each resource with a link it downloads a clean text file.
- `huberman_references.py` makes the same topic collection and the same walk. Its walk also meets `p` elements, and it writes no text files.
- `huberman_scraper.py` counts the listing pages of the podcast on podscripts.co and collects the episode URLs into a set. It then visits the episodes in sorted order and decides for each one whether a transcript file is written.

This project models the deterministic logic inside those scripts. Everything the browser, the HTML parser or the file system would answer is a parameter:

- the cards a topics page shows;
- the element sequence `find_all` returns;
- a function from a listing-page URL to the hrefs of its episode anchors;
- a function from an episode URL to what its page shows;
- a predicate telling whether a clean-text download succeeded;
- the set of slugs whose output file already exists.

Files and modules:

- `wrappers.dfy` (`Wrappers`): the `Option` type.
- `text.dfy` (`Text`): the Python `str` operations the scripts use: `strip`, `rstrip(c)`, `startswith`, `in`, `lower`, `isdigit`/`int`, `str(n)`, `isalnum`, and the scripts' URL absolutisation.
- `string_order.dfy` (`StringOrder`): Python's string order, and `sorted()` over a set of strings.
- `topic_links.dfy` (`TopicLinks`): `collect_topic_links`, which is the same code in both topic scripts.
- `resource_walk.dfy` (`ResourceWalk`): `scrape_resources`, the section-tagging walk, shared by both topic scripts.
- `clean_text.dfy` (`CleanText`): the file-name sanitiser, the `clean_text_file` rule and `main` of the clean-text script.
- `references.dfy` (`References`): `main` of the references script.
- `scraper.dfy` (`Scraper`): the transcript downloader from end to end.

How the source's loops are modelled:

- Each loop becomes a method with loop invariants. Examples are the card loop, the element walk, the item loop, the page loop, the link loop and the download loop.
- Most methods are proved equal to a specification function, and lemmas then state what the scripts promise about that function. `Scraper.DetectMaxPage` and `StringOrder.Sorted` instead state their promise directly in their `ensures`: the maximum, and a strictly increasing sequence with the same elements as the set.
- The scripts' dictionaries become datatypes. A resource of the references script is a `Resource` with exactly five fields. The clean-text script pairs each `Resource` with its `clean_text_file`.

## Model

| member | source | states |
|---|---|---|
| TopicLinks.TopicOfShape | huberman_clean_text.py:28-36 | A card is kept exactly when its href and its stripped `h3` text are both non-empty. A card without `h3` is titled "Untitled". The URL is the href when it starts with "http", else the domain followed by the href. A kept topic has a non-empty title and a URL that starts with "http". |
| TopicLinks.Kept | huberman_clean_text.py:25-40 | No more topics are kept than there are cards. |
| TopicLinks.CollectTopicLinks | huberman_clean_text.py:19-43 | The card loop returns exactly the topics the cards yield, in card order. |
| TopicLinks.KeptTopicAt | huberman_clean_text.py:27-40 | Every card that yields a topic contributes that topic, right after the topics of the cards before it. Nothing is lost and the order is kept. |
| TopicLinks.KeptTopicSource | huberman_references.py:24-37 | Every kept topic comes from a card that yields it, with as many topics before it as that card's predecessors yield. Nothing is invented. |
| TopicLinks.KeptTopicsWellFormed | huberman_references.py:32-33 | Every collected topic has a non-empty title and a URL that starts with "http". |
| ResourceWalk.ScrapeResources | huberman_clean_text.py:46-88 | No resources container gives no records. Otherwise the result is the walk over the container's elements, starting with no section. |
| ResourceWalk.ListResources | huberman_clean_text.py:64-85 | The item loop builds one record per item, in item order. Each record starts with the section and the item text, then takes the anchor's text and href and the emphasis text where they exist. |
| ResourceWalk.ItemResourcesAt | huberman_references.py:60-80 | Record `k` of a list is the record of item `k`. |
| ResourceWalk.WalkSnoc | huberman_references.py:55-80 | One more element appends exactly what it emits under the section reached so far. Only a heading moves the section. |
| ResourceWalk.WalkLength | huberman_clean_text.py:59-85 | The number of records equals the number of list items. Headings produce none. |
| ResourceWalk.WalkAt | huberman_references.py:53-80 | Item `j` of the list at position `i` becomes record number (items before that list) + `j`. That record is tagged with the section current at the list. |
| ResourceWalk.RecordOfItem | huberman_clean_text.py:69-83 | In a page's records, an item's record carries the current section and the item's text. Title and url come from its anchor, and both are None without one. Source info is present exactly when the item has an `em`, and is its text. |
| ResourceWalk.SectionAt | huberman_clean_text.py:57-61 | The section current at a position is the text of the last `h4` before it, or None when no `h4` comes before it. |
| ResourceWalk.ParaIgnored | huberman_references.py:55-59 | A `p` element anywhere in the sequence neither adds a record nor changes the current section. |
| CleanText.SafeTitle | huberman_clean_text.py:138 | The stem has length min(\|title\|, 80), and each of its characters is a letter, a digit or `_`. |
| CleanText.SafeTitleAt | huberman_clean_text.py:138 | Character `k` of the stem is character `k` of the title when that is alphanumeric, and `_` otherwise. |
| CleanText.SafeTitleIdempotent | huberman_clean_text.py:138 | Sanitising a stem again changes nothing. |
| CleanText.SafeTitleCollides | huberman_clean_text.py:138 | Two different titles can share a stem, and so a text file. |
| CleanText.CleanTextFile | huberman_clean_text.py:134-144 | A resource gets a text file exactly when its url and title are both non-empty and the download succeeded. The file is `huberman_resources/resource_texts/<stem>.txt`. |
| CleanText.AttachCleanText | huberman_clean_text.py:134-144 | Every resource keeps all of its fields, and its `clean_text_file` follows the rule above. Unwanted resources keep None. |
| CleanText.Run | huberman_clean_text.py:120-150 | One record per collected topic, in topic order. Each holds the topic's title and url and its resources with their text files. |
| References.Run | huberman_references.py:85-102 | One record per collected topic, in topic order. Each holds the topic's title and url and the records of its page, with no `clean_text_file`. |
| Text.Strip | huberman_scraper.py:47 | The strip is no longer than the input and neither starts nor ends with whitespace. |
| Text.StripShape | huberman_scraper.py:47 | The strip is the slice of the input that starts right after its leading whitespace (`LeadingSpaces` characters), and only whitespace stands before and after that slice: `strip()` removes the surrounding whitespace and nothing else. |
| Text.Decimal | huberman_scraper.py:58 | `str(n)` is the decimal digits of n, with no leading zero (it starts with '0' exactly when n is 0), and `int` reads it back as `n`. |
| Text.DecimalOfDigits | huberman_scraper.py:58 | The other round trip: every digit string without a leading zero is `str` of its value, so `str` prints each number in exactly one way. |
| Text.RStripChar | huberman_scraper.py:84 | `rstrip("/")` drops only trailing slashes: the result is a prefix of the input, everything cut off is "/", and the result does not end in "/". |
| Text.Lower | huberman_scraper.py:128 | `lower()` keeps the length and maps each character to its lower-case form (ASCII letters lowered, every other character kept). |
| Text.ContainsAt | huberman_scraper.py:128 | When `p in s` holds, `p` sits in `s` at a returned index. |
| Text.OccurrenceContained | huberman_scraper.py:128 | When `p` sits in `s` at any index, `p in s` holds. |
| Text.ContainsIff | huberman_scraper.py:75 | `p in s` holds exactly when `p` sits in `s` at some index. |
| Text.DecimalInjective | huberman_scraper.py:58 | Different numbers print differently. |
| Text.AbsoluteShape | huberman_clean_text.py:36 | With an http base, the absolutised URL starts with "http" and ends with the href. |
| Scraper.DetectMaxPage | huberman_scraper.py:45-49 | The page count is at least 1 and no smaller than any all-digit stripped link text. It is 1 or the value of one of those texts. |
| Scraper.PageUrlNumber | huberman_scraper.py:58 | Page 1 is the starting URL. Page n > 1 is the starting URL, `?page=` and the decimal digits of n, with no leading zero. |
| Scraper.PageUrlInjective | huberman_scraper.py:58 | Different pages are loaded from different URLs. |
| Scraper.PageUrlsAt | huberman_scraper.py:57-58 | The `k`-th page loaded is page `k + 1`, so pages are loaded in increasing order with none skipped. |
| Scraper.AddPageEpisodes | huberman_scraper.py:70-77 | The link loop adds to the set exactly the accepted URLs of the page. |
| Scraper.CollectEpisodeUrls | huberman_scraper.py:55-77 | The collected set is the union of the accepted URLs of pages 1..max_page, and the pages loaded are pages 1..max_page in order. |
| Scraper.EpisodeUrlShape | huberman_scraper.py:75-76 | The corrected form of the href test at these lines (see Findings); the script itself compares the raw href with the root. A link is accepted exactly when its href is non-empty, contains `/podcasts/huberman-lab/` and, once made absolute, is not the listing root. The accepted URL is the absolute one, contains the episode path and is not the root. |
| Scraper.EpisodeUrlAgreesOnAbsolute | huberman_scraper.py:75-76 | On an href starting with "http", the corrected test and the as-written test agree. |
| Scraper.RelativeRootPassesRawCheck | huberman_scraper.py:75-76 | The as-written test lets the relative href `/podcasts/huberman-lab/` through, and it becomes the listing root. |
| Scraper.EpisodesOnMembership | huberman_scraper.py:70-77 | A URL is collected from a page exactly when one of the page's links yields it. |
| Scraper.AllEpisodesMembership | huberman_scraper.py:55-77 | A URL is collected overall exactly when some page 1..n yields it. |
| Scraper.AllEpisodesWellFormed | huberman_scraper.py:75-77 | Every collected URL contains the episode path and is not the listing root after trailing slashes are removed. |
| Scraper.RepeatedLinksCollapse | huberman_scraper.py:55-77 | Links repeated on a page add each URL once. Across pages, a URL that several pages list is one member of the set (`Scraper.AllEpisodesMembership`), and the sorted visit order holds each collected URL exactly once (`Scraper.DownloadTranscripts`). |
| Scraper.LastSegmentShape | huberman_scraper.py:84 | `split("/")[-1]` is the `/`-free tail that follows the last `/`. |
| Scraper.BeforeQueryShape | huberman_scraper.py:84 | `split("?")[0]` is the `?`-free head that ends at the first `?`. |
| Scraper.SlugShape | huberman_scraper.py:84-85 | A slug contains no `/` and no `?`. |
| Scraper.SlugOfEpisode | huberman_scraper.py:84 | For an episode URL, with or without a trailing slash, the slug is the episode's name. |
| Scraper.DecideMeaning | huberman_scraper.py:87-137 | An existing file means no fetch. A transcript, when present, is saved stripped if it has 500 characters or more, and the fallback is never reached. Otherwise the page text is saved stripped unless it carries the subscriber notice or is shorter than 500 characters before stripping. An unreadable page is skipped. |
| Scraper.FetchEpisode | huberman_scraper.py:90-137 | The body of the download loop, once the file is known to be missing, reaches the decision above. |
| Scraper.FallbackSavesShortText | huberman_scraper.py:132-136 | The fallback measures the text before stripping it, so one letter padded with 499 blanks is saved as a one-letter file. |
| Scraper.DownloadTranscripts | huberman_scraper.py:83 | The episodes are visited in strictly increasing URL order, each collected URL exactly once. |
| Scraper.VisitEpisodes | huberman_scraper.py:83-137 | The loop visits each URL in order and decides it against the files present at that moment. |
| Scraper.VisitsShape | huberman_scraper.py:83-84 | There is one visit per URL, in order, carrying the URL and its slug. |
| Scraper.VisitAt | huberman_scraper.py:83-88 | Visit `k` is decided against the files that existed plus the files the earlier visits wrote. |
| Scraper.NeverOverwrites | huberman_scraper.py:85-88 | A saved visit's file did not exist before the run and was not written by an earlier visit. |
| Scraper.ExistingFileSkipped | huberman_scraper.py:87-88 | An episode whose file existed before the run is never fetched or written. |
| Scraper.SlugClashSkipsLater | huberman_scraper.py:84-88 | Of two URLs with the same slug, the later one is skipped once the earlier one was saved. |
| Scraper.Run | huberman_scraper.py:45-137 | From end to end: the page count is the largest value among the all-digit stripped link texts, or 1 when none is larger, and the visit order is sorted and holds exactly the collected URLs. Every visited URL contains the episode path and is not the listing root. |
| StringOrder.Sorted | huberman_scraper.py:83 | `sorted()` of a set yields every element once, in strictly increasing order. |
| StringOrder.SortedUnique | huberman_scraper.py:83 | Only one strictly increasing sequence has a given set of elements, so the visit order is determined. |

Notes on where the model follows the code:

- The fallback tests the length of the page text before stripping it (huberman_scraper.py:132), and then writes the stripped text. `Scraper.FallbackSavesShortText` shows the effect.
- A second URL with the same slug finds its file present and is skipped once the earlier one was saved (huberman_scraper.py:87-88). It does not overwrite the first file. See `Scraper.SlugClashSkipsLater`.

## Left out

- Browser and timing: Selenium's loads, waits, clicks and `time.sleep`. Their results are parameters. The pages are modelled as fixed functions of the URL, so a page that changes between two loads is not modelled.
- Uncaught browser errors: a `driver.get` or wait that raises outside a `try` stops the script, including the listing-page wait at huberman_scraper.py:36-40 and :62-66. The model assumes those calls succeed. Inside the per-episode `try`, a failure to read the page body is the `Failed` outcome.
- HTML parsing: BeautifulSoup and `find_all`. The element sequence is given flat, in document order. A `ul` nested in an `li` is not expanded, and neither are the descendant `li` items `find_all("li")` would also return.
- Readability and text extraction in `download_clean_text_with_selenium`: only its success or failure is modelled, as the `fetched` predicate.
- The file system: directory creation, text-file writes, `json.dump`, and the final count of saved transcripts. The write decision is returned as an `Outcome`. The directory's contents are the `existing` set of slugs.
- Console output from `print`.
- Unicode: `isalnum`, `isdigit` and `lower` cover ASCII only. `strip` uses Python's whitespace set.
- CleanText.SafeTitle: does not model Unicode letters and digits, which Python's `isalnum` keeps and the model turns into `_`.
- Scraper.AddPageEpisodes, Scraper.CollectEpisodeUrls, Scraper.Run: these use the corrected href test of the Findings table, not the script's raw test at huberman_scraper.py:75. On the relative href `/podcasts/huberman-lab/` the script adds `https://podscripts.co/podcasts/huberman-lab/` to the set and the model adds nothing. `Scraper.EpisodeUrlAgreesOnAbsolute` shows the two tests agree on every href that starts with "http", which is what a browser reports for `get_attribute("href")`.
- Scraper.DetectMaxPage: does not model non-ASCII digits, which Python's `isdigit` accepts.
- Text.Lower: lowers ASCII letters only. Python's `lower` also lowers other letters, and a few of them become ASCII (the Kelvin sign becomes `k`, dotted capital I becomes `i` plus a combining dot). So a page that spells the subscriber notice with such letters is matched by the script and not by the model.

## Findings

| source | as written | input that shows it | evidently intended | confidence | as-written member | corrected member |
|---|---|---|---|---|---|---|
| huberman_scraper.py:75-76 | The listing root is excluded by comparing the raw href with `STARTING_URL`, before the href is made absolute. | The relative href `/podcasts/huberman-lab/` passes the test and becomes `https://podscripts.co/podcasts/huberman-lab/`, the listing root. | Compare the absolute URL with the root. | low, not executed: Selenium usually reports absolute hrefs | Scraper.EpisodeUrlRawCheck, Scraper.RelativeRootPassesRawCheck | Scraper.EpisodeUrl, Scraper.EpisodeUrlShape |
