/**
 * What the clean-text script adds to the walk: the file-name sanitiser, the
 * rule that fills each resource's `clean_text_file`, and `main`'s assembly
 * of one record per topic.
 *
 * The browser is a parameter: `pageOf(url)` is the resources container of
 * the topic page at `url` (None when the page has none), and
 * `fetched(url)` says whether loading `url`, extracting its readable text
 * and writing the text file succeeded.
 */
module CleanText {
  import opened Wrappers
  import opened Text
  import opened TopicLinks
  import opened ResourceWalk

  const OUTDIR := "huberman_resources"
  const TEXT_DIR := OUTDIR + "/resource_texts"
  const MAX_TITLE := 80

  function SafeChar(c: char): char {
    if IsAlnum(c) then c else '_'
  }

  /**
   * The file-name stem made from a resource title: every character that is
   * not a letter or digit becomes `_`, then the first 80 characters are kept.
   */
  function SafeTitle(title: string): (r: string)
    ensures |r| == if |title| < MAX_TITLE then |title| else MAX_TITLE
    ensures forall k :: 0 <= k < |r| ==> IsAlnum(r[k]) || r[k] == '_'
  {
    var mapped := seq(|title|, k requires 0 <= k < |title| => SafeChar(title[k]));
    if |mapped| <= MAX_TITLE then mapped else mapped[..MAX_TITLE]
  }

  /** Character `k` of the stem is character `k` of the title, or `_` in its place. */
  lemma SafeTitleAt(title: string, k: nat)
    requires k < |SafeTitle(title)|
    ensures k < |title|
    ensures IsAlnum(title[k]) ==> SafeTitle(title)[k] == title[k]
    ensures !IsAlnum(title[k]) ==> SafeTitle(title)[k] == '_'
  {
  }

  /** Sanitising a stem again changes nothing. */
  lemma SafeTitleIdempotent(title: string)
    ensures SafeTitle(SafeTitle(title)) == SafeTitle(title)
  {
    var once := SafeTitle(title);
    var twice := SafeTitle(once);
    forall k | 0 <= k < |once|
      ensures twice[k] == once[k]
    {
      SafeTitleAt(once, k);
    }
  }

  /** Two different titles can share a stem, and so a text file. */
  lemma SafeTitleCollides()
    ensures SafeTitle("Sleep & Focus") == SafeTitle("Sleep - Focus")
  {
    assert SafeTitle("Sleep & Focus") == "Sleep___Focus";
    assert SafeTitle("Sleep - Focus") == "Sleep___Focus";
  }

  /** `os.path.join(OUTDIR, "resource_texts", stem + ".txt")`. */
  function TextFilePath(stem: string): string {
    TEXT_DIR + "/" + stem + ".txt"
  }

  /** `main` asks for clean text only for a resource whose url and title are both non-empty. */
  predicate Wanted(r: Resource) {
    r.url.Some? && r.url.value != "" && r.title.Some? && r.title.value != ""
  }

  /** The `clean_text_file` a resource ends up with. */
  function CleanTextFile(r: Resource, fetched: string -> bool): (f: Option<string>)
    ensures f.Some? <==> Wanted(r) && fetched(r.url.value)
    ensures f.Some? ==> var stem := SafeTitle(r.title.value);
      0 < |stem| <= MAX_TITLE && f.value == TEXT_DIR + "/" + stem + ".txt"
  {
    if Wanted(r) && fetched(r.url.value) then Some(TextFilePath(SafeTitle(r.title.value))) else None
  }

  /** The record `main` writes for one resource. */
  datatype Entry = Entry(resource: Resource, cleanTextFile: Option<string>)

  /** The record `main` writes for one topic. */
  datatype TopicRecord = TopicRecord(topicTitle: string, topicUrl: string, resources: seq<Entry>)

  /**
   * `main`'s inner loop: every resource starts with no `clean_text_file`
   * (as `scrape_resources` made it); the wanted ones get the outcome of the
   * download; nothing else about a resource changes.
   */
  method AttachCleanText(resources: seq<Resource>, fetched: string -> bool) returns (entries: seq<Entry>)
    ensures |entries| == |resources|
    ensures forall k :: 0 <= k < |resources| ==> entries[k].resource == resources[k]
    ensures forall k :: 0 <= k < |resources| ==> entries[k].cleanTextFile == CleanTextFile(resources[k], fetched)
  {
    entries := seq(|resources|, k requires 0 <= k < |resources| => Entry(resources[k], None));
    var j := 0;
    while j < |entries|
      invariant 0 <= j <= |entries| == |resources|
      invariant forall k :: 0 <= k < |resources| ==> entries[k].resource == resources[k]
      invariant forall k :: 0 <= k < j ==> entries[k].cleanTextFile == CleanTextFile(resources[k], fetched)
      invariant forall k :: j <= k < |resources| ==> entries[k].cleanTextFile == None
    {
      var r := entries[j].resource;
      if r.url.Some? && r.url.value != "" && r.title.Some? && r.title.value != "" {
        var stem := SafeTitle(r.title.value);
        var textFile := if fetched(r.url.value) then Some(TextFilePath(stem)) else None;
        entries := entries[j := entries[j].(cleanTextFile := textFile)];
      }
      j := j + 1;
    }
  }

  /** The record for one topic: its title, its url and its resources with their text files. */
  function RecordFor(topic: Topic, pageOf: string -> Option<seq<Element>>, fetched: string -> bool): TopicRecord {
    var resources := PageResources(pageOf(topic.url));
    TopicRecord(topic.title, topic.url,
      seq(|resources|, k requires 0 <= k < |resources| => Entry(resources[k], CleanTextFile(resources[k], fetched))))
  }

  /** `main`: collect the topics, then one record per topic, in topic order. */
  method Run(cards: seq<Card>, pageOf: string -> Option<seq<Element>>, fetched: string -> bool)
    returns (allData: seq<TopicRecord>)
    ensures |allData| == |KeptTopics(cards)|
    ensures forall i :: 0 <= i < |allData| ==> allData[i] == RecordFor(KeptTopics(cards)[i], pageOf, fetched)
  {
    var topics := CollectTopicLinks(cards);
    allData := [];
    var i := 0;
    while i < |topics|
      invariant 0 <= i <= |topics|
      invariant |allData| == i
      invariant forall n :: 0 <= n < i ==> allData[n] == RecordFor(topics[n], pageOf, fetched)
    {
      var topic := topics[i];
      var resources := ScrapeResources(pageOf(topic.url));
      var entries := AttachCleanText(resources, fetched);
      allData := allData + [TopicRecord(topic.title, topic.url, entries)];
      assert allData[i] == RecordFor(topic, pageOf, fetched);
      i := i + 1;
    }
  }
}
