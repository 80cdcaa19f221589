/**
 * `collect_topic_links`, the same loop in both topic scripts: every topic
 * card on the topics page becomes a topic (title, absolute URL) unless its
 * href or its title is empty.
 *
 * The browser's answer is taken as given: one `Card` per `a.topic-card`
 * element, in page order, with its `href` attribute (None when absent) and
 * the raw text of its `h3` (None when the card has no `h3`).
 */
module TopicLinks {
  import opened Wrappers
  import opened Text

  const BASE_DOMAIN := "https://www.hubermanlab.com"
  const UNTITLED := "Untitled"

  datatype Card = Card(href: Option<string>, heading: Option<string>)

  datatype Topic = Topic(title: string, url: string)

  /** The title the loop reads off a card: the stripped `h3` text, or "Untitled". */
  function CardTitle(card: Card): string {
    match card.heading
    case Some(text) => Strip(text)
    case None => UNTITLED
  }

  /** The topic a card yields, if it is kept. */
  function TopicOf(card: Card): Option<Topic> {
    var title := CardTitle(card);
    if card.href.Some? && card.href.value != "" && title != "" then
      Some(Topic(title, Absolute(BASE_DOMAIN, card.href.value)))
    else None
  }

  /**
   * A card is kept exactly when its href and its title are non-empty; a card
   * without `h3` is titled "Untitled"; the URL is the href when it starts
   * with "http" and the href appended to the site's domain otherwise.
   */
  lemma TopicOfShape(card: Card)
    ensures var t := TopicOf(card);
      && (t.Some? <==> card.href.Some? && card.href.value != "" && CardTitle(card) != "")
      && (card.heading.None? && card.href.Some? && card.href.value != "" ==>
            t == Some(Topic(UNTITLED, Absolute(BASE_DOMAIN, card.href.value))))
      && (t.Some? ==> StartsWith(t.value.url, "http") && t.value.title != "")
      && (t.Some? && StartsWith(card.href.value, "http") ==> t.value.url == card.href.value)
      && (t.Some? && !StartsWith(card.href.value, "http") ==> t.value.url == BASE_DOMAIN + card.href.value)
  {
    if card.href.Some? {
      AbsoluteShape(BASE_DOMAIN, card.href.value);
    }
  }

  /** The values `f` yields over `xs`, in order, the elements it yields None for dropped. */
  function Kept<T, U>(xs: seq<T>, f: T -> Option<U>): (ys: seq<U>)
    ensures |ys| <= |xs|
  {
    if xs == [] then []
    else
      var y := f(xs[|xs| - 1]);
      Kept(xs[..|xs| - 1], f) + (if y.Some? then [y.value] else [])
  }

  /** The topics kept from a run of cards, in card order. */
  function KeptTopics(cards: seq<Card>): seq<Topic> {
    Kept(cards, TopicOf)
  }

  /** The loop of `collect_topic_links` over the cards the browser found. */
  method CollectTopicLinks(cards: seq<Card>) returns (topics: seq<Topic>)
    ensures topics == KeptTopics(cards)
  {
    topics := [];
    var i := 0;
    while i < |cards|
      invariant 0 <= i <= |cards|
      invariant topics == KeptTopics(cards[..i])
    {
      var card := cards[i];
      var href := card.href;
      var title: string;
      if card.heading.Some? {
        title := Strip(card.heading.value);
      } else {
        title := UNTITLED;
      }
      KeptNext(cards, i, TopicOf);
      if href.Some? && href.value != "" && title != "" {
        var fullUrl := if StartsWith(href.value, "http") then href.value else BASE_DOMAIN + href.value;
        topics := topics + [Topic(title, fullUrl)];
      }
      i := i + 1;
    }
    assert cards[..|cards|] == cards;
  }

  /** Passing one more element keeps what it yields, if anything. */
  lemma KeptNext<T, U>(xs: seq<T>, i: nat, f: T -> Option<U>)
    requires i < |xs|
    ensures Kept(xs[..i + 1], f) == Kept(xs[..i], f) + (if f(xs[i]).Some? then [f(xs[i]).value] else [])
  {
    assert xs[..i + 1][..i] == xs[..i];
  }

  /** Keeping from two runs one after the other. */
  lemma {:induction false} KeptAppend<T, U>(a: seq<T>, b: seq<T>, f: T -> Option<U>)
    ensures Kept(a + b, f) == Kept(a, f) + Kept(b, f)
    decreases |b|
  {
    if b == [] {
      assert a + b == a;
    } else {
      assert (a + b)[..|a + b| - 1] == a + b[..|b| - 1];
      assert (a + b)[|a + b| - 1] == b[|b| - 1];
      KeptAppend(a, b[..|b| - 1], f);
    }
  }

  /**
   * Every element that yields a value contributes it, right after the values
   * of the elements before it: nothing yielded is lost and the order is kept.
   */
  lemma KeptAt<T, U>(xs: seq<T>, i: nat, f: T -> Option<U>)
    requires i < |xs| && f(xs[i]).Some?
    ensures |Kept(xs[..i], f)| < |Kept(xs, f)|
    ensures Kept(xs, f)[|Kept(xs[..i], f)|] == f(xs[i]).value
  {
    var before, rest := xs[..i], xs[i + 1..];
    assert xs == before + [xs[i]] + rest;
    KeptAppend(before + [xs[i]], rest, f);
    KeptAppend(before, [xs[i]], f);
    assert [xs[i]][..0] == [];
  }

  /**
   * Every kept value comes from an element that yields it, with exactly as
   * many values kept before that element as stand before the value.
   */
  lemma {:induction false} KeptSource<T, U>(xs: seq<T>, f: T -> Option<U>, j: nat) returns (i: nat)
    requires j < |Kept(xs, f)|
    ensures i < |xs| && f(xs[i]) == Some(Kept(xs, f)[j])
    ensures |Kept(xs[..i], f)| == j
  {
    var n := |xs| - 1;
    var init := xs[..n];
    if j < |Kept(init, f)| {
      i := KeptSource(init, f, j);
      assert init[..i] == xs[..i];
    } else {
      i := n;
    }
  }

  /**
   * Every card that yields a topic contributes it, right after the topics of
   * the cards before it.
   */
  lemma KeptTopicAt(cards: seq<Card>, i: nat)
    requires i < |cards| && TopicOf(cards[i]).Some?
    ensures |KeptTopics(cards[..i])| < |KeptTopics(cards)|
    ensures KeptTopics(cards)[|KeptTopics(cards[..i])|] == TopicOf(cards[i]).value
  {
    KeptAt(cards, i, TopicOf);
  }

  /**
   * Every kept topic comes from a card that yields it, with exactly as many
   * topics kept before that card as stand before the topic.
   */
  lemma KeptTopicSource(cards: seq<Card>, j: nat) returns (i: nat)
    requires j < |KeptTopics(cards)|
    ensures i < |cards| && TopicOf(cards[i]) == Some(KeptTopics(cards)[j])
    ensures |KeptTopics(cards[..i])| == j
  {
    i := KeptSource(cards, TopicOf, j);
  }

  /** Every kept topic has a non-empty title and a URL that starts with "http". */
  lemma KeptTopicsWellFormed(cards: seq<Card>)
    ensures forall t :: t in KeptTopics(cards) ==> t.title != "" && StartsWith(t.url, "http")
  {
    forall t | t in KeptTopics(cards)
      ensures t.title != "" && StartsWith(t.url, "http")
    {
      var j :| 0 <= j < |KeptTopics(cards)| && KeptTopics(cards)[j] == t;
      var i := KeptTopicSource(cards, j);
      TopicOfShape(cards[i]);
    }
  }
}
