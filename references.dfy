/**
 * `main` of the references script: collect the topics, walk each topic's
 * resources container (headings, lists and paragraphs), and keep one record
 * per topic. Its resource records have exactly the five keys of
 * `ResourceWalk.Resource`; there is no clean-text step.
 *
 * `pageOf(url)` is the resources container of the topic page at `url`
 * (None when the page has none).
 */
module References {
  import opened Wrappers
  import opened TopicLinks
  import opened ResourceWalk

  datatype TopicRecord = TopicRecord(topicTitle: string, topicUrl: string, resources: seq<Resource>)

  method Run(cards: seq<Card>, pageOf: string -> Option<seq<Element>>) returns (allData: seq<TopicRecord>)
    ensures |allData| == |KeptTopics(cards)|
    ensures forall i :: 0 <= i < |allData| ==>
              var topic := KeptTopics(cards)[i];
              allData[i] == TopicRecord(topic.title, topic.url, PageResources(pageOf(topic.url)))
  {
    var topics := CollectTopicLinks(cards);
    allData := [];
    var i := 0;
    while i < |topics|
      invariant 0 <= i <= |topics|
      invariant |allData| == i
      invariant forall n :: 0 <= n < i ==>
                  allData[n] == TopicRecord(topics[n].title, topics[n].url, PageResources(pageOf(topics[n].url)))
    {
      var topic := topics[i];
      var resources := ScrapeResources(pageOf(topic.url));
      allData := allData + [TopicRecord(topic.title, topic.url, resources)];
      i := i + 1;
    }
  }
}
