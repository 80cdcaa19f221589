/**
 * `scrape_resources`, the walk both topic scripts make over the resources
 * container of a topic page.
 *
 * The parser's answer is taken as given: the elements `find_all` returns,
 * in document order. A heading (`h4`) carries its stripped text, a list
 * (`ul`) its items (`li`), and `Para` stands for a `p`, which only the
 * references script asks for; the clean-text script's list never holds
 * one, and both walks pass over any element that is neither heading nor
 * list. An item carries its text (joined with spaces, stripped), its first
 * anchor (its stripped text and its `href`, None when the anchor has none)
 * and the stripped text of its first `em`, when it has one.
 */
module ResourceWalk {
  import opened Wrappers

  datatype Anchor = Anchor(text: string, href: Option<string>)

  datatype Item = Item(text: string, link: Option<Anchor>, emphasis: Option<string>)

  datatype Element = Heading(text: string) | List(items: seq<Item>) | Para

  /** The record the walk makes of one list item (the five keys both scripts share). */
  datatype Resource = Resource(
    section: Option<string>,
    title: Option<string>,
    url: Option<string>,
    sourceInfo: Option<string>,
    fullText: string)

  /** The record a list item yields under a given section. */
  function ResourceOf(item: Item, section: Option<string>): Resource
  {
    Resource(
      section,
      if item.link.Some? then Some(item.link.value.text) else None,
      if item.link.Some? then item.link.value.href else None,
      item.emphasis,
      item.text)
  }

  /** The records of a list's items, one per item, in item order. */
  function ItemResources(items: seq<Item>, section: Option<string>): (rs: seq<Resource>)
    ensures |rs| == |items|
  {
    if items == [] then []
    else ItemResources(items[..|items| - 1], section) + [ResourceOf(items[|items| - 1], section)]
  }

  /** Record `k` of a list is item `k`'s record. */
  lemma {:induction false} ItemResourcesAt(items: seq<Item>, section: Option<string>, k: nat)
    requires k < |items|
    ensures ItemResources(items, section)[k] == ResourceOf(items[k], section)
    decreases |items|
  {
    if k < |items| - 1 {
      ItemResourcesAt(items[..|items| - 1], section, k);
    }
  }

  /** How one element moves the running `current_section`: only a heading does. */
  function NextSection(e: Element, section: Option<string>): Option<string> {
    if e.Heading? then Some(e.text) else section
  }

  /** The records one element adds under the current section: only a list adds any. */
  function Emitted(e: Element, section: Option<string>): seq<Resource> {
    if e.List? then ItemResources(e.items, section) else []
  }

  /** The running `current_section` after the walk has passed `es`, starting from `start`. */
  function SectionAfter(es: seq<Element>, start: Option<string>): Option<string> {
    if es == [] then start else SectionAfter(es[1..], NextSection(es[0], start))
  }

  /** The records the walk appends while passing `es`, starting from section `start`. */
  function Walk(es: seq<Element>, start: Option<string>): seq<Resource> {
    if es == [] then [] else Emitted(es[0], start) + Walk(es[1..], NextSection(es[0], start))
  }

  /** The number of list items in `es`. */
  function ItemCount(es: seq<Element>): nat {
    if es == [] then 0 else (if es[0].List? then |es[0].items| else 0) + ItemCount(es[1..])
  }

  /** The records of a topic page: none without a container, else the walk from no section. */
  function PageResources(container: Option<seq<Element>>): seq<Resource> {
    if container.None? then [] else Walk(container.value, None)
  }

  /**
   * `scrape_resources` once the topic page is loaded: no container gives no
   * records; otherwise the walk over its elements, with no section at first.
   */
  method ScrapeResources(container: Option<seq<Element>>) returns (all: seq<Resource>)
    ensures container.None? ==> all == []
    ensures container.Some? ==> all == Walk(container.value, None)
  {
    all := [];
    if container.Some? {
      var es := container.value;
      var current: Option<string> := None;
      var i := 0;
      while i < |es|
        invariant 0 <= i <= |es|
        invariant current == SectionAfter(es[..i], None)
        invariant all == Walk(es[..i], None)
      {
        WalkSnoc(es[..i + 1], None);
        assert es[..i + 1][..i] == es[..i];
        var elem := es[i];
        if elem.Heading? {
          current := Some(elem.text);
        } else if elem.List? {
          var resources := ListResources(elem.items, current);
          all := all + resources;
        }
        i := i + 1;
      }
      assert es[..|es|] == es;
    }
  }

  /** Passing one more element appends what it emits under the section reached so far. */
  lemma {:induction false} WalkSnoc(es: seq<Element>, start: Option<string>)
    requires es != []
    ensures var init, last := es[..|es| - 1], es[|es| - 1];
      && Walk(es, start) == Walk(init, start) + Emitted(last, SectionAfter(init, start))
      && SectionAfter(es, start) == NextSection(last, SectionAfter(init, start))
  {
    var rest, next := es[1..], NextSection(es[0], start);
    if rest == [] {
      assert es[..|es| - 1] == [];
    } else {
      WalkSnoc(rest, next);
      var init := es[..|es| - 1];
      assert rest[..|rest| - 1] == init[1..];
      assert init[0] == es[0];
      Regroup(Emitted(es[0], start), Walk(init[1..], next), Emitted(es[|es| - 1], SectionAfter(init, start)));
    }
  }

  /** Regrouping a three-part concatenation (a hint that spares the solver an extensionality proof). */
  lemma Regroup<T>(a: seq<T>, b: seq<T>, c: seq<T>)
    ensures a + (b + c) == a + b + c
  {
  }

  /**
   * The inner loop of `scrape_resources`, over the items of one list: each
   * record starts with the item text and the current section, then takes
   * the anchor's title and href and the emphasis text when they are there.
   */
  method ListResources(items: seq<Item>, current: Option<string>) returns (rs: seq<Resource>)
    ensures rs == ItemResources(items, current)
  {
    rs := [];
    var j := 0;
    while j < |items|
      invariant 0 <= j <= |items|
      invariant rs == ItemResources(items[..j], current)
    {
      var li := items[j];
      var resource := Resource(current, None, None, None, li.text);
      if li.link.Some? {
        resource := resource.(title := Some(li.link.value.text), url := li.link.value.href);
      }
      if li.emphasis.Some? {
        resource := resource.(sourceInfo := Some(li.emphasis.value));
      }
      rs := rs + [resource];
      assert items[..j + 1][..j] == items[..j];
      j := j + 1;
    }
    assert items[..|items|] == items;
  }

  /** Headings and paragraphs produce nothing: one record per list item. */
  lemma {:induction false} WalkLength(es: seq<Element>, start: Option<string>)
    ensures |Walk(es, start)| == ItemCount(es)
  {
    if es != [] {
      WalkLength(es[1..], NextSection(es[0], start));
    }
  }

  /**
   * Item `j` of the list at position `i` becomes the record right after one
   * record for each list item before that list, tagged with the section
   * current at that list.
   */
  lemma {:induction false} WalkAt(es: seq<Element>, i: nat, j: nat, start: Option<string>)
    requires i < |es| && es[i].List? && j < |es[i].items|
    ensures ItemCount(es[..i]) + j < |Walk(es, start)|
    ensures Walk(es, start)[ItemCount(es[..i]) + j] == ResourceOf(es[i].items[j], SectionAfter(es[..i], start))
  {
    var emitted, next := Emitted(es[0], start), NextSection(es[0], start);
    if i == 0 {
      assert es[..0] == [];
      ItemResourcesAt(es[0].items, start, j);
      PrefixIndex(emitted, Walk(es[1..], next), j);
    } else {
      var rest := es[1..];
      WalkAt(rest, i - 1, j, next);
      PassFirst(es, i, start);
      AppendIndex(emitted, Walk(rest, next), ItemCount(rest[..i - 1]) + j);
    }
  }

  /** Counting the items and following the section over `es[..i]` passes `es[0]` first. */
  lemma PassFirst(es: seq<Element>, i: nat, start: Option<string>)
    requires 0 < i <= |es|
    ensures ItemCount(es[..i]) == (if es[0].List? then |es[0].items| else 0) + ItemCount(es[1..][..i - 1])
    ensures SectionAfter(es[..i], start) == SectionAfter(es[1..][..i - 1], NextSection(es[0], start))
  {
    assert es[..i][1..] == es[1..][..i - 1];
  }

  /**
   * Element `k` of the first part of a concatenation stands where it stood.
   * This and `AppendIndex` are instantiation hints that keep `WalkAt` cheap.
   */
  lemma PrefixIndex<T>(a: seq<T>, b: seq<T>, k: nat)
    requires k < |a|
    ensures k < |a + b| && (a + b)[k] == a[k]
  {
  }

  /** Element `k` of the second part of a concatenation stands `|a|` further on. */
  lemma AppendIndex<T>(a: seq<T>, b: seq<T>, k: nat)
    requires k < |b|
    ensures |a| + k < |a + b| && (a + b)[|a| + k] == b[k]
  {
  }

  /** With no heading in `es`, the section is the one the walk started with. */
  lemma {:induction false} SectionWithoutHeading(es: seq<Element>, start: Option<string>)
    requires forall k :: 0 <= k < |es| ==> !es[k].Heading?
    ensures SectionAfter(es, start) == start
  {
    if es != [] {
      SectionWithoutHeading(es[1..], start);
    }
  }

  /** Otherwise the section is the text of the last heading in `es`. */
  lemma {:induction false} SectionIsLastHeading(es: seq<Element>, h: nat, start: Option<string>)
    requires h < |es| && es[h].Heading?
    requires forall k :: h < k < |es| ==> !es[k].Heading?
    ensures SectionAfter(es, start) == Some(es[h].text)
  {
    if h == 0 {
      SectionWithoutHeading(es[1..], Some(es[0].text));
    } else {
      SectionIsLastHeading(es[1..], h - 1, NextSection(es[0], start));
    }
  }

  /** A `p` element neither adds a record nor moves the section, wherever it stands. */
  lemma {:induction false} ParaIgnored(a: seq<Element>, b: seq<Element>, start: Option<string>)
    ensures Walk(a + [Para] + b, start) == Walk(a + b, start)
    ensures SectionAfter(a + [Para] + b, start) == SectionAfter(a + b, start)
    decreases |a|
  {
    if a == [] {
      assert (a + [Para] + b)[1..] == b && a + b == b;
    } else {
      assert (a + [Para] + b)[1..] == a[1..] + [Para] + b;
      assert (a + b)[1..] == a[1..] + b;
      assert (a + [Para] + b)[0] == (a + b)[0];
      ParaIgnored(a[1..], b, NextSection(a[0], start));
    }
  }

  /**
   * The section current when the walk reaches position `i`: None when no
   * heading comes before it, else the text of the last heading before it.
   */
  lemma SectionAt(es: seq<Element>, i: nat)
    requires i <= |es|
    ensures (forall k :: 0 <= k < i ==> !es[k].Heading?) ==> SectionAfter(es[..i], None) == None
    ensures forall h :: 0 <= h < i && es[h].Heading? && (forall k :: h < k < i ==> !es[k].Heading?) ==>
              SectionAfter(es[..i], None) == Some(es[h].text)
  {
    var before := es[..i];
    if forall k :: 0 <= k < i ==> !es[k].Heading? {
      SectionWithoutHeading(before, None);
    }
    forall h | 0 <= h < i && es[h].Heading? && (forall k :: h < k < i ==> !es[k].Heading?)
      ensures SectionAfter(before, None) == Some(es[h].text)
    {
      SectionIsLastHeading(before, h, None);
    }
  }

  /**
   * The record of item `j` of the list at position `i` stands after one
   * record for each list item before it. It carries the section current at
   * that list and the item's text. Its title and url come from the item's
   * anchor and are None without one. Its source info is there exactly when
   * the item has an emphasis.
   */
  lemma RecordOfItem(es: seq<Element>, i: nat, j: nat)
    requires i < |es| && es[i].List? && j < |es[i].items|
    ensures ItemCount(es[..i]) + j < |PageResources(Some(es))|
    ensures var r, item := PageResources(Some(es))[ItemCount(es[..i]) + j], es[i].items[j];
      && r.section == SectionAfter(es[..i], None)
      && r.fullText == item.text
      && (item.link.None? ==> r.title.None? && r.url.None?)
      && (item.link.Some? ==> r.title == Some(item.link.value.text) && r.url == item.link.value.href)
      && r.sourceInfo == item.emphasis
  {
    WalkAt(es, i, j, None);
  }
}
