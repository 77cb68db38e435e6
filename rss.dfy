/**
 * An RSS feed as the harvesters receive it from ElementTree: the `<item>` elements in
 * document order, each given by its children. For a child tag, the map holds the
 * `.text` of the first child of that name: `None` when the element is there but empty.
 * A tag missing from the map is a child that `find` does not find.
 */
module Rss {
  import opened Wrappers

  type Item = map<string, Option<string>>

  /** The exceptions fetching and parsing a feed can raise, which the harvesters re-raise. */
  datatype FeedError = RequestError | XmlParseError | OtherError

  /** `item.find(tag).text`, or `None` when there is no such child. */
  function ChildText(item: Item, tag: string): (r: Option<string>)
    ensures tag in item ==> r == item[tag]
    ensures tag !in item ==> r.None?
  {
    if tag in item then item[tag] else None
  }
}
