/**
 * The `TableOfContents` article component: each item becomes one numbered
 * link entry whose target is the item's anchor with at most one leading '#'
 * removed; level-3 items are indented.
 */
module TableOfContents {
  import opened Wrappers

  /** Heading levels an item may declare. */
  type Level = l: int | 1 <= l <= 3 witness 1

  datatype TocItem = TocItem(title: string, anchor: string, level: Option<Level>)

  /** One rendered `<li>`: the visible number, the link target, the indent class, the text. */
  datatype Entry = Entry(number: nat, href: string, indented: bool, title: string)

  /** The anchor without its leading '#', if it has one (only one is removed). */
  function AnchorId(anchor: string): (id: string)
    ensures anchor == id || anchor == "#" + id
    ensures (|anchor| > 0 && anchor[0] == '#') <==> anchor == "#" + id
  {
    if |anchor| > 0 && anchor[0] == '#' then anchor[1..] else anchor
  }

  /** `item.level || 2`: a missing level is level 2. */
  function LevelOf(item: TocItem): (l: Level)
    ensures item.level.Some? ==> l == item.level.value
    ensures item.level.None? ==> l == 2
  {
    match item.level
    case Some(v) => v
    case None => 2
  }

  function EntryFor(item: TocItem, index: nat): Entry {
    Entry(index + 1, "#" + AnchorId(item.anchor), LevelOf(item) == 3, item.title)
  }

  /** The `items.map(...)`: one entry per item, in order, numbered from 1. */
  function Entries(items: seq<TocItem>): (r: seq<Entry>)
    ensures |r| == |items|
    ensures forall i :: 0 <= i < |r| ==> r[i].number == i + 1 && r[i].title == items[i].title
    ensures forall i :: 0 <= i < |r| ==> (r[i].indented <==> items[i].level == Some(3))
    ensures forall i :: 0 <= i < |r| ==>
              r[i].href == (if |items[i].anchor| > 0 && items[i].anchor[0] == '#' then items[i].anchor
                            else "#" + items[i].anchor)
  {
    seq(|items|, i requires 0 <= i < |items| => EntryFor(items[i], i))
  }

  /** `x` and `#x` link to the same place, provided `x` does not itself start with '#'. */
  lemma OneHashIsOptional(x: string)
    requires x == [] || x[0] != '#'
    ensures AnchorId("#" + x) == AnchorId(x) == x
  {
    assert ("#" + x)[1..] == x;
  }
}
