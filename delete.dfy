/** `RunDeleteItem` of app/cmd/delete.go: removes the item with a 1-based
    number from the rendered `feed.xml`. The file is modelled by its decoded
    document (None when it cannot be read or decoded, where the source
    panics); the XML encoding is not modelled. */
module Delete {
  import opened Wrappers
  import opened Sorting
  import opened Feed

  /** What a run shows: a panic, or the line it prints. Go's built-in
      `println` writes to standard error, `fmt.Printf` to standard output. */
  datatype Outcome = Panicked | Printed(line: Output)

  /** Whether a number names an item of the list, counting from 1. */
  predicate ValidItemNumber(items: seq<Item>, itemNumber: int) {
    1 <= itemNumber <= |items|
  }

  class FeedFile {
    var document: Option<Rss>

    constructor (document: Option<Rss>)
      ensures this.document == document
    {
      this.document := document;
    }

    /** `RunDeleteItem`: an unreadable document panics; a number outside
        1..len(items) prints "Invalid item number" and writes nothing;
        otherwise the item is spliced out, the document written back with
        its channel metadata as it was, and the removed title reported. */
    method RunDeleteItem(itemNumber: int) returns (outcome: Outcome)
      modifies this
      ensures old(document).None? ==> outcome == Panicked && document == old(document)
      ensures old(document).Some? && !ValidItemNumber(old(document).value.channel.items, itemNumber) ==>
        outcome == Printed(Stderr("Invalid item number")) && document == old(document)
      ensures old(document).Some? && ValidItemNumber(old(document).value.channel.items, itemNumber) ==>
        var feed := old(document).value;
        var items := feed.channel.items;
        && outcome == Printed(Stdout("Item '" + items[itemNumber - 1].title + "' deleted successfully"))
        && document == Some(feed.(channel := feed.channel.(items := Without(items, itemNumber - 1))))
    {
      if document.None? {
        return Panicked;
      }
      var feed := document.value;
      if itemNumber < 1 || itemNumber > |feed.channel.items| {
        return Printed(Stderr("Invalid item number"));
      }
      var titleToDelete := feed.channel.items[itemNumber - 1].title;
      var items := feed.channel.items;
      feed := feed.(channel := feed.channel.(items := items[..itemNumber - 1] + items[itemNumber..]));
      document := Some(feed);
      return Printed(Stdout("Item '" + titleToDelete + "' deleted successfully"));
    }
  }

  /** What a successful deletion leaves: one item fewer, the others in their
      order, the channel's title, link, description and build date and the
      document's version untouched. */
  lemma DeletionKeepsTheRest(feed: Rss, itemNumber: int)
    requires ValidItemNumber(feed.channel.items, itemNumber)
    ensures var items := feed.channel.items;
      var after := feed.(channel := feed.channel.(items := Without(items, itemNumber - 1)));
      && |after.channel.items| == |items| - 1
      && after.version == feed.version
      && after.channel.title == feed.channel.title && after.channel.link == feed.channel.link
      && after.channel.description == feed.channel.description
      && after.channel.lastBuildDate == feed.channel.lastBuildDate
      && (forall k :: 0 <= k < itemNumber - 1 ==> after.channel.items[k] == items[k])
      && (forall k :: itemNumber - 1 <= k < |items| - 1 ==> after.channel.items[k] == items[k + 1])
      && multiset(after.channel.items) + multiset{items[itemNumber - 1]} == multiset(items)
  {
    WithoutRemovesOne(feed.channel.items, itemNumber - 1);
  }
}
