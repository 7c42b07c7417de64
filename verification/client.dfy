/** The parts of the browser client that decide what is sent to the
    server and which tags are shown (apps/web/src/App.tsx): the list
    request for the selected tag (line 48), the create request the form
    sends (lines 69-77), clicking a tag badge (line 187) and clearing the
    filter (line 150). */
module Client {
  import opened Wrappers
  import opened Strings
  import opened Bookmarks
  import opened Listing
  import opened Tags
  import opened Handler

  /** The list request `fetchBookmarks` sends for the selected tag. The
      `tag` query is attached exactly when the selection is a non-empty
      string, and the server reads back the selected tag itself. */
  function FetchRequest(selectedTag: Option<string>): (req: Request)
    ensures req.httpMethod == "GET" && req.pathname == BookmarksPath && req.body.None?
    ensures req.tagQuery.Some? <==> selectedTag.Some? && selectedTag.value != ""
    ensures req.tagQuery.Some? ==> req.tagQuery == selectedTag
  {
    if selectedTag.Some? && selectedTag.value != "" then ListRequest(selectedTag)
    else ListRequest(None)
  }

  /** The create request the form sends: title and URL as typed, and the
      tag field parsed into a list (always present, possibly empty). */
  function SubmitRequest(title: string, url: string, tagField: string): Request {
    CreateRequest(CreateBookmarkRequest(url, title, Some(ParseTagField(tagField))))
  }

  /** The selection after a click on a tag badge. */
  function ClickTag(tag: string): Option<string> {
    Some(tag)
  }

  /** The selection after "Clear": no tag. */
  const Cleared: Option<string> := None

  /** The client leaving out an empty tag and the server ignoring an empty
      tag agree: whatever is selected, the server answers the client's
      request exactly as it would a request carrying the selection as-is. */
  lemma FetchAgreesWithServerTruthiness(store: Store, selectedTag: Option<string>,
                                        id: string, now: nat)
    ensures Handle(store, FetchRequest(selectedTag), id, now)
         == Handle(store, ListRequest(selectedTag), id, now)
  {
    if selectedTag == Some("") {
      assert ListBookmarks(store, Some("")) == ListBookmarks(store, None);
    }
  }

  /** After the filter is cleared, the table lists every stored row,
      newest first. */
  lemma ClearedFilterListsEverything(store: Store, id: string, now: nat)
    ensures var rows := Listed(Handle(store, FetchRequest(Cleared), id, now).reply);
      multiset(rows) == multiset(store) && NewestFirst(rows)
  {
  }

  /** Clicking any tag shown for a bookmark lists that bookmark again:
      a non-empty tag is a substring of the row's tag string, so the
      filter keeps the row; the empty tag (the badge of an empty list)
      selects nothing and the unfiltered list keeps every row. */
  lemma ClickedTagFindsItsBookmark(store: Store, b: Bookmark, tag: string, id: string, now: nat)
    requires b in store
    requires DisplayTags(b.tags).Some? && tag in DisplayTags(b.tags).value
    ensures b in Listed(Handle(store, FetchRequest(ClickTag(tag)), id, now).reply)
  {
    var shown := DisplayTags(b.tags).value;
    var i :| 0 <= i < |shown| && shown[i] == tag;
    assert Contains(b.tags.value, tag);
    if tag == "" {
      ListedIff(store, None, b);
    } else {
      ListedIff(store, Some(tag), b);
    }
  }

  /** What the form sends is what the table shows: after a submit, the new
      row's badges are the parsed tags; a field with no tags in it is
      stored as "" and shows one empty badge. */
  lemma SubmittedTagsShowBack(store: Store, title: string, url: string, tagField: string,
                              id: string, now: nat)
    ensures var t := Handle(store, SubmitRequest(title, url, tagField), id, now);
      && |t.store| == |store| + 1
      && t.store[|store|].title == title && t.store[|store|].url == url
    ensures var t := Handle(store, SubmitRequest(title, url, tagField), id, now);
      ParseTagField(tagField) != [] ==>
        DisplayTags(t.store[|store|].tags) == Some(ParseTagField(tagField))
    ensures var t := Handle(store, SubmitRequest(title, url, tagField), id, now);
      ParseTagField(tagField) == [] ==>
        t.store[|store|].tags == Some("") && DisplayTags(t.store[|store|].tags) == Some([""])
  {
    ParsedTagsRoundTrip(tagField);
  }
}
