/** The concrete exchanges of the server's test suite (test/index.spec.ts),
    replayed against the model on the `/bookmarks` path the handler routes. */
module Scenarios {
  import opened Wrappers
  import opened Strings
  import opened Bookmarks
  import opened Listing
  import opened Handler

  /** Create `{url, title, tags: ["integration", "test"]}`, then list: the
      row with the acknowledged id is listed with the URL and title sent
      and the stored tag string "integration,test". */
  lemma IntegrationRoundTrip(store: Store, id: string, now: nat, laterId: string, later: nat)
    requires FreshFor(store, id)
    ensures var body := CreateBookmarkRequest("https://test-integration.com", "Integration Test",
                                              Some(["integration", "test"]));
      var created := Handle(store, CreateRequest(body), id, now);
      var rows := Listed(Handle(created.store, ListRequest(None), laterId, later).reply);
      && created.reply.response.body == Created(true, id)
      && (exists b :: b in rows && b.id == id)
      && (forall b :: b in rows && b.id == id ==>
            b.url == "https://test-integration.com" && b.title == "Integration Test"
            && b.tags == Some("integration,test"))
  {
    var body := CreateBookmarkRequest("https://test-integration.com", "Integration Test",
                                      Some(["integration", "test"]));
    CreatedRecordIsListed(store, body, id, now, laterId, later);
    JoinPair("integration", "test", ',');
    assert "integration" + [','] + "test" == "integration,test";
  }

  /** Create a row tagged ["filtered", "unique-tag-123"], then list with
      `tag=unique-tag-123`: the new row is listed, and every listed row's
      tags contain "unique-tag-123". */
  lemma FilterByUniqueTag(store: Store, id: string, now: nat, laterId: string, later: nat)
    ensures var body := CreateBookmarkRequest("https://filtered-test.com", "Filtered Bookmark",
                                              Some(["filtered", "unique-tag-123"]));
      var created := Handle(store, CreateRequest(body), id, now);
      var listing := Handle(created.store, ListRequest(Some("unique-tag-123")), laterId, later);
      && listing.reply.response.status == 200
      && NewRecord(body, id, now) in Listed(listing.reply)
      && (forall b :: b in Listed(listing.reply) ==>
            b.tags.Some? && Contains(b.tags.value, "unique-tag-123"))
  {
    var t := "unique-tag-123";
    var body := CreateBookmarkRequest("https://filtered-test.com", "Filtered Bookmark",
                                      Some(["filtered", t]));
    var created := Handle(store, CreateRequest(body), id, now);
    var r := NewRecord(body, id, now);
    UniqueTagMatches(body, id, now);
    ListedIff(created.store, Some(t), r);
    forall b | b in ListBookmarks(created.store, Some(t))
      ensures b.tags.Some? && Contains(b.tags.value, t)
    {
      ListedIff(created.store, Some(t), b);
    }
  }

  /** The row the filter test creates matches its own unique tag. */
  lemma UniqueTagMatches(body: CreateBookmarkRequest, id: string, now: nat)
    requires body.tags == Some(["filtered", "unique-tag-123"])
    ensures MatchesTag(NewRecord(body, id, now), "unique-tag-123")
  {
    var stored := "filtered,unique-tag-123";
    JoinPair("filtered", "unique-tag-123", ',');
    assert "filtered" + [','] + "unique-tag-123" == stored;
    assert OccursAt(stored, "unique-tag-123", 9);
    ContainsIffOccurs(stored, "unique-tag-123");
  }

  /** The test suite addresses `/api/bookmarks`; the handler matches the
      path exactly, so a list or create there, or on `/bookmarks/`, is
      answered 404 and writes nothing. */
  lemma PrefixedPathIsNotFound(store: Store, m: string, path: string,
                               body: Option<CreateBookmarkRequest>, id: string, now: nat)
    requires m != "OPTIONS"
    requires path == "/api/bookmarks" || path == "/bookmarks/"
    ensures var t := Handle(store, Request(m, path, None, body), id, now);
      && t.store == store
      && t.reply == Respond(Response(404, map["Access-Control-Allow-Origin" := "*"], Text("Not Found")))
  {
    assert path != BookmarksPath by {
      assert |path| != |BookmarksPath|;
    }
  }
}
