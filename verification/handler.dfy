/** The server's request handler (apps/api/src/index.ts lines 18-69) as a
    pure transition from a table and a request to a new table and a reply.
    The random id and the insert time are parameters. */
module Handler {
  import opened Wrappers
  import opened Bookmarks
  import opened Listing
  import opened Tags

  /** A decoded request: the method, the URL's pathname, the value of its
      `tag` query parameter (None when the parameter is absent), and the
      JSON body as a create request (None when the body is not valid JSON
      or is JSON `null`, the bodies on which a create throws before it
      writes). */
  datatype Request = Request(
    httpMethod: string,
    pathname: string,
    tagQuery: Option<string>,
    body: Option<CreateBookmarkRequest>)

  /** A response body: none, plain text, the create acknowledgement
      `{success, id}`, or a JSON array of rows. */
  datatype Body =
    | NoBody
    | Text(text: string)
    | Created(success: bool, id: string)
    | Records(records: Store)

  datatype Response = Response(status: nat, headers: map<string, string>, body: Body)

  /** Either a response, or the handler throws (no response of its own). */
  datatype Reply = Respond(response: Response) | Throw

  datatype Transition = Transition(store: Store, reply: Reply)

  const BookmarksPath: string := "/bookmarks"

  const AllowOrigin: string := "Access-Control-Allow-Origin"

  /** The CORS preflight answer's headers. */
  const PreflightHeaders: map<string, string> := map[
    AllowOrigin := "*",
    "Access-Control-Allow-Methods" := "GET, POST, OPTIONS",
    "Access-Control-Allow-Headers" := "Content-Type"]

  /** The headers of every JSON answer. */
  const JsonHeaders: map<string, string> := map[
    "Content-Type" := "application/json",
    AllowOrigin := "*"]

  /** The headers of the 404 answer. */
  const NotFoundHeaders: map<string, string> := map[AllowOrigin := "*"]

  /** The row a create request inserts: `tags` is the comma-join of the
      list when one is given and NULL (None) when it is absent. */
  function NewRecord(body: CreateBookmarkRequest, id: string, now: nat): Bookmark {
    var tags := match body.tags
      case None => None
      case Some(list) => Some(JoinTags(list));
    Bookmark(id, body.url, body.title, tags, now)
  }

  /** The stored row keeps what the request sent: id, url, title and
      time as given; tags NULL exactly when none were sent; and a
      non-empty list of comma-free tags is what the table shows again. */
  lemma NewRecordKeepsRequest(body: CreateBookmarkRequest, id: string, now: nat)
    ensures var b := NewRecord(body, id, now);
      b.id == id && b.url == body.url && b.title == body.title && b.createdAt == now
    ensures NewRecord(body, id, now).tags.None? <==> body.tags.None?
    ensures body.tags.Some? ==> NewRecord(body, id, now).tags == Some(Strings.Join(body.tags.value, ','))
    ensures DisplaysAsSent(body.tags) ==> DisplayTags(NewRecord(body, id, now).tags) == body.tags
  {
    if DisplaysAsSent(body.tags) {
      Strings.SplitJoin(body.tags.value, Comma);
    }
  }

  /** A sent tag list the table shows back unchanged: non-empty, and no
      tag holds a comma. */
  predicate DisplaysAsSent(tags: Option<seq<string>>) {
    tags.Some? && tags.value != [] &&
    forall i :: 0 <= i < |tags.value| ==> Comma !in tags.value[i]
  }

  /** The requests the handler answers other than with 404: a preflight
      on any path, and a create or a list on exactly `/bookmarks`. */
  predicate Routed(req: Request) {
    || req.httpMethod == "OPTIONS"
    || (req.httpMethod in {"POST", "GET"} && req.pathname == BookmarksPath)
  }

  /** The request handler. `freshId` is the identifier the generator
      draws and `now` the insert time; both matter only to a create. */
  function Handle(store: Store, req: Request, freshId: string, now: nat): (t: Transition)
    // the table only ever grows, and only a create grows it
    ensures store <= t.store
    ensures t.store != store ==> req.httpMethod == "POST" && req.pathname == BookmarksPath
    // the preflight check comes first and ignores the path
    ensures req.httpMethod == "OPTIONS" ==>
      t == Transition(store, Respond(Response(204, PreflightHeaders, NoBody)))
    // a create appends exactly one row and acknowledges it by its id
    ensures req.httpMethod == "POST" && req.pathname == BookmarksPath && req.body.Some? ==>
      && |t.store| == |store| + 1
      && t.store[..|store|] == store
      && t.store[|store|] == NewRecord(req.body.value, freshId, now)
      && t.reply == Respond(Response(200, JsonHeaders, Created(true, freshId)))
    // a create whose body is not valid JSON, or is `null`, throws before writing
    ensures req.httpMethod == "POST" && req.pathname == BookmarksPath && req.body.None? ==>
      t == Transition(store, Throw)
    // a list answers with the rows of the list query, writing nothing
    ensures req.httpMethod == "GET" && req.pathname == BookmarksPath ==>
      t == Transition(store, Respond(Response(200, JsonHeaders,
                                              Records(ListBookmarks(store, req.tagQuery)))))
    // nothing else is routed
    ensures !Routed(req) ==>
      t == Transition(store, Respond(Response(404, NotFoundHeaders, Text("Not Found"))))
  {
    if req.httpMethod == "OPTIONS" then
      Transition(store, Respond(Response(204, PreflightHeaders, NoBody)))
    else if req.httpMethod == "POST" && req.pathname == BookmarksPath then
      match req.body
      case None => Transition(store, Throw)
      case Some(body) =>
        Transition(store + [NewRecord(body, freshId, now)],
                   Respond(Response(200, JsonHeaders, Created(true, freshId))))
    else if req.httpMethod == "GET" && req.pathname == BookmarksPath then
      Transition(store, Respond(Response(200, JsonHeaders,
                                         Records(ListBookmarks(store, req.tagQuery)))))
    else
      Transition(store, Respond(Response(404, NotFoundHeaders, Text("Not Found"))))
  }

  /** A create request for `body` on the routed path. */
  function CreateRequest(body: CreateBookmarkRequest): Request {
    Request("POST", BookmarksPath, None, Some(body))
  }

  /** A list request, with the `tag` query value if there is one. */
  function ListRequest(tagQuery: Option<string>): Request {
    Request("GET", BookmarksPath, tagQuery, None)
  }

  /** The rows a reply lists ([] for any other reply). */
  function Listed(reply: Reply): Store {
    if reply.Respond? && reply.response.body.Records? then reply.response.body.records else []
  }

  /** A create keeps the primary key intact: given a fresh id, the new
      row's id is not among the old ones, and ids stay unique. */
  lemma CreateKeepsIdsUnique(store: Store, body: CreateBookmarkRequest, id: string, now: nat)
    requires UniqueIds(store) && FreshFor(store, id)
    ensures var t := Handle(store, CreateRequest(body), id, now);
      UniqueIds(t.store) && Ids(t.store) == Ids(store) + {id}
  {
    var t := Handle(store, CreateRequest(body), id, now);
    assert forall i :: 0 <= i < |store| ==> store[i].id in Ids(store);
    assert t.store == store + [NewRecord(body, id, now)];
    assert forall i :: 0 <= i < |store| ==> t.store[i] == store[i];
    assert Ids(t.store) == Ids(store) + {id} by {
      forall x | x in Ids(t.store)
        ensures x in Ids(store) + {id}
      {
        var i :| 0 <= i < |t.store| && t.store[i].id == x;
        if i < |store| {
          assert store[i].id == x;
        }
      }
    }
  }

  /** Create, then list without a filter: the acknowledgement carries a
      non-empty id, and the listing holds the new row, which is the only
      row with that id. */
  lemma CreatedRecordIsListed(store: Store, body: CreateBookmarkRequest, id: string, now: nat,
                              laterId: string, later: nat)
    requires FreshFor(store, id)
    ensures var created := Handle(store, CreateRequest(body), id, now);
      && created.reply.Respond?
      && created.reply.response.status == 200
      && created.reply.response.body == Created(true, id)
      && |created.reply.response.body.id| > 0
    ensures var created := Handle(store, CreateRequest(body), id, now);
      var rows := Listed(Handle(created.store, ListRequest(None), laterId, later).reply);
      && NewRecord(body, id, now) in rows
      && forall b :: b in rows && b.id == id ==> b == NewRecord(body, id, now)
  {
    var created := Handle(store, CreateRequest(body), id, now);
    var r := NewRecord(body, id, now);
    var listing := Handle(created.store, ListRequest(None), laterId, later);
    var rows := Listed(listing.reply);
    assert created.store == store + [r];
    assert rows == ListBookmarks(created.store, None);
    ListedIff(created.store, None, r);
    forall b | b in rows && b.id == id
      ensures b == r
    {
      ListedIff(created.store, None, b);
    }
  }

  /** Creation is not idempotent: the same body sent twice makes two rows
      that agree on everything but the id, and the ids differ. */
  lemma RepeatedCreateMakesTwoRecords(store: Store, body: CreateBookmarkRequest,
                                      id1: string, now1: nat, id2: string, now2: nat)
    requires FreshFor(store, id1)
    requires FreshFor(Handle(store, CreateRequest(body), id1, now1).store, id2)
    ensures var first := Handle(store, CreateRequest(body), id1, now1);
      var second := Handle(first.store, CreateRequest(body), id2, now2);
      && |second.store| == |store| + 2
      && second.store[|store|].id != second.store[|store| + 1].id
      && second.store[|store|].url == second.store[|store| + 1].url
      && second.store[|store|].title == second.store[|store| + 1].title
      && second.store[|store|].tags == second.store[|store| + 1].tags
  {
    var first := Handle(store, CreateRequest(body), id1, now1);
    assert first.store[|store|].id == id1;
    assert id1 in Ids(first.store);
  }

  /** A filtered list: with a non-empty `tag` value `t` the listing holds
      exactly the stored rows whose tags contain `t`, so every listed row's
      tags contain `t`. An empty `tag` value lists every row. */
  lemma ListFiltersBySubstring(store: Store, t: string, id: string, now: nat, b: Bookmark)
    ensures t != "" ==>
      (b in Listed(Handle(store, ListRequest(Some(t)), id, now).reply) <==>
         b in store && b.tags.Some? && Strings.Contains(b.tags.value, t))
    ensures t == "" ==>
      (b in Listed(Handle(store, ListRequest(Some(t)), id, now).reply) <==> b in store)
  {
    ListedIff(store, Some(t), b);
  }
}
