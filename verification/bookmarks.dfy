/** The records shared by the server and the client
    (apps/shared/src/types.ts). */
module Bookmarks {
  import opened Wrappers

  /** A row of the bookmarks table. `tags` is the comma-joined tag string,
      or None for SQL NULL; `createdAt` is the insert time, abstracted to a
      number that only serves to order rows. */
  datatype Bookmark = Bookmark(
    id: string,
    url: string,
    title: string,
    tags: Option<string>,
    createdAt: nat)

  /** The body of a create request; `tags` may be absent. */
  datatype CreateBookmarkRequest = CreateBookmarkRequest(
    url: string,
    title: string,
    tags: Option<seq<string>>)

  /** The bookmarks table, in insertion order. */
  type Store = seq<Bookmark>

  /** The ids in use. */
  function Ids(store: Store): set<string> {
    set i | 0 <= i < |store| :: store[i].id
  }

  /** No two rows share an id (the table's primary key). */
  predicate UniqueIds(store: Store) {
    forall i, j :: 0 <= i < j < |store| ==> store[i].id != store[j].id
  }

  /** What the id generator must deliver for a new row: a non-empty id
      not yet in the table. */
  predicate FreshFor(store: Store, id: string) {
    id != "" && id !in Ids(store)
  }

  /** The length of the longest id in the table. */
  function LongestId(store: Store): (n: nat)
    ensures forall i :: 0 <= i < |store| ==> |store[i].id| <= n
  {
    if |store| == 0 then 0
    else
      var rest := LongestId(store[1..]);
      assert forall i :: 1 <= i < |store| ==> store[i] == store[1..][i - 1];
      if |store[0].id| > rest then |store[0].id| else rest
  }

  /** A fresh id exists for every table: one longer than every id in use.
      It stands for the random identifier the server draws, whose only
      role in the model is to be new. */
  function SomeFreshId(store: Store): (id: string)
    ensures FreshFor(store, id)
  {
    seq(LongestId(store) + 1, _ => 'x')
  }
}
