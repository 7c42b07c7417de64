/** The list query of the server (apps/api/src/index.ts lines 50-55):
    `SELECT * FROM bookmarks [WHERE tags LIKE '%t%'] ORDER BY created_at
    DESC`, on an in-memory table. */
module Listing {
  import opened Wrappers
  import opened Strings
  import opened Bookmarks

  /** The row passes `tags LIKE '%t%'`: its tags are not NULL and contain
      `t`. */
  predicate MatchesTag(b: Bookmark, t: string) {
    b.tags.Some? && Contains(b.tags.value, t)
  }

  /** JavaScript truthiness of the `tag` query value: present and
      non-empty. Only then does the query filter. */
  predicate Filtering(tagFilter: Option<string>) {
    tagFilter.Some? && tagFilter.value != ""
  }

  /** The rows that pass the filter, each as often as it is stored. */
  function FilterByTag(store: Store, t: string): (r: Store)
    ensures forall b :: multiset(r)[b] == if MatchesTag(b, t) then multiset(store)[b] else 0
  {
    if |store| == 0 then []
    else
      assert store == [store[0]] + store[1..];
      (if MatchesTag(store[0], t) then [store[0]] else []) + FilterByTag(store[1..], t)
  }

  /** Rows are ordered by `created_at`, newest first. */
  predicate NewestFirst(s: Store) {
    forall i, j :: 0 <= i < j < |s| ==> s[i].createdAt >= s[j].createdAt
  }

  /** Places `b` into a newest-first list, before the rows no newer than
      it. */
  function Insert(b: Bookmark, s: Store): (r: Store)
    requires NewestFirst(s)
    ensures NewestFirst(r)
    ensures multiset(r) == multiset(s) + multiset{b}
  {
    if |s| == 0 then [b]
    else if s[0].createdAt <= b.createdAt then [b] + s
    else
      var rest := Insert(b, s[1..]);
      InsertAfterHead(b, s, rest);
      [s[0]] + rest
  }

  // The recursive case of Insert: the head stays in front of the rest.
  lemma InsertAfterHead(b: Bookmark, s: Store, rest: Store)
    requires NewestFirst(s) && |s| > 0 && s[0].createdAt > b.createdAt
    requires NewestFirst(rest) && multiset(rest) == multiset(s[1..]) + multiset{b}
    ensures NewestFirst([s[0]] + rest)
    ensures multiset([s[0]] + rest) == multiset(s) + multiset{b}
  {
    assert s == [s[0]] + s[1..];
    forall j | 0 <= j < |rest|
      ensures rest[j].createdAt <= s[0].createdAt
    {
      assert rest[j] in multiset(rest);
      if rest[j] != b {
        assert rest[j] in multiset(s[1..]);
        var k :| 0 <= k < |s[1..]| && s[1..][k] == rest[j];
        assert s[k + 1] == rest[j];
      }
    }
  }

  /** `ORDER BY created_at DESC`: a newest-first permutation. Rows with
      equal `created_at` keep their table order. */
  function SortNewestFirst(s: Store): (r: Store)
    ensures NewestFirst(r)
    ensures multiset(r) == multiset(s)
  {
    if |s| == 0 then []
    else
      assert s == [s[0]] + s[1..];
      Insert(s[0], SortNewestFirst(s[1..]))
  }

  /** The rows the list query returns. Unfiltered (no `tag`, or an empty
      one) it is a newest-first permutation of the whole table; filtered
      by `t` it holds exactly the rows whose tags contain `t`, each as
      often as it is stored, newest first. */
  function ListBookmarks(store: Store, tagFilter: Option<string>): (r: Store)
    ensures NewestFirst(r)
    ensures !Filtering(tagFilter) ==> multiset(r) == multiset(store)
    ensures Filtering(tagFilter) ==>
      forall b :: multiset(r)[b] == if MatchesTag(b, tagFilter.value) then multiset(store)[b] else 0
  {
    if Filtering(tagFilter) then SortNewestFirst(FilterByTag(store, tagFilter.value))
    else SortNewestFirst(store)
  }

  /** Membership in the listing: a row is listed exactly when it is in the
      table and, if the query filters, its tags contain the filter. */
  lemma ListedIff(store: Store, tagFilter: Option<string>, b: Bookmark)
    ensures b in ListBookmarks(store, tagFilter) <==>
      b in store && (Filtering(tagFilter) ==> MatchesTag(b, tagFilter.value))
  {
    var r := ListBookmarks(store, tagFilter);
    assert b in r <==> multiset(r)[b] > 0;
    assert b in store <==> multiset(store)[b] > 0;
  }
}
