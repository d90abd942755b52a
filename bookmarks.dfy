/**
 * The bookmark service: ownership-scoped create, read, update and delete over an
 * in-memory bookmark table keyed by bookmark id.
 */
module Bookmarks {
  import opened Wrappers
  import opened Common

  datatype Bookmark = Bookmark(id: Id, userId: Id, title: string, link: string, description: Option<string>)

  /** The body of a create request; it never carries an owner. */
  datatype CreateBookmarkDto = CreateBookmarkDto(title: string, link: string, description: Option<string>)

  /** The body of an edit request; an absent field is left as it is. */
  datatype EditBookmarkDto = EditBookmarkDto(title: Option<string>, link: Option<string>, description: Option<string>)

  /** The one error edit and delete throw, whether the bookmark is missing or someone else's. */
  const AccessDenied: Exception := Forbidden("Access to resource denied")

  /** Every record is filed under its own id. */
  ghost predicate Keyed(m: map<Id, Bookmark>) {
    forall k :: k in m ==> m[k].id == k
  }

  /** `b` is the record the table holds under its id. */
  predicate Stored(m: map<Id, Bookmark>, b: Bookmark) {
    b.id in m && m[b.id] == b
  }

  ghost predicate Ascending(s: seq<Bookmark>) {
    forall i, j :: 0 <= i < j < |s| ==> s[i].id < s[j].id
  }

  /** The record with id `k`, as a one-element list, when `userId` owns it. */
  function Entry(m: map<Id, Bookmark>, userId: Id, k: Id): seq<Bookmark> {
    if k in m && m[k].userId == userId then [m[k]] else []
  }

  /** The records of `userId` with an id below `n`, in id order. */
  function Listing(m: map<Id, Bookmark>, userId: Id, n: nat): seq<Bookmark> {
    if n == 0 then [] else Listing(m, userId, n - 1) + Entry(m, userId, n - 1)
  }

  /** A listing holds exactly the records of `userId` with an id below `n`. */
  lemma {:induction false} ListingMembers(m: map<Id, Bookmark>, userId: Id, n: nat)
    requires Keyed(m)
    ensures forall b :: b in Listing(m, userId, n) <==> b.id < n && Stored(m, b) && b.userId == userId
    decreases n
  {
    if n > 0 {
      ListingMembers(m, userId, n - 1);
    }
  }

  /** A listing is in id order, which is creation order; in particular it never repeats a record. */
  lemma {:induction false} ListingAscending(m: map<Id, Bookmark>, userId: Id, n: nat)
    requires Keyed(m)
    ensures Ascending(Listing(m, userId, n))
    decreases n
  {
    if n > 0 {
      ListingAscending(m, userId, n - 1);
      ListingMembers(m, userId, n - 1);
      var before := Listing(m, userId, n - 1);
      var all: seq<Bookmark> := before + Entry(m, userId, n - 1);
      forall i, j | 0 <= i < j < |all| ensures all[i].id < all[j].id {
        if j >= |before| {
          assert all[i] in before;
        }
      }
    }
  }

  /** `s` with the record whose id is `p.id` replaced by `p`. */
  function Replace(s: seq<Bookmark>, p: Bookmark): seq<Bookmark> {
    if |s| == 0 then []
    else
      var last := s[|s| - 1];
      Replace(s[..|s| - 1], p) + [if last.id == p.id then p else last]
  }

  /** Replacing keeps the length and touches only the positions holding the replaced id. */
  lemma {:induction false} ReplaceAt(s: seq<Bookmark>, p: Bookmark)
    ensures |Replace(s, p)| == |s|
    ensures forall i :: 0 <= i < |s| ==> Replace(s, p)[i] == if s[i].id == p.id then p else s[i]
  {
    if s != [] {
      ReplaceAt(s[..|s| - 1], p);
    }
  }

  /** `s` without the records whose id is `id`. */
  function Without(s: seq<Bookmark>, id: Id): seq<Bookmark> {
    if |s| == 0 then []
    else
      var last := s[|s| - 1];
      Without(s[..|s| - 1], id) + (if last.id == id then [] else [last])
  }

  /** Filtering keeps exactly the records with another id. */
  lemma {:induction false} WithoutMembers(s: seq<Bookmark>, id: Id)
    ensures forall b :: b in Without(s, id) <==> b in s && b.id != id
  {
    if s != [] {
      WithoutMembers(s[..|s| - 1], id);
      assert s == s[..|s| - 1] + [s[|s| - 1]];
    }
  }

  /** In an id-ordered list, filtering out an id that occurs removes exactly one record. */
  lemma {:induction false} WithoutShrinks(s: seq<Bookmark>, id: Id)
    requires Ascending(s)
    ensures |Without(s, id)| == if exists b :: b in s && b.id == id then |s| - 1 else |s|
  {
    if s != [] {
      var init, last := s[..|s| - 1], s[|s| - 1];
      assert s == init + [last];
      WithoutShrinks(init, id);
      if last.id == id {
        forall b | b in init ensures b.id != id {
          var i :| 0 <= i < |init| && init[i] == b;
          assert s[i] == b;
        }
      }
    }
  }

  /** A partial update: each field the request supplies overwrites the record's; the rest are kept. */
  function Patch(b: Bookmark, dto: EditBookmarkDto): (r: Bookmark)
    ensures r.id == b.id && r.userId == b.userId
    ensures dto.title.Some? ==> r.title == dto.title.value
    ensures dto.title.None? ==> r.title == b.title
    ensures dto.link.Some? ==> r.link == dto.link.value
    ensures dto.link.None? ==> r.link == b.link
    ensures dto.description.Some? ==> r.description == dto.description
    ensures dto.description.None? ==> r.description == b.description
  {
    b.(title := dto.title.GetOr(b.title),
       link := dto.link.GetOr(b.link),
       description := if dto.description.Some? then dto.description else b.description)
  }

  /** An edit that supplies nothing leaves the record as it was. */
  lemma PatchEmpty(b: Bookmark)
    ensures Patch(b, EditBookmarkDto(None, None, None)) == b
  {
  }

  /** Sending the same edit twice has the effect of sending it once. */
  lemma PatchIdempotent(b: Bookmark, dto: EditBookmarkDto)
    ensures Patch(Patch(b, dto), dto) == Patch(b, dto)
  {
  }

  /** A user's listing depends only on the records that user owns. */
  lemma {:induction false} ListingFrame(m: map<Id, Bookmark>, m': map<Id, Bookmark>, userId: Id, n: nat)
    requires Keyed(m) && Keyed(m')
    requires forall k :: 0 <= k < n ==> Entry(m, userId, k) == Entry(m', userId, k)
    ensures Listing(m, userId, n) == Listing(m', userId, n)
    decreases n
  {
    if n > 0 {
      ListingFrame(m, m', userId, n - 1);
    }
  }

  /** Adding a record under a new, largest id appends it to its owner's listing and to no other. */
  lemma {:induction false} ListingAfterInsert(m: map<Id, Bookmark>, userId: Id, b: Bookmark)
    requires Keyed(m)
    requires forall k :: k in m ==> k < b.id
    ensures Keyed(m[b.id := b])
    ensures Listing(m[b.id := b], userId, b.id + 1)
         == Listing(m, userId, b.id) + (if b.userId == userId then [b] else [])
  {
    ListingFrame(m[b.id := b], m, userId, b.id);
  }

  lemma ReplaceAppend(s: seq<Bookmark>, e: seq<Bookmark>, p: Bookmark)
    requires |e| <= 1
    ensures Replace(s + e, p) == Replace(s, p) + Replace(e, p)
  {
    if e == [] {
      assert s + e == s;
    } else {
      assert (s + e)[..|s|] == s;
    }
  }

  lemma WithoutAppend(s: seq<Bookmark>, e: seq<Bookmark>, id: Id)
    requires |e| <= 1
    ensures Without(s + e, id) == Without(s, id) + Without(e, id)
  {
    if e == [] {
      assert s + e == s;
    } else {
      assert (s + e)[..|s|] == s;
    }
  }

  lemma EntryAfterEdit(m: map<Id, Bookmark>, userId: Id, k: Id, p: Bookmark)
    requires Keyed(m)
    requires p.id in m && p.userId == m[p.id].userId
    ensures Entry(m[p.id := p], userId, k) == Replace(Entry(m, userId, k), p)
  {
  }

  lemma EntryAfterDelete(m: map<Id, Bookmark>, userId: Id, k: Id, id: Id)
    requires Keyed(m)
    ensures Entry(m - {id}, userId, k) == Without(Entry(m, userId, k), id)
  {
  }

  /** Overwriting a record without changing its owner replaces it in place in every listing. */
  lemma {:induction false} ListingAfterEdit(m: map<Id, Bookmark>, userId: Id, n: nat, p: Bookmark)
    requires Keyed(m)
    requires p.id in m && p.userId == m[p.id].userId
    ensures Listing(m[p.id := p], userId, n) == Replace(Listing(m, userId, n), p)
    decreases n
  {
    if n > 0 {
      var m' := m[p.id := p];
      var before, entry := Listing(m, userId, n - 1), Entry(m, userId, n - 1);
      calc {
        Listing(m', userId, n);
        Listing(m', userId, n - 1) + Entry(m', userId, n - 1);
        { ListingAfterEdit(m, userId, n - 1, p); EntryAfterEdit(m, userId, n - 1, p); }
        Replace(before, p) + Replace(entry, p);
        { ReplaceAppend(before, entry, p); }
        Replace(before + entry, p);
        Replace(Listing(m, userId, n), p);
      }
    }
  }

  /** Removing a record drops it from every listing and keeps the order of the rest. */
  lemma {:induction false} ListingAfterDelete(m: map<Id, Bookmark>, userId: Id, n: nat, id: Id)
    requires Keyed(m)
    ensures Listing(m - {id}, userId, n) == Without(Listing(m, userId, n), id)
    decreases n
  {
    if n > 0 {
      var m' := m - {id};
      var before, entry := Listing(m, userId, n - 1), Entry(m, userId, n - 1);
      calc {
        Listing(m', userId, n);
        Listing(m', userId, n - 1) + Entry(m', userId, n - 1);
        { ListingAfterDelete(m, userId, n - 1, id); EntryAfterDelete(m, userId, n - 1, id); }
        Without(before, id) + Without(entry, id);
        { WithoutAppend(before, entry, id); }
        Without(before + entry, id);
        Without(Listing(m, userId, n), id);
      }
    }
  }

  class BookmarkService {
    /** The bookmark table, keyed by bookmark id. */
    var bookmarks: map<Id, Bookmark>
    /** The id the table hands out next; every id in use is below it. */
    var nextId: nat

    ghost predicate Valid()
      reads this
    {
      Keyed(bookmarks) && forall k :: k in bookmarks ==> k < nextId
    }

    constructor()
      ensures Valid() && bookmarks == map[]
    {
      bookmarks := map[];
      nextId := 0;
    }

    /** Lookup by id alone, with no ownership filter. */
    function FindUnique(bookmarkId: Id): (r: Option<Bookmark>)
      reads this
      ensures r.Some? <==> bookmarkId in bookmarks
      ensures r.Some? ==> r.value == bookmarks[bookmarkId]
    {
      if bookmarkId in bookmarks then Some(bookmarks[bookmarkId]) else None
    }

    /** All of the caller's bookmarks, in creation order; empty when the caller has none. */
    function GetBookmarks(userId: Id): (r: seq<Bookmark>)
      reads this
      requires Valid()
      ensures forall b :: b in r <==> Stored(bookmarks, b) && b.userId == userId
      ensures Ascending(r)
      ensures r == [] <==> forall k :: k in bookmarks ==> bookmarks[k].userId != userId
    {
      ListingMembers(bookmarks, userId, nextId);
      ListingAscending(bookmarks, userId, nextId);
      var r := Listing(bookmarks, userId, nextId);
      assert r != [] ==> r[0] in r;
      r
    }

    /**
     * The caller's bookmark with that id, or nothing: a missing bookmark and someone else's
     * bookmark look the same.
     */
    function GetBookmarkById(userId: Id, bookmarkId: Id): (r: Option<Bookmark>)
      reads this
      requires Valid()
      ensures r.Some? ==> r.value.id == bookmarkId && r.value in GetBookmarks(userId)
      ensures r.None? ==> forall b :: b in GetBookmarks(userId) ==> b.id != bookmarkId
      ensures r.Some? <==> FindUnique(bookmarkId).Some? && FindUnique(bookmarkId).value.userId == userId
    {
      if bookmarkId in bookmarks && bookmarks[bookmarkId].userId == userId then Some(bookmarks[bookmarkId]) else None
    }

    method CreateBookmark(userId: Id, dto: CreateBookmarkDto) returns (b: Bookmark)
      requires Valid()
      modifies this
      ensures Valid()
      ensures b.userId == userId && b.title == dto.title && b.link == dto.link && b.description == dto.description
      ensures b.id !in old(bookmarks) && bookmarks == old(bookmarks)[b.id := b]
      ensures GetBookmarks(userId) == old(GetBookmarks(userId)) + [b]
      ensures forall v :: v != userId ==> GetBookmarks(v) == old(GetBookmarks(v))
    {
      b := Bookmark(nextId, userId, dto.title, dto.link, dto.description);
      ghost var before := bookmarks;
      bookmarks := bookmarks[b.id := b];
      nextId := nextId + 1;
      forall v ensures GetBookmarks(v) == Listing(before, v, b.id) + (if v == userId then [b] else []) {
        ListingAfterInsert(before, v, b);
      }
    }

    method EditBookmarkById(userId: Id, bookmarkId: Id, dto: EditBookmarkDto) returns (r: Result<Bookmark, Exception>)
      requires Valid()
      modifies this
      ensures Valid() && nextId == old(nextId)
      ensures r.Success? <==> old(GetBookmarkById(userId, bookmarkId)).Some?
      ensures r.Failure? ==> r.error == AccessDenied && bookmarks == old(bookmarks)
      ensures r.Success? ==> r.value == Patch(old(bookmarks)[bookmarkId], dto)
      ensures r.Success? ==> bookmarks == old(bookmarks)[bookmarkId := r.value]
      ensures r.Success? ==> GetBookmarks(userId) == Replace(old(GetBookmarks(userId)), r.value)
      ensures forall v :: v != userId ==> GetBookmarks(v) == old(GetBookmarks(v))
    {
      var found := FindUnique(bookmarkId);
      if found.None? || found.value.userId != userId {
        return Failure(AccessDenied);
      }
      var updated := Patch(found.value, dto);
      ghost var before := bookmarks;
      bookmarks := bookmarks[bookmarkId := updated];
      ListingAfterEdit(before, userId, nextId, updated);
      forall v | v != userId ensures GetBookmarks(v) == Listing(before, v, nextId) {
        ListingFrame(bookmarks, before, v, nextId);
      }
      r := Success(updated);
    }

    method DeleteBookmarkById(userId: Id, bookmarkId: Id) returns (r: Outcome<Exception>)
      requires Valid()
      modifies this
      ensures Valid() && nextId == old(nextId)
      ensures r.Pass? <==> old(GetBookmarkById(userId, bookmarkId)).Some?
      ensures r.Fail? ==> r.error == AccessDenied && bookmarks == old(bookmarks)
      ensures r.Pass? ==> bookmarks == old(bookmarks) - {bookmarkId}
      ensures r.Pass? ==> GetBookmarkById(userId, bookmarkId).None?
      ensures r.Pass? ==> GetBookmarks(userId) == Without(old(GetBookmarks(userId)), bookmarkId)
      ensures r.Pass? ==> |GetBookmarks(userId)| == |old(GetBookmarks(userId))| - 1
      ensures forall v :: v != userId ==> GetBookmarks(v) == old(GetBookmarks(v))
    {
      var found := FindUnique(bookmarkId);
      if found.None? || found.value.userId != userId {
        return Fail(AccessDenied);
      }
      ghost var before := bookmarks;
      bookmarks := bookmarks - {bookmarkId};
      ListingAfterDelete(before, userId, nextId, bookmarkId);
      ListingMembers(before, userId, nextId);
      ListingAscending(before, userId, nextId);
      assert before[bookmarkId] in Listing(before, userId, nextId);
      WithoutShrinks(Listing(before, userId, nextId), bookmarkId);
      forall v | v != userId ensures GetBookmarks(v) == Listing(before, v, nextId) {
        ListingFrame(bookmarks, before, v, nextId);
      }
      r := Pass;
    }
  }
}
