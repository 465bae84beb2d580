/** The landing page: trending works and the cart badge, whose counts and login
    flag are re-derived from `localStorage` rather than taken from the state provider. */
module Landing {
  import opened Wrappers
  import opened Text
  import opened Json
  import opened Sequences
  import opened Storage
  import opened AppState
  import opened Catalog

  /** `coverUrl(coverId)` of the landing page: the medium cover image, or `''`. */
  function MediumCoverUrl(coverId: Option<int>): (r: string)
    ensures r == "" <==> OrElse(coverId, 0) == 0
  {
    if coverId.Some? && coverId.value != 0 then CoverPrefix + IntToString(coverId.value) + "-M.jpg" else ""
  }

  /** The medium and the large URL of a cover differ only in the size letter. */
  lemma CoverSizes(coverId: Option<int>)
    requires OrElse(coverId, 0) != 0
    ensures var m, l := MediumCoverUrl(coverId), CoverUrl(coverId);
      |m| == |l| && m[|m| - 5] == 'M' && l[|l| - 5] == 'L'
      && m[..|m| - 5] == l[..|l| - 5] && m[|m| - 4..] == l[|l| - 4..]
  {
  }

  /** This page's own `readStoredList(key)`, whose fallback is always `[]`. */
  function ReadStoredListOrEmpty(items: Items, key: string): (r: seq<Json>)
    ensures r == ReadStoredList(items, key, [])
  {
    if key !in items || items[key] == "" then []
    else
      var parsed := Decode(items[key]);
      if parsed.Some? && parsed.value.JArr? then parsed.value.items else []
  }

  /** `localStorage.getItem(AUTH_STORAGE_KEY) === 'true'`. */
  function StoredLoggedIn(items: Items): (r: bool)
    ensures r == ReadStoredBoolean(items, AuthKey, false)
  {
    GetItem(items, AuthKey) == Some("true")
  }

  /** On a store holding no borrowed list the provider shows the three seed
      loans while the badge counts none. */
  lemma SeedNotCounted(items: Items)
    requires BorrowedKey !in items
    ensures |ReadStoredList(items, BorrowedKey, BorrowedSeed)| == 3
    ensures |ReadStoredListOrEmpty(items, BorrowedKey)| == 0
  {
  }

  /** Once the provider has written a list, the badge counts exactly its entries. */
  lemma CountAfterWrite(items: Items, key: string, xs: seq<Json>)
    requires AllWellFormed(xs)
    ensures |ReadStoredListOrEmpty(WriteList(items, key, xs), key)| == |xs|
  {
    ListWriteThrough(items, key, xs, []);
  }

  /** The badge agrees with a write-through provider whenever the stored list is readable. */
  lemma BadgeMatchesProvider(p: Provider)
    requires p.Synced()
    requires !ListFallsBack(p.store.items, BorrowedKey) && !ListFallsBack(p.store.items, PurchasedKey)
    ensures |ReadStoredListOrEmpty(p.store.items, BorrowedKey)| == |p.borrowedBooks|
    ensures |ReadStoredListOrEmpty(p.store.items, PurchasedKey)| == |p.purchasedBooks|
    ensures StoredLoggedIn(p.store.items) == p.isLoggedIn
  {
  }

  class LandingPage {
    const store: LocalStorage
    var books: seq<Work>
    var loading: bool
    var borrowedCount: nat
    var purchasedCount: nat
    var isLoggedIn: bool

    /** The first render: counts and flag read from the store. */
    constructor (store: LocalStorage)
      ensures this.store == store && books == [] && loading
      ensures borrowedCount == |ReadStoredListOrEmpty(store.items, BorrowedKey)|
      ensures purchasedCount == |ReadStoredListOrEmpty(store.items, PurchasedKey)|
      ensures isLoggedIn == StoredLoggedIn(store.items)
    {
      this.store := store;
      books := [];
      loading := true;
      borrowedCount := |ReadStoredListOrEmpty(store.items, BorrowedKey)|;
      purchasedCount := |ReadStoredListOrEmpty(store.items, PurchasedKey)|;
      isLoggedIn := StoredLoggedIn(store.items);
    }

    /** The three cells as they would be derived from the store now. */
    ghost predicate InSync()
      reads this, store
    {
      && borrowedCount == |ReadStoredListOrEmpty(store.items, BorrowedKey)|
      && purchasedCount == |ReadStoredListOrEmpty(store.items, PurchasedKey)|
      && isLoggedIn == StoredLoggedIn(store.items)
    }

    /** `syncCartCounts`: the result depends on the store alone, so a second
        call right after the first changes nothing. */
    method SyncCartCounts()
      modifies this
      ensures InSync()
      ensures old(InSync()) ==> borrowedCount == old(borrowedCount) && purchasedCount == old(purchasedCount) && isLoggedIn == old(isLoggedIn)
      ensures books == old(books) && loading == old(loading)
    {
      borrowedCount := |ReadStoredListOrEmpty(store.items, BorrowedKey)|;
      purchasedCount := |ReadStoredListOrEmpty(store.items, PurchasedKey)|;
      isLoggedIn := StoredLoggedIn(store.items);
    }

    /** A successful trending fetch keeps the first 8 works, none when `works` is not an array. */
    method HandleTrendingResponse(works: Option<seq<Work>>)
      modifies this
      ensures books == if works.Some? then Take(works.value, 8) else []
      ensures |books| <= 8 && !loading
      ensures borrowedCount == old(borrowedCount) && purchasedCount == old(purchasedCount) && isLoggedIn == old(isLoggedIn)
    {
      var list := if works.Some? then works.value else [];
      books := Take(list, 8);
      loading := false;
    }

    /** A failed trending fetch: no works. */
    method HandleTrendingFailure()
      modifies this
      ensures books == [] && !loading
      ensures borrowedCount == old(borrowedCount) && purchasedCount == old(purchasedCount) && isLoggedIn == old(isLoggedIn)
    {
      books := [];
      loading := false;
    }
  }
}
